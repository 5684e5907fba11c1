/** Whole runs of the file system against a table of byte strings. */
module SacRuns {
  import opened Options
  import opened Blocks
  import opened Sac
  import opened SacOwner
  import opened SacFiles
  import opened SacAppend
  import opened SacCreate
  import opened SacUnlink
  import opened SacZeros
  import opened SacStates

  // ---- one append -----------------------------------------------------------

  /** An append keeps the invariant of the file system. */
  lemma AppendSano(s: Fs, d: Duenio, u: Vivos, k: nat, datos: Bytes)
    requires Sano(s, d, u) && k in u && k < BLOCKS_NODE && s.nodos[k].size < INT_MAX
    requires Write(s, k, datos, s.nodos[k].size).Hecho?
    ensures var s', (d', u') := Write(s, k, datos, s.nodos[k].size).fs, TrasAppend(s, d, u, k);
            Sano(s', d', u') && u'.Keys == u.Keys && Sigue(s, k) < u'[k]
  {
    AppendExact(s, d, u, k, datos);
    SigueMeans(s, d, u, k);
    var s' := Write(s, k, datos, s.nodos[k].size).fs;
    var (d', u') := TrasAppend(s, d, u, k);
    FormaInv(s', d', u');
    EsArchivo(s', d', u', k);
    hide Inv, Write, Leido, AllocDuenio, Ampliado, Sobra;
  }

  /** Reading where an append wrote gives back what it stored. */
  ghost predicate LeeLoEscrito(s: Fs, k: nat, datos: Bytes)
    requires Forma(s) && k < BLOCKS_NODE
  {
    LeeLoPuesto(s, k, datos, s.nodos[k].size)
  }

  /** What is read where an append wrote. */
  lemma AppendThenRead(s: Fs, d: Duenio, u: Vivos, k: nat, datos: Bytes)
    requires Sano(s, d, u) && k in u && k < BLOCKS_NODE && s.nodos[k].size < INT_MAX
    requires Write(s, k, datos, s.nodos[k].size).Hecho?
    ensures var s' := Write(s, k, datos, s.nodos[k].size).fs;
            && Forma(s')
            && var r := Read(s', k, |datos|, s.nodos[k].size);
               && r.Some? && |r.value| == Cabe(s.nodos[k].size, |datos|)
               && forall x: nat | x < |r.value| :: r.value[x] == Agregado(Leido(s, k), datos)[s.nodos[k].size + x]
  {
    hide Inv, Vacantes, Write, Read, TrasAppend, Agregado, Cabe, Contenido, Resto, Sobra;
    FormaInv(s, d, u);
    AppendExact(s, d, u, k, datos);
    AppendSano(s, d, u, k, datos);
    var s' := Write(s, k, datos, s.nodos[k].size).fs;
    var (d', u') := TrasAppend(s, d, u, k);
    FormaInv(s', d', u');
    ReadExact(s', d', u', k, |datos|, s.nodos[k].size);
  }

  /** Node k can be appended to. */
  ghost predicate ConLugar(s: Fs, d: Duenio, u: Vivos, k: nat) {
    && Sano(s, d, u) && k in u && k < BLOCKS_NODE && s.nodos[k].size < INT_MAX
    && (u[k] == Sigue(s, k) ==> Libres(s.bitmap, 0) >= Necesita(u, k))
  }

  lemma AlignedReads(s: Fs, d: Duenio, u: Vivos, k: nat, datos: Bytes)
    requires ConLugar(s, d, u, k) && s.nodos[k].size % BLOCK_SIZE == 0
    ensures Forma(s) && LeeLoEscrito(s, k, datos)
  {
    hide Inv, Vacantes, Write, Read, TrasAppend, Agregado, Contenido, Resto, Cabe, Sobra;
    FormaInv(s, d, u);
    var n, t := s.nodos[k].size, Leido(s, k);
    AppendExact(s, d, u, k, datos);
    AppendThenRead(s, d, u, k, datos);
    AgregadoAligned(t, datos);
    JoinedTail(t.bytes, datos[..Cabe(n, |datos|)], Read(Write(s, k, datos, n).fs, k, |datos|, n).value);
  }

  lemma JoinedTail(c: Bytes, datos: Bytes, r: Bytes)
    requires |r| == |datos| && forall x: nat | x < |r| :: r[x] == (c + datos)[|c| + x]
    ensures r == datos
  {
  }

  /** Elsewhere some byte does not come back: any but the one left there. */
  lemma UnalignedMisses(s: Fs, d: Duenio, u: Vivos, k: nat) returns (v: byte)
    requires ConLugar(s, d, u, k) && s.nodos[k].size % BLOCK_SIZE != 0
    ensures Forma(s) && !LeeLoEscrito(s, k, [v])
  {
    hide Inv, Vacantes, Write, Read, TrasAppend, Agregado, Contenido, Resto, Cabe, Sobra;
    FormaInv(s, d, u);
    var n, t := s.nodos[k].size, Leido(s, k);
    v := if t.resto[0] == 1 then 2 else 1;
    AppendExact(s, d, u, k, [v]);
    AppendThenRead(s, d, u, k, [v]);
    AgregadoUnaligned(t, v);
    assert Cabe(n, 1) == 1;
    var r := Read(Write(s, k, [v], n).fs, k, 1, n).value;
    assert r[0] == t.resto[0];
  }

  /** Every append that finds the blocks it needs reads back exactly when the file ends on a
      block boundary: elsewhere the bytes go to the start of the block, not to its end. */
  lemma AppendReadsBack(s: Fs, d: Duenio, u: Vivos, k: nat)
    requires ConLugar(s, d, u, k)
    ensures Forma(s) && ((forall datos: Bytes :: LeeLoEscrito(s, k, datos)) <==> s.nodos[k].size % BLOCK_SIZE == 0)
  {
    FormaInv(s, d, u);
    hide ConLugar, LeeLoEscrito, Forma;
    if s.nodos[k].size % BLOCK_SIZE == 0 {
      forall datos: Bytes ensures LeeLoEscrito(s, k, datos) {
        AlignedReads(s, d, u, k, datos);
      }
    } else {
      var v := UnalignedMisses(s, d, u, k);
    }
  }

  // ---- runs -----------------------------------------------------------------

  /** A request to the file system on node numbers, after path resolution. */
  datatype Evento =
    | Crea(existe: bool, directorio: Option<nat>, nombre: string)
    | Directorio(existe: bool, directorio: Option<nat>, nombre: string)
    | Agrega(k: nat, datos: Bytes)
    | Borra(k: nat)

  /** The files as byte strings, each with what follows it in its last block. */
  type Modelo = map<nat, Texto>

  ghost predicate Refina(s: Fs, d: Duenio, u: Vivos, m: Modelo) {
    && Sano(s, d, u) && m.Keys == u.Keys
    && forall k | k in m :: k < BLOCKS_NODE && m[k] == Leido(s, k)
  }

  /** One request on the image and on the byte strings. The image tells the byte strings which
      node a create took, what was refused, and what a new block held after the bytes stored in
      it. None is a request on no live file, an offset past 2^31, or an access outside the
      tables. */
  function Paso(s: Fs, m: Modelo, e: Evento): Option<(Fs, Modelo)>
    requires Forma(s)
  {
    match e
    case Crea(x, dir, nombre) =>
      (match Create(s, x, dir, nombre)
       case Creado(s') =>
         if NodoLibre(s.nodos, 0).Some? then Some((s', m[NodoLibre(s.nodos, 0).value := Texto([], [])])) else None
       case Cuota(s') => Some((s', m))
       case YaExiste => Some((s, m))
       case SinDirectorio => Some((s, m))
       case FueraDeTabla => None)
    case Directorio(x, dir, nombre) =>
      (match Mkdir(s, x, dir, nombre)
       case Creado(s') => Some((s', m))
       case Cuota(s') => Some((s', m))
       case YaExiste => Some((s, m))
       case SinDirectorio => Some((s, m))
       case FueraDeTabla => None)
    case Agrega(k, datos) =>
      if k !in m || k >= BLOCKS_NODE || s.nodos[k].size >= INT_MAX || |m[k].resto| != Falta(|m[k].bytes|) then None
      else
        (match Write(s, k, datos, s.nodos[k].size)
         case Hecho(s') =>
           if k < |s'.nodos| then Some((s', m[k := Ampliado(m[k], datos, Resto(s', k))])) else None
         case SinEspacio(s') => Some((s', m))
         case Caida => None)
    case Borra(k) =>
      if k !in m || k >= BLOCKS_NODE then None
      else
        (match Unlink(s, k)
         case Some(s') => Some((s', m - {k}))
         case None => None)
  }

  /** The requests a run can take: on live files, below 2^31, with a free node to create. */
  predicate Bien(s: Fs, m: Modelo, e: Evento) {
    match e
    case Crea(x, dir, _) => x || dir.None? || NodoLibre(s.nodos, 0).Some?
    case Directorio(_, _, _) => true
    case Agrega(k, _) => k in m && |m[k].bytes| < INT_MAX
    case Borra(k) => k in m
  }

  /** What a request or a run from (s, d, u) leaves: the image refines the byte strings, and if
      its free blocks were zeroed, they are. */
  ghost predicate Lleva(s: Fs, d: Duenio, u: Vivos, s': Fs, d': Duenio, u': Vivos, m': Modelo) {
    Refina(s', d', u', m') && (Cerosa(s, d, u) ==> Cerosa(s', d', u'))
  }

  lemma SanoInv(s: Fs, d: Duenio, u: Vivos)
    requires Sano(s, d, u)
    ensures Inv(s, d, u, ENTERO) && Forma(s)
  {
  }

  lemma FormaRefina(s: Fs, d: Duenio, u: Vivos, m: Modelo)
    requires Refina(s, d, u, m)
    ensures Forma(s)
  {
    SanoInv(s, d, u);
  }

  // ---- creates and directories ----------------------------------------------

  lemma PasoCreaFunciona(s: Fs, d: Duenio, u: Vivos, m: Modelo, k: nat, root: nat, nombre: string)
    requires Refina(s, d, u, m) && Forma(s) && NodoLibre(s.nodos, 0) == Some(k) && Libres(s.bitmap, 0) >= 2
    ensures var r := Create(s, false, Some(root), nombre);
            r.Creado? && Lleva(s, d, u, r.fs, TrasCreate(s, d, k), u[k := 1], m[k := Texto([], [])])
  {
    hide Sano, Inv, Leido, Create, Libres, NodoLibre, Cerosa, TrasCreate;
    CreateWorks(s, d, u, k, root, nombre);
    if Cerosa(s, d, u) { CreateCerosa(s, d, u, k, root, nombre); }
  }

  /** A block reserved and linked to nothing changes no file. */
  lemma PerdidoRefina(s: Fs, d: Duenio, u: Vivos, m: Modelo, b: nat)
    requires Refina(s, d, u, m) && Forma(s) && b < |s.bitmap| && !s.bitmap[b]
    ensures Lleva(s, d, u, Marcar(s, b, true), d[b := Perdido], u, m)
  {
    PerdidoKeeps(s, d, u, b);
    FormaRefina(s, d, u, m);
    hide Sano, Leido, Cerosa, Trozo;
    if Cerosa(s, d, u) { PerdidoCerosa(s, d, u, b); }
  }

  /** Nor does the record of a node that is no live file. */
  lemma AjenoRefina(s: Fs, d: Duenio, u: Vivos, m: Modelo, k: nat, g: GFile)
    requires Refina(s, d, u, m) && Forma(s) && k < BLOCKS_NODE && k !in u && |g.punteros| == BLOCKS_INDIRECT
    requires g.status != T_DELETED
    ensures Lleva(s, d, u, ConNodo(s, k, g), d, u, m)
  {
    AjenoKeeps(s, d, u, k, g);
    hide Sano, Leido, Cerosa, Trozo;
    if Cerosa(s, d, u) { AjenoCerosa(s, d, u, k, g); }
  }

  lemma LlevaTrans(s: Fs, d: Duenio, u: Vivos, s1: Fs, d1: Duenio, u1: Vivos, m1: Modelo,
                   s2: Fs, d2: Duenio, u2: Vivos, m2: Modelo)
    requires Lleva(s, d, u, s1, d1, u1, m1) && Lleva(s1, d1, u1, s2, d2, u2, m2)
    ensures Lleva(s, d, u, s2, d2, u2, m2)
  {
  }

  lemma PasoCreaFalla(s: Fs, d: Duenio, u: Vivos, m: Modelo, k: nat, root: nat, nombre: string) returns (d': Duenio)
    requires Refina(s, d, u, m) && Forma(s) && NodoLibre(s.nodos, 0) == Some(k) && Libres(s.bitmap, 0) < 2
    ensures var r := Create(s, false, Some(root), nombre);
            r.Cuota? && Lleva(s, d, u, r.fs, d', u, m)
  {
    SanoInv(s, d, u);
    CreateFailsIs(s, k, root, nombre);
    LibreAjeno(s, d, u);
    hide Refina, Create, Libres, PrimerLibre, NodoLibre, Lleva, Inv;
    if Libres(s.bitmap, 0) == 0 {
      d' := d;
      AjenoRefina(s, d, u, m, k, Tomado(s, k, root).nodos[k]);
    } else {
      var n := PrimerLibre(s.bitmap, 0).value;
      d' := d[n := Perdido];
      PerdidoRefina(s, d, u, m, n);
      PerdidoYNodo(s, d, u, m, n, k, AMedias(s.nodos[k], root, n));
    }
  }

  /** A block lost and a node's record changed. */
  lemma PerdidoYNodo(s: Fs, d: Duenio, u: Vivos, m: Modelo, b: nat, k: nat, g: GFile)
    requires Refina(s, d, u, m) && Forma(s) && b < |s.bitmap| && !s.bitmap[b]
    requires k < BLOCKS_NODE && k !in u && |g.punteros| == BLOCKS_INDIRECT && g.status != T_DELETED
    ensures Lleva(s, d, u, ConNodo(Marcar(s, b, true), k, g), d[b := Perdido], u, m)
  {
    PerdidoRefina(s, d, u, m, b);
    var s1, d1 := Marcar(s, b, true), d[b := Perdido];
    hide Refina, Cerosa;
    AjenoRefina(s1, d1, u, m, k, g);
  }

  lemma PasoCrea(s: Fs, d: Duenio, u: Vivos, m: Modelo, e: Evento) returns (d': Duenio, u': Vivos)
    requires Refina(s, d, u, m) && Forma(s) && Bien(s, m, e) && e.Crea?
    ensures Paso(s, m, e).Some? && Lleva(s, d, u, Paso(s, m, e).value.0, d', u', Paso(s, m, e).value.1)
  {
    d', u' := d, u;
    hide Refina, Libres, Cerosa;
    if !e.existe && e.directorio.Some? {
      var k := NodoLibre(s.nodos, 0).value;
      hide Create, NodoLibre, Lleva;
      if Libres(s.bitmap, 0) >= 2 {
        PasoCreaFunciona(s, d, u, m, k, e.directorio.value, e.nombre);
        d', u' := TrasCreate(s, d, k), u[k := 1];
      } else {
        d' := PasoCreaFalla(s, d, u, m, k, e.directorio.value, e.nombre);
      }
    }
  }

  /** A directory takes a node and loses a block: one bit more is set, and nothing leads to
      that block. It is refused, changing nothing, exactly when a node or a block is missing. */
  lemma MkdirExact(s: Fs, d: Duenio, u: Vivos, root: nat, nombre: string)
    requires Sano(s, d, u) && Forma(s)
    ensures var r := Mkdir(s, false, Some(root), nombre);
            && (r.Creado? <==> NodoLibre(s.nodos, 0).Some? && 1 <= Libres(s.bitmap, 0))
            && (!r.Creado? ==> r == Cuota(s))
            && (r.Creado? ==>
                  && PrimerLibre(s.bitmap, 0).Some?
                  && var k, b := NodoLibre(s.nodos, 0).value, PrimerLibre(s.bitmap, 0).value;
                     && k !in u && Sano(r.fs, d[b := Perdido], u) && Libres(r.fs.bitmap, 0) == Libres(s.bitmap, 0) - 1
                     && r.fs == ConNodo(Marcar(s, b, true), k, GFile(T_DIR, nombre, root, 0, s.nodos[k].punteros))
                     && forall k' | k' in u :: k' < BLOCKS_NODE && Leido(r.fs, k') == Leido(s, k'))
  {
    DosLibres(s.bitmap);
    var r := Mkdir(s, false, Some(root), nombre);
    if r.Creado? {
      var k, b := NodoLibre(s.nodos, 0).value, PrimerLibre(s.bitmap, 0).value;
      LibresSet(s.bitmap, b, true, 0);
      SanoInv(s, d, u);
      LibreAjeno(s, d, u);
      VivosSmall(s, d, u);
      hide Inv, Leido, NodoLibre, PrimerLibre, Libres, Trozo;
      PerdidoKeeps(s, d, u, b);
      AjenoKeeps(Marcar(s, b, true), d[b := Perdido], u, k, r.fs.nodos[k]);
    }
  }

  lemma PasoDirectorio(s: Fs, d: Duenio, u: Vivos, m: Modelo, e: Evento) returns (d': Duenio, u': Vivos)
    requires Refina(s, d, u, m) && Forma(s) && e.Directorio?
    ensures Paso(s, m, e).Some? && Lleva(s, d, u, Paso(s, m, e).value.0, d', u', Paso(s, m, e).value.1)
  {
    d', u' := d, u;
    hide Sano, Leido, Libres, NodoLibre, PrimerLibre, Cerosa;
    if !e.existe && e.directorio.Some? && Mkdir(s, false, e.directorio, e.nombre).Creado? {
      MkdirExact(s, d, u, e.directorio.value, e.nombre);
      var k, b := NodoLibre(s.nodos, 0).value, PrimerLibre(s.bitmap, 0).value;
      d' := d[b := Perdido];
      PerdidoYNodo(s, d, u, m, b, k, GFile(T_DIR, e.nombre, e.directorio.value, 0, s.nodos[k].punteros));
    }
  }

  // ---- appends and deletes --------------------------------------------------

  lemma PasoAgrega(s: Fs, d: Duenio, u: Vivos, m: Modelo, e: Evento)
    requires Refina(s, d, u, m) && Forma(s) && Bien(s, m, e) && e.Agrega?
    ensures e.k in m && e.k in u && e.k < BLOCKS_NODE && Paso(s, m, e).Some?
    ensures |m[e.k].resto| == Falta(|m[e.k].bytes|)
    ensures var (s', m') := Paso(s, m, e).value;
            if Write(s, e.k, e.datos, s.nodos[e.k].size).Hecho? then
              var (d', u') := TrasAppend(s, d, u, e.k);
              && Lleva(s, d, u, s', d', u', m') && s' == Write(s, e.k, e.datos, s.nodos[e.k].size).fs
              && e.k < |s'.nodos| && m' == m[e.k := Ampliado(m[e.k], e.datos, Resto(s', e.k))]
            else s' == s && m' == m
  {
    hide Sano, Inv, Contenido, Resto, Write, TrasAppend, Agregado, Cerosa, Sobra;
    SanoInv(s, d, u);
    AppendExact(s, d, u, e.k, e.datos);
    if Write(s, e.k, e.datos, s.nodos[e.k].size).Hecho? {
      AppendSano(s, d, u, e.k, e.datos);
      if Cerosa(s, d, u) { AppendCerosa(s, d, u, e.k, e.datos); }
      SobraIs(s, d, u, e.k, e.datos);
    }
  }

  /** What follows the file after an append is what the model is told. */
  lemma SobraIs(s: Fs, d: Duenio, u: Vivos, k: nat, datos: Bytes)
    requires Escribible(s, d, u, k) && Forma(s) && Write(s, k, datos, s.nodos[k].size).Hecho?
    requires var s' := Write(s, k, datos, s.nodos[k].size).fs; k < |s'.nodos|
    requires Leido(Write(s, k, datos, s.nodos[k].size).fs, k)
             == Ampliado(Leido(s, k), datos, Sobra(s, u, k, Cabe(s.nodos[k].size, |datos|)))
    ensures var s' := Write(s, k, datos, s.nodos[k].size).fs;
            Leido(s', k) == Ampliado(Leido(s, k), datos, Resto(s', k))
  {
    hide Write, Inv, Contenido, Resto, Agregado, Sobra, Cabe;
  }

  lemma PasoBorra(s: Fs, d: Duenio, u: Vivos, m: Modelo, e: Evento)
    requires Refina(s, d, u, m) && Forma(s) && Bien(s, m, e) && e.Borra?
    ensures Paso(s, m, e).Some?
    ensures Lleva(s, d, u, Paso(s, m, e).value.0, SinNodo(d, e.k), u - {e.k}, Paso(s, m, e).value.1)
  {
    hide Sano, Inv, Leido, Unlink, SinNodo, Cerosa, Suelta, Trozo;
    UnlinkExact(s, d, u, e.k);
    if Cerosa(s, d, u) { UnlinkCerosa(s, d, u, e.k); }
  }

  /** Each request does to the image what it does to the byte strings. */
  lemma PasoRefina(s: Fs, d: Duenio, u: Vivos, m: Modelo, e: Evento) returns (d': Duenio, u': Vivos)
    requires Refina(s, d, u, m) && Bien(s, m, e)
    ensures Forma(s) && Paso(s, m, e).Some?
    ensures Lleva(s, d, u, Paso(s, m, e).value.0, d', u', Paso(s, m, e).value.1)
  {
    FormaRefina(s, d, u, m);
    match e
    case Crea(_, _, _) =>
      hide Paso, Bien, Refina;
      d', u' := PasoCrea(s, d, u, m, e);
    case Directorio(_, _, _) =>
      hide Paso, Bien, Refina;
      d', u' := PasoDirectorio(s, d, u, m, e);
    case Agrega(k, datos) =>
      hide Paso, Bien, Refina, Write, TrasAppend, Ampliado, Cerosa;
      PasoAgrega(s, d, u, m, e);
      if Write(s, k, datos, s.nodos[k].size).Hecho? {
        d', u' := TrasAppend(s, d, u, k).0, TrasAppend(s, d, u, k).1;
      } else {
        d', u' := d, u;
      }
    case Borra(k) =>
      hide Paso, Bien, Refina, SinNodo;
      PasoBorra(s, d, u, m, e);
      d', u' := SinNodo(d, k), u - {k};
  }

  // ---- runs -----------------------------------------------------------------

  /** A run; None if some request is not one the run can take. */
  function Correr(s: Fs, m: Modelo, es: seq<Evento>): Option<(Fs, Modelo)>
    requires Forma(s)
    decreases |es|
  {
    if es == [] then Some((s, m))
    else if !Bien(s, m, es[0]) then None
    else
      match Paso(s, m, es[0])
      case None => None
      case Some((s1, m1)) => if Forma(s1) then Correr(s1, m1, es[1..]) else None
  }

  /** Over any run of creates, appends, deletes and directories, refused or not, on an image
      whose free blocks hold anything, the image holds exactly the byte strings, and every block
      has one owner. */
  lemma {:induction false} RunRefines(s: Fs, d: Duenio, u: Vivos, m: Modelo, es: seq<Evento>)
    requires Refina(s, d, u, m)
    ensures Forma(s)
    ensures Correr(s, m, es).Some? ==>
              exists d', u' :: Lleva(s, d, u, Correr(s, m, es).value.0, d', u', Correr(s, m, es).value.1)
    decreases |es|
  {
    FormaRefina(s, d, u, m);
    hide Refina, Paso, Bien, Cerosa;
    if es != [] && Bien(s, m, es[0]) {
      var d1, u1 := PasoRefina(s, d, u, m, es[0]);
      var r := Paso(s, m, es[0]).value;
      RunRefines(r.0, d1, u1, r.1, es[1..]);
      if Correr(s, m, es).Some? {
        var fin := Correr(r.0, r.1, es[1..]).value;
        var d', u' :| Lleva(r.0, d1, u1, fin.0, d', u', fin.1);
        LlevaTrans(s, d, u, r.0, d1, u1, r.1, fin.0, d', u', fin.1);
      }
    } else {
      assert Lleva(s, d, u, s, d, u, m);
    }
  }

  /** A run only stops at a request it cannot take: no handler reaches outside the tables. */
  lemma {:induction false} RunTotal(s: Fs, d: Duenio, u: Vivos, m: Modelo, es: seq<Evento>, e: Evento)
    requires Refina(s, d, u, m) && Forma(s) && Correr(s, m, es).Some?
    requires Forma(Correr(s, m, es).value.0)
    requires Bien(Correr(s, m, es).value.0, Correr(s, m, es).value.1, e)
    ensures Correr(s, m, es + [e]).Some?
    decreases |es|
  {
    hide Refina, Paso, Bien, Cerosa, Forma;
    if es == [] {
      var d1, u1 := PasoRefina(s, d, u, m, e);
      var r := Paso(s, m, e).value;
      assert ([e])[1..] == [];
      FormaRefina(r.0, d1, u1, r.1);
    } else {
      var d1, u1 := PasoRefina(s, d, u, m, es[0]);
      var r := Paso(s, m, es[0]).value;
      assert (es + [e])[1..] == es[1..] + [e];
      RunTotal(r.0, d1, u1, r.1, es[1..], e);
    }
  }

  /** The byte at a position of a file, or of what follows it in its last block. */
  function ByteDe(t: Texto, pos: nat): byte
    requires pos < |t.bytes| + |t.resto|
  {
    if pos < |t.bytes| then t.bytes[pos] else t.resto[pos - |t.bytes|]
  }

  /** r is the stretch of file t from the offset on. */
  ghost predicate EsTramo(r: Bytes, t: Texto, offset: nat) {
    offset + |r| <= |t.bytes| + |t.resto| && forall x: nat | x < |r| :: r[x] == ByteDe(t, offset + x)
  }

  /** After any run, `sac_read` returns the bytes of the file, then what follows it in the
      block. */
  lemma ReadAfterRun(s: Fs, d: Duenio, u: Vivos, m: Modelo, es: seq<Evento>, k: nat, n: nat, offset: nat)
    requires Refina(s, d, u, m) && Forma(s) && Correr(s, m, es).Some?
    requires k in Correr(s, m, es).value.1 && offset < |Correr(s, m, es).value.1[k].bytes| && offset < INT_MAX
    ensures var (s', m') := Correr(s, m, es).value;
            && Forma(s') && k < BLOCKS_NODE && Read(s', k, n, offset).Some?
            && var r := Read(s', k, n, offset).value; |r| == Cabe(offset, n) && EsTramo(r, m'[k], offset)
  {
    hide Correr, Sano, Read, Cerosa, Contenido, Resto, EsTramo;
    RunRefines(s, d, u, m, es);
    var (s', m') := Correr(s, m, es).value;
    var d', u' :| Lleva(s, d, u, s', d', u', m');
    SanoInv(s', d', u');
    ReadLeido(s', d', u', k, n, offset);
  }

  lemma ReadLeido(s: Fs, d: Duenio, u: Vivos, k: nat, n: nat, offset: nat)
    requires Sano(s, d, u) && Forma(s) && k in u && k < BLOCKS_NODE && offset < s.nodos[k].size && offset < INT_MAX
    ensures Read(s, k, n, offset).Some?
    ensures var r, t := Read(s, k, n, offset).value, Leido(s, k);
            |r| == Cabe(offset, n) && EsTramo(r, t, offset)
  {
    hide Sano, Read, Inv, Leido, ByteDe, Cabe;
    SanoInv(s, d, u);
    InsideFile(s, d, u, k, offset);
    ReadExact(s, d, u, k, n, offset);
    var r, t := Read(s, k, n, offset).value, Leido(s, k);
    forall x: nat | x < |r| ensures offset + x < |t.bytes| + |t.resto| && r[x] == ByteDe(t, offset + x) {
      ReadLeidoAt(s, d, u, k, n, offset, x);
    }
    if 0 < |r| {
      ReadLeidoAt(s, d, u, k, n, offset, |r| - 1);
    } else {
      LeidoSize(s, k);
    }
  }

  lemma LeidoSize(s: Fs, k: nat)
    requires k < |s.nodos|
    ensures |Leido(s, k).bytes| == s.nodos[k].size
  {
  }

  lemma ReadLeidoAt(s: Fs, d: Duenio, u: Vivos, k: nat, n: nat, offset: nat, x: nat)
    requires Sano(s, d, u) && Forma(s) && k in u && k < BLOCKS_NODE && offset < s.nodos[k].size && offset < INT_MAX
    requires Read(s, k, n, offset).Some? && x < |Read(s, k, n, offset).value|
    ensures var r, t := Read(s, k, n, offset).value, Leido(s, k);
            offset + x < |t.bytes| + |t.resto| && r[x] == ByteDe(t, offset + x)
  {
    hide Sano, Read, Inv, Contenido, Cabe, Trozo, Resto, Falta;
    SanoInv(s, d, u);
    InsideFile(s, d, u, k, offset);
    ReadExact(s, d, u, k, n, offset);
    var t := Leido(s, k);
    if |t.bytes| <= offset + x { RestoEn(s, k, offset, x, offset + x - |t.bytes|); }
  }

  lemma RestoEn(s: Fs, k: nat, offset: nat, x: nat, j: nat)
    requires k < |s.nodos| && offset < s.nodos[k].size <= offset + x && offset % BLOCK_SIZE + x < BLOCK_SIZE
    requires j == offset + x - s.nodos[k].size
    ensures j < Falta(s.nodos[k].size)
    ensures Resto(s, k)[j] == Trozo(s, k, offset / BLOCK_SIZE)[offset % BLOCK_SIZE + x]
  {
    hide Trozo;
    MismoBloque(offset, x, s.nodos[k].size);
  }

  /** A position past the end of a file, in the block of one before it, is in its last block. */
  lemma MismoBloque(offset: nat, x: nat, size: nat)
    requires offset < size <= offset + x && offset % BLOCK_SIZE + x < BLOCK_SIZE
    ensures size % BLOCK_SIZE != 0 && size / BLOCK_SIZE == offset / BLOCK_SIZE
    ensures offset + x - size < BLOCK_SIZE - size % BLOCK_SIZE
    ensures size % BLOCK_SIZE + (offset + x - size) == offset % BLOCK_SIZE + x
  {
  }

  lemma InsideFile(s: Fs, d: Duenio, u: Vivos, k: nat, offset: nat)
    requires Inv(s, d, u, ENTERO) && k in u && k < BLOCKS_NODE && offset < s.nodos[k].size
    ensures offset / BLOCK_SIZE < u[k]
  {
    TamanioEntra(s, d, u, k);
  }

  // ---- the start ------------------------------------------------------------

  /** An image just formatted: its first h blocks are the tables and marked, no other is, and
      every node is unused and leads nowhere. Its free blocks hold anything. */
  ghost predicate Formateada(s: Fs, h: nat) {
    && Forma(s) && 0 < h <= |s.bitmap|
    && (forall b: nat | b < |s.bitmap| :: s.bitmap[b] <==> b < h)
    && (forall k: nat | k < BLOCKS_NODE :: s.nodos[k].status == T_DELETED)
    && (forall k: nat, i: nat | k < BLOCKS_NODE && i < BLOCKS_INDIRECT :: s.nodos[k].punteros[i] == 0)
  }

  function Tablas(h: nat): (d: Duenio)
    ensures forall b: nat :: b in d <==> b < h
    ensures forall b | b in d :: d[b] == Sistema
  {
    if h == 0 then map[] else Tablas(h - 1)[h - 1 := Sistema]
  }

  /** It holds no file, and its tables own their blocks. */
  lemma FormattedRefines(s: Fs, h: nat)
    requires Formateada(s, h)
    ensures Refina(s, Tablas(h), map[], map[])
  {
    hide Destino;
  }
}
