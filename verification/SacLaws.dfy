/** Laws over runs on one file: its chunks read back, and deleting it gives every block back. */
module SacLaws {
  import opened Options
  import opened Blocks
  import opened Sac
  import opened SacOwner
  import opened SacFiles
  import opened SacAppend
  import opened SacCreate
  import opened SacUnlink
  import opened SacZeros
  import opened SacRuns

  // ---- appends to one file --------------------------------------------------

  /** Only appends to k. */
  predicate SoloAgrega(es: seq<Evento>, k: nat) {
    forall i: nat | i < |es| :: es[i].Agrega? && es[i].k == k
  }

  lemma AllocSinNodo(s: Fs, d: Duenio, u: Vivos, k: nat)
    requires Marcas(s, d)
    ensures SinNodo(AllocDuenio(s, d, u, k), k) == SinNodo(d, k)
  {
  }

  lemma AppendSinNodo(s: Fs, d: Duenio, u: Vivos, k: nat)
    requires Marcas(s, d) && k < |s.nodos| && k in u
    ensures SinNodo(TrasAppend(s, d, u, k).0, k) == SinNodo(d, k) && TrasAppend(s, d, u, k).1.Keys == u.Keys
  {
    AllocSinNodo(s, d, u, k);
    hide AllocDuenio, SinNodo, Marcas;
  }

  lemma RefinaMarcas(s: Fs, d: Duenio, u: Vivos, m: Modelo)
    requires Refina(s, d, u, m)
    ensures Marcas(s, d)
  {
  }

  lemma WriteBitmap(s: Fs, k: nat, datos: Bytes, offset: nat)
    requires Forma(s) && k < BLOCKS_NODE && Write(s, k, datos, offset).Hecho?
    ensures |Write(s, k, datos, offset).fs.bitmap| == |s.bitmap|
  {
  }

  /** One append, refused or not, changes no owner but those of k's blocks. */
  lemma AppendStep(s: Fs, d: Duenio, u: Vivos, m: Modelo, e: Evento) returns (d': Duenio, u': Vivos)
    requires Refina(s, d, u, m) && Forma(s) && Bien(s, m, e) && e.Agrega?
    ensures Paso(s, m, e).Some?
    ensures var (s', m') := Paso(s, m, e).value;
            && Refina(s', d', u', m') && Forma(s') && |s'.bitmap| == |s.bitmap|
            && SinNodo(d', e.k) == SinNodo(d, e.k) && u'.Keys == u.Keys
            && e.k in m && m' == m[e.k := m'[e.k]]
  {
    hide Bien, Paso, Write, TrasAppend, SinNodo, Ampliado, Cerosa, Refina, Inv, Resto;
    PasoAgrega(s, d, u, m, e);
    if Write(s, e.k, e.datos, s.nodos[e.k].size).Hecho? {
      RefinaMarcas(s, d, u, m);
      AppendSinNodo(s, d, u, e.k);
      WriteBitmap(s, e.k, e.datos, s.nodos[e.k].size);
      d', u' := TrasAppend(s, d, u, e.k).0, TrasAppend(s, d, u, e.k).1;
      FormaRefina(Paso(s, m, e).value.0, d', u', Paso(s, m, e).value.1);
    } else {
      d', u' := d, u;
    }
  }

  lemma {:induction false} AppendRun(s: Fs, d: Duenio, u: Vivos, m: Modelo, es: seq<Evento>, k: nat)
    returns (d': Duenio, u': Vivos)
    requires Refina(s, d, u, m) && Forma(s) && SoloAgrega(es, k) && k in m && Correr(s, m, es).Some?
    ensures var (s', m') := Correr(s, m, es).value;
            && Refina(s', d', u', m') && Forma(s') && |s'.bitmap| == |s.bitmap|
            && SinNodo(d', k) == SinNodo(d, k) && u'.Keys == u.Keys
            && k in m' && m' == m[k := m'[k]]
    decreases |es|
  {
    hide Refina, SinNodo, Bien, Paso;
    if es == [] {
      d', u' := d, u;
    } else {
      assert SoloAgrega(es[1..], k);
      var d1, u1 := AppendStep(s, d, u, m, es[0]);
      var r := Paso(s, m, es[0]).value;
      d', u' := AppendRun(r.0, d1, u1, r.1, es[1..], k);
    }
  }

  /** No block of a node that is no live file has an owner in it. */
  lemma SinNodoMuerto(s: Fs, d: Duenio, u: Vivos, k: nat)
    requires Inv(s, d, u, ENTERO) && k !in u
    ensures SinNodo(d, k) == d
  {
  }

  lemma CreateSinNodo(s: Fs, d: Duenio, k: nat)
    requires Marcas(s, d)
    ensures SinNodo(TrasCreate(s, d, k), k) == SinNodo(d, k)
  {
  }

  /** A file created, appended to any number of times and deleted leaves the bitmap, the owners
      of every block and every other file exactly as they were. */
  lemma CreateAppendUnlink(s: Fs, d: Duenio, u: Vivos, m: Modelo, root: nat, nombre: string, es: seq<Evento>, k: nat)
    requires Refina(s, d, u, m) && Forma(s) && NodoLibre(s.nodos, 0) == Some(k) && Libres(s.bitmap, 0) >= 2
    requires SoloAgrega(es, k)
    ensures var r := Create(s, false, Some(root), nombre);
            && k !in m && r.Creado? && Forma(r.fs)
            && (Correr(r.fs, m[k := Texto([], [])], es).Some? ==>
                  var (s2, m2) := Correr(r.fs, m[k := Texto([], [])], es).value;
                  && Forma(s2) && k < BLOCKS_NODE && Unlink(s2, k).Some?
                  && var s3 := Unlink(s2, k).value;
                     s3.bitmap == s.bitmap && Refina(s3, d, u, m))
  {
    SanoInv(s, d, u);
    LibreAjeno(s, d, u);
    PasoCreaFunciona(s, d, u, m, k, root, nombre);
    CreateBitmap(s, k, root, nombre);
    CreateSinNodo(s, d, k);
    SinNodoMuerto(s, d, u, k);
    hide Create, NodoLibre, Libres, TrasCreate, SinNodo, Inv;
    var s1 := Create(s, false, Some(root), nombre).fs;
    FormaRefina(s1, TrasCreate(s, d, k), u[k := 1], m[k := Texto([], [])]);
    if Correr(s1, m[k := Texto([], [])], es).Some? {
      AppendsUnlink(s, d, u, m, s1, TrasCreate(s, d, k), es, k);
    }
  }

  lemma CreateBitmap(s: Fs, k: nat, root: nat, nombre: string)
    requires Forma(s) && NodoLibre(s.nodos, 0) == Some(k) && Create(s, false, Some(root), nombre).Creado?
    ensures |Create(s, false, Some(root), nombre).fs.bitmap| == |s.bitmap|
  {
  }

  lemma AppendsUnlink(s: Fs, d: Duenio, u: Vivos, m: Modelo, s1: Fs, d1: Duenio, es: seq<Evento>, k: nat)
    requires Refina(s, d, u, m) && Forma(s) && Forma(s1) && k !in m && Refina(s1, d1, u[k := 1], m[k := Texto([], [])])
    requires SinNodo(d1, k) == d && |s1.bitmap| == |s.bitmap|
    requires SoloAgrega(es, k) && Correr(s1, m[k := Texto([], [])], es).Some?
    ensures var (s2, m2) := Correr(s1, m[k := Texto([], [])], es).value;
            && Forma(s2) && k < BLOCKS_NODE && Unlink(s2, k).Some?
            && var s3 := Unlink(s2, k).value;
               s3.bitmap == s.bitmap && Refina(s3, d, u, m)
  {
    hide Refina, SinNodo, Unlink;
    var d2, u2 := AppendRun(s1, d1, u[k := 1], m[k := Texto([], [])], es, k);
    var (s2, m2) := Correr(s1, m[k := Texto([], [])], es).value;
    hide Correr;
    MapMinus(m, m2, k);
    RefinaKeys(s, d, u, m);
    UnlinkBack(s, d, u, m, s2, d2, u2, m2, k);
  }

  lemma MapMinus(m: Modelo, m2: Modelo, k: nat)
    requires k !in m && k in m2 && m2 == m[k := Texto([], [])][k := m2[k]]
    ensures m2 - {k} == m
  {
  }

  lemma RefinaKeys(s: Fs, d: Duenio, u: Vivos, m: Modelo)
    requires Refina(s, d, u, m)
    ensures m.Keys == u.Keys
  {
  }

  lemma UnlinkBack(s: Fs, d: Duenio, u: Vivos, m: Modelo, s2: Fs, d2: Duenio, u2: Vivos, m2: Modelo, k: nat)
    requires Refina(s, d, u, m) && Forma(s) && Forma(s2) && k !in m && Refina(s2, d2, u2, m2)
    requires SinNodo(d2, k) == d && |s2.bitmap| == |s.bitmap|
    requires k in m2 && m2 - {k} == m
    ensures k < BLOCKS_NODE && Unlink(s2, k).Some?
    ensures var s3 := Unlink(s2, k).value; s3.bitmap == s.bitmap && Refina(s3, d, u, m)
  {
    hide Leido, Unlink, SinNodo, Sano, Suelta, Trozo;
    UnlinkExact(s2, d2, u2, k);
    SoloUno(s, d, u, Unlink(s2, k).value, u2 - {k});
  }

  /** Owners and contents determine the bitmap and how many data blocks each file has. */
  lemma SoloUno(s: Fs, d: Duenio, u: Vivos, s3: Fs, u3: Vivos)
    requires Sano(s, d, u) && Sano(s3, d, u3) && u3.Keys == u.Keys && |s3.bitmap| == |s.bitmap|
    ensures s3.bitmap == s.bitmap && u3 == u
  {
    forall k | k in u ensures u3[k] == u[k] {
      MismoTamanio(s, d, u, s3, u3, k);
      MismoTamanio(s3, d, u3, s, u, k);
    }
  }

  /** The last data block of a file has an owner that any file with those owners has. */
  lemma MismoTamanio(s: Fs, d: Duenio, u: Vivos, s3: Fs, u3: Vivos, k: nat)
    requires Inv(s, d, u, ENTERO) && Inv(s3, d, u3, ENTERO) && k in u && k in u3
    ensures u[k] <= u3[k]
  {
    assert Archivo(s, u, ENTERO, k);
    var r := RefDe(k, u[k] - 1);
    assert Valida(u, ENTERO, r);
    var b := Destino(s, r);
    assert b in d && d[b] == r;
    assert Valida(u3, ENTERO, r);
  }

  // ---- chunks ---------------------------------------------------------------

  /** Appends a FUSE client makes: whole blocks, the last one perhaps shorter. */
  predicate PorBloques(es: seq<Evento>, k: nat) {
    && SoloAgrega(es, k)
    && (forall i: nat | i + 1 < |es| :: |es[i].datos| == BLOCK_SIZE)
    && (es != [] ==> |es[|es| - 1].datos| <= BLOCK_SIZE)
  }

  /** The bytes of a run of appends, one after another. */
  function Juntos(es: seq<Evento>): Bytes
    requires forall i: nat | i < |es| :: es[i].Agrega?
  {
    if es == [] then [] else es[0].datos + Juntos(es[1..])
  }

  lemma Corrido(a: Bytes, b: Bytes, lo: nat, hi: nat)
    requires lo <= hi <= |b|
    ensures (a + b)[|a| + lo..|a| + hi] == b[lo..hi]
  {
  }

  lemma {:induction false} JuntosAt(es: seq<Evento>, k: nat, i: nat)
    requires PorBloques(es, k) && i < |es|
    ensures BLOCK_SIZE * i + |es[i].datos| <= |Juntos(es)|
    ensures Juntos(es)[BLOCK_SIZE * i..BLOCK_SIZE * i + |es[i].datos|] == es[i].datos
  {
    PorBloquesTail(es, k);
    hide PorBloques, SoloAgrega;
    if i == 0 {
      assert Juntos(es)[..|es[0].datos|] == es[0].datos;
    } else {
      JuntosAt(es[1..], k, i - 1);
      assert es[1..][i - 1] == es[i];
      var j, n := Juntos(es[1..]), |es[i].datos|;
      var lo := BLOCK_SIZE * (i - 1);
      Corrido(es[0].datos, j, lo, lo + n);
    }
  }

  /** No request of the run was refused for lack of blocks. */
  predicate Aceptados(s: Fs, m: Modelo, es: seq<Evento>)
    requires Forma(s)
    decreases |es|
  {
    es == [] ||
    (Bien(s, m, es[0]) && es[0].Agrega? && es[0].k < BLOCKS_NODE
     && Write(s, es[0].k, es[0].datos, s.nodos[es[0].k].size).Hecho?
     && Paso(s, m, es[0]).Some? && Forma(Paso(s, m, es[0]).value.0)
     && Aceptados(Paso(s, m, es[0]).value.0, Paso(s, m, es[0]).value.1, es[1..]))
  }

  /** Then the file's bytes are the old ones and the appended ones in order. */
  lemma {:induction false} AppendsJoin(s: Fs, d: Duenio, u: Vivos, m: Modelo, es: seq<Evento>, k: nat)
    requires Refina(s, d, u, m) && Forma(s) && PorBloques(es, k) && k in m && |m[k].bytes| % BLOCK_SIZE == 0
    requires Aceptados(s, m, es)
    ensures Correr(s, m, es).Some?
    ensures k in Correr(s, m, es).value.1 && Correr(s, m, es).value.1[k].bytes == m[k].bytes + Juntos(es)
    decreases |es|
  {
    hide Refina, Bien, Agregado, Paso, Write, PorBloques, SoloAgrega, Aceptados;
    if es != [] {
      PorBloquesTail(es, k);
      var d1, u1 := AppendsJoinStep(s, d, u, m, es, k);
      var r := Paso(s, m, es[0]).value;
      if |es| == 1 {
        assert es[1..] == [];
        assert Juntos(es) == es[0].datos + [];
      } else {
        AppendsJoin(r.0, d1, u1, r.1, es[1..], k);
        assert (m[k].bytes + es[0].datos) + Juntos(es[1..]) == m[k].bytes + Juntos(es);
      }
    }
  }

  lemma PorBloquesAt(es: seq<Evento>, k: nat, i: nat)
    requires PorBloques(es, k) && i < |es|
    ensures forall x: nat | x < |es| :: es[x].Agrega?
    ensures |es[i].datos| <= BLOCK_SIZE
  {
  }

  lemma PorBloquesTail(es: seq<Evento>, k: nat)
    requires PorBloques(es, k) && es != []
    ensures PorBloques(es[1..], k) && es[0].Agrega? && es[0].k == k
    ensures |es[0].datos| <= BLOCK_SIZE && (|es| > 1 ==> |es[0].datos| == BLOCK_SIZE)
    ensures forall i: nat | i < |es| :: es[i].Agrega?
    ensures forall i: nat | i < |es[1..]| :: es[1..][i].Agrega?
  {
  }

  lemma AppendsJoinStep(s: Fs, d: Duenio, u: Vivos, m: Modelo, es: seq<Evento>, k: nat) returns (d1: Duenio, u1: Vivos)
    requires Refina(s, d, u, m) && Forma(s) && k in m && |m[k].bytes| % BLOCK_SIZE == 0
    requires es != [] && es[0].Agrega? && es[0].k == k && |es[0].datos| <= BLOCK_SIZE && Aceptados(s, m, es)
    ensures Bien(s, m, es[0]) && Paso(s, m, es[0]).Some?
    ensures var r := Paso(s, m, es[0]).value;
            && Forma(r.0) && Refina(r.0, d1, u1, r.1) && Aceptados(r.0, r.1, es[1..])
            && k in r.1 && r.1[k].bytes == m[k].bytes + es[0].datos
  {
    hide Refina, Bien, Agregado, Resto, Sobra;
    d1, u1 := AppendAccepted(s, d, u, m, es[0]);
    hide Paso, Write;
    AgregadoAligned(m[k], es[0].datos);
  }

  lemma AppendAccepted(s: Fs, d: Duenio, u: Vivos, m: Modelo, e: Evento) returns (d': Duenio, u': Vivos)
    requires Refina(s, d, u, m) && Forma(s) && Bien(s, m, e) && e.Agrega? && e.k < BLOCKS_NODE
    requires Write(s, e.k, e.datos, s.nodos[e.k].size).Hecho?
    ensures Paso(s, m, e).Some? && e.k in m
    ensures |m[e.k].resto| == Falta(|m[e.k].bytes|)
    ensures var (s', m') := Paso(s, m, e).value;
            && Refina(s', d', u', m') && e.k < |s'.nodos|
            && m' == m[e.k := Ampliado(m[e.k], e.datos, Resto(s', e.k))]
  {
    PasoAgrega(s, d, u, m, e);
    d', u' := TrasAppend(s, d, u, e.k).0, TrasAppend(s, d, u, e.k).1;
  }

  /** After a create and any number of block appends, within a row of 1024 blocks or across
      rows, reading chunk i returns exactly the bytes appended as chunk i. */
  lemma ChunkReadsBack(s: Fs, d: Duenio, u: Vivos, m: Modelo, root: nat, nombre: string, es: seq<Evento>,
                       k: nat, i: nat)
    requires Refina(s, d, u, m) && Forma(s) && NodoLibre(s.nodos, 0) == Some(k) && Libres(s.bitmap, 0) >= 2
    requires PorBloques(es, k) && i < |es| && 0 < |es[i].datos| && BLOCK_SIZE * i < INT_MAX
    ensures var r := Create(s, false, Some(root), nombre);
            && r.Creado? && Forma(r.fs)
            && (Aceptados(r.fs, m[k := Texto([], [])], es) ==>
                  && Correr(r.fs, m[k := Texto([], [])], es).Some?
                  && var s' := Correr(r.fs, m[k := Texto([], [])], es).value.0;
                     && Forma(s') && k < BLOCKS_NODE
                     && Read(s', k, |es[i].datos|, BLOCK_SIZE * i) == Some(es[i].datos))
  {
    PasoCreaFunciona(s, d, u, m, k, root, nombre);
    hide Create, NodoLibre, Libres, TrasCreate, Refina, Cerosa;
    var s1, m1 := Create(s, false, Some(root), nombre).fs, m[k := Texto([], [])];
    FormaRefina(s1, TrasCreate(s, d, k), u[k := 1], m1);
    if Aceptados(s1, m1, es) {
      ChunkOfEmpty(s1, TrasCreate(s, d, k), u[k := 1], m1, es, k, i);
    }
  }

  lemma ChunkOfEmpty(s: Fs, d: Duenio, u: Vivos, m: Modelo, es: seq<Evento>, k: nat, i: nat)
    requires Refina(s, d, u, m) && Forma(s) && k in m && m[k] == Texto([], []) && Aceptados(s, m, es)
    requires PorBloques(es, k) && i < |es| && 0 < |es[i].datos| && BLOCK_SIZE * i < INT_MAX
    ensures Correr(s, m, es).Some? && k < BLOCKS_NODE
    ensures var s' := Correr(s, m, es).value.0;
            Forma(s') && Read(s', k, |es[i].datos|, BLOCK_SIZE * i) == Some(es[i].datos)
  {
    hide Correr, Aceptados, Juntos, Read, Refina, PorBloques, SoloAgrega, EsTramo, Cabe;
    PorBloquesAt(es, k, i);
    AppendsJoin(s, d, u, m, es, k);
    JuntosAt(es, k, i);
    var todo := Juntos(es);
    assert m[k].bytes + todo == todo;
    ReadAfterRun(s, d, u, m, es, k, |es[i].datos|, BLOCK_SIZE * i);
    var r := Read(Correr(s, m, es).value.0, k, |es[i].datos|, BLOCK_SIZE * i).value;
    ReadsTheChunk(r, Correr(s, m, es).value.1[k], es[i].datos, i);
  }

  lemma ReadsTheChunk(r: Bytes, t: Texto, datos: Bytes, i: nat)
    requires |datos| <= BLOCK_SIZE && BLOCK_SIZE * i + |datos| <= |t.bytes|
    requires t.bytes[BLOCK_SIZE * i..BLOCK_SIZE * i + |datos|] == datos
    requires |r| == Cabe(BLOCK_SIZE * i, |datos|) && EsTramo(r, t, BLOCK_SIZE * i)
    ensures r == datos
  {
    assert |r| == |datos|;
    forall x: nat | x < |r| ensures r[x] == datos[x] {
      assert r[x] == ByteDe(t, BLOCK_SIZE * i + x);
      assert t.bytes[BLOCK_SIZE * i..BLOCK_SIZE * i + |datos|][x] == t.bytes[BLOCK_SIZE * i + x];
    }
  }
}
