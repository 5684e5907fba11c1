/** What the handlers of SAC-server/src/operations.c answer, and all they leave: the records, the
    bitmap and every block of the disk, owned or not. */
module SacStates {
  import opened Options
  import opened Blocks
  import opened Sac
  import opened SacOwner
  import opened SacAlloc
  import opened SacFiles
  import opened SacAppend
  import opened SacCreate

  // ---- create and mkdir -----------------------------------------------------

  /** Node k is the first unused one. */
  predicate PrimerNodo(ns: seq<GFile>, k: nat) {
    k < |ns| && ns[k].status == T_DELETED && forall i: nat | i < k :: ns[i].status != T_DELETED
  }

  /** Bit b is the first clear one. */
  predicate PrimerBit(bm: seq<bool>, b: nat) {
    b < |bm| && !bm[b] && forall i: nat | i < b :: bm[i]
  }

  /** s' is s with node k an empty file of pointer block n and data block b, both cleared but for
      the entry that leads to b. */
  ghost predicate Creada(s: Fs, k: nat, n: nat, b: nat, root: nat, nombre: string, s': Fs) {
    && Forma(s) && k < BLOCKS_NODE && n < |s.bitmap| && b < |s.bitmap| && n != b
    && s'.bitmap == s.bitmap[n := true][b := true]
    && s'.nodos == s.nodos[k := GFile(T_FILE, nombre, root, 0, s.nodos[k].punteros[0 := n][1 := 0])]
    && |s'.disco| == |s.disco|
    && (forall j: nat | j < BLOCKS_NODE :: Ptr(s'.disco[n], j) == if j == 0 then b else 0)
    && (forall y: nat | y < BLOCK_SIZE :: s'.disco[b][y] == 0)
    && forall x: nat | x < |s.disco| && x != n && x != b :: s'.disco[x] == s.disco[x]
  }

  lemma PrimerLibreIs(bm: seq<bool>)
    ensures match PrimerLibre(bm, 0)
            case None => forall i: nat | i < |bm| :: bm[i]
            case Some(b) => PrimerBit(bm, b)
  {
  }

  lemma NodoLibreIs(ns: seq<GFile>)
    ensures match NodoLibre(ns, 0)
            case None => forall i: nat | i < |ns| :: ns[i].status != T_DELETED
            case Some(k) => PrimerNodo(ns, k)
  {
  }

  /** Every bit but n is set. */
  lemma UltimoBit(bm: seq<bool>, n: nat, bm': seq<bool>)
    requires n < |bm| && bm' == bm[n := true]
    ensures (forall i: nat | i < |bm| && i != n :: bm[i]) <==> forall i: nat | i < |bm'| :: bm'[i]
  {
    if forall i: nat | i < |bm'| :: bm'[i] {
      forall i: nat | i < |bm| && i != n ensures bm[i] {
        assert bm'[i];
      }
    }
  }

  lemma PunteroNuevo(b: nat)
    requires b < UINT32
    ensures forall j: nat | j < BLOCKS_NODE ::
              Ptr(SetPtr(SetPtr(Ceros(), 0, b), 1, 0), j) == if j == 0 then b else 0
  {
    hide SetPtr;
    AllZero(Ceros());
    forall j: nat | j < BLOCKS_NODE
      ensures Ptr(SetPtr(SetPtr(Ceros(), 0, b), 1, 0), j) == if j == 0 then b else 0
    {
      SetPtrAt(Ceros(), 0, b, j);
      SetPtrAt(SetPtr(Ceros(), 0, b), 1, 0, j);
    }
  }

  /** The answers of a create, each with its exact condition, and the state it leaves: refused for
      want of a block it has taken the node, and perhaps the one block there was. */
  lemma CreateState(s: Fs, existe: bool, directorio: Option<nat>, nombre: string) returns (k: nat, n: nat, b: nat)
    requires Forma(s)
    ensures var r := Create(s, existe, directorio, nombre);
            if existe then r == YaExiste
            else if directorio.None? then r == SinDirectorio
            else if forall i: nat | i < BLOCKS_NODE :: s.nodos[i].status != T_DELETED then r == FueraDeTabla
            else
              && PrimerNodo(s.nodos, k)
              && var g, root := s.nodos[k], directorio.value;
                 if forall i: nat | i < |s.bitmap| :: s.bitmap[i] then
                   r == Cuota(s.(nodos := s.nodos[k := GFile(T_FILE, g.nombre, root, 0, g.punteros)]))
                 else
                   && PrimerBit(s.bitmap, n)
                   && if forall i: nat | i < |s.bitmap| && i != n :: s.bitmap[i] then
                        r == Cuota(Fs(s.bitmap[n := true], s.disco,
                               s.nodos[k := GFile(T_FILE, g.nombre, root, 0, g.punteros[0 := n][1 := 0])]))
                      else
                        && PrimerBit(s.bitmap[n := true], b)
                        && r.Creado? && Creada(s, k, n, b, root, nombre, r.fs)
  {
    k, n, b := 0, 0, 0;
    NodoLibreIs(s.nodos);
    PrimerLibreIs(s.bitmap);
    if NodoLibre(s.nodos, 0).Some? {
      k := NodoLibre(s.nodos, 0).value;
      if PrimerLibre(s.bitmap, 0).Some? {
        n := PrimerLibre(s.bitmap, 0).value;
        var bm := s.bitmap[n := true];
        UltimoBit(s.bitmap, n, bm);
        PrimerLibreIs(bm);
        if PrimerLibre(bm, 0).Some? {
          b := PrimerLibre(bm, 0).value;
          PunteroNuevo(b);
        }
      }
    }
    hide SetPtr, Ceros, Ptr, PrimerBit, PrimerNodo;
  }

  /** The answers of a mkdir: it takes the first unused node and the first free block, which is
      written nowhere, or changes nothing. */
  lemma MkdirState(s: Fs, existe: bool, directorio: Option<nat>, nombre: string) returns (k: nat, b: nat)
    requires Forma(s)
    ensures var r := Mkdir(s, existe, directorio, nombre);
            if existe then r == YaExiste
            else if directorio.None? then r == SinDirectorio
            else if forall i: nat | i < BLOCKS_NODE :: s.nodos[i].status != T_DELETED then r == Cuota(s)
            else if forall i: nat | i < |s.bitmap| :: s.bitmap[i] then r == Cuota(s)
            else
              && PrimerNodo(s.nodos, k) && PrimerBit(s.bitmap, b)
              && r == Creado(Fs(s.bitmap[b := true], s.disco,
                   s.nodos[k := GFile(T_DIR, nombre, directorio.value, 0, s.nodos[k].punteros)]))
  {
    k, b := 0, 0;
    NodoLibreIs(s.nodos);
    PrimerLibreIs(s.bitmap);
    if NodoLibre(s.nodos, 0).Some? && PrimerLibre(s.bitmap, 0).Some? {
      k, b := NodoLibre(s.nodos, 0).value, PrimerLibre(s.bitmap, 0).value;
    }
  }

  // ---- append ---------------------------------------------------------------

  /** s' is s but for the size and the table of node k and the blocks that d says are its own. */
  ghost predicate SoloDe(s: Fs, d: Duenio, s': Fs, k: nat)
    requires k < |s.nodos|
  {
    && |s'.nodos| == |s.nodos| && |s'.disco| == |s.disco| && |s'.bitmap| == |s.bitmap|
    && s'.nodos == s.nodos[k := s.nodos[k].(size := s'.nodos[k].size, punteros := s'.nodos[k].punteros)]
    && forall b: nat | b < |s.disco| && !(b in d && (d[b].Indir? || d[b].Dato?) && d[b].k == k) ::
         s'.disco[b] == s.disco[b]
  }

  lemma SoloDeTrans(s: Fs, s1: Fs, s2: Fs, d: Duenio, k: nat)
    requires k < |s.nodos| && k < |s1.nodos| && SoloDe(s, d, s1, k) && SoloDe(s1, d, s2, k)
    ensures SoloDe(s, d, s2, k)
  {
  }

  lemma AllocateSolo(s: Fs, d: Duenio, u: Vivos, k: nat)
    requires Llena(s, d, u, k) && Libres(s.bitmap, 0) >= Necesita(u, k)
    ensures Forma(s) && AllocateNode(s, k).Hecho?
    ensures SoloDe(s, AllocDuenio(s, d, u, k), AllocateNode(s, k).fs, k)
  {
    AllocateCases(s, d, u, k);
    AllocateIs(s, d, u, k);
    if u[k] % BLOCKS_NODE != 0 { FilaPropia(s, d, u, k); }
    hide Inv, AllocateNode, Libres, PrimerLibre, SetPtr, Posicion;
  }

  /** A row in use is a block of the node. */
  lemma FilaPropia(s: Fs, d: Duenio, u: Vivos, k: nat)
    requires Llena(s, d, u, k) && u[k] % BLOCKS_NODE != 0
    ensures Tabla(s, k, u[k] / BLOCKS_NODE) in d && d[Tabla(s, k, u[k] / BLOCKS_NODE)] == Indir(k, u[k] / BLOCKS_NODE)
  {
    assert Valida(u, ENTERO, Indir(k, u[k] / BLOCKS_NODE));
    assert Destino(s, Indir(k, u[k] / BLOCKS_NODE)) == Tabla(s, k, u[k] / BLOCKS_NODE);
  }

  lemma EscritaSolo(s: Fs, d: Duenio, u: Vivos, k: nat, c: nat, datos: Bytes)
    requires Inv(s, d, u, ENTERO) && k in u && k < |s.nodos| && c < u[k]
    ensures Destino(s, RefDe(k, c)) < |s.disco| && SoloDe(s, d, Escrita(s, k, c, datos), k)
  {
    TrozoValido(s, d, u, k, c);
    hide Inv, Destino, Valida, Copiado, Cabe;
  }

  /** An append changes the size and the table of its node and blocks of its own, the new one
      included: no other record, and no block of another file, of a directory or of nobody. */
  lemma AppendSolo(s: Fs, d: Duenio, u: Vivos, k: nat, datos: Bytes)
    requires Escribible(s, d, u, k) && Forma(s) && Write(s, k, datos, s.nodos[k].size).Hecho?
    ensures SoloDe(s, TrasAppend(s, d, u, k).0, Write(s, k, datos, s.nodos[k].size).fs, k)
  {
    SigueMeans(s, d, u, k);
    hide Inv, Write, SoloDe, Escrita, AllocDuenio, AllocateNode, Libres;
    if u[k] == Sigue(s, k) {
      AllocateFails(s, d, u, k);
      WriteAllocates(s, d, u, k, datos);
      AllocateKeeps(s, d, u, k);
      AllocateSolo(s, d, u, k);
      var s1, d1, u1 := AllocateNode(s, k).fs, AllocDuenio(s, d, u, k), UnoMas(u, k);
      EscritaSolo(s1, d1, u1, k, Sigue(s, k), datos);
      SoloDeTrans(s, s1, Escrita(s1, k, Sigue(s, k), datos), d1, k);
    } else {
      WriteInPlace(s, d, u, k, datos);
      EscritaSolo(s, d, u, k, Sigue(s, k), datos);
    }
  }

  // ---- writes inside a file -------------------------------------------------

  /** A write at an offset inside a block the file has: it allocates nothing, and is one write to
      that block. */
  lemma OverwriteIs(s: Fs, d: Duenio, u: Vivos, k: nat, datos: Bytes, offset: nat)
    requires Inv(s, d, u, ENTERO) && k in u && offset / BLOCK_SIZE < u[k]
    ensures k < BLOCKS_NODE && Forma(s)
    ensures var p, n, g := Destino(s, RefDe(k, offset / BLOCK_SIZE)), Cabe(offset, |datos|), s.nodos[k];
            && 0 < p < |s.bitmap| && p in d && d[p] == RefDe(k, offset / BLOCK_SIZE)
            && Write(s, k, datos, offset) == Hecho(s.(disco := s.disco[p := Copiado(s.disco[p], datos, n)],
                                                      nodos := s.nodos[k := g.(size := g.size + n)]))
  {
    FormaInv(s, d, u);
    VivosSmall(s, d, u);
    PosicionDe(offset);
    CaminoA(s, d, u, k, offset / BLOCK_SIZE);
    TrozoValido(s, d, u, k, offset / BLOCK_SIZE);
    hide Inv, Posicion, Ptr, AllocateNode, Destino, Valida, Copiado, Cabe;
  }

  /** s' is s with the first n bytes at the start of chunk c of node k, and its size n more: every
      other chunk, record and block stays, and the image stays whole exactly when the longer file
      still fits its blocks. */
  ghost predicate Encimado(s: Fs, d: Duenio, u: Vivos, k: nat, c: nat, datos: Bytes, n: nat, s': Fs) {
    && k in u && k < |s.nodos| && n <= |datos| && SoloDe(s, d, s', k) && s'.bitmap == s.bitmap
    && s'.nodos[k] == s.nodos[k].(size := s.nodos[k].size + n)
    && (forall k', c': nat | k' in u && c' < u[k'] && (k' != k || c' != c) ::
          Trozo(s', k', c') == Trozo(s, k', c'))
    && (forall y: nat | y < BLOCK_SIZE ::
          Trozo(s', k, c)[y] == if y < n then datos[y] else Trozo(s, k, c)[y])
    && (Inv(s', d, u, ENTERO) <==> s.nodos[k].size + n <= BLOCK_SIZE * u[k])
  }

  /** A write inside a file never fails; it stores its bytes at the start of the block of its
      offset, and grows the file by them all the same. */
  lemma OverwriteExact(s: Fs, d: Duenio, u: Vivos, k: nat, datos: Bytes, offset: nat)
    requires Inv(s, d, u, ENTERO) && k in u && offset / BLOCK_SIZE < u[k]
    ensures k < BLOCKS_NODE && Forma(s) && Write(s, k, datos, offset).Hecho?
    ensures Encimado(s, d, u, k, offset / BLOCK_SIZE, datos, Cabe(offset, |datos|), Write(s, k, datos, offset).fs)
  {
    OverwriteIs(s, d, u, k, datos, offset);
    hide Inv, Write, Destino, Encimado, Cabe, RefDe, Copiado;
    var c, n := offset / BLOCK_SIZE, Cabe(offset, |datos|);
    OverwriteState(s, d, u, k, c, Copiado(s.disco[Destino(s, RefDe(k, c))], datos, n), datos, n);
  }

  lemma OverwriteTrozos(s: Fs, d: Duenio, u: Vivos, k: nat, c: nat, nuevo: Bloque, g: GFile)
    requires Inv(s, d, u, ENTERO) && k in u && c < u[k] && k < |s.nodos| && g.punteros == s.nodos[k].punteros
    ensures var p := Destino(s, RefDe(k, c));
            && p < |s.disco| && Trozo(s, k, c) == s.disco[p]
            && forall k', c': nat | k' in u && c' < u[k'] ::
                 Trozo(ConNodo(ConBloque(s, p, nuevo), k, g), k', c')
                 == if k' == k && c' == c then nuevo else Trozo(s, k', c')
  {
    TrozoValido(s, d, u, k, c);
    hide Inv, Destino, Valida, Trozo, RefDe;
    var s1 := ConBloque(s, Destino(s, RefDe(k, c)), nuevo);
    forall k', c': nat | k' in u && c' < u[k']
      ensures Trozo(ConNodo(s1, k, g), k', c') == if k' == k && c' == c then nuevo else Trozo(s, k', c')
    {
      EscribirTrozo(s, d, u, k, c, nuevo, k', c');
      NodoTrozo(s1, k, g, k', c');
    }
  }

  lemma CopiadoByte(b: Bloque, datos: Bytes, n: nat)
    requires n <= |datos| && n <= BLOCK_SIZE
    ensures forall y: nat | y < BLOCK_SIZE :: Copiado(b, datos, n)[y] == if y < n then datos[y] else b[y]
  {
  }

  lemma OverwriteInv(s: Fs, d: Duenio, u: Vivos, k: nat, c: nat, nuevo: Bloque, n: nat)
    requires Inv(s, d, u, ENTERO) && Forma(s) && k in u && c < u[k] && k < BLOCKS_NODE
    ensures var p, g := Destino(s, RefDe(k, c)), s.nodos[k];
            && p < |s.disco| && var s' := ConNodo(ConBloque(s, p, nuevo), k, g.(size := g.size + n));
               && SoloDe(s, d, s', k)
               && (Inv(s', d, u, ENTERO) <==> g.size + n <= BLOCK_SIZE * u[k])
  {
    TrozoValido(s, d, u, k, c);
    hide Inv, Destino, Valida, Trozo, RefDe;
    var p := Destino(s, RefDe(k, c));
    EscribirKeeps(s, d, u, ENTERO, p, nuevo);
    TamanioCabe(ConBloque(s, p, nuevo), d, u, k, s.nodos[k].(size := s.nodos[k].size + n));
  }

  lemma OverwriteState(s: Fs, d: Duenio, u: Vivos, k: nat, c: nat, nuevo: Bloque, datos: Bytes, n: nat)
    requires Inv(s, d, u, ENTERO) && Forma(s) && k in u && c < u[k] && k < BLOCKS_NODE
    requires Destino(s, RefDe(k, c)) < |s.disco| && n <= |datos| && n <= BLOCK_SIZE
    requires nuevo == Copiado(s.disco[Destino(s, RefDe(k, c))], datos, n)
    ensures var p, g := Destino(s, RefDe(k, c)), s.nodos[k];
            Encimado(s, d, u, k, c, datos, n, ConNodo(ConBloque(s, p, nuevo), k, g.(size := g.size + n)))
  {
    OverwriteInv(s, d, u, k, c, nuevo, n);
    OverwriteTrozos(s, d, u, k, c, nuevo, s.nodos[k].(size := s.nodos[k].size + n));
    hide Inv, Destino, Trozo, RefDe, SoloDe, Forma, Copiado;
    CopiadoByte(Trozo(s, k, c), datos, n);
  }

  /** A live file can be given a larger size exactly when its blocks hold it. */
  lemma TamanioCabe(s: Fs, d: Duenio, u: Vivos, k: nat, g: GFile)
    requires Inv(s, d, u, ENTERO) && k in u && k < |s.nodos| && g == s.nodos[k].(size := g.size)
    requires s.nodos[k].size <= g.size
    ensures Inv(ConNodo(s, k, g), d, u, ENTERO) <==> g.size <= BLOCK_SIZE * u[k]
  {
    assert Archivo(s, u, ENTERO, k);
    if g.size <= BLOCK_SIZE * u[k] {
      NodoKeeps(s, d, u, ENTERO, k, g);
    } else {
      var s' := ConNodo(s, k, g);
      assert Forma(s') && !Archivo(s', u, ENTERO, k);
    }
  }

  /** What a read of the same length finds at the offset just written, of the bytes that fit. */
  predicate LeeLoPuesto(s: Fs, k: nat, datos: Bytes, offset: nat)
    requires Forma(s) && k < BLOCKS_NODE
  {
    var r := Write(s, k, datos, offset);
    r.Hecho? && Forma(r.fs) && Read(r.fs, k, |datos|, offset) == Some(datos[..Cabe(offset, |datos|)])
  }

  lemma OverwriteThenRead(s: Fs, d: Duenio, u: Vivos, k: nat, datos: Bytes, offset: nat)
    requires Inv(s, d, u, ENTERO) && k in u && offset / BLOCK_SIZE < u[k]
    ensures k < BLOCKS_NODE && Forma(s) && Write(s, k, datos, offset).Hecho? && Forma(Write(s, k, datos, offset).fs)
    ensures var y, n := offset % BLOCK_SIZE, Cabe(offset, |datos|);
            var nuevo := Copiado(Trozo(s, k, offset / BLOCK_SIZE), datos, n);
            Read(Write(s, k, datos, offset).fs, k, |datos|, offset) == Some(nuevo[y..y + n])
  {
    OverwriteIs(s, d, u, k, datos, offset);
    TrozoValido(s, d, u, k, offset / BLOCK_SIZE);
    FormaInv(s, d, u);
    hide Inv, Write, Destino, Trozo, Cabe, Copiado, Read, Valida, RefDe;
    var c, n := offset / BLOCK_SIZE, Cabe(offset, |datos|);
    var nuevo := Copiado(Trozo(s, k, c), datos, n);
    var p, g := Destino(s, RefDe(k, c)), s.nodos[k];
    var s1 := ConBloque(s, p, nuevo);
    EscribirKeeps(s, d, u, ENTERO, p, nuevo);
    ReadIs(s1, d, u, k, |datos|, offset);
    EscribirTrozo(s, d, u, k, c, nuevo, k, c);
    ReadNodo(s1, k, g.(size := g.size + n), |datos|, offset);
  }

  /** A read does not look at the size. */
  lemma ReadNodo(s: Fs, k: nat, g: GFile, n: nat, offset: nat)
    requires Forma(s) && k < BLOCKS_NODE && g.punteros == s.nodos[k].punteros
    ensures Forma(ConNodo(s, k, g)) && Read(ConNodo(s, k, g), k, n, offset) == Read(s, k, n, offset)
  {
    hide Ptr, Cabe;
  }

  /** Every write inside a file reads back at its offset exactly when the offset is the start of a
      block. */
  lemma OverwriteReadsBack(s: Fs, d: Duenio, u: Vivos, k: nat, offset: nat)
    requires Inv(s, d, u, ENTERO) && k in u && offset / BLOCK_SIZE < u[k]
    ensures k < BLOCKS_NODE && Forma(s)
    ensures (forall datos: Bytes :: LeeLoPuesto(s, k, datos, offset)) <==> offset % BLOCK_SIZE == 0
  {
    FormaInv(s, d, u);
    VivosSmall(s, d, u);
    hide Inv, Forma, Trozo, Write, Read;
    var y := offset % BLOCK_SIZE;
    if y == 0 {
      forall datos: Bytes ensures LeeLoPuesto(s, k, datos, offset) {
        OverwriteThenRead(s, d, u, k, datos, offset);
      }
    } else {
      var datos := OverwriteMisses(s, d, u, k, offset);
    }
  }

  /** Elsewhere some byte does not come back: any but the one there. */
  lemma OverwriteMisses(s: Fs, d: Duenio, u: Vivos, k: nat, offset: nat) returns (datos: Bytes)
    requires Inv(s, d, u, ENTERO) && k in u && offset / BLOCK_SIZE < u[k] && offset % BLOCK_SIZE != 0
    ensures k < BLOCKS_NODE && Forma(s) && !LeeLoPuesto(s, k, datos, offset)
  {
    hide Inv, Forma, Trozo, Write, Read;
    var t, y := Trozo(s, k, offset / BLOCK_SIZE), offset % BLOCK_SIZE;
    datos := [if t[y] == 1 then 2 else 1];
    OverwriteThenRead(s, d, u, k, datos, offset);
    assert Copiado(t, datos, 1)[y..y + 1][0] == t[y];
  }
}
