/** `sac_write` at the end of a file. */
module SacAppend {
  import opened Options
  import opened Blocks
  import opened Sac
  import opened SacOwner
  import opened SacAlloc
  import opened SacFiles

  /** Offsets `get_position` takes without losing bits. */
  const INT_MAX: nat := 0x8000_0000

  /** A live file whose end is an offset the handler can take. */
  ghost predicate Escribible(s: Fs, d: Duenio, u: Vivos, k: nat) {
    Inv(s, d, u, ENTERO) && k in u && k < BLOCKS_NODE && s.nodos[k].size < INT_MAX
  }

  /** The chunk a file ends in is its last one, with room left, or the file must grow. */
  lemma SigueMeans(s: Fs, d: Duenio, u: Vivos, k: nat)
    requires Escribible(s, d, u, k)
    ensures u[k] == Sigue(s, k) + 1 || (u[k] == Sigue(s, k) && Llena(s, d, u, k))
    ensures Sigue(s, k) < 524288
  {
  }

  /** What the handlers find on the way to chunk c. */
  lemma CaminoA(s: Fs, d: Duenio, u: Vivos, k: nat, c: nat)
    requires Inv(s, d, u, ENTERO) && k in u && c < u[k]
    ensures k < BLOCKS_NODE && c / BLOCKS_NODE < BLOCKS_INDIRECT
    ensures var n := s.nodos[k].punteros[c / BLOCKS_NODE];
            && 0 < n < |s.disco|
            && Ptr(s.disco[n], c % BLOCKS_NODE) == Destino(s, RefDe(k, c))
            && 0 < Destino(s, RefDe(k, c)) < |s.disco|
  {
    assert Archivo(s, u, ENTERO, k);
    TrozoValido(s, d, u, k, c);
    var i := c / BLOCKS_NODE;
    assert Valida(u, ENTERO, Indir(k, i));
    assert Destino(s, Indir(k, i)) == Tabla(s, k, i);
    hide Ptr, Valida;
  }

  /** The bytes stored in chunk c of node k. */
  function Escrita(s: Fs, k: nat, c: nat, datos: Bytes): Fs
    requires k < |s.nodos| && Destino(s, RefDe(k, c)) < |s.disco|
  {
    var p, n := Destino(s, RefDe(k, c)), Cabe(s.nodos[k].size, |datos|);
    ConNodo(ConBloque(s, p, Copiado(s.disco[p], datos, n)), k, s.nodos[k].(size := s.nodos[k].size + n))
  }

  /** The position of an offset is that of its chunk. */
  lemma PosicionDe(offset: nat)
    ensures Posicion(offset) == (offset / BLOCK_SIZE / BLOCKS_NODE, offset / BLOCK_SIZE % BLOCKS_NODE)
  {
  }

  lemma GuardarIs(s: Fs, d: Duenio, u: Vivos, k: nat, datos: Bytes)
    requires Inv(s, d, u, ENTERO) && k in u && k < BLOCKS_NODE
    requires Sigue(s, k) < u[k]
    ensures var c := Sigue(s, k);
            && c / BLOCKS_NODE < BLOCKS_INDIRECT
            && s.nodos[k].punteros[c / BLOCKS_NODE] < |s.disco|
            && Destino(s, RefDe(k, c)) < |s.disco|
            && Guardar(s, k, s.nodos[k].punteros[c / BLOCKS_NODE], c % BLOCKS_NODE, datos,
                       Cabe(s.nodos[k].size, |datos|))
               == Hecho(Escrita(s, k, c, datos))
  {
    CaminoA(s, d, u, k, Sigue(s, k));
    hide Inv, Copiado, Destino, Ptr;
  }

  /** An append when the next chunk is there already. */
  lemma WriteInPlace(s: Fs, d: Duenio, u: Vivos, k: nat, datos: Bytes)
    requires Escribible(s, d, u, k) && u[k] == Sigue(s, k) + 1
    ensures Destino(s, RefDe(k, Sigue(s, k))) < |s.disco|
    ensures Write(s, k, datos, s.nodos[k].size) == Hecho(Escrita(s, k, Sigue(s, k), datos))
  {
    SigueMeans(s, d, u, k);
    PosicionDe(s.nodos[k].size);
    CaminoA(s, d, u, k, Sigue(s, k));
    GuardarIs(s, d, u, k, datos);
    hide Inv, Escrita, Posicion, Guardar, Ptr, AllocateNode;
  }

  /** An append that allocates: the write goes on in the state `allocate_node` leaves. */
  lemma WriteAllocates(s: Fs, d: Duenio, u: Vivos, k: nat, datos: Bytes)
    requires Escribible(s, d, u, k) && u[k] == Sigue(s, k) && Llena(s, d, u, k)
    ensures AllocateNode(s, k).SinEspacio? ==> Write(s, k, datos, s.nodos[k].size) == AllocateNode(s, k)
    ensures !AllocateNode(s, k).SinEspacio? ==>
              && AllocateNode(s, k).Hecho?
              && var s1 := AllocateNode(s, k).fs;
                 && k < |s1.nodos| && Destino(s1, RefDe(k, Sigue(s, k))) < |s1.disco|
                 && Write(s, k, datos, s.nodos[k].size) == Hecho(Escrita(s1, k, Sigue(s, k), datos))
  {
    SigueMeans(s, d, u, k);
    PosicionDe(s.nodos[k].size);
    AllocateCases(s, d, u, k);
    AllocateFails(s, d, u, k);
    hide Inv, Posicion, Guardar, Ptr;
    if AllocateNode(s, k).SinEspacio? {
      hide AllocateNode;
    } else {
      AllocateKeeps(s, d, u, k);
      var s1 := AllocateNode(s, k).fs;
      var d1, u1 := AllocDuenio(s, d, u, k), UnoMas(u, k);
      CaminoA(s1, d1, u1, k, Sigue(s, k));
      GuardarIs(s1, d1, u1, k, datos);
      AllocateRow(s, d, u, k);
      hide AllocateNode, Escrita, AllocDuenio;
    }
  }

  /** In a row in use, the table of the node does not change. */
  lemma AllocateRow(s: Fs, d: Duenio, u: Vivos, k: nat)
    requires Llena(s, d, u, k) && Libres(s.bitmap, 0) >= Necesita(u, k) && AllocateNode(s, k).Hecho?
    ensures Posicion(s.nodos[k].size).1 != 0 ==> AllocateNode(s, k).fs.nodos == s.nodos
  {
  }

  // ---- contents -------------------------------------------------------------

  /** Node k's end is in its last chunk. */
  ghost predicate Lista(s: Fs, d: Duenio, u: Vivos, k: nat) {
    Inv(s, d, u, ENTERO) && k in u && k < BLOCKS_NODE && u[k] == Sigue(s, k) + 1
  }

  lemma EsArchivo(s: Fs, d: Duenio, u: Vivos, k: nat)
    requires Inv(s, d, u, ENTERO) && k in u
    ensures k < |s.nodos| && s.nodos[k].status == T_FILE
  {
  }

  lemma EscritaInv(s: Fs, d: Duenio, u: Vivos, k: nat, datos: Bytes)
    requires Lista(s, d, u, k)
    ensures Destino(s, RefDe(k, Sigue(s, k))) < |s.disco|
    ensures Inv(Escrita(s, k, Sigue(s, k), datos), d, u, ENTERO)
  {
    hide Inv, Destino, Valida, Trozo, Copiado, Archivo, RefDe, Cabe;
    FormaInv(s, d, u);
    var c := Sigue(s, k);
    TrozoValido(s, d, u, k, c);
    var p, n := Destino(s, RefDe(k, c)), Cabe(s.nodos[k].size, |datos|);
    var nuevo := Copiado(s.disco[p], datos, n);
    EscribirKeeps(s, d, u, ENTERO, p, nuevo);
    var g := s.nodos[k].(size := s.nodos[k].size + n);
    EsArchivo(s, d, u, k);
    NodoKeeps(ConBloque(s, p, nuevo), d, u, ENTERO, k, g);
  }

  /** Chunk contents of an append. */
  lemma EscritaTrozo(s: Fs, d: Duenio, u: Vivos, k: nat, datos: Bytes, k': nat, c': nat)
    requires Lista(s, d, u, k) && Destino(s, RefDe(k, Sigue(s, k))) < |s.disco| && k' in u && c' < u[k']
    ensures Trozo(Escrita(s, k, Sigue(s, k), datos), k', c') ==
              if k' == k && c' == Sigue(s, k) then Copiado(Trozo(s, k, c'), datos, Cabe(s.nodos[k].size, |datos|))
              else Trozo(s, k', c')
  {
    var c := Sigue(s, k);
    TrozoValido(s, d, u, k, c);
    hide Inv, Destino, Valida, Trozo, Copiado;
    var p, n := Destino(s, RefDe(k, c)), Cabe(s.nodos[k].size, |datos|);
    var nuevo := Copiado(s.disco[p], datos, n);
    var s1 := ConBloque(s, p, nuevo);
    EscribirTrozo(s, d, u, k, c, nuevo, k', c');
    NodoTrozo(s1, k, s1.nodos[k].(size := s1.nodos[k].size + n), k', c');
  }

  /** A node's record plays no part in where its chunks are, its table apart. */
  lemma NodoTrozo(s: Fs, k: nat, g: GFile, k': nat, c: nat)
    requires k < |s.nodos| && (k' == k ==> g.punteros == s.nodos[k].punteros)
    ensures Trozo(ConNodo(s, k, g), k', c) == Trozo(s, k', c)
  {
  }

  /** What the chunk an append writes to held before. */
  function Previo(s: Fs, u: Vivos, k: nat): Bloque
    requires k < |s.nodos|
  {
    if Sigue(s, k) < Cantidad(u, k) then Trozo(s, k, Sigue(s, k)) else BloqueNuevo(s)
  }

  /** Chunk by chunk, s' is s with n bytes stored at the start of the chunk where node k
      ended, and its size n more. */
  ghost predicate Crece(s: Fs, s': Fs, u: Vivos, u': Vivos, k: nat, datos: Bytes, n: nat)
    requires Forma(s) && Forma(s') && k < BLOCKS_NODE && n <= |datos| && n <= BLOCK_SIZE
  {
    && s'.nodos[k].size == s.nodos[k].size + n
    && (forall k': nat | k' < BLOCKS_NODE && k' != k :: s'.nodos[k'] == s.nodos[k'])
    && (forall k', c: nat | k' in u' && c < u'[k'] ::
          Trozo(s', k', c) ==
            if k' == k && c == Sigue(s, k) then Copiado(Previo(s, u, k), datos, n) else Trozo(s, k', c))
  }

  /** A file's bytes after an append: the size grows by what fits in the block, but the bytes
      are stored at the start of the block, so that what was left at its end comes to light. */
  function Agregado(t: Texto, datos: Bytes): (r: Bytes)
    requires |t.resto| == Falta(|t.bytes|)
    ensures |r| == |t.bytes| + Cabe(|t.bytes|, |datos|)
  {
    var n, base := Cabe(|t.bytes|, |datos|), |t.bytes| - |t.bytes| % BLOCK_SIZE;
    seq(|t.bytes| + n, pos requires 0 <= pos < |t.bytes| + n =>
      if base <= pos < base + n then datos[pos - base]
      else if pos < |t.bytes| then t.bytes[pos]
      else t.resto[pos - |t.bytes|])
  }

  /** The file after an append; `sobra` is what the block of a new chunk held past the bytes. */
  function Ampliado(t: Texto, datos: Bytes, sobra: Bytes): (r: Texto)
    requires |t.resto| == Falta(|t.bytes|)
  {
    Texto(Agregado(t, datos), if |t.bytes| % BLOCK_SIZE == 0 then sobra else t.resto[Cabe(|t.bytes|, |datos|)..])
  }

  /** The end of a file is in its last chunk, or right after it. */
  ghost predicate Cerca(s: Fs, u: Vivos, k: nat)
    requires k < |s.nodos|
  {
    k in u && Sigue(s, k) <= u[k] <= Sigue(s, k) + 1 && (u[k] == Sigue(s, k) ==> s.nodos[k].size % BLOCK_SIZE == 0)
  }

  /** What an append of n bytes leaves after them in the block: what the block held. */
  function Sobra(s: Fs, u: Vivos, k: nat, n: nat): Bytes
    requires k < |s.nodos| && s.nodos[k].size % BLOCK_SIZE + n <= BLOCK_SIZE
  {
    if (s.nodos[k].size + n) % BLOCK_SIZE == 0 then [] else Previo(s, u, k)[s.nodos[k].size % BLOCK_SIZE + n..]
  }

  lemma CreceByte(s: Fs, s': Fs, u: Vivos, u': Vivos, k: nat, datos: Bytes, pos: nat)
    requires Forma(s) && Forma(s') && k < BLOCKS_NODE && Cerca(s, u, k) && k in u' && u'[k] == Sigue(s, k) + 1
    requires var n := Cabe(s.nodos[k].size, |datos|); Crece(s, s', u, u', k, datos, n) && pos < s.nodos[k].size + n
    ensures Contenido(s', k)[pos] == Agregado(Leido(s, k), datos)[pos]
  {
    hide Trozo;
    var c, y, n := pos / BLOCK_SIZE, pos % BLOCK_SIZE, Cabe(s.nodos[k].size, |datos|);
    assert c <= Sigue(s, k);
    assert Contenido(s', k)[pos] == Trozo(s', k, c)[y];
    if c == Sigue(s, k) && n <= y {
      assert Trozo(s', k, c)[y] == Previo(s, u, k)[y];
    }
  }

  /** Then the contents grew as said, what follows them moved up, and no other file changed. */
  lemma CreceLeido(s: Fs, s': Fs, u: Vivos, u': Vivos, k: nat, datos: Bytes)
    requires Forma(s) && Forma(s') && k < BLOCKS_NODE && Cerca(s, u, k) && k in u' && u'[k] == Sigue(s, k) + 1
    requires Crece(s, s', u, u', k, datos, Cabe(s.nodos[k].size, |datos|))
    ensures Leido(s', k) == Ampliado(Leido(s, k), datos, Sobra(s, u, k, Cabe(s.nodos[k].size, |datos|)))
  {
    CreceResto(s, s', u, u', k, datos);
    hide Crece, Contenido, Resto, Agregado, Cabe, Cerca, Sobra;
    var c', a := Contenido(s', k), Agregado(Leido(s, k), datos);
    assert s'.nodos[k].size == s.nodos[k].size + Cabe(s.nodos[k].size, |datos|) by {
      CreceSize(s, s', u, u', k, datos);
    }
    forall pos: nat | pos < |c'| ensures c'[pos] == a[pos] {
      CreceByte(s, s', u, u', k, datos, pos);
    }
  }

  lemma CreceSize(s: Fs, s': Fs, u: Vivos, u': Vivos, k: nat, datos: Bytes)
    requires Forma(s) && Forma(s') && k < BLOCKS_NODE
    requires Crece(s, s', u, u', k, datos, Cabe(s.nodos[k].size, |datos|))
    ensures s'.nodos[k].size == s.nodos[k].size + Cabe(s.nodos[k].size, |datos|)
  {
  }

  lemma CreceResto(s: Fs, s': Fs, u: Vivos, u': Vivos, k: nat, datos: Bytes)
    requires Forma(s) && Forma(s') && k < BLOCKS_NODE && Cerca(s, u, k) && k in u' && u'[k] == Sigue(s, k) + 1
    requires Crece(s, s', u, u', k, datos, Cabe(s.nodos[k].size, |datos|))
    ensures Resto(s', k) == Sobra(s, u, k, Cabe(s.nodos[k].size, |datos|))
    ensures s.nodos[k].size % BLOCK_SIZE != 0 ==> Resto(s', k) == Resto(s, k)[Cabe(s.nodos[k].size, |datos|)..]
  {
    hide Trozo, Cabe;
    var n, size := Cabe(s.nodos[k].size, |datos|), s.nodos[k].size;
    if size % BLOCK_SIZE + n < BLOCK_SIZE {
      assert (size + n) / BLOCK_SIZE == size / BLOCK_SIZE && (size + n) % BLOCK_SIZE == size % BLOCK_SIZE + n;
      assert Trozo(s', k, Sigue(s, k)) == Copiado(Previo(s, u, k), datos, n);
    }
  }

  /** A file whose chunks, size and table did not change reads as before. */
  lemma MismoLeido(s: Fs, s': Fs, n: nat, k: nat)
    requires k < |s.nodos| && k < |s'.nodos| && s'.nodos[k].size == s.nodos[k].size <= BLOCK_SIZE * n
    requires forall c: nat | c < n :: Trozo(s', k, c) == Trozo(s, k, c)
    ensures Leido(s', k) == Leido(s, k)
  {
    hide Trozo;
    forall pos: nat | pos < s.nodos[k].size ensures Contenido(s', k)[pos] == Contenido(s, k)[pos] {
      assert pos / BLOCK_SIZE < n;
    }
  }

  // ---- append ---------------------------------------------------------------

  /** Owners and block counts after a successful append to k. */
  function TrasAppend(s: Fs, d: Duenio, u: Vivos, k: nat): (Duenio, Vivos)
    requires k < |s.nodos| && k in u
  {
    if u[k] == Sigue(s, k) then (AllocDuenio(s, d, u, k), UnoMas(u, k)) else (d, u)
  }

  lemma CercaDe(s: Fs, d: Duenio, u: Vivos, k: nat)
    requires Escribible(s, d, u, k)
    ensures Forma(s) && Cerca(s, u, k)
  {
  }

  lemma AppendInPlace(s: Fs, d: Duenio, u: Vivos, k: nat, datos: Bytes)
    requires Escribible(s, d, u, k) && u[k] == Sigue(s, k) + 1
    ensures var r := Write(s, k, datos, s.nodos[k].size);
            && r.Hecho? && Inv(r.fs, d, u, ENTERO) && r.fs.bitmap == s.bitmap
            && Crece(s, r.fs, u, u, k, datos, Cabe(s.nodos[k].size, |datos|))
  {
    CercaDe(s, d, u, k);
    WriteInPlace(s, d, u, k, datos);
    EscritaInv(s, d, u, k, datos);
    var s' := Escrita(s, k, Sigue(s, k), datos);
    FormaInv(s', d, u);
    hide Inv, Write, Trozo, Copiado, Destino, Cerca, Forma, Cabe;
    forall k', c: nat | k' in u && c < u[k']
      ensures Trozo(s', k', c) ==
                if k' == k && c == Sigue(s, k) then Copiado(Previo(s, u, k), datos, Cabe(s.nodos[k].size, |datos|))
                else Trozo(s, k', c)
    {
      EscritaTrozo(s, d, u, k, datos, k', c);
    }
  }

  lemma AppendGrows(s: Fs, d: Duenio, u: Vivos, k: nat, datos: Bytes)
    requires Escribible(s, d, u, k) && u[k] == Sigue(s, k) && Llena(s, d, u, k) && !AllocateNode(s, k).SinEspacio?
    ensures var r := Write(s, k, datos, s.nodos[k].size);
            && r.Hecho? && Inv(r.fs, AllocDuenio(s, d, u, k), UnoMas(u, k), ENTERO)
            && Crece(s, r.fs, u, UnoMas(u, k), k, datos, Cabe(s.nodos[k].size, |datos|))
  {
    CercaDe(s, d, u, k);
    WriteAllocates(s, d, u, k, datos);
    AllocateFails(s, d, u, k);
    AllocateKeeps(s, d, u, k);
    var s1, d1, u1 := AllocateNode(s, k).fs, AllocDuenio(s, d, u, k), UnoMas(u, k);
    hide Write, Trozo, Copiado, Destino, AllocateNode, AllocDuenio, Cerca, Cabe, Inv;
    FormaInv(s1, d1, u1);
    EscritaInv(s1, d1, u1, k, datos);
    FormaInv(Escrita(s1, k, Sigue(s, k), datos), d1, u1);
    GrowsCrece(s, s1, d1, u, u1, k, datos);
  }

  /** A write after an allocation that only added an empty chunk. */
  lemma GrowsCrece(s: Fs, s1: Fs, d1: Duenio, u: Vivos, u1: Vivos, k: nat, datos: Bytes)
    requires Forma(s) && Lista(s1, d1, u1, k) && s.nodos[k].size == s1.nodos[k].size && Cantidad(u, k) == Sigue(s, k)
    requires Destino(s1, RefDe(k, Sigue(s, k))) < |s1.disco| && Forma(s1) && Forma(Escrita(s1, k, Sigue(s, k), datos))
    requires forall k': nat | k' < BLOCKS_NODE && k' != k :: s1.nodos[k'] == s.nodos[k']
    requires forall k', c: nat | k' in u1 && c < u1[k'] ::
               Trozo(s1, k', c) == if k' == k && c == Sigue(s, k) then BloqueNuevo(s) else Trozo(s, k', c)
    ensures Crece(s, Escrita(s1, k, Sigue(s, k), datos), u, u1, k, datos, Cabe(s.nodos[k].size, |datos|))
  {
    hide Inv, Trozo, Copiado, Destino, Cabe;
    var s' := Escrita(s1, k, Sigue(s, k), datos);
    forall k', c: nat | k' in u1 && c < u1[k']
      ensures Trozo(s', k', c) ==
                if k' == k && c == Sigue(s, k) then Copiado(BloqueNuevo(s), datos, Cabe(s.nodos[k].size, |datos|))
                else Trozo(s, k', c)
    {
      EscritaTrozo(s1, d1, u1, k, datos, k', c);
    }
  }

  /** An append is refused exactly when the blocks it needs are not there, and then changes
      nothing. */
  lemma AppendRefused(s: Fs, d: Duenio, u: Vivos, k: nat, datos: Bytes)
    requires Escribible(s, d, u, k)
    ensures Forma(s)
    ensures var r := Write(s, k, datos, s.nodos[k].size);
            && (r.SinEspacio? <==> u[k] == Sigue(s, k) && Libres(s.bitmap, 0) < Necesita(u, k))
            && (r.SinEspacio? ==> r.fs == s)
            && !r.Caida?
  {
    SigueMeans(s, d, u, k);
    CercaDe(s, d, u, k);
    hide Inv, Write, Cerca;
    if u[k] == Sigue(s, k) {
      AllocateFails(s, d, u, k);
      WriteAllocates(s, d, u, k, datos);
    } else {
      WriteInPlace(s, d, u, k, datos);
    }
  }

  /** Otherwise only the chunk the file ends in, perhaps a new one, gets the bytes. */
  lemma AppendDone(s: Fs, d: Duenio, u: Vivos, k: nat, datos: Bytes)
    requires Escribible(s, d, u, k) && Forma(s) && Write(s, k, datos, s.nodos[k].size).Hecho?
    ensures var s', (d', u') := Write(s, k, datos, s.nodos[k].size).fs, TrasAppend(s, d, u, k);
            && Inv(s', d', u', ENTERO) && Forma(s') && Crece(s, s', u, u', k, datos, Cabe(s.nodos[k].size, |datos|))
            && Cerca(s, u, k) && k in u' && u'[k] == Sigue(s, k) + 1 && u'.Keys == u.Keys
  {
    SigueMeans(s, d, u, k);
    CercaDe(s, d, u, k);
    hide Inv, Write, Cerca, Crece;
    var (d', u') := TrasAppend(s, d, u, k);
    if u[k] == Sigue(s, k) {
      AllocateFails(s, d, u, k);
      WriteAllocates(s, d, u, k, datos);
      AppendGrows(s, d, u, k, datos);
    } else {
      AppendInPlace(s, d, u, k, datos);
    }
    FormaInv(Write(s, k, datos, s.nodos[k].size).fs, d', u');
  }

  /** An append, into the row in use or across into a new one, adds its bytes to the file as
      `Ampliado` says, whatever the block it gets held; no other file changes, and every block
      still has one owner. */
  lemma AppendExact(s: Fs, d: Duenio, u: Vivos, k: nat, datos: Bytes)
    requires Escribible(s, d, u, k)
    ensures Forma(s)
    ensures var r := Write(s, k, datos, s.nodos[k].size);
            && (r.SinEspacio? <==> u[k] == Sigue(s, k) && Libres(s.bitmap, 0) < Necesita(u, k))
            && (r.SinEspacio? ==> r.fs == s)
            && !r.Caida?
    ensures var r, (d', u') := Write(s, k, datos, s.nodos[k].size), TrasAppend(s, d, u, k);
            r.Hecho? ==>
              && Inv(r.fs, d', u', ENTERO) && u'.Keys == u.Keys && Forma(r.fs)
              && Leido(r.fs, k) == Ampliado(Leido(s, k), datos, Sobra(s, u, k, Cabe(s.nodos[k].size, |datos|)))
              && (forall k' | k' in u && k' != k :: k' < BLOCKS_NODE && Leido(r.fs, k') == Leido(s, k'))
              && forall k': nat | k' < BLOCKS_NODE && k' != k :: r.fs.nodos[k'] == s.nodos[k']
  {
    AppendRefused(s, d, u, k, datos);
    hide Leido, Inv, Write, Cerca, Ampliado, Sobra, Crece, Cabe, TrasAppend;
    var r := Write(s, k, datos, s.nodos[k].size);
    if r.Hecho? {
      AppendDone(s, d, u, k, datos);
      var (d', u') := TrasAppend(s, d, u, k);
      AppendContenido(s, r.fs, d', u, u', k, datos);
    }
  }

  lemma AppendContenido(s: Fs, s': Fs, d': Duenio, u: Vivos, u': Vivos, k: nat, datos: Bytes)
    requires Forma(s) && Inv(s', d', u', ENTERO) && k < BLOCKS_NODE && Cerca(s, u, k)
    requires k in u' && u'[k] == Sigue(s, k) + 1
    requires Forma(s') && Crece(s, s', u, u', k, datos, Cabe(s.nodos[k].size, |datos|))
    ensures Leido(s', k) == Ampliado(Leido(s, k), datos, Sobra(s, u, k, Cabe(s.nodos[k].size, |datos|)))
    ensures forall k' | k' in u' && k' != k :: k' < BLOCKS_NODE && Leido(s', k') == Leido(s, k')
    ensures forall k': nat | k' < BLOCKS_NODE && k' != k :: s'.nodos[k'] == s.nodos[k']
  {
    CreceLeido(s, s', u, u', k, datos);
    forall k' | k' in u' ensures k' < BLOCKS_NODE && s'.nodos[k'].size <= BLOCK_SIZE * u'[k'] {
      assert Archivo(s', u', ENTERO, k');
    }
    hide Leido, Inv, Cerca, Ampliado, Sobra, Trozo;
    forall k' | k' in u' && k' != k ensures Leido(s', k') == Leido(s, k') {
      MismoLeido(s, s', u'[k'], k');
    }
  }

  /** At the end of a block an append is a concatenation. */
  lemma AgregadoAligned(t: Texto, datos: Bytes)
    requires |t.bytes| % BLOCK_SIZE == 0 && |t.resto| == 0
    ensures Agregado(t, datos) == t.bytes + datos[..Cabe(|t.bytes|, |datos|)]
  {
  }

  /** On every other end of file some one-byte append is not: the byte goes to the start of the
      block, and the file grows by what was left there. */
  lemma AgregadoUnaligned(t: Texto, v: byte)
    requires |t.bytes| % BLOCK_SIZE != 0 && |t.resto| == Falta(|t.bytes|) && v != t.resto[0]
    ensures Agregado(t, [v])[|t.bytes|] == t.resto[0] && Agregado(t, [v])[|t.bytes| - |t.bytes| % BLOCK_SIZE] == v
    ensures Agregado(t, [v]) != t.bytes + [v]
  {
    assert (t.bytes + [v])[|t.bytes|] == v;
  }

  lemma FormaInv(s: Fs, d: Duenio, u: Vivos)
    requires Inv(s, d, u, ENTERO)
    ensures Forma(s)
  {
  }

  lemma VivosSmall(s: Fs, d: Duenio, u: Vivos)
    requires Inv(s, d, u, ENTERO)
    ensures forall k | k in u :: k < BLOCKS_NODE
  {
  }
}
