/** Who owns each block of the file system: every set bit has one owner, and every block number
    reachable from a live file leads to a block it owns. */
module SacOwner {
  import opened Blocks
  import opened Sac

  /** What a set bit stands for: the image's own tables, a block nothing leads to any more,
      pointer block i of node k, or the data block at entry j of that pointer block. */
  datatype Ref = Sistema | Perdido | Indir(k: nat, i: nat) | Dato(k: nat, i: nat, j: nat)

  type Duenio = map<nat, Ref>

  /** Data blocks of each live file. */
  type Vivos = map<nat, nat>

  /** How far the deletion of node k has come: pointer block i, entry j. Every node but k is
      whole. */
  datatype Corte = Corte(k: nat, i: nat, j: nat)

  const ENTERO: Corte := Corte(0, 0, 0)

  /** A file of n data blocks, deleted up to the cut, still has this reference. */
  predicate Valida(u: Vivos, c: Corte, r: Ref) {
    match r
    case Sistema => false
    case Perdido => false
    case Indir(k, i) => k in u && BLOCKS_NODE * i < u[k] && (k == c.k ==> i >= c.i)
    case Dato(k, i, j) =>
      k in u && j < BLOCKS_NODE && BLOCKS_NODE * i + j < u[k]
      && (k == c.k ==> i > c.i || (i == c.i && j >= c.j))
  }

  /** Pointer block i of node k. */
  function Tabla(s: Fs, k: nat, i: nat): nat {
    if k < |s.nodos| && i < |s.nodos[k].punteros| then s.nodos[k].punteros[i] else 0
  }

  /** The block a reference leads to. */
  function Destino(s: Fs, r: Ref): nat {
    match r
    case Sistema => 0
    case Perdido => 0
    case Indir(k, i) => Tabla(s, k, i)
    case Dato(k, i, j) =>
      if Tabla(s, k, i) < |s.disco| && j < BLOCKS_NODE then Ptr(s.disco[Tabla(s, k, i)], j) else 0
  }

  /** The bitmap is the set of owned blocks; block 0 is the header. */
  ghost predicate Marcas(s: Fs, d: Duenio) {
    && (forall b: nat | b < |s.bitmap| :: s.bitmap[b] <==> b in d)
    && (forall b | b in d :: b < |s.bitmap|)
    && 0 in d && d[0] == Sistema
  }

  /** Every reference of a live file leads to the block it owns. */
  ghost predicate Ida(s: Fs, d: Duenio, u: Vivos, c: Corte) {
    forall r: Ref | Valida(u, c, r) :: Destino(s, r) in d && d[Destino(s, r)] == r
  }

  /** Every block owned by a file is reached from it. */
  ghost predicate Vuelta(s: Fs, d: Duenio, u: Vivos, c: Corte) {
    forall b | b in d && (d[b].Indir? || d[b].Dato?) :: Valida(u, c, d[b]) && Destino(s, d[b]) == b
  }

  /** Pointer blocks a file of n data blocks uses. */
  function Filas(n: nat): (f: nat)
    ensures BLOCKS_NODE * f < n + BLOCKS_NODE && n <= BLOCKS_NODE * f
  {
    (n + BLOCKS_NODE - 1) / BLOCKS_NODE
  }

  /** The tables of node k end where its data ends, and its size fits its n data blocks. */
  ghost predicate Archivo(s: Fs, u: Vivos, c: Corte, k: nat)
    requires k in u && Forma(s)
  {
    && k < BLOCKS_NODE && s.nodos[k].status == T_FILE
    && 1 <= u[k] <= 524288
    && BLOCK_SIZE * (u[k] - 1) <= s.nodos[k].size <= BLOCK_SIZE * u[k]
    && (forall i: nat | Filas(u[k]) <= i < BLOCKS_INDIRECT :: s.nodos[k].punteros[i] == 0)
  }

  /** Entries of the pointer blocks of k that are not in use are zero. */
  ghost predicate Terminada(s: Fs, u: Vivos, c: Corte, k: nat) {
    forall i: nat, j: nat | Valida(u, c, Indir(k, i)) && j < BLOCKS_NODE && !Valida(u, c, Dato(k, i, j)) ::
      Destino(s, Dato(k, i, j)) == 0
  }

  ghost predicate Archivos(s: Fs, u: Vivos, c: Corte)
    requires Forma(s)
  {
    forall k | k in u :: Archivo(s, u, c, k) && Terminada(s, u, c, k)
  }

  ghost predicate Inv(s: Fs, d: Duenio, u: Vivos, c: Corte) {
    Forma(s) && Marcas(s, d) && Ida(s, d, u, c) && Vuelta(s, d, u, c) && Archivos(s, u, c)
  }

  /** Two references of live files never share a block. */
  lemma DistinctBlocks(s: Fs, d: Duenio, u: Vivos, c: Corte, r: Ref, r': Ref)
    requires Inv(s, d, u, c) && Valida(u, c, r) && Valida(u, c, r') && r != r'
    ensures Destino(s, r) != Destino(s, r')
    ensures 0 < Destino(s, r) < |s.bitmap| && s.bitmap[Destino(s, r)]
  {
  }

  // ---- frames ---------------------------------------------------------------

  /** An entry of a live pointer block, in use or not. */
  predicate Enlazada(u: Vivos, c: Corte, r: Ref) {
    r.Dato? && r.j < BLOCKS_NODE && Valida(u, c, Indir(r.k, r.i))
  }

  lemma DatoFila(u: Vivos, c: Corte, r: Ref)
    requires r.Dato? && Valida(u, c, r)
    ensures Enlazada(u, c, r)
  {
  }

  /** Writing a block that is no live pointer block leads nobody elsewhere. */
  lemma DatoFrame(s: Fs, d: Duenio, u: Vivos, c: Corte, p: nat, nuevo: Bloque, r: Ref)
    requires Ida(s, d, u, c) && p < |s.disco| && (p in d ==> !d[p].Indir?)
    requires Valida(u, c, r) || Enlazada(u, c, r)
    ensures Destino(ConBloque(s, p, nuevo), r) == Destino(s, r)
  {
    hide Ptr;
    if r.Dato? {
      if Valida(u, c, r) { DatoFila(u, c, r); }
      assert Valida(u, c, Indir(r.k, r.i));
      assert Destino(s, Indir(r.k, r.i)) == Tabla(s, r.k, r.i);
    }
  }

  /** Writing a data block keeps every owner. */
  lemma EscribirKeeps(s: Fs, d: Duenio, u: Vivos, c: Corte, p: nat, nuevo: Bloque)
    requires Inv(s, d, u, c) && p in d && !d[p].Indir?
    ensures Inv(ConBloque(s, p, nuevo), d, u, c)
  {
    hide Destino, Valida;
    var s' := ConBloque(s, p, nuevo);
    forall r: Ref | Valida(u, c, r) || Enlazada(u, c, r) ensures Destino(s', r) == Destino(s, r) {
      DatoFrame(s, d, u, c, p, nuevo, r);
    }
    forall k | k in u ensures Archivo(s', u, c, k) && Terminada(s', u, c, k) {
      assert Archivo(s, u, c, k) && Terminada(s, u, c, k);
      forall i: nat, j: nat | Valida(u, c, Indir(k, i)) && j < BLOCKS_NODE && !Valida(u, c, Dato(k, i, j))
        ensures Destino(s', Dato(k, i, j)) == 0
      {
        assert Enlazada(u, c, Dato(k, i, j));
      }
    }
  }

  /** A change of a node's record that keeps its table, and its kind and size if it is live,
      changes no owner. */
  lemma NodoKeeps(s: Fs, d: Duenio, u: Vivos, c: Corte, k: nat, g: GFile)
    requires Inv(s, d, u, c) && k < BLOCKS_NODE
    requires k in u ==> g.punteros == s.nodos[k].punteros && g.status == T_FILE
                        && BLOCK_SIZE * (u[k] - 1) <= g.size <= BLOCK_SIZE * u[k]
    requires |g.punteros| == BLOCKS_INDIRECT
    ensures Inv(ConNodo(s, k, g), d, u, c)
  {
  }
}
