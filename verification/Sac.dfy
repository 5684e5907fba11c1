/** The block store of SAC-server/src: node table, block bitmap and disk, on values. Nodes are
    numbered by their entry in the table; path resolution happens before. */
module Sac {
  import opened Options
  import opened Blocks

  const T_DELETED: nat := 0
  const T_FILE: nat := 1
  const T_DIR: nat := 2

  /** An entry of the node table. */
  datatype GFile = GFile(status: nat, nombre: string, root: nat, size: nat, punteros: seq<nat>)

  datatype Fs = Fs(bitmap: seq<bool>, disco: seq<Bloque>, nodos: seq<GFile>)

  /** Table sizes of the mounted image. */
  predicate Forma(s: Fs) {
    && 0 < |s.bitmap| <= |s.disco| && |s.bitmap| < UINT32
    && |s.nodos| == BLOCKS_NODE
    && forall k: nat | k < BLOCKS_NODE :: |s.nodos[k].punteros| == BLOCKS_INDIRECT
  }

  // ---- positions ------------------------------------------------------------

  /** `get_position`: the entry of the node and the entry of its pointer block. */
  function Posicion(offset: nat): (p: (nat, nat))
    ensures p.1 < BLOCKS_NODE
    ensures offset / BLOCK_SIZE == BLOCKS_NODE * p.0 + p.1
    ensures offset == BLOCK_SIZE * (BLOCKS_NODE * p.0 + p.1) + offset % BLOCK_SIZE
  {
    (offset / (BLOCK_SIZE * BLOCKS_NODE), offset % (BLOCK_SIZE * BLOCKS_NODE) / BLOCK_SIZE)
  }

  // ---- bitmap ---------------------------------------------------------------

  /** First clear bit from i on. */
  function PrimerLibre(bm: seq<bool>, i: nat): (r: Option<nat>)
    requires i <= |bm|
    ensures r.Some? ==> i <= r.value < |bm| && !bm[r.value]
    ensures r.Some? ==> forall b: nat | i <= b < r.value :: bm[b]
    ensures r.None? ==> forall b: nat | i <= b < |bm| :: bm[b]
    decreases |bm| - i
  {
    if i == |bm| then None else if !bm[i] then Some(i) else PrimerLibre(bm, i + 1)
  }

  /** `free_blocks`, from i on. */
  function Libres(bm: seq<bool>, i: nat): (n: nat)
    requires i <= |bm|
    decreases |bm| - i
  {
    if i == |bm| then 0 else (if bm[i] then 0 else 1) + Libres(bm, i + 1)
  }

  lemma {:induction false} LibresSet(bm: seq<bool>, b: nat, v: bool, i: nat)
    requires i <= |bm| && b < |bm| && bm[b] != v
    ensures Libres(bm[b := v], i) == Libres(bm, i) + (if i <= b then if v then -1 else 1 else 0)
    decreases |bm| - i
  {
    if i < |bm| { LibresSet(bm, b, v, i + 1); }
  }

  lemma {:induction false} LibresZero(bm: seq<bool>, i: nat)
    requires i <= |bm|
    ensures Libres(bm, i) == 0 <==> PrimerLibre(bm, i).None?
    decreases |bm| - i
  {
    if i < |bm| { LibresZero(bm, i + 1); }
  }

  function Marcar(s: Fs, b: nat, v: bool): Fs
    requires b < |s.bitmap|
  {
    s.(bitmap := s.bitmap[b := v])
  }

  function ConBloque(s: Fs, b: nat, nuevo: Bloque): Fs
    requires b < |s.disco|
  {
    s.(disco := s.disco[b := nuevo])
  }

  function ConNodo(s: Fs, k: nat, g: GFile): Fs
    requires k < |s.nodos|
  {
    s.(nodos := s.nodos[k := g])
  }

  function ConPuntero(s: Fs, k: nat, i: nat, b: nat): Fs
    requires k < |s.nodos| && i < |s.nodos[k].punteros|
  {
    ConNodo(s, k, s.nodos[k].(punteros := s.nodos[k].punteros[i := b]))
  }

  // ---- allocate_node --------------------------------------------------------

  /** What a handler leaves behind: done, refused for lack of blocks, or a memory access
      outside the tables. */
  datatype Resultado = Hecho(fs: Fs) | SinEspacio(fs: Fs) | Caida

  /** `allocate_node`: a data block at the position of the file's end, and a pointer block
      for it when that position is the first of a row. */
  function AllocateNode(s: Fs, k: nat): Resultado
    requires Forma(s) && k < BLOCKS_NODE
  {
    match PrimerLibre(s.bitmap, 0)
    case None => SinEspacio(s)
    case Some(b) =>
      var s1 := Marcar(s, b, true);
      if b == 0 then Hecho(s1)
      else
        var (ip, ib) := Posicion(s.nodos[k].size);
        if ib == 0 then
          match PrimerLibre(s1.bitmap, 0)
          case None => SinEspacio(Marcar(s1, b, false))
          case Some(n) =>
            if ip + 1 >= BLOCKS_INDIRECT then Caida
            else Hecho(FilaNueva(s1, k, ip, n, b))
        else if ip >= BLOCKS_INDIRECT || s.nodos[k].punteros[ip] >= |s.disco| then Caida
        else
          var n := s.nodos[k].punteros[ip];
          Hecho(ConBloque(s1, n, SetPtr(s1.disco[n], ib, b)))
  }

  /** Block n becomes pointer block ip of node k, with b as its first entry. */
  function FilaNueva(s: Fs, k: nat, ip: nat, n: nat, b: nat): (r: Fs)
    requires Forma(s) && k < BLOCKS_NODE && ip + 1 < BLOCKS_INDIRECT && n < |s.bitmap| && b < |s.bitmap|
    ensures Forma(r)
  {
    ConBloque(ConPuntero(ConPuntero(Marcar(s, n, true), k, ip, n), k, ip + 1, 0), n, SetPtr(Ceros(), 0, b))
  }

  // ---- handlers -------------------------------------------------------------

  datatype Creacion = Creado(fs: Fs) | Cuota(fs: Fs) | YaExiste | SinDirectorio | FueraDeTabla

  /** `search_first_free_node`, from i on. */
  function NodoLibre(nodos: seq<GFile>, i: nat): (r: Option<nat>)
    requires i <= |nodos|
    ensures r.Some? ==> i <= r.value < |nodos| && nodos[r.value].status == T_DELETED
    ensures r.Some? ==> forall k: nat | i <= k < r.value :: nodos[k].status != T_DELETED
    ensures r.None? ==> forall k: nat | i <= k < |nodos| :: nodos[k].status != T_DELETED
    decreases |nodos| - i
  {
    if i == |nodos| then None
    else if nodos[i].status == T_DELETED then Some(i)
    else NodoLibre(nodos, i + 1)
  }

  /** `sac_create`; `existe` and `directorio` are what path resolution answered. */
  function Create(s: Fs, existe: bool, directorio: Option<nat>, nombre: string): Creacion
    requires Forma(s)
  {
    if existe then YaExiste
    else if directorio.None? then SinDirectorio
    else
      match NodoLibre(s.nodos, 0)
      case None => FueraDeTabla
      case Some(k) =>
        var s1 := ConNodo(s, k, s.nodos[k].(size := 0, root := directorio.value, status := T_FILE));
        match PrimerLibre(s1.bitmap, 0)
        case None => Cuota(s1)
        case Some(n) =>
          var s2 := ConPuntero(ConPuntero(Marcar(s1, n, true), k, 0, n), k, 1, 0);
          match PrimerLibre(s2.bitmap, 0)
          case None => Cuota(s2)
          case Some(b) =>
            var s3 := ConBloque(Marcar(s2, b, true), n, SetPtr(SetPtr(Ceros(), 0, b), 1, 0));
            var s4 := ConBloque(s3, b, Ceros());
            Creado(ConNodo(s4, k, s4.nodos[k].(nombre := nombre)))
  }

  /** `sac_mkdir`; the block it reserves is recorded nowhere. */
  function Mkdir(s: Fs, existe: bool, directorio: Option<nat>, nombre: string): Creacion
    requires Forma(s)
  {
    if existe then YaExiste
    else if directorio.None? then SinDirectorio
    else
      match NodoLibre(s.nodos, 0)
      case None => Cuota(s)
      case Some(k) =>
        match PrimerLibre(s.bitmap, 0)
        case None => Cuota(s)
        case Some(b) =>
          Creado(ConNodo(Marcar(s, b, true), k,
                   s.nodos[k].(status := T_DIR, nombre := nombre, size := 0, root := directorio.value)))
  }

  /** The least of the bytes sent and the room left in the block. */
  function Cabe(offset: nat, n: nat): (r: nat)
    ensures r <= n && offset % BLOCK_SIZE + r <= BLOCK_SIZE
    ensures r == n || offset % BLOCK_SIZE + r == BLOCK_SIZE
  {
    if BLOCK_SIZE - offset % BLOCK_SIZE > n then n else BLOCK_SIZE - offset % BLOCK_SIZE
  }

  /** memcpy to the start of a block. */
  function Copiado(b: Bloque, datos: Bytes, n: nat): (r: Bloque)
    requires n <= |datos| && n <= BLOCK_SIZE
  {
    datos[..n] + b[n..]
  }

  /** `sac_write` on node k. */
  function Write(s: Fs, k: nat, datos: Bytes, offset: nat): Resultado
    requires Forma(s) && k < BLOCKS_NODE
  {
    var (ip, ib) := Posicion(offset);
    if ip >= BLOCKS_INDIRECT then Caida
    else
      var r1 := if s.nodos[k].punteros[ip] == 0 then AllocateNode(s, k) else Hecho(s);
      if !r1.Hecho? then r1
      else
        AllocateForma(s, k);
        var s1 := r1.fs;
        var n := s1.nodos[k].punteros[ip];
        if n >= |s1.disco| then Caida
        else
          var r2 := if Ptr(s1.disco[n], ib) == 0 then AllocateNode(s1, k) else Hecho(s1);
          if !r2.Hecho? then r2
          else
            AllocateForma(s1, k);
            Guardar(r2.fs, k, n, ib, datos, Cabe(offset, |datos|))
  }

  /** The end of `sac_write`: the bytes go to the start of the block. */
  function Guardar(s: Fs, k: nat, n: nat, ib: nat, datos: Bytes, bytes: nat): Resultado
    requires Forma(s) && k < BLOCKS_NODE && n < |s.disco| && ib < BLOCKS_NODE
    requires bytes <= |datos| && bytes <= BLOCK_SIZE
  {
    var p := Ptr(s.disco[n], ib);
    if p >= |s.disco| then Caida
    else
      Hecho(ConNodo(ConBloque(s, p, Copiado(s.disco[p], datos, bytes)), k,
                    s.nodos[k].(size := s.nodos[k].size + bytes)))
  }

  lemma AllocateForma(s: Fs, k: nat)
    requires Forma(s) && k < BLOCKS_NODE
    ensures AllocateNode(s, k).Hecho? ==> Forma(AllocateNode(s, k).fs)
    ensures AllocateNode(s, k).Hecho? ==>
              |AllocateNode(s, k).fs.disco| == |s.disco| && |AllocateNode(s, k).fs.bitmap| == |s.bitmap|
  {
  }

  /** `sac_read` on node k; None is an access outside the disk. */
  function Read(s: Fs, k: nat, n: nat, offset: nat): Option<Bytes>
    requires Forma(s) && k < BLOCKS_NODE
  {
    var (ip, ib) := Posicion(offset);
    if ip >= BLOCKS_INDIRECT then None
    else
      var t := s.nodos[k].punteros[ip];
      if t == 0 then Some([0])
      else if t >= |s.disco| then None
      else
        var p := Ptr(s.disco[t], ib);
        if p == 0 then Some([0])
        else if p >= |s.disco| then None
        else Some(s.disco[p][offset % BLOCK_SIZE..offset % BLOCK_SIZE + Cabe(offset, n)])
  }

  // ---- unlink ---------------------------------------------------------------

  /** Inner loop of `delete_blocks` over pointer block n from entry j. */
  function BorrarFila(s: Fs, n: nat, j: nat): (r: Option<Fs>)
    requires Forma(s) && n < |s.disco| && j <= BLOCKS_NODE
    ensures r.Some? ==> Forma(r.value) && |r.value.disco| == |s.disco| && r.value.nodos == s.nodos
    ensures r.Some? ==> |r.value.bitmap| == |s.bitmap|
    decreases BLOCKS_NODE - j
  {
    if j == BLOCKS_NODE || Ptr(s.disco[n], j) == 0 then Some(s)
    else
      var p := Ptr(s.disco[n], j);
      if p >= |s.bitmap| then None else BorrarFila(BorrarDato(s, n, j, p), n, j + 1)
  }

  /** Data block p, entry j of pointer block n, is zeroed and given back. */
  function BorrarDato(s: Fs, n: nat, j: nat, p: nat): (r: Fs)
    requires Forma(s) && n < |s.disco| && j < BLOCKS_NODE && p < |s.bitmap|
    ensures Forma(r)
  {
    var s1 := Marcar(ConBloque(s, p, Ceros()), p, false);
    ConBloque(s1, n, SetPtr(s1.disco[n], j, 0))
  }

  /** Outer loop of `delete_blocks` from pointer block i of node k. */
  function BorrarFilas(s: Fs, k: nat, i: nat): (r: Option<Fs>)
    requires Forma(s) && k < BLOCKS_NODE && i <= BLOCKS_INDIRECT
    ensures r.Some? ==> Forma(r.value)
    decreases BLOCKS_INDIRECT - i
  {
    if i == BLOCKS_INDIRECT || s.nodos[k].punteros[i] == 0 then Some(s)
    else
      var n := s.nodos[k].punteros[i];
      if n >= |s.bitmap| then None
      else
        match BorrarFila(s, n, 0)
        case None => None
        case Some(s1) => BorrarFilas(Marcar(ConPuntero(s1, k, i, 0), n, false), k, i + 1)
  }

  /** `sac_unlink` of node k. */
  function Unlink(s: Fs, k: nat): Option<Fs>
    requires Forma(s) && k < BLOCKS_NODE
  {
    match BorrarFilas(s, k, 0)
    case None => None
    case Some(s1) => Some(ConNodo(s1, k, s1.nodos[k].(size := 0, status := T_DELETED, nombre := "")))
  }
}
