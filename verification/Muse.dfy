/** The memory server on values: muse_alloc, muse_free, muse_cpy and muse_get over the
    heap segment of each program, all sharing frames, slots and `espacioDisponible`. */
module Muse {
  import opened Options
  import opened Pages
  import opened Paging
  import opened PageLife
  import opened FlatMemory
  import opened PageBatch
  import opened LateListing
  import opened Heap
  import opened Coalesce

  /** Program p has heap segment heaps[p], if it was created, and page list mem.tabla[p]. */
  datatype Servidor = Servidor(mem: Mem, heaps: seq<Option<Segmento>>, espacio: nat)

  /** muse_alloc: an address, -1, or a null dereference that ends the server. */
  datatype AllocResult = Direccion(s: Servidor, dir: nat) | SinLugar(s: Servidor) | CaidaAlloc

  datatype FreeResult = Liberado(s: Servidor) | NoLiberado

  datatype CpyResult = Copiado(s: Servidor) | CpyError | CaidaCpy

  /** muse_get: bytes, 0 without copying anything, -1, or a null dereference. */
  datatype GetResult = Leido(s: Servidor, datos: Bytes) | SinCopia | GetError | CaidaGet

  // ---- invariant ------------------------------------------------------------

  /** The heap segment of a program agrees with its page list and is tiled and coalesced. */
  ghost predicate SegmentoOk(h: Option<Segmento>, paginas: nat, P: nat) {
    match h
    case None => paginas == 0
    case Some(g) =>
      && g.paginas == paginas && g.tamanio == Span(paginas, P)
      && (if g.bloques == [] then paginas == 0
          else Tiled(g.bloques, g.tamanio) && NoAdjacentFree(g.bloques))
  }

  ghost predicate PagesNumbered(t: Tabla) {
    forall s: nat, i: nat | InTable(t, s, i) :: t[s][i].num == i
  }

  ghost predicate HeapsOk(s: Servidor) {
    && |s.heaps| == |s.mem.tabla|
    && forall p: nat | p < |s.heaps| :: SegmentoOk(s.heaps[p], |s.mem.tabla[p]|, s.mem.P)
  }

  /** `total` is the memory size plus the swap size. */
  ghost predicate Inv(s: Servidor, total: nat) {
    && Ownership(s.mem) && SlotBudget(s.mem) && PagesNumbered(s.mem.tabla)
    && HeapsOk(s)
    && Balance(s.mem) == |s.mem.bits| + |s.mem.slots|
    && s.espacio + Span(TotalPaginas(s.mem.tabla), s.mem.P) == total
  }

  // ---- operations -----------------------------------------------------------

  /** A new program connects. */
  function Conectar(s: Servidor): Servidor {
    s.(mem := s.mem.(tabla := s.mem.tabla + [[]]), heaps := s.heaps + [None])
  }

  /** The first request of a program: its pages are made before any of them joins the table. */
  ghost function AllocNuevo(s: Servidor, p: nat, t: nat): AllocResult
    requires Ownership(s.mem) && p < |s.heaps| == |s.mem.tabla|
  {
    var n := FramesNecesarios(t + 2 * HM, s.mem.P);
    var tam := Span(n, s.mem.P);
    if s.espacio < tam then SinLugar(s)
    else
      match CrearTarde(s.mem, p, 0, n)
      case None => CaidaAlloc
      case Some(mem) =>
        Direccion(Servidor(mem, s.heaps[p := Some(Segmento(NewBlocks(t, tam), n, tam))], s.espacio - tam), HM)
  }

  function AllocSplit(s: Servidor, p: nat, t: nat, k: nat): AllocResult
    requires p < |s.heaps| && s.heaps[p].Some? && k < |s.heaps[p].value.bloques|
  {
    var h := s.heaps[p].value;
    Direccion(s.(heaps := s.heaps[p := Some(h.(bloques := Split(h.bloques, k, t)))]), h.bloques[k].dir + HM)
  }

  ghost function AllocGrow(s: Servidor, p: nat, t: nat): AllocResult
    requires Ownership(s.mem) && p < |s.heaps| == |s.mem.tabla| && s.heaps[p].Some?
    requires var bs := s.heaps[p].value.bloques; bs != [] && bs[|bs| - 1].espacio <= t + HM
  {
    var h := s.heaps[p].value;
    var ultimo := h.bloques[|h.bloques| - 1];
    var n := FramesNecesarios(t - ultimo.espacio + HM, s.mem.P);
    var extra := Span(n, s.mem.P);
    if s.espacio < extra then
      SinLugar(s.(heaps := s.heaps[p :=
                    Some(h.(bloques := h.bloques[|h.bloques| - 1 := ultimo.(libre := false)]))]))
    else
      match CrearPaginas(s.mem, p, |s.mem.tabla[p]|, n)
      case None => CaidaAlloc
      case Some(mem) =>
        var h' := Segmento(Grow(h.bloques, t, extra), h.paginas + n, h.tamanio + extra);
        Direccion(Servidor(mem, s.heaps[p := Some(h')], s.espacio - extra), ultimo.dir + HM)
  }

  /** `muse_alloc` of t bytes for program p. */
  ghost function Alloc(s: Servidor, p: nat, t: nat, total: nat): AllocResult
    requires Inv(s, total)
  {
    hide Ownership;
    if s.espacio < t + HM || p >= |s.heaps| then SinLugar(s)
    else if s.heaps[p].None? then AllocNuevo(s, p, t)
    else
      var h := s.heaps[p].value;
      var k := FirstFit(h.bloques, t + HM, 0);
      if k < |h.bloques| then AllocSplit(s, p, t, k)
      else if h.bloques == [] then CaidaAlloc
      else
        assert SegmentoOk(s.heaps[p], |s.mem.tabla[p]|, s.mem.P);
        AllocGrow(s, p, t)
  }

  /** The page side of `merge` over segment h of program p, from position c - 1 down: each
      turn releases the pages past the end it leaves. */
  ghost function MergeMem(m: Mem, h: Segmento, p: nat, c: nat): Mem
    requires Ownership(m) && p < |m.tabla|
    decreases c
  {
    hide Ownership, LiberarDesde;
    if c == 0 || c > |h.bloques| then m
    else
      PositiveP(m);
      var h1 := Heap.Paso(h, c - 1, m.P);
      LiberarKeeps(m, p, h1.paginas);
      MergeMem(LiberarDesde(m, p, h1.paginas), h1, p, c - 1)
  }

  /** `muse_free` of address d by program p. */
  ghost function Liberar(s: Servidor, p: nat, d: nat): FreeResult
    requires Ownership(s.mem) && |s.heaps| == |s.mem.tabla|
  {
    if p >= |s.heaps| || s.heaps[p].None? || d >= s.heaps[p].value.tamanio then NoLiberado
    else
      var h := s.heaps[p].value;
      var j := BuscarBloque(h.bloques, d, 0);
      if j == |h.bloques| then NoLiberado
      else
        var h' := Free(h, j, s.mem.P);
        Liberado(Servidor(MergeMem(s.mem, h.(bloques := Marcar(h.bloques, j)), p, |h.bloques|), s.heaps[p := Some(h')],
                          s.espacio + if h'.paginas <= h.paginas then Span(h.paginas - h'.paginas, s.mem.P) else 0))
  }

  /** First used block, from i on, whose payload holds d; |bs| if there is none. */
  function BloqueDe(bs: Bloques, d: nat, i: nat): (j: nat)
    requires i <= |bs|
    ensures i <= j <= |bs|
    ensures j < |bs| ==> !bs[j].libre && bs[j].dir + HM <= d < Fin(bs[j])
    ensures forall k: nat | i <= k < j :: !(!bs[k].libre && bs[k].dir + HM <= d < Fin(bs[k]))
    decreases |bs| - i
  {
    if i == |bs| || (!bs[i].libre && bs[i].dir + HM <= d < Fin(bs[i])) then i else BloqueDe(bs, d, i + 1)
  }

  /** `muse_cpy` of datos to address dst of program p. */
  ghost function Cpy(s: Servidor, p: nat, dst: nat, datos: Bytes, total: nat): CpyResult
    requires Inv(s, total)
  {
    if p >= |s.heaps| || s.heaps[p].None? || dst >= s.heaps[p].value.tamanio then CpyError
    else
      var h := s.heaps[p].value;
      if BloqueDe(h.bloques, dst, 0) == |h.bloques| then CpyError
      else if dst + |datos| > h.tamanio then CaidaCpy
      else
        CpyInside(s, p, dst, datos, total);
        match CpyDesde(s.mem, p, PageOf(dst, s.mem.P), OffsetOf(dst, s.mem.P), datos)
        case None => CaidaCpy
        case Some(mem) => Copiado(s.(mem := mem))
  }

  lemma CpyInside(s: Servidor, p: nat, dst: nat, datos: Bytes, total: nat)
    requires Inv(s, total) && p < |s.heaps| && s.heaps[p].Some?
    requires dst < s.heaps[p].value.tamanio && dst + |datos| <= s.heaps[p].value.tamanio
    ensures CpyFits(s.mem, p, PageOf(dst, s.mem.P), OffsetOf(dst, s.mem.P), datos)
  {
    assert SegmentoOk(s.heaps[p], |s.mem.tabla[p]|, s.mem.P);
    PageInside(dst, |s.mem.tabla[p]|, s.mem.P);
    if |datos| > 0 { FitsInside(|s.mem.tabla[p]|, dst, |datos|, s.mem.P); }
  }

  /** `muse_get` of n bytes from address src of program p. */
  ghost function Get(s: Servidor, p: nat, src: nat, n: nat, total: nat): GetResult
    requires Inv(s, total)
  {
    if p >= |s.heaps| || s.heaps[p].None? || src >= s.heaps[p].value.tamanio then GetError
    else if src + n > s.heaps[p].value.tamanio then SinCopia
    else
      GetInside(s, p, src, n, total);
      match GetRango(s.mem, p, src, n)
      case None => CaidaGet
      case Some(r) => Leido(s.(mem := r.0), r.1)
  }

  lemma GetInside(s: Servidor, p: nat, src: nat, n: nat, total: nat)
    requires Inv(s, total) && p < |s.heaps| && s.heaps[p].Some?
    requires src + n <= s.heaps[p].value.tamanio
    ensures RangoFits(s.mem, p, src, n)
  {
  }
}
