/** The whole block list, space and pages each request of muse/src/muse.c leaves, useful indices or
    not. */
module MuseStates {
  import opened Options
  import opened Pages
  import opened Paging
  import opened PageLife
  import opened FlatMemory
  import opened PageBatch
  import opened LateListing
  import opened Heap
  import opened Coalesce
  import opened StaleIndices
  import opened Muse
  import opened MuseInvariant
  import opened MuseRuns

  // ---- muse_alloc -----------------------------------------------------------

  /** bs' is bs with block k, taken to be of e bytes, cut for t: what is left goes after the
      position its `indice` names, and nowhere if the list is shorter. */
  ghost predicate Cortado(bs: Bloques, k: nat, e: int, t: nat, bs': Bloques) {
    && k < |bs|
    && var i := bs[k].indice + 1;
       var b := bs[k := InfoHeap(bs[k].dir, t, false, bs[k].indice)];
       if i <= |bs| then bs' == b[..i] + [InfoHeap(bs[k].dir + HM + t, e - t - HM, true, i)] + b[i..]
       else bs' == b
  }

  /** A first segment: its two blocks, its pages, that much less space. */
  ghost predicate PedidoNuevo(s: Servidor, p: nat, t: nat, n: nat, r: AllocResult)
    requires p < |s.heaps|
  {
    var tam := Span(n, s.mem.P);
    if s.espacio < tam then r == SinLugar(s)
    else
      r.Direccion? ==>
        && r.dir == HM && r.s.espacio == s.espacio - tam
        && r.s.heaps == s.heaps[p := Some(Segmento([InfoHeap(0, t, false, 0),
                                                   InfoHeap(HM + t, tam - 2 * HM - t, true, 1)], n, tam))]
  }

  /** Block k of segment h is cut, and that is all. */
  ghost predicate PedidoCorte(s: Servidor, p: nat, h: Segmento, t: nat, k: nat, r: AllocResult)
    requires p < |s.heaps| && k < |h.bloques|
  {
    && r.Direccion? && r.dir == h.bloques[k].dir + HM && r.s.mem == s.mem && r.s.espacio == s.espacio
    && p < |r.s.heaps| && r.s.heaps[p].Some?
    && r.s.heaps == s.heaps[p := Some(h.(bloques := r.s.heaps[p].value.bloques))]
    && Cortado(h.bloques, k, h.bloques[k].espacio, t, r.s.heaps[p].value.bloques)
  }

  /** The last block of segment h grows by m pages, and is cut; it is marked used even when the
      space is not there. */
  ghost predicate PedidoCrece(s: Servidor, p: nat, h: Segmento, t: nat, m: nat, r: AllocResult)
    requires p < |s.heaps| && h.bloques != []
  {
    var extra, n := Span(m, s.mem.P), |h.bloques| - 1;
    var b := h.bloques[n];
    if s.espacio < extra then
      r == SinLugar(s.(heaps := s.heaps[p := Some(h.(bloques :=
             h.bloques[n := InfoHeap(b.dir, b.espacio, false, b.indice)]))]))
    else
      r.Direccion? ==>
        && r.dir == b.dir + HM && r.s.espacio == s.espacio - extra
        && p < |r.s.heaps| && r.s.heaps[p].Some? && r.s.heaps == s.heaps[p := r.s.heaps[p]]
        && r.s.heaps[p].value.paginas == h.paginas + m && r.s.heaps[p].value.tamanio == h.tamanio + extra
        && Cortado(h.bloques, n, b.espacio + extra, t, r.s.heaps[p].value.bloques)
  }

  /** The state an allocation that does not end the server leaves: that of the first check, of a
      first segment, of the first block with room, or of a growth by what is missing. */
  ghost predicate Pedido(s: Servidor, p: nat, t: nat, r: AllocResult)
    requires 0 < s.mem.P
  {
    if s.espacio < t + HM || p >= |s.heaps| then r == SinLugar(s)
    else if s.heaps[p].None? then PedidoNuevo(s, p, t, FramesNecesarios(t + 2 * HM, s.mem.P), r)
    else
      var h := s.heaps[p].value;
      && (forall k: nat | Admite(h.bloques, k, t) && (forall i: nat | i < k :: !Admite(h.bloques, i, t)) ::
            PedidoCorte(s, p, h, t, k, r))
      && ((forall k: nat | k < |h.bloques| :: !Admite(h.bloques, k, t)) ==>
            if h.bloques == [] then r == CaidaAlloc
            else
              var b := h.bloques[|h.bloques| - 1];
              && b.espacio < t + HM
              && PedidoCrece(s, p, h, t, FramesNecesarios(t + HM - b.espacio, s.mem.P), r))
  }

  lemma SplitCortado(bs: Bloques, k: nat, t: nat)
    requires k < |bs|
    ensures Cortado(bs, k, bs[k].espacio, t, Split(bs, k, t))
  {
  }

  lemma GrowCortado(bs: Bloques, t: nat, extra: nat)
    requires 0 < |bs|
    ensures Cortado(bs, |bs| - 1, bs[|bs| - 1].espacio + extra, t, Grow(bs, t, extra))
  {
  }

  lemma CreceState(s: Servidor, p: nat, t: nat, total: nat)
    requires CreceConInv(s, p, t, total)
    ensures PedidoCrece(s, p, s.heaps[p].value, t, PaginasParaCrecer(s, p, t), AllocGrow(s, p, t))
  {
    hide Ownership, FramesNecesarios, Cortado, Span, Grow, CrearPaginas;
    GrowCortado(s.heaps[p].value.bloques, t, Span(PaginasParaCrecer(s, p, t), s.mem.P));
    if AllocGrow(s, p, t).Direccion? { AllocGrowShape(s, p, t, total); }
  }

  lemma NuevoState(s: Servidor, p: nat, t: nat)
    requires Ownership(s.mem) && p < |s.heaps| == |s.mem.tabla| && 0 < s.mem.P
    ensures PedidoNuevo(s, p, t, FramesNecesarios(t + 2 * HM, s.mem.P), AllocNuevo(s, p, t))
  {
    hide Ownership, FramesNecesarios, Span, CrearTarde;
  }

  /** Every allocation answers and leaves exactly that, whatever the indices of its blocks. */
  lemma AllocState(s: Servidor, p: nat, t: nat, total: nat)
    requires Inv(s, total)
    ensures 0 < s.mem.P && Pedido(s, p, t, Alloc(s, p, t, total))
  {
    hide Ownership, FramesNecesarios, Cortado, Span, Split, AllocNuevo, AllocGrow, PedidoNuevo, PedidoCrece;
    PositiveP(s.mem);
    if s.espacio >= t + HM && p < |s.heaps| {
      if s.heaps[p].None? {
        NuevoState(s, p, t);
      } else {
        var bs := s.heaps[p].value.bloques;
        var k := FirstFit(bs, t + HM, 0);
        FirstAdmite(bs, t);
        if k < |bs| {
          SplitCortado(bs, k, t);
        } else if bs != [] {
          NoFitGrows(s, p, t, total);
          CreceState(s, p, t, total);
        }
      }
    }
  }

  // ---- muse_free ------------------------------------------------------------

  /** A free of the block at d changes its program's heap only. Whatever the indices, the blocks
      left are numbered, the pages past those the segment keeps are given back and no others, and
      the space grows by as much. With indices that serve, the heap is as `Recogida` says. */
  lemma LiberarState(s: Servidor, p: nat, d: nat, j: nat, total: nat)
    requires Inv(s, total) && Encuentra(s, p, d, j) && 0 < s.mem.P
    ensures Liberar(s, p, d).Liberado?
    ensures var s', h := Liberar(s, p, d).s, s.heaps[p].value;
            && |s'.heaps| == |s.heaps| && s'.heaps[p].Some? && s'.heaps == s.heaps[p := s'.heaps[p]]
            && var h' := s'.heaps[p].value;
               && (forall i: nat | i < |h'.bloques| :: h'.bloques[i].indice == i)
               && h'.paginas <= h.paginas && s'.espacio == s.espacio + Span(h.paginas - h'.paginas, s.mem.P)
               && Recortada(s.mem, s'.mem, p, h'.paginas)
               && (IndicesServe(h.bloques, j) ==> Recogida(h, j, h', s.mem.P))
  {
    hide Ownership, Usados, NoAdjacentFree, IndicesServe, Tiled, Balance, TotalPaginas, SlotBudget, MergeMem, Recortada;
    hide Merge, Recogida;
    assert SegmentoOk(s.heaps[p], |s.mem.tabla[p]|, s.mem.P);
    var h := s.heaps[p].value;
    var h1 := h.(bloques := Marcar(h.bloques, j));
    MergeMemKeeps(s.mem, h1, p, |h.bloques|);
    var mem, h' := MergeMem(s.mem, h1, p, |h.bloques|), Free(h, j, s.mem.P);
    RecortadaMenos(s.mem, mem, p, h'.paginas);
    assert Liberar(s, p, d).s == Servidor(mem, s.heaps[p := Some(h')],
                                          s.espacio + Span(h.paginas - h'.paginas, s.mem.P));
    if IndicesServe(h.bloques, j) { FreeServesTail(h, j, s.mem.P); }
  }

  lemma RecortadaMenos(m: Mem, m': Mem, p: nat, k: nat)
    requires Recortada(m, m', p, k)
    ensures k <= |m.tabla[p]|
  {
  }
}
