/** What every operation of the memory server keeps, and exactly when. */
module MuseInvariant {
  import opened Options
  import opened Pages
  import opened Paging
  import opened PageLife
  import opened FlatMemory
  import opened PageBatch
  import opened LateListing
  import opened Heap
  import opened Coalesce
  import opened StaleIndices
  import opened Muse

  /** Bytes of live payload: address a of program p lies in a used block. */
  ghost predicate Vivo(s: Servidor, p: nat, a: nat) {
    && p < |s.heaps| && s.heaps[p].Some?
    && exists u :: u in Usados(s.heaps[p].value.bloques) && EnBloque(u, a)
  }

  predicate EnBloque(u: (nat, int), a: nat) {
    u.0 + HM <= a < u.0 + HM + u.1
  }

  lemma VivoInside(s: Servidor, p: nat, a: nat, total: nat)
    requires Inv(s, total) && Vivo(s, p, a)
    ensures a < s.heaps[p].value.tamanio && 0 < s.mem.P && Mapped(s.mem, p, a)
  {
    hide Ownership;
    PositiveP(s.mem);
    assert SegmentoOk(s.heaps[p], |s.mem.tabla[p]|, s.mem.P);
    var h := s.heaps[p].value;
    var u :| u in Usados(h.bloques) && EnBloque(u, a);
    NoneUsed(h.bloques);
    UsedDisjoint(h.bloques, h.tamanio);
    PageInside(a, |s.mem.tabla[p]|, s.mem.P);
  }

  // ---- alloc ----------------------------------------------------------------

  /** Installing segment h' after n pages were added for it keeps the invariant. */
  lemma InvAfterPages(s: Servidor, p: nat, mem: Mem, n: nat, h': Segmento, total: nat)
    requires Inv(s, total) && p < |s.heaps|
    requires PaginasCreadas(s.mem, mem, p, |s.mem.tabla[p]|, n)
    requires Span(n, s.mem.P) <= s.espacio
    requires SegmentoOk(Some(h'), |s.mem.tabla[p]| + n, s.mem.P)
    ensures Inv(Servidor(mem, s.heaps[p := Some(h')], s.espacio - Span(n, s.mem.P)), total)
  {
    hide Ownership, SegmentoOk, Libres, TotalPaginas, SlotBudget;
    var s' := Servidor(mem, s.heaps[p := Some(h')], s.espacio - Span(n, s.mem.P));
    SpanAdd(TotalPaginas(s.mem.tabla), n, s.mem.P);
    forall z: nat, i: nat | InTable(mem.tabla, z, i) ensures mem.tabla[z][i].num == i {
      if z != p || i < |s.mem.tabla[p]| { assert InTable(s.mem.tabla, z, i); }
    }
  }

  /** With a broken heap or a misplaced page the invariant is lost. */
  lemma InvNeeds(s: Servidor, p: nat, total: nat)
    requires p < |s.heaps| && s.heaps[p].Some? && s.heaps[p].value.bloques != []
    ensures Inv(s, total) ==>
              Ownership(s.mem) && Tiled(s.heaps[p].value.bloques, s.heaps[p].value.tamanio)
  {
  }

  /** A new segment keeps the invariant exactly when no frame is handed out twice to its pages,
      which a free frame for each of them ensures; it ends the server only if there are fewer
      free places than pages. */
  lemma AllocNuevoExact(s: Servidor, p: nat, t: nat, total: nat)
    requires Inv(s, total) && p < |s.heaps| && s.heaps[p].None?
    ensures var r, n := AllocNuevo(s, p, t), FramesNecesarios(t + 2 * HM, s.mem.P);
            && (r.SinLugar? ==> r.s == s)
            && (r.CaidaAlloc? ==> Span(n, s.mem.P) <= s.espacio && Libres(s.mem) < n)
            && (r.Direccion? ==> (Inv(r.s, total) <==> MarcosDistintos(s.mem, n)))
            && (r.Direccion? ==> r.dir == HM && r.s.espacio + Span(n, s.mem.P) == s.espacio)
            && (r.Direccion? && Inv(r.s, total) ==> n <= Libres(s.mem) && Extended(s, p, r.s, 0, t) && r.dir == HM)
            && (n <= Libre(Ocupados(s.mem.bits)) ==> MarcosDistintos(s.mem, n) && !r.CaidaAlloc?)
  {
    hide Ownership, PaginasCreadas, Marcos, MarcosDistintos, Usados;
    var P := s.mem.P;
    PositiveP(s.mem);
    var n := FramesNecesarios(t + 2 * HM, P);
    assert SegmentoOk(s.heaps[p], |s.mem.tabla[p]|, P);
    OwnershipFormas(s.mem);
    CrearTardeFails(s.mem, p, 0, n);
    NewTiled(t, P);
    var r := AllocNuevo(s, p, t);
    if r.Direccion? {
      CrearTardeExact(s.mem, p, 0, n);
      InvNeeds(r.s, p, total);
      if MarcosDistintos(s.mem, n) {
        InvAfterPages(s, p, r.s.mem, n, r.s.heaps[p].value, total);
        CreadasBytes(s.mem, r.s.mem, p, 0, n);
      }
    }
  }

  lemma CreadasBytes(m: Mem, m': Mem, p: nat, num: nat, n: nat)
    requires 0 < m.P && PaginasCreadas(m, m', p, num, n)
    ensures SameBytes(m, m') && n <= Libres(m)
  {
  }

  /** s' is s with one more used block, of t bytes at d, in program p; nothing else moved
      and every byte is where it was. */
  ghost predicate Extended(s: Servidor, p: nat, s': Servidor, d: nat, t: nat) {
    && 0 < s.mem.P && SameBytes(s.mem, s'.mem)
    && p < |s.heaps| == |s'.heaps| && s'.heaps[p].Some?
    && (forall q: nat | q < |s.heaps| && q != p :: s'.heaps[q] == s.heaps[q])
    && Usados(s'.heaps[p].value.bloques) == UsadosDe(s.heaps[p]) + {(d, t)}
  }

  ghost function UsadosDe(h: Option<Segmento>): set<(nat, int)> {
    if h.Some? then Usados(h.value.bloques) else {}
  }

  lemma AllocSplitExact(s: Servidor, p: nat, t: nat, k: nat, total: nat)
    requires Inv(s, total) && p < |s.heaps| && s.heaps[p].Some?
    requires k < |s.heaps[p].value.bloques|
    requires s.heaps[p].value.bloques[k].libre && s.heaps[p].value.bloques[k].espacio >= t + HM
    ensures var r, b := AllocSplit(s, p, t, k), s.heaps[p].value.bloques[k];
            && (Inv(r.s, total) <==> b.indice == k)
            && (b.indice == k ==> Extended(s, p, r.s, b.dir, t))
  {
    hide Ownership, SlotBudget, Balance, TotalPaginas, PagesNumbered, Usados, Tiled, NoAdjacentFree, Split;
    var h := s.heaps[p].value;
    PositiveP(s.mem);
    assert SegmentoOk(s.heaps[p], |s.mem.tabla[p]|, s.mem.P);
    var r := AllocSplit(s, p, t, k);
    SplitExact(h.bloques, h.tamanio, k, t);
    SplitNotEmpty(h.bloques, k, t);
    InvNeeds(r.s, p, total);
    if h.bloques[k].indice == k {
      SplitKeeps(h.bloques, h.tamanio, k, t);
      assert forall q: nat | q < |s.heaps| && q != p :: SegmentoOk(s.heaps[q], |s.mem.tabla[q]|, s.mem.P);
    }
  }

  lemma SplitNotEmpty(bs: Bloques, k: nat, t: nat)
    requires k < |bs|
    ensures Split(bs, k, t) != []
  {
  }

  /** Pages a growth for t more bytes asks for. */
  function PaginasParaCrecer(s: Servidor, p: nat, t: nat): nat
    requires 0 < s.mem.P && p < |s.heaps| && s.heaps[p].Some? && s.heaps[p].value.bloques != []
    requires var bs := s.heaps[p].value.bloques; bs[|bs| - 1].espacio <= t + HM
  {
    var bs := s.heaps[p].value.bloques;
    FramesNecesarios(t - bs[|bs| - 1].espacio + HM, s.mem.P)
  }

  /** No block of program p fits t bytes, and there is a last block to grow from. */
  ghost predicate CreceConInv(s: Servidor, p: nat, t: nat, total: nat) {
    && Inv(s, total) && 0 < s.mem.P && p < |s.heaps| && s.heaps[p].Some? && s.heaps[p].value.bloques != []
    && (var h := s.heaps[p].value;
        Tiled(h.bloques, h.tamanio) && h.bloques[|h.bloques| - 1].espacio < t + HM)
  }

  lemma NoFitGrows(s: Servidor, p: nat, t: nat, total: nat)
    requires Inv(s, total) && p < |s.heaps| && s.heaps[p].Some? && s.heaps[p].value.bloques != []
    requires FirstFit(s.heaps[p].value.bloques, t + HM, 0) == |s.heaps[p].value.bloques|
    ensures CreceConInv(s, p, t, total)
  {
  }

  /** A growth refused for want of space has already lost the invariant; it ends the server
      only if there are fewer free places than pages to add. */
  lemma AllocGrowFails(s: Servidor, p: nat, t: nat, total: nat)
    requires CreceConInv(s, p, t, total)
    ensures var r, n := AllocGrow(s, p, t), PaginasParaCrecer(s, p, t);
            && (r.SinLugar? <==> s.espacio < Span(n, s.mem.P))
            && (r.SinLugar? ==> !Inv(r.s, total))
            && (n <= |s.mem.bits| + 1 ==>
                  (r.CaidaAlloc? <==> Span(n, s.mem.P) <= s.espacio && Libres(s.mem) < n))
  {
    hide Ownership, PaginasCreadas, CrearPaginas, Tiled, Grow;
    var h := s.heaps[p].value;
    var n := PaginasParaCrecer(s, p, t);
    CrearPaginasExact(s.mem, p, |s.mem.tabla[p]|, n);
    AgregarVariasKeeps(s.mem, p, |s.mem.tabla[p]|, n);
    var r := AllocGrow(s, p, t);
    if r.SinLugar? {
      RefusedGrowBreaks(h.bloques, h.tamanio);
      InvNeeds(r.s, p, total);
    }
  }

  /** The segment after a growth by n pages. */
  function Crecido(h: Segmento, t: nat, n: nat, P: nat): Segmento
    requires h.bloques != []
  {
    Segmento(Grow(h.bloques, t, Span(n, P)), h.paginas + n, h.tamanio + Span(n, P))
  }

  lemma CrecidoOk(h: Segmento, t: nat, paginas: nat, P: nat)
    requires SegmentoOk(Some(h), paginas, P) && h.bloques != [] && 0 < P
    requires h.bloques[|h.bloques| - 1].espacio < t + HM
    ensures var ultimo := h.bloques[|h.bloques| - 1];
            var n := FramesNecesarios(t - ultimo.espacio + HM, P);
            var h' := Crecido(h, t, n, P);
            && h'.bloques != []
            && (SegmentoOk(Some(h'), paginas + n, P) <==> ultimo.indice == |h.bloques| - 1)
            && (Tiled(h'.bloques, h'.tamanio) <==> ultimo.indice == |h.bloques| - 1)
            && (ultimo.indice == |h.bloques| - 1 ==>
                  Usados(h'.bloques) == Usados(h.bloques) + {(ultimo.dir, t)})
  {
    hide Usados, Tiled, NoAdjacentFree, Grow;
    var n := FramesNecesarios(t - h.bloques[|h.bloques| - 1].espacio + HM, P);
    FramesHold(t - h.bloques[|h.bloques| - 1].espacio + HM, P);
    GrowExact(h.bloques, h.tamanio, t, Span(n, P));
    GrowNotEmpty(h.bloques, t, Span(n, P));
    SpanAdd(paginas, n, P);
  }

  lemma AllocGrowShape(s: Servidor, p: nat, t: nat, total: nat)
    requires CreceConInv(s, p, t, total) && AllocGrow(s, p, t).Direccion?
    ensures var r, n, h := AllocGrow(s, p, t), PaginasParaCrecer(s, p, t), s.heaps[p].value;
            && Span(n, s.mem.P) <= s.espacio
            && r.dir == h.bloques[|h.bloques| - 1].dir + HM
            && r.s == Servidor(r.s.mem, s.heaps[p := Some(Crecido(h, t, n, s.mem.P))], s.espacio - Span(n, s.mem.P))
            && (Ownership(r.s.mem) <==> n <= |s.mem.bits| + 1)
            && (n <= |s.mem.bits| + 1 ==> PaginasCreadas(s.mem, r.s.mem, p, |s.mem.tabla[p]|, n))
  {
    hide Ownership, PaginasCreadas, CrearPaginas, AgregarVarias, Tiled, SegmentoOk, FramesNecesarios, Span, Grow, Techo;
    CrearPaginasExact(s.mem, p, |s.mem.tabla[p]|, PaginasParaCrecer(s, p, t));
    AgregarVariasKeeps(s.mem, p, |s.mem.tabla[p]|, PaginasParaCrecer(s, p, t));
  }

  /** A growth that is done keeps the invariant exactly when the last block is numbered by
      its position and at most one page more than there are frames is added. */
  lemma AllocGrowExact(s: Servidor, p: nat, t: nat, total: nat)
    requires CreceConInv(s, p, t, total) && AllocGrow(s, p, t).Direccion?
    ensures var r, n, bs := AllocGrow(s, p, t), PaginasParaCrecer(s, p, t), s.heaps[p].value.bloques;
            && (Inv(r.s, total) <==> bs[|bs| - 1].indice == |bs| - 1 && n <= |s.mem.bits| + 1)
            && (Inv(r.s, total) ==> Extended(s, p, r.s, bs[|bs| - 1].dir, t) && r.dir == bs[|bs| - 1].dir + HM)
  {
    hide Ownership, AllocGrow, PaginasCreadas, Usados, Tiled, NoAdjacentFree, SegmentoOk, FramesNecesarios, SameBytes;
    var h, n := s.heaps[p].value, PaginasParaCrecer(s, p, t);
    assert SegmentoOk(s.heaps[p], |s.mem.tabla[p]|, s.mem.P);
    CrecidoOk(h, t, |s.mem.tabla[p]|, s.mem.P);
    AllocGrowShape(s, p, t, total);
    var r := AllocGrow(s, p, t);
    InvNeeds(r.s, p, total);
    if h.bloques[|h.bloques| - 1].indice == |h.bloques| - 1 && n <= |s.mem.bits| + 1 {
      InvAfterPages(s, p, r.s.mem, n, Crecido(h, t, n, s.mem.P), total);
      CreadasBytes(s.mem, r.s.mem, p, |s.mem.tabla[p]|, n);
    }
  }

  lemma GrowNotEmpty(bs: Bloques, t: nat, extra: nat)
    requires 0 < |bs|
    ensures Grow(bs, t, extra) != []
  {
  }

  // ---- free -----------------------------------------------------------------

  /** The pages that are left are exactly those the block list says are left. */
  lemma {:induction false} MergeMemKeeps(m: Mem, h: Segmento, p: nat, c: nat)
    requires Ownership(m) && p < |m.tabla| && h.paginas == |m.tabla[p]| && 0 < m.P
    ensures Recortada(m, MergeMem(m, h, p, c), p, Merge(h, c, m.P).paginas)
    decreases c
  {
    hide Ownership, Recortada, LiberarDesde;
    if c == 0 || c > |h.bloques| {
      RecortadaSelf(m, p);
    } else {
      var h1 := Heap.Paso(h, c - 1, m.P);
      LiberarKeeps(m, p, h1.paginas);
      var m1 := LiberarDesde(m, p, h1.paginas);
      RecortadaParts(m, m1, p, h1.paginas);
      MergeMemKeeps(m1, h1, p, c - 1);
      RecortadaTrans(m, m1, MergeMem(m1, h1, p, c - 1), p, h1.paginas, Merge(h1, c - 1, m.P).paginas);
    }
  }

  lemma RecortadaParts(m: Mem, m': Mem, s: nat, k: nat)
    requires Recortada(m, m', s, k)
    ensures Ownership(m') && |m'.tabla| == |m.tabla| && |m'.tabla[s]| == k && m'.P == m.P
  {
  }

  /** Installing segment h' after the pages past its end were released. */
  lemma InvAfterRelease(s: Servidor, p: nat, mem: Mem, h': Segmento, total: nat)
    requires Inv(s, total) && p < |s.heaps|
    requires Recortada(s.mem, mem, p, h'.paginas) && SegmentoOk(Some(h'), h'.paginas, s.mem.P)
    ensures Inv(Servidor(mem, s.heaps[p := Some(h')],
                         s.espacio + Span(|s.mem.tabla[p]| - h'.paginas, s.mem.P)), total)
  {
    hide Ownership, SegmentoOk, Libres, TotalPaginas, SlotBudget;
    SpanAdd(TotalPaginas(mem.tabla), |s.mem.tabla[p]| - h'.paginas, s.mem.P);
    forall z: nat, i: nat | InTable(mem.tabla, z, i) ensures mem.tabla[z][i].num == i {
      assert InTable(s.mem.tabla, z, i);
    }
  }

  /** Pages that are kept keep their bytes. */
  lemma RecortadaBytes(m: Mem, m': Mem, s: nat, k: nat, z: nat, a: nat)
    requires Recortada(m, m', s, k) && 0 < m.P && Mapped(m, z, a)
    requires z == s ==> a < Span(k, m.P)
    ensures m'.P == m.P && Mapped(m', z, a) && Byte(m', z, a) == Byte(m, z, a)
  {
    hide Ownership, Libres, TotalPaginas, SlotBudget;
    PageInside(a, k, m.P);
  }

  /** The block of program p that `muse_free` finds at address d. */
  ghost predicate Encuentra(s: Servidor, p: nat, d: nat, j: nat) {
    && p < |s.heaps| && s.heaps[p].Some? && d < s.heaps[p].value.tamanio
    && j == BuscarBloque(s.heaps[p].value.bloques, d, 0) < |s.heaps[p].value.bloques|
  }

  /** A free is refused exactly when no block of the program, in use or not, has its payload at
      that address inside the segment; two blocks never do. */
  lemma LiberarAnswers(s: Servidor, p: nat, d: nat, total: nat)
    requires Inv(s, total)
    ensures Liberar(s, p, d).NoLiberado? <==>
              p >= |s.heaps| || s.heaps[p].None? || d >= s.heaps[p].value.tamanio
              || forall j: nat | j < |s.heaps[p].value.bloques| :: s.heaps[p].value.bloques[j].dir + HM != d
    ensures forall j: nat, i: nat | Encuentra(s, p, d, j) && i < |s.heaps[p].value.bloques| ::
              s.heaps[p].value.bloques[i].dir + HM == d <==> i == j
  {
    hide Ownership, MergeMem, Free;
    if p < |s.heaps| && s.heaps[p].Some? && s.heaps[p].value.bloques != [] {
      assert SegmentoOk(s.heaps[p], |s.mem.tabla[p]|, s.mem.P);
      var h := s.heaps[p].value;
      forall i: nat, j: nat | i < j < |h.bloques| ensures h.bloques[i].dir != h.bloques[j].dir {
        ChainOrder(h.bloques, h.tamanio, i, j);
      }
    }
  }

  /** With indices that serve, free takes one block out of use and no other; it keeps the
      invariant exactly when the tail formula fits. */
  lemma LiberarExact(s: Servidor, p: nat, d: nat, j: nat, total: nat)
    requires Inv(s, total) && Encuentra(s, p, d, j) && 0 < s.mem.P
    requires IndicesServe(s.heaps[p].value.bloques, j)
    ensures Liberar(s, p, d).Liberado?
    ensures var s', bs := Liberar(s, p, d).s, s.heaps[p].value.bloques;
            && (Inv(s', total) <==> TailFits(Marcar(bs, j), s.mem.P))
            && |s'.heaps| == |s.heaps|
            && (forall q: nat | q < |s.heaps| && q != p :: s'.heaps[q] == s.heaps[q])
            && s'.heaps[p].Some?
            && UsadosDe(s'.heaps[p]) == UsadosDe(s.heaps[p]) - {(bs[j].dir, bs[j].espacio)}
  {
    hide Ownership, Usados, NoAdjacentFree, IndicesServe, Tiled, Balance, TotalPaginas, SlotBudget, MergeMem, Recortada;
    assert SegmentoOk(s.heaps[p], |s.mem.tabla[p]|, s.mem.P);
    var h := s.heaps[p].value;
    FreeServes(h, j, s.mem.P);
    NoneUsed(Free(h, j, s.mem.P).bloques);
    MergeMemKeeps(s.mem, h.(bloques := Marcar(h.bloques, j)), p, |h.bloques|);
    var s' := Liberar(s, p, d).s;
    FreeEmptyFits(h, j, s.mem.P);
    if Free(h, j, s.mem.P).bloques != [] { InvNeeds(s', p, total); }
    if TailFits(Marcar(h.bloques, j), s.mem.P) {
      InvAfterRelease(s, p, s'.mem, Free(h, j, s.mem.P), total);
    }
  }

  lemma FreeEmptyFits(h: Segmento, j: nat, P: nat)
    requires 0 < P && Tiled(h.bloques, h.tamanio) && NoAdjacentFree(h.bloques) && h.tamanio == Span(h.paginas, P)
    requires j < |h.bloques| && IndicesServe(h.bloques, j)
    ensures Free(h, j, P).bloques == [] ==> TailFits(Marcar(h.bloques, j), P)
  {
    hide Tiled, NoAdjacentFree, IndicesServe, Free, Usados;
    FreeServes(h, j, P);
    MarcarKeeps(h.bloques, h.tamanio, j);
    NoneUsed(Marcar(h.bloques, j));
  }

  /** Whatever the indices are, as long as the program has another block in use: free takes
      that block alone out of use and keeps the invariant exactly under its guard. */
  lemma LiberarRight(s: Servidor, p: nat, d: nat, j: nat, total: nat)
    requires Inv(s, total) && Encuentra(s, p, d, j) && 0 < s.mem.P
    requires var b := s.heaps[p].value.bloques[j]; UsadosDe(s.heaps[p]) - {(b.dir, b.espacio)} != {}
    ensures Liberar(s, p, d).Liberado?
    ensures var s', bs := Liberar(s, p, d).s, s.heaps[p].value.bloques;
            && |s'.heaps| == |s.heaps|
            && (Inv(s', total) && UsadosDe(s'.heaps[p]) == UsadosDe(s.heaps[p]) - {(bs[j].dir, bs[j].espacio)} <==>
                  FreeGuard(bs, j, s.mem.P))
  {
    hide Ownership, Usados, NoAdjacentFree, FreeGuard, Tiled, Balance, TotalPaginas, SlotBudget, MergeMem, Free;
    assert SegmentoOk(s.heaps[p], |s.mem.tabla[p]|, s.mem.P);
    var h, s' := s.heaps[p].value, Liberar(s, p, d).s;
    FreeRight(h, j, s.mem.P);
    if FreeGuard(h.bloques, j, s.mem.P) {
      GuardParts(h.bloques, j, s.mem.P);
      LiberarExact(s, p, d, j, total);
    } else if Inv(s', total) {
      assert SegmentoOk(s'.heaps[p], |s'.mem.tabla[p]|, s'.mem.P);
      NoneUsed(s'.heaps[p].value.bloques);
    }
  }

  lemma GuardParts(bs: Bloques, j: nat, P: nat)
    requires 0 < P && j < |bs|
    ensures FreeGuard(bs, j, P) <==> IndicesServe(bs, j) && TailFits(Marcar(bs, j), P)
  {
  }

  /** After a free every byte still in use is where it was. */
  lemma LiberarKeepsLive(s: Servidor, p: nat, d: nat, j: nat, total: nat, q: nat, a: nat)
    requires Inv(s, total) && Encuentra(s, p, d, j) && 0 < s.mem.P
    requires IndicesServe(s.heaps[p].value.bloques, j)
    requires Liberar(s, p, d).Liberado? && Vivo(Liberar(s, p, d).s, q, a)
    ensures var m' := Liberar(s, p, d).s.mem;
            Vivo(s, q, a) && m'.P == s.mem.P && Mapped(s.mem, q, a) && Mapped(m', q, a)
            && Byte(m', q, a) == Byte(s.mem, q, a)
  {
    hide Ownership, Usados, NoAdjacentFree, IndicesServe, Tiled, Balance, TotalPaginas, SlotBudget, MergeMem, Recortada;
    LiberarExact(s, p, d, j, total);
    var s' := Liberar(s, p, d).s;
    var u :| u in Usados(s'.heaps[q].value.bloques) && EnBloque(u, a);
    assert u in UsadosDe(s.heaps[q]);
    assert Vivo(s, q, a);
    VivoInside(s, q, a, total);
    assert SegmentoOk(s.heaps[p], |s.mem.tabla[p]|, s.mem.P);
    var h := s.heaps[p].value;
    FreeServes(h, j, s.mem.P);
    var h' := Free(h, j, s.mem.P);
    NoneUsed(h'.bloques);
    MergeMemKeeps(s.mem, h.(bloques := Marcar(h.bloques, j)), p, |h.bloques|);
    RecortadaBytes(s.mem, s'.mem, p, h'.paginas, q, a);
  }

  // ---- copy and read --------------------------------------------------------

  lemma InvAfterMem(s: Servidor, mem: Mem, total: nat)
    requires Inv(s, total) && Ownership(mem) && SameShape(s.mem.tabla, mem.tabla) && mem.P == s.mem.P
    requires Conserves(s.mem, mem)
    ensures Inv(s.(mem := mem), total)
  {
  }

  /** A copy is refused exactly when no block in use has the address in its payload. One that is
      done writes exactly its range and keeps the invariant. It ends the server only when it runs
      past the segment or out of free places. */
  lemma CpyKeeps(s: Servidor, p: nat, dst: nat, datos: Bytes, total: nat)
    requires Inv(s, total)
    ensures var r := Cpy(s, p, dst, datos, total);
            && 0 < s.mem.P
            && (r.CpyError? <==> !Vivo(s, p, dst))
            && (r.Copiado? ==>
                  && Inv(r.s, total) && r.s.heaps == s.heaps && r.s.espacio == s.espacio
                  && Written(s.mem, r.s.mem, p, dst, datos))
            && (r.CaidaCpy? ==>
                  && p < |s.heaps| && s.heaps[p].Some?
                  && (dst + |datos| > s.heaps[p].value.tamanio
                      || Libres(s.mem) < Tramos(OffsetOf(dst, s.mem.P), |datos|, s.mem.P)))
  {
    hide Ownership, CpyDesde, Written, CpyFits;
    PositiveP(s.mem);
    CpyAnswers(s, p, dst, datos, total);
    var r := Cpy(s, p, dst, datos, total);
    if p < |s.heaps| && s.heaps[p].Some? && dst + |datos| <= s.heaps[p].value.tamanio
       && dst < s.heaps[p].value.tamanio {
      CpyInside(s, p, dst, datos, total);
      CpyWrites(s.mem, p, dst, datos);
      CpyCost(s.mem, p, PageOf(dst, s.mem.P), OffsetOf(dst, s.mem.P), datos);
      if r.Copiado? {
        WrittenShape(s.mem, r.s.mem, p, dst, datos);
        InvAfterMem(s, r.s.mem, total);
      }
    }
  }

  lemma CpyAnswers(s: Servidor, p: nat, dst: nat, datos: Bytes, total: nat)
    requires Inv(s, total)
    ensures Cpy(s, p, dst, datos, total).CpyError? <==> !Vivo(s, p, dst)
  {
    hide Ownership, CpyDesde, Tiled;
    if Vivo(s, p, dst) {
      VivoInside(s, p, dst, total);
      EnUso(s.heaps[p].value.bloques, dst);
    } else if p < |s.heaps| && s.heaps[p].Some? {
      EnUso(s.heaps[p].value.bloques, dst);
    }
  }

  /** The search for a block in use finds one exactly when one holds the address. */
  lemma EnUso(bs: Bloques, d: nat)
    ensures BloqueDe(bs, d, 0) < |bs| <==> exists u :: u in Usados(bs) && EnBloque(u, d)
  {
    var j := BloqueDe(bs, d, 0);
    if j < |bs| {
      assert (bs[j].dir, bs[j].espacio) in Usados(bs) && EnBloque((bs[j].dir, bs[j].espacio), d);
    }
  }

  lemma WrittenShape(m: Mem, m': Mem, s: nat, dst: nat, d: Bytes)
    requires 0 < m.P && Written(m, m', s, dst, d)
    ensures SameShape(m.tabla, m'.tabla) && m'.P == m.P
  {
  }

  /** A read is refused exactly when it starts outside the segment, and copies nothing exactly
      when it only ends outside it. Otherwise it returns exactly the bytes asked for and keeps every
      byte and the invariant. */
  lemma GetKeeps(s: Servidor, p: nat, src: nat, n: nat, total: nat)
    requires Inv(s, total)
    ensures var r := Get(s, p, src, n, total);
            && 0 < s.mem.P
            && (r.GetError? <==> p >= |s.heaps| || s.heaps[p].None? || src >= s.heaps[p].value.tamanio)
            && (r.SinCopia? <==>
                  p < |s.heaps| && s.heaps[p].Some? && src < s.heaps[p].value.tamanio < src + n)
            && (r.Leido? ==>
                  && Inv(r.s, total) && r.s.heaps == s.heaps && r.s.espacio == s.espacio
                  && |r.datos| == n && ReadBack(s.mem, p, src, r.datos)
                  && SameBytes(s.mem, r.s.mem))
            && (r.CaidaGet? ==> Libres(s.mem) < Techo(src + n, s.mem.P) - PageOf(src, s.mem.P))
  {
    hide Ownership, GetRango, ReadBack, RangoFits, SameBytes;
    PositiveP(s.mem);
    var r := Get(s, p, src, n, total);
    if p < |s.heaps| && s.heaps[p].Some? && src + n <= s.heaps[p].value.tamanio {
      GetInside(s, p, src, n, total);
      GetReturns(s.mem, p, src, n);
      RangoCost(s.mem, p, src, n);
      if r.Leido? {
        InvAfterMem(s, r.s.mem, total);
        SameContentsFlat(s.mem, r.s.mem);
      }
    }
  }

  lemma RangoCost(m: Mem, s: nat, src: nat, n: nat)
    requires RangoFits(m, s, src, n)
    ensures 0 < m.P
    ensures GetRango(m, s, src, n).None? ==> Libres(m) < Techo(src + n, m.P) - PageOf(src, m.P)
    ensures GetRango(m, s, src, n).Some? ==> Conserves(m, GetRango(m, s, src, n).value.0)
  {
    hide Ownership, GetDesde, Span, PageOf, OffsetOf, Techo, Libres, Conserves;
    PositiveP(m);
    RangePages(src, n, |m.tabla[s]|, m.P);
    GetCost(m, s, PageOf(src, m.P), Techo(src + n, m.P) - PageOf(src, m.P));
  }

  lemma ConectarKeeps(s: Servidor, total: nat)
    requires Inv(s, total)
    ensures Inv(Conectar(s), total)
    ensures 0 < s.mem.P && SameBytes(s.mem, Conectar(s).mem)
    ensures var s' := Conectar(s);
            && s'.heaps == s.heaps + [None] && s'.espacio == s.espacio
            && s'.mem == s.mem.(tabla := s.mem.tabla + [[]])
  {
    var t, t' := s.mem.tabla, Conectar(s).mem.tabla;
    assert forall z: nat, i: nat :: InTable(t', z, i) <==> InTable(t, z, i);
    assert forall z: nat, i: nat, f: nat :: Reside(t', z, i, f) <==> Reside(t, z, i, f);
    assert forall z: nat, i: nat, k: nat :: EnSwap(t', z, i, k) <==> EnSwap(t, z, i, k);
    assert t'[..|t|] == t;
    forall f: nat | f < |s.mem.bits| && s.mem.bits[f].ocupado ensures Owned(t', f) {
      assert Owned(t, f);
      var z: nat, i: nat :| Reside(t, z, i, f);
      assert Reside(t', z, i, f);
    }
  }
}
