/** What the backward `merge` pass of muse/src/utils.c does to a segment. */
module Coalesce {
  import opened Pages
  import opened Heap

  /** First block of the run of free blocks that ends just before position m. */
  function ColaLibre(bs: Bloques, m: nat): (k: nat)
    requires m <= |bs|
    ensures k <= m
    ensures forall i: nat | k <= i < m :: bs[i].libre
    ensures 0 < k ==> !bs[k - 1].libre
  {
    if m > 0 && bs[m - 1].libre then ColaLibre(bs, m - 1) else m
  }

  /** Where the pass removes a block it does so by `indice`, which must be its position. */
  predicate UsefulIndices(bs: Bloques, c: nat) {
    forall k: nat | 0 < k < c && k < |bs| && bs[k].libre && bs[k - 1].libre :: bs[k].indice == k
  }

  /** No two adjacent free blocks from position c - 1 on. */
  predicate ApartFrom(bs: Bloques, c: nat) {
    forall i: nat | c <= i + 1 && i < |bs| - 1 :: !(bs[i].libre && bs[i + 1].libre)
  }

  /** bs' is bs with the free block at p absorbed by the one before it. */
  ghost predicate Absorbed(bs: Bloques, p: nat, e: int, bs': Bloques) {
    && 0 < p < |bs| && bs[p].libre && bs[p - 1].libre
    && |bs'| == |bs| - 1
    && (forall i: nat | i < p - 1 :: bs'[i] == bs[i])
    && bs'[p - 1] == bs[p - 1].(espacio := e)
    && (forall i: nat | p <= i < |bs'| :: bs'[i] == bs[i + 1])
  }

  lemma AbsorbedUsados(bs: Bloques, p: nat, e: int, bs': Bloques)
    requires Absorbed(bs, p, e, bs')
    ensures Usados(bs') == Usados(bs)
  {
    forall u | u in Usados(bs) ensures u in Usados(bs') {
      var i: nat :| i < |bs| && !bs[i].libre && u == (bs[i].dir, bs[i].espacio);
      assert bs'[if i < p then i else i - 1] == bs[i];
    }
    forall u | u in Usados(bs') ensures u in Usados(bs) {
      var i: nat :| i < |bs'| && !bs'[i].libre && u == (bs'[i].dir, bs'[i].espacio);
      assert bs'[i] == bs[if i < p then i else i + 1];
    }
  }

  lemma AbsorbedApart(bs: Bloques, p: nat, e: int, bs': Bloques)
    requires Absorbed(bs, p, e, bs') && ApartFrom(bs, p + 1) && UsefulIndices(bs, p + 1)
    ensures ApartFrom(bs', p) && UsefulIndices(bs', p)
  {
  }

  lemma AbsorbedChained(bs: Bloques, p: nat, e: int, bs': Bloques, tam: nat, tam': nat)
    requires Absorbed(bs, p, e, bs') && Chained(bs, tam)
    requires p < |bs| - 1 ==> e == bs[p - 1].espacio + HM + bs[p].espacio && tam' == tam
    requires p == |bs| - 1 ==> bs[p - 1].dir < tam'
    ensures Chained(bs', tam')
  {
  }

  lemma LastApart(bs: Bloques, c: nat)
    requires ApartFrom(bs, c) && c < |bs| && 1 < |bs| && bs[|bs| - 1].libre
    ensures !bs[|bs| - 2].libre
  {
  }

  /** The three outcomes of one turn. */
  lemma PasoCases(h: Segmento, p: nat, P: nat)
    requires 0 < P && p < |h.bloques| && 1 < |h.bloques|
    requires Chained(h.bloques, h.tamanio) && h.tamanio == Span(h.paginas, P)
    requires UsefulIndices(h.bloques, p + 1)
    ensures var bs, h' := h.bloques, Paso(h, p, P);
            if !(bs[p].libre && 0 < p && bs[p - 1].libre) then h' == h
            else if p == |bs| - 1 then
              && Absorbed(bs, p, P - OffsetOf(bs[p - 1].dir, P) - HM, h'.bloques)
              && h'.paginas == PageOf(bs[p - 1].dir + HM, P) + 1 <= h.paginas
              && h'.tamanio == Span(h'.paginas, P) && bs[p - 1].dir < h'.tamanio
            else
              && Absorbed(bs, p, bs[p - 1].espacio + HM + bs[p].espacio, h'.bloques)
              && h'.paginas == h.paginas && h'.tamanio == h.tamanio
  {
    var bs := h.bloques;
    if bs[p].libre && 0 < p && bs[p - 1].libre && p == |bs| - 1 {
      assert bs[(p - 1) + 1].dir == Fin(bs[p - 1]);
      PageInside(bs[p - 1].dir + HM, h.paginas, P);
      PageInside(bs[p - 1].dir + HM, PageOf(bs[p - 1].dir + HM, P) + 1, P);
    }
  }

  /** One pass merges every run of free blocks: no two free blocks stay adjacent, used
      blocks keep address and size, and the last block is the first of the final free run.
      If every block is free the segment is left without blocks and without pages. */
  lemma {:induction false} MergeCoalesces(h: Segmento, c: nat, P: nat)
    requires 0 < P && c <= |h.bloques| && (0 < c || 1 < |h.bloques|)
    requires Chained(h.bloques, h.tamanio) && h.tamanio == Span(h.paginas, P)
    requires UsefulIndices(h.bloques, c) && ApartFrom(h.bloques, c)
    ensures var r, m := Merge(h, c, P), ColaLibre(h.bloques, |h.bloques|);
            && (r.bloques == [] <==> m == 0)
            && (r.bloques == [] ==> r.paginas == 0 && r.tamanio == 0)
            && (r.bloques != [] ==> Coalesced(h, m, r, P))
    decreases c, 0
  {
    var bs := h.bloques;
    if |bs| == 1 {
      assert ColaLibre(bs, 1) == 0;
      assert Merge(h, 1, P) == Merge(Segmento([], 0, 0), 0, P);
    } else if c == 0 {
      LastApart(bs, c);
    } else {
      PasoCases(h, c - 1, P);
      if !(bs[c - 1].libre && 0 < c - 1 && bs[c - 2].libre) {
        MergeCoalesces(h, c - 1, P);
      } else {
        MergeAbsorb(h, c - 1, P);
      }
    }
  }

  /** r is the outcome of a pass over h whose final free run starts at block m. */
  ghost predicate Coalesced(h: Segmento, m: nat, r: Segmento, P: nat)
    requires 0 < P && m < |h.bloques|
  {
    && Chained(r.bloques, r.tamanio) && NoAdjacentFree(r.bloques)
    && Usados(r.bloques) == Usados(h.bloques)
    && r.tamanio == Span(r.paginas, P) && r.paginas <= h.paginas
    && Ultimo(h, m, r, P)
  }

  /** The last block of r: untouched, or merged and measured by the tail formula. */
  ghost predicate Ultimo(h: Segmento, m: nat, r: Segmento, P: nat)
    requires 0 < P && m < |h.bloques| && 0 < |r.bloques|
  {
    var ultimo := r.bloques[|r.bloques| - 1];
    && ultimo.dir == h.bloques[m].dir
    && (if m == |h.bloques| - 1 then ultimo.espacio == h.bloques[m].espacio && r.paginas == h.paginas
        else
          && ultimo.espacio == P - OffsetOf(ultimo.dir, P) - HM
          && r.paginas == PageOf(ultimo.dir + HM, P) + 1)
  }

  lemma {:induction false} MergeAbsorb(h: Segmento, p: nat, P: nat)
    requires 0 < P && 0 < p < |h.bloques|
    requires h.bloques[p].libre && h.bloques[p - 1].libre
    requires Chained(h.bloques, h.tamanio) && h.tamanio == Span(h.paginas, P)
    requires UsefulIndices(h.bloques, p + 1) && ApartFrom(h.bloques, p + 1)
    ensures var r, m := Merge(h, p + 1, P), ColaLibre(h.bloques, |h.bloques|);
            && (r.bloques == [] <==> m == 0)
            && (r.bloques == [] ==> r.paginas == 0 && r.tamanio == 0)
            && (r.bloques != [] ==> Coalesced(h, m, r, P))
    decreases p, 1
  {
    hide NoAdjacentFree, Usados, UsefulIndices, ApartFrom, Absorbed;
    var bs, h' := h.bloques, Paso(h, p, P);
    var bs' := h'.bloques;
    PasoCases(h, p, P);
    var e := if p == |bs| - 1 then P - OffsetOf(bs[p - 1].dir, P) - HM else bs[p - 1].espacio + HM + bs[p].espacio;
    AbsorbedUsados(bs, p, e, bs');
    AbsorbedApart(bs, p, e, bs');
    AbsorbedChained(bs, p, e, bs', h.tamanio, h'.tamanio);
    AbsorbedCola(bs, p, e, bs');
    MergeCoalesces(h', p, P);
  }

  lemma AbsorbedCola(bs: Bloques, p: nat, e: int, bs': Bloques)
    requires Absorbed(bs, p, e, bs') && ApartFrom(bs, p + 1) && bs[|bs| - 1].libre
    ensures var m, m' := ColaLibre(bs, |bs|), ColaLibre(bs', |bs'|);
            if p == |bs| - 1 then
              m == m' < |bs'| && bs'[m].dir == bs[m].dir && bs'[|bs'| - 1].espacio == e
            else
              m == |bs| - 1 && m' == |bs'| - 1 && bs'[m'] == bs[m]
  {
  }

  // ---- the whole pass -------------------------------------------------------

  lemma SamePage(dir: nat, P: nat)
    requires 0 < P
    ensures PageOf(dir, P) <= PageOf(dir + HM, P)
    ensures PageOf(dir + HM, P) == PageOf(dir, P) <==> OffsetOf(dir, P) + HM < P
  {
    PageSplit(dir, P);
    PageInside(dir + HM, PageOf(dir, P) + 1, P);
    PageInside(dir + HM, PageOf(dir, P), P);
  }

  /** The tail formula measures the last block correctly exactly when its header ends
      before the end of its page. */
  lemma TailExact(ultimo: InfoHeap, tam: nat, P: nat)
    requires 0 < P && ultimo.espacio == P - OffsetOf(ultimo.dir, P) - HM
    requires tam == Span(PageOf(ultimo.dir + HM, P) + 1, P)
    ensures (ultimo.espacio >= 0 && Fin(ultimo) == tam) <==> OffsetOf(ultimo.dir, P) + HM < P
  {
    PageSplit(ultimo.dir, P);
    SamePage(ultimo.dir, P);
    SpanMonotone(PageOf(ultimo.dir, P) + 1, PageOf(ultimo.dir + HM, P) + 1, P);
  }

  /** What the tail formula needs: nothing is merged at the tail, or everything is free, or
      the header of the surviving last block ends before the end of its page. */
  predicate TailFits(bs: Bloques, P: nat)
    requires 0 < P
  {
    var m := ColaLibre(bs, |bs|);
    m + 1 >= |bs| || m == 0 || OffsetOf(bs[m].dir, P) + HM < P
  }

  lemma TailIff(h: Segmento, r: Segmento, P: nat)
    requires 0 < P && Tiled(h.bloques, h.tamanio) && h.tamanio == Span(h.paginas, P)
    requires 0 < ColaLibre(h.bloques, |h.bloques|) < |h.bloques| && r.bloques != []
    requires Coalesced(h, ColaLibre(h.bloques, |h.bloques|), r, P)
    ensures Tiled(r.bloques, r.tamanio) <==> TailFits(h.bloques, P)
  {
    hide Usados, NoAdjacentFree, ColaLibre;
    if ColaLibre(h.bloques, |h.bloques|) + 1 < |h.bloques| {
      TailExact(r.bloques[|r.bloques| - 1], r.tamanio, P);
    }
  }

  /** One pass over a tiled segment, with usable indices: it coalesces every free run,
      keeps every used block, releases only pages past the last used byte, and the result
      tiles the remaining pages exactly when the tail formula fits. */
  lemma MergePass(h: Segmento, P: nat)
    requires 0 < P && Tiled(h.bloques, h.tamanio) && h.tamanio == Span(h.paginas, P)
    requires UsefulIndices(h.bloques, |h.bloques|)
    ensures var r := Merge(h, |h.bloques|, P);
            && (r.bloques == [] <==> forall i: nat | i < |h.bloques| :: h.bloques[i].libre)
            && (r.bloques == [] ==> r.paginas == 0 && r.tamanio == 0)
            && (r.bloques != [] ==>
                  && Chained(r.bloques, r.tamanio) && NoAdjacentFree(r.bloques)
                  && Usados(r.bloques) == Usados(h.bloques)
                  && r.tamanio == Span(r.paginas, P) && r.paginas <= h.paginas
                  && (forall u | u in Usados(h.bloques) :: u.0 + HM + u.1 < r.tamanio)
                  && (Tiled(r.bloques, r.tamanio) <==> TailFits(h.bloques, P)))
  {
    hide Usados, Merge;
    MergeCoalesces(h, |h.bloques|, P);
    var r := Merge(h, |h.bloques|, P);
    if r.bloques != [] {
      TailIff(h, r, P);
      UsedDisjoint(r.bloques, r.tamanio);
    }
  }

  // ---- free -----------------------------------------------------------------

  /** First block, from i on, whose payload starts at d; |bs| if there is none. */
  function BuscarBloque(bs: Bloques, d: nat, i: nat): (j: nat)
    requires i <= |bs|
    ensures i <= j <= |bs|
    ensures j < |bs| ==> bs[j].dir + HM == d
    ensures forall k: nat | i <= k < j :: bs[k].dir + HM != d
    decreases |bs| - i
  {
    if i == |bs| || bs[i].dir + HM == d then i else BuscarBloque(bs, d, i + 1)
  }

  /** The renumbering loop at the end of `muse_free`. */
  function Renumerar(bs: Bloques): Bloques {
    seq(|bs|, i requires 0 <= i < |bs| => bs[i].(indice := i))
  }

  function Marcar(bs: Bloques, j: nat): Bloques
    requires j < |bs|
  {
    bs[j := bs[j].(libre := true)]
  }

  /** `muse_free` on block j of a segment. */
  function Free(h: Segmento, j: nat, P: nat): Segmento
    requires 0 < P && j < |h.bloques|
  {
    var r := Merge(h.(bloques := Marcar(h.bloques, j)), |h.bloques|, P);
    r.(bloques := Renumerar(r.bloques))
  }

  lemma SameChain(bs: Bloques, r: Bloques, tam: nat)
    requires |r| == |bs| && forall i: nat | i < |bs| :: r[i] == bs[i].(indice := r[i].indice)
    requires Chained(bs, tam)
    ensures Chained(r, tam)
    ensures Tiled(bs, tam) ==> Tiled(r, tam)
    ensures NoAdjacentFree(bs) ==> NoAdjacentFree(r)
  {
  }

  lemma RenumerarKeeps(bs: Bloques, tam: nat)
    ensures Numbered(Renumerar(bs)) && |Renumerar(bs)| == |bs|
    ensures Chained(bs, tam) ==> Chained(Renumerar(bs), tam)
    ensures Tiled(bs, tam) <==> Tiled(Renumerar(bs), tam)
    ensures NoAdjacentFree(bs) ==> NoAdjacentFree(Renumerar(bs))
    ensures Usados(Renumerar(bs)) == Usados(bs)
  {
    var r := Renumerar(bs);
    if Chained(bs, tam) { SameChain(bs, r, tam); }
    if Chained(r, tam) { SameChain(r, bs, tam); }
    forall u | u in Usados(bs) ensures u in Usados(r) {
      var i: nat :| i < |bs| && !bs[i].libre && u == (bs[i].dir, bs[i].espacio);
      assert r[i].dir == bs[i].dir;
    }
  }

  lemma MarcarKeeps(bs: Bloques, tam: nat, j: nat)
    requires Tiled(bs, tam) && j < |bs|
    ensures Tiled(Marcar(bs, j), tam)
    ensures Usados(Marcar(bs, j)) == Usados(bs) - {(bs[j].dir, bs[j].espacio)}
  {
    var bs' := Marcar(bs, j);
    forall u | u in Usados(bs) && u != (bs[j].dir, bs[j].espacio) ensures u in Usados(bs') {
      var i: nat :| i < |bs| && !bs[i].libre && u == (bs[i].dir, bs[i].espacio);
      assert bs'[i] == bs[i];
    }
    forall u | u in Usados(bs') ensures u in Usados(bs) && u != (bs[j].dir, bs[j].espacio) {
      var i: nat :| i < |bs'| && !bs'[i].libre && u == (bs'[i].dir, bs'[i].espacio);
      assert bs'[i] == bs[i];
      if i < j { ChainOrder(bs, tam, i, j); } else { ChainOrder(bs, tam, j, i); }
    }
  }

  /** Freeing block j takes exactly that block out of use, whatever run it joins; the
      result has no adjacent free blocks, is numbered, and keeps the pages of every other
      used block. It is tiled again, unless nothing is left in use, exactly when the tail formula
      fits. */
  lemma FreeKeeps(h: Segmento, j: nat, P: nat)
    requires 0 < P && Tiled(h.bloques, h.tamanio) && h.tamanio == Span(h.paginas, P)
    requires j < |h.bloques| && UsefulIndices(Marcar(h.bloques, j), |h.bloques|)
    ensures var r := Free(h, j, P);
            && (r.bloques == [] <==> Usados(h.bloques) <= {(h.bloques[j].dir, h.bloques[j].espacio)})
            && (r.bloques == [] ==> r.paginas == 0 && r.tamanio == 0)
            && (r.bloques != [] ==>
                  && NoAdjacentFree(r.bloques) && Numbered(r.bloques)
                  && Usados(r.bloques) == Usados(h.bloques) - {(h.bloques[j].dir, h.bloques[j].espacio)}
                  && r.tamanio == Span(r.paginas, P) && r.paginas <= h.paginas
                  && (forall u | u in Usados(r.bloques) :: u.0 + HM + u.1 < r.tamanio)
                  && (Tiled(r.bloques, r.tamanio) <==> TailFits(Marcar(h.bloques, j), P)))
  {
    hide Tiled, Chained, UsefulIndices, TailFits, NoAdjacentFree, Numbered;
    var h1 := h.(bloques := Marcar(h.bloques, j));
    MarcarKeeps(h.bloques, h.tamanio, j);
    MergePass(h1, P);
    var r := Merge(h1, |h1.bloques|, P);
    RenumerarKeeps(r.bloques, r.tamanio);
    NoneUsed(h1.bloques);
  }

  /** r is segment h after block j was freed: without blocks and pages if nothing is left in use;
      else the used blocks but j, chained, numbered, no two free ones together, and the last one
      where the free run at the end began. If that run had more than one block, its pages past the
      header go, and its size is what the tail formula says; otherwise no page goes. */
  ghost predicate Recogida(h: Segmento, j: nat, r: Segmento, P: nat)
    requires 0 < P && j < |h.bloques|
  {
    var mb := h.bloques[j := h.bloques[j].(libre := true)];
    var m := ColaLibre(mb, |mb|);
    if m == 0 then r == Segmento([], 0, 0)
    else
      && m < |mb| && r.bloques != []
      && Chained(r.bloques, r.tamanio) && NoAdjacentFree(r.bloques)
      && (forall i: nat | i < |r.bloques| :: r.bloques[i].indice == i)
      && Usados(r.bloques) == Usados(h.bloques) - {(h.bloques[j].dir, h.bloques[j].espacio)}
      && r.tamanio == Span(r.paginas, P)
      && var ultimo := r.bloques[|r.bloques| - 1];
         && ultimo.dir == mb[m].dir
         && (if m == |mb| - 1 then ultimo.espacio == mb[m].espacio && r.paginas == h.paginas
             else
               && ultimo.espacio == P - OffsetOf(ultimo.dir, P) - HM
               && r.paginas == PageOf(ultimo.dir + HM, P) + 1)
  }

  /** With useful indices a free leaves exactly that, pages included. */
  lemma FreeTail(h: Segmento, j: nat, P: nat)
    requires 0 < P && Tiled(h.bloques, h.tamanio) && h.tamanio == Span(h.paginas, P)
    requires j < |h.bloques| && UsefulIndices(Marcar(h.bloques, j), |h.bloques|)
    ensures Recogida(h, j, Free(h, j, P), P)
  {
    hide UsefulIndices, NoAdjacentFree, Usados, Merge;
    var h1 := h.(bloques := Marcar(h.bloques, j));
    MarcarKeeps(h.bloques, h.tamanio, j);
    MergeCoalesces(h1, |h1.bloques|, P);
    var r := Merge(h1, |h1.bloques|, P);
    RenumerarKeeps(r.bloques, r.tamanio);
  }

  lemma NoneUsed(bs: Bloques)
    ensures (forall i: nat | i < |bs| :: bs[i].libre) <==> Usados(bs) == {}
  {
    if i: nat :| i < |bs| && !bs[i].libre {
      assert (bs[i].dir, bs[i].espacio) in Usados(bs);
    }
  }

  /** From a numbered, coalesced segment the index half of the guard always holds, so free
      restores the tiling exactly when the tail formula fits. */
  lemma FreeExact(h: Segmento, j: nat, P: nat)
    requires 0 < P && Tiled(h.bloques, h.tamanio) && h.tamanio == Span(h.paginas, P)
    requires j < |h.bloques| && Numbered(h.bloques)
    requires Free(h, j, P).bloques != []
    ensures Tiled(Free(h, j, P).bloques, Free(h, j, P).tamanio) <==> TailFits(Marcar(h.bloques, j), P)
  {
    FreeKeeps(h, j, P);
  }

  /** Reusing a hole leaves the last block misnumbered, so that the next growth, and the
      next split of the last block, break the tiling. */
  lemma HoleReuseBreaksNext(bs: Bloques, tam: nat, k: nat, t: nat, t2: nat, extra: nat)
    requires Tiled(bs, tam) && Numbered(bs)
    requires k < |bs| - 1 && bs[k].libre && bs[k].espacio >= t + HM
    ensures var bs1 := Split(bs, k, t); var n := |bs1| - 1;
            && Tiled(bs1, tam)
            && (bs1[n].espacio + extra >= t2 + HM ==> !Tiled(Grow(bs1, t2, extra), tam + extra))
            && (bs1[n].espacio >= t2 + HM ==> !Tiled(Split(bs1, n, t2), tam))
  {
  }

  /** A block list on which the tail formula fails: with 32-byte pages, freeing the block at
      27 leaves a last block of size 0 in a segment that still has 37 bytes after 27. */
  lemma TailFormulaFails()
    ensures var bs := [InfoHeap(0, 22, false, 0), InfoHeap(27, 10, false, 1), InfoHeap(42, 17, true, 2)];
            var h := Segmento(bs, 2, 64);
            && Tiled(h.bloques, h.tamanio) && NoAdjacentFree(h.bloques) && Numbered(h.bloques)
            && h.tamanio == Span(h.paginas, 32)
            && !Tiled(Free(h, 1, 32).bloques, Free(h, 1, 32).tamanio)
  {
    var h := Segmento([InfoHeap(0, 22, false, 0), InfoHeap(27, 10, false, 1), InfoHeap(42, 17, true, 2)], 2, 64);
    var bs1 := Marcar(h.bloques, 1);
    assert Span(2, 32) == 32 + Span(1, 32);
    assert ColaLibre(bs1, 3) == ColaLibre(bs1, 2) == ColaLibre(bs1, 1) == 1;
    assert (0, 22) in Usados(h.bloques) by { assert !h.bloques[0].libre; }
    FreeKeeps(h, 1, 32);
  }
}
