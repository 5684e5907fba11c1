/** The heap of one segment (muse/src/muse.c, muse/src/utils.c): a list of blocks with
    5-byte headers, first-fit split, growth, and the backward coalescing pass. */
module Heap {
  import opened Pages

  /** sizeof(HeapMetadata) */
  const HM: nat := 5

  /** One block. `indice` is meant to be its list position. */
  datatype InfoHeap = InfoHeap(dir: nat, espacio: int, libre: bool, indice: nat)

  type Bloques = seq<InfoHeap>

  /** A heap segment: its blocks, its number of pages and its `tamanio`. */
  datatype Segmento = Segmento(bloques: Bloques, paginas: nat, tamanio: nat)

  /** First address after a block. */
  function Fin(b: InfoHeap): int {
    b.dir + HM + b.espacio
  }

  /** list_add_in_index */
  function Insertar(bs: Bloques, k: nat, b: InfoHeap): Bloques {
    if k <= |bs| then bs[..k] + [b] + bs[k..] else bs
  }

  /** list_remove */
  function Quitar(bs: Bloques, k: nat): Bloques {
    if k < |bs| then bs[..k] + bs[k + 1..] else bs
  }

  // ---- operations -----------------------------------------------------------

  /** First free block, from i on, with room for `pedido`; |bs| if there is none. */
  function FirstFit(bs: Bloques, pedido: nat, i: nat): (k: nat)
    requires i <= |bs|
    ensures i <= k <= |bs|
    ensures k < |bs| ==> bs[k].libre && bs[k].espacio >= pedido
    ensures forall j: nat | i <= j < k :: !(bs[j].libre && bs[j].espacio >= pedido)
    decreases |bs| - i
  {
    if i == |bs| || (bs[i].libre && bs[i].espacio >= pedido) then i else FirstFit(bs, pedido, i + 1)
  }

  /** Block k becomes a used block of t bytes; the rest becomes a new free block, inserted
      after the position that `indice` names. */
  function Split(bs: Bloques, k: nat, t: nat): Bloques
    requires k < |bs|
  {
    var b := bs[k];
    Insertar(bs[k := b.(espacio := t, libre := false)], b.indice + 1,
             InfoHeap(b.dir + HM + t, b.espacio - t - HM, true, b.indice + 1))
  }

  /** The last block takes t bytes and what the `extra` new bytes leave over becomes a new
      free block. */
  function Grow(bs: Bloques, t: nat, extra: nat): Bloques
    requires 0 < |bs|
  {
    var n := |bs| - 1;
    var b := bs[n];
    Insertar(bs[n := b.(espacio := t, libre := false)], b.indice + 1,
             InfoHeap(b.dir + HM + t, extra - t - HM + b.espacio, true, b.indice + 1))
  }

  /** The two blocks of a new segment of `tamanio` bytes. */
  function NewBlocks(t: nat, tamanio: nat): Bloques {
    [InfoHeap(0, t, false, 0), InfoHeap(t + HM, tamanio - t - 2 * HM, true, 1)]
  }

  /** One turn of the loop of `merge`, at position c. */
  function Paso(h: Segmento, c: nat, P: nat): Segmento
    requires c < |h.bloques| && 0 < P
  {
    var bs := h.bloques;
    var hm := bs[c];
    if hm.libre && |bs| == 1 then Segmento([], 0, 0)
    else if hm.libre && c == |bs| - 1 && bs[c - 1].libre then
      var anterior := bs[c - 1];
      var pagAnterior := PageOf(anterior.dir + HM, P);
      var quedan := if pagAnterior + 1 < h.paginas then pagAnterior + 1 else h.paginas;
      Segmento(Quitar(bs[c - 1 := anterior.(espacio := P - OffsetOf(anterior.dir, P) - HM)], hm.indice),
               quedan, Span(quedan, P))
    else if hm.libre && c < |bs| - 1 && c > 0 && bs[c - 1].libre then
      var anterior := bs[c - 1];
      h.(bloques := Quitar(bs[c - 1 := anterior.(espacio := anterior.espacio + HM + hm.espacio)], hm.indice))
    else h
  }

  /** `merge` from position c - 1 down to 0. */
  function Merge(h: Segmento, c: nat, P: nat): Segmento
    requires 0 < P
    decreases c
  {
    if c == 0 || c > |h.bloques| then h else Merge(Paso(h, c - 1, P), c - 1, P)
  }

  // ---- invariants -----------------------------------------------------------

  /** Blocks follow one another from address 0 with no gap; all but the last have a
      non-negative size, and the last is free and starts inside the segment. */
  predicate Chained(bs: Bloques, tamanio: nat) {
    && 0 < |bs|
    && bs[0].dir == 0
    && (forall i: nat | i < |bs| - 1 :: bs[i].espacio >= 0 && bs[i + 1].dir == Fin(bs[i]))
    && bs[|bs| - 1].libre && bs[|bs| - 1].dir < tamanio
  }

  /** The blocks tile the segment exactly: the last one ends at `tamanio`. */
  predicate Tiled(bs: Bloques, tamanio: nat) {
    Chained(bs, tamanio) && bs[|bs| - 1].espacio >= 0 && Fin(bs[|bs| - 1]) == tamanio
  }

  predicate NoAdjacentFree(bs: Bloques) {
    forall i: nat | i < |bs| - 1 :: !(bs[i].libre && bs[i + 1].libre)
  }

  predicate Numbered(bs: Bloques) {
    forall i: nat | i < |bs| :: bs[i].indice == i
  }

  /** Addresses and sizes of the blocks in use. */
  ghost function Usados(bs: Bloques): set<(nat, int)> {
    set i: nat | i < |bs| && !bs[i].libre :: (bs[i].dir, bs[i].espacio)
  }

  /** Blocks are in address order and do not overlap, headers included. */
  lemma {:induction false} ChainOrder(bs: Bloques, tamanio: nat, i: nat, j: nat)
    requires Chained(bs, tamanio) && i < j < |bs|
    ensures bs[i].dir + HM <= Fin(bs[i]) <= bs[j].dir
    decreases j - i
  {
    if i + 1 < j { ChainOrder(bs, tamanio, i + 1, j); }
  }

  /** Payloads of different used blocks share no address, and all lie inside the segment. */
  lemma UsedDisjoint(bs: Bloques, tamanio: nat)
    requires Chained(bs, tamanio)
    ensures forall u, v | u in Usados(bs) && v in Usados(bs) && u != v ::
              u.0 + HM + u.1 <= v.0 || v.0 + HM + v.1 <= u.0
    ensures forall u | u in Usados(bs) :: 0 <= u.1 && u.0 + HM + u.1 <= bs[|bs| - 1].dir < tamanio
  {
    forall u | u in Usados(bs)
      ensures 0 <= u.1 && u.0 + HM + u.1 <= bs[|bs| - 1].dir
    {
      var i: nat :| i < |bs| && !bs[i].libre && u == (bs[i].dir, bs[i].espacio);
      ChainOrder(bs, tamanio, i, |bs| - 1);
    }
    forall u, v | u in Usados(bs) && v in Usados(bs) && u != v
      ensures u.0 + HM + u.1 <= v.0 || v.0 + HM + v.1 <= u.0
    {
      var i: nat :| i < |bs| && !bs[i].libre && u == (bs[i].dir, bs[i].espacio);
      var j: nat :| j < |bs| && !bs[j].libre && v == (bs[j].dir, bs[j].espacio);
      if i < j { ChainOrder(bs, tamanio, i, j); } else { ChainOrder(bs, tamanio, j, i); }
    }
  }

  // ---- new segment ----------------------------------------------------------

  lemma NewTiled(t: nat, P: nat)
    requires 0 < P
    ensures var tam := Span(FramesNecesarios(t + 2 * HM, P), P);
            && t + 2 * HM <= tam
            && Tiled(NewBlocks(t, tam), tam) && NoAdjacentFree(NewBlocks(t, tam)) && Numbered(NewBlocks(t, tam))
            && Usados(NewBlocks(t, tam)) == {(0, t)}
  {
    FramesHold(t + 2 * HM, P);
    var bs := NewBlocks(t, Span(FramesNecesarios(t + 2 * HM, P), P));
    assert bs[0].dir == 0 && bs[0].espacio == t;
    assert (0, t) in Usados(bs);
  }

  // ---- split ----------------------------------------------------------------

  /** bs' is bs with block k cut into a used block of t bytes and a free remainder. */
  ghost predicate SplitAt(bs: Bloques, k: nat, t: nat, bs': Bloques) {
    && k < |bs| && |bs'| == |bs| + 1
    && (forall i: nat | i < k :: bs'[i] == bs[i])
    && bs'[k] == bs[k].(espacio := t, libre := false)
    && bs'[k + 1] == InfoHeap(bs[k].dir + HM + t, bs[k].espacio - t - HM, true, k + 1)
    && (forall i: nat | k + 1 < i < |bs'| :: bs'[i] == bs[i - 1])
  }

  lemma SplitTiled(bs: Bloques, tamanio: nat, k: nat, t: nat, bs': Bloques)
    requires Tiled(bs, tamanio) && SplitAt(bs, k, t, bs') && bs[k].libre && bs[k].espacio >= t + HM
    ensures Tiled(bs', tamanio)
    ensures NoAdjacentFree(bs) ==> NoAdjacentFree(bs')
  {
  }

  lemma SplitUsados(bs: Bloques, k: nat, t: nat, bs': Bloques)
    requires SplitAt(bs, k, t, bs') && bs[k].libre
    ensures Usados(bs') == Usados(bs) + {(bs[k].dir, t)}
  {
    assert (bs[k].dir, t) in Usados(bs') by { assert bs'[k].dir == bs[k].dir; }
    forall u | u in Usados(bs) ensures u in Usados(bs') {
      var i: nat :| i < |bs| && !bs[i].libre && u == (bs[i].dir, bs[i].espacio);
      var j := if i < k then i else i + 1;
      assert bs'[j] == bs[i];
    }
    forall u | u in Usados(bs') ensures u in Usados(bs) + {(bs[k].dir, t)} {
      var j: nat :| j < |bs'| && !bs'[j].libre && u == (bs'[j].dir, bs'[j].espacio);
      if j != k {
        var i := if j < k then j else j - 1;
        assert bs'[j] == bs[i];
      }
    }
  }

  /** Splitting a free block at its own position keeps the tiling and the used blocks, adds
      one used block inside the old free one, and keeps free blocks apart. */
  lemma SplitKeeps(bs: Bloques, tamanio: nat, k: nat, t: nat)
    requires Tiled(bs, tamanio) && k < |bs| && bs[k].libre && bs[k].espacio >= t + HM
    requires bs[k].indice == k
    ensures SplitAt(bs, k, t, Split(bs, k, t))
    ensures Tiled(Split(bs, k, t), tamanio)
    ensures NoAdjacentFree(bs) ==> NoAdjacentFree(Split(bs, k, t))
    ensures Usados(Split(bs, k, t)) == Usados(bs) + {(bs[k].dir, t)}
  {
    hide Tiled, NoAdjacentFree, Usados;
    assert SplitAt(bs, k, t, Split(bs, k, t));
    SplitTiled(bs, tamanio, k, t, Split(bs, k, t));
    SplitUsados(bs, k, t, Split(bs, k, t));
  }

  /** A split keeps the tiling exactly when the block's `indice` is its list position. */
  lemma SplitExact(bs: Bloques, tamanio: nat, k: nat, t: nat)
    requires Tiled(bs, tamanio) && k < |bs| && bs[k].libre && bs[k].espacio >= t + HM
    ensures Tiled(Split(bs, k, t), tamanio) <==> bs[k].indice == k
  {
    if bs[k].indice == k {
      SplitKeeps(bs, tamanio, k, t);
    } else {
      var bs' := Split(bs, k, t);
      var p := bs[k].indice + 1;
      if p <= k {
        assert bs'[p].dir == bs[k].dir + HM + t;
        assert bs'[p - 1] == bs[p - 1];
        if p < k { ChainOrder(bs, tamanio, p, k); }
        assert bs'[(p - 1) + 1].dir != Fin(bs'[p - 1]);
      } else {
        assert bs'[k].espacio == t && bs'[k].dir == bs[k].dir && !bs'[k].libre;
        if k + 1 < |bs| {
          assert bs'[k + 1] == bs[k + 1];
        }
      }
    }
  }

  /** Numbering survives a split exactly when the block split is the last one: the blocks
      after it move up one position and are not renumbered. */
  lemma SplitNumbered(bs: Bloques, k: nat, t: nat)
    requires Numbered(bs) && k < |bs|
    ensures Numbered(Split(bs, k, t)) <==> k == |bs| - 1
  {
    var bs' := Split(bs, k, t);
    if k < |bs| - 1 {
      assert bs'[k + 2] == bs[k + 1];
    }
  }

  // ---- grow -----------------------------------------------------------------

  /** Growing is a split of the last block after it has been lengthened. */
  lemma GrowIsSplit(bs: Bloques, t: nat, extra: nat)
    requires 0 < |bs|
    ensures var n := |bs| - 1;
            Grow(bs, t, extra) == Split(bs[n := bs[n].(espacio := bs[n].espacio + extra)], n, t)
  {
  }

  lemma Lengthened(bs: Bloques, tamanio: nat, extra: nat)
    requires Tiled(bs, tamanio)
    ensures var n := |bs| - 1;
            var bs1 := bs[n := bs[n].(espacio := bs[n].espacio + extra)];
            && Tiled(bs1, tamanio + extra) && Usados(bs1) == Usados(bs)
            && (NoAdjacentFree(bs) ==> NoAdjacentFree(bs1))
  {
    var n := |bs| - 1;
    var bs1 := bs[n := bs[n].(espacio := bs[n].espacio + extra)];
    forall u | u in Usados(bs) ensures u in Usados(bs1) {
      var i: nat :| i < |bs| && !bs[i].libre && u == (bs[i].dir, bs[i].espacio);
      assert bs1[i] == bs[i];
    }
  }

  /** When no block fits, enough whole pages are added to place t bytes in the last one. */
  lemma GrowRoom(bs: Bloques, tamanio: nat, t: nat, P: nat)
    requires Tiled(bs, tamanio) && 0 < P && FirstFit(bs, t + HM, 0) == |bs|
    ensures bs[|bs| - 1].espacio < t + HM
    ensures var falta := t - bs[|bs| - 1].espacio + HM;
            bs[|bs| - 1].espacio + Span(FramesNecesarios(falta, P), P) >= t + HM
  {
    FramesHold(t - bs[|bs| - 1].espacio + HM, P);
  }

  /** Growth keeps the tiling exactly when the last block's `indice` is its position; then
      it keeps the used blocks and adds one at the old last block's address. */
  lemma GrowExact(bs: Bloques, tamanio: nat, t: nat, extra: nat)
    requires Tiled(bs, tamanio) && bs[|bs| - 1].espacio + extra >= t + HM
    ensures Tiled(Grow(bs, t, extra), tamanio + extra) <==> bs[|bs| - 1].indice == |bs| - 1
    ensures bs[|bs| - 1].indice == |bs| - 1 ==>
              && (NoAdjacentFree(bs) ==> NoAdjacentFree(Grow(bs, t, extra)))
              && Usados(Grow(bs, t, extra)) == Usados(bs) + {(bs[|bs| - 1].dir, t)}
    ensures Numbered(bs) ==> Numbered(Grow(bs, t, extra))
  {
    hide Split, Grow, Usados, NoAdjacentFree;
    var n := |bs| - 1;
    var bs1 := bs[n := bs[n].(espacio := bs[n].espacio + extra)];
    Lengthened(bs, tamanio, extra);
    GrowIsSplit(bs, t, extra);
    SplitExact(bs1, tamanio + extra, n, t);
    if bs[n].indice == n { SplitKeeps(bs1, tamanio + extra, n, t); }
    if Numbered(bs) { SplitNumbered(bs1, n, t); }
  }

  /** A growth refused for want of space has already marked the last block used, which
      breaks the tiling. */
  lemma RefusedGrowBreaks(bs: Bloques, tamanio: nat)
    requires Tiled(bs, tamanio)
    ensures !Tiled(bs[|bs| - 1 := bs[|bs| - 1].(libre := false)], tamanio)
  {
  }
}
