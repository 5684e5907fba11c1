/** `merge` removes blocks by their stored `indice`: exactly when a free goes right, whatever the
    indices are. */
module StaleIndices {
  import opened Pages
  import opened Heap
  import opened Coalesce

  ghost function Dirs(bs: Bloques): set<nat> {
    set i: nat | i < |bs| :: bs[i].dir
  }

  /** Block k and the one before it are free. */
  predicate Junto(bs: Bloques, k: nat) {
    0 < k < |bs| && bs[k].libre && bs[k - 1].libre
  }

  /** r is what freeing block j should leave: tiled, coalesced, and with block j alone out of
      use. */
  ghost predicate Correcta(bs: Bloques, j: nat, r: Segmento)
    requires j < |bs|
  {
    && Tiled(r.bloques, r.tamanio) && NoAdjacentFree(r.bloques)
    && Usados(r.bloques) == Usados(bs) - {(bs[j].dir, bs[j].espacio)}
  }

  /** A segment in order, of which some block stays in use after block j is freed. */
  ghost predicate EnOrden(h: Segmento, j: nat, P: nat) {
    && 0 < P && Tiled(h.bloques, h.tamanio) && NoAdjacentFree(h.bloques) && h.tamanio == Span(h.paginas, P)
    && j < |h.bloques| && Usados(h.bloques) - {(h.bloques[j].dir, h.bloques[j].espacio)} != {}
  }

  // ---- turns ----------------------------------------------------------------

  lemma PasoNada(h: Segmento, k: nat, P: nat)
    requires 0 < P && k < |h.bloques| && 1 < |h.bloques| && !Junto(h.bloques, k)
    ensures Paso(h, k, P) == h
  {
  }

  /** Size the block before position k takes when it absorbs block k. */
  function Fundido(bs: Bloques, k: nat, P: nat): int
    requires 0 < P && 0 < k < |bs|
  {
    if k == |bs| - 1 then P - OffsetOf(bs[k - 1].dir, P) - HM else bs[k - 1].espacio + HM + bs[k].espacio
  }

  lemma PasoJunto(h: Segmento, k: nat, P: nat)
    requires 0 < P && Junto(h.bloques, k)
    ensures var bs := h.bloques;
            Paso(h, k, P).bloques == Quitar(bs[k - 1 := bs[k - 1].(espacio := Fundido(bs, k, P))], bs[k].indice)
  {
  }

  lemma {:induction false} MergeSkips(h: Segmento, c: nat, c0: nat, P: nat)
    requires 0 < P && c0 <= c <= |h.bloques| && 1 < |h.bloques|
    requires forall k: nat | c0 <= k < c :: !Junto(h.bloques, k)
    ensures Merge(h, c, P) == Merge(h, c0, P)
    decreases c
  {
    if c0 < c {
      PasoNada(h, c - 1, P);
      MergeSkips(h, c - 1, c0, P);
    }
  }

  lemma QuitarDirs(bs: Bloques, k: nat)
    ensures Dirs(Quitar(bs, k)) <= Dirs(bs)
  {
    var r := Quitar(bs, k);
    forall i: nat | i < |r| ensures r[i].dir in Dirs(bs) {
      assert r[i] == bs[if i < k || |bs| <= k then i else i + 1];
    }
  }

  lemma PasoDirs(h: Segmento, k: nat, P: nat)
    requires 0 < P && k < |h.bloques|
    ensures Dirs(Paso(h, k, P).bloques) <= Dirs(h.bloques)
  {
    hide Paso, Quitar, Fundido;
    var bs := h.bloques;
    if Junto(bs, k) {
      PasoJunto(h, k, P);
      var bs1 := bs[k - 1 := bs[k - 1].(espacio := Fundido(bs, k, P))];
      QuitarDirs(bs1, bs[k].indice);
      assert forall i: nat | i < |bs| :: bs1[i].dir == bs[i].dir;
    } else if 1 < |bs| {
      PasoNada(h, k, P);
    } else {
      PasoUno(h, P);
    }
  }

  lemma PasoUno(h: Segmento, P: nat)
    requires 0 < P && |h.bloques| == 1
    ensures Paso(h, 0, P).bloques == [] || Paso(h, 0, P) == h
  {
  }

  /** The pass invents no address. */
  lemma {:induction false} MergeDirs(h: Segmento, c: nat, P: nat)
    requires 0 < P
    ensures Dirs(Merge(h, c, P).bloques) <= Dirs(h.bloques)
    decreases c
  {
    hide Paso, Dirs;
    if 0 < c <= |h.bloques| {
      PasoDirs(h, c - 1, P);
      MergeDirs(Paso(h, c - 1, P), c - 1, P);
    }
  }

  /** One turn away from the tail keeps the chain exactly when the block it absorbs is numbered
      by its position. */
  lemma PasoExact(h: Segmento, k: nat, P: nat)
    requires 0 < P && Chained(h.bloques, h.tamanio) && Junto(h.bloques, k) && k < |h.bloques| - 1
    ensures Chained(Paso(h, k, P).bloques, h.tamanio) <==> h.bloques[k].indice == k
  {
    hide Paso;
    PasoJunto(h, k, P);
    var bs, q := h.bloques, h.bloques[k].indice;
    var e := Fundido(bs, k, P);
    var l := bs[k - 1 := bs[k - 1].(espacio := e)];
    if q == k {
      AbsorbedChained(bs, k, e, Quitar(l, k), h.tamanio, h.tamanio);
    } else {
      QuitarOtro(bs, h.tamanio, k, q, l);
    }
  }

  lemma QuitarOtro(bs: Bloques, tam: nat, k: nat, q: nat, l: Bloques)
    requires Chained(bs, tam) && 0 < k < |bs| - 1 && q != k
    requires l == bs[k - 1 := bs[k - 1].(espacio := bs[k - 1].espacio + HM + bs[k].espacio)]
    ensures !Chained(Quitar(l, q), tam)
  {
    var r := Quitar(l, q);
    if q > k {
      assert r[k - 1] == l[k - 1] && r[(k - 1) + 1] == bs[k];
      assert bs[(k - 1) + 1].dir == Fin(bs[k - 1]);
    } else if q > 0 {
      assert r[q - 1] == bs[q - 1] && r[(q - 1) + 1].dir == bs[q + 1].dir;
      assert bs[(q - 1) + 1].dir == Fin(bs[q - 1]);
      ChainOrder(bs, tam, q, q + 1);
    } else {
      assert r[0].dir == bs[1].dir;
      ChainOrder(bs, tam, 0, 1);
    }
  }

  // ---- what cannot be lost --------------------------------------------------

  /** An address where a right result must have a block: the first, a block that stays in use,
      or what follows one. */
  ghost predicate HaceFalta(bs: Bloques, j: nat, d: int)
    requires j < |bs|
  {
    d == 0 || exists u :: u in Usados(bs) - {(bs[j].dir, bs[j].espacio)} && (d == u.0 || d == u.0 + HM + u.1)
  }

  lemma CorrectaNeeds(bs: Bloques, j: nat, r: Segmento, d: nat)
    requires j < |bs| && Correcta(bs, j, r) && HaceFalta(bs, j, d)
    ensures d in Dirs(r.bloques)
  {
    var rs := r.bloques;
    if d == 0 {
      assert rs[0].dir == 0;
    } else {
      var u :| u in Usados(rs) && (d == u.0 || d == u.0 + HM + u.1);
      var i: nat :| i < |rs| && !rs[i].libre && u == (rs[i].dir, rs[i].espacio);
      assert rs[i + 1].dir == Fin(rs[i]);
      assert rs[i].dir in Dirs(rs) && rs[i + 1].dir in Dirs(rs);
    }
  }

  lemma UsadoStays(bs: Bloques, tam: nat, j: nat, i: nat)
    requires Chained(bs, tam) && j < |bs| && i < |bs| && i != j && !bs[i].libre
    ensures (bs[i].dir, bs[i].espacio) in Usados(bs) - {(bs[j].dir, bs[j].espacio)}
  {
    if i < j { ChainOrder(bs, tam, i, j); } else { ChainOrder(bs, tam, j, i); }
  }

  /** Only block j and the free block after it may go, and block j only when the block before
      it is free. */
  lemma MayGo(bs: Bloques, tam: nat, j: nat, i: nat)
    requires Chained(bs, tam) && NoAdjacentFree(bs) && j < |bs| && i < |bs|
    requires i == j ==> !Junto(Marcar(bs, j), j)
    requires i == j + 1 ==> !Junto(Marcar(bs, j), j + 1)
    ensures HaceFalta(bs, j, bs[i].dir)
  {
    if i != j && !bs[i].libre {
      UsadoStays(bs, tam, j, i);
    } else if 0 < i {
      assert !bs[i - 1].libre && i - 1 != j;
      UsadoStays(bs, tam, j, i - 1);
      assert bs[(i - 1) + 1].dir == Fin(bs[i - 1]);
    }
  }

  /** Freeing block j makes free pairs at j and j + 1 alone. */
  lemma JuntosAt(bs: Bloques, j: nat, k: nat)
    requires NoAdjacentFree(bs) && j < |bs| && k != j && k != j + 1
    ensures !Junto(Marcar(bs, j), k)
  {
    if 0 < k < |bs| { assert !(bs[k - 1].libre && bs[(k - 1) + 1].libre); }
  }

  /** Addresses grow along l. */
  ghost predicate Crecientes(l: Bloques) {
    forall i: nat, k: nat | i < k < |l| :: l[i].dir < l[k].dir
  }

  lemma ChainedCrecientes(bs: Bloques, tam: nat)
    requires Chained(bs, tam)
    ensures Crecientes(bs)
  {
    forall i: nat, k: nat | i < k < |bs| ensures bs[i].dir < bs[k].dir {
      ChainOrder(bs, tam, i, k);
    }
  }

  /** A pass that goes on from a list without a needed address goes wrong. */
  lemma LostForGood(bs: Bloques, j: nat, l: Bloques, q: nat, h2: Segmento, c: nat, P: nat)
    requires 0 < P && j < |bs| && Crecientes(l) && q < |l| && HaceFalta(bs, j, l[q].dir)
    requires h2.bloques == Quitar(l, q)
    ensures !Correcta(bs, j, Merge(h2, c, P))
  {
    hide Correcta, HaceFalta;
    var d := l[q].dir;
    assert d !in Dirs(h2.bloques) by {
      forall i: nat | i < |h2.bloques| ensures h2.bloques[i].dir != d {
        assert h2.bloques[i] == l[if i < q then i else i + 1];
      }
    }
    MergeDirs(h2, c, P);
    if Correcta(bs, j, Merge(h2, c, P)) { CorrectaNeeds(bs, j, Merge(h2, c, P), d); }
  }

  /** A pass that has passed position j and left two free blocks together goes wrong. */
  lemma LeftTogether(bs: Bloques, j: nat, h2: Segmento, P: nat, x: nat)
    requires 0 < P && j < |bs| && 1 < |h2.bloques| && j <= |h2.bloques| && Junto(h2.bloques, x)
    requires forall k: nat | k < j :: !Junto(h2.bloques, k)
    ensures !Correcta(bs, j, Merge(h2, j, P))
  {
    MergeSkips(h2, j, 0, P);
    assert h2.bloques[x - 1].libre && h2.bloques[(x - 1) + 1].libre;
  }

  // ---- the two turns that can remove a block --------------------------------

  function Marcado(h: Segmento, j: nat): Segmento
    requires j < |h.bloques|
  {
    h.(bloques := Marcar(h.bloques, j))
  }

  lemma PasoSize(h: Segmento, k: nat, P: nat)
    requires 0 < P && k < |h.bloques| && 1 < |h.bloques|
    ensures |h.bloques| - 1 <= |Paso(h, k, P).bloques| <= |h.bloques|
  {
  }

  lemma TwoTurns(h: Segmento, j: nat, P: nat)
    requires 0 < P && NoAdjacentFree(h.bloques) && j + 1 < |h.bloques|
    ensures var h1 := Paso(Marcado(h, j), j + 1, P);
            j < |h1.bloques| && Merge(Marcado(h, j), |h.bloques|, P) == Merge(Paso(h1, j, P), j, P)
  {
    hide Paso, NoAdjacentFree;
    var hm := Marcado(h, j);
    forall k: nat | j + 2 <= k < |h.bloques| ensures !Junto(hm.bloques, k) {
      JuntosAt(h.bloques, j, k);
    }
    MergeSkips(hm, |h.bloques|, j + 2, P);
    PasoSize(hm, j + 1, P);
  }

  /** Before position j nothing is together, as long as the blocks there are as free as they were. */
  lemma ApartBelow(bs: Bloques, j: nat, l: Bloques)
    requires NoAdjacentFree(bs) && j < |bs| && j <= |l|
    requires forall i: nat | i < j :: l[i].libre == bs[i].libre
    ensures forall k: nat | k < j :: !Junto(l, k)
  {
    forall k: nat | k < j ensures !Junto(l, k) {
      JuntosAt(bs, j, k);
    }
  }

  /** The marked blocks, with block j the size it takes when it absorbs the next one. */
  function Crecida(bs: Bloques, j: nat, P: nat): Bloques
    requires 0 < P && j + 1 < |bs|
  {
    var mb := Marcar(bs, j);
    mb[j := mb[j].(espacio := Fundido(mb, j + 1, P))]
  }

  lemma CrecidaShape(bs: Bloques, j: nat, P: nat)
    requires 0 < P && j + 1 < |bs|
    ensures var l := Crecida(bs, j, P);
            && |l| == |bs| && (Crecientes(bs) ==> Crecientes(l))
            && (forall i: nat | i < |l| :: l[i].dir == bs[i].dir && l[i] == Marcar(bs, j)[i].(espacio := l[i].espacio))
  {
  }

  lemma FirstTurn(h: Segmento, j: nat, P: nat)
    requires 0 < P && j + 1 < |h.bloques| && Junto(Marcar(h.bloques, j), j + 1)
    ensures Paso(Marcado(h, j), j + 1, P).bloques == Quitar(Crecida(h.bloques, j, P), h.bloques[j + 1].indice)
  {
    hide Paso;
    PasoJunto(Marcado(h, j), j + 1, P);
  }

  /** The block at j + 1 is absorbed, but another one, or none, is removed. */
  lemma WrongFirst(h: Segmento, j: nat, P: nat)
    requires EnOrden(h, j, P) && Junto(Marcar(h.bloques, j), j + 1)
    requires h.bloques[j + 1].indice != j + 1
    requires h.bloques[j + 1].indice == j ==> !Junto(Marcar(h.bloques, j), j)
    ensures !Correcta(h.bloques, j, Merge(Marcado(h, j), |h.bloques|, P))
  {
    hide Paso, Correcta, Tiled, NoAdjacentFree, HaceFalta, Chained, Merge, Crecida, Junto;
    assert j + 1 < |h.bloques| by { JuntoInside(Marcar(h.bloques, j), j + 1); }
    var bs, h1, l := h.bloques, Paso(Marcado(h, j), j + 1, P), Crecida(h.bloques, j, P);
    TiledIsChained(bs, h.tamanio);
    ChainedCrecientes(bs, h.tamanio);
    CrecidaShape(bs, j, P);
    TwoTurns(h, j, P);
    FirstTurn(h, j, P);
    var q := bs[j + 1].indice;
    if q < |bs| {
      MayGo(bs, h.tamanio, j, q);
      LostThen(bs, j, l, q, h1, P);
    } else {
      NoneRemoved(h, j, l, h1, P);
    }
  }

  lemma JuntoInside(bs: Bloques, k: nat)
    requires Junto(bs, k)
    ensures 0 < k < |bs|
  {
  }

  lemma TiledIsChained(bs: Bloques, tam: nat)
    requires Tiled(bs, tam)
    ensures Chained(bs, tam)
  {
  }

  lemma LostThen(bs: Bloques, j: nat, l: Bloques, q: nat, h1: Segmento, P: nat)
    requires 0 < P && j < |bs| && Crecientes(l) && q < |l| && HaceFalta(bs, j, l[q].dir)
    requires h1.bloques == Quitar(l, q) && j < |h1.bloques|
    ensures !Correcta(bs, j, Merge(Paso(h1, j, P), j, P))
  {
    LostForGood(bs, j, l, q, h1, j + 1, P);
  }

  lemma NoneRemoved(h: Segmento, j: nat, l: Bloques, h1: Segmento, P: nat)
    requires EnOrden(h, j, P) && Junto(Marcar(h.bloques, j), j + 1)
    requires |l| == |h.bloques| && h1.bloques == l
    requires forall i: nat | i < |l| :: l[i] == Marcar(h.bloques, j)[i].(espacio := l[i].espacio)
    ensures !Correcta(h.bloques, j, Merge(Paso(h1, j, P), j, P))
  {
    hide Paso, Correcta, Tiled, NoAdjacentFree, HaceFalta;
    var bs := h.bloques;
    assert Chained(bs, h.tamanio) by { TiledIsChained(bs, h.tamanio); }
    ChainedCrecientes(bs, h.tamanio);
    if Junto(l, j) {
      SecondTurn(h, j, l, h1, P);
    } else {
      PasoNada(h1, j, P);
      ApartBelow(bs, j, l);
      LeftTogether(bs, j, h1, P, j + 1);
    }
  }

  /** Blocks j - 1, j and j + 1 are free and nothing was removed: one removal is not enough. */
  lemma SecondTurn(h: Segmento, j: nat, l: Bloques, h1: Segmento, P: nat)
    requires EnOrden(h, j, P) && Junto(Marcar(h.bloques, j), j + 1) && Junto(l, j)
    requires |l| == |h.bloques| && h1.bloques == l && Crecientes(h.bloques)
    requires forall i: nat | i < |l| :: l[i] == Marcar(h.bloques, j)[i].(espacio := l[i].espacio)
    ensures !Correcta(h.bloques, j, Merge(Paso(h1, j, P), j, P))
  {
    hide Paso, Correcta, Tiled, NoAdjacentFree, HaceFalta;
    var bs := h.bloques;
    assert Chained(bs, h.tamanio) by { TiledIsChained(bs, h.tamanio); }
    var l1, q := l[j - 1 := l[j - 1].(espacio := Fundido(l, j, P))], l[j].indice;
    var h2 := Paso(h1, j, P);
    PasoJunto(h1, j, P);
    if q < |l| && q != j && q != j + 1 {
      MayGo(bs, h.tamanio, j, q);
      LostForGood(bs, j, l1, q, h2, j, P);
    } else {
      ApartBelow(bs, j, h2.bloques);
      LeftTogether(bs, j, h2, P, j);
    }
  }

  /** The run of three away from the tail, when the last of it is numbered like the middle one:
      the run ends up short of the next block. */
  lemma Swapped(h: Segmento, j: nat, P: nat)
    requires EnOrden(h, j, P) && j + 2 < |h.bloques|
    requires Junto(Marcar(h.bloques, j), j + 1) && Junto(Marcar(h.bloques, j), j)
    requires h.bloques[j + 1].indice == j
    ensures !Correcta(h.bloques, j, Merge(Marcado(h, j), |h.bloques|, P))
  {
    hide Paso, NoAdjacentFree;
    var bs, hm := h.bloques, Marcado(h, j);
    var h1 := Paso(hm, j + 1, P);
    TwoTurns(h, j, P);
    var h2 := Paso(h1, j, P);
    PasoJunto(hm, j + 1, P);
    PasoJunto(h1, j, P);
    ApartBelow(bs, j, h2.bloques);
    MergeSkips(h2, j, 0, P);
    var r := h2.bloques;
    assert r[j - 1].espacio == bs[j - 1].espacio + HM + bs[j + 1].espacio && r[j - 1].dir == bs[j - 1].dir;
    assert r[(j - 1) + 1] == bs[j + 2];
    assert bs[(j - 1) + 1].dir == Fin(bs[j - 1]);
    assert bs[j + 1].dir == Fin(bs[j]);
    assert bs[(j + 1) + 1].dir == Fin(bs[j + 1]);
  }

  /** What the turn at j + 1 leaves when block j + 1 goes as it should, or need not go. */
  ghost predicate Encogida(bs: Bloques, j: nat, l: Bloques)
    requires j < |bs|
  {
    var salto := if Junto(Marcar(bs, j), j + 1) then 1 else 0;
    && |l| == |bs| - salto
    && (forall i: nat | i < |l| :: l[i].dir == bs[if i <= j then i else i + salto].dir)
    && (forall i: nat | i <= j && i < |l| :: l[i] == Marcar(bs, j)[i].(espacio := l[i].espacio))
  }

  lemma FirstGone(h: Segmento, j: nat, P: nat)
    requires 0 < P && j + 1 < |h.bloques|
    requires Junto(Marcar(h.bloques, j), j + 1) ==> h.bloques[j + 1].indice == j + 1
    ensures Encogida(h.bloques, j, Paso(Marcado(h, j), j + 1, P).bloques)
  {
    hide Paso;
    var hm := Marcado(h, j);
    if Junto(hm.bloques, j + 1) { PasoJunto(hm, j + 1, P); } else { PasoNada(hm, j + 1, P); }
  }

  lemma EncogidaGrows(bs: Bloques, j: nat, l: Bloques, x: nat, e: int)
    requires Crecientes(bs) && j < |bs| && Encogida(bs, j, l) && x < |l|
    ensures Crecientes(l[x := l[x].(espacio := e)])
  {
  }

  /** Block j is absorbed by the one before it, but is not the one removed. */
  lemma WrongSecond(h: Segmento, j: nat, P: nat)
    requires EnOrden(h, j, P) && j + 1 < |h.bloques| && Junto(Marcar(h.bloques, j), j) && h.bloques[j].indice != j
    requires Junto(Marcar(h.bloques, j), j + 1) ==> h.bloques[j + 1].indice == j + 1
    ensures !Correcta(h.bloques, j, Merge(Marcado(h, j), |h.bloques|, P))
  {
    hide Paso, Correcta, Tiled, NoAdjacentFree, HaceFalta, Chained, Merge;
    var bs, h1 := h.bloques, Paso(Marcado(h, j), j + 1, P);
    TiledIsChained(bs, h.tamanio);
    TwoTurns(h, j, P);
    FirstGone(h, j, P);
    var h2, l := Paso(h1, j, P), h1.bloques;
    PasoJunto(h1, j, P);
    var l1, q := l[j - 1 := l[j - 1].(espacio := Fundido(l, j, P))], l[j].indice;
    if q < |l| {
      MayGo(bs, h.tamanio, j, if q <= j then q else q + |bs| - |l|);
      ChainedCrecientes(bs, h.tamanio);
      EncogidaGrows(bs, j, l, j - 1, Fundido(l, j, P));
      LostForGood(bs, j, l1, q, h2, j, P);
    } else {
      ApartBelow(bs, j, h2.bloques);
      LeftTogether(bs, j, h2, P, j);
    }
  }

  // ---- the run at the tail --------------------------------------------------

  /** h with the indices the pass uses at j and j + 1 put right. */
  function Corregido(h: Segmento, j: nat): Segmento
    requires j + 1 < |h.bloques|
  {
    h.(bloques := h.bloques[j := h.bloques[j].(indice := j)][j + 1 := h.bloques[j + 1].(indice := j + 1)])
  }

  /** The run of three at the tail, when the last block is numbered like the middle one: the
      middle one goes first and the last one second, with the same outcome. */
  lemma TailSwap(h: Segmento, j: nat, P: nat)
    requires 0 < P && NoAdjacentFree(h.bloques) && j + 2 == |h.bloques|
    requires h.bloques[j + 1].libre && Junto(Marcar(h.bloques, j), j)
    requires h.bloques[j + 1].indice == j
    ensures Merge(Marcado(h, j), |h.bloques|, P) == Merge(Marcado(Corregido(h, j), j), |h.bloques|, P)
  {
    hide PageOf, OffsetOf, Span, Merge;
    TwoTurns(h, j, P);
    var hx := Corregido(h, j);
    assert NoAdjacentFree(hx.bloques);
    TwoTurns(hx, j, P);
    var h1, hx1 := Paso(Marcado(h, j), j + 1, P), Paso(Marcado(hx, j), j + 1, P);
    PasoJunto(Marcado(h, j), j + 1, P);
    PasoJunto(Marcado(hx, j), j + 1, P);
    var h2, hx2 := Paso(h1, j, P), Paso(hx1, j, P);
    PasoJunto(h1, j, P);
    PasoJunto(hx1, j, P);
    assert h2.bloques == hx2.bloques;
    assert h2 == hx2;
  }

  // ---- free -----------------------------------------------------------------

  /** The indices the pass uses are positions, or the run of three at the tail has its last
      block numbered like the middle one. */
  predicate IndicesServe(bs: Bloques, j: nat)
    requires j < |bs|
  {
    || UsefulIndices(Marcar(bs, j), |bs|)
    || (j + 2 == |bs| && bs[j + 1].libre && Junto(Marcar(bs, j), j) && bs[j + 1].indice == j)
  }

  /** What `muse_free` needs of the block list before the call: those indices, and the tail
      formula. */
  predicate FreeGuard(bs: Bloques, j: nat, P: nat)
    requires 0 < P && j < |bs|
  {
    IndicesServe(bs, j) && TailFits(Marcar(bs, j), P)
  }

  lemma {:induction false} ColaSame(a: Bloques, b: Bloques, m: nat)
    requires |a| == |b| && m <= |a| && forall i: nat | i < |a| :: a[i].libre == b[i].libre
    ensures ColaLibre(a, m) == ColaLibre(b, m)
  {
    if m > 0 { ColaSame(a, b, m - 1); }
  }

  lemma CorregidoSame(h: Segmento, j: nat, P: nat)
    requires 0 < P && j + 1 < |h.bloques|
    ensures var bs, bx := h.bloques, Corregido(h, j).bloques;
            && (Tiled(bx, h.tamanio) <==> Tiled(bs, h.tamanio)) && (NoAdjacentFree(bx) <==> NoAdjacentFree(bs))
            && Usados(bx) == Usados(bs) && (TailFits(Marcar(bx, j), P) <==> TailFits(Marcar(bs, j), P))
            && |bx| == |bs| && bx[j].dir == bs[j].dir && bx[j].espacio == bs[j].espacio
  {
    var bs, bx := h.bloques, Corregido(h, j).bloques;
    ColaSame(Marcar(bs, j), Marcar(bx, j), |bs|);
    assert forall i: nat | i < |bs| :: bx[i] == bs[i].(indice := bx[i].indice);
    hide Tiled, ColaLibre, Usados;
    SameTiled(bs, bx, h.tamanio);
    SameTiled(bx, bs, h.tamanio);
    CorregidoUsados(h, j);
  }

  lemma SameTiled(bs: Bloques, r: Bloques, tam: nat)
    requires |r| == |bs| && forall i: nat | i < |bs| :: r[i] == bs[i].(indice := r[i].indice)
    ensures Tiled(bs, tam) ==> Tiled(r, tam)
  {
    if Tiled(bs, tam) { SameChain(bs, r, tam); }
  }

  lemma CorregidoUsados(h: Segmento, j: nat)
    requires j + 1 < |h.bloques|
    ensures Usados(Corregido(h, j).bloques) == Usados(h.bloques)
  {
    var bs, bx := h.bloques, Corregido(h, j).bloques;
    forall u | u in Usados(bs) ensures u in Usados(bx) {
      var i: nat :| i < |bs| && !bs[i].libre && u == (bs[i].dir, bs[i].espacio);
      assert bx[i].dir == bs[i].dir;
    }
  }

  lemma CorregidoServes(h: Segmento, j: nat)
    requires NoAdjacentFree(h.bloques) && j + 2 == |h.bloques|
    ensures UsefulIndices(Marcar(Corregido(h, j).bloques, j), |h.bloques|)
  {
    var bx := Corregido(h, j).bloques;
    assert NoAdjacentFree(bx);
    forall k: nat | 0 < k < |bx| && Junto(Marcar(bx, j), k) ensures Marcar(bx, j)[k].indice == k {
      if k != j && k != j + 1 { JuntosAt(bx, j, k); }
    }
  }

  /** Freeing block j takes exactly that block out of use, whatever run it joins; the result has
      no adjacent free blocks, is numbered, and keeps the pages of every other used block. It is
      tiled again, unless nothing is left in use, exactly when the tail formula fits. */
  lemma FreeServes(h: Segmento, j: nat, P: nat)
    requires 0 < P && Tiled(h.bloques, h.tamanio) && NoAdjacentFree(h.bloques) && h.tamanio == Span(h.paginas, P)
    requires j < |h.bloques| && IndicesServe(h.bloques, j)
    ensures var r := Free(h, j, P);
            && (r.bloques == [] <==> Usados(h.bloques) <= {(h.bloques[j].dir, h.bloques[j].espacio)})
            && (r.bloques == [] ==> r.paginas == 0 && r.tamanio == 0)
            && (r.bloques != [] ==>
                  && NoAdjacentFree(r.bloques) && Numbered(r.bloques)
                  && Usados(r.bloques) == Usados(h.bloques) - {(h.bloques[j].dir, h.bloques[j].espacio)}
                  && r.tamanio == Span(r.paginas, P) && r.paginas <= h.paginas
                  && (forall u | u in Usados(r.bloques) :: u.0 + HM + u.1 < r.tamanio)
                  && (Tiled(r.bloques, r.tamanio) <==> TailFits(Marcar(h.bloques, j), P)))
  {
    hide Tiled, UsefulIndices, TailFits, Numbered, Usados, Merge, NoAdjacentFree, Corregido;
    if UsefulIndices(Marcar(h.bloques, j), |h.bloques|) {
      FreeKeeps(h, j, P);
    } else {
      var hx := Corregido(h, j);
      CorregidoSame(h, j, P);
      CorregidoServes(h, j);
      CorregidoRest(h, j);
      TailSwap(h, j, P);
      FreeKeeps(hx, j, P);
    }
  }

  /** Indices that serve leave it as `Recogida` says, pages included. */
  lemma FreeServesTail(h: Segmento, j: nat, P: nat)
    requires 0 < P && Tiled(h.bloques, h.tamanio) && NoAdjacentFree(h.bloques) && h.tamanio == Span(h.paginas, P)
    requires j < |h.bloques| && IndicesServe(h.bloques, j)
    ensures Recogida(h, j, Free(h, j, P), P)
  {
    hide Tiled, UsefulIndices, TailFits, Usados, Merge, NoAdjacentFree, Corregido, Recogida;
    if UsefulIndices(Marcar(h.bloques, j), |h.bloques|) {
      FreeTail(h, j, P);
    } else {
      var hx := Corregido(h, j);
      CorregidoSame(h, j, P);
      CorregidoServes(h, j);
      CorregidoRest(h, j);
      TailSwap(h, j, P);
      FreeTail(hx, j, P);
      CorregidoRecogida(h, j, Free(h, j, P), P);
    }
  }

  lemma CorregidoRecogida(h: Segmento, j: nat, r: Segmento, P: nat)
    requires 0 < P && j + 1 < |h.bloques| && |Corregido(h, j).bloques| == |h.bloques|
    requires Recogida(Corregido(h, j), j, r, P)
    ensures Recogida(h, j, r, P)
  {
    CorregidoSame(h, j, P);
    var bs, bx := h.bloques, Corregido(h, j).bloques;
    var mb, mx := bs[j := bs[j].(libre := true)], bx[j := bx[j].(libre := true)];
    assert forall i: nat | i < |bs| :: mx[i] == mb[i].(indice := mx[i].indice);
    ColaSame(mb, mx, |bs|);
    hide Usados, Chained, NoAdjacentFree, Tiled, TailFits;
  }

  lemma CorregidoRest(h: Segmento, j: nat)
    requires j + 1 < |h.bloques|
    ensures Corregido(h, j) == h.(bloques := Corregido(h, j).bloques)
  {
  }

  /** Whatever the indices are, as long as some other block is in use: the free goes right
      exactly under its guard. */
  lemma FreeRight(h: Segmento, j: nat, P: nat)
    requires EnOrden(h, j, P)
    ensures Correcta(h.bloques, j, Free(h, j, P)) <==> FreeGuard(h.bloques, j, P)
  {
    var bs := h.bloques;
    if IndicesServe(bs, j) {
      FreeServes(h, j, P);
    } else {
      hide Correcta, Merge;
      FreeWrong(h, j, P);
      RenumerarCorrecta(bs, j, Merge(Marcado(h, j), |bs|, P));
    }
  }

  lemma RenumerarCorrecta(bs: Bloques, j: nat, r: Segmento)
    requires j < |bs|
    ensures Correcta(bs, j, r.(bloques := Renumerar(r.bloques))) ==> Correcta(bs, j, r)
  {
    hide Tiled, Usados;
    RenumerarKeeps(r.bloques, r.tamanio);
    assert forall i: nat | i < |r.bloques| :: Renumerar(r.bloques)[i].libre == r.bloques[i].libre;
  }

  lemma FreeWrong(h: Segmento, j: nat, P: nat)
    requires EnOrden(h, j, P) && !IndicesServe(h.bloques, j)
    ensures !Correcta(h.bloques, j, Merge(Marcado(h, j), |h.bloques|, P))
  {
    hide Correcta, Merge, Usados;
    var bs, mb := h.bloques, Marcar(h.bloques, j);
    var k: nat :| Junto(mb, k) && mb[k].indice != k;
    if k != j && k != j + 1 {
      JuntosAt(bs, j, k);
    } else if j + 1 == |bs| {
      assert false;
    } else if Junto(mb, j + 1) && bs[j + 1].indice != j + 1 {
      if bs[j + 1].indice == j && Junto(mb, j) { Swapped(h, j, P); } else { WrongFirst(h, j, P); }
    } else {
      WrongSecond(h, j, P);
    }
  }

  /** After a hole is split, freeing the used block after the new remainder removes the wrong
      block, unless that block is the last one in use: the remainder absorbs it and is removed
      in its place. */
  lemma StaleFree(h: Segmento, k: nat, t: nat, P: nat)
    requires 0 < P && Tiled(h.bloques, h.tamanio) && NoAdjacentFree(h.bloques) && h.tamanio == Span(h.paginas, P)
    requires Numbered(h.bloques) && k + 3 < |h.bloques| && h.bloques[k].libre && h.bloques[k].espacio >= t + HM
    ensures var h1 := h.(bloques := Split(h.bloques, k, t));
            && Tiled(h1.bloques, h1.tamanio) && NoAdjacentFree(h1.bloques)
            && !h1.bloques[k + 2].libre && h1.bloques[k + 1].libre
            && !Correcta(h1.bloques, k + 2, Free(h1, k + 2, P))
  {
    hide Tiled, Usados, Correcta, Free;
    var h1 := h.(bloques := Split(h.bloques, k, t));
    var bs, j := h1.bloques, k + 2;
    SplitKeeps(h.bloques, h.tamanio, k, t);
    assert bs[k + 1].libre && bs[j] == h.bloques[k + 1] && !bs[k].libre && bs[k].dir == h.bloques[k].dir;
    assert !(h.bloques[k].libre && h.bloques[k + 1].libre);
    assert Junto(Marcar(bs, j), j) && bs[j].indice == k + 1;
    TiledIsChained(bs, h.tamanio);
    UsadoStays(bs, h.tamanio, j, k);
    FreeRight(h1, j, P);
  }
}
