/** A whole `muse_alloc`: the allocation followed by its header writes, as events of a run. */
module HeaderRuns {
  import opened Options
  import opened Pages
  import opened Paging
  import opened PageLife
  import opened PageBatch
  import opened LateListing
  import opened FlatMemory
  import opened HeaderWrites
  import opened Heap
  import opened Muse
  import opened MuseInvariant
  import opened Headers
  import opened MuseRuns

  /** Each range starts inside the segment, stays in a page and has its bytes. */
  predicate Escribibles(rs: seq<Rango>, cs: seq<Bytes>, tam: nat, P: nat)
    requires 0 < P
  {
    |cs| == |rs| && forall i: nat | i < |rs| :: |cs[i]| == rs[i].len && rs[i].dst < tam && EnPagina(rs[i], P)
  }

  function Eventos(p: nat, rs: seq<Rango>, cs: seq<Bytes>): (es: seq<Evento>)
    requires |cs| == |rs|
    ensures |es| == |rs|
  {
    if rs == [] then [] else [Cabecera(p, rs[0].dst, cs[0])] + Eventos(p, rs[1..], cs[1..])
  }

  lemma PrimeroBien(s: Servidor, p: nat, rs: seq<Rango>, cs: seq<Bytes>, total: nat)
    requires Inv(s, total) && 0 < s.mem.P && p < |s.heaps| && s.heaps[p].Some? && rs != []
    requires Escribibles(rs, cs, s.heaps[p].value.tamanio, s.mem.P)
    ensures CabeceraBien(s, p, rs[0].dst, cs[0])
    ensures Escribibles(rs[1..], cs[1..], s.heaps[p].value.tamanio, s.mem.P)
  {
    hide Ownership, SlotBudget, Balance, TotalPaginas;
    assert SegmentoOk(s.heaps[p], |s.mem.tabla[p]|, s.mem.P);
    PageInside(rs[0].dst, |s.mem.tabla[p]|, s.mem.P);
    assert EnPagina(rs[0], s.mem.P);
  }

  /** One header write costs at most a place and changes no heap. */
  lemma CabeceraCost(s: Servidor, p: nat, dst: nat, datos: Bytes, total: nat)
    requires Inv(s, total) && CabeceraBien(s, p, dst, datos)
    ensures var r := Encabezar(s, p, dst, datos);
            && (r.None? ==> Libres(s.mem) == 0)
            && (r.Some? ==>
                  && r.value.heaps == s.heaps && r.value.mem.P == s.mem.P
                  && Libres(s.mem) <= Libres(r.value.mem) + 1)
  {
    hide Ownership, Estampar, Libres, Written;
    EstamparKeeps(s.mem, p, dst, datos);
    EstamparFails(s.mem, p, PageOf(dst, s.mem.P), OffsetOf(dst, s.mem.P), datos);
    var r := Encabezar(s, p, dst, datos);
    if r.Some? { WrittenShape(s.mem, r.value.mem, p, dst, datos); }
  }

  lemma FirstMisses(s: Servidor, p: nat, rs: seq<Rango>, cs: seq<Bytes>, bs: Bloques)
    requires |cs| == |rs| && rs != [] && p < |s.heaps| && s.heaps[p].Some? && s.heaps[p].value.bloques == bs
    requires |cs[0]| == rs[0].len && !Pisa(bs, rs)
    ensures forall a: nat | rs[0].dst <= a < rs[0].dst + |cs[0]| :: !Vivo(s, p, a)
    ensures !Pisa(bs, rs[1..])
  {
    PisaJoin(bs, rs[..1], rs[1..]);
    assert rs == rs[..1] + rs[1..];
    forall a: nat | rs[0].dst <= a < rs[0].dst + |cs[0]| ensures !Vivo(s, p, a) {
      assert Cubre(rs[0], a);
    }
  }

  /** Header writes one after another keep the invariant; they end the server only if there are
      fewer free places than writes, and when none lands on a block in use the flat memory stays
      as it was. */
  lemma {:induction false} HeadersKeep(s: Servidor, sh: Sombra, p: nat, rs: seq<Rango>, cs: seq<Bytes>, total: nat)
    requires Inv(s, total) && Sostiene(s, sh) && p < |s.heaps| && s.heaps[p].Some? && 0 < s.mem.P
    requires Escribibles(rs, cs, s.heaps[p].value.tamanio, s.mem.P)
    ensures var r := Correr(s, sh, Eventos(p, rs, cs), total);
            && (r.None? ==> Libres(s.mem) < |rs|)
            && (r.Some? ==> Inv(r.value.0, total) && Sostiene(r.value.0, r.value.1) && r.value.0.heaps == s.heaps)
            && (r.Some? && !Pisa(s.heaps[p].value.bloques, rs) ==> r.value.1 == sh)
    decreases |rs|
  {
    hide Inv, Sostiene, CabeceraBien, Encabezar, Escribibles, Pisa, Libres, Reflejo;
    if rs != [] {
      assert |cs| == |rs| && |cs[0]| == rs[0].len by { EscribiblesShape(rs, cs, s.heaps[p].value.tamanio, s.mem.P); }
      var e := Cabecera(p, rs[0].dst, cs[0]);
      PrimeroBien(s, p, rs, cs, total);
      CabeceraCost(s, p, rs[0].dst, cs[0], total);
      var es := Eventos(p, rs, cs);
      assert es[0] == e && es[1..] == Eventos(p, rs[1..], cs[1..]);
      InvOwnership(s, total);
      var s1 := Encabezar(s, p, rs[0].dst, cs[0]);
      if s1.Some? {
        CabeceraKeeps(s, sh, p, rs[0].dst, cs[0], total);
        var sh1 := Reflejo(s, sh, e, total);
        if !Pisa(s.heaps[p].value.bloques, rs) {
          FirstMisses(s, p, rs, cs, s.heaps[p].value.bloques);
          HeaderMisses(s, sh, p, rs[0].dst, cs[0], total);
        }
        HeadersKeep(s1.value, sh1, p, rs[1..], cs[1..], total);
      }
    }
  }

  lemma EscribiblesShape(rs: seq<Rango>, cs: seq<Bytes>, tam: nat, P: nat)
    requires 0 < P && rs != [] && Escribibles(rs, cs, tam, P)
    ensures |cs| == |rs| && |cs[0]| == rs[0].len
  {
  }

  lemma InvOwnership(s: Servidor, total: nat)
    requires Inv(s, total)
    ensures Ownership(s.mem) && 0 < s.mem.P && |s.heaps| == |s.mem.tabla|
  {
  }

  // ---- the whole request ----------------------------------------------------

  /** The header writes of an allocation of t bytes that gives an address. */
  function Cabeceras(s: Servidor, p: nat, t: nat): seq<Rango>
    requires p < |s.heaps| && 0 < s.mem.P
  {
    if s.heaps[p].None? then NewHeaders(t, s.mem.P)
    else
      var bs := s.heaps[p].value.bloques;
      var k := FirstFit(bs, t + HM, 0);
      if k < |bs| then SplitHeaders(bs, k, t, s.mem.P) else if bs == [] then [] else GrowHeaders(bs, t, s.mem.P)
  }

  predicate Dentro(rs: seq<Rango>, tam: nat) {
    |rs| <= 4 && forall i: nat | i < |rs| :: rs[i].dst < tam
  }

  lemma EnDirInside(dir: nat, P: nat, tam: nat)
    requires 0 < P && dir + HM <= tam
    ensures |EnDir(dir, P)| <= 2 && Dentro(EnDir(dir, P), tam)
  {
  }

  lemma DentroJoin(r1: seq<Rango>, r2: seq<Rango>, tam: nat)
    requires Dentro(r1, tam) && Dentro(r2, tam) && |r1| <= 2 && |r2| <= 2
    ensures Dentro(r1 + r2, tam)
  {
  }

  lemma SplitInside(h: Segmento, k: nat, t: nat, P: nat)
    requires 0 < P && Tiled(h.bloques, h.tamanio) && h.tamanio == Span(h.paginas, P)
    requires k < |h.bloques| && h.bloques[k].espacio >= t + HM
    ensures Dentro(SplitHeaders(h.bloques, k, t, P), h.tamanio)
  {
    hide EnDir, Dentro, Desvio;
    var bs := h.bloques;
    var dir := bs[k].dir;
    var fin := dir + HM + t;
    if k + 1 < |bs| { ChainOrder(bs, h.tamanio, k, |bs| - 1); }
    assert fin + HM <= h.tamanio;
    EnDirInside(dir, P, h.tamanio);
    EnDirInside(fin, P, h.tamanio);
    DesvioInside(dir, fin, h.paginas, P);
    DentroJoin(EnDir(dir, P), EnDir(fin, P), h.tamanio);
    DentroJoin(EnDir(dir, P), [Rango(Desvio(dir, fin, P), HM)], h.tamanio);
  }

  lemma DesvioInside(dir: nat, fin: nat, paginas: nat, P: nat)
    requires 0 < P && fin < Span(paginas, P)
    ensures Dentro([Rango(Desvio(dir, fin, P), HM)], Span(paginas, P))
  {
    hide Desvio, Span, PageOf, OffsetOf;
    PageInside(fin, paginas, P);
    DesvioOffset(dir, fin, P);
    PageInside(Desvio(dir, fin, P), paginas, P);
  }

  lemma GrowInside(bs: Bloques, tam: nat, t: nat, extra: nat, P: nat)
    requires 0 < P && Tiled(bs, tam) && bs[|bs| - 1].espacio + extra >= t + HM
    ensures Dentro(GrowHeaders(bs, t, P), tam + extra)
  {
    hide EnDir, Dentro;
    var fin := bs[|bs| - 1].dir + HM + t;
    EnDirInside(fin, P, tam + extra);
    assert fin + HM <= tam + extra;
    if OffsetOf(fin, P) == 0 && P <= fin {
      assert Dentro([Rango(fin - P, HM)], tam + extra) by { DentroUno(fin - P, tam + extra); }
      DentroJoin(EnDir(fin, P), [Rango(fin - P, HM)], tam + extra);
    } else {
      DentroJoin(EnDir(fin, P), EnDir(fin, P), tam + extra);
    }
  }

  lemma DentroUno(dst: nat, tam: nat)
    requires dst < tam
    ensures Dentro([Rango(dst, HM)], tam)
  {
  }

  lemma NewInside(t: nat, P: nat)
    requires 0 < P
    ensures Dentro(NewHeaders(t, P), Span(FramesNecesarios(t + 2 * HM, P), P))
  {
    hide EnDir, Dentro;
    var tam := Span(FramesNecesarios(t + 2 * HM, P), P);
    FramesHold(t + 2 * HM, P);
    EnDirInside(0, P, tam);
    EnDirInside(t + HM, P, tam);
    DentroJoin(EnDir(0, P), EnDir(t + HM, P), tam);
  }

  /** Segment p of s' has tam bytes, and its pages the size they had. */
  ghost predicate Mide(s: Servidor, p: nat, s': Servidor, tam: nat) {
    p < |s'.heaps| && s'.heaps[p].Some? && s'.heaps[p].value.tamanio == tam && s'.mem.P == s.mem.P
  }

  lemma NuevoMide(s: Servidor, p: nat, t: nat)
    requires Ownership(s.mem) && p < |s.heaps| == |s.mem.tabla| && AllocNuevo(s, p, t).Direccion?
    ensures Mide(s, p, AllocNuevo(s, p, t).s, Span(FramesNecesarios(t + 2 * HM, s.mem.P), s.mem.P))
  {
    hide Marcos, Ownership, Span, FramesNecesarios;
  }

  lemma CreceMide(s: Servidor, p: nat, t: nat, total: nat)
    requires CreceConInv(s, p, t, total) && AllocGrow(s, p, t).Direccion?
    ensures var h := s.heaps[p].value;
            Mide(s, p, AllocGrow(s, p, t).s, h.tamanio + Span(PaginasParaCrecer(s, p, t), s.mem.P))
  {
    hide Ownership, Span, FramesNecesarios, AgregarVarias;
    AllocGrowShape(s, p, t, total);
    CrearPaginasExact(s.mem, p, |s.mem.tabla[p]|, PaginasParaCrecer(s, p, t));
    CrearP(s.mem, p, |s.mem.tabla[p]|, PaginasParaCrecer(s, p, t));
  }

  lemma CrearP(m: Mem, s: nat, num: nat, n: nat)
    requires Ownership(m) && s < |m.tabla| && CrearPaginas(m, s, num, n).Some?
    ensures CrearPaginas(m, s, num, n).value.P == m.P
  {
    hide Ownership, AgregarVarias;
    var enMarco := if n <= |m.bits| + 1 then n else |m.bits| + 1;
    AgregarVariasKeeps(m, s, num, enMarco);
    PonerP(AgregarVarias(m, s, num, enMarco).value, s, num + enMarco, n - enMarco);
  }

  lemma {:induction false} PonerP(m: Mem, s: nat, num: nat, n: nat)
    requires s < |m.tabla|
    ensures PonerEnSwap(m, s, num, n).P == m.P
    decreases n
  {
    if n > 0 {
      var k := FirstFree(m.slots, 0);
      var pag := Pagina(num, false, None, if k < |m.slots| then Some(k) else None);
      PonerP(m.(tabla := m.tabla[s := m.tabla[s] + [pag]]), s, num + 1, n - 1);
    }
  }

  /** The header writes start inside the segment as the allocation leaves it. */
  lemma CabecerasInside(s: Servidor, p: nat, t: nat, total: nat)
    requires Inv(s, total) && Alloc(s, p, t, total).Direccion?
    ensures p < |s.heaps| && 0 < s.mem.P
    ensures var s' := Alloc(s, p, t, total).s;
            && p < |s'.heaps| && s'.heaps[p].Some? && s'.mem.P == s.mem.P
            && Dentro(Cabeceras(s, p, t), s'.heaps[p].value.tamanio)
  {
    hide Ownership, Balance, TotalPaginas, SlotBudget, AllocNuevo, AllocGrow;
    hide Dentro, SplitHeaders, GrowHeaders, NewHeaders;
    InvOwnership(s, total);
    var P := s.mem.P;
    assert SegmentoOk(s.heaps[p], |s.mem.tabla[p]|, P);
    if s.heaps[p].None? {
      NewInside(t, P);
      NuevoMide(s, p, t);
    } else {
      var h := s.heaps[p].value;
      var k := FirstFit(h.bloques, t + HM, 0);
      if k < |h.bloques| {
        SplitInside(h, k, t, P);
      } else {
        NoFitGrows(s, p, t, total);
        GrowRoom(h.bloques, h.tamanio, t, P);
        GrowInside(h.bloques, h.tamanio, t, Span(PaginasParaCrecer(s, p, t), P), P);
        CreceMide(s, p, t, total);
      }
    }
  }

  /** A whole allocation. Its header writes end the server only if there are fewer free places
      left than writes, four at most; done, it keeps the invariant, and it leaves the flat memory
      as it was when no header write lands on a block in use. */
  lemma WholeAlloc(s: Servidor, sh: Sombra, p: nat, t: nat, cs: seq<Bytes>, total: nat)
    requires Inv(s, total) && Sostiene(s, sh) && PideBien(s, p, t, total) && Alloc(s, p, t, total).Direccion?
    requires p < |s.heaps| && |cs| == |Cabeceras(s, p, t)|
    requires forall i: nat | i < |cs| ::
               |cs[i]| == Cabeceras(s, p, t)[i].len && EnPagina(Cabeceras(s, p, t)[i], s.mem.P)
    ensures var rs, s1 := Cabeceras(s, p, t), Alloc(s, p, t, total).s;
            var r := Correr(s, sh, [Pide(p, t)] + Eventos(p, rs, cs), total);
            && p < |s1.heaps| && s1.heaps[p].Some? && |rs| <= 4
            && (r.None? ==> Libres(s1.mem) < |rs|)
            && (r.Some? ==> Inv(r.value.0, total) && Sostiene(r.value.0, r.value.1) && r.value.0.heaps == s1.heaps)
            && (r.Some? && !Pisa(s1.heaps[p].value.bloques, rs) ==> r.value.1 == sh)
  {
    hide Inv, Sostiene, Alloc, PideBien, Cabeceras, Pisa, Libres;
    InvOwnership(s, total);
    var rs, s1 := Cabeceras(s, p, t), Alloc(s, p, t, total).s;
    CabecerasInside(s, p, t, total);
    PasoKeeps(s, sh, Pide(p, t), total);
    var es := [Pide(p, t)] + Eventos(p, rs, cs);
    assert es[0] == Pide(p, t) && es[1..] == Eventos(p, rs, cs);
    HeadersKeep(s1, sh, p, rs, cs, total);
  }
}
