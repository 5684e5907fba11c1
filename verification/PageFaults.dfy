/** How many page faults a copy or a read needs, and when that ends the server. */
module PageFaults {
  import opened Options
  import opened Pages
  import opened Paging
  import opened PageLife
  import opened FlatMemory
  import opened PageBatch
  import opened Muse

  predicate Ausente(t: Tabla, s: nat, i: nat) {
    InTable(t, s, i) && !t[s][i].presencia
  }

  /** Of the n pages of segment s from page pg on, those in swap. */
  function Ausentes(t: Tabla, s: nat, pg: nat, n: nat): (k: nat)
    ensures k <= n
    decreases n
  {
    if n == 0 then 0 else (if Ausente(t, s, pg) then 1 else 0) + Ausentes(t, s, pg + 1, n - 1)
  }

  /** Every page in swap before is in swap after, except perhaps page pg of segment s. */
  ghost predicate SoloTrae(t: Tabla, t': Tabla, s: nat, pg: nat) {
    forall z: nat, i: nat | Ausente(t, z, i) && !(z == s && i == pg) :: Ausente(t', z, i)
  }

  lemma {:induction false} AusentesMonotone(t: Tabla, t': Tabla, s: nat, desde: nat, pg: nat, n: nat)
    requires SoloTrae(t, t', s, desde) && desde < pg
    ensures Ausentes(t, s, pg, n) <= Ausentes(t', s, pg, n)
    decreases n
  {
    if n > 0 { AusentesMonotone(t, t', s, desde, pg + 1, n - 1); }
  }

  lemma AsignarSoloSaca(m: Mem)
    requires Formas(m) && Asignar(m).Asignado?
    ensures forall z: nat, i: nat | Ausente(m.tabla, z, i) :: Ausente(Asignar(m).m.tabla, z, i)
  {
  }

  /** A page access takes a place exactly when it brings its page in, and brings in no other. */
  lemma AccederFault(m: Mem, s: nat, pg: nat)
    requires Ownership(m) && InTable(m.tabla, s, pg)
    ensures Acceder(m, s, pg).None? <==> Ausente(m.tabla, s, pg) && Libres(m) == 0
    ensures Acceder(m, s, pg).Some? ==>
              var m' := Acceder(m, s, pg).value;
              && Libres(m') + (if Ausente(m.tabla, s, pg) then 1 else 0) == Libres(m)
              && SoloTrae(m.tabla, m'.tabla, s, pg)
              && (!Ausente(m.tabla, s, pg) ==> m'.tabla == m.tabla)
  {
    AccederKeeps(m, s, pg);
    LlenoIsZero(m);
    if Ausente(m.tabla, s, pg) {
      if Acceder(m, s, pg).Some? {
        AccederBalanceAusente(m, s, pg);
        AusenteTrae(m, s, pg);
      }
    } else {
      AccederPresente(m, s, pg);
      AccederBalancePresente(m, s, pg);
    }
  }

  lemma AusenteTrae(m: Mem, s: nat, pg: nat)
    requires Ownership(m) && Ausente(m.tabla, s, pg) && Acceder(m, s, pg).Some?
    ensures SoloTrae(m.tabla, Acceder(m, s, pg).value.tabla, s, pg)
  {
    hide Asignar, OneOwner, Owned;
    EnCaminoKeeps(m, s, pg);
    var m1 := EnCamino(m, s, pg);
    AsignarSoloSaca(m1);
    AsignarKeeps(m1, {Ref(s, pg)});
    var t, t2 := m.tabla, Acceder(m, s, pg).value.tabla;
    forall z: nat, i: nat | Ausente(t, z, i) && !(z == s && i == pg) ensures Ausente(t2, z, i) {
      assert Ausente(m1.tabla, z, i);
      assert Ausente(Asignar(m1).m.tabla, z, i);
    }
  }

  lemma CopiarFault(m: Mem, s: nat, pg: nat, off: nat, d: Bytes)
    requires Ownership(m) && InTable(m.tabla, s, pg) && off + |d| <= m.P
    ensures Copiar(m, s, pg, off, d).None? <==> Ausente(m.tabla, s, pg) && Libres(m) == 0
    ensures Copiar(m, s, pg, off, d).Some? ==>
              var m' := Copiar(m, s, pg, off, d).value;
              && Libres(m') + (if Ausente(m.tabla, s, pg) then 1 else 0) == Libres(m)
              && SoloTrae(m.tabla, m'.tabla, s, pg)
              && (!Ausente(m.tabla, s, pg) ==> m'.tabla == m.tabla)
  {
    hide Acceder, OneOwner, Owned, Libres;
    AccederFault(m, s, pg);
    AccederKeeps(m, s, pg);
    if Acceder(m, s, pg).Some? {
      SamePlaces(Acceder(m, s, pg).value, Copiar(m, s, pg, off, d).value);
    }
  }

  /** A copy needs a free place for each of its pages that is in swap, and none if none is. */
  lemma {:induction false} CpyNeeds(m: Mem, s: nat, pg: nat, off: nat, d: Bytes)
    requires CpyFits(m, s, pg, off, d)
    ensures var faltan := Ausentes(m.tabla, s, pg, Tramos(off, |d|, m.P));
            && (Libres(m) < faltan ==> CpyDesde(m, s, pg, off, d).None?)
            && (faltan == 0 ==> CpyDesde(m, s, pg, off, d).Some?)
    decreases |d|
  {
    hide Copiar, Ownership, Libres, Ausente;
    CpyFitsPage(m, s, pg, off, d);
    if |d| <= m.P - off {
      CopiarFault(m, s, pg, off, d);
      assert Ausentes(m.tabla, s, pg + 1, 0) == 0;
    } else {
      CpyFitsNext(m, s, pg, off, d);
      CopiarFault(m, s, pg, off, d[..m.P - off]);
      var m2 := Copiar(m, s, pg, off, d[..m.P - off]);
      if m2.Some? {
        CopiarP(m, s, pg, off, d[..m.P - off]);
        AusentesMonotone(m.tabla, m2.value.tabla, s, pg, pg + 1, Tramos(0, |d| - (m.P - off), m.P));
        CpyNeeds(m2.value, s, pg + 1, 0, d[m.P - off..]);
      }
    }
  }

  /** So does a read. */
  lemma {:induction false} GetNeeds(m: Mem, s: nat, pg: nat, cant: nat)
    requires Ownership(m) && s < |m.tabla| && pg + cant <= |m.tabla[s]|
    ensures Libres(m) < Ausentes(m.tabla, s, pg, cant) ==> GetDesde(m, s, pg, cant).None?
    ensures Ausentes(m.tabla, s, pg, cant) == 0 ==> GetDesde(m, s, pg, cant).Some?
    decreases cant
  {
    hide Acceder, Ownership, Libres, Ausente;
    if cant != 0 {
      AccederKeeps(m, s, pg);
      AccederFault(m, s, pg);
      var a := Acceder(m, s, pg);
      if a.Some? {
        AusentesMonotone(m.tabla, a.value.tabla, s, pg, pg + 1, cant - 1);
        GetNeeds(a.value, s, pg + 1, cant - 1);
      }
    }
  }

  /** A copy into a block ends the server when it runs past the segment or when more of its
      pages are in swap than there are free places. Inside the segment it does not when none is
      in swap or there is a place for each page, so with no place free it does exactly when one
      is in swap. */
  lemma CpyCrash(s: Servidor, p: nat, dst: nat, datos: Bytes, total: nat)
    requires Inv(s, total) && p < |s.heaps| && s.heaps[p].Some? && dst < s.heaps[p].value.tamanio
    requires BloqueDe(s.heaps[p].value.bloques, dst, 0) < |s.heaps[p].value.bloques|
    ensures var r, h := Cpy(s, p, dst, datos, total), s.heaps[p].value;
            && 0 < s.mem.P
            && (dst + |datos| > h.tamanio ==> r.CaidaCpy?)
            && (dst + |datos| <= h.tamanio ==>
                  var n := Tramos(OffsetOf(dst, s.mem.P), |datos|, s.mem.P);
                  var faltan := Ausentes(s.mem.tabla, p, PageOf(dst, s.mem.P), n);
                  && (Libres(s.mem) < faltan ==> r.CaidaCpy?)
                  && (faltan == 0 || n <= Libres(s.mem) ==> r.Copiado?)
                  && (Libres(s.mem) == 0 ==> (r.CaidaCpy? <==> 0 < faltan)))
  {
    hide Ownership, CpyDesde, CpyFits, Tramos, Ausentes;
    PositiveP(s.mem);
    if dst + |datos| <= s.heaps[p].value.tamanio {
      CpyInside(s, p, dst, datos, total);
      CpyNeeds(s.mem, p, PageOf(dst, s.mem.P), OffsetOf(dst, s.mem.P), datos);
      CpyCost(s.mem, p, PageOf(dst, s.mem.P), OffsetOf(dst, s.mem.P), datos);
    }
  }

  /** The same for a read. */
  lemma GetCrash(s: Servidor, p: nat, src: nat, n: nat, total: nat)
    requires Inv(s, total) && p < |s.heaps| && s.heaps[p].Some?
    requires src < s.heaps[p].value.tamanio && src + n <= s.heaps[p].value.tamanio
    ensures 0 < s.mem.P && PageOf(src, s.mem.P) <= Techo(src + n, s.mem.P)
    ensures var r, k := Get(s, p, src, n, total), Techo(src + n, s.mem.P) - PageOf(src, s.mem.P);
            var faltan := Ausentes(s.mem.tabla, p, PageOf(src, s.mem.P), k);
            && (Libres(s.mem) < faltan ==> r.CaidaGet?)
            && (faltan == 0 || k <= Libres(s.mem) ==> r.Leido?)
            && (Libres(s.mem) == 0 ==> (r.CaidaGet? <==> 0 < faltan))
  {
    hide Ownership, GetDesde, RangoFits, Ausentes, Techo, PageOf;
    PositiveP(s.mem);
    GetInside(s, p, src, n, total);
    RangoNeeds(s.mem, p, src, n);
  }

  lemma RangoNeeds(m: Mem, s: nat, src: nat, n: nat)
    requires RangoFits(m, s, src, n)
    ensures 0 < m.P && PageOf(src, m.P) <= Techo(src + n, m.P)
    ensures var k := Techo(src + n, m.P) - PageOf(src, m.P);
            var faltan := Ausentes(m.tabla, s, PageOf(src, m.P), k);
            && (Libres(m) < faltan ==> GetRango(m, s, src, n).None?)
            && (faltan == 0 || k <= Libres(m) ==> GetRango(m, s, src, n).Some?)
            && (Libres(m) == 0 && 0 == faltan ==> GetRango(m, s, src, n).Some?)
  {
    hide Ownership, GetDesde, Span, PageOf, OffsetOf, Techo, Libres, Conserves, Ausentes;
    PositiveP(m);
    RangePages(src, n, |m.tabla[s]|, m.P);
    GetNeeds(m, s, PageOf(src, m.P), Techo(src + n, m.P) - PageOf(src, m.P));
    GetCost(m, s, PageOf(src, m.P), Techo(src + n, m.P) - PageOf(src, m.P));
  }
}
