/** Creating pages, destroying them, and the balance of frames and slots. */
module PageLife {
  import opened Options
  import opened Clock
  import opened Paging

  // ---- counting -------------------------------------------------------------

  /** How many flags are off. */
  function Libre(flags: seq<bool>): (n: nat)
    ensures n <= |flags|
  {
    if flags == [] then 0
    else Libre(flags[..|flags| - 1]) + if flags[|flags| - 1] then 0 else 1
  }

  lemma {:induction false} LibreSet(flags: seq<bool>, i: nat, v: bool)
    requires i < |flags|
    ensures Libre(flags[i := v]) + (if flags[i] then 0 else 1) == Libre(flags) + if v then 0 else 1
  {
    var n := |flags| - 1;
    if i < n {
      assert flags[i := v][..n] == flags[..n][i := v];
      LibreSet(flags[..n], i, v);
    } else {
      assert flags[i := v][..n] == flags[..n];
    }
  }

  lemma {:induction false} LibreZero(flags: seq<bool>)
    ensures Libre(flags) == 0 <==> forall i: nat | i < |flags| :: flags[i]
  {
    if flags != [] { LibreZero(flags[..|flags| - 1]); }
  }

  /** Free frames plus free slots. */
  function Libres(m: Mem): nat {
    Libre(Ocupados(m.bits)) + Libre(m.slots)
  }

  function TotalPaginas(t: Tabla): nat {
    if t == [] then 0 else TotalPaginas(t[..|t| - 1]) + |t[|t| - 1]|
  }

  lemma {:induction false} TotalSet(t: Tabla, s: nat, ps: seq<Pagina>)
    requires s < |t|
    ensures TotalPaginas(t[s := ps]) + |t[s]| == TotalPaginas(t) + |ps|
  {
    var n := |t| - 1;
    if s < n {
      assert t[s := ps][..n] == t[..n][s := ps];
      TotalSet(t[..n], s, ps);
    } else {
      assert t[s := ps][..n] == t[..n];
    }
  }

  /** Everything the server owns: free places, slots lost to swap-ins, and pages. */
  function Balance(m: Mem): nat {
    Libres(m) + m.entradas + TotalPaginas(m.tabla)
  }

  /** Occupied slots never exceed the evictions made so far. */
  predicate SlotBudget(m: Mem) {
    |m.slots| <= Libre(m.slots) + m.desalojos
  }

  lemma LlenoIsZero(m: Mem)
    ensures Lleno(m) <==> Libres(m) == 0
  {
    LibreZero(Ocupados(m.bits));
    LibreZero(m.slots);
    assert (forall f: nat | f < |m.bits| :: m.bits[f].ocupado) <==>
           (forall f: nat | f < |m.bits| :: Ocupados(m.bits)[f]);
  }

  /** With a slot budget, a run of at most |slots| evictions always finds a slot. */
  lemma BudgetLeavesSlot(m: Mem)
    requires SlotBudget(m) && m.desalojos < |m.slots|
    ensures exists k: nat :: k < |m.slots| && !m.slots[k]
  {
    LibreZero(m.slots);
  }

  lemma SameOccupied(m: Mem, m': Mem)
    requires |m'.bits| == |m.bits|
    requires forall f: nat | f < |m.bits| :: m'.bits[f].ocupado == m.bits[f].ocupado
    ensures Ocupados(m'.bits) == Ocupados(m.bits)
  {
  }

  lemma SamePlaces(m: Mem, m': Mem)
    requires |m'.bits| == |m.bits| && m'.slots == m.slots
    requires forall f: nat | f < |m.bits| :: m'.bits[f].ocupado == m.bits[f].ocupado
    ensures Libres(m') == Libres(m)
  {
    SameOccupied(m, m');
  }

  /** One frame handed out costs exactly one free place, a frame or a slot. */
  lemma AsignarBalance(m: Mem, libres: set<nat>, enTransito: set<Ref>)
    requires Duenios(m, libres, enTransito) && Asignar(m).Asignado? && Asignar(m).marco !in libres
    ensures var m' := Asignar(m).m;
            && Libres(m') + 1 == Libres(m)
            && m'.entradas == m.entradas
            && TotalPaginas(m'.tabla) == TotalPaginas(m.tabla)
            && |m'.slots| == |m.slots| && |m'.bits| == |m.bits|
            && (SlotBudget(m) ==> SlotBudget(m'))
  {
    var f := FirstFree(Ocupados(m.bits), 0);
    var m' := Asignar(m).m;
    if f < |m.bits| {
      LibreSet(Ocupados(m.bits), f, true);
      assert Ocupados(m'.bits) == Ocupados(m.bits)[f := true];
    } else {
      VictimHasPage(m, libres, enTransito);
      VictimKeepsOtherBits(m.bits, m.puntero);
      ClockVictim(m.bits, m.puntero);
      SameOccupied(m, m');
      LibreSet(m.slots, FirstFree(m.slots, 0), true);
      var v := Victim(m.bits, m.puntero).frame.value;
      var r := BuscarPagina(m.tabla, v, |m.tabla|).value;
      TotalSet(m.tabla, r.s, m'.tabla[r.s]);
    }
  }

  lemma AccederBalanceAusente(m: Mem, s: nat, i: nat)
    requires Ownership(m) && InTable(m.tabla, s, i) && !m.tabla[s][i].presencia
    requires Acceder(m, s, i).Some?
    ensures var m' := Acceder(m, s, i).value;
            && Libres(m') + 1 == Libres(m) && m'.entradas == m.entradas + 1
            && TotalPaginas(m'.tabla) == TotalPaginas(m.tabla)
            && |m'.slots| == |m.slots| && |m'.bits| == |m.bits|
            && (SlotBudget(m) ==> SlotBudget(m'))
  {
    hide Asignar, OneOwner, Owned, Libres, TotalPaginas;
    EnCaminoKeeps(m, s, i);
    var m1 := EnCamino(m, s, i);
    var r := Asignar(m1);
    AsignarBalance(m1, {}, {Ref(s, i)});
    AsignarKeeps(m1, {Ref(s, i)});
    var m' := Acceder(m, s, i).value;
    TotalSet(m.tabla, s, m1.tabla[s]);
    TotalSet(r.m.tabla, s, m'.tabla[s]);
    SamePlaces(r.m, m');
    SamePlaces(m, m1);
  }

  lemma AccederBalancePresente(m: Mem, s: nat, i: nat)
    requires Ownership(m) && InTable(m.tabla, s, i) && m.tabla[s][i].presencia
    ensures var m' := Acceder(m, s, i).value;
            && Libres(m') == Libres(m) && m'.entradas == m.entradas
            && m'.tabla == m.tabla && m'.slots == m.slots && m'.desalojos == m.desalojos && |m'.bits| == |m.bits|
  {
    SameOccupied(m, Acceder(m, s, i).value);
  }

  /** A page access conserves the balance: a swap-in uses up one free place for good,
      because the slot it leaves is never given back. */
  lemma AccederBalance(m: Mem, s: nat, i: nat)
    requires Ownership(m) && InTable(m.tabla, s, i) && Acceder(m, s, i).Some?
    ensures var m' := Acceder(m, s, i).value;
            && Balance(m') == Balance(m)
            && Libres(m') + m'.entradas == Libres(m) + m.entradas
            && m.entradas <= m'.entradas <= m.entradas + 1
            && |m'.slots| == |m.slots| && |m'.bits| == |m.bits|
            && (SlotBudget(m) ==> SlotBudget(m'))
  {
    hide Acceder, Ownership;
    if m.tabla[s][i].presencia { AccederBalancePresente(m, s, i); } else { AccederBalanceAusente(m, s, i); }
  }

  // ---- page creation --------------------------------------------------------

  /** One turn of the loop of muse_alloc that adds a page to a segment: a frame is found
      for it, and it joins the page list at once. */
  ghost function AgregarPagina(m: Mem, s: nat, num: nat): Option<Mem>
    requires Ownership(m) && s < |m.tabla|
  {
    var r := Asignar(m);
    if r.SinSwap? then None
    else
      AsignarKeeps(m, {});
      Some(r.m.(bits := r.m.bits[r.marco := r.m.bits[r.marco].(uso := true, modificado := true)],
                tabla := r.m.tabla[s := r.m.tabla[s] + [Pagina(num, true, Some(r.marco), None)]]))
  }

  /** m' is m plus n new pages at the end of segment s; old pages keep their bytes. */
  ghost predicate Grown(m: Mem, m': Mem, s: nat, n: nat) {
    && m'.P == m.P
    && s < |m.tabla| == |m'.tabla|
    && |m'.tabla[s]| == |m.tabla[s]| + n
    && (forall z: nat | z < |m.tabla| && z != s :: |m'.tabla[z]| == |m.tabla[z]|)
    && (forall z: nat, i: nat | InTable(m.tabla, z, i) ::
          m'.tabla[z][i].num == m.tabla[z][i].num && Contenido(m', z, i) == Contenido(m, z, i))
  }

  lemma AgregarDuenios(r: Mem, s: nat, f: nat, num: nat, m': Mem)
    requires Duenios(r, {f}, {}) && s < |r.tabla|
    requires m' == r.(bits := r.bits[f := r.bits[f].(uso := true, modificado := true)],
                      tabla := r.tabla[s := r.tabla[s] + [Pagina(num, true, Some(f), None)]])
    ensures Ownership(m')
  {
    var n := |r.tabla[s]|;
    assert forall z: nat, i: nat, g: nat :: Reside(m'.tabla, z, i, g) ==>
      if z == s && i == n then g == f else Reside(r.tabla, z, i, g) && g != f by {
      assert forall z: nat, i: nat :: Reside(r.tabla, z, i, f) ==> Owned(r.tabla, f);
    }
    assert forall z: nat, i: nat, k: nat :: EnSwap(m'.tabla, z, i, k) ==> EnSwap(r.tabla, z, i, k);
    assert Reside(m'.tabla, s, n, f);
    forall g: nat | g < |m'.bits| && m'.bits[g].ocupado && g != f ensures Owned(m'.tabla, g) {
      assert Owned(r.tabla, g);
      var z: nat, i: nat :| Reside(r.tabla, z, i, g);
      assert Reside(m'.tabla, z, i, g);
    }
  }

  lemma AgregarGrown(r: Mem, s: nat, f: nat, num: nat, m': Mem)
    requires s < |r.tabla| && m'.P == r.P && m'.memoria == r.memoria && m'.virtual == r.virtual
    requires m'.tabla == r.tabla[s := r.tabla[s] + [Pagina(num, true, Some(f), None)]]
    ensures Grown(r, m', s, 1)
  {
  }

  lemma GrownAfterSame(m: Mem, r: Mem, m': Mem, s: nat, num: nat)
    requires SameContents(m, r, {}) && Grown(r, m', s, 1) && s < |m.tabla|
    requires m'.tabla[s][|m'.tabla[s]| - 1].num == num
    ensures Grown(m, m', s, 1) && m'.tabla[s][|m.tabla[s]|].num == num
  {
  }

  /** Adding a page keeps ownership and every other page, and fails only if every frame
      and every slot is taken. */
  lemma AgregarKeeps(m: Mem, s: nat, num: nat)
    requires Ownership(m) && s < |m.tabla|
    ensures AgregarPagina(m, s, num).None? <==> Libres(m) == 0
    ensures AgregarPagina(m, s, num).Some? ==>
              var m' := AgregarPagina(m, s, num).value;
              && Ownership(m') && Grown(m, m', s, 1)
              && m'.tabla[s][|m.tabla[s]|].num == num
              && Libres(m') + 1 == Libres(m) && m'.entradas == m.entradas
              && TotalPaginas(m'.tabla) == TotalPaginas(m.tabla) + 1
              && |m'.slots| == |m.slots| && |m'.bits| == |m.bits|
              && (SlotBudget(m) ==> SlotBudget(m'))
  {
    hide Lleno, Libres, TotalPaginas, Asignar, OneOwner, Owned, Grown;
    AsignarFails(m, {});
    LlenoIsZero(m);
    var r := Asignar(m);
    if r.Asignado? {
      AsignarKeeps(m, {});
      AsignarBalance(m, {}, {});
      var m' := AgregarPagina(m, s, num).value;
      AgregarDuenios(r.m, s, r.marco, num, m');
      assert Grown(r.m, m', s, 1) by { AgregarGrown(r.m, s, r.marco, num, m'); }
      GrownAfterSame(m, r.m, m', s, num);
      SamePlaces(r.m, m');
      TotalSet(r.m.tabla, s, m'.tabla[s]);
    }
  }

  // ---- page release ---------------------------------------------------------

  /** `destruirPagina` on page i of segment s, taken off its list. */
  function Destruir(m: Mem, s: nat, i: nat): Mem
    requires InTable(m.tabla, s, i) && Colocada(m, m.tabla[s][i])
  {
    var pag := m.tabla[s][i];
    m.(bits := if pag.marco.Some? then m.bits[pag.marco.value := m.bits[pag.marco.value].(ocupado := false)]
               else m.bits,
       slots := if pag.swap.Some? then m.slots[pag.swap.value := false] else m.slots,
       tabla := m.tabla[s := m.tabla[s][..i] + m.tabla[s][i + 1..]])
  }

  /** Position before the removal of the page that is now at position j. */
  function Antes(s: nat, i: nat, z: nat, j: nat): nat {
    if z == s && j >= i then j + 1 else j
  }

  lemma DestruirReside(m: Mem, s: nat, i: nat)
    requires Ownership(m) && InTable(m.tabla, s, i)
    ensures var t, t' := m.tabla, Destruir(m, s, i).tabla;
            && (forall z: nat, j: nat, g: nat :: Reside(t', z, j, g) ==> Reside(t, z, Antes(s, i, z, j), g))
            && (forall z: nat, j: nat, k: nat :: EnSwap(t', z, j, k) ==> EnSwap(t, z, Antes(s, i, z, j), k))
            && (forall z: nat, j: nat, g: nat :: Reside(t, z, j, g) && !(z == s && j == i) ==>
                  Reside(t', z, if z == s && j > i then j - 1 else j, g))
  {
    assert Ref(s, i) !in {};
    var m' := Destruir(m, s, i);
    assert forall z: nat, j: nat :: InTable(m'.tabla, z, j) ==>
      InTable(m.tabla, z, Antes(s, i, z, j)) && m'.tabla[z][j] == m.tabla[z][Antes(s, i, z, j)];
    hide OneOwner, Owned;
  }

  lemma DestruirDuenios(m: Mem, s: nat, i: nat)
    requires Ownership(m) && InTable(m.tabla, s, i)
    ensures Ownership(Destruir(m, s, i))
  {
    assert Ref(s, i) !in {};
    DestruirReside(m, s, i);
    DestruirColocada(m, s, i);
    hide Colocada, Reside, EnSwap;
    var m' := Destruir(m, s, i);
    forall g: nat | g < |m'.bits| && m'.bits[g].ocupado ensures Owned(m'.tabla, g) {
      assert Owned(m.tabla, g);
      var z: nat, j: nat :| Reside(m.tabla, z, j, g);
      DestruirMarco(m, s, i, g);
      assert Reside(m'.tabla, z, if z == s && j > i then j - 1 else j, g);
    }
  }

  /** The frame of the page destroyed is free afterwards. */
  lemma DestruirMarco(m: Mem, s: nat, i: nat, g: nat)
    requires Ownership(m) && InTable(m.tabla, s, i)
    requires g < |Destruir(m, s, i).bits| && Destruir(m, s, i).bits[g].ocupado
    ensures g < |m.bits| && m.bits[g].ocupado && !Reside(m.tabla, s, i, g)
  {
  }

  lemma DestruirColocada(m: Mem, s: nat, i: nat)
    requires Ownership(m) && InTable(m.tabla, s, i)
    ensures var m' := Destruir(m, s, i);
            forall z: nat, j: nat | InTable(m'.tabla, z, j) :: Colocada(m', m'.tabla[z][j])
  {
    var m' := Destruir(m, s, i);
    forall z: nat, j: nat | InTable(m'.tabla, z, j) ensures Colocada(m', m'.tabla[z][j]) {
      var j0 := Antes(s, i, z, j);
      var p := m.tabla[z][j0];
      assert InTable(m.tabla, z, j0) && m'.tabla[z][j] == p && Colocada(m, p);
      if p.presencia {
        assert Reside(m.tabla, z, j0, p.marco.value);
        assert Reside(m.tabla, s, i, p.marco.value) ==> z == s && j0 == i;
      } else {
        assert EnSwap(m.tabla, z, j0, p.swap.value);
        assert EnSwap(m.tabla, s, i, p.swap.value) ==> z == s && j0 == i;
      }
    }
  }

  lemma DestruirBalance(m: Mem, s: nat, i: nat)
    requires Ownership(m) && InTable(m.tabla, s, i)
    ensures var m' := Destruir(m, s, i);
            && Libres(m') == Libres(m) + 1 && m'.entradas == m.entradas
            && TotalPaginas(m'.tabla) + 1 == TotalPaginas(m.tabla)
            && |m'.slots| == |m.slots| && |m'.bits| == |m.bits|
            && (SlotBudget(m) ==> SlotBudget(m'))
  {
    var m' := Destruir(m, s, i);
    var pag := m.tabla[s][i];
    assert Colocada(m, pag);
    TotalSet(m.tabla, s, m'.tabla[s]);
    if pag.presencia {
      var f := pag.marco.value;
      LibreSet(Ocupados(m.bits), f, false);
      assert Ocupados(m'.bits) == Ocupados(m.bits)[f := false];
    } else {
      LibreSet(m.slots, pag.swap.value, false);
    }
  }

  /** The inner loop of `merge`: destroy the pages of segment s from position k on. */
  ghost function LiberarDesde(m: Mem, s: nat, k: nat): Mem
    requires Ownership(m) && s < |m.tabla|
    decreases if s < |m.tabla| then |m.tabla[s]| else 0
  {
    if |m.tabla[s]| <= k then m
    else
      DestruirDuenios(m, s, k);
      LiberarDesde(Destruir(m, s, k), s, k)
  }

  /** m' is m with only the first k pages of segment s: exactly the frames and slots of the
      others are free again, and every page kept is where it was with the bytes it had. */
  ghost predicate Recortada(m: Mem, m': Mem, s: nat, k: nat) {
    && s < |m.tabla| && k <= |m.tabla[s]|
    && Ownership(m')
    && m'.P == m.P && m'.memoria == m.memoria && m'.virtual == m.virtual
    && m'.tabla == m.tabla[s := m.tabla[s][..k]]
    && Libres(m') == Libres(m) + |m.tabla[s]| - k && m'.entradas == m.entradas
    && TotalPaginas(m'.tabla) + |m.tabla[s]| - k == TotalPaginas(m.tabla)
    && |m'.slots| == |m.slots| && |m'.bits| == |m.bits|
    && (SlotBudget(m) ==> SlotBudget(m'))
  }

  lemma RecortadaTrans(m: Mem, m1: Mem, m2: Mem, s: nat, k1: nat, k2: nat)
    requires Recortada(m, m1, s, k1) && Recortada(m1, m2, s, k2)
    ensures Recortada(m, m2, s, k2)
  {
    hide Ownership, Libres, TotalPaginas, SlotBudget;
    assert m.tabla[s][..k1][..k2] == m.tabla[s][..k2];
    assert m2.tabla == m.tabla[s := m.tabla[s][..k2]];
  }

  lemma RecortadaSelf(m: Mem, s: nat)
    requires Ownership(m) && s < |m.tabla|
    ensures Recortada(m, m, s, |m.tabla[s]|)
  {
    assert m.tabla[s][..|m.tabla[s]|] == m.tabla[s];
  }

  lemma DestruirRecorta(m: Mem, s: nat, k: nat, m2: Mem)
    requires Ownership(m) && InTable(m.tabla, s, k)
    requires Recortada(Destruir(m, s, k), m2, s, k)
    ensures Recortada(m, m2, s, k)
  {
    hide OneOwner, Owned, Libres, TotalPaginas, SlotBudget;
    DestruirBalance(m, s, k);
    var m1 := Destruir(m, s, k);
    assert m1.tabla[s][..k] == m.tabla[s][..k];
    assert m2.tabla == m.tabla[s := m.tabla[s][..k]];
  }

  /** The inner loop of `merge` cuts the page list at k. */
  lemma {:induction false} LiberarKeeps(m: Mem, s: nat, k: nat)
    requires Ownership(m) && s < |m.tabla|
    ensures Recortada(m, LiberarDesde(m, s, k), s, if k < |m.tabla[s]| then k else |m.tabla[s]|)
    decreases |m.tabla[s]|
  {
    hide OneOwner, Owned, Recortada;
    if k < |m.tabla[s]| {
      DestruirDuenios(m, s, k);
      LiberarKeeps(Destruir(m, s, k), s, k);
      DestruirRecorta(m, s, k, LiberarDesde(m, s, k));
    } else {
      RecortadaSelf(m, s);
    }
  }
}
