/** Demand paging of muse/src/utils.c on values: page tables, frames, swap slots,
    the page fault, eviction, page creation and page release. */
module Paging {
  import opened Options
  import opened Clock

  /** A page of a heap segment. The pointers `bit_marco` and `bit_swap` are the positions
      of the bits they point to. */
  datatype Pagina = Pagina(num: nat, presencia: bool, marco: Option<nat>, swap: Option<nat>)

  /** Place of a page: which segment, and which position of its page list. */
  datatype Ref = Ref(s: nat, i: nat)

  type Tabla = seq<seq<Pagina>>

  /** Everything the paging code of the server reads and writes. `desalojos` and
      `entradas` count the evictions and the swap-ins made so far. */
  datatype Mem = Mem(
    P: nat,
    bits: Bits,
    slots: seq<bool>,
    puntero: nat,
    memoria: seq<Bytes>,
    virtual: seq<Bytes>,
    tabla: Tabla,
    desalojos: nat,
    entradas: nat)

  // ---- operations -----------------------------------------------------------

  /** First position from i on whose flag is off; |flags| if there is none. */
  function FirstFree(flags: seq<bool>, i: nat): (k: nat)
    requires i <= |flags|
    ensures i <= k <= |flags|
    ensures forall j: nat | i <= j < k :: flags[j]
    ensures k < |flags| ==> !flags[k]
    decreases |flags| - i
  {
    if i == |flags| || !flags[i] then i else FirstFree(flags, i + 1)
  }

  function Ocupados(bits: Bits): (o: seq<bool>)
    ensures |o| == |bits|
    ensures forall f: nat | f < |bits| :: o[f] == bits[f].ocupado
  {
    seq(|bits|, f requires 0 <= f < |bits| => bits[f].ocupado)
  }

  /** Last of the first n pages of a list that is resident in frame f. */
  function BuscarEnSegmento(ps: seq<Pagina>, f: nat, n: nat): (r: Option<nat>)
    requires n <= |ps|
    ensures r.Some? ==> r.value < n && ps[r.value].presencia && ps[r.value].marco == Some(f)
    ensures r.None? ==> forall i: nat | i < n :: !(ps[i].presencia && ps[i].marco == Some(f))
  {
    if n == 0 then None
    else if ps[n - 1].presencia && ps[n - 1].marco == Some(f) then Some(n - 1)
    else BuscarEnSegmento(ps, f, n - 1)
  }

  /** Last page of the first n segments that is resident in frame f. */
  function BuscarPagina(t: Tabla, f: nat, n: nat): (r: Option<Ref>)
    requires n <= |t|
    ensures r.Some? ==> r.value.s < n && Reside(t, r.value.s, r.value.i, f)
    ensures r.None? ==> forall s: nat, i: nat | s < n :: !Reside(t, s, i, f)
  {
    if n == 0 then None
    else
      var i := BuscarEnSegmento(t[n - 1], f, |t[n - 1]|);
      if i.Some? then Some(Ref(n - 1, i.value)) else BuscarPagina(t, f, n - 1)
  }

  function SetPagina(t: Tabla, s: nat, i: nat, p: Pagina): (t': Tabla)
    requires InTable(t, s, i)
    ensures |t'| == |t|
    ensures forall s': nat | s' < |t| :: |t'[s']| == |t[s']|
    ensures forall s': nat, i': nat | InTable(t, s', i') ::
              t'[s'][i'] == if s' == s && i' == i then p else t[s'][i']
  {
    t[s := t[s][i := p]]
  }

  /** Result of asking for a frame: the frame and the new state, or the null
      dereference of `pasarASwap` when no slot is free. */
  datatype Asignacion = Asignado(m: Mem, marco: nat) | SinSwap

  /** `ejecutarClockModificado`: choose a victim and move its page to swap. */
  function Desalojar(m: Mem): Asignacion
    requires Formas(m)
  {
    ClockVictim(m.bits, m.puntero);
    var v := Victim(m.bits, m.puntero);
    var f := v.frame.value;
    var r := BuscarPagina(m.tabla, f, |m.tabla|);
    if r.None? then Asignado(m.(bits := v.bits, puntero := v.puntero), f)
    else
      var k := FirstFree(m.slots, 0);
      if k == |m.slots| then SinSwap
      else
        var Ref(s, i) := r.value;
        Asignado(
          m.(bits := v.bits[f := v.bits[f].(modificado := false, uso := true)],
             puntero := v.puntero,
             slots := m.slots[k := true],
             virtual := m.virtual[k := m.memoria[f]],
             tabla := SetPagina(m.tabla, s, i,
                                m.tabla[s][i].(presencia := false, marco := None, swap := Some(k))),
             desalojos := m.desalojos + 1),
          f)
  }

  /** `asignarMarcoNuevo`: a free frame if there is one, else the clock's victim. */
  function Asignar(m: Mem): Asignacion
    requires Formas(m)
  {
    var f := FirstFree(Ocupados(m.bits), 0);
    if f < |m.bits| then Asignado(m.(bits := m.bits[f := BitMemoria(true, true, true)]), f)
    else Desalojar(m)
  }

  // ---- invariant ------------------------------------------------------------

  predicate InTable(t: Tabla, s: nat, i: nat) {
    s < |t| && i < |t[s]|
  }

  /** Page i of segment s is in frame f. */
  predicate Reside(t: Tabla, s: nat, i: nat, f: nat) {
    InTable(t, s, i) && t[s][i].presencia && t[s][i].marco == Some(f)
  }

  /** Page i of segment s is in swap slot k. */
  predicate EnSwap(t: Tabla, s: nat, i: nat, k: nat) {
    InTable(t, s, i) && !t[s][i].presencia && t[s][i].swap == Some(k)
  }

  predicate Formas(m: Mem) {
    && 0 < m.P
    && 0 < |m.bits| == |m.memoria|
    && m.puntero <= |m.bits|
    && |m.slots| == |m.virtual|
    && (forall f: nat | f < |m.memoria| :: |m.memoria[f]| == m.P)
    && (forall k: nat | k < |m.virtual| :: |m.virtual[k]| == m.P)
  }

  /** A page is in exactly one place, and that place is marked occupied. */
  predicate Colocada(m: Mem, p: Pagina) {
    if p.presencia then
      p.swap.None? && p.marco.Some? && p.marco.value < |m.bits| && m.bits[p.marco.value].ocupado
    else
      p.marco.None? && p.swap.Some? && p.swap.value < |m.slots| && m.slots[p.swap.value]
  }

  ghost predicate OneOwner(t: Tabla) {
    && (forall f: nat, s: nat, i: nat, s': nat, i': nat ::
          Reside(t, s, i, f) && Reside(t, s', i', f) ==> s == s' && i == i')
    && (forall k: nat, s: nat, i: nat, s': nat, i': nat ::
          EnSwap(t, s, i, k) && EnSwap(t, s', i', k) ==> s == s' && i == i')
  }

  ghost predicate Owned(t: Tabla, f: nat) {
    exists s: nat, i: nat :: Reside(t, s, i, f)
  }

  /** The ownership invariant, with the occupied frames `libres` that no page has yet and
      the pages `enTransito` that are between a slot and a frame. */
  ghost predicate Duenios(m: Mem, libres: set<nat>, enTransito: set<Ref>) {
    && Formas(m)
    && (forall s: nat, i: nat | InTable(m.tabla, s, i) ::
          if Ref(s, i) in enTransito
          then !m.tabla[s][i].presencia && m.tabla[s][i].marco.None? && m.tabla[s][i].swap.None?
          else Colocada(m, m.tabla[s][i]))
    && OneOwner(m.tabla)
    && (forall f: nat | f < |m.bits| && m.bits[f].ocupado :: f in libres || Owned(m.tabla, f))
    && (forall f: nat | f in libres ::
          f < |m.bits| && m.bits[f].ocupado && !Owned(m.tabla, f))
  }

  /** Frames and resident pages are in bijection; swapped pages hold distinct occupied
      slots; no page is in both or in neither. */
  ghost predicate Ownership(m: Mem) {
    Duenios(m, {}, {})
  }

  // ---- logical contents -----------------------------------------------------

  /** The bytes of a page, wherever they are. */
  function Contenido(m: Mem, s: nat, i: nat): Bytes
    requires InTable(m.tabla, s, i)
  {
    var p := m.tabla[s][i];
    if p.presencia then
      if p.marco.Some? && p.marco.value < |m.memoria| then m.memoria[p.marco.value] else []
    else
      if p.swap.Some? && p.swap.value < |m.virtual| then m.virtual[p.swap.value] else []
  }

  /** The same segments with the same pages, wherever the pages now are. */
  ghost predicate SameShape(t: Tabla, t': Tabla) {
    && |t'| == |t|
    && (forall s: nat | s < |t| :: |t'[s]| == |t[s]|)
    && (forall s: nat, i: nat | InTable(t, s, i) :: t'[s][i].num == t[s][i].num)
  }

  /** m' has the pages of m, all with the bytes they had, except perhaps those in `menos`. */
  ghost predicate SameContents(m: Mem, m': Mem, menos: set<Ref>) {
    && m'.P == m.P
    && SameShape(m.tabla, m'.tabla)
    && (forall s: nat, i: nat | InTable(m.tabla, s, i) && Ref(s, i) !in menos ::
          Contenido(m', s, i) == Contenido(m, s, i))
  }

  // ---- allocation of a frame ------------------------------------------------

  /** With every frame occupied the clock's victim holds a page of the table exactly when it is
      not one of the frames handed out without a page; then eviction fails only for want of a
      slot. Otherwise the error branch of `ejecutarClockModificado` hands the frame out again. */
  lemma VictimHasPage(m: Mem, libres: set<nat>, enTransito: set<Ref>)
    requires Duenios(m, libres, enTransito)
    requires FirstFree(Ocupados(m.bits), 0) == |m.bits|
    ensures Victim(m.bits, m.puntero).frame.Some?
    ensures var f := Victim(m.bits, m.puntero).frame.value;
            && f < |m.bits| && m.bits[f].ocupado
            && (BuscarPagina(m.tabla, f, |m.tabla|).Some? <==> f !in libres)
            && (Desalojar(m).SinSwap? <==> f !in libres && forall k: nat | k < |m.slots| :: m.slots[k])
            && (f in libres ==>
                  Desalojar(m) == Asignado(m.(bits := Victim(m.bits, m.puntero).bits,
                                              puntero := Victim(m.bits, m.puntero).puntero), f))
  {
    ClockVictim(m.bits, m.puntero);
    var f := Victim(m.bits, m.puntero).frame.value;
    assert Ocupados(m.bits)[f];
    if f in libres {
      assert !Owned(m.tabla, f);
    } else {
      assert Owned(m.tabla, f);
    }
  }

  /** m' is m after the page at (s, i), in frame f, is moved to the free slot k. */
  ghost predicate Sacada(m: Mem, s: nat, i: nat, f: nat, k: nat, m': Mem) {
    && Reside(m.tabla, s, i, f) && f < |m.bits| && f < |m.memoria| && m.bits[f].ocupado
    && k < |m.slots| && k < |m.virtual| && !m.slots[k]
    && m'.P == m.P && m'.memoria == m.memoria && m'.puntero <= |m.bits|
    && m'.slots == m.slots[k := true] && m'.virtual == m.virtual[k := m.memoria[f]]
    && |m'.bits| == |m.bits|
    && (forall g: nat | g < |m.bits| :: m'.bits[g].ocupado == m.bits[g].ocupado)
    && m'.tabla == SetPagina(m.tabla, s, i,
                             m.tabla[s][i].(presencia := false, marco := None, swap := Some(k)))
  }

  /** The frame of the page moved out is left occupied and free-standing. */
  lemma SacarKeeps(m: Mem, s: nat, i: nat, f: nat, k: nat, m': Mem, libres: set<nat>, enTransito: set<Ref>)
    requires Duenios(m, libres, enTransito)
    requires Sacada(m, s, i, f, k, m')
    ensures Duenios(m', libres + {f}, enTransito)
  {
    assert forall s': nat, i': nat, g: nat :: Reside(m'.tabla, s', i', g) ==>
      Reside(m.tabla, s', i', g) && !(s' == s && i' == i);
    assert forall s': nat, i': nat, j: nat :: EnSwap(m'.tabla, s', i', j) ==>
      if s' == s && i' == i then j == k else EnSwap(m.tabla, s', i', j) && j != k;
    forall g: nat | g < |m'.bits| && m'.bits[g].ocupado && g != f && g !in libres ensures Owned(m'.tabla, g) {
      assert Owned(m.tabla, g);
      var s': nat, i': nat :| Reside(m.tabla, s', i', g);
      assert Reside(m'.tabla, s', i', g);
    }
  }

  lemma SacarContents(m: Mem, s: nat, i: nat, f: nat, k: nat, m': Mem, libres: set<nat>, enTransito: set<Ref>)
    requires Duenios(m, libres, enTransito)
    requires Sacada(m, s, i, f, k, m')
    ensures SameContents(m, m', enTransito)
  {
  }

  /** m' is m after the clock's victim frame f lost its page: the frame is used and not modified,
      every other frame has the bits the search left, and exactly that page went to the first
      free slot, with its bytes. */
  ghost predicate Evicted(m: Mem, f: nat, m': Mem)
    requires Formas(m)
  {
    EvictedBits(m, f, m') && EvictedPage(m, f, m')
  }

  ghost predicate EvictedBits(m: Mem, f: nat, m': Mem)
    requires Formas(m)
  {
    var v := Victim(m.bits, m.puntero);
    && v.frame == Some(f) && m'.puntero == v.puntero
    && |m'.bits| == |v.bits| == |m.bits| && f < |m.bits|
    && m'.bits[f] == BitMemoria(true, true, false)
    && forall g: nat | g < |m.bits| && g != f :: m'.bits[g] == v.bits[g]
  }

  ghost predicate EvictedPage(m: Mem, f: nat, m': Mem) {
    && f < |m.memoria| && m'.memoria == m.memoria
    && exists k: nat ::
         && k < |m.slots| && k < |m.virtual| && !m.slots[k] && (forall j: nat | j < k :: m.slots[j])
         && m'.slots == m.slots[k := true] && m'.virtual == m.virtual[k := m.memoria[f]]
         && MovedTo(m.tabla, f, k, m'.tabla)
  }

  /** Only the page in frame f differs between t and t': there it is in slot k. */
  ghost predicate MovedTo(t: Tabla, f: nat, k: nat, t': Tabla) {
    && |t'| == |t|
    && (forall s: nat | s < |t| :: |t'[s]| == |t[s]|)
    && (exists s: nat, i: nat :: Reside(t, s, i, f))
    && forall s: nat, i: nat | InTable(t, s, i) ::
         t'[s][i] == if Reside(t, s, i, f) then Pagina(t[s][i].num, false, None, Some(k)) else t[s][i]
  }

  lemma DesalojarBits(m: Mem, libres: set<nat>, enTransito: set<Ref>)
    requires Duenios(m, libres, enTransito)
    requires FirstFree(Ocupados(m.bits), 0) == |m.bits|
    requires Desalojar(m).Asignado? && Desalojar(m).marco !in libres
    ensures EvictedBits(m, Desalojar(m).marco, Desalojar(m).m)
  {
    hide OneOwner, Owned, Colocada;
    VictimHasPage(m, libres, enTransito);
    VictimKeepsOtherBits(m.bits, m.puntero);
    ClockVictim(m.bits, m.puntero);
    hide Victim, BuscarPagina, SetPagina, FirstFree;
  }

  lemma DesalojarEvicts(m: Mem, libres: set<nat>, enTransito: set<Ref>)
    requires Duenios(m, libres, enTransito)
    requires FirstFree(Ocupados(m.bits), 0) == |m.bits|
    requires Desalojar(m).Asignado? && Desalojar(m).marco !in libres
    ensures Evicted(m, Desalojar(m).marco, Desalojar(m).m)
  {
    hide OneOwner, Owned, Colocada, MovedTo, Desalojar, Victim;
    DesalojarBits(m, libres, enTransito);
    VictimHasPage(m, libres, enTransito);
    DesalojarSaca(m, libres, enTransito);
    MovedByEviction(m, libres, enTransito, Desalojar(m).marco, FirstFree(m.slots, 0));
    hide EvictedBits, BuscarPagina, SetPagina;
  }

  lemma MovedByEviction(m: Mem, libres: set<nat>, enTransito: set<Ref>, f: nat, k: nat)
    requires Duenios(m, libres, enTransito) && BuscarPagina(m.tabla, f, |m.tabla|).Some?
    ensures var Ref(s, i) := BuscarPagina(m.tabla, f, |m.tabla|).value;
            && InTable(m.tabla, s, i)
            && MovedTo(m.tabla, f, k, SetPagina(m.tabla, s, i,
                 m.tabla[s][i].(presencia := false, marco := None, swap := Some(k))))
  {
    var Ref(s, i) := BuscarPagina(m.tabla, f, |m.tabla|).value;
    assert Reside(m.tabla, s, i, f);
  }

  lemma DesalojarKeeps(m: Mem, libres: set<nat>, enTransito: set<Ref>)
    requires Duenios(m, libres, enTransito)
    requires FirstFree(Ocupados(m.bits), 0) == |m.bits|
    requires Desalojar(m).Asignado? && Desalojar(m).marco !in libres
    ensures Duenios(Desalojar(m).m, libres + {Desalojar(m).marco}, enTransito)
    ensures SameContents(m, Desalojar(m).m, enTransito)
    ensures forall s: nat, i: nat | InTable(m.tabla, s, i) && Ref(s, i) in enTransito ::
              Desalojar(m).m.tabla[s][i] == m.tabla[s][i]
    ensures Evicted(m, Desalojar(m).marco, Desalojar(m).m)
  {
    DesalojarEvicts(m, libres, enTransito);
    DesalojarSaca(m, libres, enTransito);
    hide Evicted;
    hide Desalojar, Sacada;
    var f := Victim(m.bits, m.puntero).frame.value;
    var Ref(s, i) := BuscarPagina(m.tabla, f, |m.tabla|).value;
    SacarKeeps(m, s, i, f, FirstFree(m.slots, 0), Desalojar(m).m, libres, enTransito);
    SacarContents(m, s, i, f, FirstFree(m.slots, 0), Desalojar(m).m, libres, enTransito);
    SacadaRest(m, s, i, f, FirstFree(m.slots, 0), Desalojar(m).m, libres, enTransito);
  }

  /** An eviction that finds a page moves it out. */
  lemma DesalojarSaca(m: Mem, libres: set<nat>, enTransito: set<Ref>)
    requires Duenios(m, libres, enTransito)
    requires FirstFree(Ocupados(m.bits), 0) == |m.bits|
    requires Desalojar(m).Asignado? && Desalojar(m).marco !in libres
    ensures Victim(m.bits, m.puntero).frame == Some(Desalojar(m).marco)
    ensures var r := BuscarPagina(m.tabla, Desalojar(m).marco, |m.tabla|);
            r.Some? && Sacada(m, r.value.s, r.value.i, Desalojar(m).marco, FirstFree(m.slots, 0), Desalojar(m).m)
  {
    hide OneOwner, Owned;
    ClockVictim(m.bits, m.puntero);
    VictimHasPage(m, libres, enTransito);
    VictimKeepsOtherBits(m.bits, m.puntero);
  }

  lemma SacadaRest(m: Mem, s: nat, i: nat, f: nat, k: nat, m': Mem, libres: set<nat>, enTransito: set<Ref>)
    requires Duenios(m, libres, enTransito)
    requires Sacada(m, s, i, f, k, m')
    ensures forall z: nat, j: nat | InTable(m.tabla, z, j) && Ref(z, j) in enTransito :: m'.tabla[z][j] == m.tabla[z][j]
  {
  }

  /** A frame handed out that was not already standing free stands free now, and every page
      keeps its bytes. */
  lemma AsignarOtro(m: Mem, libres: set<nat>, enTransito: set<Ref>)
    requires Duenios(m, libres, enTransito)
    requires Asignar(m).Asignado? && Asignar(m).marco !in libres
    ensures Duenios(Asignar(m).m, libres + {Asignar(m).marco}, enTransito)
    ensures SameContents(m, Asignar(m).m, enTransito)
    ensures forall s: nat, i: nat | InTable(m.tabla, s, i) && Ref(s, i) in enTransito ::
              Asignar(m).m.tabla[s][i] == m.tabla[s][i]
  {
    hide Desalojar;
    var f := FirstFree(Ocupados(m.bits), 0);
    if f < |m.bits| {
      assert !Ocupados(m.bits)[f];
    } else {
      DesalojarKeeps(m, libres, enTransito);
    }
  }

  lemma AsignarKeeps(m: Mem, enTransito: set<Ref>)
    requires Duenios(m, {}, enTransito)
    requires Asignar(m).Asignado?
    ensures Duenios(Asignar(m).m, {Asignar(m).marco}, enTransito)
    ensures SameContents(m, Asignar(m).m, enTransito)
    ensures forall s: nat, i: nat | InTable(m.tabla, s, i) && Ref(s, i) in enTransito ::
              Asignar(m).m.tabla[s][i] == m.tabla[s][i]
  {
    hide Asignar, OneOwner, Owned, SameContents;
    AsignarOtro(m, {}, enTransito);
    assert {} + {Asignar(m).marco} == {Asignar(m).marco};
  }

  // ---- page fault -----------------------------------------------------------

  ghost predicate Lleno(m: Mem) {
    (forall f: nat | f < |m.bits| :: m.bits[f].ocupado) && (forall k: nat | k < |m.slots| :: m.slots[k])
  }

  /** The page about to be brought in, already off its slot: `bit_swap` is cleared first. */
  function EnCamino(m: Mem, s: nat, i: nat): Mem
    requires InTable(m.tabla, s, i)
  {
    m.(tabla := SetPagina(m.tabla, s, i, m.tabla[s][i].(swap := None)))
  }

  lemma EnCaminoDuenios(m: Mem, s: nat, i: nat)
    requires Ownership(m) && InTable(m.tabla, s, i) && !m.tabla[s][i].presencia
    ensures Duenios(EnCamino(m, s, i), {}, {Ref(s, i)})
  {
    var m1 := EnCamino(m, s, i);
    assert forall s': nat, i': nat, f: nat :: Reside(m1.tabla, s', i', f) <==> Reside(m.tabla, s', i', f);
    assert forall s': nat, i': nat, k: nat :: EnSwap(m1.tabla, s', i', k) ==> EnSwap(m.tabla, s', i', k);
    forall f: nat | f < |m1.bits| && m1.bits[f].ocupado ensures Owned(m1.tabla, f) {
      assert Owned(m.tabla, f);
      var s': nat, i': nat :| Reside(m.tabla, s', i', f);
      assert Reside(m1.tabla, s', i', f);
    }
  }

  lemma EnCaminoContents(m: Mem, s: nat, i: nat)
    requires InTable(m.tabla, s, i) && !m.tabla[s][i].presencia
    ensures SameContents(m, EnCamino(m, s, i), {Ref(s, i)})
  {
  }

  lemma AsignarFails(m: Mem, enTransito: set<Ref>)
    requires Duenios(m, {}, enTransito)
    ensures Asignar(m).SinSwap? <==> Lleno(m)
  {
    assert forall f: nat | f < |m.bits| :: Ocupados(m.bits)[f] == m.bits[f].ocupado;
    if FirstFree(Ocupados(m.bits), 0) == |m.bits| {
      VictimHasPage(m, {}, enTransito);
    }
  }

  lemma EnCaminoKeeps(m: Mem, s: nat, i: nat)
    requires Ownership(m) && InTable(m.tabla, s, i) && !m.tabla[s][i].presencia
    ensures Duenios(EnCamino(m, s, i), {}, {Ref(s, i)})
    ensures SameContents(m, EnCamino(m, s, i), {Ref(s, i)})
    ensures Asignar(EnCamino(m, s, i)).SinSwap? <==> Lleno(m)
  {
    EnCaminoDuenios(m, s, i);
    EnCaminoContents(m, s, i);
    AsignarFails(EnCamino(m, s, i), {Ref(s, i)});
  }

  /** The page is put in frame f with the bytes it had in its slot. */
  function Colocar(m: Mem, s: nat, i: nat, f: nat, bytes: Bytes): Mem
    requires InTable(m.tabla, s, i) && f < |m.memoria|
  {
    m.(tabla := SetPagina(m.tabla, s, i, m.tabla[s][i].(marco := Some(f), presencia := true)),
       memoria := m.memoria[f := bytes],
       entradas := m.entradas + 1)
  }

  /** `obtenerPunteroAMarco`: bring page i of segment s into a frame if it is in swap, and
      mark its frame used. The slot it leaves stays marked occupied. */
  ghost function Acceder(m: Mem, s: nat, i: nat): Option<Mem>
    requires Ownership(m) && InTable(m.tabla, s, i)
  {
    var pag := m.tabla[s][i];
    if pag.presencia then
      Some(m.(bits := m.bits[pag.marco.value := m.bits[pag.marco.value].(uso := true)]))
    else
      EnCaminoKeeps(m, s, i);
      var r := Asignar(EnCamino(m, s, i));
      if r.SinSwap? then None
      else
        AsignarKeeps(EnCamino(m, s, i), {Ref(s, i)});
        var m2 := Colocar(r.m, s, i, r.marco, m.virtual[pag.swap.value]);
        Some(m2.(bits := m2.bits[r.marco := m2.bits[r.marco].(uso := true)]))
  }

  /** m' is r with the free-standing frame f given to the page in transit. */
  ghost predicate Traida(r: Mem, s: nat, i: nat, f: nat, m': Mem) {
    && Duenios(r, {f}, {Ref(s, i)}) && InTable(r.tabla, s, i)
    && m'.P == r.P && m'.slots == r.slots && m'.virtual == r.virtual && m'.puntero == r.puntero
    && m'.tabla == SetPagina(r.tabla, s, i, r.tabla[s][i].(marco := Some(f), presencia := true))
    && |m'.memoria| == |r.memoria| && |m'.memoria[f]| == r.P
    && (forall g: nat | g < |r.memoria| && g != f :: m'.memoria[g] == r.memoria[g])
    && |m'.bits| == |r.bits| && forall g: nat | g < |r.bits| :: m'.bits[g].ocupado == r.bits[g].ocupado
  }

  lemma TraerReside(r: Mem, s: nat, i: nat, f: nat, m': Mem)
    requires Traida(r, s, i, f, m')
    ensures forall s': nat, i': nat, g: nat :: Reside(m'.tabla, s', i', g) <==>
              if s' == s && i' == i then g == f else Reside(r.tabla, s', i', g) && g != f
    ensures forall s': nat, i': nat, k: nat :: EnSwap(m'.tabla, s', i', k) ==> EnSwap(r.tabla, s', i', k)
  {
    assert forall s': nat, i': nat :: Reside(r.tabla, s', i', f) ==> Owned(r.tabla, f);
  }

  /** It completes the bijection. */
  lemma TraerKeeps(r: Mem, s: nat, i: nat, f: nat, m': Mem)
    requires Traida(r, s, i, f, m')
    ensures Ownership(m')
    ensures SameContents(r, m', {Ref(s, i)})
    ensures Contenido(m', s, i) == m'.memoria[f]
  {
    TraerReside(r, s, i, f, m');
    assert Reside(m'.tabla, s, i, f);
    forall g: nat | g < |m'.bits| && m'.bits[g].ocupado && g != f ensures Owned(m'.tabla, g) {
      assert Owned(r.tabla, g);
      var s': nat, i': nat :| Reside(r.tabla, s', i', g);
      assert Reside(m'.tabla, s', i', g);
    }
    TraerContents(r, s, i, f, m');
    hide Contenido, SameShape;
  }

  lemma TraerContents(r: Mem, s: nat, i: nat, f: nat, m': Mem)
    requires Traida(r, s, i, f, m')
    ensures SameContents(r, m', {Ref(s, i)})
    ensures Contenido(m', s, i) == m'.memoria[f]
  {
    hide OneOwner;
    forall s': nat, i': nat | InTable(r.tabla, s', i') && Ref(s', i') != Ref(s, i)
      ensures Contenido(m', s', i') == Contenido(r, s', i')
    {
      if r.tabla[s'][i'].presencia {
        assert Reside(r.tabla, s', i', r.tabla[s'][i'].marco.value);
        assert r.tabla[s'][i'].marco.value != f by {
          assert Reside(r.tabla, s', i', f) ==> Owned(r.tabla, f);
        }
      }
    }
  }

  lemma AccederAusente(m: Mem, s: nat, i: nat)
    requires Ownership(m) && InTable(m.tabla, s, i) && !m.tabla[s][i].presencia
    ensures Acceder(m, s, i).None? <==> Lleno(m)
    ensures Acceder(m, s, i).Some? ==>
              var m' := Acceder(m, s, i).value;
              && Ownership(m')
              && SameContents(m, m', {})
              && m'.tabla[s][i].presencia
              && m'.bits[m'.tabla[s][i].marco.value].uso
  {
    hide OneOwner, Owned, Asignar;
    var m1 := EnCamino(m, s, i);
    EnCaminoKeeps(m, s, i);
    if Asignar(m1).Asignado? {
      AsignarKeeps(m1, {Ref(s, i)});
      TraerKeeps(Asignar(m1).m, s, i, Asignar(m1).marco, Acceder(m, s, i).value);
    }
  }

  lemma AccederPresente(m: Mem, s: nat, i: nat)
    requires Ownership(m) && InTable(m.tabla, s, i) && m.tabla[s][i].presencia
    ensures Acceder(m, s, i).Some?
    ensures Ownership(Acceder(m, s, i).value)
    ensures SameContents(m, Acceder(m, s, i).value, {})
    ensures Acceder(m, s, i).value.tabla == m.tabla
    ensures Acceder(m, s, i).value.bits[m.tabla[s][i].marco.value].uso
  {
  }

  /** A page access keeps ownership and every page's bytes, leaves the page resident and
      its frame used, and fails only if every frame and every slot is taken. */
  lemma AccederKeeps(m: Mem, s: nat, i: nat)
    requires Ownership(m) && InTable(m.tabla, s, i)
    ensures Acceder(m, s, i).None? <==> !m.tabla[s][i].presencia && Lleno(m)
    ensures Acceder(m, s, i).Some? ==>
              var m' := Acceder(m, s, i).value;
              && Ownership(m')
              && SameContents(m, m', {})
              && m'.tabla[s][i].presencia
              && m'.bits[m'.tabla[s][i].marco.value].uso
  {
    if m.tabla[s][i].presencia {
      AccederPresente(m, s, i);
    } else {
      AccederAusente(m, s, i);
    }
  }
}
