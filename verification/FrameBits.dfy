/** Which frame each step of the paging takes, and the use and modified bits it leaves. */
module FrameBits {
  import opened Options
  import opened Clock
  import opened Paging
  import opened PageLife
  import opened FlatMemory
  import opened PageBatch
  import opened LateListing
  import opened HeaderWrites

  /** f is the first frame of the bitmap that is free. */
  predicate PrimerMarco(bits: Bits, f: nat) {
    f < |bits| && !bits[f].ocupado && forall g: nat | g < f :: bits[g].ocupado
  }

  predicate HayMarcoLibre(bits: Bits) {
    exists f: nat :: f < |bits| && !bits[f].ocupado
  }

  /** A frame handed out: the first free one, occupied, used and modified, and nothing else
      changes; or, when none is free, the victim's. */
  lemma AsignarTakes(m: Mem, enTransito: set<Ref>)
    requires Duenios(m, {}, enTransito) && Asignar(m).Asignado?
    ensures var f, m' := Asignar(m).marco, Asignar(m).m;
            if HayMarcoLibre(m.bits) then
              PrimerMarco(m.bits, f) && m' == m.(bits := m.bits[f := BitMemoria(true, true, true)])
            else Evicted(m, f, m')
  {
    hide Desalojar, Evicted;
    assert forall f: nat | f < |m.bits| :: Ocupados(m.bits)[f] == m.bits[f].ocupado;
    if FirstFree(Ocupados(m.bits), 0) == |m.bits| {
      DesalojarKeeps(m, {}, enTransito);
    }
  }

  /** The bits of every frame but f, the clock pointer and the slots after a frame was handed out:
      no slot but the one an eviction fills changes. */
  ghost predicate OtrosBits(m: Mem, f: nat, m': Mem)
    requires Formas(m)
  {
    && |m'.bits| == |m.bits| == |Victim(m.bits, m.puntero).bits|
    && (if HayMarcoLibre(m.bits) then m'.puntero == m.puntero && m'.slots == m.slots
        else
          && m'.puntero == Victim(m.bits, m.puntero).puntero
          && exists k: nat ::
               k < |m.slots| && !m.slots[k] && (forall j: nat | j < k :: m.slots[j]) && m'.slots == m.slots[k := true])
    && forall g: nat | g < |m.bits| && g != f ::
         m'.bits[g] == if HayMarcoLibre(m.bits) then m.bits[g] else Victim(m.bits, m.puntero).bits[g]
  }

  lemma AsignarBits(m: Mem, enTransito: set<Ref>)
    requires Duenios(m, {}, enTransito) && Asignar(m).Asignado?
    ensures var f, m' := Asignar(m).marco, Asignar(m).m;
            f < |m.bits| && OtrosBits(m, f, m') && m'.bits[f] == BitMemoria(true, true, HayMarcoLibre(m.bits))
  {
    hide Asignar, Duenios;
    DueniosFormas(m, enTransito);
    AsignarTakes(m, enTransito);
    VictimKeepsOtherBits(m.bits, m.puntero);
  }

  lemma DueniosFormas(m: Mem, enTransito: set<Ref>)
    requires Duenios(m, {}, enTransito)
    ensures Formas(m) && 0 < |m.bits| && m.puntero <= |m.bits|
  {
  }

  /** A page access. A resident page's frame is now used, and that is all that changes. A page in
      swap takes a frame: one that was free is left modified, one taken from a victim is not. */
  lemma AccederBits(m: Mem, s: nat, i: nat)
    requires Ownership(m) && InTable(m.tabla, s, i) && Acceder(m, s, i).Some?
    ensures Formas(m)
    ensures var m', p := Acceder(m, s, i).value, m.tabla[s][i];
            && InTable(m'.tabla, s, i) && m'.tabla[s][i].marco.Some?
            && var f := m'.tabla[s][i].marco.value;
               && f < |m.bits| && |m'.bits| == |m.bits|
               && if p.presencia then
                    p.marco == Some(f) && m' == m.(bits := m.bits[f := m.bits[f].(uso := true)])
                  else
                    && m'.bits[f] == BitMemoria(true, true, HayMarcoLibre(m.bits)) && OtrosBits(m, f, m')
                    && (HayMarcoLibre(m.bits) ==> PrimerMarco(m.bits, f))
  {
    if m.tabla[s][i].presencia {
      AccederPresente(m, s, i);
    } else {
      AusenteBits(m, s, i);
    }
  }

  lemma AusenteBits(m: Mem, s: nat, i: nat)
    requires Ownership(m) && InTable(m.tabla, s, i) && !m.tabla[s][i].presencia && Acceder(m, s, i).Some?
    ensures Formas(m)
    ensures var m' := Acceder(m, s, i).value;
            && InTable(m'.tabla, s, i) && m'.tabla[s][i].marco.Some?
            && var f := m'.tabla[s][i].marco.value;
               && f < |m.bits| && |m'.bits| == |m.bits|
               && m'.bits[f] == BitMemoria(true, true, HayMarcoLibre(m.bits)) && OtrosBits(m, f, m')
               && (HayMarcoLibre(m.bits) ==> PrimerMarco(m.bits, f))
  {
    hide Asignar, OneOwner, Owned, Victim;
    EnCaminoKeeps(m, s, i);
    var m1 := EnCamino(m, s, i);
    AsignarKeeps(m1, {Ref(s, i)});
    AsignarTakes(m1, {Ref(s, i)});
    AsignarBits(m1, {Ref(s, i)});
    hide Evicted;
  }

  /** A page the copy loop writes is left used and modified, wherever it was. */
  lemma CopiarBits(m: Mem, s: nat, pg: nat, off: nat, d: Bytes)
    requires Ownership(m) && InTable(m.tabla, s, pg) && off + |d| <= m.P && Copiar(m, s, pg, off, d).Some?
    ensures var m' := Copiar(m, s, pg, off, d).value;
            && InTable(m'.tabla, s, pg) && m'.tabla[s][pg].presencia && m'.tabla[s][pg].marco.Some?
            && var f := m'.tabla[s][pg].marco.value;
               && f < |m'.bits| && m'.bits[f] == BitMemoria(true, true, true)
               && Acceder(m, s, pg).Some? && |Acceder(m, s, pg).value.bits| == |m'.bits|
               && forall g: nat | g < |m'.bits| && g != f :: m'.bits[g] == Acceder(m, s, pg).value.bits[g]
  {
    hide Acceder;
    AccederKeeps(m, s, pg);
  }

  /** A header write leaves the bits as the access left them. */
  lemma EstamparBits(m: Mem, s: nat, pg: nat, off: nat, d: Bytes)
    requires Ownership(m) && InTable(m.tabla, s, pg) && off + |d| <= m.P && Estampar(m, s, pg, off, d).Some?
    ensures Acceder(m, s, pg).Some? && Estampar(m, s, pg, off, d).value.bits == Acceder(m, s, pg).value.bits
  {
    hide Acceder;
    AccederKeeps(m, s, pg);
  }

  /** A page made by a growth, or for a new segment, has its frame used and modified. */
  lemma AgregarBits(m: Mem, s: nat, num: nat)
    requires Ownership(m) && s < |m.tabla| && AgregarPagina(m, s, num).Some?
    ensures Formas(m)
    ensures var m' := AgregarPagina(m, s, num).value;
            && s < |m'.tabla| && |m'.tabla[s]| == |m.tabla[s]| + 1
            && var p := m'.tabla[s][|m.tabla[s]|];
               && p.num == num && p.presencia && p.swap.None? && p.marco.Some? && p.marco.value < |m.bits|
               && |m'.bits| == |m.bits| && m'.bits[p.marco.value] == BitMemoria(true, true, true)
               && OtrosBits(m, p.marco.value, m')
               && (HayMarcoLibre(m.bits) ==> PrimerMarco(m.bits, p.marco.value))
  {
    hide Asignar, OneOwner, Owned, Victim;
    AsignarKeeps(m, {});
    AsignarTakes(m, {});
    AsignarBits(m, {});
    hide Evicted;
  }

  lemma MarcoTardeBits(m: Mem)
    requires Formas(m) && MarcoTarde(m).Asignado?
    ensures var r := MarcoTarde(m);
            && r.marco < |m.bits| && |r.m.bits| == |m.bits| && r.m.bits[r.marco] == BitMemoria(true, true, true)
            && (HayMarcoLibre(m.bits) ==>
                  PrimerMarco(m.bits, r.marco) && r.m == m.(bits := m.bits[r.marco := BitMemoria(true, true, true)]))
  {
    hide Desalojar;
    AsignarFormas(m);
    assert forall f: nat | f < |m.bits| :: Ocupados(m.bits)[f] == m.bits[f].ocupado;
  }

  // ---- whole copies and reads -----------------------------------------------

  /** From m to m' page pg was accessed, and then marked used and modified. */
  ghost predicate Turno(m: Mem, s: nat, pg: nat, m': Mem) {
    && Ownership(m) && InTable(m.tabla, s, pg) && Acceder(m, s, pg).Some?
    && var a := Acceder(m, s, pg).value;
       && InTable(a.tabla, s, pg) && a.tabla[s][pg].marco.Some? && a.tabla[s][pg].marco.value < |a.bits|
       && m'.tabla == a.tabla && m'.slots == a.slots && m'.puntero == a.puntero
       && m'.bits == a.bits[a.tabla[s][pg].marco.value := BitMemoria(true, true, true)]
  }

  lemma CopiarTurno(m: Mem, s: nat, pg: nat, off: nat, d: Bytes)
    requires Ownership(m) && InTable(m.tabla, s, pg) && off + |d| <= m.P && Copiar(m, s, pg, off, d).Some?
    ensures Turno(m, s, pg, Copiar(m, s, pg, off, d).value)
  {
    hide Acceder;
    AccederKeeps(m, s, pg);
  }

  /** A copy takes its pages one after another, each marked used and modified in its turn. */
  lemma {:induction false} CpyTurns(m: Mem, s: nat, pg: nat, off: nat, d: Bytes) returns (ms: seq<Mem>)
    requires CpyFits(m, s, pg, off, d) && CpyDesde(m, s, pg, off, d).Some?
    ensures |ms| == Tramos(off, |d|, m.P) + 1 && ms[0] == m && ms[|ms| - 1] == CpyDesde(m, s, pg, off, d).value
    ensures forall k: nat | k < |ms| - 1 :: Turno(ms[k], s, pg + k, ms[k + 1])
    decreases |d|
  {
    hide Copiar, Turno, Ownership;
    CpyFitsPage(m, s, pg, off, d);
    if |d| <= m.P - off {
      CopiarTurno(m, s, pg, off, d);
      ms := [m, Copiar(m, s, pg, off, d).value];
    } else {
      CpyFitsNext(m, s, pg, off, d);
      CopiarTurno(m, s, pg, off, d[..m.P - off]);
      CopiarP(m, s, pg, off, d[..m.P - off]);
      var m1 := Copiar(m, s, pg, off, d[..m.P - off]).value;
      var resto := CpyTurns(m1, s, pg + 1, 0, d[m.P - off..]);
      ms := [m] + resto;
      forall k: nat | k < |ms| - 1 ensures Turno(ms[k], s, pg + k, ms[k + 1]) {
        if k > 0 { assert Turno(resto[k - 1], s, pg + 1 + (k - 1), resto[k]); }
      }
    }
  }

  /** Page pg was accessed, and that is all. */
  ghost predicate Acceso(m: Mem, s: nat, pg: nat, m': Mem) {
    Ownership(m) && InTable(m.tabla, s, pg) && Acceder(m, s, pg) == Some(m')
  }

  /** A read accesses its pages one after another, and marks none modified. */
  lemma {:induction false} GetTurns(m: Mem, s: nat, pg: nat, cant: nat) returns (ms: seq<Mem>)
    requires Ownership(m) && s < |m.tabla| && pg + cant <= |m.tabla[s]| && GetDesde(m, s, pg, cant).Some?
    ensures |ms| == cant + 1 && ms[0] == m && ms[cant] == GetDesde(m, s, pg, cant).value.0
    ensures forall k: nat | k < |ms| - 1 :: Acceso(ms[k], s, pg + k, ms[k + 1])
    decreases cant
  {
    hide Acceder, Ownership;
    if cant == 0 {
      ms := [m];
    } else {
      AccederKeeps(m, s, pg);
      var resto := GetTurns(Acceder(m, s, pg).value, s, pg + 1, cant - 1);
      ms := [m] + resto;
      forall k: nat | k < |ms| - 1 ensures Acceso(ms[k], s, pg + k, ms[k + 1]) {
        if k > 0 { assert Acceso(resto[k - 1], s, pg + 1 + (k - 1), resto[k]); }
      }
    }
  }
}
