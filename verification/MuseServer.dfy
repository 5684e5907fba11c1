/** The memory server as the C code runs it: globals updated in place, list scans, page
    loops. Every method is tied to the value model it implements. */
module MuseServer {
  import opened Options
  import opened Clock
  import opened Pages
  import opened PageDiv
  import opened Paging
  import opened PageLife
  import opened FlatMemory
  import opened PageBatch
  import opened LateListing
  import opened HeaderWrites
  import opened Heap
  import opened Coalesce
  import opened Muse
  import opened MuseInvariant
  import opened MuseRuns

  /** The int a request returns, or the null dereference that ends the server. */
  datatype Codigo = Valor(n: nat) | MenosUno | Caida

  class ServidorMuse {
    const P: nat
    const memoria: array<Bytes>     // the physical memory, one page a frame
    const virtual: array<Bytes>     // the swap area, one page a slot
    var bits: Bits
    var slots: seq<bool>
    var puntero: nat
    var tabla: Paging.Tabla
    var heaps: seq<Option<Segmento>>
    var espacio: nat
    ghost var desalojos: nat
    ghost var entradas: nat

    ghost function M(): Mem
      reads this, memoria, virtual
    {
      Mem(P, bits, slots, puntero, memoria[..], virtual[..], tabla, desalojos, entradas)
    }

    ghost function Vista(): Servidor
      reads this, memoria, virtual
    {
      Servidor(M(), heaps, espacio)
    }

    /** `inicializarEstructuras` and `inicializarBitmap` */
    constructor (tamPagina: nat, marcos: nat, paginasSwap: nat, total: nat)
      requires 0 < tamPagina && 0 < marcos
      ensures memoria != virtual
      ensures Inv(Vista(), total) && heaps == []
      ensures |bits| == marcos && |slots| == paginasSwap && P == tamPagina
    {
      var bs: Bits, ss: seq<bool> := [], [];
      for i := 0 to marcos
        invariant |bs| == i && forall f: nat | f < i :: bs[f] == BitMemoria(false, false, false)
      {
        bs := bs + [BitMemoria(false, false, false)];
      }
      for i := 0 to paginasSwap
        invariant |ss| == i && forall k: nat | k < i :: !ss[k]
      {
        ss := ss + [false];
      }
      P, bits, slots, puntero, tabla, heaps := tamPagina, bs, ss, 0, [], [];
      espacio, desalojos, entradas := total, 0, 0;
      memoria := new Bytes[marcos](_ => seq(tamPagina, _ => 0));
      virtual := new Bytes[paginasSwap](_ => seq(tamPagina, _ => 0));
      new;
      InicialInv(P, memoria[..], virtual[..], total);
      assert Vista() == Inicial(P, memoria[..], virtual[..], total);
    }

    // ---- bitmap and clock ---------------------------------------------------

    /** `buscarBitLibreMemoria` */
    method BuscarBitLibreMemoria() returns (r: Option<nat>)
      modifies this`bits
      ensures var f := FirstFree(Ocupados(old(bits)), 0);
              if f < |old(bits)| then r == Some(f) && bits == old(bits)[f := BitMemoria(true, true, true)]
              else r == None && bits == old(bits)
    {
      var i := 0;
      while i < |bits|
        invariant 0 <= i <= |bits| && bits == old(bits)
        invariant FirstFree(Ocupados(bits), 0) == FirstFree(Ocupados(bits), i)
      {
        if !bits[i].ocupado {
          bits := bits[i := BitMemoria(true, true, true)];
          return Some(i);
        }
        i := i + 1;
      }
      return None;
    }

    /** `buscarBitLibreSwap` */
    method BuscarBitLibreSwap() returns (r: Option<nat>)
      ensures r == if FirstFree(slots, 0) < |slots| then Some(FirstFree(slots, 0)) else None
    {
      var i := 0;
      while i < |slots|
        invariant 0 <= i <= |slots|
        invariant FirstFree(slots, 0) == FirstFree(slots, i)
      {
        if !slots[i] {
          return Some(i);
        }
        i := i + 1;
      }
      return None;
    }

    /** First loop of `buscarBit_0_0`: from the pointer to the last frame. */
    method HastaElFinal00() returns (r: Option<nat>)
      requires puntero <= |bits|
      modifies this`puntero
      ensures var k, p := FirstRank(bits, old(puntero), false, 0), old(puntero);
              if k < |bits| - p then r == Some(p + k) && puntero == p + k + 1 else r == None && puntero == |bits|
    {
      var inicial := puntero;
      var i := 0;
      while i < |bits| - inicial
        invariant 0 <= i <= |bits| - inicial && puntero == inicial + i
        invariant FirstRank(bits, inicial, false, 0) == FirstRank(bits, inicial, false, i)
      {
        if !bits[puntero].modificado && !bits[puntero].uso {
          puntero := puntero + 1;
          return Some(puntero - 1);
        }
        puntero := puntero + 1;
        i := i + 1;
      }
      return None;
    }

    /** Second loop of `buscarBit_0_0`: from the first frame to where the search began. */
    method DesdeElPrincipio00(inicial: nat) returns (r: Option<nat>)
      requires inicial <= |bits| && FirstRank(bits, inicial, false, 0) >= |bits| - inicial
      modifies this`puntero
      ensures var k := FirstRank(bits, inicial, false, 0);
              if k < |bits| then r == Some(puntero) && puntero == k - (|bits| - inicial) else r == None
    {
      hide FirstRank, Visited;
      puntero := 0;
      ghost var n := |bits| - inicial;
      SkipRank(bits, inicial, false, 0, n);
      while puntero < inicial
        invariant 0 <= puntero <= inicial
        invariant FirstRank(bits, inicial, false, 0) == FirstRank(bits, inicial, false, n + puntero)
      {
        NextRank(bits, inicial, false, n + puntero);
        if !bits[puntero].modificado && !bits[puntero].uso {
          return Some(puntero);
        }
        puntero := puntero + 1;
      }
      return None;
    }

    /** `buscarBit_0_0`: one turn of the clock; the pointer goes back if nothing is found. */
    method BuscarBit00() returns (r: Option<nat>)
      requires puntero <= |bits|
      modifies this`puntero
      ensures Sweep(r, bits, puntero) == Sweep00(bits, old(puntero))
    {
      var inicial := puntero;
      r := HastaElFinal00();
      if r == None {
        r := DesdeElPrincipio00(inicial);
        if r == None {
          puntero := inicial;
        }
      }
    }

    /** First loop of `buscarBit_0_1`, clearing the use bits it passes over. */
    method HastaElFinal01() returns (r: Option<nat>)
      requires puntero <= |bits|
      modifies this`puntero, this`bits
      ensures var b, p := old(bits), old(puntero);
              var k := FirstRank(b, p, true, 0);
              if k < |b| - p then r == Some(p + k) && puntero == p + k + 1 && bits == Cleared(b, p, k)
              else r == None && puntero == |b| && bits == Cleared(b, p, |b| - p)
    {
      hide Cleared, Rank;
      ghost var b := bits;
      var inicial := puntero;
      var i := 0;
      NothingCleared(b, inicial);
      while i < |bits| - inicial
        invariant |bits| == |b| && 0 <= i <= |b| - inicial && puntero == inicial + i
        invariant FirstRank(b, inicial, true, 0) == FirstRank(b, inicial, true, i)
        invariant bits == Cleared(b, inicial, i)
      {
        ClearNext(b, inicial, i);
        if bits[puntero].modificado && !bits[puntero].uso {
          puntero := puntero + 1;
          return Some(puntero - 1);
        }
        if bits[puntero].uso {
          bits := bits[puntero := bits[puntero].(uso := false)];
        }
        puntero := puntero + 1;
        i := i + 1;
      }
      return None;
    }

    /** Second loop of `buscarBit_0_1`; b is the bitmap the search began with. */
    method DesdeElPrincipio01(inicial: nat, ghost b: Bits) returns (r: Option<nat>)
      requires |b| == |bits| && inicial <= |b| && FirstRank(b, inicial, true, 0) >= |b| - inicial
      requires bits == Cleared(b, inicial, |b| - inicial)
      modifies this`puntero, this`bits
      ensures var k := FirstRank(b, inicial, true, 0);
              && bits == Cleared(b, inicial, k)
              && if k < |b| then r == Some(puntero) && puntero == k - (|b| - inicial) else r == None
    {
      hide Cleared, Rank, FirstRank, Visited;
      puntero := 0;
      ghost var n := |b| - inicial;
      SkipRank(b, inicial, true, 0, n);
      while puntero < inicial
        invariant |bits| == |b| && 0 <= puntero <= inicial
        invariant FirstRank(b, inicial, true, 0) == FirstRank(b, inicial, true, n + puntero)
        invariant bits == Cleared(b, inicial, n + puntero)
      {
        NextRank(b, inicial, true, n + puntero);
        ClearNext(b, inicial, n + puntero);
        if bits[puntero].modificado && !bits[puntero].uso {
          return Some(puntero);
        }
        if bits[puntero].uso {
          bits := bits[puntero := bits[puntero].(uso := false)];
        }
        puntero := puntero + 1;
      }
      return None;
    }

    /** `buscarBit_0_1`: as above, clearing the use bits it passes over. */
    method BuscarBit01() returns (r: Option<nat>)
      requires puntero <= |bits|
      modifies this`puntero, this`bits
      ensures Sweep(r, bits, puntero) == Sweep01(old(bits), old(puntero))
    {
      hide Cleared, Rank;
      var inicial := puntero;
      r := HastaElFinal01();
      if r == None {
        r := DesdeElPrincipio01(inicial, old(bits));
        if r == None {
          puntero := inicial;
        }
      }
    }

    /** `ejecutarSegundaVueltaClock` */
    method EjecutarSegundaVueltaClock() returns (r: Option<nat>)
      requires puntero <= |bits|
      modifies this`puntero, this`bits
      ensures var s := Sweep00(old(bits), old(puntero));
              Sweep(r, bits, puntero) == if s.frame.Some? then s else Sweep01(s.bits, s.puntero)
    {
      r := BuscarBit00();
      if r == None {
        r := BuscarBit01();
      }
    }

    /** The search half of `ejecutarClockModificado`. */
    method BuscarVictima() returns (r: Option<nat>)
      requires puntero <= |bits|
      modifies this`puntero, this`bits
      ensures Sweep(r, bits, puntero) == Victim(old(bits), old(puntero))
    {
      r := BuscarBit00();
      if r == None {
        r := BuscarBit01();
        if r == None {
          r := EjecutarSegundaVueltaClock();
        }
      }
    }

    /** `buscarPaginaSegunBit`: scan every page of every segment; the last match wins. */
    method BuscarPaginaSegunBit(f: nat) returns (r: Option<Ref>)
      ensures r == BuscarPagina(tabla, f, |tabla|)
    {
      r := None;
      for s := 0 to |tabla|
        invariant r == BuscarPagina(tabla, f, s)
      {
        var hallada: Option<nat> := None;
        for i := 0 to |tabla[s]|
          invariant hallada == BuscarEnSegmento(tabla[s], f, i)
          invariant r == if hallada.Some? then Some(Ref(s, hallada.value)) else BuscarPagina(tabla, f, s)
        {
          if tabla[s][i].presencia {
            if tabla[s][i].marco == Some(f) {
              hallada := Some(i);
              r := Some(Ref(s, i));
            }
          }
        }
      }
    }

    // ---- eviction and page fault --------------------------------------------

    /** `pasarASwap`: copy the frame to a free slot byte by byte and mark the slot. */
    method PasarASwap(f: nat) returns (k: Option<nat>)
      requires memoria != virtual && f < memoria.Length && |memoria[f]| == P
      requires |slots| == virtual.Length && forall j: nat | j < virtual.Length :: |virtual[j]| == P
      modifies this`slots, virtual
      ensures var j := FirstFree(old(slots), 0);
              if j == |old(slots)| then k == None && slots == old(slots) && virtual[..] == old(virtual[..])
              else k == Some(j) && slots == old(slots)[j := true] && virtual[..] == old(virtual[..])[j := memoria[f]]
    {
      k := BuscarBitLibreSwap();
      if k.Some? {
        var j := k.value;
        for i := 0 to P
          invariant slots == old(slots)
          invariant |virtual[j]| == P && forall o: nat | o < i :: virtual[j][o] == memoria[f][o]
          invariant forall z: nat | z < virtual.Length && z != j :: virtual[z] == old(virtual[z])
        {
          virtual[j] := virtual[j][i := memoria[f][i]];
        }
        assert virtual[j] == memoria[f];
        slots := slots[j := true];
      }
    }

    /** `ejecutarClockModificado`; None is the null dereference when no slot is free. */
    method EjecutarClockModificado() returns (r: Option<nat>)
      requires memoria != virtual && Formas(M())
      modifies this`bits, this`slots, this`puntero, this`tabla, this`desalojos, virtual
      ensures r.None? <==> Desalojar(old(M())).SinSwap?
      ensures r.Some? ==> Desalojar(old(M())) == Asignado(M(), r.value)
    {
      ClockVictim(bits, puntero);
      r := BuscarVictima();
      var f := r.value;
      var pagina := BuscarPaginaSegunBit(f);
      if pagina.Some? {
        var k := PasarASwap(f);
        if k == None {
          return None;
        }
        desalojos := desalojos + 1;
        var Ref(s, i) := pagina.value;
        tabla := SetPagina(tabla, s, i, tabla[s][i].(presencia := false, marco := None, swap := k));
        bits := bits[f := bits[f].(modificado := false, uso := true)];
      }
    }

    /** `asignarMarcoNuevo` */
    method AsignarMarcoNuevo() returns (r: Option<nat>)
      requires memoria != virtual && Formas(M())
      modifies this`bits, this`slots, this`puntero, this`tabla, this`desalojos, virtual
      ensures r.None? <==> Asignar(old(M())).SinSwap?
      ensures r.Some? ==> Asignar(old(M())) == Asignado(M(), r.value)
    {
      r := BuscarBitLibreMemoria();
      if r == None {
        assert M() == old(M());
        r := EjecutarClockModificado();
      }
    }

    /** The page fault of `obtenerPunteroAMarco`: the slot is let go of but stays marked. */
    method TraerDeSwap(s: nat, i: nat) returns (r: Option<nat>)
      requires memoria != virtual && Ownership(M()) && InTable(tabla, s, i) && !tabla[s][i].presencia
      modifies this`bits, this`slots, this`puntero, this`tabla, this`desalojos, this`entradas, memoria, virtual
      ensures var m := old(M()); var a := Asignar(EnCamino(m, s, i));
              && (r.None? <==> a.SinSwap?)
              && (r.Some? ==>
                    && r.value == a.marco < |a.m.memoria| && InTable(a.m.tabla, s, i)
                    && M() == Colocar(a.m, s, i, a.marco, m.virtual[m.tabla[s][i].swap.value]))
    {
      ghost var m := M();
      EnCaminoKeeps(m, s, i);
      hide OneOwner, Owned, Asignar;
      var copia := virtual[tabla[s][i].swap.value];
      tabla := SetPagina(tabla, s, i, tabla[s][i].(swap := None));
      assert M() == EnCamino(m, s, i);
      r := AsignarMarcoNuevo();
      if r == None {
        return;
      }
      AsignarKeeps(EnCamino(m, s, i), {Ref(s, i)});
      tabla := SetPagina(tabla, s, i, tabla[s][i].(marco := r, presencia := true));
      memoria[r.value] := copia;
      entradas := entradas + 1;
    }

    /** `obtenerPunteroAMarco`, which returns the frame of the page. */
    method ObtenerPunteroAMarco(s: nat, i: nat) returns (r: Option<nat>)
      requires memoria != virtual && Ownership(M()) && InTable(tabla, s, i)
      modifies this`bits, this`slots, this`puntero, this`tabla, this`desalojos, this`entradas, memoria, virtual
      ensures r.None? <==> Acceder(old(M()), s, i).None?
      ensures r.Some? ==>
                && Acceder(old(M()), s, i) == Some(M())
                && InTable(tabla, s, i) && tabla[s][i].presencia && tabla[s][i].marco == r && r.value < memoria.Length
    {
      hide OneOwner, Owned, Asignar, EnCamino;
      ghost var m := M();
      AccederKeeps(m, s, i);
      if !tabla[s][i].presencia {
        if tabla[s][i].swap.Some? {
          r := TraerDeSwap(s, i);
          if r == None {
            return;
          }
          EnCaminoKeeps(m, s, i);
          AsignarKeeps(EnCamino(m, s, i), {Ref(s, i)});
        } else {
          assert false;
        }
      }
      r := tabla[s][i].marco;
      bits := bits[r.value := bits[r.value].(uso := true)];
    }

    // ---- muse_cpy and muse_get ----------------------------------------------

    /** Access to a page, its bits set, and memcpy into its frame. */
    method CopiarEnPagina(s: nat, pg: nat, off: nat, d: Bytes) returns (ok: bool)
      requires memoria != virtual && Ownership(M()) && InTable(tabla, s, pg) && off + |d| <= P
      modifies this`bits, this`slots, this`puntero, this`tabla, this`desalojos, this`entradas, memoria, virtual
      ensures ok <==> Copiar(old(M()), s, pg, off, d).Some?
      ensures ok ==> Copiar(old(M()), s, pg, off, d) == Some(M())
    {
      hide OneOwner, Owned, Acceder;
      AccederKeeps(M(), s, pg);
      var r := ObtenerPunteroAMarco(s, pg);
      if r == None {
        return false;
      }
      var f := r.value;
      bits := bits[f := bits[f].(uso := true, modificado := true)];
      memoria[f] := Overwrite(memoria[f], off, d);
      return true;
    }

    /** The do-while of `muse_cpy`: whole pages of src from byte desde on, then the rest. */
    method CopiarResto(p: nat, pg: nat, src: Bytes, desde: nat) returns (ok: bool)
      requires memoria != virtual && Ownership(M())
      requires desde < |src| && CpyFits(M(), p, pg, 0, src[desde..])
      modifies this`bits, this`slots, this`puntero, this`tabla, this`desalojos, this`entradas, memoria, virtual
      ensures var r := CpyDesde(old(M()), p, pg, 0, src[desde..]);
              ok == r.Some? && (ok ==> r == Some(M()))
    {
      hide Copiar, Ownership, Fits;
      ghost var m := M();
      var numPagina: nat := pg;
      var loQuePuedo := desde;
      while loQuePuedo < |src|
        invariant desde <= loQuePuedo <= |src|
        invariant loQuePuedo < |src| ==>
                    && CpyFits(M(), p, numPagina, 0, src[loQuePuedo..])
                    && CpyDesde(m, p, pg, 0, src[desde..]) == CpyDesde(M(), p, numPagina, 0, src[loQuePuedo..])
        invariant loQuePuedo == |src| ==> CpyDesde(m, p, pg, 0, src[desde..]) == Some(M())
      {
        ghost var rest := src[loQuePuedo..];
        var loQueFalta := |src| - loQuePuedo;
        CpyFitsPage(M(), p, numPagina, 0, rest);
        if loQueFalta >= P {
          if loQueFalta > P {
            CpyFitsNext(M(), p, numPagina, 0, rest);
            assert rest[P..] == src[loQuePuedo + P..];
          }
          assert rest[..P] == src[loQuePuedo..loQuePuedo + P];
          assert loQueFalta == P ==> rest[..P] == rest;
          ok := CopiarEnPagina(p, numPagina, 0, src[loQuePuedo..loQuePuedo + P]);
          if !ok {
            return;
          }
          loQuePuedo := loQuePuedo + P;
          numPagina := numPagina + 1;
        } else {
          ok := CopiarEnPagina(p, numPagina, 0, src[loQuePuedo..]);
          return;
        }
      }
      ok := true;
    }

    /** The copy of `muse_cpy`: up to the end of the first page, then the rest. */
    method CopiarTramos(p: nat, dst: nat, src: Bytes) returns (ok: bool)
      requires memoria != virtual && Ownership(M())
      requires CpyFits(M(), p, PageOf(dst, P), OffsetOf(dst, P), src)
      modifies this`bits, this`slots, this`puntero, this`tabla, this`desalojos, this`entradas, memoria, virtual
      ensures var r := CpyDesde(old(M()), p, PageOf(dst, P), OffsetOf(dst, P), src);
              ok == r.Some? && (ok ==> r == Some(M()))
    {
      hide Copiar, OneOwner, Owned, Fits;
      PageOfIsDiv(dst, P);
      var numPagina, sobrante := dst / P, dst % P;
      var loQuePuedo := P - sobrante;
      CpyFitsPage(M(), p, numPagina, sobrante, src);
      if |src| < loQuePuedo {
        ok := CopiarEnPagina(p, numPagina, sobrante, src);
        return;
      }
      if |src| > loQuePuedo { CpyFitsNext(M(), p, numPagina, sobrante, src); }
      assert |src| == loQuePuedo ==> src[..loQuePuedo] == src;
      ok := CopiarEnPagina(p, numPagina, sobrante, src[..loQuePuedo]);
      if ok && loQuePuedo < |src| {
        ok := CopiarResto(p, numPagina + 1, src, loQuePuedo);
      }
    }

    /** `muse_cpy` */
    method MuseCpy(p: nat, dst: nat, src: Bytes, ghost total: nat) returns (r: Codigo)
      requires memoria != virtual && Inv(Vista(), total)
      modifies this`bits, this`slots, this`puntero, this`tabla, this`desalojos, this`entradas, memoria, virtual
      ensures match Cpy(old(Vista()), p, dst, src, total)
              case Copiado(s) => r == Valor(0) && Vista() == s
              case CpyError => r == MenosUno && Vista() == old(Vista())
              case CaidaCpy => r == Caida
    {
      hide Ownership, CpyDesde, CpyFits;
      if p >= |heaps| || heaps[p] == None || dst >= heaps[p].value.tamanio {
        return MenosUno;
      }
      var bs := heaps[p].value.bloques;
      var i := 0;
      while i < |bs| && !(!bs[i].libre && bs[i].dir + HM <= dst < Fin(bs[i]))
        invariant 0 <= i <= |bs|
        invariant BloqueDe(bs, dst, 0) == BloqueDe(bs, dst, i)
      {
        i := i + 1;
      }
      if i == |bs| {
        return MenosUno;
      }
      if dst + |src| > heaps[p].value.tamanio {
        return Caida;
      }
      CpyInside(Vista(), p, dst, src, total);
      var ok := CopiarTramos(p, dst, src);
      r := if ok then Valor(0) else Caida;
    }

    /** The page loop of `muse_get`. */
    method LeerPaginas(p: nat, pagInicial: nat, cant: nat) returns (ok: bool, bloquesote: Bytes)
      requires memoria != virtual && Ownership(M()) && p < |tabla| && pagInicial + cant <= |tabla[p]|
      modifies this`bits, this`slots, this`puntero, this`tabla, this`desalojos, this`entradas, memoria, virtual
      ensures var r := GetDesde(old(M()), p, pagInicial, cant);
              ok == r.Some? && (ok ==> r == Some((M(), bloquesote)))
    {
      hide OneOwner, Owned, Acceder;
      ghost var m := M();
      var i := 0;
      bloquesote := [];
      PrefijoEmpty(GetDesde(m, p, pagInicial, cant));
      while i < cant
        invariant 0 <= i <= cant && Ownership(M()) && p < |tabla| && pagInicial + cant <= |tabla[p]|
        invariant GetDesde(m, p, pagInicial, cant) == Prefijo(bloquesote, GetDesde(M(), p, pagInicial + i, cant - i))
      {
        AccederKeeps(M(), p, pagInicial + i);
        var f := ObtenerPunteroAMarco(p, pagInicial + i);
        if f == None {
          return false, [];
        }
        ghost var resto := GetDesde(M(), p, pagInicial + i + 1, cant - i - 1);
        PrefijoAssoc(bloquesote, memoria[f.value], resto);
        bloquesote := bloquesote + memoria[f.value];
        i := i + 1;
      }
      assert bloquesote + [] == bloquesote;
      ok := true;
    }

    /** `muse_get`; None is the case that returns 0 without copying anything. */
    method MuseGet(p: nat, src: nat, n: nat, ghost total: nat) returns (r: Codigo, dst: Option<Bytes>)
      requires memoria != virtual && Inv(Vista(), total)
      modifies this`bits, this`slots, this`puntero, this`tabla, this`desalojos, this`entradas, memoria, virtual
      ensures match Get(old(Vista()), p, src, n, total)
              case Leido(s, datos) => r == Valor(0) && dst == Some(datos) && Vista() == s
              case SinCopia => r == Valor(0) && dst == None && Vista() == old(Vista())
              case GetError => r == MenosUno && Vista() == old(Vista())
              case CaidaGet => r == Caida
    {
      hide Ownership, GetDesde, ReadBack, SameContents;
      dst := None;
      if p >= |heaps| || heaps[p] == None || src >= heaps[p].value.tamanio {
        return MenosUno, None;
      }
      if src + n > heaps[p].value.tamanio {
        return Valor(0), None;
      }
      GetInside(Vista(), p, src, n, total);
      PositiveP(M());
      RangePages(src, n, |tabla[p]|, P);
      PageOfIsDiv(src, P);
      PageReads(M(), p, src, n);
      var pagInicial, offset := src / P, src % P;
      var pagFinal := Techo(src + n, P);
      var ok, bloquesote := LeerPaginas(p, pagInicial, pagFinal - pagInicial);
      if !ok {
        return Caida, None;
      }
      return Valor(0), Some(bloquesote[offset..offset + n]);
    }

    // ---- header writes ------------------------------------------------------

    /** Access to a page and memcpy into its frame, its modified bit as it was. */
    method EstamparEnPagina(s: nat, pg: nat, off: nat, d: Bytes) returns (ok: bool)
      requires memoria != virtual && Ownership(M()) && InTable(tabla, s, pg) && off + |d| <= P
      modifies this`bits, this`slots, this`puntero, this`tabla, this`desalojos, this`entradas, memoria, virtual
      ensures var r := Estampar(old(M()), s, pg, off, d);
              ok == r.Some? && (ok ==> r == Some(M()))
    {
      hide OneOwner, Owned, Acceder;
      AccederKeeps(M(), s, pg);
      var r := ObtenerPunteroAMarco(s, pg);
      if r == None {
        return false;
      }
      var f := r.value;
      memoria[f] := Overwrite(memoria[f], off, d);
      return true;
    }

    /** `sustituirHeapMetadata` for a header at dir; d is what its copies store, which is not the
        header alone when it is cut. */
    method SustituirHeapMetadata(p: nat, dir: nat, d: Bytes) returns (ok: bool)
      requires memoria != virtual && Ownership(M()) && CabeceraFits(M(), p, dir, |d|)
      modifies this`bits, this`slots, this`puntero, this`tabla, this`desalojos, this`entradas, memoria, virtual
      ensures var r := Sustituir(old(M()), p, dir, d);
              ok == r.Some? && (ok ==> r == Some(M()))
    {
      hide Ownership, Estampar;
      PageOfIsDiv(dir, P);
      var offsetMarco, pagina := dir % P, dir / P;
      if offsetMarco + |d| > P {
        var tamanioACopiar := P - offsetMarco;
        EstamparShape(M(), p, dir, d[..tamanioACopiar]);
        ok := EstamparEnPagina(p, pagina, offsetMarco, d[..tamanioACopiar]);
        if !ok {
          return;
        }
        ok := EstamparEnPagina(p, pagina + 1, 0, d[tamanioACopiar..]);
      } else {
        ok := EstamparEnPagina(p, pagina, offsetMarco, d);
      }
    }

    // ---- page creation and release ------------------------------------------

    /** The page-creation loop of a growth in `muse_alloc`: frames up to the index TAMANIO_MEMORIA /
        TAMANIO_PAGINA, later pages straight in swap without marking the slot. */
    method CrearPaginasDe(p: nat, num: nat, n: nat) returns (ok: bool)
      requires memoria != virtual && Ownership(M()) && p < |tabla|
      modifies this`bits, this`slots, this`puntero, this`tabla, this`desalojos, virtual
      ensures var r := CrearPaginas(old(M()), p, num, n);
              ok == r.Some? && (ok ==> r == Some(M()))
    {
      hide Ownership, AgregarPagina, PaginasCreadas, AgregarVarias;
      var marcos := |bits|;
      var enMarco := if n <= marcos + 1 then n else marcos + 1;
      ok := CrearEnMarcos(p, num, enMarco);
      if !ok {
        return;
      }
      AgregarVariasKeeps(old(M()), p, num, enMarco);
      ghost var m1 := M();
      CreadasShape(old(M()), m1, p, num, enMarco);
      var i := enMarco;
      while i < n
        invariant enMarco <= i <= n && p < |tabla|
        invariant PonerEnSwap(m1, p, num + enMarco, n - enMarco) == PonerEnSwap(M(), p, num + i, n - i)
      {
        var k := BuscarBitLibreSwap();
        tabla := tabla[p := tabla[p] + [Pagina(num + i, false, None, k)]];
        i := i + 1;
      }
    }

    /** The turns of that loop that find a frame. */
    method CrearEnMarcos(p: nat, num: nat, n: nat) returns (ok: bool)
      requires memoria != virtual && Ownership(M()) && p < |tabla|
      modifies this`bits, this`slots, this`puntero, this`tabla, this`desalojos, virtual
      ensures var r := AgregarVarias(old(M()), p, num, n);
              ok == r.Some? && (ok ==> r == Some(M()))
    {
      hide OneOwner, Owned, AgregarPagina;
      ghost var m := M();
      var i := 0;
      while i < n
        invariant 0 <= i <= n && Ownership(M()) && p < |tabla|
        invariant AgregarVarias(m, p, num, n) == AgregarVarias(M(), p, num + i, n - i)
      {
        AgregarKeeps(M(), p, num + i);
        ok := AgregarUna(p, num + i);
        if !ok {
          return;
        }
        i := i + 1;
      }
      ok := true;
    }

    /** The page-creation loop of a new segment: the pages are kept in a list of their own, and
        join the table after the last one. */
    method CrearPaginasNuevas(p: nat, n: nat) returns (ok: bool)
      requires memoria != virtual && Formas(M()) && p < |tabla|
      modifies this`bits, this`slots, this`puntero, this`tabla, this`desalojos, virtual
      ensures var r := CrearTarde(old(M()), p, 0, n);
              ok == r.Some? && (ok ==> r == Some(M()))
    {
      hide Marcos, Formas, Hechas;
      var enMarco := if n <= |bits| + 1 then n else |bits| + 1;
      var paginas: seq<Pagina>;
      ghost var fs: seq<nat>;
      ok, paginas, fs := HacerPaginas(enMarco);
      if !ok {
        return;
      }
      ghost var m1 := M();
      assert Marcos(old(M()), enMarco).value.0.tabla == tabla;
      var i := enMarco;
      while i < n
        invariant enMarco <= i <= n && M() == m1
        invariant paginas == Hechas(0, fs, SlotLibre(slots), i - enMarco)
      {
        var k := BuscarBitLibreSwap();
        HechasMas(0, fs, k, i - enMarco);
        paginas := paginas + [Pagina(i, false, None, k)];
        i := i + 1;
      }
      tabla := tabla[p := tabla[p] + paginas];
    }

    /** The turns of that loop that find a frame. */
    method HacerPaginas(n: nat) returns (ok: bool, paginas: seq<Pagina>, ghost fs: seq<nat>)
      requires memoria != virtual && Formas(M())
      modifies this`bits, this`slots, this`puntero, this`tabla, this`desalojos, virtual
      ensures ok == Marcos(old(M()), n).Some?
      ensures ok ==>
                |fs| == n && Marcos(old(M()), n) == Some((M(), fs)) && paginas == Hechas(0, fs, SlotLibre(slots), 0)
    {
      hide MarcoTarde, Hechas, SlotLibre;
      ghost var m := M();
      paginas, fs := [], [];
      HechasNada(0);
      var i := 0;
      while i < n
        invariant 0 <= i <= n && Marcos(m, i) == Some((M(), fs))
        invariant paginas == Hechas(0, fs, None, 0)
      {
        MarcosStop(m, i + 1, n);
        var f := MarcoParaNueva();
        if f == None {
          return false, [], [];
        }
        HechasOtra(0, fs, f.value);
        paginas, fs := paginas + [Pagina(i, true, f, None)], fs + [f.value];
        i := i + 1;
      }
      ok := true;
      HechasSlot(0, fs, SlotLibre(slots));
    }

    method MarcoParaNueva() returns (f: Option<nat>)
      requires memoria != virtual && Formas(M())
      modifies this`bits, this`slots, this`puntero, this`tabla, this`desalojos, virtual
      ensures f.None? <==> MarcoTarde(old(M())).SinSwap?
      ensures f.Some? ==> MarcoTarde(old(M())) == Asignado(M(), f.value)
    {
      hide Asignar;
      ghost var m := M();
      f := AsignarMarcoNuevo();
      if f.Some? {
        AsignarFormas(m);
        bits := bits[f.value := bits[f.value].(uso := true, modificado := true)];
      }
    }

    method AgregarUna(p: nat, num: nat) returns (ok: bool)
      requires memoria != virtual && Ownership(M()) && p < |tabla|
      modifies this`bits, this`slots, this`puntero, this`tabla, this`desalojos, virtual
      ensures var r := AgregarPagina(old(M()), p, num);
              ok == r.Some? && (ok ==> r == Some(M()))
    {
      hide OneOwner, Owned, Asignar;
      ghost var m := M();
      var f := AsignarMarcoNuevo();
      if f == None {
        return false;
      }
      AsignarKeeps(m, {});
      bits := bits[f.value := bits[f.value].(uso := true, modificado := true)];
      tabla := tabla[p := tabla[p] + [Pagina(num, true, f, None)]];
      ok := true;
    }

    /** `destruirPagina`, with the page taken off its list. */
    method DestruirPagina(p: nat, i: nat)
      requires InTable(tabla, p, i) && Colocada(M(), tabla[p][i])
      modifies this`bits, this`slots, this`tabla
      ensures M() == Destruir(old(M()), p, i)
    {
      var pag := tabla[p][i];
      tabla := tabla[p := tabla[p][..i] + tabla[p][i + 1..]];
      if pag.marco.Some? {
        bits := bits[pag.marco.value := bits[pag.marco.value].(ocupado := false)];
      }
      if pag.swap.Some? {
        slots := slots[pag.swap.value := false];
      }
    }

    /** The page loop of `merge`: destroy the pages from position k on and count them. */
    method LiberarPaginas(p: nat, k: nat) returns (acumulador: nat)
      requires Ownership(M()) && p < |tabla|
      modifies this`bits, this`slots, this`tabla
      ensures M() == LiberarDesde(old(M()), p, k) && Ownership(M()) && p < |tabla|
      ensures acumulador == if k < |old(tabla)[p]| then |old(tabla)[p]| - k else 0
      ensures |tabla[p]| + acumulador == |old(tabla)[p]|
    {
      hide OneOwner, Owned;
      ghost var m := M();
      acumulador := 0;
      while k < |tabla[p]|
        invariant p < |tabla| && Ownership(M())
        invariant LiberarDesde(m, p, k) == LiberarDesde(M(), p, k)
        invariant |tabla[p]| + acumulador == |m.tabla[p]|
        invariant k < |m.tabla[p]| ==> k <= |tabla[p]|
        invariant k >= |m.tabla[p]| ==> acumulador == 0
        decreases |tabla[p]|
      {
        DestruirDuenios(M(), p, k);
        DestruirPagina(p, k);
        acumulador := acumulador + 1;
      }
    }

    // ---- merge and muse_free ------------------------------------------------

    /** Release the pages of program p from position k on and give their bytes back. */
    method CortarDesde(p: nat, k: nat)
      requires Ownership(M()) && p < |tabla|
      modifies this`bits, this`slots, this`tabla, this`espacio
      ensures M() == LiberarDesde(old(M()), p, k) && Ownership(M())
      ensures p < |tabla| && |tabla[p]| == if k < |old(tabla)[p]| then k else |old(tabla)[p]|
      ensures espacio + Span(|tabla[p]|, P) == old(espacio) + Span(|old(tabla)[p]|, P)
    {
      hide Ownership, LiberarDesde;
      var acumulador := LiberarPaginas(p, k);
      SpanIsTimes(acumulador, P);
      SpanAdd(|tabla[p]|, acumulador, P);
      espacio := espacio + acumulador * P;
    }

    /** One turn of the loop of `merge`. */
    method PasoDeMerge(p: nat, contador: nat)
      requires Ownership(M()) && p < |tabla| && p < |heaps| && heaps[p].Some? && 0 < P
      requires contador < |heaps[p].value.bloques| && heaps[p].value.paginas == |tabla[p]|
      modifies this`bits, this`slots, this`tabla, this`heaps, this`espacio
      ensures var h, h1 := old(heaps)[p].value, Heap.Paso(old(heaps)[p].value, contador, P);
              && heaps == old(heaps)[p := Some(h1)]
              && M() == LiberarDesde(old(M()), p, h1.paginas) && Ownership(M())
              && p < |tabla| && h1.paginas == |tabla[p]|
              && espacio + Span(h1.paginas, P) == old(espacio) + Span(h.paginas, P)
    {
      hide Ownership, LiberarDesde, Span, PageOf, OffsetOf, Quitar;
      var seg := heaps[p].value;
      var bs := seg.bloques;
      var hm := bs[contador];
      LiberarNada(M(), p, |tabla[p]|);
      if hm.libre && |bs| == 1 {
        CortarDesde(p, 0);
        heaps := heaps[p := Some(Segmento([], 0, 0))];
      } else if hm.libre && contador == |bs| - 1 {
        var anterior := bs[contador - 1];
        if anterior.libre {
          PageOfIsDiv(anterior.dir + HM, P);
          PageOfIsDiv(anterior.dir, P);
          var pagAnterior := (anterior.dir + HM) / P;
          LiberarNada(M(), p, pagAnterior + 1);
          CortarDesde(p, pagAnterior + 1);
          var offsetAnterior := anterior.dir % P;
          bs := bs[contador - 1 := anterior.(espacio := P - offsetAnterior - HM)];
          SpanIsTimes(|tabla[p]|, P);
          heaps := heaps[p := Some(Segmento(Quitar(bs, hm.indice), |tabla[p]|, |tabla[p]| * P))];
        }
      } else if hm.libre && contador > 0 {
        var anterior := bs[contador - 1];
        if anterior.libre {
          bs := bs[contador - 1 := anterior.(espacio := anterior.espacio + HM + hm.espacio)];
          heaps := heaps[p := Some(seg.(bloques := Quitar(bs, hm.indice)))];
        }
      }
    }

    /** `merge` */
    method MergeSegmento(p: nat)
      requires Ownership(M()) && p < |tabla| && p < |heaps| && heaps[p].Some? && 0 < P
      requires heaps[p].value.paginas == |tabla[p]|
      modifies this`bits, this`slots, this`tabla, this`heaps, this`espacio
      ensures var h := old(heaps)[p].value; var h1 := Merge(h, |h.bloques|, P);
              && heaps == old(heaps)[p := Some(h1)]
              && M() == MergeMem(old(M()), h, p, |h.bloques|)
              && espacio + Span(h1.paginas, P) == old(espacio) + Span(h.paginas, P)
    {
      hide Ownership, Heap.Paso, LiberarDesde;
      ghost var m, h := M(), heaps[p].value;
      var contador := |heaps[p].value.bloques| - 1;
      while contador >= 0
        invariant -1 <= contador < |h.bloques|
        invariant Ownership(M()) && p < |tabla| && |heaps| == |old(heaps)| && heaps[p].Some?
        invariant heaps == old(heaps)[p := heaps[p]]
        invariant contador < |heaps[p].value.bloques| && heaps[p].value.paginas == |tabla[p]|
        invariant Merge(h, |h.bloques|, P) == Merge(heaps[p].value, contador + 1, P)
        invariant MergeMem(m, h, p, |h.bloques|) == MergeMem(M(), heaps[p].value, p, contador + 1)
        invariant espacio + Span(heaps[p].value.paginas, P) == old(espacio) + Span(h.paginas, P)
        decreases contador + 1
      {
        PasoLength(heaps[p].value, contador, P);
        PasoDeMerge(p, contador);
        contador := contador - 1;
      }
    }

    /** The rest of `muse_free` once it has found block j. */
    method SoltarBloque(p: nat, j: nat)
      requires Ownership(M()) && p < |tabla| && p < |heaps| && heaps[p].Some? && 0 < P
      requires j < |heaps[p].value.bloques| && heaps[p].value.paginas == |tabla[p]|
      modifies this`bits, this`slots, this`tabla, this`heaps, this`espacio
      ensures var h := old(heaps)[p].value; var h1 := Free(h, j, P);
              && heaps == old(heaps)[p := Some(h1)]
              && M() == MergeMem(old(M()), h.(bloques := Marcar(h.bloques, j)), p, |h.bloques|)
              && h1.paginas <= h.paginas && espacio == old(espacio) + Span(h.paginas - h1.paginas, P)
    {
      hide Ownership, MergeMem, Merge, Renumerar, Recortada;
      var h := heaps[p].value;
      heaps := heaps[p := Some(h.(bloques := h.bloques[j := h.bloques[j].(libre := true)]))];
      assert heaps[p].value == h.(bloques := Marcar(h.bloques, j));
      MergeMemKeeps(M(), heaps[p].value, p, |h.bloques|);
      ghost var h1 := Merge(heaps[p].value, |h.bloques|, P);
      RecortadaLength(M(), MergeMem(M(), heaps[p].value, p, |h.bloques|), p, h1.paginas);
      MergeSegmento(p);
      RenumerarBloques(p);
      SpanAdd(h1.paginas, h.paginas - h1.paginas, P);
    }

    /** `muse_free` */
    method MuseFree(p: nat, dir: nat, ghost total: nat) returns (r: Codigo)
      requires Inv(Vista(), total)
      modifies this`bits, this`slots, this`tabla, this`heaps, this`espacio
      ensures match Liberar(old(Vista()), p, dir)
              case Liberado(s) => r == Valor(0) && Vista() == s
              case NoLiberado => r == MenosUno && Vista() == old(Vista())
    {
      hide Ownership, Tiled, MergeMem, Free;
      if p >= |heaps| || heaps[p] == None || dir >= heaps[p].value.tamanio {
        return MenosUno;
      }
      var bs := heaps[p].value.bloques;
      assert SegmentoOk(heaps[p], |tabla[p]|, P);
      PositiveP(M());
      var j := 0;
      while j < |bs| && bs[j].dir + HM != dir
        invariant 0 <= j <= |bs|
        invariant BuscarBloque(bs, dir, 0) == BuscarBloque(bs, dir, j)
      {
        j := j + 1;
      }
      if j == |bs| {
        return MenosUno;
      }
      SoltarBloque(p, j);
      r := Valor(0);
    }

    /** The renumbering loop of `muse_free`. */
    method RenumerarBloques(p: nat)
      requires p < |heaps| && heaps[p].Some?
      modifies this`heaps
      ensures var h := old(heaps)[p].value;
              heaps == old(heaps)[p := Some(h.(bloques := Renumerar(h.bloques)))]
    {
      var h := heaps[p].value;
      var bs := h.bloques;
      for i := 0 to |bs|
        invariant |bs| == |h.bloques|
        invariant forall k: nat | k < |bs| :: bs[k] == if k < i then h.bloques[k].(indice := k) else h.bloques[k]
      {
        bs := bs[i := bs[i].(indice := i)];
      }
      assert bs == Renumerar(h.bloques);
      heaps := heaps[p := Some(h.(bloques := bs))];
    }

    // ---- muse_alloc ---------------------------------------------------------

    /** The branch of `muse_alloc` that creates the heap segment of a program. */
    method NuevoSegmento(p: nat, t: nat) returns (r: Codigo)
      requires memoria != virtual && Ownership(M()) && p < |heaps| == |tabla|
      modifies this`bits, this`slots, this`puntero, this`tabla, this`desalojos, this`heaps, this`espacio, virtual
      ensures match AllocNuevo(old(Vista()), p, t)
              case Direccion(s, dir) => r == Valor(dir) && Vista() == s
              case SinLugar(s) => r == MenosUno && Vista() == s
              case CaidaAlloc => r == Caida
    {
      hide OneOwner, Owned, CrearTarde;
      var paginas := CalcularFramesNecesarios(t + 2 * HM, P);
      SpanIsTimes(paginas, P);
      if espacio < paginas * P {
        return MenosUno;
      }
      espacio := espacio - paginas * P;
      var ok := CrearPaginasNuevas(p, paginas);
      if !ok {
        return Caida;
      }
      var libre := paginas * P - t - 2 * HM;
      var primero := InfoHeap(0, t, false, 0);
      var segundo := InfoHeap(t + HM, libre, true, 1);
      heaps := heaps[p := Some(Segmento([primero, segundo], paginas, paginas * P))];
      r := Valor(HM);
    }

    /** The branch that cuts the free block k. */
    method PartirBloque(p: nat, t: nat, k: nat) returns (r: Codigo)
      requires p < |heaps| && heaps[p].Some? && k < |heaps[p].value.bloques|
      modifies this`heaps
      ensures var a := AllocSplit(old(Vista()), p, t, k); a.Direccion? && r == Valor(a.dir) && Vista() == a.s
    {
      var h := heaps[p].value;
      var b := h.bloques[k];
      var siguiente := InfoHeap(b.dir + HM + t, b.espacio - t - HM, true, b.indice + 1);
      var bs := h.bloques[k := b.(espacio := t, libre := false)];
      heaps := heaps[p := Some(h.(bloques := Insertar(bs, b.indice + 1, siguiente)))];
      r := Valor(b.dir + HM);
    }

    /** The branch that grows the last block, which is marked used before the space check. */
    method Agrandar(p: nat, t: nat) returns (r: Codigo)
      requires memoria != virtual && Ownership(M()) && p < |heaps| == |tabla| && heaps[p].Some?
      requires var bs := heaps[p].value.bloques; bs != [] && bs[|bs| - 1].espacio <= t + HM
      modifies this`bits, this`slots, this`puntero, this`tabla, this`desalojos, this`heaps, this`espacio, virtual
      ensures match AllocGrow(old(Vista()), p, t)
              case Direccion(s, dir) => r == Valor(dir) && Vista() == s
              case SinLugar(s) => r == MenosUno && Vista() == s
              case CaidaAlloc => r == Caida
    {
      hide OneOwner, Owned, CrearPaginas;
      var h := heaps[p].value;
      var n := |h.bloques| - 1;
      var ultimo := h.bloques[n];
      heaps := heaps[p := Some(h.(bloques := h.bloques[n := ultimo.(libre := false)]))];
      var paginas := CalcularFramesNecesarios(t - ultimo.espacio + HM, P);
      SpanIsTimes(paginas, P);
      var tamanioEntero := paginas * P;
      if espacio < tamanioEntero {
        return MenosUno;
      }
      espacio := espacio - tamanioEntero;
      var libre := tamanioEntero - t - HM + ultimo.espacio;
      var ok := CrearPaginasDe(p, |tabla[p]|, paginas);
      if !ok {
        return Caida;
      }
      var nuevo := InfoHeap(ultimo.dir + HM + t, libre, true, ultimo.indice + 1);
      var bs := h.bloques[n := ultimo.(espacio := t, libre := false)];
      heaps := heaps[p := Some(Segmento(Insertar(bs, ultimo.indice + 1, nuevo),
                                        h.paginas + paginas, h.tamanio + tamanioEntero))];
      r := Valor(ultimo.dir + HM);
    }

    /** `muse_alloc` */
    method MuseAlloc(p: nat, t: nat, ghost total: nat) returns (r: Codigo)
      requires memoria != virtual && Inv(Vista(), total)
      modifies this`bits, this`slots, this`puntero, this`tabla, this`desalojos, this`heaps, this`espacio, virtual
      ensures match Alloc(old(Vista()), p, t, total)
              case Direccion(s, dir) => r == Valor(dir) && Vista() == s
              case SinLugar(s) => r == MenosUno && Vista() == s
              case CaidaAlloc => r == Caida
    {
      hide Ownership, AllocNuevo, AllocSplit, AllocGrow;
      if espacio < t + HM || p >= |heaps| {
        return MenosUno;
      }
      if heaps[p] == None {
        r := NuevoSegmento(p, t);
        return;
      }
      var bs := heaps[p].value.bloques;
      var k := 0;
      while k < |bs| && !(bs[k].libre && bs[k].espacio >= t + HM)
        invariant 0 <= k <= |bs|
        invariant FirstFit(bs, t + HM, 0) == FirstFit(bs, t + HM, k)
      {
        k := k + 1;
      }
      if k < |bs| {
        r := PartirBloque(p, t, k);
      } else if bs == [] {
        r := Caida;
      } else {
        assert SegmentoOk(heaps[p], |tabla[p]|, P);
        r := Agrandar(p, t);
      }
    }
  }

  /** The outcome of a read loop with more bytes read before it. */
  function Prefijo(antes: Bytes, r: Option<(Mem, Bytes)>): Option<(Mem, Bytes)> {
    if r.None? then None else Some((r.value.0, antes + r.value.1))
  }

  lemma PrefijoEmpty(r: Option<(Mem, Bytes)>)
    ensures Prefijo([], r) == r
  {
    if r.Some? {
      assert [] + r.value.1 == r.value.1;
    }
  }

  lemma PrefijoAssoc(a: Bytes, b: Bytes, r: Option<(Mem, Bytes)>)
    ensures Prefijo(a, Prefijo(b, r)) == Prefijo(a + b, r)
  {
    if r.Some? {
      assert a + (b + r.value.1) == (a + b) + r.value.1;
    }
  }

  lemma HechasNada(num: nat)
    ensures Hechas(num, [], None, 0) == []
  {
  }

  lemma HechasOtra(num: nat, fs: seq<nat>, f: nat)
    ensures Hechas(num, fs + [f], None, 0) == Hechas(num, fs, None, 0) + [Pagina(num + |fs|, true, Some(f), None)]
  {
  }

  lemma HechasSlot(num: nat, fs: seq<nat>, k: Option<nat>)
    ensures Hechas(num, fs, k, 0) == Hechas(num, fs, None, 0)
  {
  }

  lemma HechasMas(num: nat, fs: seq<nat>, k: Option<nat>, n: nat)
    ensures Hechas(num, fs, k, n + 1) == Hechas(num, fs, k, n) + [Pagina(num + |fs| + n, false, None, k)]
  {
  }

  lemma CreadasShape(m: Mem, m': Mem, s: nat, num: nat, n: nat)
    requires PaginasCreadas(m, m', s, num, n)
    ensures s < |m'.tabla|
  {
  }

  lemma LiberarNada(m: Mem, s: nat, k: nat)
    requires Ownership(m) && s < |m.tabla|
    ensures |m.tabla[s]| <= k ==> LiberarDesde(m, s, k) == m == LiberarDesde(m, s, |m.tabla[s]|)
  {
  }

  lemma PasoLength(h: Segmento, c: nat, P: nat)
    requires c < |h.bloques| && 0 < P
    ensures c <= |Heap.Paso(h, c, P).bloques|
  {
  }

  lemma RecortadaLength(m: Mem, m': Mem, s: nat, k: nat)
    requires Recortada(m, m', s, k)
    ensures k <= |m.tabla[s]|
  {
  }
}
