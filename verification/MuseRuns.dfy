/** Whole runs of the memory server: invariants, flat memory, and the space law. */
module MuseRuns {
  import opened Options
  import opened Clock
  import opened Pages
  import opened Paging
  import opened PageLife
  import opened FlatMemory
  import opened LateListing
  import opened HeaderWrites
  import opened Heap
  import opened Coalesce
  import opened StaleIndices
  import opened Muse
  import opened MuseInvariant

  datatype Evento =
    | Conecta
    | Pide(p: nat, t: nat)
    | Suelta(p: nat, d: nat)
    | Escribe(p: nat, dst: nat, datos: Bytes)
    | Lee(p: nat, src: nat, n: nat)
    | Cabecera(p: nat, dst: nat, datos: Bytes)

  /** Flat memory as a client sees it: the byte last written at each live address, by a copy or
      by a header write of the server (`Cabecera`) that reaches it. */
  type Sombra = map<(nat, nat), byte>

  // ---- one step -------------------------------------------------------------

  /** What muse_alloc needs of the state to keep the invariant: no frame is handed out twice to
      the pages of a new segment; the block it will cut is numbered by its position; a growth
      finds space and adds no more than one page more than there are frames. */
  ghost predicate PideBien(s: Servidor, p: nat, t: nat, total: nat)
    requires Inv(s, total)
  {
    hide Ownership;
    PositiveP(s.mem);
    if s.espacio < t + HM || p >= |s.heaps| then true
    else if s.heaps[p].None? then
      var n := FramesNecesarios(t + 2 * HM, s.mem.P);
      OwnershipFormas(s.mem);
      s.espacio < Span(n, s.mem.P) || MarcosDistintos(s.mem, n)
    else
      var bs := s.heaps[p].value.bloques;
      var k := FirstFit(bs, t + HM, 0);
      if k < |bs| then bs[k].indice == k
      else if bs == [] then true
      else
        NoFitGrows(s, p, t, total);
        var n := PaginasParaCrecer(s, p, t);
        Span(n, s.mem.P) <= s.espacio && bs[|bs| - 1].indice == |bs| - 1 && n <= |s.mem.bits| + 1
  }

  /** Block k is free and takes t bytes and a header. */
  predicate Admite(bs: Bloques, k: nat, t: nat) {
    k < |bs| && bs[k].libre && bs[k].espacio >= t + HM
  }

  /** When muse_alloc answers -1: the bytes and one header are not there; there is no such
      program; the pages of its first segment are not there; or no free block has room, there is a
      last block, and the pages that lengthen it by what is missing are not there. */
  ghost predicate Rechaza(s: Servidor, p: nat, t: nat)
    requires 0 < s.mem.P
  {
    || s.espacio < t + HM
    || p >= |s.heaps|
    || (s.heaps[p].None? && s.espacio < Span(FramesNecesarios(t + 2 * HM, s.mem.P), s.mem.P))
    || (s.heaps[p].Some?
        && var bs := s.heaps[p].value.bloques;
           && bs != [] && (forall k: nat | k < |bs| :: !Admite(bs, k, t))
           && bs[|bs| - 1].espacio <= t + HM
           && s.espacio < Span(FramesNecesarios(t + HM - bs[|bs| - 1].espacio, s.mem.P), s.mem.P))
  }

  lemma AllocKeeps(s: Servidor, p: nat, t: nat, total: nat)
    requires Inv(s, total)
    ensures var r := Alloc(s, p, t, total);
            && (r.Direccion? || r.SinLugar? ==> (Inv(r.s, total) <==> PideBien(s, p, t, total)))
            && (r.Direccion? && PideBien(s, p, t, total) ==> r.dir >= HM && Extended(s, p, r.s, r.dir - HM, t))
            && (r.SinLugar? && PideBien(s, p, t, total) ==> r.s == s)
  {
    hide Ownership, AllocNuevo, AllocSplit, AllocGrow, Extended, FramesNecesarios;
    PositiveP(s.mem);
    if s.espacio < t + HM || p >= |s.heaps| {
    } else if s.heaps[p].None? {
      AllocNuevoExact(s, p, t, total);
      AllocNuevoRefuses(s, p, t);
    } else {
      var bs := s.heaps[p].value.bloques;
      var k := FirstFit(bs, t + HM, 0);
      if k < |bs| {
        AllocSplitExact(s, p, t, k, total);
        AllocSplitDir(s, p, t, k);
      } else if bs != [] {
        NoFitGrows(s, p, t, total);
        AllocGrowFails(s, p, t, total);
        if AllocGrow(s, p, t).Direccion? {
          AllocGrowExact(s, p, t, total);
          AllocGrowShape(s, p, t, total);
        }
      }
    }
  }

  /** What muse_alloc answers, refusals first: a free block with room, the first one, is what a
      request gets, and nothing else changes but the block list; a new segment or a growth takes
      exactly its pages from the space. */
  ghost predicate Contesta(s: Servidor, p: nat, t: nat, r: AllocResult)
    requires 0 < s.mem.P
  {
    && (r.SinLugar? <==> Rechaza(s, p, t))
    && (s.espacio >= t + HM && p < |s.heaps| && s.heaps[p].None? && r.Direccion? ==>
          r.dir == HM && r.s.espacio + Span(FramesNecesarios(t + 2 * HM, s.mem.P), s.mem.P) == s.espacio)
    && (s.espacio >= t + HM && p < |s.heaps| && s.heaps[p].Some? ==>
          var bs := s.heaps[p].value.bloques;
          && (forall k: nat | Admite(bs, k, t) && (forall j: nat | j < k :: !Admite(bs, j, t)) ::
                r.Direccion? && r.dir == bs[k].dir + HM && r.s.mem == s.mem && r.s.espacio == s.espacio)
          && (r.Direccion? && (forall k: nat | k < |bs| :: !Admite(bs, k, t)) ==>
                && bs != [] && r.dir == bs[|bs| - 1].dir + HM && bs[|bs| - 1].espacio <= t + HM
                && r.s.espacio + Span(FramesNecesarios(t + HM - bs[|bs| - 1].espacio, s.mem.P), s.mem.P) == s.espacio))
  }

  lemma FirstAdmite(bs: Bloques, t: nat)
    ensures var k := FirstFit(bs, t + HM, 0);
            && (k < |bs| ==> Admite(bs, k, t))
            && (forall j: nat | j < k :: !Admite(bs, j, t))
            && (k == |bs| ==> forall j: nat | j < |bs| :: !Admite(bs, j, t))
  {
  }

  lemma AllocAnswers(s: Servidor, p: nat, t: nat, total: nat)
    requires Inv(s, total)
    ensures 0 < s.mem.P && Contesta(s, p, t, Alloc(s, p, t, total))
  {
    hide Ownership, AllocNuevo, AllocSplit, AllocGrow, Extended, FramesNecesarios;
    PositiveP(s.mem);
    if s.espacio < t + HM || p >= |s.heaps| {
    } else if s.heaps[p].None? {
      AllocNuevoExact(s, p, t, total);
      AllocNuevoRefuses(s, p, t);
    } else {
      var bs := s.heaps[p].value.bloques;
      var k := FirstFit(bs, t + HM, 0);
      FirstAdmite(bs, t);
      if k < |bs| {
        AllocSplitDir(s, p, t, k);
      } else if bs != [] {
        NoFitGrows(s, p, t, total);
        AllocGrowFails(s, p, t, total);
        if AllocGrow(s, p, t).Direccion? { AllocGrowShape(s, p, t, total); }
      }
    }
  }

  /** An answer of muse_alloc keeps the invariant exactly when the state allowed it; an
      address it gives out is a new block, and a refusal under the guard changes nothing. Which
      answer it is, and which address, `Contesta` says. */
  lemma AllocExact(s: Servidor, p: nat, t: nat, total: nat)
    requires Inv(s, total)
    ensures 0 < s.mem.P && Contesta(s, p, t, Alloc(s, p, t, total))
    ensures var r := Alloc(s, p, t, total);
            && (r.Direccion? || r.SinLugar? ==> (Inv(r.s, total) <==> PideBien(s, p, t, total)))
            && (r.Direccion? && PideBien(s, p, t, total) ==> r.dir >= HM && Extended(s, p, r.s, r.dir - HM, t))
            && (r.SinLugar? && PideBien(s, p, t, total) ==> r.s == s)
  {
    hide Inv, Alloc, PideBien, Contesta, Extended;
    AllocKeeps(s, p, t, total);
    AllocAnswers(s, p, t, total);
  }

  /** A heap emptied by frees ends the server at the next allocation that passes the first
      space check: there is no last block to grow from. */
  lemma EmptiedHeapCrashes(s: Servidor, p: nat, t: nat, total: nat)
    requires Inv(s, total) && p < |s.heaps| && s.heaps[p].Some? && s.heaps[p].value.bloques == []
    ensures Alloc(s, p, t, total) == if s.espacio < t + HM then SinLugar(s) else CaidaAlloc
  {
    hide Ownership, AllocNuevo, AllocSplit, AllocGrow;
  }

  lemma AllocNuevoRefuses(s: Servidor, p: nat, t: nat)
    requires Ownership(s.mem) && p < |s.heaps| == |s.mem.tabla|
    ensures 0 < s.mem.P
    ensures AllocNuevo(s, p, t).SinLugar? <==> s.espacio < Span(FramesNecesarios(t + 2 * HM, s.mem.P), s.mem.P)
  {
  }

  lemma AllocSplitDir(s: Servidor, p: nat, t: nat, k: nat)
    requires p < |s.heaps| && s.heaps[p].Some? && k < |s.heaps[p].value.bloques|
    ensures AllocSplit(s, p, t, k).Direccion?
    ensures AllocSplit(s, p, t, k).dir == s.heaps[p].value.bloques[k].dir + HM
    ensures AllocSplit(s, p, t, k).s.mem == s.mem && AllocSplit(s, p, t, k).s.espacio == s.espacio
  {
  }

  /** What muse_free needs of the state, when it finds a block. */
  ghost predicate SueltaBien(s: Servidor, p: nat, d: nat) {
    0 < s.mem.P
    && forall j: nat | Encuentra(s, p, d, j) :: FreeGuard(s.heaps[p].value.bloques, j, s.mem.P)
  }

  /** A header write stays inside one page of the segment. */
  predicate CabeceraBien(s: Servidor, p: nat, dst: nat, datos: Bytes) {
    0 < s.mem.P && Mapped(s.mem, p, dst) && OffsetOf(dst, s.mem.P) + |datos| <= s.mem.P
  }

  /** The state after a header write; None if its page is in swap and no place is free. */
  ghost function Encabezar(s: Servidor, p: nat, dst: nat, datos: Bytes): Option<Servidor>
    requires Ownership(s.mem) && CabeceraBien(s, p, dst, datos)
  {
    match Estampar(s.mem, p, PageOf(dst, s.mem.P), OffsetOf(dst, s.mem.P), datos)
    case None => None
    case Some(mem) => Some(s.(mem := mem))
  }

  ghost predicate Bien(s: Servidor, e: Evento, total: nat)
    requires Inv(s, total)
  {
    match e
    case Pide(p, t) => PideBien(s, p, t, total)
    case Suelta(p, d) => SueltaBien(s, p, d)
    case Cabecera(p, dst, datos) => CabeceraBien(s, p, dst, datos)
    case _ => true
  }

  /** The state after one request; None if it ends the server. */
  ghost function Paso(s: Servidor, e: Evento, total: nat): Option<Servidor>
    requires Inv(s, total)
  {
    hide Ownership;
    match e
    case Conecta => Some(Conectar(s))
    case Pide(p, t) => var r := Alloc(s, p, t, total); if r.CaidaAlloc? then None else Some(r.s)
    case Suelta(p, d) => var r := Liberar(s, p, d); Some(if r.Liberado? then r.s else s)
    case Escribe(p, dst, datos) =>
      (match Cpy(s, p, dst, datos, total)
       case Copiado(s') => Some(s')
       case CpyError => Some(s)
       case CaidaCpy => None)
    case Lee(p, src, n) =>
      (match Get(s, p, src, n, total)
       case Leido(s', _) => Some(s')
       case CaidaGet => None
       case _ => Some(s))
    case Cabecera(p, dst, datos) =>
      if CabeceraBien(s, p, dst, datos) then Encabezar(s, p, dst, datos) else Some(s)
  }

  /** The live addresses of program p in [dst, dst + n). */
  ghost function Cubiertas(s: Servidor, p: nat, dst: nat, n: nat): (c: set<(nat, nat)>)
    ensures forall k :: k in c <==> k.0 == p && dst <= k.1 < dst + n && Vivo(s, p, k.1)
  {
    hide Vivo;
    set a: nat | dst <= a < dst + n && Vivo(s, p, a) :: (p, a)
  }

  /** What a copy of datos to dst leaves at the live addresses it covers. */
  ghost function Escritas(s: Servidor, p: nat, dst: nat, datos: Bytes): (e: Sombra)
    ensures forall k | k in e :: Vivo(s, k.0, k.1) && k.0 == p && dst <= k.1 < dst + |datos| && e[k] == datos[k.1 - dst]
    ensures forall a: nat | dst <= a < dst + |datos| && Vivo(s, p, a) :: (p, a) in e
  {
    hide Vivo;
    map k | k in Cubiertas(s, p, dst, |datos|) :: datos[k.1 - dst]
  }

  /** The flat memory after one request: a copy or a header write sets the live addresses it
      covers, a free forgets the addresses of its block, anything else leaves it alone. */
  ghost function Reflejo(s: Servidor, sh: Sombra, e: Evento, total: nat): Sombra
    requires Inv(s, total)
  {
    match e
    case Suelta(p, d) => map k | k in sh && !Soltada(s, p, d, k) :: sh[k]
    case Escribe(p, dst, datos) =>
      if Cpy(s, p, dst, datos, total).Copiado? then
        sh + Escritas(s, p, dst, datos)
      else sh
    case Cabecera(p, dst, datos) => sh + Escritas(s, p, dst, datos)
    case _ => sh
  }

  function Par(b: InfoHeap): (nat, int) {
    (b.dir, b.espacio)
  }

  /** Address k is in the block that freeing d in program p gives back. */
  ghost predicate Soltada(s: Servidor, p: nat, d: nat, k: (nat, nat)) {
    k.0 == p && exists j: nat :: Encuentra(s, p, d, j) && EnBloque(Par(s.heaps[p].value.bloques[j]), k.1)
  }

  /** The server holds the flat memory: every address in it is live and has its byte. */
  ghost predicate Sostiene(s: Servidor, sh: Sombra) {
    0 < s.mem.P
    && forall k | k in sh :: Vivo(s, k.0, k.1) && Mapped(s.mem, k.0, k.1) && Byte(s.mem, k.0, k.1) == sh[k]
  }

  lemma VivoExtended(s: Servidor, p: nat, s': Servidor, d: nat, t: nat, q: nat, a: nat)
    requires Extended(s, p, s', d, t) && Vivo(s, q, a)
    ensures Vivo(s', q, a)
  {
  }

  lemma PideKeeps(s: Servidor, sh: Sombra, p: nat, t: nat, total: nat)
    requires Inv(s, total) && Sostiene(s, sh) && PideBien(s, p, t, total)
    ensures var r := Alloc(s, p, t, total);
            r.Direccion? || r.SinLugar? ==> Inv(r.s, total) && Sostiene(r.s, sh)
  {
    hide Inv, Alloc, PideBien, Vivo, SameBytes;
    AllocKeeps(s, p, t, total);
    var r := Alloc(s, p, t, total);
    if r.Direccion? {
      forall k | k in sh
        ensures Vivo(r.s, k.0, k.1) && r.s.mem.P == s.mem.P
        ensures Mapped(r.s.mem, k.0, k.1) && Byte(r.s.mem, k.0, k.1) == sh[k]
      {
        VivoExtended(s, p, r.s, r.dir - HM, t, k.0, k.1);
        SameByteAt(s.mem, r.s.mem, k.0, k.1);
      }
      SameP(s.mem, r.s.mem);
    }
  }

  lemma SameByteAt(m: Mem, m': Mem, s: nat, a: nat)
    requires 0 < m.P && SameBytes(m, m') && Mapped(m, s, a)
    ensures m'.P == m.P && Mapped(m', s, a) && Byte(m', s, a) == Byte(m, s, a)
  {
  }

  lemma SameP(m: Mem, m': Mem)
    requires 0 < m.P && SameBytes(m, m')
    ensures m'.P == m.P
  {
  }

  lemma SueltaKeeps(s: Servidor, sh: Sombra, p: nat, d: nat, total: nat)
    requires Inv(s, total) && Sostiene(s, sh) && SueltaBien(s, p, d)
    requires Liberar(s, p, d).Liberado?
    ensures Inv(Liberar(s, p, d).s, total)
    ensures Sostiene(Liberar(s, p, d).s, Reflejo(s, sh, Suelta(p, d), total))
  {
    hide Ownership, Tiled, IndicesServe, TailFits, Usados;
    var j := BuscarBloque(s.heaps[p].value.bloques, d, 0);
    assert Encuentra(s, p, d, j);
    LiberarExact(s, p, d, j, total);
    var s' := Liberar(s, p, d).s;
    PositiveP(s'.mem);
    hide Inv, Liberar;
    forall k | k in sh && !Soltada(s, p, d, k)
      ensures Vivo(s', k.0, k.1) && s'.mem.P == s.mem.P
      ensures Mapped(s'.mem, k.0, k.1) && Byte(s'.mem, k.0, k.1) == sh[k]
    {
      StillLive(s, p, s', j, k, d);
      LiberarKeepsLive(s, p, d, j, total, k.0, k.1);
    }
  }

  lemma StillLive(s: Servidor, p: nat, s': Servidor, j: nat, k: (nat, nat), d: nat)
    requires Encuentra(s, p, d, j) && Vivo(s, k.0, k.1) && !Soltada(s, p, d, k)
    requires |s'.heaps| == |s.heaps| && s'.heaps[p].Some?
    requires forall q: nat | q < |s.heaps| && q != p :: s'.heaps[q] == s.heaps[q]
    requires var b := s.heaps[p].value.bloques[j];
             UsadosDe(s'.heaps[p]) == UsadosDe(s.heaps[p]) - {(b.dir, b.espacio)}
    ensures Vivo(s', k.0, k.1)
  {
  }

  lemma EscribeKeeps(s: Servidor, sh: Sombra, p: nat, dst: nat, datos: Bytes, total: nat)
    requires Inv(s, total) && Sostiene(s, sh)
    requires Cpy(s, p, dst, datos, total).Copiado?
    ensures Inv(Cpy(s, p, dst, datos, total).s, total)
    ensures Sostiene(Cpy(s, p, dst, datos, total).s, Reflejo(s, sh, Escribe(p, dst, datos), total))
  {
    hide Cpy, Written, Inv, Sostiene, Escritas;
    CpyKeeps(s, p, dst, datos, total);
    var s' := Cpy(s, p, dst, datos, total).s;
    EscribeSostiene(s, sh, p, dst, datos, s', total);
  }

  lemma EscribeSostiene(s: Servidor, sh: Sombra, p: nat, dst: nat, datos: Bytes, s': Servidor, total: nat)
    requires Inv(s, total) && Sostiene(s, sh)
    requires s'.heaps == s.heaps && Written(s.mem, s'.mem, p, dst, datos)
    ensures Sostiene(s', sh + Escritas(s, p, dst, datos))
  {
    hide Inv, Written, Escritas, Vivo, SameShape;
    WrittenShape(s.mem, s'.mem, p, dst, datos);
    var sh' := sh + Escritas(s, p, dst, datos);
    forall k | k in sh'
      ensures Vivo(s', k.0, k.1) && Mapped(s'.mem, k.0, k.1) && Byte(s'.mem, k.0, k.1) == sh'[k]
    {
      VivoInside(s, k.0, k.1, total);
      VivoSame(s, s', k.0, k.1);
      WrittenAt(s.mem, s'.mem, p, dst, datos, k.0, k.1);
    }
  }

  lemma VivoSame(s: Servidor, s': Servidor, p: nat, a: nat)
    requires s'.heaps == s.heaps
    ensures Vivo(s', p, a) <==> Vivo(s, p, a)
  {
  }

  lemma WrittenAt(m: Mem, m': Mem, s: nat, dst: nat, d: Bytes, z: nat, a: nat)
    requires 0 < m.P && Written(m, m', s, dst, d) && Mapped(m, z, a)
    ensures m'.P == m.P && Mapped(m', z, a)
    ensures Byte(m', z, a) == if z == s && dst <= a < dst + |d| then d[a - dst] else Byte(m, z, a)
  {
  }

  lemma SameBytesSostiene(s: Servidor, sh: Sombra, s': Servidor)
    requires Sostiene(s, sh) && SameBytes(s.mem, s'.mem)
    requires |s.heaps| <= |s'.heaps| && forall p: nat | p < |s.heaps| :: s'.heaps[p] == s.heaps[p]
    ensures Sostiene(s', sh)
  {
  }

  lemma SueltaPaso(s: Servidor, sh: Sombra, p: nat, d: nat, total: nat)
    requires Inv(s, total) && Sostiene(s, sh) && SueltaBien(s, p, d)
    ensures Inv(Paso(s, Suelta(p, d), total).value, total)
    ensures Sostiene(Paso(s, Suelta(p, d), total).value, Reflejo(s, sh, Suelta(p, d), total))
  {
    hide Sostiene, Free, LiberarDesde, Ownership, SlotBudget, Balance;
    if Liberar(s, p, d).Liberado? {
      SueltaKeeps(s, sh, p, d, total);
    } else {
      assert forall k, j: nat :: EnBloque(k, j) ==> !Encuentra(s, p, d, j);
      assert Reflejo(s, sh, Suelta(p, d), total) == sh;
    }
  }

  lemma CabeceraKeeps(s: Servidor, sh: Sombra, p: nat, dst: nat, datos: Bytes, total: nat)
    requires Inv(s, total) && Sostiene(s, sh) && CabeceraBien(s, p, dst, datos)
    ensures var r := Encabezar(s, p, dst, datos);
            r.Some? ==>
              && Inv(r.value, total)
              && Sostiene(r.value, Reflejo(s, sh, Cabecera(p, dst, datos), total))
  {
    hide Written, Sostiene, Escritas, Estampar, Ownership;
    EstamparKeeps(s.mem, p, dst, datos);
    var r := Encabezar(s, p, dst, datos);
    if r.Some? {
      hide Inv, SlotBudget;
      WrittenShape(s.mem, r.value.mem, p, dst, datos);
      InvAfterMem(s, r.value.mem, total);
      EscribeSostiene(s, sh, p, dst, datos, r.value, total);
    }
  }

  /** A header write that covers no live byte changes nothing a client can see. */
  lemma HeaderMisses(s: Servidor, sh: Sombra, p: nat, dst: nat, datos: Bytes, total: nat)
    requires Inv(s, total) && forall a: nat | dst <= a < dst + |datos| :: !Vivo(s, p, a)
    ensures Reflejo(s, sh, Cabecera(p, dst, datos), total) == sh
  {
    assert Escritas(s, p, dst, datos) == map[];
  }

  /** One request, under its guard, keeps the invariant and the flat memory. */
  lemma PasoKeeps(s: Servidor, sh: Sombra, e: Evento, total: nat)
    requires Inv(s, total) && Sostiene(s, sh) && Bien(s, e, total)
    ensures Paso(s, e, total).Some? ==>
              && Inv(Paso(s, e, total).value, total)
              && Sostiene(Paso(s, e, total).value, Reflejo(s, sh, e, total))
  {
    hide Inv, Sostiene, PideBien, SueltaBien, Liberar, Cpy, Get, Alloc, Encabezar, Escritas;
    match e
    case Conecta =>
      ConectarKeeps(s, total);
      SameBytesSostiene(s, sh, Conectar(s));
    case Pide(p, t) => PideKeeps(s, sh, p, t, total);
    case Suelta(p, d) =>
      SueltaPaso(s, sh, p, d, total);
    case Escribe(p, dst, datos) =>
      if Cpy(s, p, dst, datos, total).Copiado? { EscribeKeeps(s, sh, p, dst, datos, total); }
    case Lee(p, src, n) =>
      GetKeeps(s, p, src, n, total);
      if Get(s, p, src, n, total).Leido? { SameBytesSostiene(s, sh, Get(s, p, src, n, total).s); }
    case Cabecera(p, dst, datos) => CabeceraKeeps(s, sh, p, dst, datos, total);
  }

  // ---- runs -----------------------------------------------------------------

  /** A run of requests, each under its guard: the final state and flat memory. None if a
      guard fails or a request ends the server. */
  ghost function Correr(s: Servidor, sh: Sombra, es: seq<Evento>, total: nat): Option<(Servidor, Sombra)>
    requires Inv(s, total) && Sostiene(s, sh)
    decreases |es|
  {
    hide Inv, Sostiene, Bien, Paso, Reflejo;
    if es == [] then Some((s, sh))
    else if !Bien(s, es[0], total) || Paso(s, es[0], total).None? then None
    else
      PasoKeeps(s, sh, es[0], total);
      Correr(Paso(s, es[0], total).value, Reflejo(s, sh, es[0], total), es[1..], total)
  }

  /** Over every run the server keeps frame and slot ownership, the tiling of every heap
      and the space account, and holds the flat memory its clients wrote. */
  lemma {:induction false} RunKeeps(s: Servidor, sh: Sombra, es: seq<Evento>, total: nat)
    requires Inv(s, total) && Sostiene(s, sh)
    ensures var r := Correr(s, sh, es, total);
            r.Some? ==> Inv(r.value.0, total) && Sostiene(r.value.0, r.value.1)
    decreases |es|
  {
    hide Inv, Sostiene, Bien, Paso, Reflejo;
    if es != [] && Bien(s, es[0], total) && Paso(s, es[0], total).Some? {
      PasoKeeps(s, sh, es[0], total);
      RunKeeps(Paso(s, es[0], total).value, Reflejo(s, sh, es[0], total), es[1..], total);
    }
  }

  /** After any run, muse_get returns for each live address the byte last written there. */
  lemma ReadsLastWritten(s: Servidor, sh: Sombra, es: seq<Evento>, total: nat, p: nat, src: nat, n: nat)
    requires Inv(s, total) && Sostiene(s, sh) && Correr(s, sh, es, total).Some?
    ensures var (s1, sh1) := Correr(s, sh, es, total).value;
            && Inv(s1, total)
            && var r := Get(s1, p, src, n, total);
               r.Leido? ==>
                 && |r.datos| == n
                 && forall a: nat | src <= a < src + n && (p, a) in sh1 :: r.datos[a - src] == sh1[(p, a)]
  {
    hide Inv, Correr, Get;
    RunKeeps(s, sh, es, total);
    var (s1, sh1) := Correr(s, sh, es, total).value;
    GetKeeps(s1, p, src, n, total);
    var r := Get(s1, p, src, n, total);
    if r.Leido? {
      forall a: nat | src <= a < src + n && (p, a) in sh1 ensures r.datos[a - src] == sh1[(p, a)] {
        assert Mapped(s1.mem, p, a) && Byte(s1.mem, p, a) == sh1[(p, a)];
      }
    }
  }

  /** The server at start: nothing occupied, no programs. */
  function Inicial(P: nat, memoria: seq<Bytes>, virtual: seq<Bytes>, total: nat): Servidor {
    Servidor(
      Mem(P, seq(|memoria|, _ => BitMemoria(false, false, false)), seq(|virtual|, _ => false), 0,
          memoria, virtual, [], 0, 0),
      [], total)
  }

  lemma InicialInv(P: nat, memoria: seq<Bytes>, virtual: seq<Bytes>, total: nat)
    requires 0 < P && 0 < |memoria|
    requires (forall f: nat | f < |memoria| :: |memoria[f]| == P) && forall k: nat | k < |virtual| :: |virtual[k]| == P
    ensures Inv(Inicial(P, memoria, virtual, total), total)
    ensures Sostiene(Inicial(P, memoria, virtual, total), map[])
  {
    var m := Inicial(P, memoria, virtual, total).mem;
    AllFree(Ocupados(m.bits));
    AllFree(m.slots);
  }

  lemma {:induction false} AllFree(flags: seq<bool>)
    requires forall i: nat | i < |flags| :: !flags[i]
    ensures Libre(flags) == |flags|
  {
    if flags != [] { AllFree(flags[..|flags| - 1]); }
  }

  // ---- space ----------------------------------------------------------------

  /** `espacioDisponible` counts the places that are really free plus one page for every
      swap-in ever made: a swapped-in page keeps the slot it came from. */
  lemma SpaceLaw(s: Servidor, total: nat)
    requires Inv(s, total)
    ensures s.espacio + Span(|s.mem.bits| + |s.mem.slots|, s.mem.P)
         == total + Span(Libres(s.mem), s.mem.P) + Span(s.mem.entradas, s.mem.P)
  {
    hide Ownership, SlotBudget, PagesNumbered, HeapsOk, Libres, TotalPaginas;
    SpanAdd(Libres(s.mem) + s.mem.entradas, TotalPaginas(s.mem.tabla), s.mem.P);
    SpanAdd(Libres(s.mem), s.mem.entradas, s.mem.P);
  }

  /** So until the first swap-in, a request that passes its space check finds a frame or slot
      for every page it makes. */
  lemma NoSwapInNoCrash(s: Servidor, n: nat, total: nat)
    requires Inv(s, total) && total == Span(|s.mem.bits| + |s.mem.slots|, s.mem.P)
    requires s.mem.entradas == 0 && Span(n, s.mem.P) <= s.espacio
    ensures n <= Libres(s.mem)
  {
    hide SlotBudget, PagesNumbered, HeapsOk, Libres, TotalPaginas, OneOwner;
    SpaceLaw(s, total);
    if Libres(s.mem) < n { SpanMonotone(Libres(s.mem), n, s.mem.P); }
  }
}
