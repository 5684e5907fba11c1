/** The segment table of a program (muse/src/utils.c, muse/src/muse.c): heap segments that
    grow and shrink and mapped segments that come and go, looked up by address with
    32-bit unsigned arithmetic. */
module Segments {
  import opened Options

  const DOS32: nat := 0x1_0000_0000

  /** `tamanio` is always the bytes of the segment's pages. */
  datatype Segmento = Segmento(base: nat, tamanio: nat, esMmap: bool)

  type Tabla = seq<Segmento>

  /** direccion - base_logica < tamanio, on uint32_t */
  predicate Contiene(g: Segmento, dir: nat) {
    (dir - g.base) % DOS32 < g.tamanio
  }

  /** Sorted by base, pairwise disjoint, inside the 32-bit address space. */
  predicate Ordenada(t: Tabla) {
    && (forall i: nat | i < |t| :: t[i].base + t[i].tamanio <= DOS32)
    && (forall i: nat, j: nat | i < j < |t| :: t[i].base + t[i].tamanio <= t[j].base)
  }

  // ---- operations -----------------------------------------------------------

  /** `obtenerBaseLogicaNuevoSegmento` */
  function BaseNueva(t: Tabla): nat {
    if t == [] then 0 else t[|t| - 1].base + t[|t| - 1].tamanio
  }

  datatype Cambio =
    | Nuevo(bytes: nat, esMmap: bool)      // a heap segment created, or a file mapped
    | Crece(bytes: nat)                    // the last segment, when it is a heap, grows
    | Encoge(i: nat, bytes: nat)           // merge leaves heap segment i with fewer pages
    | Desmapea(base: nat)                  // unmap of the mapped segment with that base

  /** First mapped segment, from i on, with this base; |t| if there is none. */
  function BuscarMapeado(t: Tabla, base: nat, i: nat): (k: nat)
    requires i <= |t|
    ensures i <= k <= |t|
    ensures k < |t| ==> t[k].esMmap && t[k].base == base
    ensures forall j: nat | i <= j < k :: !(t[j].esMmap && t[j].base == base)
    decreases |t| - i
  {
    if i == |t| || (t[i].esMmap && t[i].base == base) then i else BuscarMapeado(t, base, i + 1)
  }

  function Aplicar(t: Tabla, c: Cambio): Tabla {
    match c
    case Nuevo(bytes, esMmap) => t + [Segmento(BaseNueva(t), bytes, esMmap)]
    case Crece(bytes) =>
      if t == [] || t[|t| - 1].esMmap then t
      else t[|t| - 1 := t[|t| - 1].(tamanio := t[|t| - 1].tamanio + bytes)]
    case Encoge(i, bytes) =>
      if i < |t| && !t[i].esMmap && bytes <= t[i].tamanio then t[i := t[i].(tamanio := bytes)] else t
    case Desmapea(base) =>
      var k := BuscarMapeado(t, base, 0);
      if k == |t| then t else t[..k] + t[k + 1..]
  }

  /** The change does not run past the 32-bit address space. */
  predicate SinDesborde(t: Tabla, c: Cambio) {
    match c
    case Nuevo(bytes, _) => BaseNueva(t) + bytes <= DOS32
    case Crece(bytes) => BaseNueva(t) + bytes <= DOS32
    case _ => true
  }

  /** Every change keeps the table sorted and disjoint exactly when it does not overflow. */
  lemma AplicarKeeps(t: Tabla, c: Cambio)
    requires Ordenada(t)
    ensures SinDesborde(t, c) ==> Ordenada(Aplicar(t, c))
    ensures c.Nuevo? ==> (Ordenada(Aplicar(t, c)) <==> SinDesborde(t, c))
  {
    var t' := Aplicar(t, c);
    match c
    case Nuevo(bytes, esMmap) =>
      assert t'[|t|].base + t'[|t|].tamanio == BaseNueva(t) + bytes;
      forall i: nat | i < |t| ensures t[i].base + t[i].tamanio <= BaseNueva(t) {
        assert i < |t| - 1 ==> t[i].base + t[i].tamanio <= t[|t| - 1].base;
      }
    case Crece(bytes) =>
    case Encoge(i, bytes) =>
    case Desmapea(base) =>
  }

  /** t' is t after the change, entry by entry. A new segment goes last and starts where the last
      one ended. Only the last segment grows, and only if it is a heap; only a heap shrinks, in
      place. An unmap takes out the first mapped segment with that base, or nothing. */
  ghost predicate Cambiada(t: Tabla, c: Cambio, t': Tabla) {
    var n := |t|;
    match c
    case Nuevo(bytes, esMmap) =>
      && |t'| == n + 1 && t'[..n] == t && t'[n].tamanio == bytes && t'[n].esMmap == esMmap
      && t'[n].base == (if n == 0 then 0 else t[n - 1].base + t[n - 1].tamanio)
    case Crece(bytes) =>
      && |t'| == n
      && (forall i: nat | i < n - 1 :: t'[i] == t[i])
      && (n != 0 ==> t'[n - 1].base == t[n - 1].base && t'[n - 1].esMmap == t[n - 1].esMmap
                     && t'[n - 1].tamanio == t[n - 1].tamanio + if t[n - 1].esMmap then 0 else bytes)
    case Encoge(k, bytes) =>
      && |t'| == n
      && forall i: nat | i < n ::
           && t'[i].base == t[i].base && t'[i].esMmap == t[i].esMmap
           && t'[i].tamanio == if i == k && !t[i].esMmap && bytes <= t[i].tamanio then bytes else t[i].tamanio
    case Desmapea(base) =>
      if exists i: nat :: i < n && t[i].esMmap && t[i].base == base then
        exists k: nat :: k < n && t[k].esMmap && t[k].base == base && t' == t[..k] + t[k + 1..]
          && forall i: nat | i < k :: !(t[i].esMmap && t[i].base == base)
      else t' == t
  }

  /** Each change does that and no more. */
  lemma AplicarExact(t: Tabla, c: Cambio)
    ensures Cambiada(t, c, Aplicar(t, c))
  {
    if c.Desmapea? {
      var k := BuscarMapeado(t, c.base, 0);
      if i: nat :| i < |t| && t[i].esMmap && t[i].base == c.base {
        assert k < |t|;
      }
    }
  }

  ghost predicate RunSinDesborde(t: Tabla, cs: seq<Cambio>)
    decreases |cs|
  {
    cs == [] || (SinDesborde(t, cs[0]) && RunSinDesborde(Aplicar(t, cs[0]), cs[1..]))
  }

  function Correr(t: Tabla, cs: seq<Cambio>): Tabla
    decreases |cs|
  {
    if cs == [] then t else Correr(Aplicar(t, cs[0]), cs[1..])
  }

  /** Every table reachable without 32-bit overflow is sorted and disjoint. */
  lemma {:induction false} RunKeepsOrder(t: Tabla, cs: seq<Cambio>)
    requires Ordenada(t) && RunSinDesborde(t, cs)
    ensures Ordenada(Correr(t, cs))
    decreases |cs|
  {
    if cs != [] {
      AplicarKeeps(t, cs[0]);
      RunKeepsOrder(Aplicar(t, cs[0]), cs[1..]);
    }
  }

  // ---- lookup ---------------------------------------------------------------

  /** The wrapping comparison is plain containment. */
  lemma ContieneIsRange(g: Segmento, dir: nat)
    requires g.base + g.tamanio <= DOS32 && dir < DOS32
    ensures Contiene(g, dir) <==> g.base <= dir < g.base + g.tamanio
  {
  }

  /** No address has two owners. */
  lemma UniqueOwner(t: Tabla, dir: nat, i: nat, j: nat)
    requires Ordenada(t) && dir < DOS32 && i < |t| && j < |t|
    requires Contiene(t[i], dir) && Contiene(t[j], dir)
    ensures i == j
  {
  }

  /** First segment, from i on, that holds dir. */
  function Buscar(t: Tabla, dir: nat, i: nat): (r: Option<nat>)
    requires i <= |t|
    ensures r.Some? ==> i <= r.value < |t| && Contiene(t[r.value], dir)
    ensures r.None? ==> forall j: nat | i <= j < |t| :: !Contiene(t[j], dir)
    decreases |t| - i
  {
    if i == |t| then None else if Contiene(t[i], dir) then Some(i) else Buscar(t, dir, i + 1)
  }

  /** The lookup finds the one segment whose range holds the address, or none. */
  lemma LookupFindsOwner(t: Tabla, dir: nat)
    requires Ordenada(t) && dir < DOS32
    ensures forall i: nat | i < |t| ::
              (t[i].base <= dir < t[i].base + t[i].tamanio) <==> Buscar(t, dir, 0) == Some(i)
  {
  }

  /** After any run, growth and mappings leave every other address with its owner: a segment
      that is not shrunk or unmapped still owns its range. */
  lemma OwnerSurvives(t: Tabla, c: Cambio, dir: nat, i: nat)
    requires Ordenada(t) && SinDesborde(t, c) && dir < DOS32
    requires c.Nuevo? || c.Crece?
    requires Buscar(t, dir, 0) == Some(i)
    ensures Buscar(Aplicar(t, c), dir, 0) == Some(i)
  {
    AplicarKeeps(t, c);
    LookupFindsOwner(t, dir);
    LookupFindsOwner(Aplicar(t, c), dir);
  }

  /** The list of segments of one program. */
  class TablaSegmentos {
    var segmentos: Tabla

    constructor ()
      ensures segmentos == [] && Ordenada(segmentos)
    {
      segmentos := [];
    }

    /** `segmentoAlQuePertenece` and, through list_find, `obtenerSegmentoPorDireccion` */
    method SegmentoAlQuePertenece(dir: nat) returns (r: Option<nat>)
      ensures r == Buscar(segmentos, dir, 0)
    {
      var i := 0;
      while i < |segmentos|
        invariant 0 <= i <= |segmentos|
        invariant Buscar(segmentos, dir, 0) == Buscar(segmentos, dir, i)
      {
        if (dir - segmentos[i].base) % DOS32 < segmentos[i].tamanio {
          return Some(i);
        }
        i := i + 1;
      }
      return None;
    }

    method Agregar(bytes: nat, esMmap: bool)
      requires Ordenada(segmentos) && BaseNueva(segmentos) + bytes <= DOS32
      modifies this
      ensures segmentos == Aplicar(old(segmentos), Nuevo(bytes, esMmap)) && Ordenada(segmentos)
    {
      AplicarKeeps(segmentos, Nuevo(bytes, esMmap));
      var base := 0;
      if |segmentos| != 0 {
        var ultimo := segmentos[|segmentos| - 1];
        base := ultimo.base + ultimo.tamanio;
      }
      segmentos := segmentos + [Segmento(base, bytes, esMmap)];
    }

    method Agrandar(bytes: nat)
      requires Ordenada(segmentos) && BaseNueva(segmentos) + bytes <= DOS32
      modifies this
      ensures segmentos == Aplicar(old(segmentos), Crece(bytes)) && Ordenada(segmentos)
    {
      AplicarKeeps(segmentos, Crece(bytes));
      if |segmentos| != 0 && !segmentos[|segmentos| - 1].esMmap {
        var k := |segmentos| - 1;
        segmentos := segmentos[k := segmentos[k].(tamanio := segmentos[k].tamanio + bytes)];
      }
    }

    method Encoger(i: nat, bytes: nat)
      requires Ordenada(segmentos) && i < |segmentos|
      requires !segmentos[i].esMmap && bytes <= segmentos[i].tamanio
      modifies this
      ensures segmentos == Aplicar(old(segmentos), Encoge(i, bytes)) && Ordenada(segmentos)
    {
      AplicarKeeps(segmentos, Encoge(i, bytes));
      segmentos := segmentos[i := segmentos[i].(tamanio := bytes)];
    }

    /** The list part of `unmapear`: remove the first mapped segment with this base. */
    method Desmapear(base: nat)
      requires Ordenada(segmentos)
      modifies this
      ensures segmentos == Aplicar(old(segmentos), Desmapea(base)) && Ordenada(segmentos)
    {
      AplicarKeeps(segmentos, Desmapea(base));
      var k := 0;
      while k < |segmentos| && !(segmentos[k].esMmap && segmentos[k].base == base)
        invariant 0 <= k <= |segmentos|
        invariant BuscarMapeado(segmentos, base, 0) == BuscarMapeado(segmentos, base, k)
      {
        k := k + 1;
      }
      if k < |segmentos| {
        segmentos := segmentos[..k] + segmentos[k + 1..];
      }
    }
  }
}
