/** File contents: what `sac_write` appends, `sac_read` returns, and nothing else changes. */
module SacFiles {
  import opened Options
  import opened Blocks
  import opened Sac
  import opened SacOwner
  import opened SacAlloc

  /** The reference of chunk c of node k. */
  function RefDe(k: nat, c: nat): (r: Ref)
    ensures r.Dato? && r.k == k && r.j < BLOCKS_NODE && BLOCKS_NODE * r.i + r.j == c
  {
    Dato(k, c / BLOCKS_NODE, c % BLOCKS_NODE)
  }

  /** The block that holds chunk c of node k. */
  function Trozo(s: Fs, k: nat, c: nat): Bloque {
    if Destino(s, RefDe(k, c)) < |s.disco| then s.disco[Destino(s, RefDe(k, c))] else Ceros()
  }

  /** The bytes of node k, as a reader sees them. */
  function Contenido(s: Fs, k: nat): (r: Bytes)
    requires k < |s.nodos|
    ensures |r| == s.nodos[k].size
  {
    seq(s.nodos[k].size, pos requires 0 <= pos => Trozo(s, k, pos / BLOCK_SIZE)[pos % BLOCK_SIZE])
  }

  /** The chunk the end of file k is in. */
  function Sigue(s: Fs, k: nat): nat
    requires k < |s.nodos|
  {
    s.nodos[k].size / BLOCK_SIZE
  }

  /** What follows the end of a file in the block it ends inside; nothing if it ends on a block
      boundary. */
  function Resto(s: Fs, k: nat): (r: Bytes)
    requires k < |s.nodos|
    ensures |r| == Falta(s.nodos[k].size)
  {
    if s.nodos[k].size % BLOCK_SIZE == 0 then [] else Trozo(s, k, Sigue(s, k))[s.nodos[k].size % BLOCK_SIZE..]
  }

  /** Bytes from an end of file to the end of the block it is inside. */
  function Falta(size: nat): nat {
    if size % BLOCK_SIZE == 0 then 0 else BLOCK_SIZE - size % BLOCK_SIZE
  }

  /** A file: its bytes, and what an earlier owner of its last block left after them. */
  datatype Texto = Texto(bytes: Bytes, resto: Bytes)

  function Leido(s: Fs, k: nat): (t: Texto)
    requires k < |s.nodos|
    ensures |t.bytes| == s.nodos[k].size && |t.resto| == Falta(|t.bytes|)
  {
    Texto(Contenido(s, k), Resto(s, k))
  }

  /** The bytes of the block the next allocation hands out. */
  function BloqueNuevo(s: Fs): Bloque {
    match PrimerLibre(s.bitmap, 0)
    case None => Ceros()
    case Some(b) => if b < |s.disco| then s.disco[b] else Ceros()
  }

  lemma TrozoValido(s: Fs, d: Duenio, u: Vivos, k: nat, c: nat)
    requires Inv(s, d, u, ENTERO) && k in u && c < u[k]
    ensures Valida(u, ENTERO, RefDe(k, c))
    ensures var p := Destino(s, RefDe(k, c));
            p in d && d[p] == RefDe(k, c) && 0 < p < |s.bitmap| && Trozo(s, k, c) == s.disco[p]
  {
  }

  // ---- contents under each step ---------------------------------------------

  lemma EscribirTrozo(s: Fs, d: Duenio, u: Vivos, k: nat, c: nat, nuevo: Bloque, k': nat, c': nat)
    requires Inv(s, d, u, ENTERO) && k in u && c < u[k] && k' in u && c' < u[k']
    ensures Destino(s, RefDe(k, c)) < |s.disco|
    ensures Trozo(ConBloque(s, Destino(s, RefDe(k, c)), nuevo), k', c') ==
              if k' == k && c' == c then nuevo else Trozo(s, k', c')
  {
    TrozoValido(s, d, u, k, c);
    TrozoValido(s, d, u, k', c');
    var p := Destino(s, RefDe(k, c));
    DatoFrame(s, d, u, ENTERO, p, nuevo, RefDe(k', c'));
    hide Destino, Valida;
  }

  lemma EnlazarTrozo(s: Fs, d: Duenio, u: Vivos, k: nat, i: nat, j: nat, b: nat, k': nat, c: nat)
    requires Cabida(s, d, u, k, i, j, b) && 0 < j && Tabla(s, k, i) < |s.disco|
    requires k' in UnoMas(u, k) && c < UnoMas(u, k)[k']
    ensures Trozo(Enlazar(s, Tabla(s, k, i), j, b), k', c) ==
              if k' == k && c == u[k] then s.disco[b] else Trozo(s, k', c)
    ensures k in u
  {
    CabidaFila(s, d, u, k, i, j, b);
    assert Enlazada(u, ENTERO, Dato(k, i, j));
    assert b !in d;
    if k' == k && c == u[k] {
      assert RefDe(k', c) == Dato(k, i, j);
    } else {
      TrozoValido(s, d, u, k', c);
    }
    EnlazarDestino(s, d, u, k, i, j, b, RefDe(k', c));
    hide Destino, Valida, Inv, SetPtr, RefDe;
  }

  lemma NuevaTrozo(s: Fs, d: Duenio, u: Vivos, k: nat, i: nat, n: nat, b: nat, k': nat, c: nat)
    requires CabidaNueva(s, d, u, k, i, n, b) && i + 1 < BLOCKS_INDIRECT && k' in UnoMas(u, k) && c < UnoMas(u, k)[k']
    ensures Trozo(Nueva(s, k, i, n, b), k', c) ==
              if k' == k && c == Cantidad(u, k) then s.disco[b] else Trozo(s, k', c)
  {
    NuevaFilaFree(s, d, u, k, i, n, b);
    if k' == k && c == Cantidad(u, k) {
      assert RefDe(k', c) == Dato(k, i, 0);
      NuevaRow(s, d, u, k, i, n, b, 0);
    } else {
      TrozoValido(s, d, u, k', c);
      NuevaDestino(s, d, u, k, i, n, b, RefDe(k', c));
    }
    hide Destino, Valida, Inv, SetPtr, RefDe;
  }

  // ---- allocate_node --------------------------------------------------------

  /** Who owns what after `allocate_node` on k succeeds. */
  function AllocDuenio(s: Fs, d: Duenio, u: Vivos, k: nat): Duenio {
    var t := Cantidad(u, k);
    match PrimerLibre(s.bitmap, 0)
    case None => d
    case Some(b) =>
      if t % BLOCKS_NODE != 0 then d[b := Dato(k, t / BLOCKS_NODE, t % BLOCKS_NODE)]
      else
        match PrimerLibre(s.bitmap[b := true], 0)
        case None => d
        case Some(n) => NuevaDuenio(d, k, t / BLOCKS_NODE, n, b)
  }

  /** Blocks the next allocation of node k needs: two when it starts a row. */
  function Necesita(u: Vivos, k: nat): nat {
    if Cantidad(u, k) % BLOCKS_NODE == 0 then 2 else 1
  }

  /** A live file that is full to its last block asks for one more. */
  ghost predicate Llena(s: Fs, d: Duenio, u: Vivos, k: nat) {
    Inv(s, d, u, ENTERO) && k in u && u[k] < 524288 && k < BLOCKS_NODE && s.nodos[k].size == BLOCK_SIZE * u[k]
  }

  lemma DosLibres(bm: seq<bool>)
    ensures Libres(bm, 0) >= 1 <==> PrimerLibre(bm, 0).Some?
    ensures PrimerLibre(bm, 0).Some? ==>
              (Libres(bm, 0) >= 2 <==> PrimerLibre(bm[PrimerLibre(bm, 0).value := true], 0).Some?)
  {
    LibresZero(bm, 0);
    if PrimerLibre(bm, 0).Some? {
      var b := PrimerLibre(bm, 0).value;
      LibresSet(bm, b, true, 0);
      LibresZero(bm[b := true], 0);
    }
  }

  /** `allocate_node` fails exactly when too few blocks are free, and then leaves everything
      as it was, the bitmap included. */
  lemma AllocateFails(s: Fs, d: Duenio, u: Vivos, k: nat)
    requires Llena(s, d, u, k)
    ensures AllocateNode(s, k).SinEspacio? <==> Libres(s.bitmap, 0) < Necesita(u, k)
    ensures AllocateNode(s, k).SinEspacio? ==> AllocateNode(s, k).fs == s
  {
    DosLibres(s.bitmap);
    AllocateCases(s, d, u, k);
    hide Inv;
    if PrimerLibre(s.bitmap, 0).Some? {
      var b := PrimerLibre(s.bitmap, 0).value;
      assert s.bitmap[b := true][b := false] == s.bitmap;
    }
  }

  /** What `allocate_node` looks at in a full live file. */
  lemma AllocateCases(s: Fs, d: Duenio, u: Vivos, k: nat)
    requires Llena(s, d, u, k)
    ensures s.bitmap[0]
    ensures var (ip, ib) := Posicion(s.nodos[k].size);
            && u[k] == BLOCKS_NODE * ip + ib && ip == u[k] / BLOCKS_NODE && ib == u[k] % BLOCKS_NODE
            && ip + 1 < BLOCKS_INDIRECT
            && (ib == 0 ==> s.nodos[k].punteros[ip] == 0)
            && (ib != 0 ==> 0 < s.nodos[k].punteros[ip] < |s.disco| && Tabla(s, k, ip) == s.nodos[k].punteros[ip]
                            && Ptr(s.disco[s.nodos[k].punteros[ip]], ib) == 0)
  {
    var (ip, ib) := Posicion(s.nodos[k].size);
    assert Archivo(s, u, ENTERO, k) && Terminada(s, u, ENTERO, k);
    if ib != 0 {
      assert Valida(u, ENTERO, Indir(k, ip));
      assert Destino(s, Indir(k, ip)) == Tabla(s, k, ip);
      assert Destino(s, Dato(k, ip, ib)) == 0;
    }
  }

  /** Otherwise it gives the file one block more, as its last owner left it, in a row of its own
      when the last one is full, and touches no other block, file or owner. */
  lemma AllocateKeeps(s: Fs, d: Duenio, u: Vivos, k: nat)
    requires Llena(s, d, u, k) && Libres(s.bitmap, 0) >= Necesita(u, k)
    ensures AllocateNode(s, k).Hecho?
    ensures var s' := AllocateNode(s, k).fs;
            && Inv(s', AllocDuenio(s, d, u, k), UnoMas(u, k), ENTERO)
            && s'.nodos[k].size == s.nodos[k].size
            && |s'.disco| == |s.disco| && |s'.bitmap| == |s.bitmap|
            && (forall k': nat | k' < BLOCKS_NODE && k' != k :: s'.nodos[k'] == s.nodos[k'])
    ensures forall k', c: nat | k' in UnoMas(u, k) && c < UnoMas(u, k)[k'] ::
              Trozo(AllocateNode(s, k).fs, k', c) == if k' == k && c == u[k] then BloqueNuevo(s) else Trozo(s, k', c)
  {
    DosLibres(s.bitmap);
    AllocateCases(s, d, u, k);
    AllocateIs(s, d, u, k);
    assert Archivo(s, u, ENTERO, k);
    var (ip, ib) := Posicion(s.nodos[k].size);
    var b := PrimerLibre(s.bitmap, 0).value;
    assert Cabida(s, d, u, k, ip, ib, b);
    hide Inv, Trozo, AllocateNode, Libres, PrimerLibre, Archivo, Posicion;
    if ib != 0 {
      EnlazarKeeps(s, d, u, k, ip, ib, b);
      forall k', c: nat | k' in UnoMas(u, k) && c < UnoMas(u, k)[k']
        ensures Trozo(AllocateNode(s, k).fs, k', c) == if k' == k && c == u[k] then BloqueNuevo(s) else Trozo(s, k', c)
      {
        EnlazarTrozo(s, d, u, k, ip, ib, b, k', c);
      }
    } else {
      var n := PrimerLibre(s.bitmap[b := true], 0).value;
      NuevaKeeps(s, d, u, k, ip, n, b);
      forall k', c: nat | k' in UnoMas(u, k) && c < UnoMas(u, k)[k']
        ensures Trozo(AllocateNode(s, k).fs, k', c) == if k' == k && c == u[k] then BloqueNuevo(s) else Trozo(s, k', c)
      {
        NuevaTrozo(s, d, u, k, ip, n, b, k', c);
      }
    }
  }

  /** Which of the two kinds of allocation it is. */
  lemma AllocateIs(s: Fs, d: Duenio, u: Vivos, k: nat)
    requires Llena(s, d, u, k) && Libres(s.bitmap, 0) >= Necesita(u, k)
    ensures PrimerLibre(s.bitmap, 0).Some?
    ensures var (ip, ib) := Posicion(s.nodos[k].size);
            var b := PrimerLibre(s.bitmap, 0).value;
            && 0 < b < |s.bitmap| && !s.bitmap[b] && ip + 1 < BLOCKS_INDIRECT
            && if ib == 0 then
                 && PrimerLibre(s.bitmap[b := true], 0).Some?
                 && var n := PrimerLibre(s.bitmap[b := true], 0).value;
                    && CabidaNueva(s, d, u, k, ip, n, b)
                    && AllocateNode(s, k) == Hecho(Nueva(s, k, ip, n, b))
               else
                 Tabla(s, k, ip) < |s.disco| && AllocateNode(s, k) == Hecho(Enlazar(s, Tabla(s, k, ip), ib, b))
  {
    DosLibres(s.bitmap);
    AllocateCases(s, d, u, k);
    assert Archivo(s, u, ENTERO, k);
    hide Inv, FilaNueva, Posicion, Libres;
  }
}
