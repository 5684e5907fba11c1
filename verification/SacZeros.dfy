/** Images whose unowned blocks were zeroed when they were made: they stay so, and then what lies
    past the end of a file is zero. Nothing else depends on it. */
module SacZeros {
  import opened Options
  import opened Blocks
  import opened Sac
  import opened SacOwner
  import opened SacAlloc
  import opened SacFiles
  import opened SacAppend
  import opened SacCreate
  import opened SacUnlink

  /** Blocks nobody owns hold zeros. */
  ghost predicate Limpio(s: Fs, d: Duenio)
    requires Forma(s)
  {
    forall b: nat | b < |s.bitmap| && b !in d :: s.disco[b] == Ceros()
  }

  /** What is past the end of a live file, up to the end of its last block, is zero. */
  ghost predicate Rellenos(s: Fs, u: Vivos)
    requires Forma(s)
  {
    forall k, c: nat, x: nat |
      k in u && k < BLOCKS_NODE && c < u[k] && x < BLOCK_SIZE && s.nodos[k].size <= BLOCK_SIZE * c + x ::
      Trozo(s, k, c)[x] == 0
  }

  ghost predicate Cerosa(s: Fs, d: Duenio, u: Vivos) {
    Forma(s) && Limpio(s, d) && Rellenos(s, u)
  }

  // ---- append ---------------------------------------------------------------

  /** Blocks that have no owner in d' hold in s' what they held in s. */
  ghost predicate LibresIguales(s: Fs, s': Fs, d': Duenio) {
    && |s'.disco| == |s.disco| && |s'.bitmap| == |s.bitmap|
    && forall b: nat | b < |s.bitmap| && b < |s.disco| && b !in d' :: s'.disco[b] == s.disco[b]
  }

  lemma AllocateLibres(s: Fs, d: Duenio, u: Vivos, k: nat)
    requires Llena(s, d, u, k) && Libres(s.bitmap, 0) >= Necesita(u, k)
    ensures AllocateNode(s, k).Hecho?
    ensures LibresIguales(s, AllocateNode(s, k).fs, AllocDuenio(s, d, u, k))
    ensures d.Keys <= AllocDuenio(s, d, u, k).Keys
  {
    AllocateIs(s, d, u, k);
    var (ip, ib) := Posicion(s.nodos[k].size);
    AllocateCases(s, d, u, k);
    if ib != 0 {
      CabidaFila(s, d, u, k, ip, ib, PrimerLibre(s.bitmap, 0).value) by { AllocateCabida(s, d, u, k); }
    }
    hide Inv, AllocateNode, Posicion, Libres, PrimerLibre, SetPtr, Destino, Valida;
  }

  lemma AllocateCabida(s: Fs, d: Duenio, u: Vivos, k: nat)
    requires Llena(s, d, u, k) && Libres(s.bitmap, 0) >= Necesita(u, k)
    ensures PrimerLibre(s.bitmap, 0).Some?
    ensures var (ip, ib) := Posicion(s.nodos[k].size); Cabida(s, d, u, k, ip, ib, PrimerLibre(s.bitmap, 0).value)
  {
    AllocateIs(s, d, u, k);
    AllocateCases(s, d, u, k);
    EsArchivo(s, d, u, k);
  }

  lemma EscritaLibres(s: Fs, d: Duenio, u: Vivos, k: nat, datos: Bytes)
    requires Lista(s, d, u, k) && Destino(s, RefDe(k, Sigue(s, k))) < |s.disco|
    ensures LibresIguales(s, Escrita(s, k, Sigue(s, k), datos), d)
  {
    TrozoValido(s, d, u, k, Sigue(s, k));
    hide Inv, Destino, Valida, Copiado;
  }

  /** An append writes no block without an owner. */
  lemma AppendLibres(s: Fs, d: Duenio, u: Vivos, k: nat, datos: Bytes)
    requires Escribible(s, d, u, k) && Forma(s) && Write(s, k, datos, s.nodos[k].size).Hecho?
    ensures LibresIguales(s, Write(s, k, datos, s.nodos[k].size).fs, TrasAppend(s, d, u, k).0)
    ensures d.Keys <= TrasAppend(s, d, u, k).0.Keys
  {
    SigueMeans(s, d, u, k);
    hide Inv, Write, AllocDuenio, AllocateNode, Escrita, Destino, Libres;
    if u[k] == Sigue(s, k) {
      AllocateFails(s, d, u, k);
      WriteAllocates(s, d, u, k, datos);
      AllocateKeeps(s, d, u, k);
      AllocateLibres(s, d, u, k);
      EscritaLibres(AllocateNode(s, k).fs, AllocDuenio(s, d, u, k), UnoMas(u, k), k, datos);
    } else {
      WriteInPlace(s, d, u, k, datos);
      EscritaLibres(s, d, u, k, datos);
    }
  }

  /** What a new chunk holds at first is zero. */
  lemma NuevoCeros(s: Fs, d: Duenio)
    requires Forma(s) && Marcas(s, d) && Limpio(s, d)
    ensures BloqueNuevo(s) == Ceros()
  {
  }

  lemma CreceCeros(s: Fs, s': Fs, u: Vivos, u': Vivos, k: nat, datos: Bytes)
    requires Forma(s) && Forma(s') && k < BLOCKS_NODE && Rellenos(s, u) && Cerca(s, u, k) && BloqueNuevo(s) == Ceros()
    requires Crece(s, s', u, u', k, datos, Cabe(s.nodos[k].size, |datos|))
    requires forall k' | k' in u' :: k' in u && (k' == k || u'[k'] == u[k'])
    requires k in u' && u'[k] == Sigue(s, k) + 1
    ensures Rellenos(s', u')
  {
    hide Trozo, BloqueNuevo;
    forall k', c: nat, x: nat |
      k' in u' && k' < BLOCKS_NODE && c < u'[k'] && x < BLOCK_SIZE && s'.nodos[k'].size <= BLOCK_SIZE * c + x
      ensures Trozo(s', k', c)[x] == 0
    {
      if k' == k && c == Sigue(s, k) {
        assert Previo(s, u, k)[x] == 0;
        assert Cabe(s.nodos[k].size, |datos|) <= x;
      } else if k' != k {
        assert Trozo(s, k', c)[x] == 0;
      }
    }
  }

  lemma AppendCerosa(s: Fs, d: Duenio, u: Vivos, k: nat, datos: Bytes)
    requires Escribible(s, d, u, k) && Cerosa(s, d, u) && Write(s, k, datos, s.nodos[k].size).Hecho?
    ensures var (d', u') := TrasAppend(s, d, u, k); Cerosa(Write(s, k, datos, s.nodos[k].size).fs, d', u')
  {
    AppendDone(s, d, u, k, datos);
    AppendLibres(s, d, u, k, datos);
    NuevoCeros(s, d);
    var (d', u') := TrasAppend(s, d, u, k);
    var s' := Write(s, k, datos, s.nodos[k].size).fs;
    assert forall k' | k' in u' :: k' in u && (k' == k || u'[k'] == u[k']);
    hide Inv, Write, TrasAppend, Crece, Cerca, Rellenos;
    CreceCeros(s, s', u, u', k, datos);
  }

  // ---- the other requests ---------------------------------------------------

  lemma PerdidoCerosa(s: Fs, d: Duenio, u: Vivos, b: nat)
    requires Sano(s, d, u) && Cerosa(s, d, u) && b < |s.bitmap| && !s.bitmap[b]
    ensures Cerosa(Marcar(s, b, true), d[b := Perdido], u)
  {
    PerdidoKeeps(s, d, u, b);
    hide Inv, Trozo, Leido;
  }

  lemma AjenoCerosa(s: Fs, d: Duenio, u: Vivos, k: nat, g: GFile)
    requires Sano(s, d, u) && Cerosa(s, d, u) && k < BLOCKS_NODE && k !in u && |g.punteros| == BLOCKS_INDIRECT
    requires g.status == T_DELETED ==> g.punteros == s.nodos[k].punteros && s.nodos[k].status == T_DELETED
    ensures Cerosa(ConNodo(s, k, g), d, u)
  {
    AjenoKeeps(s, d, u, k, g);
    hide Inv, Trozo, Leido;
  }

  lemma CreateCerosa(s: Fs, d: Duenio, u: Vivos, k: nat, root: nat, nombre: string)
    requires Sano(s, d, u) && Cerosa(s, d, u) && NodoLibre(s.nodos, 0) == Some(k) && Libres(s.bitmap, 0) >= 2
    ensures var r := Create(s, false, Some(root), nombre); r.Creado? && Cerosa(r.fs, TrasCreate(s, d, k), u[k := 1])
  {
    DosLibres(s.bitmap);
    var n := PrimerLibre(s.bitmap, 0).value;
    var b := PrimerLibre(s.bitmap[n := true], 0).value;
    CreateIs(s, d, u, k, n, b, root, nombre);
    var s0 := Tomado(s, k, root);
    AjenoKeeps(s, d, u, k, s0.nodos[k]);
    AjenoCerosa(s, d, u, k, s0.nodos[k]);
    hide Inv, Create, Leido, Nueva, Trozo, Libres, PrimerLibre, NodoLibre;
    CreateStepsCerosa(s0, d, u, k, n, b, nombre);
  }

  lemma CreateStepsCerosa(s: Fs, d: Duenio, u: Vivos, k: nat, n: nat, b: nat, nombre: string)
    requires Sano(s, d, u) && Cerosa(s, d, u) && k !in u && CabidaNueva(s, d, u, k, 0, n, b)
    ensures b < |s.disco| && b < |s.bitmap| && n < |s.bitmap| && k < |s.nodos|
    ensures var s1 := Nueva(s, k, 0, n, b);
            var s' := ConNodo(ConBloque(s1, b, Ceros()), k, s1.nodos[k].(nombre := nombre));
            Cerosa(s', NuevaDuenio(d, k, 0, n, b), u[k := 1])
  {
    CreateLimpio(s, d, k, n, b, nombre);
    hide Inv, Trozo, Leido, Nueva, Vacantes, Limpio;
    CreateSteps(s, d, u, k, n, b, nombre);
  }

  lemma CreateLimpio(s: Fs, d: Duenio, k: nat, n: nat, b: nat, nombre: string)
    requires Forma(s) && Limpio(s, d) && k < BLOCKS_NODE && n < |s.bitmap| && b < |s.bitmap|
    ensures var s1 := Nueva(s, k, 0, n, b);
            var s' := ConNodo(ConBloque(s1, b, Ceros()), k, s1.nodos[k].(nombre := nombre));
            Forma(s') && Limpio(s', NuevaDuenio(d, k, 0, n, b))
  {
    hide SetPtr;
  }

  lemma UnlinkCerosa(s: Fs, d: Duenio, u: Vivos, k: nat)
    requires Sano(s, d, u) && Cerosa(s, d, u) && k in u
    ensures k < BLOCKS_NODE && Unlink(s, k).Some? && Cerosa(Unlink(s, k).value, SinNodo(d, k), u - {k})
  {
    UnlinkExact(s, d, u, k);
    FormaInv(Unlink(s, k).value, SinNodo(d, k), u - {k});
    hide Inv, Trozo, Leido, Unlink, SinNodo;
  }

  /** On such an image a read past the end of a file, inside its last block, returns zeros. */
  lemma ReadPadding(s: Fs, d: Duenio, u: Vivos, k: nat, n: nat, offset: nat)
    requires Sano(s, d, u) && Cerosa(s, d, u) && k in u && offset / BLOCK_SIZE < u[k] && offset < INT_MAX
    ensures k < BLOCKS_NODE && Read(s, k, n, offset).Some?
    ensures var r := Read(s, k, n, offset).value;
            forall x: nat | x < |r| && s.nodos[k].size <= offset + x :: r[x] == 0
  {
    ReadExact(s, d, u, k, n, offset);
    hide Inv, Trozo, Read, Contenido, Vacantes, Cabe;
    var c, y := offset / BLOCK_SIZE, offset % BLOCK_SIZE;
    var r := Read(s, k, n, offset).value;
    forall x: nat | x < |r| && s.nodos[k].size <= offset + x ensures r[x] == 0 {
      assert offset + x == BLOCK_SIZE * c + (y + x);
      assert Trozo(s, k, c)[y + x] == 0;
    }
  }
}
