/** Creation, reads, and exactly when an append reads back. */
module SacCreate {
  import opened Options
  import opened Blocks
  import opened Sac
  import opened SacOwner
  import opened SacAlloc
  import opened SacFiles
  import opened SacAppend

  /** Unused entries of the node table lead to no block. */
  ghost predicate Vacantes(s: Fs)
    requires Forma(s)
  {
    forall k: nat, i: nat | k < BLOCKS_NODE && i < BLOCKS_INDIRECT && s.nodos[k].status == T_DELETED ::
      s.nodos[k].punteros[i] == 0
  }

  /** The invariant of the file system. */
  ghost predicate Sano(s: Fs, d: Duenio, u: Vivos) {
    Inv(s, d, u, ENTERO) && Vacantes(s)
  }

  // ---- read -----------------------------------------------------------------

  /** `sac_read` returns the file's bytes from the offset to the end of the block or of the
      request. It knows no end of file: past it, it returns what the block holds, and past the
      last block one zero byte. */
  lemma ReadExact(s: Fs, d: Duenio, u: Vivos, k: nat, n: nat, offset: nat)
    requires Sano(s, d, u) && k in u && offset < INT_MAX
    ensures k < BLOCKS_NODE && Read(s, k, n, offset).Some?
    ensures var r := Read(s, k, n, offset).value;
            if offset / BLOCK_SIZE < u[k] then
              && |r| == Cabe(offset, n)
              && forall x: nat | x < |r| ::
                   r[x] == if offset + x < s.nodos[k].size then Contenido(s, k)[offset + x]
                           else Trozo(s, k, offset / BLOCK_SIZE)[offset % BLOCK_SIZE + x]
            else r == [0]
  {
    assert Archivo(s, u, ENTERO, k);
    var c := offset / BLOCK_SIZE;
    var (ip, ib) := Posicion(offset);
    assert ip == c / BLOCKS_NODE && ib == c % BLOCKS_NODE;
    if c < u[k] {
      CaminoA(s, d, u, k, c);
      ReadInside(s, d, u, k, n, offset);
    } else {
      ReadPast(s, d, u, k, offset);
    }
  }

  lemma ReadIs(s: Fs, d: Duenio, u: Vivos, k: nat, n: nat, offset: nat)
    requires Inv(s, d, u, ENTERO) && k in u && offset / BLOCK_SIZE < u[k]
    ensures k < BLOCKS_NODE
    ensures var t, y := Trozo(s, k, offset / BLOCK_SIZE), offset % BLOCK_SIZE;
            Read(s, k, n, offset) == Some(t[y..y + Cabe(offset, n)])
  {
    var c := offset / BLOCK_SIZE;
    CaminoA(s, d, u, k, c);
    TrozoValido(s, d, u, k, c);
    FormaInv(s, d, u);
    hide Inv, Destino, Valida, Trozo, Ptr, Cabe;
  }

  /** Byte y of chunk c is byte 4096c + y of the file. */
  lemma ByteEn(s: Fs, k: nat, c: nat, y: nat, pos: nat)
    requires k < |s.nodos| && y < BLOCK_SIZE && pos == BLOCK_SIZE * c + y < s.nodos[k].size
    ensures Contenido(s, k)[pos] == Trozo(s, k, c)[y]
  {
    hide Trozo;
    assert pos / BLOCK_SIZE == c && pos % BLOCK_SIZE == y;
  }

  lemma ReadInside(s: Fs, d: Duenio, u: Vivos, k: nat, n: nat, offset: nat)
    requires Sano(s, d, u) && k in u && k < BLOCKS_NODE && offset / BLOCK_SIZE < u[k]
    ensures var r := Read(s, k, n, offset);
            && r.Some? && |r.value| == Cabe(offset, n)
            && forall x: nat | x < |r.value| ::
                 r.value[x] == if offset + x < s.nodos[k].size then Contenido(s, k)[offset + x]
                         else Trozo(s, k, offset / BLOCK_SIZE)[offset % BLOCK_SIZE + x]
  {
    hide Inv, Read, Trozo, Vacantes, Cabe, Contenido;
    FormaInv(s, d, u);
    ReadIs(s, d, u, k, n, offset);
    var c, y := offset / BLOCK_SIZE, offset % BLOCK_SIZE;
    var r := Read(s, k, n, offset).value;
    forall x: nat | x < |r| && offset + x < s.nodos[k].size ensures r[x] == Contenido(s, k)[offset + x] {
      ByteEn(s, k, c, y + x, offset + x);
    }
  }

  lemma ReadPast(s: Fs, d: Duenio, u: Vivos, k: nat, offset: nat)
    requires Sano(s, d, u) && k in u && k < BLOCKS_NODE && offset / BLOCK_SIZE >= u[k] && offset < INT_MAX
    ensures forall n: nat :: Read(s, k, n, offset) == Some([0])
  {
    assert Archivo(s, u, ENTERO, k) && Terminada(s, u, ENTERO, k);
    var (ip, ib) := Posicion(offset);
    if BLOCKS_NODE * ip < u[k] {
      assert Valida(u, ENTERO, Indir(k, ip)) && !Valida(u, ENTERO, Dato(k, ip, ib));
      assert Destino(s, Indir(k, ip)) == Tabla(s, k, ip);
      assert Destino(s, Dato(k, ip, ib)) == 0;
    } else {
      assert Filas(u[k]) <= ip;
    }
  }

  // ---- create ---------------------------------------------------------------

  /** A block reserved and linked to nothing is lost, and no file changes. */
  lemma PerdidoKeeps(s: Fs, d: Duenio, u: Vivos, b: nat)
    requires Sano(s, d, u) && b < |s.bitmap| && !s.bitmap[b]
    ensures Sano(Marcar(s, b, true), d[b := Perdido], u)
    ensures forall k: nat, c: nat :: Trozo(Marcar(s, b, true), k, c) == Trozo(s, k, c)
    ensures forall k: nat | k < |s.nodos| :: Leido(Marcar(s, b, true), k) == Leido(s, k)
  {
    var s' := Marcar(s, b, true);
    hide Ptr;
    assert forall r: Ref :: Destino(s', r) == Destino(s, r);
    PerdidoInv(s, d, u, b);
    hide Destino, Inv;
    assert forall k: nat, c: nat :: Trozo(s', k, c) == Trozo(s, k, c);
    hide Trozo;
    forall k: nat | k < |s.nodos| ensures Leido(s', k) == Leido(s, k) {
      MismoLeido(s, s', s.nodos[k].size, k);
    }
  }

  lemma PerdidoInv(s: Fs, d: Duenio, u: Vivos, b: nat)
    requires Inv(s, d, u, ENTERO) && b < |s.bitmap| && !s.bitmap[b]
    requires forall r: Ref :: Destino(Marcar(s, b, true), r) == Destino(s, r)
    ensures Inv(Marcar(s, b, true), d[b := Perdido], u, ENTERO)
  {
    var s' := Marcar(s, b, true);
    hide Destino, Valida;
    forall k | k in u ensures Archivo(s', u, ENTERO, k) && Terminada(s', u, ENTERO, k) {
      assert Archivo(s, u, ENTERO, k) && Terminada(s, u, ENTERO, k);
    }
  }

  /** A node that is no live file can change its record, to any kind but unused. */
  lemma AjenoKeeps(s: Fs, d: Duenio, u: Vivos, k: nat, g: GFile)
    requires Sano(s, d, u) && k < BLOCKS_NODE && k !in u && |g.punteros| == BLOCKS_INDIRECT
    requires g.status == T_DELETED ==> g.punteros == s.nodos[k].punteros && s.nodos[k].status == T_DELETED
    ensures Sano(ConNodo(s, k, g), d, u)
    ensures forall k', c: nat | k' in u :: Trozo(ConNodo(s, k, g), k', c) == Trozo(s, k', c)
    ensures forall k' | k' in u && k' < BLOCKS_NODE :: Leido(ConNodo(s, k, g), k') == Leido(s, k')
  {
    NodoKeeps(s, d, u, ENTERO, k, g);
    FormaInv(s, d, u);
    hide Inv, Trozo, Leido;
    forall k', c: nat | k' in u ensures Trozo(ConNodo(s, k, g), k', c) == Trozo(s, k', c) {
      AjenoTrozo(s, k, g, k', c);
    }
    forall k' | k' in u && k' < BLOCKS_NODE ensures Leido(ConNodo(s, k, g), k') == Leido(s, k') {
      MismoLeido(s, ConNodo(s, k, g), s.nodos[k'].size, k');
    }
  }

  lemma AjenoTrozo(s: Fs, k: nat, g: GFile, k': nat, c: nat)
    requires k < |s.nodos| && k' != k
    ensures Trozo(ConNodo(s, k, g), k', c) == Trozo(s, k', c)
  {
  }

  /** A free entry of the node table belongs to no live file. */
  lemma LibreAjeno(s: Fs, d: Duenio, u: Vivos)
    requires Inv(s, d, u, ENTERO) && NodoLibre(s.nodos, 0).Some?
    ensures NodoLibre(s.nodos, 0).value !in u
  {
  }

  /** The state of a create between taking the node and reserving blocks. */
  function Tomado(s: Fs, k: nat, root: nat): Fs
    requires k < |s.nodos|
  {
    ConNodo(s, k, s.nodos[k].(size := 0, root := root, status := T_FILE))
  }

  /** The pointer block of a new file, entry by entry as `sac_create` writes it. */
  lemma PrimerBloque(b: nat)
    requires b < UINT32
    ensures SetPtr(SetPtr(Ceros(), 0, b), 1, 0) == SetPtr(Ceros(), 0, b)
  {
  }

  /** A successful create is a first row for the node, whose data block it zeroes. */
  lemma CreateIs(s: Fs, d: Duenio, u: Vivos, k: nat, n: nat, b: nat, root: nat, nombre: string)
    requires Sano(s, d, u) && NodoLibre(s.nodos, 0) == Some(k) && PrimerLibre(s.bitmap, 0) == Some(n)
    requires PrimerLibre(s.bitmap[n := true], 0) == Some(b)
    ensures k < BLOCKS_NODE && k !in u && CabidaNueva(Tomado(s, k, root), d, u, k, 0, n, b)
    ensures var s1 := Nueva(Tomado(s, k, root), k, 0, n, b);
            && k < |s1.nodos| && b < |s1.disco|
            && Create(s, false, Some(root), nombre)
               == Creado(ConNodo(ConBloque(s1, b, Ceros()), k, s1.nodos[k].(nombre := nombre)))
  {
    LibreAjeno(s, d, u);
    FormaInv(s, d, u);
    AjenoKeeps(s, d, u, k, s.nodos[k].(size := 0, root := root, status := T_FILE));
    LibreNoCero(s, d, u, n);
    LibreNoCero(s, d, u, b);
    PrimerBloque(b);
    hide Inv, SetPtr, Leido, Trozo;
    assert s.bitmap[n := true][b := true] == s.bitmap[b := true][n := true];
  }

  /** The header's block is not free. */
  lemma LibreNoCero(s: Fs, d: Duenio, u: Vivos, b: nat)
    requires Inv(s, d, u, ENTERO) && b < |s.bitmap| && !s.bitmap[b]
    ensures b != 0
  {
  }

  /** The record of node k after it was given a pointer block but no data block. */
  function AMedias(g: GFile, root: nat, n: nat): GFile
    requires |g.punteros| == BLOCKS_INDIRECT
  {
    g.(size := 0, root := root, status := T_FILE, punteros := g.punteros[0 := n][1 := 0])
  }

  lemma CreateFailsIs(s: Fs, k: nat, root: nat, nombre: string)
    requires Forma(s) && NodoLibre(s.nodos, 0) == Some(k) && Libres(s.bitmap, 0) < 2
    ensures Create(s, false, Some(root), nombre).Cuota?
    ensures Libres(s.bitmap, 0) == 0 ==> Create(s, false, Some(root), nombre).fs == Tomado(s, k, root)
    ensures Libres(s.bitmap, 0) == 1 ==>
              && PrimerLibre(s.bitmap, 0).Some?
              && var n := PrimerLibre(s.bitmap, 0).value;
                 Create(s, false, Some(root), nombre).fs == ConNodo(Marcar(s, n, true), k, AMedias(s.nodos[k], root, n))
  {
    DosLibres(s.bitmap);
    hide Libres, SetPtr;
  }

  /** What is left of a create that found no block, or only one: the node is taken and the
      block is lost. */
  lemma CreateFails(s: Fs, d: Duenio, u: Vivos, k: nat, root: nat, nombre: string)
    requires Sano(s, d, u) && NodoLibre(s.nodos, 0) == Some(k) && Libres(s.bitmap, 0) < 2
    ensures k < BLOCKS_NODE
    ensures var r := Create(s, false, Some(root), nombre);
            && r.Cuota? && |r.fs.nodos| == BLOCKS_NODE && r.fs.nodos[k].status == T_FILE
            && (r.fs.bitmap == s.bitmap <==> Libres(s.bitmap, 0) == 0)
            && (Libres(s.bitmap, 0) == 0 ==> Sano(r.fs, d, u))
            && (Libres(s.bitmap, 0) == 1 ==>
                  PrimerLibre(s.bitmap, 0).Some? && Sano(r.fs, d[PrimerLibre(s.bitmap, 0).value := Perdido], u))
  {
    FormaInv(s, d, u);
    CreateFailsIs(s, k, root, nombre);
    LibreAjeno(s, d, u);
    hide Sano, Libres, Create, PrimerLibre;
    if Libres(s.bitmap, 0) == 0 {
      AjenoKeeps(s, d, u, k, Tomado(s, k, root).nodos[k]);
    } else {
      var n := PrimerLibre(s.bitmap, 0).value;
      PerdidoKeeps(s, d, u, n);
      AjenoKeeps(Marcar(s, n, true), d[n := Perdido], u, k, AMedias(s.nodos[k], root, n));
      assert s.bitmap[n := true][n] != s.bitmap[n];
    }
  }

  /** Owners after a successful create on k. */
  function TrasCreate(s: Fs, d: Duenio, k: nat): Duenio {
    match PrimerLibre(s.bitmap, 0)
    case None => d
    case Some(n) =>
      match PrimerLibre(s.bitmap[n := true], 0)
      case None => d
      case Some(b) => NuevaDuenio(d, k, 0, n, b)
  }

  /** With two blocks free a create makes an empty file with blocks of its own, and touches no
      other file. */
  lemma CreateWorks(s: Fs, d: Duenio, u: Vivos, k: nat, root: nat, nombre: string)
    requires Sano(s, d, u) && NodoLibre(s.nodos, 0) == Some(k) && Libres(s.bitmap, 0) >= 2
    ensures k < BLOCKS_NODE && k !in u
    ensures var r := Create(s, false, Some(root), nombre);
            && r.Creado? && Sano(r.fs, TrasCreate(s, d, k), u[k := 1]) && k < |r.fs.nodos|
            && Leido(r.fs, k) == Texto([], []) && r.fs.nodos[k].nombre == nombre && r.fs.nodos[k].root == root
            && forall k' | k' in u :: k' < BLOCKS_NODE && Leido(r.fs, k') == Leido(s, k')
  {
    DosLibres(s.bitmap);
    var n := PrimerLibre(s.bitmap, 0).value;
    var b := PrimerLibre(s.bitmap[n := true], 0).value;
    CreateIs(s, d, u, k, n, b, root, nombre);
    hide Inv, Create, Leido, Nueva, Trozo, Libres, PrimerLibre;
    FormaInv(s, d, u);
    var s0 := Tomado(s, k, root);
    AjenoKeeps(s, d, u, k, s0.nodos[k]);
    CreateSteps(s0, d, u, k, n, b, nombre);
  }

  /** The chunks of s' are those of s, but for the first one of the new file k. */
  ghost predicate NuevoVacio(s: Fs, s': Fs, u: Vivos, k: nat) {
    && (forall k', c: nat | k' in u && c < u[k'] :: Trozo(s', k', c) == Trozo(s, k', c))
    && Trozo(s', k, 0) == Ceros()
  }

  /** The steps of a create once the node is taken. */
  lemma CreateSteps(s: Fs, d: Duenio, u: Vivos, k: nat, n: nat, b: nat, nombre: string)
    requires Sano(s, d, u) && k !in u && CabidaNueva(s, d, u, k, 0, n, b)
    ensures Forma(s) && k < BLOCKS_NODE && b < |s.disco| && b < |s.bitmap| && n < |s.bitmap|
    ensures var s1 := Nueva(s, k, 0, n, b);
            var s' := ConNodo(ConBloque(s1, b, Ceros()), k, s1.nodos[k].(nombre := nombre));
            && Sano(s', NuevaDuenio(d, k, 0, n, b), u[k := 1]) && k < |s'.nodos|
            && NuevoVacio(s, s', u, k) && Leido(s', k) == Texto([], [])
            && forall k' | k' in u :: k' < BLOCKS_NODE && Leido(s', k') == Leido(s, k')
  {
    FormaInv(s, d, u);
    VivosSmall(s, d, u);
    NuevaKeeps(s, d, u, k, 0, n, b);
    CreateShape(s, k, n, b, nombre);
    var s1, d', u' := Nueva(s, k, 0, n, b), NuevaDuenio(d, k, 0, n, b), u[k := 1];
    assert u' == UnoMas(u, k);
    var s2 := ConBloque(s1, b, Ceros());
    var s' := ConNodo(s2, k, s1.nodos[k].(nombre := nombre));
    hide Inv, Trozo, Leido, Nueva, Vacantes;
    EscribirKeeps(s1, d', u', ENTERO, b, Ceros());
    EsArchivo(s2, d', u', k);
    TamanioEntra(s2, d', u', k);
    NodoKeeps(s2, d', u', ENTERO, k, s1.nodos[k].(nombre := nombre));
    CreateVacantes(s, k, n, b, nombre);
    forall k', c: nat | k' in u' && c < u'[k']
      ensures Trozo(s', k', c) == if k' == k then Ceros() else Trozo(s, k', c)
    {
      CreateTrozo(s, d, u, k, n, b, nombre, k', c);
    }
    CreateLeido(s, d, u, s', k);
  }

  /** The size of a live file fits its blocks. */
  lemma TamanioEntra(s: Fs, d: Duenio, u: Vivos, k: nat)
    requires Inv(s, d, u, ENTERO) && k in u
    ensures k < BLOCKS_NODE && Forma(s) && BLOCK_SIZE * (u[k] - 1) <= s.nodos[k].size <= BLOCK_SIZE * u[k]
  {
    assert Archivo(s, u, ENTERO, k);
  }

  lemma CreateShape(s: Fs, k: nat, n: nat, b: nat, nombre: string)
    requires Forma(s) && k < BLOCKS_NODE && n < |s.bitmap| && b < |s.bitmap|
    ensures var s1 := Nueva(s, k, 0, n, b);
            && |s1.disco| == |s.disco| && |s1.nodos| == BLOCKS_NODE
            && s1.nodos == s.nodos[k := s.nodos[k].(punteros := s.nodos[k].punteros[0 := n][1 := 0])]
  {
    hide SetPtr;
  }

  lemma CreateVacantes(s: Fs, k: nat, n: nat, b: nat, nombre: string)
    requires Forma(s) && k < BLOCKS_NODE && n < |s.bitmap| && b < |s.bitmap|
    requires Vacantes(s) && s.nodos[k].status == T_FILE
    ensures var s1 := Nueva(s, k, 0, n, b);
            var s' := ConNodo(ConBloque(s1, b, Ceros()), k, s1.nodos[k].(nombre := nombre));
            Forma(s') && Vacantes(s')
  {
    CreateShape(s, k, n, b, nombre);
    hide Nueva;
  }

  lemma CreateTrozo(s: Fs, d: Duenio, u: Vivos, k: nat, n: nat, b: nat, nombre: string, k': nat, c: nat)
    requires Inv(s, d, u, ENTERO) && k !in u && CabidaNueva(s, d, u, k, 0, n, b)
    requires k' in UnoMas(u, k) && c < UnoMas(u, k)[k']
    requires Forma(s) && b < |s.disco|
    ensures var s1 := Nueva(s, k, 0, n, b);
            && k < |s1.nodos| && b < |s1.disco|
            && Trozo(ConNodo(ConBloque(s1, b, Ceros()), k, s1.nodos[k].(nombre := nombre)), k', c)
               == if k' == k then Ceros() else Trozo(s, k', c)
  {
    CreateShape(s, k, n, b, nombre);
    NuevaKeeps(s, d, u, k, 0, n, b);
    NuevaRow(s, d, u, k, 0, n, b, 0);
    NuevaTrozo(s, d, u, k, 0, n, b, k', c);
    hide Inv, Trozo, Nueva, Destino;
    var s1, d', u' := Nueva(s, k, 0, n, b), NuevaDuenio(d, k, 0, n, b), UnoMas(u, k);
    assert RefDe(k, 0) == Dato(k, 0, 0);
    EscribirTrozo(s1, d', u', k, 0, Ceros(), k', c);
    NodoTrozo(ConBloque(s1, b, Ceros()), k, s1.nodos[k].(nombre := nombre), k', c);
  }

  lemma CreateLeido(s: Fs, d: Duenio, u: Vivos, s': Fs, k: nat)
    requires Inv(s, d, u, ENTERO) && Forma(s) && |s'.nodos| == |s.nodos| && k < |s.nodos| && k !in u
    requires forall k' | k' in u :: k' < |s.nodos| && s'.nodos[k'].size == s.nodos[k'].size
    requires s'.nodos[k].size == 0
    requires forall k', c: nat | k' in u && c < u[k'] :: Trozo(s', k', c) == Trozo(s, k', c)
    ensures Leido(s', k) == Texto([], [])
    ensures forall k' | k' in u :: Leido(s', k') == Leido(s, k')
  {
    hide Inv, Trozo;
    forall k' | k' in u ensures Leido(s', k') == Leido(s, k') {
      TamanioEntra(s, d, u, k');
      MismoLeido(s, s', u[k'], k');
    }
  }
}
