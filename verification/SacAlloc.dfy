/** Allocation in the file system: a data block in a row in use, a new row, a new file. */
module SacAlloc {
  import opened Blocks
  import opened Sac
  import opened SacOwner

  /** Data blocks node k has, none if it is no live file. */
  function Cantidad(u: Vivos, k: nat): nat {
    if k in u then u[k] else 0
  }

  function UnoMas(u: Vivos, k: nat): Vivos {
    u[k := Cantidad(u, k) + 1]
  }

  /** One more data block makes valid its own reference and, in a new row, its pointer
      block's. */
  lemma UnoMasValida(u: Vivos, k: nat, i: nat, j: nat, r: Ref)
    requires j < BLOCKS_NODE && Cantidad(u, k) == BLOCKS_NODE * i + j
    ensures Valida(UnoMas(u, k), ENTERO, r) <==>
              Valida(u, ENTERO, r) || r == Dato(k, i, j) || (j == 0 && r == Indir(k, i))
  {
  }

  // ---- a block in a row in use ----------------------------------------------

  /** Node k can take block b as entry j of its pointer block i. */
  ghost predicate Cabida(s: Fs, d: Duenio, u: Vivos, k: nat, i: nat, j: nat, b: nat) {
    && Inv(s, d, u, ENTERO) && k < BLOCKS_NODE && j < BLOCKS_NODE
    && Cantidad(u, k) == BLOCKS_NODE * i + j < 524288
    && s.nodos[k].status == T_FILE && s.nodos[k].size == BLOCK_SIZE * Cantidad(u, k)
    && 0 < b < |s.bitmap| && !s.bitmap[b]
  }

  /** Block b becomes entry j of pointer block n. */
  function Enlazar(s: Fs, n: nat, j: nat, b: nat): Fs
    requires n < |s.disco| && j < BLOCKS_NODE && b < |s.bitmap| && b < UINT32
  {
    ConBloque(Marcar(s, b, true), n, SetPtr(s.disco[n], j, b))
  }

  lemma CabidaFila(s: Fs, d: Duenio, u: Vivos, k: nat, i: nat, j: nat, b: nat)
    requires Cabida(s, d, u, k, i, j, b) && 0 < j
    ensures k in u && Valida(u, ENTERO, Indir(k, i)) && i < BLOCKS_INDIRECT
    ensures var n := Tabla(s, k, i);
            && n == s.nodos[k].punteros[i] && 0 < n < |s.bitmap| && n != b
            && n in d && d[n] == Indir(k, i)
  {
    assert Valida(u, ENTERO, Indir(k, i));
    assert Destino(s, Indir(k, i)) == Tabla(s, k, i);
  }

  lemma EnlazarDestino(s: Fs, d: Duenio, u: Vivos, k: nat, i: nat, j: nat, b: nat, r: Ref)
    requires Cabida(s, d, u, k, i, j, b) && 0 < j && Tabla(s, k, i) < |s.disco|
    requires Valida(u, ENTERO, r) || Enlazada(u, ENTERO, r)
    ensures Destino(Enlazar(s, Tabla(s, k, i), j, b), r) == if r == Dato(k, i, j) then b else Destino(s, r)
  {
    CabidaFila(s, d, u, k, i, j, b);
    hide SetPtr, Ptr;
    if r.Dato? {
      if Valida(u, ENTERO, r) { DatoFila(u, ENTERO, r); }
      assert Valida(u, ENTERO, Indir(r.k, r.i));
      assert Destino(s, Indir(r.k, r.i)) == Tabla(s, r.k, r.i);
      SetPtrAt(s.disco[Tabla(s, k, i)], j, b, r.j);
    }
  }

  lemma EnlazarKeeps(s: Fs, d: Duenio, u: Vivos, k: nat, i: nat, j: nat, b: nat)
    requires Cabida(s, d, u, k, i, j, b) && 0 < j
    ensures Tabla(s, k, i) < |s.disco|
    ensures Inv(Enlazar(s, Tabla(s, k, i), j, b), d[b := Dato(k, i, j)], UnoMas(u, k), ENTERO)
  {
    CabidaFila(s, d, u, k, i, j, b);
    var n := Tabla(s, k, i);
    var s', d', u' := Enlazar(s, n, j, b), d[b := Dato(k, i, j)], UnoMas(u, k);
    EnlazarIda(s, d, u, k, i, j, b);
    EnlazarVuelta(s, d, u, k, i, j, b);
    EnlazarArchivos(s, d, u, k, i, j, b);
    hide Destino, Valida, Archivos, Ida, Vuelta, SetPtr;
  }

  lemma EnlazarIda(s: Fs, d: Duenio, u: Vivos, k: nat, i: nat, j: nat, b: nat)
    requires Cabida(s, d, u, k, i, j, b) && 0 < j && Tabla(s, k, i) < |s.disco|
    ensures Ida(Enlazar(s, Tabla(s, k, i), j, b), d[b := Dato(k, i, j)], UnoMas(u, k), ENTERO)
  {
    CabidaFila(s, d, u, k, i, j, b);
    hide Destino, Valida, Archivos, Vuelta, SetPtr;
    var n := Tabla(s, k, i);
    forall r: Ref | Valida(UnoMas(u, k), ENTERO, r)
      ensures var p := Destino(Enlazar(s, n, j, b), r); p in d[b := Dato(k, i, j)] && d[b := Dato(k, i, j)][p] == r
    {
      UnoMasValida(u, k, i, j, r);
      assert Enlazada(u, ENTERO, Dato(k, i, j));
      EnlazarDestino(s, d, u, k, i, j, b, r);
    }
  }

  lemma EnlazarVuelta(s: Fs, d: Duenio, u: Vivos, k: nat, i: nat, j: nat, b: nat)
    requires Cabida(s, d, u, k, i, j, b) && 0 < j && Tabla(s, k, i) < |s.disco|
    ensures Vuelta(Enlazar(s, Tabla(s, k, i), j, b), d[b := Dato(k, i, j)], UnoMas(u, k), ENTERO)
  {
    CabidaFila(s, d, u, k, i, j, b);
    hide Destino, Valida, Archivos, SetPtr;
    var n := Tabla(s, k, i);
    var d' := d[b := Dato(k, i, j)];
    forall p | p in d' && (d'[p].Indir? || d'[p].Dato?)
      ensures Valida(UnoMas(u, k), ENTERO, d'[p]) && Destino(Enlazar(s, n, j, b), d'[p]) == p
    {
      UnoMasValida(u, k, i, j, d'[p]);
      assert Enlazada(u, ENTERO, Dato(k, i, j));
      EnlazarDestino(s, d, u, k, i, j, b, d'[p]);
    }
  }

  lemma EnlazarTerminada(s: Fs, d: Duenio, u: Vivos, k: nat, i: nat, j: nat, b: nat, k': nat)
    requires Cabida(s, d, u, k, i, j, b) && 0 < j && Tabla(s, k, i) < |s.disco| && k' in u
    ensures Terminada(Enlazar(s, Tabla(s, k, i), j, b), UnoMas(u, k), ENTERO, k')
  {
    hide Destino, Valida, Ida, Vuelta, Marcas, Archivo, Enlazar;
    assert Terminada(s, u, ENTERO, k');
    var s', u' := Enlazar(s, Tabla(s, k, i), j, b), UnoMas(u, k);
    forall i': nat, j': nat |
      Valida(u', ENTERO, Indir(k', i')) && j' < BLOCKS_NODE && !Valida(u', ENTERO, Dato(k', i', j'))
      ensures Destino(s', Dato(k', i', j')) == 0
    {
      UnoMasValida(u, k, i, j, Indir(k', i'));
      UnoMasValida(u, k, i, j, Dato(k', i', j'));
      assert Enlazada(u, ENTERO, Dato(k', i', j'));
      EnlazarDestino(s, d, u, k, i, j, b, Dato(k', i', j'));
    }
  }

  lemma EnlazarArchivos(s: Fs, d: Duenio, u: Vivos, k: nat, i: nat, j: nat, b: nat)
    requires Cabida(s, d, u, k, i, j, b) && 0 < j && Tabla(s, k, i) < |s.disco|
    ensures Archivos(Enlazar(s, Tabla(s, k, i), j, b), UnoMas(u, k), ENTERO)
  {
    CabidaFila(s, d, u, k, i, j, b);
    hide Terminada, Ida, Vuelta, Marcas, SetPtr;
    var s', u' := Enlazar(s, Tabla(s, k, i), j, b), UnoMas(u, k);
    forall k' | k' in u' ensures Archivo(s', u', ENTERO, k') && Terminada(s', u', ENTERO, k') {
      assert Archivo(s, u, ENTERO, k');
      EnlazarTerminada(s, d, u, k, i, j, b, k');
    }
  }

  // ---- a new row ------------------------------------------------------------

  /** Node k can start row i with pointer block n and first data block b. */
  ghost predicate CabidaNueva(s: Fs, d: Duenio, u: Vivos, k: nat, i: nat, n: nat, b: nat) {
    && Cabida(s, d, u, k, i, 0, b) && 0 < n < |s.bitmap| && !s.bitmap[n] && n != b
    && forall x: nat | i < x < BLOCKS_INDIRECT :: s.nodos[k].punteros[x] == 0
  }

  /** Rows of node k after its first in use hold no live pointer block. */
  lemma NuevaFilaFree(s: Fs, d: Duenio, u: Vivos, k: nat, i: nat, n: nat, b: nat)
    requires CabidaNueva(s, d, u, k, i, n, b)
    ensures i + 1 < BLOCKS_INDIRECT && n !in d && b !in d && k < |s.nodos|
    ensures forall r: Ref | Valida(u, ENTERO, r) && r.Indir? && r.k == k :: r.i < i
  {
  }

  function Nueva(s: Fs, k: nat, i: nat, n: nat, b: nat): Fs
    requires Forma(s) && k < BLOCKS_NODE && i + 1 < BLOCKS_INDIRECT && n < |s.bitmap| && b < |s.bitmap|
  {
    FilaNueva(Marcar(s, b, true), k, i, n, b)
  }

  /** Old references lead where they did. */
  lemma NuevaDestino(s: Fs, d: Duenio, u: Vivos, k: nat, i: nat, n: nat, b: nat, r: Ref)
    requires CabidaNueva(s, d, u, k, i, n, b) && i + 1 < BLOCKS_INDIRECT
    requires Valida(u, ENTERO, r) || Enlazada(u, ENTERO, r)
    ensures Destino(Nueva(s, k, i, n, b), r) == Destino(s, r)
  {
    NuevaFilaFree(s, d, u, k, i, n, b);
    hide SetPtr, Ptr;
    if r.Dato? {
      if Valida(u, ENTERO, r) { DatoFila(u, ENTERO, r); }
      assert Valida(u, ENTERO, Indir(r.k, r.i));
      assert Destino(s, Indir(r.k, r.i)) == Tabla(s, r.k, r.i);
    }
  }

  /** The new row leads to its blocks, and the rest of it is zero. */
  lemma NuevaRow(s: Fs, d: Duenio, u: Vivos, k: nat, i: nat, n: nat, b: nat, j: nat)
    requires CabidaNueva(s, d, u, k, i, n, b) && i + 1 < BLOCKS_INDIRECT && j < BLOCKS_NODE
    ensures var s' := Nueva(s, k, i, n, b);
            Destino(s', Indir(k, i)) == n && Destino(s', Dato(k, i, j)) == if j == 0 then b else 0
  {
  }

  function NuevaDuenio(d: Duenio, k: nat, i: nat, n: nat, b: nat): Duenio {
    d[b := Dato(k, i, 0)][n := Indir(k, i)]
  }

  lemma NuevaIda(s: Fs, d: Duenio, u: Vivos, k: nat, i: nat, n: nat, b: nat)
    requires CabidaNueva(s, d, u, k, i, n, b) && i + 1 < BLOCKS_INDIRECT
    ensures Ida(Nueva(s, k, i, n, b), NuevaDuenio(d, k, i, n, b), UnoMas(u, k), ENTERO)
  {
    NuevaFilaFree(s, d, u, k, i, n, b);
    hide Destino, Valida, Archivos, Vuelta, Nueva, UnoMas, Marcas;
    forall r: Ref | Valida(UnoMas(u, k), ENTERO, r)
      ensures var p, d' := Destino(Nueva(s, k, i, n, b), r), NuevaDuenio(d, k, i, n, b); p in d' && d'[p] == r
    {
      UnoMasValida(u, k, i, 0, r);
      NuevaRow(s, d, u, k, i, n, b, 0);
      if Valida(u, ENTERO, r) { NuevaDestino(s, d, u, k, i, n, b, r); }
    }
  }

  lemma NuevaVuelta(s: Fs, d: Duenio, u: Vivos, k: nat, i: nat, n: nat, b: nat)
    requires CabidaNueva(s, d, u, k, i, n, b) && i + 1 < BLOCKS_INDIRECT
    ensures Vuelta(Nueva(s, k, i, n, b), NuevaDuenio(d, k, i, n, b), UnoMas(u, k), ENTERO)
  {
    NuevaFilaFree(s, d, u, k, i, n, b);
    hide Destino, Valida, Archivos, Nueva, UnoMas, Marcas, Ida;
    var d' := NuevaDuenio(d, k, i, n, b);
    forall p | p in d' && (d'[p].Indir? || d'[p].Dato?)
      ensures Valida(UnoMas(u, k), ENTERO, d'[p]) && Destino(Nueva(s, k, i, n, b), d'[p]) == p
    {
      UnoMasValida(u, k, i, 0, d'[p]);
      NuevaRow(s, d, u, k, i, n, b, 0);
      if Valida(u, ENTERO, d'[p]) { NuevaDestino(s, d, u, k, i, n, b, d'[p]); }
    }
  }

  lemma NuevaTerminada(s: Fs, d: Duenio, u: Vivos, k: nat, i: nat, n: nat, b: nat, k': nat)
    requires CabidaNueva(s, d, u, k, i, n, b) && i + 1 < BLOCKS_INDIRECT && k' in UnoMas(u, k)
    ensures Terminada(Nueva(s, k, i, n, b), UnoMas(u, k), ENTERO, k')
  {
  }

  lemma NuevaArchivos(s: Fs, d: Duenio, u: Vivos, k: nat, i: nat, n: nat, b: nat)
    requires CabidaNueva(s, d, u, k, i, n, b) && i + 1 < BLOCKS_INDIRECT
    ensures Archivos(Nueva(s, k, i, n, b), UnoMas(u, k), ENTERO)
  {
    hide Terminada, Ida, Vuelta, Marcas, SetPtr;
    var s', u' := Nueva(s, k, i, n, b), UnoMas(u, k);
    forall k' | k' in u' ensures Archivo(s', u', ENTERO, k') && Terminada(s', u', ENTERO, k') {
      assert k' in u ==> Archivo(s, u, ENTERO, k');
      NuevaTerminada(s, d, u, k, i, n, b, k');
    }
  }

  lemma NuevaKeeps(s: Fs, d: Duenio, u: Vivos, k: nat, i: nat, n: nat, b: nat)
    requires CabidaNueva(s, d, u, k, i, n, b)
    ensures i + 1 < BLOCKS_INDIRECT
    ensures Inv(Nueva(s, k, i, n, b), NuevaDuenio(d, k, i, n, b), UnoMas(u, k), ENTERO)
  {
    NuevaFilaFree(s, d, u, k, i, n, b);
    NuevaIda(s, d, u, k, i, n, b);
    NuevaVuelta(s, d, u, k, i, n, b);
    NuevaArchivos(s, d, u, k, i, n, b);
    hide Destino, Valida, Archivos, Ida, Vuelta, SetPtr;
  }
}
