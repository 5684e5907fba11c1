/** `sac_unlink`: the two loops of `delete_blocks` give back exactly the file's blocks, zeroed. */
module SacUnlink {
  import opened Options
  import opened Blocks
  import opened Sac
  import opened SacOwner
  import opened SacFiles
  import opened SacAppend
  import opened SacCreate

  /** The cut is in row i of live node k, before entry j. */
  ghost predicate EnCorte(s: Fs, d: Duenio, u: Vivos, k: nat, i: nat, j: nat) {
    && Inv(s, d, u, Corte(k, i, j)) && k in u && k < BLOCKS_NODE
    && i < BLOCKS_INDIRECT && BLOCKS_NODE * i < u[k] && j <= BLOCKS_NODE
  }

  // ---- one data block -------------------------------------------------------

  /** Entry j of row i is the next to go. */
  ghost predicate EnDato(s: Fs, d: Duenio, u: Vivos, k: nat, i: nat, j: nat) {
    EnCorte(s, d, u, k, i, j) && j < BLOCKS_NODE && BLOCKS_NODE * i + j < u[k]
  }

  lemma DatoFacts(s: Fs, d: Duenio, u: Vivos, k: nat, i: nat, j: nat)
    requires EnDato(s, d, u, k, i, j)
    ensures var c, n, p := Corte(k, i, j), Tabla(s, k, i), Destino(s, Dato(k, i, j));
            && Forma(s) && Valida(u, c, Indir(k, i)) && Valida(u, c, Dato(k, i, j))
            && 0 < n < |s.bitmap| && n in d && d[n] == Indir(k, i)
            && 0 < p < |s.bitmap| && p in d && d[p] == Dato(k, i, j) && p == Ptr(s.disco[n], j)
  {
    var c := Corte(k, i, j);
    assert Valida(u, c, Indir(k, i)) && Valida(u, c, Dato(k, i, j));
    assert Destino(s, Indir(k, i)) == Tabla(s, k, i);
  }

  /** The state after entry j of row i is deleted. */
  function SinDato(s: Fs, k: nat, i: nat, j: nat): Fs
    requires Forma(s) && Tabla(s, k, i) < |s.disco| && j < BLOCKS_NODE && Destino(s, Dato(k, i, j)) < |s.bitmap|
  {
    BorrarDato(s, Tabla(s, k, i), j, Destino(s, Dato(k, i, j)))
  }

  lemma SinDatoValida(u: Vivos, k: nat, i: nat, j: nat, r: Ref)
    ensures Valida(u, Corte(k, i, j + 1), r) <==> Valida(u, Corte(k, i, j), r) && r != Dato(k, i, j)
    ensures Enlazada(u, Corte(k, i, j + 1), r) <==> Enlazada(u, Corte(k, i, j), r)
  {
  }

  lemma DatoFilaC(u: Vivos, c: Corte, r: Ref)
    requires r.Dato? && (Valida(u, c, r) || Enlazada(u, c, r))
    ensures Valida(u, c, Indir(r.k, r.i)) && Enlazada(u, c, r)
  {
  }

  lemma SinDatoDestino(s: Fs, d: Duenio, u: Vivos, k: nat, i: nat, j: nat, r: Ref)
    requires EnDato(s, d, u, k, i, j)
    requires Valida(u, Corte(k, i, j), r) || Enlazada(u, Corte(k, i, j), r)
    ensures Forma(s) && Tabla(s, k, i) < |s.disco| && Destino(s, Dato(k, i, j)) < |s.bitmap|
    ensures Destino(SinDato(s, k, i, j), r) == if r == Dato(k, i, j) then 0 else Destino(s, r)
  {
    DatoFacts(s, d, u, k, i, j);
    hide SetPtr, Ptr;
    if r.Dato? {
      DatoFilaC(u, Corte(k, i, j), r);
      assert Destino(s, Indir(r.k, r.i)) == Tabla(s, r.k, r.i);
      SetPtrAt(s.disco[Tabla(s, k, i)], j, 0, r.j);
    }
  }

  lemma SinDatoIda(s: Fs, d: Duenio, u: Vivos, k: nat, i: nat, j: nat)
    requires EnDato(s, d, u, k, i, j) && Forma(s)
    requires Tabla(s, k, i) < |s.disco| && Destino(s, Dato(k, i, j)) < |s.bitmap|
    ensures Ida(SinDato(s, k, i, j), d - {Destino(s, Dato(k, i, j))}, u, Corte(k, i, j + 1))
    ensures Vuelta(SinDato(s, k, i, j), d - {Destino(s, Dato(k, i, j))}, u, Corte(k, i, j + 1))
  {
    DatoFacts(s, d, u, k, i, j);
    hide Destino, Valida, Archivos, Marcas, SinDato;
    var p := Destino(s, Dato(k, i, j));
    var s', d' := SinDato(s, k, i, j), d - {p};
    forall r: Ref | Valida(u, Corte(k, i, j + 1), r) ensures Destino(s', r) in d' && d'[Destino(s', r)] == r {
      SinDatoValida(u, k, i, j, r);
      SinDatoDestino(s, d, u, k, i, j, r);
    }
    forall b | b in d' && (d'[b].Indir? || d'[b].Dato?)
      ensures Valida(u, Corte(k, i, j + 1), d'[b]) && Destino(s', d'[b]) == b
    {
      SinDatoValida(u, k, i, j, d'[b]);
      SinDatoDestino(s, d, u, k, i, j, d'[b]);
    }
  }

  lemma SinDatoArchivos(s: Fs, d: Duenio, u: Vivos, k: nat, i: nat, j: nat)
    requires EnDato(s, d, u, k, i, j) && Forma(s)
    requires Tabla(s, k, i) < |s.disco| && Destino(s, Dato(k, i, j)) < |s.bitmap|
    ensures Archivos(SinDato(s, k, i, j), u, Corte(k, i, j + 1))
  {
    DatoFacts(s, d, u, k, i, j);
    var s', c' := SinDato(s, k, i, j), Corte(k, i, j + 1);
    assert s'.nodos == s.nodos;
    hide Destino, Valida, Ida, Vuelta, Marcas, SinDato;
    forall k' | k' in u ensures Archivo(s', u, c', k') && Terminada(s', u, c', k') {
      assert Archivo(s, u, Corte(k, i, j), k') && Terminada(s, u, Corte(k, i, j), k');
      hide Archivo;
      forall i': nat, j': nat | Valida(u, c', Indir(k', i')) && j' < BLOCKS_NODE && !Valida(u, c', Dato(k', i', j'))
        ensures Destino(s', Dato(k', i', j')) == 0
      {
        SinDatoValida(u, k, i, j, Indir(k', i'));
        SinDatoValida(u, k, i, j, Dato(k', i', j'));
        assert Enlazada(u, Corte(k, i, j), Dato(k', i', j'));
        SinDatoDestino(s, d, u, k, i, j, Dato(k', i', j'));
      }
    }
  }

  lemma SinDatoKeeps(s: Fs, d: Duenio, u: Vivos, k: nat, i: nat, j: nat)
    requires EnDato(s, d, u, k, i, j)
    ensures Forma(s) && Tabla(s, k, i) < |s.disco| && Destino(s, Dato(k, i, j)) < |s.bitmap|
    ensures EnCorte(SinDato(s, k, i, j), d - {Destino(s, Dato(k, i, j))}, u, k, i, j + 1)
  {
    DatoFacts(s, d, u, k, i, j);
    SinDatoIda(s, d, u, k, i, j);
    SinDatoArchivos(s, d, u, k, i, j);
    hide Destino, Valida, Ida, Vuelta, Archivos, SetPtr;
  }

  // ---- one pointer block ----------------------------------------------------

  /** Every entry of row i has gone. */
  ghost predicate EnFila(s: Fs, d: Duenio, u: Vivos, k: nat, i: nat, j: nat) {
    EnCorte(s, d, u, k, i, j) && (j == BLOCKS_NODE || u[k] <= BLOCKS_NODE * i + j)
  }

  /** The state after row i is given back. */
  function SinFila(s: Fs, k: nat, i: nat): Fs
    requires k < |s.nodos| && i < |s.nodos[k].punteros| && Tabla(s, k, i) < |s.bitmap|
  {
    Marcar(ConPuntero(s, k, i, 0), Tabla(s, k, i), false)
  }

  lemma FilaFacts(s: Fs, d: Duenio, u: Vivos, k: nat, i: nat, j: nat)
    requires EnFila(s, d, u, k, i, j)
    ensures var c, n := Corte(k, i, j), Tabla(s, k, i);
            && Forma(s) && Valida(u, c, Indir(k, i)) && n == s.nodos[k].punteros[i]
            && 0 < n < |s.bitmap| && n in d && d[n] == Indir(k, i)
            && s.disco[n] == Ceros()
  {
    var c, n := Corte(k, i, j), Tabla(s, k, i);
    assert Valida(u, c, Indir(k, i));
    assert Destino(s, Indir(k, i)) == n;
    assert Terminada(s, u, c, k);
    hide Ptr, Ida, Vuelta;
    forall x: nat | x < BLOCKS_NODE ensures Ptr(s.disco[n], x) == 0 {
      assert !Valida(u, c, Dato(k, i, x));
      assert Destino(s, Dato(k, i, x)) == 0;
    }
    AllZero(s.disco[n]);
  }

  lemma SinFilaValida(u: Vivos, k: nat, i: nat, j: nat, r: Ref)
    requires k in u && (j >= BLOCKS_NODE || u[k] <= BLOCKS_NODE * i + j)
    ensures Valida(u, Corte(k, i + 1, 0), r) <==> Valida(u, Corte(k, i, j), r) && r != Indir(k, i)
    ensures Enlazada(u, Corte(k, i + 1, 0), r) <==> Enlazada(u, Corte(k, i, j), r) && !(r.k == k && r.i == i)
  {
  }

  lemma SinFilaDestino(s: Fs, k: nat, i: nat, r: Ref)
    requires k < |s.nodos| && i < |s.nodos[k].punteros| && Tabla(s, k, i) < |s.bitmap|
    requires (r.Indir? || r.Dato?) && !(r.k == k && r.i == i)
    ensures Destino(SinFila(s, k, i), r) == Destino(s, r)
  {
  }

  lemma SinFilaIda(s: Fs, d: Duenio, u: Vivos, k: nat, i: nat, j: nat)
    requires EnFila(s, d, u, k, i, j) && k < |s.nodos| && i < |s.nodos[k].punteros| && Tabla(s, k, i) < |s.bitmap|
    ensures Ida(SinFila(s, k, i), d - {Tabla(s, k, i)}, u, Corte(k, i + 1, 0))
    ensures Vuelta(SinFila(s, k, i), d - {Tabla(s, k, i)}, u, Corte(k, i + 1, 0))
  {
    FilaFacts(s, d, u, k, i, j);
    assert Destino(s, Indir(k, i)) == Tabla(s, k, i);
    hide Destino, Archivos, Marcas, SinFila, Tabla;
    var n := Tabla(s, k, i);
    var s', d' := SinFila(s, k, i), d - {n};
    forall r: Ref | Valida(u, Corte(k, i + 1, 0), r) ensures Destino(s', r) in d' && d'[Destino(s', r)] == r {
      SinFilaValida(u, k, i, j, r);
      SinFilaDestino(s, k, i, r);
    }
    forall b | b in d' && (d'[b].Indir? || d'[b].Dato?)
      ensures Valida(u, Corte(k, i + 1, 0), d'[b]) && Destino(s', d'[b]) == b
    {
      SinFilaValida(u, k, i, j, d'[b]);
      SinFilaDestino(s, k, i, d'[b]);
    }
  }

  lemma SinFilaArchivos(s: Fs, d: Duenio, u: Vivos, k: nat, i: nat, j: nat)
    requires EnFila(s, d, u, k, i, j) && Forma(s)
    requires k < |s.nodos| && i < |s.nodos[k].punteros| && Tabla(s, k, i) < |s.bitmap|
    ensures Archivos(SinFila(s, k, i), u, Corte(k, i + 1, 0))
  {
  }

  lemma SinFilaKeeps(s: Fs, d: Duenio, u: Vivos, k: nat, i: nat, j: nat)
    requires EnFila(s, d, u, k, i, j)
    ensures k < |s.nodos| && i < |s.nodos[k].punteros| && Tabla(s, k, i) < |s.bitmap|
    ensures Inv(SinFila(s, k, i), d - {Tabla(s, k, i)}, u, Corte(k, i + 1, 0))
  {
    FilaFacts(s, d, u, k, i, j);
    SinFilaIda(s, d, u, k, i, j);
    SinFilaArchivos(s, d, u, k, i, j);
    hide Destino, Valida, Ida, Vuelta, Archivos;
  }

  // ---- what a deletion leaves alone -----------------------------------------

  predicate DeNodo(r: Ref, k: nat) {
    (r.Indir? || r.Dato?) && r.k == k
  }

  /** From s to s' some blocks of node k lose their owner: they are zeroed, and blocks that
      are not of node k stay as they were. */
  predicate Suelta(s: Fs, d: Duenio, s': Fs, d': Duenio, k: nat) {
    && |s'.disco| == |s.disco|
    && (forall b | b in d' :: b in d && d'[b] == d[b])
    && (forall b | b in d && b !in d' :: DeNodo(d[b], k) && b < |s.disco| && s'.disco[b] == Ceros())
    && (forall b: nat | b < |s.disco| && !(b in d && DeNodo(d[b], k)) :: s'.disco[b] == s.disco[b])
  }

  /** s' is s but for the blocks and the record of node k. */
  ghost predicate Ajenos(s: Fs, s': Fs, u: Vivos, k: nat) {
    && |s'.disco| == |s.disco| && |s'.bitmap| == |s.bitmap| && |s'.nodos| == |s.nodos|
    && (forall k': nat | k' < |s.nodos| && k' != k :: s'.nodos[k'] == s.nodos[k'])
    && (k < |s.nodos| ==> s'.nodos[k] == s.nodos[k].(punteros := s'.nodos[k].punteros))
    && forall k', c: nat | k' in u && k' != k && c < u[k'] :: Trozo(s', k', c) == Trozo(s, k', c)
  }

  lemma TrozoAjeno(s: Fs, d: Duenio, u: Vivos, c: Corte, k': nat, x: nat)
    requires Inv(s, d, u, c) && k' in u && x < u[k'] && k' != c.k
    ensures Valida(u, c, RefDe(k', x))
    ensures var p := Destino(s, RefDe(k', x)); p in d && d[p] == RefDe(k', x) && p < |s.disco|
  {
  }

  lemma SinDatoAjenos(s: Fs, d: Duenio, u: Vivos, k: nat, i: nat, j: nat)
    requires EnDato(s, d, u, k, i, j) && Forma(s)
    requires Tabla(s, k, i) < |s.disco| && Destino(s, Dato(k, i, j)) < |s.bitmap|
    ensures Ajenos(s, SinDato(s, k, i, j), u, k)
    ensures SinDato(s, k, i, j).nodos == s.nodos
    ensures Suelta(s, d, SinDato(s, k, i, j), d - {Destino(s, Dato(k, i, j))}, k)
  {
    DatoFacts(s, d, u, k, i, j);
    var s', n, p := SinDato(s, k, i, j), Tabla(s, k, i), Destino(s, Dato(k, i, j));
    hide Destino, Valida, Inv, SetPtr;
    forall k', c: nat | k' in u && k' != k && c < u[k'] ensures Trozo(s', k', c) == Trozo(s, k', c) {
      TrozoAjeno(s, d, u, Corte(k, i, j), k', c);
      SinDatoDestino(s, d, u, k, i, j, RefDe(k', c));
    }
  }

  lemma SinFilaAjenos(s: Fs, u: Vivos, k: nat, i: nat)
    requires k < |s.nodos| && i < |s.nodos[k].punteros| && Tabla(s, k, i) < |s.bitmap|
    ensures Ajenos(s, SinFila(s, k, i), u, k)
    ensures SinFila(s, k, i).nodos[k] == s.nodos[k].(punteros := s.nodos[k].punteros[i := 0])
  {
  }

  lemma SinFilaSuelta(s: Fs, d: Duenio, u: Vivos, k: nat, i: nat, j: nat)
    requires EnFila(s, d, u, k, i, j)
    ensures k < |s.nodos| && i < |s.nodos[k].punteros| && Tabla(s, k, i) < |s.bitmap|
    ensures Suelta(s, d, SinFila(s, k, i), d - {Tabla(s, k, i)}, k)
  {
    FilaFacts(s, d, u, k, i, j);
    hide EnFila;
  }

  // ---- the loops ------------------------------------------------------------

  /** The inner loop stops where the file's entries of the row end. */
  lemma FilaEnds(s: Fs, d: Duenio, u: Vivos, k: nat, i: nat, j: nat)
    requires EnFila(s, d, u, k, i, j)
    ensures Tabla(s, k, i) < |s.disco| && Forma(s)
    ensures BorrarFila(s, Tabla(s, k, i), j) == Some(s) && Ajenos(s, s, u, k) && Suelta(s, d, s, d, k)
  {
    FilaFacts(s, d, u, k, i, j);
    hide Inv, Trozo, SetPtr;
  }

  /** One turn of the inner loop. */
  lemma FilaTurn(s: Fs, d: Duenio, u: Vivos, k: nat, i: nat, j: nat) returns (s1: Fs, d1: Duenio)
    requires EnDato(s, d, u, k, i, j)
    ensures Forma(s) && Forma(s1) && Tabla(s1, k, i) == Tabla(s, k, i) < |s.disco| == |s1.disco|
    ensures BorrarFila(s, Tabla(s, k, i), j) == BorrarFila(s1, Tabla(s, k, i), j + 1)
    ensures EnCorte(s1, d1, u, k, i, j + 1)
    ensures s1.nodos == s.nodos && Ajenos(s, s1, u, k) && Suelta(s, d, s1, d1, k)
  {
    DatoFacts(s, d, u, k, i, j);
    SinDatoKeeps(s, d, u, k, i, j);
    SinDatoAjenos(s, d, u, k, i, j);
    s1, d1 := SinDato(s, k, i, j), d - {Destino(s, Dato(k, i, j))};
    hide EnCorte, Trozo, Ptr, Valida, SetPtr, Inv;
  }

  lemma AjenosTrans(s: Fs, s1: Fs, s2: Fs, u: Vivos, k: nat)
    requires Ajenos(s, s1, u, k) && Ajenos(s1, s2, u, k)
    ensures Ajenos(s, s2, u, k)
  {
  }

  lemma AjenosRefl(s: Fs, d: Duenio, u: Vivos, k: nat)
    ensures Ajenos(s, s, u, k) && Suelta(s, d, s, d, k)
  {
  }

  lemma SueltaTrans(s: Fs, d: Duenio, s1: Fs, d1: Duenio, s2: Fs, d2: Duenio, k: nat)
    requires Suelta(s, d, s1, d1, k) && Suelta(s1, d1, s2, d2, k)
    ensures Suelta(s, d, s2, d2, k)
  {
  }

  lemma {:induction false} BorrarFilaKeeps(s: Fs, d: Duenio, u: Vivos, k: nat, i: nat, j: nat)
    returns (d': Duenio, fin: nat)
    requires EnCorte(s, d, u, k, i, j)
    ensures Forma(s) && Tabla(s, k, i) < |s.disco|
    ensures var r := BorrarFila(s, Tabla(s, k, i), j);
            && r.Some? && EnFila(r.value, d', u, k, i, fin)
            && r.value.nodos == s.nodos && Ajenos(s, r.value, u, k) && Suelta(s, d, r.value, d', k)
    decreases BLOCKS_NODE - j
  {
    hide EnCorte, Ajenos, BorrarFila, Suelta, Forma, Tabla;
    EnCorteVivo(s, d, u, k, i, j);
    if j < BLOCKS_NODE && BLOCKS_NODE * i + j < u[k] {
      var s1, d1 := FilaTurn(s, d, u, k, i, j);
      d', fin := BorrarFilaKeeps(s1, d1, u, k, i, j + 1);
      AjenosTrans(s, s1, BorrarFila(s, Tabla(s, k, i), j).value, u, k);
      SueltaTrans(s, d, s1, d1, BorrarFila(s, Tabla(s, k, i), j).value, d', k);
    } else {
      FilaEnds(s, d, u, k, i, j);
      d', fin := d, j;
    }
  }

  lemma EnCorteVivo(s: Fs, d: Duenio, u: Vivos, k: nat, i: nat, j: nat)
    requires EnCorte(s, d, u, k, i, j)
    ensures k in u && j <= BLOCKS_NODE && Forma(s) && |s.bitmap| <= |s.disco|
  {
  }

  /** The outer loop is at row i; the rows before it have been given back. */
  ghost predicate EnFilas(s: Fs, d: Duenio, u: Vivos, k: nat, i: nat) {
    && Inv(s, d, u, Corte(k, i, 0)) && k in u && k < BLOCKS_NODE && i <= Filas(u[k])
    && forall x: nat | x < i :: Tabla(s, k, x) == 0
  }

  /** It stops at the end of the table of the node. */
  lemma FilasEnd(s: Fs, d: Duenio, u: Vivos, k: nat, i: nat)
    requires EnFilas(s, d, u, k, i)
    ensures Forma(s) && i < BLOCKS_INDIRECT
    ensures i == Filas(u[k]) ==> s.nodos[k].punteros[i] == 0
    ensures i < Filas(u[k]) ==>
              EnCorte(s, d, u, k, i, 0) && 0 < s.nodos[k].punteros[i] == Tabla(s, k, i) < |s.bitmap|
  {
    assert Archivo(s, u, Corte(k, i, 0), k);
    if i < Filas(u[k]) {
      assert Valida(u, Corte(k, i, 0), Indir(k, i));
      assert Destino(s, Indir(k, i)) == Tabla(s, k, i);
    }
  }

  /** One turn of the outer loop. */
  lemma FilaKeeps(s: Fs, d: Duenio, u: Vivos, k: nat, i: nat) returns (s': Fs, d': Duenio)
    requires EnFilas(s, d, u, k, i) && i < Filas(u[k])
    ensures Forma(s) && i < BLOCKS_INDIRECT && k < BLOCKS_NODE
    ensures var n := s.nodos[k].punteros[i];
            && 0 < n < |s.bitmap|
            && var r := BorrarFila(s, n, 0);
               r.Some? && s' == Marcar(ConPuntero(r.value, k, i, 0), n, false)
    ensures EnFilas(s', d', u, k, i + 1) && Ajenos(s, s', u, k) && Suelta(s, d, s', d', k)
    ensures s'.nodos[k] == s.nodos[k].(punteros := s.nodos[k].punteros[i := 0])
  {
    FilasEnd(s, d, u, k, i);
    var d1, fin := BorrarFilaKeeps(s, d, u, k, i, 0);
    var s1 := BorrarFila(s, Tabla(s, k, i), 0).value;
    SinFilaKeeps(s1, d1, u, k, i, fin);
    SinFilaAjenos(s1, u, k, i);
    SinFilaSuelta(s1, d1, u, k, i, fin);
    FilaFacts(s1, d1, u, k, i, fin);
    hide Inv, BorrarFila, Trozo, EnFila, Suelta, Ajenos;
    s', d' := SinFila(s1, k, i), d1 - {Tabla(s1, k, i)};
    SueltaTrans(s, d, s1, d1, s', d', k);
    AjenosTrans(s, s1, s', u, k);
    forall x: nat | x < i + 1 ensures Tabla(s', k, x) == 0 {
      assert x < i ==> Tabla(s, k, x) == 0;
    }
  }

  lemma {:induction false} BorrarFilasKeeps(s: Fs, d: Duenio, u: Vivos, k: nat, i: nat) returns (d': Duenio)
    requires EnFilas(s, d, u, k, i)
    ensures Forma(s) && i <= BLOCKS_INDIRECT
    ensures var r := BorrarFilas(s, k, i);
            && r.Some? && EnFilas(r.value, d', u, k, Filas(u[k]))
            && Ajenos(s, r.value, u, k) && Suelta(s, d, r.value, d', k)
            && r.value.nodos[k] == s.nodos[k].(punteros := r.value.nodos[k].punteros)
    decreases BLOCKS_INDIRECT - i
  {
    hide Inv, BorrarFila, Ajenos, Suelta, Trozo, Filas;
    FilasEnd(s, d, u, k, i);
    AjenosRefl(s, d, u, k);
    if i < Filas(u[k]) {
      var s1, d1 := FilaKeeps(s, d, u, k, i);
      d' := BorrarFilasKeeps(s1, d1, u, k, i + 1);
      AjenosTrans(s, s1, BorrarFilas(s, k, i).value, u, k);
      SueltaTrans(s, d, s1, d1, BorrarFilas(s, k, i).value, d', k);
    } else {
      d' := d;
    }
  }

  // ---- unlink ---------------------------------------------------------------

  lemma CorteCero(s: Fs, d: Duenio, u: Vivos, k: nat)
    requires Inv(s, d, u, ENTERO)
    ensures Inv(s, d, u, Corte(k, 0, 0))
  {
  }

  /** The record of a deleted node. */
  function Borrado(g: GFile): GFile {
    g.(size := 0, status := T_DELETED, nombre := "")
  }

  lemma CorteFinValida(u: Vivos, k: nat, r: Ref)
    requires k in u
    ensures Valida(u - {k}, ENTERO, r) <==> Valida(u, Corte(k, Filas(u[k]), 0), r)
    ensures Enlazada(u - {k}, ENTERO, r) <==> Enlazada(u, Corte(k, Filas(u[k]), 0), r)
    ensures Valida(u - {k}, ENTERO, r) || Enlazada(u - {k}, ENTERO, r) ==> (r.Indir? || r.Dato?) && r.k != k
  {
  }

  lemma AjenoDestino(s: Fs, k: nat, g: GFile, r: Ref)
    requires k < |s.nodos| && (r.Indir? || r.Dato?) && r.k != k
    ensures Destino(ConNodo(s, k, g), r) == Destino(s, r)
  {
  }

  lemma CorteFin(s: Fs, d: Duenio, u: Vivos, k: nat)
    requires k in u && EnFilas(s, d, u, k, Filas(u[k])) && Forma(s)
    ensures Inv(ConNodo(s, k, Borrado(s.nodos[k])), d, u - {k}, ENTERO)
    ensures forall b | b in d :: !DeNodo(d[b], k)
  {
    var s', u', c := ConNodo(s, k, Borrado(s.nodos[k])), u - {k}, Corte(k, Filas(u[k]), 0);
    hide Valida, Destino;
    forall r: Ref
      ensures Valida(u', ENTERO, r) <==> Valida(u, c, r)
      ensures Valida(u', ENTERO, r) || Enlazada(u', ENTERO, r) ==> Destino(s', r) == Destino(s, r)
      ensures Valida(u', ENTERO, r) ==> !DeNodo(r, k)
    {
      CorteFinValida(u, k, r);
      if Valida(u', ENTERO, r) || Enlazada(u', ENTERO, r) { AjenoDestino(s, k, Borrado(s.nodos[k]), r); }
    }
    CorteFinArchivos(s, u, k);
  }

  lemma CorteFinArchivos(s: Fs, u: Vivos, k: nat)
    requires Forma(s) && k in u && k < BLOCKS_NODE && Archivos(s, u, Corte(k, Filas(u[k]), 0))
    ensures Archivos(ConNodo(s, k, Borrado(s.nodos[k])), u - {k}, ENTERO)
  {
  }

  /** The owners without those of node k. */
  function SinNodo(d: Duenio, k: nat): Duenio {
    map b | b in d && !DeNodo(d[b], k) :: d[b]
  }

  /** The deletion of a file's blocks, before its record is cleared. */
  lemma BorrarTodo(s: Fs, d: Duenio, u: Vivos, k: nat)
    requires Inv(s, d, u, ENTERO) && k in u
    ensures k < BLOCKS_NODE && Forma(s) && BorrarFilas(s, k, 0).Some?
    ensures var s1 := BorrarFilas(s, k, 0).value; var s' := ConNodo(s1, k, Borrado(s1.nodos[k]));
            && Unlink(s, k) == Some(s')
            && Inv(s', SinNodo(d, k), u - {k}, ENTERO) && Ajenos(s, s1, u, k)
            && Suelta(s, d, s', SinNodo(d, k), k)
            && forall i: nat | i < BLOCKS_INDIRECT :: s'.nodos[k].punteros[i] == 0
  {
    VivosSmall(s, d, u);
    CorteCero(s, d, u, k);
    var d' := BorrarFilasKeeps(s, d, u, k, 0);
    var s1 := BorrarFilas(s, k, 0).value;
    FilasZero(s1, d', u, k);
    CorteFin(s1, d', u, k);
    assert d' == SinNodo(d, k);
    hide Inv, BorrarFilas, Ajenos;
  }

  lemma FilasZero(s: Fs, d: Duenio, u: Vivos, k: nat)
    requires k in u && EnFilas(s, d, u, k, Filas(u[k]))
    ensures Forma(s) && forall i: nat | i < BLOCKS_INDIRECT :: s.nodos[k].punteros[i] == 0
  {
    assert Archivo(s, u, Corte(k, Filas(u[k]), 0), k);
    forall i: nat | i < BLOCKS_INDIRECT ensures s.nodos[k].punteros[i] == 0 {
      assert i < Filas(u[k]) ==> Tabla(s, k, i) == 0;
    }
  }

  /** Deleting a file always works: it clears the bits of exactly the blocks the file owned and
      zeroes them, frees its node, and changes no other file. */
  lemma UnlinkExact(s: Fs, d: Duenio, u: Vivos, k: nat)
    requires Sano(s, d, u) && k in u
    ensures k < BLOCKS_NODE && Unlink(s, k).Some?
    ensures var s' := Unlink(s, k).value;
            && Sano(s', SinNodo(d, k), u - {k})
            && |s'.bitmap| == |s.bitmap|
            && s'.nodos[k] == GFile(T_DELETED, "", s.nodos[k].root, 0, s'.nodos[k].punteros)
            && (forall i: nat | i < BLOCKS_INDIRECT :: s'.nodos[k].punteros[i] == 0)
            && (forall b: nat | b < |s.bitmap| :: s'.bitmap[b] <==> s.bitmap[b] && b in d && !DeNodo(d[b], k))
            && (forall k': nat | k' < BLOCKS_NODE && k' != k :: s'.nodos[k'] == s.nodos[k'])
            && Suelta(s, d, s', SinNodo(d, k), k)
            && (forall k', c: nat | k' in u && k' != k && c < u[k'] :: Trozo(s', k', c) == Trozo(s, k', c))
            && forall k' | k' in u && k' != k :: k' < BLOCKS_NODE && Leido(s', k') == Leido(s, k')
  {
    BorrarTodo(s, d, u, k);
    VivosSmall(s, d, u);
    var s1 := BorrarFilas(s, k, 0).value;
    var s' := ConNodo(s1, k, Borrado(s1.nodos[k]));
    UnlinkBits(s, d, s', SinNodo(d, k), u, k);
    hide Inv, BorrarFilas, Leido, Suelta, SinNodo, Trozo, Unlink;
    FormaInv(s', SinNodo(d, k), u - {k});
    UnlinkContenido(s, d, s1, u, k);
  }

  lemma UnlinkBits(s: Fs, d: Duenio, s': Fs, d': Duenio, u: Vivos, k: nat)
    requires Inv(s, d, u, ENTERO) && Inv(s', d', u - {k}, ENTERO) && |s'.bitmap| == |s.bitmap|
    requires d' == SinNodo(d, k)
    ensures forall b: nat | b < |s.bitmap| :: s'.bitmap[b] <==> s.bitmap[b] && b in d && !DeNodo(d[b], k)
  {
    assert forall b: nat | b < |s.bitmap| :: s'.bitmap[b] <==> b in d';
    hide Archivos, Ida, Vuelta;
  }

  lemma UnlinkContenido(s: Fs, d: Duenio, s1: Fs, u: Vivos, k: nat)
    requires Inv(s, d, u, ENTERO) && k < BLOCKS_NODE && Forma(s1) && Ajenos(s, s1, u, k)
    ensures var s' := ConNodo(s1, k, Borrado(s1.nodos[k]));
            && (forall k', c: nat | k' in u && k' != k && c < u[k'] :: Trozo(s', k', c) == Trozo(s, k', c))
            && forall k' | k' in u && k' != k :: k' < BLOCKS_NODE && Leido(s', k') == Leido(s, k')
  {
    var s' := ConNodo(s1, k, Borrado(s1.nodos[k]));
    VivosSmall(s, d, u);
    hide Inv, Trozo, Leido;
    forall k', c: nat | k' in u && k' != k && c < u[k'] ensures Trozo(s', k', c) == Trozo(s, k', c) {
      AjenoTrozo(s1, k, Borrado(s1.nodos[k]), k', c);
    }
    forall k' | k' in u && k' != k ensures Leido(s', k') == Leido(s, k') {
      TamanioEntra(s, d, u, k');
      MismoLeido(s, s', u[k'], k');
    }
  }
}
