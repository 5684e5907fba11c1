/** The file system as the C code runs it: node table, bitmap and blocks updated in place. Every
    method is tied to the value model it implements. */
module SacServer {
  import opened Options
  import opened Blocks
  import opened Sac
  import SacRuns

  /** How a handler ends: done, no block left, or an access outside the tables. */
  datatype Estado = OK | LLENO | FUERA

  class ServidorSac {
    const bitmap: array<bool>
    const disco: array<Bloque>
    const nodos: array<GFile>

    ghost function Vista(): Fs
      reads bitmap, disco, nodos
    {
      Fs(bitmap[..], disco[..], nodos[..])
    }

    /** The image is mounted, tables and all, as it is; a formatted one holds no file, and its
        first h blocks, the tables, own themselves. */
    constructor (b: array<bool>, d: array<Bloque>, n: array<GFile>, ghost h: nat)
      requires Forma(Fs(b[..], d[..], n[..]))
      ensures bitmap == b && disco == d && nodos == n && Vista() == Fs(b[..], d[..], n[..])
      ensures SacRuns.Formateada(Vista(), h) ==> SacRuns.Refina(Vista(), SacRuns.Tablas(h), map[], map[])
    {
      bitmap, disco, nodos := b, d, n;
      new;
      if SacRuns.Formateada(Vista(), h) {
        SacRuns.FormattedRefines(Vista(), h);
      }
    }

    // ---- one store ----------------------------------------------------------

    method Marca(b: nat, v: bool)
      requires b < bitmap.Length
      modifies bitmap
      ensures b < |old(Vista()).bitmap| && Vista() == Marcar(old(Vista()), b, v)
    {
      bitmap[b] := v;
    }

    method PonerBloque(b: nat, nuevo: Bloque)
      requires b < disco.Length
      modifies disco
      ensures b < |old(Vista()).disco| && Vista() == ConBloque(old(Vista()), b, nuevo)
    {
      disco[b] := nuevo;
    }

    method PonerNodo(k: nat, g: GFile)
      requires k < nodos.Length
      modifies nodos
      ensures k < |old(Vista()).nodos| && Vista() == ConNodo(old(Vista()), k, g)
    {
      nodos[k] := g;
    }

    // ---- searches -----------------------------------------------------------

    /** `search_and_test_first_free_block` */
    method ReservarBloque() returns (r: Option<nat>)
      modifies bitmap
      ensures r == PrimerLibre(old(Vista()).bitmap, 0)
      ensures r.Some? ==> r.value < |old(Vista()).bitmap| && Vista() == Marcar(old(Vista()), r.value, true)
      ensures r.None? ==> Vista() == old(Vista())
    {
      var i := 0;
      while i < bitmap.Length
        invariant 0 <= i <= bitmap.Length
        invariant bitmap[..] == old(bitmap[..])
        invariant PrimerLibre(bitmap[..], 0) == PrimerLibre(bitmap[..], i)
      {
        if !bitmap[i] {
          Marca(i, true);
          return Some(i);
        }
        i := i + 1;
      }
      r := None;
    }

    /** `free_blocks` */
    method BloquesLibres() returns (n: nat)
      ensures n == Libres(Vista().bitmap, 0)
    {
      n := 0;
      var i := 0;
      while i < bitmap.Length
        invariant 0 <= i <= bitmap.Length
        invariant Libres(bitmap[..], 0) == n + Libres(bitmap[..], i)
      {
        if !bitmap[i] {
          n := n + 1;
        }
        i := i + 1;
      }
    }

    /** `search_first_free_node` */
    method BuscarNodoLibre() returns (r: Option<nat>)
      ensures r == NodoLibre(Vista().nodos, 0)
    {
      var i := 0;
      while i < nodos.Length && nodos[i].status != T_DELETED
        invariant 0 <= i <= nodos.Length
        invariant NodoLibre(nodos[..], 0) == NodoLibre(nodos[..], i)
      {
        i := i + 1;
      }
      r := if i == nodos.Length then None else Some(i);
    }

    // ---- handlers -----------------------------------------------------------

    /** `allocate_node` */
    method AllocateNode(k: nat) returns (r: Estado)
      requires Forma(Vista()) && k < BLOCKS_NODE
      modifies bitmap, disco, nodos
      ensures match Sac.AllocateNode(old(Vista()), k)
              case Hecho(s) => r == OK && Vista() == s
              case SinEspacio(s) => r == LLENO && Vista() == s
              case Caida => r == FUERA
    {
      hide PrimerLibre, SetPtr, Posicion;
      var b := ReservarBloque();
      if b.None? {
        return LLENO;
      }
      r := OK;
      if b.value > 0 {
        var (ip, ib) := Posicion(nodos[k].size);
        if ib == 0 {
          var n := ReservarBloque();
          if n.None? {
            Marca(b.value, false);
            return LLENO;
          }
          if ip + 1 >= BLOCKS_INDIRECT {
            return FUERA;
          }
          PonerNodo(k, nodos[k].(punteros := nodos[k].punteros[ip := n.value]));
          PonerNodo(k, nodos[k].(punteros := nodos[k].punteros[ip + 1 := 0]));
          PonerBloque(n.value, SetPtr(Ceros(), 0, b.value));
        } else {
          if ip >= BLOCKS_INDIRECT || nodos[k].punteros[ip] >= disco.Length {
            return FUERA;
          }
          var n := nodos[k].punteros[ip];
          PonerBloque(n, SetPtr(disco[n], ib, b.value));
        }
      }
    }

    /** `sac_write` */
    method SacWrite(k: nat, datos: Bytes, offset: nat) returns (r: Estado)
      requires Forma(Vista()) && k < BLOCKS_NODE
      modifies bitmap, disco, nodos
      ensures match Write(old(Vista()), k, datos, offset)
              case Hecho(s) => r == OK && Vista() == s
              case SinEspacio(s) => r == LLENO && Vista() == s
              case Caida => r == FUERA
    {
      hide Sac.AllocateNode, Posicion, Cabe, Ptr;
      var (ip, ib) := Posicion(offset);
      if ip >= BLOCKS_INDIRECT {
        return FUERA;
      }
      AllocateForma(Vista(), k);
      if nodos[k].punteros[ip] == 0 {
        r := AllocateNode(k);
        if r != OK {
          return;
        }
      }
      var n := nodos[k].punteros[ip];
      if n >= disco.Length {
        return FUERA;
      }
      AllocateForma(Vista(), k);
      if Ptr(disco[n], ib) == 0 {
        r := AllocateNode(k);
        if r != OK {
          return;
        }
      }
      var p := Ptr(disco[n], ib);
      if p >= disco.Length {
        return FUERA;
      }
      var bytes := Cabe(offset, |datos|);
      PonerBloque(p, Copiado(disco[p], datos, bytes));
      PonerNodo(k, nodos[k].(size := nodos[k].size + bytes));
      r := OK;
    }

    /** `sac_read` */
    method SacRead(k: nat, n: nat, offset: nat) returns (r: Option<Bytes>)
      requires Forma(Vista()) && k < BLOCKS_NODE
      ensures r == Read(Vista(), k, n, offset)
    {
      hide Ptr;
      var (ip, ib) := Posicion(offset);
      if ip >= BLOCKS_INDIRECT {
        return None;
      }
      var t := nodos[k].punteros[ip];
      if t == 0 {
        return Some([0]);
      }
      if t >= disco.Length {
        return None;
      }
      var p := Ptr(disco[t], ib);
      if p == 0 {
        return Some([0]);
      }
      if p >= disco.Length {
        return None;
      }
      var dentro := offset % BLOCK_SIZE;
      r := Some(disco[p][dentro..dentro + Cabe(offset, n)]);
    }

    /** `sac_create` */
    method SacCreate(existe: bool, directorio: Option<nat>, nombre: string) returns (r: Estado)
      requires Forma(Vista())
      modifies bitmap, disco, nodos
      ensures match Create(old(Vista()), existe, directorio, nombre)
              case Creado(s) => r == OK && Vista() == s
              case Cuota(s) => r == LLENO && Vista() == s
              case YaExiste => r == LLENO && Vista() == old(Vista())
              case SinDirectorio => r == LLENO && Vista() == old(Vista())
              case FueraDeTabla => r == FUERA
    {
      hide PrimerLibre, SetPtr, NodoLibre;
      if existe || directorio.None? {
        return LLENO;
      }
      var libre := BuscarNodoLibre();
      if libre.None? {
        return FUERA;
      }
      var k := libre.value;
      PonerNodo(k, nodos[k].(size := 0, root := directorio.value, status := T_FILE));
      var n := ReservarBloque();
      if n.None? {
        return LLENO;
      }
      PonerNodo(k, nodos[k].(punteros := nodos[k].punteros[0 := n.value]));
      PonerNodo(k, nodos[k].(punteros := nodos[k].punteros[1 := 0]));
      var b := ReservarBloque();
      if b.None? {
        return LLENO;
      }
      PonerBloque(n.value, SetPtr(SetPtr(Ceros(), 0, b.value), 1, 0));
      PonerBloque(b.value, Ceros());
      PonerNodo(k, nodos[k].(nombre := nombre));
      r := OK;
    }

    /** `sac_mkdir` */
    method SacMkdir(existe: bool, directorio: Option<nat>, nombre: string) returns (r: Estado)
      requires Forma(Vista())
      modifies bitmap, nodos
      ensures match Mkdir(old(Vista()), existe, directorio, nombre)
              case Creado(s) => r == OK && Vista() == s
              case Cuota(s) => r == LLENO && Vista() == s
              case YaExiste => r == LLENO && Vista() == old(Vista())
              case SinDirectorio => r == LLENO && Vista() == old(Vista())
              case FueraDeTabla => false
    {
      hide PrimerLibre, NodoLibre;
      if existe || directorio.None? {
        return LLENO;
      }
      var libre := BuscarNodoLibre();
      if libre.None? {
        return LLENO;
      }
      var k := libre.value;
      var b := ReservarBloque();
      if b.None? {
        return LLENO;
      }
      PonerNodo(k, nodos[k].(status := T_DIR, nombre := nombre, size := 0, root := directorio.value));
      r := OK;
    }

    /** The inner loop of `delete_blocks`. */
    method BorrarEntradas(n: nat) returns (ok: bool)
      requires Forma(Vista()) && n < disco.Length
      modifies bitmap, disco
      ensures ok == BorrarFila(old(Vista()), n, 0).Some?
      ensures ok ==> Vista() == BorrarFila(old(Vista()), n, 0).value
    {
      hide SetPtr, Ptr;
      var j := 0;
      while j < BLOCKS_NODE && Ptr(disco[n], j) != 0
        invariant 0 <= j <= BLOCKS_NODE && Forma(Vista())
        invariant BorrarFila(Vista(), n, j) == BorrarFila(old(Vista()), n, 0)
        decreases BLOCKS_NODE - j
      {
        var p := Ptr(disco[n], j);
        if p >= bitmap.Length {
          return false;
        }
        PonerBloque(p, Ceros());
        Marca(p, false);
        PonerBloque(n, SetPtr(disco[n], j, 0));
        j := j + 1;
      }
      ok := true;
    }

    /** `delete_blocks` of a whole file, blocks and pointer blocks included. */
    method DeleteBlocks(k: nat) returns (ok: bool)
      requires Forma(Vista()) && k < BLOCKS_NODE
      modifies bitmap, disco, nodos
      ensures ok == BorrarFilas(old(Vista()), k, 0).Some?
      ensures ok ==> Vista() == BorrarFilas(old(Vista()), k, 0).value
    {
      hide BorrarFila;
      var i := 0;
      while i < BLOCKS_INDIRECT && nodos[k].punteros[i] != 0
        invariant 0 <= i <= BLOCKS_INDIRECT && Forma(Vista())
        invariant BorrarFilas(Vista(), k, i) == BorrarFilas(old(Vista()), k, 0)
        decreases BLOCKS_INDIRECT - i
      {
        var n := nodos[k].punteros[i];
        if n >= bitmap.Length {
          return false;
        }
        ok := BorrarEntradas(n);
        if !ok {
          return;
        }
        PonerNodo(k, nodos[k].(punteros := nodos[k].punteros[i := 0]));
        Marca(n, false);
        i := i + 1;
      }
      ok := true;
    }

    /** `sac_unlink` */
    method SacUnlink(k: nat) returns (ok: bool)
      requires Forma(Vista()) && k < BLOCKS_NODE
      modifies bitmap, disco, nodos
      ensures ok == Unlink(old(Vista()), k).Some?
      ensures ok ==> Vista() == Unlink(old(Vista()), k).value
    {
      hide BorrarFilas;
      ok := DeleteBlocks(k);
      if ok {
        PonerNodo(k, nodos[k].(size := 0, status := T_DELETED, nombre := ""));
      }
    }
  }
}
