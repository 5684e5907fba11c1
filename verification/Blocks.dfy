/** Disk blocks of the file system: 4096 bytes, seen either as data or as 1024 32-bit block
    numbers, least significant byte first. */
module Blocks {
  import opened Options

  const BLOCK_SIZE: nat := 4096
  const BLOCKS_NODE: nat := 1024
  const BLOCKS_INDIRECT: nat := 1000
  const UINT32: nat := 0x1_0000_0000

  type Bloque = b: Bytes | |b| == 4096 witness seq(4096, _ => 0)

  function Ceros(): (b: Bloque)
    ensures forall x: nat | x < BLOCK_SIZE :: b[x] == 0
  {
    seq(4096, i => 0)
  }

  /** `blocks_ptr[j]` of a block seen as a table of block numbers. */
  function Ptr(b: Bloque, j: nat): (p: nat)
    requires j < BLOCKS_NODE
    ensures p < UINT32
    ensures p == 0 <==> forall x: nat | 4 * j <= x < 4 * j + 4 :: b[x] == 0
  {
    b[4 * j] as nat + 0x100 * b[4 * j + 1] as nat
    + 0x1_0000 * b[4 * j + 2] as nat + 0x100_0000 * b[4 * j + 3] as nat
  }

  /** The four bytes of a block number. */
  function Palabra(v: nat): (w: Bytes)
    requires v < UINT32
    ensures |w| == 4
    ensures w[0] as nat + 0x100 * w[1] as nat + 0x1_0000 * w[2] as nat + 0x100_0000 * w[3] as nat == v
  {
    var q1 := v / 0x100;
    var q2 := q1 / 0x100;
    var q3 := q2 / 0x100;
    assert q1 < 0x100_0000 && q2 < 0x1_0000 && q3 < 0x100;
    [(v % 0x100) as byte, (q1 % 0x100) as byte, (q2 % 0x100) as byte, q3 as byte]
  }

  /** `blocks_ptr[j] = v` */
  function SetPtr(b: Bloque, j: nat, v: nat): (b': Bloque)
    requires j < BLOCKS_NODE && v < UINT32
  {
    b[..4 * j] + Palabra(v) + b[4 * j + 4..]
  }

  /** Storing a block number sets that entry and no other. */
  lemma SetPtrAt(b: Bloque, j: nat, v: nat, i: nat)
    requires j < BLOCKS_NODE && v < UINT32 && i < BLOCKS_NODE
    ensures Ptr(SetPtr(b, j, v), i) == if i == j then v else Ptr(b, i)
  {
  }

  /** A block is all zeros exactly when every block number in it is zero. */
  lemma AllZero(b: Bloque)
    ensures b == Ceros() <==> forall j: nat | j < BLOCKS_NODE :: Ptr(b, j) == 0
  {
    if forall j: nat | j < BLOCKS_NODE :: Ptr(b, j) == 0 {
      forall x: nat | x < BLOCK_SIZE ensures b[x] == 0 {
        assert Ptr(b, x / 4) == 0;
      }
    }
  }
}
