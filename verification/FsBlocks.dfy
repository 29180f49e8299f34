/** Blocks as bytes, and what the file system reads in them: bits of the free map, 32-bit words, inodes.
 */
module FsBlocks {

  const BSIZE := 512
  const BPB := 4096     // bitmap bits per block
  const IPB := 8        // inodes per block
  const NDIRECT := 7
  const NINDIRECT := 128
  const MAXFILE := 135
  const UINT := 0x1_0000_0000

  type Byte = x: int | 0 <= x < 256
  type Bytes = s: seq<Byte> | |s| == BSIZE witness seq(BSIZE, _ => 0)
  /** A block of zeros. */
  function Zeros(): Bytes { seq(BSIZE, _ => 0) }

  // ---------- bits ----------

  /** Bit k of x: x & (1 << k) is not 0. */
  predicate Bit(x: nat, k: nat) {
    if k == 0 then x % 2 == 1 else Bit(x / 2, k - 1)
  }

  /** x | (1 << k), or x & ~(1 << k) */
  function PutBit(x: nat, k: nat, on: bool): nat {
    if k == 0 then x / 2 * 2 + (if on then 1 else 0) else PutBit(x / 2, k - 1, on) * 2 + x % 2
  }

  lemma {:induction false} PutBitBits(x: nat, k: nat, on: bool, j: nat)
    ensures Bit(PutBit(x, k, on), j) == if j == k then on else Bit(x, j)
  {
    if k > 0 && j > 0 {
      PutBitBits(x / 2, k - 1, on, j - 1);
      assert PutBit(x, k, on) / 2 == PutBit(x / 2, k - 1, on);
    }
  }

  /** A byte stays a byte. */
  lemma {:induction false} PutBitBelow(x: nat, k: nat, on: bool, width: nat, limit: nat)
    requires k < width && x < limit && (limit == 2 || limit % 2 == 0) && Halves(limit, width)
    ensures PutBit(x, k, on) < limit
  {
    if k > 0 {
      PutBitBelow(x / 2, k - 1, on, width - 1, limit / 2);
    }
  }

  /** limit is 2 to the power of width. */
  predicate Halves(limit: nat, width: nat) {
    if width == 0 then limit == 1 else limit % 2 == 0 && Halves(limit / 2, width - 1)
  }

  // ---------- words ----------

  type Word = x: int | 0 <= x < UINT

  /** ((uint*)data)[i], least significant byte first. */
  function GetWord(s: Bytes, i: int): Word
    requires 0 <= i < NINDIRECT
  {
    Join(s[4 * i], s[4 * i + 1], s[4 * i + 2], s[4 * i + 3])
  }

  function Join(b0: Byte, b1: Byte, b2: Byte, b3: Byte): Word {
    (b0 as int) + 0x100 * (b1 as int) + 0x1_0000 * (b2 as int) + 0x100_0000 * (b3 as int)
  }

  function PutWord(s: Bytes, i: int, v: Word): Bytes
    requires 0 <= i < NINDIRECT
  {
    s[4 * i := v % 0x100][4 * i + 1 := v / 0x100 % 0x100]
     [4 * i + 2 := v / 0x1_0000 % 0x100][4 * i + 3 := v / 0x100_0000]
  }

  lemma {:induction false} JoinBytes(v: Word)
    ensures Join(v % 0x100, v / 0x100 % 0x100, v / 0x1_0000 % 0x100, v / 0x100_0000) == v
  {
    var a := v / 0x100;
    var b := a / 0x100;
    assert b == v / 0x1_0000 && b / 0x100 == v / 0x100_0000;
  }

  lemma {:induction false} PutWordWords(s: Bytes, i: int, v: Word, j: int)
    requires 0 <= i < NINDIRECT && 0 <= j < NINDIRECT
    ensures GetWord(PutWord(s, i, v), j) == if j == i then v else GetWord(s, j)
  {
    JoinBytes(v);
    hide Join;
  }
}
