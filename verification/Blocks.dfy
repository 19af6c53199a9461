/** Raw 512-byte disk blocks, read either as bytes or as 256 little-endian 16-bit words. */
module Blocks {

  const BLKSIZE: nat := 512
  /** Entries of an indirect block. */
  const PTRS: nat := 256
  /** bmap's "no such block" answer. */
  const NULLBLK: Word := 65535

  type Byte = x: int | 0 <= x < 256
  type Word = x: int | 0 <= x < 65536
  type Block = b: seq<Byte> | |b| == BLKSIZE witness seq(BLKSIZE, _ => 0)

  function ZeroBlock(): (b: Block)
    ensures forall i :: 0 <= i < BLKSIZE ==> b[i] == 0
  {
    seq(BLKSIZE, _ => 0)
  }

  /** The 16-bit word at word index i. */
  function WordAt(b: Block, i: nat): Word
    requires i < PTRS
  {
    var lo: int, hi: int := b[2 * i], b[2 * i + 1];
    lo + 256 * hi
  }

  /** Store one word, leaving every other word alone. */
  function SetWord(b: Block, i: nat, w: Word): (r: Block)
    requires i < PTRS
    ensures WordAt(r, i) == w
    ensures forall j: nat :: j < PTRS && j != i ==> WordAt(r, j) == WordAt(b, j)
  {
    b[2 * i := w % 256][2 * i + 1 := w / 256]
  }

  /** Byte k of a little-endian word sequence. */
  function WordByte(ws: seq<Word>, k: nat): Byte
    requires k < 2 * |ws|
  {
    if k % 2 == 0 then ws[k / 2] % 256 else ws[k / 2] / 256
  }

  /** Copy a word sequence over the start of a block; the rest keeps the buffer's old bytes. */
  function PutWords(b: Block, ws: seq<Word>): (r: Block)
    requires |ws| <= PTRS
    ensures forall i: nat :: i < |ws| ==> WordAt(r, i) == ws[i]
    ensures r[2 * |ws|..] == b[2 * |ws|..]
  {
    var r: Block := seq(BLKSIZE, k requires 0 <= k < BLKSIZE => if k < 2 * |ws| then WordByte(ws, k) else b[k]);
    assert forall i: nat :: i < |ws| ==> WordAt(r, i) == ws[i] by {
      forall i: nat | i < |ws|
        ensures WordAt(r, i) == ws[i]
      {
        assert (2 * i) % 2 == 0 && (2 * i) / 2 == i && (2 * i + 1) % 2 == 1 && (2 * i + 1) / 2 == i;
      }
    }
    r
  }

  /** Copy bytes over part of a block. */
  function PutBytes(b: Block, at: nat, src: seq<Byte>): (r: Block)
    requires at + |src| <= BLKSIZE
    ensures forall k :: 0 <= k < BLKSIZE ==> r[k] == if at <= k < at + |src| then src[k - at] else b[k]
  {
    b[..at] + src + b[at + |src|..]
  }
}
