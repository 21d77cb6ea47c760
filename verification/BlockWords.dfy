/** Disk blocks as byte sequences, with the little-endian 32-bit word view that the
    log header (log.c) and the indirect blocks (fs.c) take of them. */
module BlockWords {

  const BSIZE := 512
  const WORDS := 128

  type Byte = b: int | 0 <= b < 256
  type Word = w: int | 0 <= w < 0x1_0000_0000
  type Block = b: seq<Byte> | |b| == BSIZE witness seq(BSIZE, _ => 0)
  type Disk = seq<Block>

  function ZeroBlock(): Block { seq(BSIZE, _ => 0) }

  /** The i-th 32-bit word of a block. */
  function WordAt(b: Block, i: nat): Word
    requires i < WORDS
  {
    var b0: int, b1: int, b2: int, b3: int := b[4 * i], b[4 * i + 1], b[4 * i + 2], b[4 * i + 3];
    b0 + 0x100 * b1 + 0x1_0000 * b2 + 0x100_0000 * b3
  }

  function SetWord(b: Block, i: nat, w: Word): Block
    requires i < WORDS
  {
    b[4 * i := w % 0x100]
     [4 * i + 1 := w / 0x100 % 0x100]
     [4 * i + 2 := w / 0x1_0000 % 0x100]
     [4 * i + 3 := w / 0x100_0000]
  }

  lemma SplitWord(w: Word)
    ensures w % 0x100 + 0x100 * (w / 0x100 % 0x100) + 0x1_0000 * (w / 0x1_0000 % 0x100) + 0x100_0000 * (w / 0x100_0000) == w
  {
    assert w / 0x1_0000 == w / 0x100 / 0x100;
    assert w / 0x100_0000 == w / 0x1_0000 / 0x100;
  }

  /** Storing a word changes that word and no other. */
  lemma SetWordAt(b: Block, i: nat, w: Word, j: nat)
    requires i < WORDS && j < WORDS
    ensures WordAt(SetWord(b, i, w), j) == if i == j then w else WordAt(b, j)
  {
    SplitWord(w);
  }

  /** A zeroed block holds only zero words. */
  lemma ZeroWords(i: nat)
    requires i < WORDS
    ensures WordAt(ZeroBlock(), i) == 0
  {
  }

}
