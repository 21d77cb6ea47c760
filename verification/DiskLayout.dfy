/** Where the file system keeps its bitmap and its inodes on the disk: bits in bytes, inodes in words. */
module DiskLayout {
  import opened BlockWords
  import opened FileModel

  // ---------- Bits of a byte ----------

  function Pow2(k: nat): nat {
    if k == 0 then 1 else 2 * Pow2(k - 1)
  }

  /** b & (1 << k) is not zero. */
  predicate Bit(b: nat, k: nat) {
    if k == 0 then b % 2 == 1 else Bit(b / 2, k - 1)
  }

  /** b | (1 << k) when v, b & ~(1 << k) otherwise. */
  function WithBit(b: nat, k: nat, v: bool): nat {
    if k == 0 then b / 2 * 2 + (if v then 1 else 0) else 2 * WithBit(b / 2, k - 1, v) + b % 2
  }

  lemma {:induction false} WithBitAt(b: nat, k: nat, v: bool, j: nat)
    ensures Bit(WithBit(b, k, v), j) == if j == k then v else Bit(b, j)
  {
    var w := WithBit(b, k, v);
    if k > 0 && j > 0 {
      WithBitAt(b / 2, k - 1, v, j - 1);
      assert w / 2 == WithBit(b / 2, k - 1, v);
    } else if k == 0 && j > 0 {
      assert w / 2 == b / 2;
    }
  }

  lemma {:induction false} WithBitFits(b: nat, k: nat, v: bool, n: nat)
    requires k < n && b < Pow2(n)
    ensures WithBit(b, k, v) < Pow2(n)
  {
    if k > 0 {
      WithBitFits(b / 2, k - 1, v, n - 1);
    }
  }

  function SetBit(b: Byte, k: nat, v: bool): Byte
    requires k < 8
  {
    assert Pow2(8) == 256 by {
      assert Pow2(4) == 16;
    }
    WithBitFits(b, k, v, 8);
    WithBit(b, k, v)
  }

  lemma {:induction false} ZeroBits(k: nat)
    ensures !Bit(0, k)
  {
    if k > 0 {
      ZeroBits(k - 1);
    }
  }

  // ---------- The bitmap ----------

  const BPB := 4096

  predicate MarkedIn(block: Block, bi: nat)
    requires bi < BPB
  {
    Bit(block[bi / 8], bi % 8)
  }

  function SetMark(block: Block, bi: nat, v: bool): Block
    requires bi < BPB
  {
    block[bi / 8 := SetBit(block[bi / 8], bi % 8, v)]
  }

  /** Setting or clearing a bit of a bitmap block changes that bit and no other. */
  lemma SetMarkAt(block: Block, bi: nat, v: bool, bj: nat)
    requires bi < BPB && bj < BPB
    ensures MarkedIn(SetMark(block, bi, v), bj) == if bi == bj then v else MarkedIn(block, bj)
  {
    if bi / 8 == bj / 8 {
      WithBitAt(block[bi / 8], bi % 8, v, bj % 8);
      assert bi == bj <==> bi % 8 == bj % 8;
    }
  }

  // ---------- Inodes ----------

  const IPB := 8

  function Low(w: Word): Half {
    w % 0x1_0000
  }

  function High(w: Word): Half {
    w / 0x1_0000
  }

  function Join(low: Half, high: Half): Word {
    low + 0x1_0000 * high
  }

  /** An inode is sixteen words: two hold the four shorts, one the size, thirteen the addresses. */
  function InodeOf(ws: seq<Word>): Inode
    requires |ws| == 16
  {
    Dinode(Low(ws[0]), High(ws[0]), Low(ws[1]), High(ws[1]), ws[2], ws[3..])
  }

  function WordsOf(ip: Inode): (ws: seq<Word>)
    ensures |ws| == 16
  {
    [Join(ip.kind, ip.major), Join(ip.minor, ip.nlink), ip.size] + ip.addrs
  }

  lemma WordsRoundTrip(ip: Inode)
    ensures InodeOf(WordsOf(ip)) == ip
  {
    assert WordsOf(ip)[3..] == ip.addrs;
  }

  /** The words of the k-th inode of a block. */
  function WordsIn(block: Block, k: nat): (ws: seq<Word>)
    requires k < IPB
    ensures |ws| == 16 && forall w :: 0 <= w < 16 ==> ws[w] == WordAt(block, 16 * k + w)
  {
    seq<Word>(16, (w: int) requires 0 <= w < 16 => WordAt(block, 16 * k + w))
  }

  function InodeIn(block: Block, k: nat): Inode
    requires k < IPB
  {
    InodeOf(WordsIn(block, k))
  }

  /** The first n of the words are stored in place k. */
  function StoreWords(block: Block, k: nat, ws: seq<Word>, n: nat): Block
    requires k < IPB && n <= 16 == |ws|
  {
    if n == 0 then block else SetWord(StoreWords(block, k, ws, n - 1), 16 * k + n - 1, ws[n - 1])
  }

  lemma {:induction false} StoreWordsAt(block: Block, k: nat, ws: seq<Word>, n: nat, j: nat)
    requires k < IPB && n <= 16 == |ws| && j < WORDS
    ensures WordAt(StoreWords(block, k, ws, n), j) ==
      if 16 * k <= j < 16 * k + n then ws[j - 16 * k] else WordAt(block, j)
  {
    if n > 0 {
      StoreWordsAt(block, k, ws, n - 1, j);
      SetWordAt(StoreWords(block, k, ws, n - 1), 16 * k + n - 1, ws[n - 1], j);
    }
  }

  lemma StoredWords(block: Block, k: nat, ws: seq<Word>, j: nat)
    requires k < IPB && j < IPB && |ws| == 16
    ensures WordsIn(StoreWords(block, k, ws, 16), j) == if j == k then ws else WordsIn(block, j)
  {
    var block' := StoreWords(block, k, ws, 16);
    var got, want := WordsIn(block', j), if j == k then ws else WordsIn(block, j);
    forall w | 0 <= w < 16
      ensures got[w] == want[w]
    {
      StoreWordsAt(block, k, ws, 16, 16 * j + w);
    }
  }

  /** Reading back a stored inode gives it, and its neighbours in the block are untouched. */
  lemma StoreRoundTrip(block: Block, k: nat, ip: Inode, j: nat)
    requires k < IPB && j < IPB
    ensures InodeIn(StoreWords(block, k, WordsOf(ip), 16), j) == if j == k then ip else InodeIn(block, j)
  {
    StoredWords(block, k, WordsOf(ip), j);
    WordsRoundTrip(ip);
  }
}
