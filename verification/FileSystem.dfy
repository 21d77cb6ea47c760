/** fs.c's block allocator and inode contents as they run on the blocks of the disk. */
module FileSystem {
  import opened Common
  import opened BlockWords
  import opened FileModel
  import opened FileTrunc
  import opened DiskLayout
  import opened FileCost
  import opened WriteTrace
  import Log
  import opened FileState

  class FileSys {
    const g: Geo
    const nlog: nat
    var blocks: Disk
    var mem: seq<Inode>
    ghost var fs: Fs
    ghost var owner: map<nat, (nat, nat)>
    ghost var base: Disk
    ghost var lh0: set<nat>
    ghost var trace: Trace
    ghost var touched: set<nat>
    var lh: set<nat>
    var refused: bool

    /** The blocks hold the state. `trace` is what the operation in progress has passed to log_write since the disk
        was `base` and the log listed the blocks `lh0`, and `touched` is its block numbers. The log, of nlog blocks,
        now lists `lh`; `refused` says that log_write has met its test for too big a transaction. That is a panic:
        the kernel gets no further, although the model runs on. */
    ghost predicate Coupled()
      reads this
    {
      Couples(g, blocks, mem, fs) && Known(Recorded(nlog, base, lh0, trace, blocks, touched, lh, refused))
    }

    /** The kernel runs and nothing is pending: ownership and sizes are right, and the disk has every inode as
        memory has it. */
    ghost predicate Valid()
      reads this
    {
      Coupled() && Good(fs, owner) && Synced(g, blocks, mem) && !refused
    }

    /** A disk as mkfs starts one: zeroes, then a bitmap in which the blocks before the data are marked. */
    constructor Make(g: Geo, nlog: nat)
      requires GeoOk(g)
      ensures this.g == g && this.nlog == nlog && Valid() && fs == Blank(g.first, g.size, g.ninodes, g.first)
      ensures trace == Began && lh == {}
    {
      this.g, this.nlog := g, nlog;
      var bs: Disk := seq(g.size, _ => ZeroBlock());
      var table: seq<Inode> := seq(g.ninodes, _ => EmptyInode());
      BlankCouples(g);
      var b := 0;
      while b < g.first
        invariant b <= g.first && Couples(g, bs, table, Blank(g.first, g.size, g.ninodes, b)) && Synced(g, bs, table)
      {
        BlankMarked(g.first, g.size, g.ninodes, b);
        MarkCouples(g, bs, table, Blank(g.first, g.size, g.ninodes, b), b, true);
        ghost var bs0 := bs;
        var bb := g.bmapstart + b / BPB;
        bs := bs[bb := SetMark(bs[bb], b % BPB, true)];
        SyncedStays(g, bs0, bs, table);
        b := b + 1;
      }
      BlankGood(g.first, g.size, g.ninodes);
      blocks, mem, base := bs, table, bs;
      fs, owner := Blank(g.first, g.size, g.ninodes, g.first), map[];
      trace, touched, lh, lh0, refused := Began, {}, {}, {}, false;
    }

    /** The first block whose bit is clear. */
    method FindFree() returns (r: Option<nat>)
      requires Coupled()
      ensures r.Some? ==> r.value < g.size && !fs.used[r.value]
      ensures forall c :: 0 <= c < (if r.Some? then r.value else g.size) ==> fs.used[c]
    {
      var b := 0;
      while b < g.size
        invariant b % BPB == 0
        invariant forall c :: 0 <= c < b && c < g.size ==> fs.used[c]
      {
        var block := blocks[g.bmapstart + b / BPB];
        var bi := 0;
        while bi < BPB && b + bi < g.size
          invariant 0 <= bi <= BPB
          invariant forall c :: 0 <= c < b + bi && c < g.size ==> fs.used[c]
        {
          assert (b + bi) / BPB == b / BPB && (b + bi) % BPB == bi;
          assert fs.used[b + bi] == Marked(g, blocks, b + bi);
          if !Bit(block[bi / 8], bi % 8) {
            return Some(b + bi);
          }
          bi := bi + 1;
        }
        b := b + BPB;
      }
      r := None;
    }

    /** A block changed in its buffer and passed to log_write, which tests the size of the transaction before it
        looks whether the block is in it already. */
    method Put(b: nat, block: Block)
      requires b < |blocks| && Known(Recorded(nlog, base, lh0, trace, blocks, touched, lh, refused))
      modifies `blocks, `trace, `touched, `lh, `refused
      ensures blocks == old(blocks)[b := block] && Known(Recorded(nlog, base, lh0, trace, blocks, touched, lh, refused))
      ensures trace == Then(old(trace), b, block) && touched == old(touched) + {b} && lh == old(lh) + {b}
      ensures refused <==> Log.TooMany(nlog, |old(lh)|)
    {
      RefusedStays(nlog, base, lh0, trace);
      if |lh| >= Log.LOGSIZE || |lh| >= nlog - 1 {
        refused := true;
      }
      lh := lh + {b};
      blocks := blocks[b := block];
      trace := Then(trace, b, block);
      touched := touched + {b};
    }

    /** begin_op: a new operation starts to be recorded, with the blocks `pending` of others in the log. */
    method BeginOp(pending: set<nat>)
      requires Valid()
      modifies `base, `lh0, `trace, `touched, `lh
      ensures Valid() && base == blocks && trace == Began && touched == {} && lh == lh0 == pending
    {
      base, lh0, trace, touched := blocks, pending, Began, {};
      lh := pending;
    }

    method Mark(b: nat, v: bool)
      requires Coupled() && b < g.size
      modifies `blocks, `fs, `trace, `touched, `lh, `refused
      ensures Coupled() && fs == old(fs).(used := old(fs).used[b := v])
      ensures SameInodes(g, old(blocks), blocks)
      ensures touched == old(touched) + {BitmapBlock(g.bmapstart, b)} && lh == old(lh) + {BitmapBlock(g.bmapstart, b)}
    {
      var bb := g.bmapstart + b / BPB;
      MarkCouples(g, blocks, mem, fs, b, v);
      Put(bb, SetMark(blocks[bb], b % BPB, v));
      fs := fs.(used := fs.used[b := v]);
    }

    method WriteData(b: nat, block: Block)
      requires Coupled() && g.first <= b < g.size
      modifies `blocks, `fs, `trace, `touched, `lh, `refused
      ensures Coupled() && fs == old(fs).(data := old(fs).data[b := block])
      ensures SameInodes(g, old(blocks), blocks) && touched == old(touched) + {b}
      ensures refused <==> Log.TooMany(nlog, |old(lh)|)
    {
      DataCouples(g, blocks, mem, fs, b, block);
      Put(b, block);
      fs := fs.(data := fs.data[b := block]);
    }

    /** The first free block, now marked and zeroed; None stands for the panic. */
    method BAlloc() returns (r: Option<nat>)
      requires Coupled() && forall c :: 0 <= c < g.first ==> fs.used[c]
      modifies `blocks, `fs, `trace, `touched, `lh, `refused
      ensures Coupled() && Known(SameInodes(g, old(blocks), blocks))
      ensures r.None? ==> trace == old(trace) && touched == old(touched) && fs == old(fs)
      ensures r.None? ==> forall c :: 0 <= c < g.size ==> fs.used[c]
      ensures r.Some? ==> g.first <= r.value < g.size && !old(fs).used[r.value]
      ensures r.Some? ==> forall c :: 0 <= c < r.value ==> old(fs).used[c]
      ensures r.Some? ==> fs == old(fs).(used := old(fs).used[r.value := true],
                                         data := old(fs).data[r.value := ZeroBlock()])
      ensures r.Some? ==> touched == old(touched) + {BitmapBlock(g.bmapstart, r.value), r.value}
    {
      r := FindFree();
      if r.Some? {
        Mark(r.value, true);
        WriteData(r.value, ZeroBlock());
      }
    }

    /** Freeing a marked block clears its bit; false stands for the panic on a clear one. */
    method BFree(b: nat) returns (ok: bool)
      requires Coupled() && b < g.size
      modifies `blocks, `fs, `trace, `touched, `lh, `refused
      ensures Coupled() && Known(SameInodes(g, old(blocks), blocks))
      ensures ok <==> old(fs).used[b]
      ensures ok ==> touched == old(touched) + {BitmapBlock(g.bmapstart, b)} && lh == old(lh) + {BitmapBlock(g.bmapstart, b)}
      ensures !ok ==> trace == old(trace) && touched == old(touched)
      ensures fs == if ok then old(fs).(used := old(fs).used[b := false]) else old(fs)
    {
      var block := blocks[g.bmapstart + b / BPB];
      assert fs.used[b] == Marked(g, blocks, b);
      if !Bit(block[b % BPB / 8], b % BPB % 8) {
        return false;
      }
      Mark(b, false);
      ok := true;
    }

    /** Copy the inode in memory to the disk. */
    method IUpdate(i: nat)
      requires Coupled() && i < g.ninodes
      modifies `blocks, `trace, `touched, `lh, `refused
      ensures Coupled() && OnDisk(g, blocks, i) == mem[i] && OthersOnDisk(g, old(blocks), blocks, i)
      ensures touched == old(touched) + {InodeBlock(g, i)} && lh == old(lh) + {InodeBlock(g, i)}
      ensures refused <==> Log.TooMany(nlog, |old(lh)|)
    {
      var ib := g.inodestart + i / IPB;
      var block := StoreInode(blocks[ib], i % IPB, mem[i]);
      InodeCouples(g, blocks, mem, fs, i, mem[i], block);
      Put(ib, block);
    }

    /** A fresh block for an empty direct or indirect slot of inode i. */
    method FillDirect(i: nat, k: nat) returns (r: Option<nat>)
      requires Coupled() && Known(OwnedBy(fs, owner)) && i < g.ninodes && k <= NDIRECT && mem[i].addrs[k] == 0
      modifies `blocks, `mem, `fs, `owner, `trace, `touched, `lh, `refused
      ensures Coupled() && Known(OwnedBy(fs, owner)) && Known(SameInodes(g, old(blocks), blocks))
      ensures Known(Filled(g.bmapstart, old(fs), fs, i, k, r, old(touched), touched))
      ensures r.None? ==> mem == old(mem) && trace == old(trace)
    {
      r := BAlloc();
      if r.Some? {
        var b := r.value;
        mem := mem[i := mem[i].(addrs := mem[i].addrs[k := b])];
        fs := fs.(table := mem);
        GiveFills(g.bmapstart, old(fs), owner, fs, i, k, b, old(touched), touched);
        owner := owner[b := (i, k)];
      }
    }

    /** A fresh block for an empty word of inode i's indirect block. */
    method FillIndirect(i: nat, k: nat) returns (r: Option<nat>)
      requires Coupled() && Known(OwnedBy(fs, owner)) && i < g.ninodes && NDIRECT < k < SLOTS
      requires mem[i].addrs[NDIRECT] != 0 && SlotAt(fs, i, k) == 0
      modifies `blocks, `mem, `fs, `owner, `trace, `touched, `lh, `refused
      ensures Coupled() && Known(OwnedBy(fs, owner)) && Known(SameInodes(g, old(blocks), blocks)) && mem == old(mem)
      ensures Known(Filled(g.bmapstart, old(fs), fs, i, k, r, old(touched), touched))
      ensures r.None? ==> trace == old(trace)
    {
      ghost var fs0, touched0 := fs, touched;
      IndirectOwned(fs, owner, i);
      r := BAlloc();
      if r.Some? {
        var a, b := mem[i].addrs[NDIRECT], r.value;
        WriteData(a, SetWord(blocks[a], k - 13, b));
        GiveFills(g.bmapstart, fs0, owner, fs, i, k, b, touched0, touched);
        owner := owner[b := (i, k)];
      }
    }

    method MapDirect(i: nat, bn: nat) returns (r: Addr, ghost K: set<nat>)
      requires Coupled() && Known(OwnedBy(fs, owner)) && i < g.ninodes && bn < NDIRECT
      modifies `blocks, `mem, `fs, `owner, `trace, `touched, `lh, `refused
      ensures Coupled() && Known(OwnedBy(fs, owner)) && Known(SameInodes(g, old(blocks), blocks))
      ensures Charged(g.bmapstart, old(fs), fs, i, K, old(touched), touched)
      ensures Mapped(old(fs), fs, i, bn, r, K) && (HasSlot(old(fs), i, DataSlot(bn)) ==> trace == old(trace))
    {
      GrewNothing(fs, i);
      ChargedNothing(g.bmapstart, fs, i, touched);
      var addr := mem[i].addrs[bn];
      if addr != 0 {
        return At(addr), {};
      }
      var b := FillDirect(i, bn);
      if b.None? {
        return OutOfBlocks, {};
      }
      r, K := At(b.value), {bn};
    }

    /** The indirect block itself, allocated if it is missing. */
    method LoadIndirect(i: nat) returns (ok: bool, ghost K: set<nat>)
      requires Coupled() && Known(OwnedBy(fs, owner)) && i < g.ninodes
      modifies `blocks, `mem, `fs, `owner, `trace, `touched, `lh, `refused
      ensures Coupled() && Known(OwnedBy(fs, owner)) && Known(SameInodes(g, old(blocks), blocks))
      ensures Charged(g.bmapstart, old(fs), fs, i, K, old(touched), touched)
      ensures Loaded(old(fs), fs, i, ok, K) && (HasSlot(old(fs), i, NDIRECT) ==> trace == old(trace))
    {
      GrewNothing(fs, i);
      ChargedNothing(g.bmapstart, fs, i, touched);
      if mem[i].addrs[NDIRECT] != 0 {
        return true, {};
      }
      var b := FillDirect(i, NDIRECT);
      if b.None? {
        return false, {};
      }
      ok, K := true, {NDIRECT};
    }

    /** The rest of bmap when the block's word is empty. */
    method FillWord(i: nat, bn: nat, k: nat, ghost fs0: Fs, ghost touched0: set<nat>, ghost K0: set<nat>,
                    ghost before: bool)
      returns (r: Addr, ghost K: set<nat>)
      requires Coupled() && Known(OwnedBy(fs, owner)) && i < g.ninodes && NDIRECT <= bn < NDIRECT + NINDIRECT && k == bn + 1
      requires before == (Loaded(fs0, fs, i, true, K0) && Charged(g.bmapstart, fs0, fs, i, K0, touched0, touched))
      requires before && mem[i].addrs[NDIRECT] != 0 && SlotAt(fs, i, k) == 0
      modifies `blocks, `mem, `fs, `owner, `trace, `touched, `lh, `refused
      ensures Coupled() && Known(OwnedBy(fs, owner)) && Known(SameInodes(g, old(blocks), blocks))
      ensures Charged(g.bmapstart, fs0, fs, i, K, touched0, touched)
      ensures Mapped(fs0, fs, i, bn, r, K)
    {
      var b := FillIndirect(i, k);
      ghost var after := Filled(g.bmapstart, old(fs), fs, i, k, b, old(touched), touched);
      r := if b.None? then OutOfBlocks else At(b.value);
      K := WordEnds(g.bmapstart, fs0, old(fs), fs, i, bn, k, b, K0, touched0, old(touched), touched, before, after);
    }

    /** The rest of bmap once the indirect block is there, which took the slots K0: the block's word, filled if
        it is empty. */
    method MapWord(i: nat, bn: nat, ghost fs0: Fs, ghost touched0: set<nat>, ghost K0: set<nat>)
      returns (r: Addr, ghost K: set<nat>)
      requires Coupled() && Known(OwnedBy(fs, owner)) && i < g.ninodes && NDIRECT <= bn < NDIRECT + NINDIRECT
      requires Loaded(fs0, fs, i, true, K0) && Charged(g.bmapstart, fs0, fs, i, K0, touched0, touched)
      modifies `blocks, `mem, `fs, `owner, `trace, `touched, `lh, `refused
      ensures Coupled() && Known(OwnedBy(fs, owner)) && Known(SameInodes(g, old(blocks), blocks))
      ensures Charged(g.bmapstart, fs0, fs, i, K, touched0, touched)
      ensures Mapped(fs0, fs, i, bn, r, K) && (HasSlot(old(fs), i, bn + 1) ==> trace == old(trace))
    {
      ghost var before := Loaded(fs0, fs, i, true, K0) && Charged(g.bmapstart, fs0, fs, i, K0, touched0, touched);
      IndirectOwned(fs, owner, i);
      var addr := WordAt(blocks[mem[i].addrs[NDIRECT]], bn - NDIRECT);
      assert addr == SlotAt(fs, i, bn + 1);
      if addr != 0 {
        WordThere(fs0, fs, i, bn, addr, K0);
        return At(addr), K0;
      }
      r, K := FillWord(i, bn, bn + 1, fs0, touched0, K0, before);
    }

    method MapIndirect(i: nat, bn: nat) returns (r: Addr, ghost K: set<nat>)
      requires Coupled() && Known(OwnedBy(fs, owner)) && i < g.ninodes && NDIRECT <= bn < NDIRECT + NINDIRECT
      modifies `blocks, `mem, `fs, `owner, `trace, `touched, `lh, `refused
      ensures Coupled() && Known(OwnedBy(fs, owner)) && Known(SameInodes(g, old(blocks), blocks))
      ensures Charged(g.bmapstart, old(fs), fs, i, K, old(touched), touched)
      ensures Mapped(old(fs), fs, i, bn, r, K) && (HasSlot(old(fs), i, DataSlot(bn)) ==> trace == old(trace))
    {
      var ok;
      ok, K := LoadIndirect(i);
      if ok {
        r, K := MapWord(i, bn, old(fs), old(touched), K);
      } else {
        r := OutOfBlocks;
        MappedFails(old(fs), fs, i, bn, K);
      }
    }

    /** The address of block bn of inode i, which is allocated if it is missing. K is the slots filled. */
    method BMap(i: nat, bn: nat) returns (r: Addr, ghost K: set<nat>)
      requires Coupled() && Known(OwnedBy(fs, owner)) && i < g.ninodes
      modifies `blocks, `mem, `fs, `owner, `trace, `touched, `lh, `refused
      ensures Coupled() && Known(OwnedBy(fs, owner)) && Known(SameInodes(g, old(blocks), blocks))
      ensures Charged(g.bmapstart, old(fs), fs, i, K, old(touched), touched)
      ensures r == OutOfRange <==> bn >= NDIRECT + NINDIRECT
      ensures r == OutOfRange ==> fs == old(fs)
      ensures bn < NDIRECT + NINDIRECT ==> Mapped(old(fs), fs, i, bn, r, K)
      ensures HasSlot(old(fs), i, DataSlot(bn)) ==> trace == old(trace)
    {
      if bn < NDIRECT {
        r, K := MapDirect(i, bn);
      } else if bn < NDIRECT + NINDIRECT {
        r, K := MapIndirect(i, bn);
      } else {
        ChargedNothing(g.bmapstart, fs, i, touched);
        r, K := OutOfRange, {};
      }
    }

    // ---------- Reading ----------

    /** A block the file has is found without changing anything. */
    method ReadBlock(i: nat, n: nat) returns (block: Block)
      requires Valid() && IsFileBlock(fs, i, n)
      modifies `blocks, `mem, `fs, `owner, `trace, `touched, `lh, `refused
      ensures Valid() && fs == old(fs) && trace == old(trace) && touched == old(touched)
      ensures block == BlockOf(fs, i, n)
    {
      assert HasSlot(fs, i, DataSlot(n));
      var r, _ := BMap(i, n);
      BlockOwned(fs, owner, i, DataSlot(n));
      block := blocks[r.b];
    }

    /** m bytes of the file from off, which lie in one block. */
    method ReadRound(i: nat, off: nat, m: nat, ghost c: seq<Byte>) returns (chunk: seq<Byte>)
      requires Valid() && i < g.ninodes && 0 < m && off % BSIZE + m <= BSIZE && off + m <= mem[i].size
      requires Compact(fs, i) && Reads(fs, i, c)
      modifies `blocks, `mem, `fs, `owner, `trace, `touched, `lh, `refused
      ensures Valid() && fs == old(fs) && trace == old(trace) && touched == old(touched)
      ensures chunk == c[off..off + m]
    {
      BelowSize(fs, i, off);
      var block := ReadBlock(i, off / BSIZE);
      ReadSlice(fs, i, off, m, c);
      chunk := block[off % BSIZE..off % BSIZE + m];
    }

    method ReadLoop(i: nat, off: nat, n: nat, ghost c: seq<Byte>) returns (dst: seq<Byte>)
      requires Valid() && i < g.ninodes && off + n <= mem[i].size
      requires Compact(fs, i) && Reads(fs, i, c)
      modifies `blocks, `mem, `fs, `owner, `trace, `touched, `lh, `refused
      ensures Valid() && fs == old(fs) && trace == old(trace) && touched == old(touched)
      ensures dst == c[off..off + n]
    {
      dst := [];
      var tot := 0;
      while tot < n
        invariant 0 <= tot <= n && Valid() && fs == old(fs) && trace == old(trace) && touched == old(touched)
        invariant dst == c[off..off + tot]
      {
        var m := RoundLength(off + tot, n - tot);
        var chunk := ReadRound(i, off + tot, m, c);
        SliceOn(c, off, off + tot, off + tot + m);
        dst := dst + chunk;
        tot := tot + m;
      }
    }

    method ReadBytes(i: nat, off: nat, n: nat) returns (dst: seq<Byte>)
      requires Valid() && i < g.ninodes && off + n <= mem[i].size
      modifies `blocks, `mem, `fs, `owner, `trace, `touched, `lh, `refused
      ensures Valid() && fs == old(fs) && trace == old(trace) && touched == old(touched)
      ensures Known(ReadsSlice(fs, i, off, n, dst))
    {
      assert Compact(fs, i);
      ghost var c := Contents(fs, i);
      ReadsContents(fs, i, c);
      dst := ReadLoop(i, off, n, c);
    }

    /** readi: the bytes of the file from off, at most n and at most what there is. */
    method ReadI(i: nat, off: Word, n: Word) returns (r: Io, dst: seq<Byte>)
      requires Valid() && i < g.ninodes
      modifies `blocks, `mem, `fs, `owner, `trace, `touched, `lh, `refused
      ensures Valid() && fs == old(fs) && trace == old(trace) && touched == old(touched)
      ensures r.Device? || r.Failed? || r.Count?
      ensures r == Device <==> mem[i].kind == T_DEV
      ensures r == Failed <==> mem[i].kind != T_DEV && (off > mem[i].size || off + n >= 0x1_0000_0000)
      ensures r.Count? ==> r.n == Min(n, mem[i].size - off) && Known(ReadsSlice(fs, i, off, r.n, dst))
    {
      WrapTest(off, n);
      dst := [];
      if mem[i].kind == T_DEV {
        r := Device;
      } else if off > mem[i].size || (off + n) % 0x1_0000_0000 < off {
        r := Failed;
      } else {
        var len := if off + n > mem[i].size then mem[i].size - off else n;
        dst := ReadBytes(i, off, len);
        r := Count(len);
      }
    }

    // ---------- Writing ----------

    /** One round of writei: make room, then put the bytes. E is how far the file reaches, ahead of the size
        that is still in the inode. */
    method WriteRound(i: nat, off: nat, chunk: seq<Byte>, ghost end: nat, ghost E: Word, ghost c: seq<Byte>)
      returns (ok: bool)
      requires Coupled() && i < g.ninodes && Known(Midway(fs, owner, i, E, c)) && InOneBlock(E, off, |chunk|)
      requires end == off + |chunk|
      modifies `blocks, `mem, `fs, `owner, `trace, `touched, `lh, `refused
      ensures Coupled() && Known(SameInodes(g, old(blocks), blocks)) && Known(SlotsKept(old(fs), fs, i))
      ensures ok ==> Known(RoundDone(old(fs), fs, owner, i, off, chunk, E, c))
      ensures ok ==> Known(RoundCharged(g.bmapstart, old(fs), fs, i, off, E, end, old(touched), touched))
      ensures ok && end <= E ==> (refused <==> Log.TooMany(nlog, |old(lh)|))
      ensures !ok ==> AllUsed(fs) && end > E && Known(OwnedBy(fs, owner)) && Known(Short(old(fs), fs, i, E, end))
    {
      ResizedGood(fs, owner, i, E);
      if end <= E {
        RoundInside(fs, owner, i, off, |chunk|, E, c);
      }
      ghost var m, fs0, touched0 := owner, fs, touched;
      var r, K := BMap(i, off / BSIZE);
      ghost var fs1, touched1 := fs, touched;
      if r == OutOfBlocks {
        RoundStops(fs0, m, fs1, i, off, end, K, E, c, g.bmapstart, touched0, touched1);
        return false;
      }
      MappedBlock(fs0, fs1, owner, i, off / BSIZE, r.b, K);
      var block := Splice(blocks[r.b], off % BSIZE, chunk);
      WriteData(r.b, block);
      RoundWhole(g.bmapstart, fs0, m, fs1, owner, fs, i, off, end, chunk, K, E, c, r.b, block,
                 touched0, touched1, touched);
      ok := true;
    }

    /** The round that follows after tot bytes, at p. */
    method WriteNext(i: nat, src: seq<Byte>, tot: nat, p: nat, ghost off: nat, ghost goal: nat, ghost fs0: Fs,
                     ghost c: seq<Byte>, ghost T0: set<nat>)
      returns (ok: bool, tot': nat, p': nat)
      requires Coupled() && i < g.ninodes && tot < |src| && p == off + tot && goal == off + |src|
      requires p == off || p % BSIZE == 0
      requires Known(SoFar(fs0, fs, owner, i, off, src, tot, c))
      requires Known(Spent(g.bmapstart, fs0, fs, i, |c|, off, p, T0, touched))
      modifies `blocks, `mem, `fs, `owner, `trace, `touched, `lh, `refused
      ensures Coupled() && Known(SameInodes(g, old(blocks), blocks))
      ensures tot < tot' <= |src| && p' == off + tot' && (tot' == |src| || p' % BSIZE == 0)
      ensures ok ==> Known(SoFar(fs0, fs, owner, i, off, src, tot', c))
      ensures ok ==> Known(Spent(g.bmapstart, fs0, fs, i, |c|, off, p', T0, touched))
      ensures ok && p' <= |c| ==> Known(LastIs(fs, i, off, p', T0, old(touched)))
      ensures ok && p' <= |c| ==> (refused <==> Log.TooMany(nlog, |old(lh)|))
      ensures !ok ==> AllUsed(fs) && goal > |c| && Known(OwnedBy(fs, owner)) && Known(Short(fs0, fs, i, |c|, goal))
    {
      var chunk;
      chunk, tot', p' := NextRound(src, tot, p);
      SoFarRoom(fs0, fs, owner, i, off, src, tot, c);
      ghost var m1, E: Word, c1 := owner, Max(|c|, p), Patch(c, off, src[..tot]);
      ok := WriteRound(i, p, chunk, p', E, c1);
      if ok {
        NextEnds(g.bmapstart, fs0, old(fs), m1, fs, owner, i, off, src, tot, tot', c, p, p', chunk, E, c1, T0, old(touched),
                 touched);
      } else {
        ShortOn(g.bmapstart, fs0, old(fs), fs, i, |c|, off, p, p', goal, E, T0, old(touched));
      }
    }

    /** The rounds; T1 is what they have passed to log_write before the last one. */
    method WriteLoop(i: nat, src: seq<Byte>, off: nat, ghost goal: nat, ghost c: seq<Byte>)
      returns (ok: bool, p: nat, ghost T1: set<nat>)
      requires Coupled() && i < g.ninodes && Good(fs, owner) && Reads(fs, i, c)
      requires off <= |c| && goal == off + |src| <= MAXBYTES
      modifies `blocks, `mem, `fs, `owner, `trace, `touched, `lh, `refused
      ensures Coupled() && Known(SameInodes(g, old(blocks), blocks))
      ensures ok ==> p == goal && Known(SoFar(old(fs), fs, owner, i, off, src, |src|, c))
      ensures ok ==> Known(Spent(g.bmapstart, old(fs), fs, i, |c|, off, p, old(touched), touched))
      ensures ok ==>
        Known(RoundsRefused(nlog, lh0, fs, i, |c|, off, |src|, p, old(touched), T1, old(refused), refused))
      ensures !ok ==> AllUsed(fs) && goal > |c| && Known(OwnedBy(fs, owner)) && Known(Short(old(fs), fs, i, |c|, goal))
    {
      SoFarStart(fs, owner, i, off, src, c);
      SpentStart(g.bmapstart, fs, i, |c|, off, touched);
      var tot := 0;
      ok, p, T1 := true, off, touched;
      while ok && tot < |src|
        invariant 0 <= tot <= |src| && p == off + tot && (tot == 0 || tot == |src| || p % BSIZE == 0)
        invariant Coupled() && Known(SameInodes(g, old(blocks), blocks))
        invariant ok ==> Known(SoFar(old(fs), fs, owner, i, off, src, tot, c))
        invariant ok ==> Known(Spent(g.bmapstart, old(fs), fs, i, |c|, off, p, old(touched), touched))
        invariant tot == 0 ==> ok && refused == old(refused)
        invariant ok && tot > 0 && p <= |c| ==> Known(LastIs(fs, i, off, p, old(touched), T1))
        invariant ok && tot > 0 && p <= |c| ==> (refused <==> Log.TooMany(nlog, |lh0 + T1|))
        invariant !ok ==> AllUsed(fs) && goal > |c| && Known(OwnedBy(fs, owner)) && Known(Short(old(fs), fs, i, |c|, goal))
        decreases |src| - tot
      {
        LogLists(nlog, base, lh0, trace);
        T1 := touched;
        ok, tot, p := WriteNext(i, src, tot, p, off, goal, old(fs), c, old(touched));
      }
    }

    /** A file that has grown has its size set in memory and its inode written. */
    method GrowTo(i: nat, n: nat, end: Word, ghost size: Word, ghost size': Word)
      requires Coupled() && i < g.ninodes && mem[i].size == size && (n == 0 ==> end <= size) && size' == Max(size, end)
      modifies `mem, `fs, `blocks, `trace, `touched, `lh, `refused
      ensures Coupled() && fs == Resized(old(fs), i, size')
      ensures OthersOnDisk(g, old(blocks), blocks, i)
      ensures OnDisk(g, blocks, i) == if end > size then mem[i] else OnDisk(g, old(blocks), i)
      ensures touched == old(touched) + GrowSet(g, i, size, end)
      ensures refused <==> if end > size then Log.TooMany(nlog, |lh0 + old(touched)|) else old(refused)
    {
      if n > 0 && end > mem[i].size {
        LogLists(nlog, base, lh0, trace);
        mem := mem[i := mem[i].(size := end)];
        fs := fs.(table := mem);
        IUpdate(i);
      }
    }

    /** After the loop, at end: a file that has not grown needs no update, since its inode has not changed. */
    method Finish(i: nat, n: nat, end: nat, ghost size: Word, ghost size': Word, ghost table0: seq<Inode>)
      requires Coupled() && i < g.ninodes && mem[i].size == size && (n == 0 ==> end <= size) && size' == Max(size, end)
      requires end < 0x1_0000_0000 && |table0| == g.ninodes && Known(Synced(g, blocks, table0))
      requires mem == table0[i := mem[i]] && (end <= size ==> mem == table0)
      modifies `mem, `fs, `blocks, `trace, `touched, `lh, `refused
      ensures Coupled() && fs == Resized(old(fs), i, size') && Known(Synced(g, blocks, mem))
      ensures touched == old(touched) + GrowSet(g, i, size, end)
      ensures refused <==> if end > size then Log.TooMany(nlog, |lh0 + old(touched)|) else old(refused)
    {
      ghost var blocks0 := blocks;
      GrowTo(i, n, end, size, size');
      SyncedAfter(g, blocks0, blocks, table0, mem, i);
    }

    method WriteBytes(i: nat, src: seq<Byte>, off: nat, ghost goal: nat, ghost c: seq<Byte>) returns (ok: bool)
      requires Valid() && i < g.ninodes && Reads(fs, i, c) && off <= |c| && goal == off + |src| <= MAXBYTES
      modifies `blocks, `mem, `fs, `owner, `trace, `touched, `lh, `refused
      ensures Coupled()
      ensures ok ==> Known(Good(fs, owner)) && Known(Synced(g, blocks, mem)) && Known(WroteFile(old(fs), fs, i, off, src))
      ensures ok ==> Known(LogsTo(g, old(fs), fs, i, off, goal, old(touched), touched))
      ensures ok ==> Known(RefusedAt(g.bmapstart, nlog, lh0, fs, i, |c|, off, goal, old(touched), old(refused), refused))
      ensures !ok ==> AllUsed(fs) && goal > |c| && Known(OwnedBy(fs, owner)) && Known(Short(old(fs), fs, i, |c|, goal))
    {
      var end;
      ghost var T1;
      ok, end, T1 := WriteLoop(i, src, off, goal, c);
      if ok {
        SyncedStays(g, old(blocks), blocks, old(mem));
        SoFarSize(old(fs), fs, owner, i, off, src, c);
        ghost var size: Word, size': Word, fs1, touched1, refused1 := |c|, Max(|c|, goal), fs, touched, refused;
        Finish(i, |src|, end, size, size', old(mem));
        WriteEnds(g, nlog, lh0, old(fs), fs1, fs, owner, i, size, size', off, goal, src, c, old(touched), T1, touched1,
                  touched, old(refused), refused1, refused);
      }
    }

    /** writei: the file reads as before with src patched in at off. It is `done` unless balloc found no block; but
        if log_write has refused on the way, that is where the kernel stopped. */
    method WriteI(i: nat, src: seq<Byte>, off: Word) returns (r: Io, ghost done: bool)
      requires Valid() && i < g.ninodes && |src| < 0x1_0000_0000
      modifies `blocks, `mem, `fs, `owner, `trace, `touched, `lh, `refused
      ensures r == Device <==> old(fs).table[i].kind == T_DEV
      ensures r == Failed <==> old(fs).table[i].kind != T_DEV && !Fits(old(fs).table[i].size, off, |src|)
      ensures r == Device || r == Failed ==> Valid() && fs == old(fs) && trace == old(trace) && !done
      ensures r == TooBig <==> refused
      ensures r.Count? ==> done && r.n == |src| && Valid()
      ensures done ==> Coupled() && Known(WroteFile(old(fs), fs, i, off, src)) && Known(OwnedBy(fs, owner))
      ensures done ==> Known(Logs(g, old(fs), fs, i, off, |src|, old(touched), touched))
      ensures done ==> Known(Refused(g.bmapstart, nlog, lh0, old(fs), fs, i, off, |src|, old(touched), false, refused))
      ensures done ==> r.Count? || r == TooBig
      ensures r == Panicked || (r == TooBig && !done) ==> AllUsed(fs) && off + |src| > old(fs).table[i].size
      ensures r == Panicked || (r == TooBig && !done) ==>
        Coupled() && Known(OwnedBy(fs, owner)) && Known(Shortage(old(fs), fs, i, off, |src|))
    {
      if mem[i].kind == T_DEV {
        return Device, false;
      }
      WrapTest(off, |src|);
      if off > mem[i].size || (off + |src|) % 0x1_0000_0000 < off {
        return Failed, false;
      }
      if off + |src| > MAXBYTES {
        return Failed, false;
      }
      assert Compact(fs, i);
      ghost var c, goal := Contents(fs, i), off + |src|;
      ReadsContents(fs, i, c);
      var ok := WriteBytes(i, src, off, goal, c);
      done := ok;
      if ok {
        LogsAt(g, old(fs), fs, i, off, |src|, goal, old(touched), touched);
        RefusedIs(g.bmapstart, nlog, lh0, old(fs), fs, i, |c|, off, |src|, goal, old(touched), old(refused), refused);
      } else {
        ShortageIs(old(fs), fs, i, |c|, off, |src|, goal);
      }
      r := if refused then TooBig else if ok then Count(|src|) else Panicked;
    }

    // ---------- Truncation ----------

    /** Free the block in slot k, if there is one. The bit is always found set. */
    method FreeOne(i: nat, k: nat, a: Word, ghost fs0: Fs, ghost m: map<nat, (nat, nat)>)
      requires Coupled() && OwnedBy(fs0, m) && i < |fs0.table| && |fs0.used| == g.size && k < SLOTS
      requires a == SlotAt(fs0, i, k) && Freed(fs0, fs.used, i, Order(k))
      modifies `blocks, `trace, `touched, `lh, `refused, `fs
      ensures Coupled() && Known(SameInodes(g, old(blocks), blocks)) && lh <= old(lh) + Bitmap(g)
      ensures fs == old(fs).(used := fs.used)
      ensures Freed(fs0, fs.used, i, Order(k) + 1)
    {
      if a == 0 {
        FreeEmptySlot(fs0, fs.used, i, k);
      } else {
        FreeSlot(fs0, m, fs.used, i, k);
        assert BitmapBlock(g.bmapstart, a) in Bitmap(g);
        var ok := BFree(a);
        assert ok;
      }
    }

    /** Free the block of an address and clear the address. */
    method ClearAddr(i: nat, k: nat, ghost fs0: Fs, ghost m: map<nat, (nat, nat)>)
      requires Coupled() && OwnedBy(fs0, m) && i < g.ninodes && k <= NDIRECT
      requires Cleared(fs0, fs, i, k) && Freed(fs0, fs.used, i, Order(k))
      modifies `blocks, `trace, `touched, `lh, `refused, `fs, `mem
      ensures Coupled() && Known(SameInodes(g, old(blocks), blocks)) && lh <= old(lh) + Bitmap(g)
      ensures Cleared(fs0, fs, i, k + 1) && Freed(fs0, fs.used, i, Order(k) + 1)
    {
      FreeOne(i, k, mem[i].addrs[k], fs0, m);
      mem := mem[i := mem[i].(addrs := mem[i].addrs[k := 0])];
      fs := fs.(table := mem);
    }

    method TruncDirect(i: nat, ghost fs0: Fs, ghost m: map<nat, (nat, nat)>)
      requires Coupled() && OwnedBy(fs0, m) && fs == fs0 && i < g.ninodes
      modifies `blocks, `trace, `touched, `lh, `refused, `fs, `mem
      ensures Coupled() && Known(SameInodes(g, old(blocks), blocks)) && lh <= old(lh) + Bitmap(g)
      ensures Cleared(fs0, fs, i, NDIRECT) && Freed(fs0, fs.used, i, NDIRECT)
    {
      FreedNone(fs, i);
      var k := 0;
      while k < NDIRECT
        invariant 0 <= k <= NDIRECT && Coupled() && Known(SameInodes(g, old(blocks), blocks)) && lh <= old(lh) + Bitmap(g)
        invariant Cleared(fs0, fs, i, k) && Freed(fs0, fs.used, i, k)
      {
        ClearAddr(i, k, fs0, m);
        k := k + 1;
      }
    }

    method TruncWords(i: nat, ghost fs0: Fs, ghost m: map<nat, (nat, nat)>)
      requires Coupled() && OwnedBy(fs0, m) && i < g.ninodes && mem[i].addrs[NDIRECT] != 0
      requires Cleared(fs0, fs, i, NDIRECT) && Freed(fs0, fs.used, i, NDIRECT)
      modifies `blocks, `trace, `touched, `lh, `refused, `fs
      ensures Coupled() && Known(SameInodes(g, old(blocks), blocks)) && lh <= old(lh) + Bitmap(g)
      ensures Cleared(fs0, fs, i, NDIRECT) && Freed(fs0, fs.used, i, SLOTS - 1)
    {
      IndirectOwned(fs0, m, i);
      var block := blocks[mem[i].addrs[NDIRECT]];
      var j := 0;
      while j < NINDIRECT
        invariant 0 <= j <= NINDIRECT && Coupled() && Known(SameInodes(g, old(blocks), blocks)) && lh <= old(lh) + Bitmap(g)
        invariant Cleared(fs0, fs, i, NDIRECT) && Freed(fs0, fs.used, i, NDIRECT + j)
      {
        FreeOne(i, 13 + j, WordAt(block, j), fs0, m);
        j := j + 1;
      }
    }

    method FreeBlocks(i: nat, ghost fs0: Fs, ghost m: map<nat, (nat, nat)>)
      requires Coupled() && OwnedBy(fs0, m) && fs == fs0 && i < g.ninodes
      modifies `blocks, `trace, `touched, `lh, `refused, `fs, `mem
      ensures Coupled() && Known(SameInodes(g, old(blocks), blocks)) && lh <= old(lh) + Bitmap(g)
      ensures Known(Cleared(fs0, fs, i, NDIRECT + 1) && Freed(fs0, fs.used, i, SLOTS))
    {
      TruncDirect(i, fs0, m);
      if mem[i].addrs[NDIRECT] != 0 {
        TruncWords(i, fs0, m);
        ClearAddr(i, NDIRECT, fs0, m);
      } else {
        FreedWithoutIndirect(fs0, fs.used, i);
        ClearedAll(fs0, fs, i);
      }
    }

    /** itrunc: exactly the blocks of inode i are freed, and it is left empty. log_write refuses at the latest for
        the inode, and only if the log is full with the bitmap in it. */
    method ITrunc(i: nat)
      requires Valid() && i < g.ninodes
      modifies `blocks, `mem, `fs, `owner, `trace, `touched, `lh, `refused
      ensures Coupled() && Known(Good(fs, owner)) && Known(Synced(g, blocks, mem)) && Known(Truncated(old(fs), fs, i))
      ensures lh <= old(lh) + Bitmap(g) + {InodeBlock(g, i)}
      ensures refused ==> Log.TooMany(nlog, |old(lh) + Bitmap(g)|)
      ensures fs.table[i].kind == old(fs).table[i].kind && Hollow(old(fs).table[i], fs.table[i])
      ensures OnDisk(g, blocks, i) == fs.table[i]
    {
      ghost var fs0, m, blocks0 := fs, owner, blocks;
      FreeBlocks(i, fs0, m);
      ghost var fs1 := fs;
      mem := mem[i := mem[i].(size := 0)];
      fs := fs.(table := mem);
      ghost var lh1, all := lh, old(lh) + Bitmap(g);
      IUpdate(i);
      Log.MoreTooMany(nlog, lh1, all);
      owner := Without(m, i);
      TruncSynced(g, blocks0, blocks, fs0.table, mem, i);
      TruncEnds(fs0, m, fs1, fs, owner, i);
    }

    /** The type of an inode becomes 0, in memory and on the disk. */
    method ClearType(i: nat)
      requires Coupled() && i < g.ninodes && Known(Synced(g, blocks, mem))
      modifies `blocks, `mem, `fs, `trace, `touched, `lh, `refused
      ensures Coupled() && Known(Synced(g, blocks, mem)) && fs == Rekinded(old(fs), i, 0)
      ensures OnDisk(g, blocks, i) == fs.table[i] && (refused <==> Log.TooMany(nlog, |old(lh)|))
    {
      ghost var blocks1, table := blocks, mem;
      mem := mem[i := mem[i].(kind := 0)];
      fs := fs.(table := mem);
      IUpdate(i);
      TruncSynced(g, blocks1, blocks, table, mem, i);
    }

    /** What iput does with an inode that nothing refers to any more. */
    method IFree(i: nat)
      requires Valid() && i < g.ninodes
      modifies `blocks, `mem, `fs, `owner, `trace, `touched, `lh, `refused
      ensures Coupled() && Known(Good(fs, owner)) && Known(Synced(g, blocks, mem)) && Known(Released(old(fs), fs, i))
      ensures refused ==> Log.TooMany(nlog, |old(lh) + Bitmap(g) + {InodeBlock(g, i)}|)
      ensures fs.table[i].kind == 0 && Hollow(old(fs).table[i], fs.table[i])
      ensures OnDisk(g, blocks, i).kind == 0 && OnDisk(g, blocks, i) == fs.table[i]
    {
      ghost var fs0 := fs;
      ITrunc(i);
      ghost var fs1, lh1, all := fs, lh, old(lh) + Bitmap(g) + {InodeBlock(g, i)};
      ClearType(i);
      Log.MoreTooMany(nlog, lh1, all);
      ReleaseEnds(fs0, fs1, owner, fs, i);
    }
  }
}
