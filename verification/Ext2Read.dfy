/** ext2_read (Kernel/ext2.c): reading a slice of a file block by block. */
module Ext2Read {
  import opened Arith
  import opened Ext2Map
  import opened Ext2Inode

  /** A file: its inode's block map, the bytes of the data blocks, and its size. blk is the block size. */
  datatype File = File(disk: Disk, iblock: seq<int>, n: nat, data: map<int, seq<int>>, blk: nat, size: nat)

  ghost predicate FileOk(f: File) {
    && f.n >= 1 && f.blk >= 1 && |f.iblock| == 15 && f.size <= TripleEnd(f.n) * f.blk
    && forall x :: x in f.data ==> |f.data[x]| == f.blk
  }

  function Bytes(f: File, x: int): (s: seq<int>)
    requires FileOk(f)
    ensures |s| == f.blk
  {
    if x in f.data then f.data[x] else seq(f.blk, _ => 0)
  }

  /** The contents of logical block b: the mapped disk block, or zeros for a hole. */
  function BlockBytes(f: File, b: nat): (s: seq<int>)
    requires FileOk(f) && b < TripleEnd(f.n)
    ensures |s| == f.blk
  {
    var r := Lookup(f.disk, f.iblock, f.n, b);
    if r == 0 then seq(f.blk, _ => 0) else Bytes(f, r)
  }

  /** The byte at offset i of the file. */
  ghost function ByteAt(f: File, i: nat): int
    requires FileOk(f) && i < f.size
  {
    BlockInFile(f, i);
    BlockBytes(f, i / f.blk)[i % f.blk]
  }

  ghost function Slice(f: File, pos: nat, count: nat): seq<int>
    requires FileOk(f) && pos + count <= f.size
  {
    seq(count, k requires 0 <= k < count => ByteAt(f, pos + k))
  }

  lemma BlockInFile(f: File, i: nat)
    requires FileOk(f) && i < f.size
    ensures 0 <= i / f.blk < TripleEnd(f.n) && 0 <= i % f.blk < f.blk
  {
    QuotientBound(i, f.blk, TripleEnd(f.n));
  }

  /** q blocks and r bytes. */
  lemma Split(q: nat, r: nat, blk: nat)
    requires r < blk
    ensures (q * blk + r) / blk == q && (q * blk + r) % blk == r
  {
    DivModIs(q * blk + r, blk, q, r);
  }

  /** Bytes of one block are consecutive bytes of the file. */
  lemma BlockIsSlice(f: File, b: nat, off: nat, m: nat)
    requires FileOk(f) && off + m <= f.blk && b * f.blk + off + m <= f.size && b < TripleEnd(f.n)
    ensures BlockBytes(f, b)[off..off + m] == Slice(f, b * f.blk + off, m)
  {
    var s, t := BlockBytes(f, b)[off..off + m], Slice(f, b * f.blk + off, m);
    forall k | 0 <= k < m ensures s[k] == t[k] {
      var i := b * f.blk + off + k;
      Split(b, off + k, f.blk);
      assert i == b * f.blk + (off + k);
      assert i / f.blk == b && i % f.blk == off + k;
      assert t[k] == ByteAt(f, i);
    }
  }

  lemma SliceAppend(f: File, pos: nat, c: nat, m: nat)
    requires FileOk(f) && pos + c + m <= f.size
    ensures Slice(f, pos, c) + Slice(f, pos + c, m) == Slice(f, pos, c + m)
  {
    var s, t := Slice(f, pos, c) + Slice(f, pos + c, m), Slice(f, pos, c + m);
    forall k | 0 <= k < c + m ensures s[k] == t[k] {}
  }

  /** v is the byte at offset i as it is on disk: zero in a hole or in a block never written, and else that byte of
      the data block mapped there. */
  ghost predicate OnDisk(f: File, i: nat, v: int)
    requires FileOk(f)
  {
    && 0 <= i / f.blk < TripleEnd(f.n) && 0 <= i % f.blk < f.blk
    && var x := Lookup(f.disk, f.iblock, f.n, i / f.blk);
       && (x == 0 || x !in f.data ==> v == 0)
       && (x != 0 && x in f.data ==> v == f.data[x][i % f.blk])
  }

  lemma ByteOnDisk(f: File, i: nat)
    requires FileOk(f) && i < f.size
    ensures OnDisk(f, i, ByteAt(f, i))
  {
    BlockInFile(f, i);
  }

  /** The bytes of a slice, one by one. */
  lemma SliceBytes(f: File, pos: nat, count: nat)
    requires FileOk(f) && pos + count <= f.size
    ensures var buf := Slice(f, pos, count); |buf| == count && forall k :: 0 <= k < count ==> OnDisk(f, pos + k, buf[k])
  {
    var buf := Slice(f, pos, count);
    forall k | 0 <= k < count ensures OnDisk(f, pos + k, buf[k]) { ByteOnDisk(f, pos + k); }
  }

  /** ext2_inode_read_block: the mapped block number and, unless it is a hole, the block's bytes. */
  method ReadBlock(f: File, b: nat, old_buf: seq<int>) returns (ret: int, buf: seq<int>)
    requires FileOk(f) && b < TripleEnd(f.n)
    ensures ret == Lookup(f.disk, f.iblock, f.n, b) && (ret != 0 ==> buf == BlockBytes(f, b))
    ensures ret != 0 && ret in f.data ==> buf == f.data[ret]
  {
    ret := GetRealBlock(f.disk, f.iblock, f.n, b);
    buf := old_buf;
    if ret != 0 { buf := Bytes(f, ret); }
  }

  class OpenFile {
    const f: File
    var pos: nat

    /** For every position not past the end: the result is the number of bytes up to the end of the
        file, at most nbytes; the position advances by it; and the bytes are those of that slice of the file, each
        taken from the disk block it is mapped to, or zero in a hole. */
    method Read(nbytes: nat) returns (ret: int, buf: seq<int>)
      requires FileOk(f) && pos <= f.size
      modifies this
      ensures ret == (if nbytes < f.size - old(pos) then nbytes else f.size - old(pos)) && pos == old(pos) + ret
      ensures buf == Slice(f, old(pos), ret)
      ensures |buf| == ret && forall k :: 0 <= k < ret ==> OnDisk(f, old(pos) + k, buf[k])
    {
      buf := [];
      if nbytes == 0 {
        return 0, buf;
      }
      var blk := f.blk;
      var blockStart := pos / blk;
      var count := if nbytes + pos >= f.size then f.size - pos else nbytes;
      var oldPos := pos;
      var blockEnd := (count + pos + blk - 1) / blk;
      pos, buf := ReadBlocks(f, pos, count, blockStart, blockEnd);
      ret := pos - oldPos;
    }
  }

  lemma EndInRange(x: nat, blk: nat, blockEnd: nat, limit: nat)
    requires blk >= 1 && x <= limit * blk && blockEnd == (x + blk - 1) / blk
    ensures blockEnd <= limit && x <= blockEnd * blk
  {
    var y := x + blk - 1;
    assert y == blockEnd * blk + y % blk;
    if limit + 1 <= blockEnd {
      MulMono(limit + 1, blockEnd, blk);
    }
  }

  lemma InBlock(pos: nat, blk: nat)
    requires blk >= 1
    ensures pos == (pos / blk) * blk + pos % blk && 0 <= pos % blk < blk
    ensures (pos + (blk - pos % blk)) / blk == pos / blk + 1
  {
    Split(pos / blk + 1, 0, blk);
    assert (pos / blk + 1) * blk == (pos / blk) * blk + blk;
  }

  lemma NothingLeft(pos: nat, count: int, blk: nat, blockNr: nat, blockEnd: nat)
    requires blk >= 1 && blockNr == pos / blk && blockEnd <= blockNr && pos + count <= blockEnd * blk
    ensures count <= 0
  {
    InBlock(pos, blk);
    MulMono(blockEnd, blockNr, blk);
  }

  /** The loop of ext2_read. */
  method ReadBlocks(f: File, start: nat, total: nat, blockStart: nat, blockEnd: nat) returns (pos: nat, buf: seq<int>)
    requires FileOk(f) && start + total <= f.size && blockStart == start / f.blk && blockEnd == (total + start + f.blk - 1) / f.blk
    ensures pos == start + total && buf == Slice(f, start, total)
    ensures |buf| == total && forall k :: 0 <= k < total ==> OnDisk(f, start + k, buf[k])
  {
    SliceBytes(f, start, total);
    pos, buf := start, [];
    var blk, count, blockNr := f.blk, total, blockStart;
    var tmp: seq<int> := [];
    EndInRange(start + total, blk, blockEnd, TripleEnd(f.n));
    while blockNr < blockEnd
      invariant start <= pos && count == total - (pos - start) && 0 <= count
      invariant blockNr == pos / blk && (count == 0 ==> pos == start)
      invariant buf == Slice(f, start, pos - start)
      decreases blockEnd - blockNr
    {
      InBlock(pos, blk);
      var ret;
      ret, tmp := ReadBlock(f, blockNr, tmp);
      if ret == 0 { tmp := seq(blk, _ => 0); }
      var off := pos % blk;
      var rest := blk - off;
      var m := if count > rest then rest else count;
      BlockIsSlice(f, blockNr, off, m);
      SliceAppend(f, start, pos - start, m);
      buf := buf + tmp[off..off + m];
      if count > rest {
        pos := pos + rest;
        count := count - rest;
      } else {
        pos := pos + count;
        return;
      }
      blockNr := blockNr + 1;
    }
    NothingLeft(pos, count, blk, blockNr, blockEnd);
  }
}
