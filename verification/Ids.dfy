/** The id allocator of Kernel/pid.c: a bitmap of 32-bit words in which a set bit is a free id, and a cursor
    to the word where the search starts. */
module Ids {
  import opened Arith

  const PAGE_SIZE: nat := 4096
  const BITS: nat := 32

  type Word = w: seq<bool> | |w| == BITS witness seq(BITS, _ => false)

  ghost predicate Empty(w: Word) {
    forall i :: 0 <= i < BITS ==> !w[i]
  }

  /** The ids whose bit is set. */
  ghost function FreeIds(m: seq<Word>): set<int> {
    set id | 0 <= id < BITS * |m| && Bit(m, id)
  }

  ghost predicate Bit(m: seq<Word>, id: int)
    requires 0 <= id < BITS * |m|
  {
    m[id / BITS][id % BITS]
  }

  /** Every word below the cursor is fully used. */
  ghost predicate Cursor(m: seq<Word>, offset: int) {
    forall k :: 0 <= k < |m| && k < offset ==> Empty(m[k])
  }

  /** Changing one bit changes exactly that id. */
  lemma SetBit(m: seq<Word>, o: nat, i: nat, b: bool)
    requires o < |m| && i < BITS
    ensures var id := o * BITS + i; FreeIds(m[o := m[o][i := b]]) == if b then FreeIds(m) + {id} else FreeIds(m) - {id}
  {
    var n, id := m[o := m[o][i := b]], o * BITS + i;
    DivModIs(id, BITS, o, i);
    forall k | 0 <= k < BITS * |m|
      ensures Bit(n, k) == if k == id then b else Bit(m, k)
    {
      assert k == (k / BITS) * BITS + k % BITS;
    }
  }

  /** The first set bit of the first word that has one is the least free id. */
  lemma FirstIsLeast(m: seq<Word>, o: nat, i: nat)
    requires o < |m| && i < BITS && Cursor(m, o) && m[o][i] && (forall j :: 0 <= j < i ==> !m[o][j])
    ensures var id := o * BITS + i; id in FreeIds(m) && forall k :: k in FreeIds(m) ==> id <= k
  {
    var id := o * BITS + i;
    DivModIs(id, BITS, o, i);
    forall k | k in FreeIds(m)
      ensures id <= k
    {
      assert k == (k / BITS) * BITS + k % BITS && m[k / BITS][k % BITS];
    }
  }

  lemma SomeWordLeft(m: seq<Word>, o: nat)
    requires FreeIds(m) != {} && Cursor(m, o)
    ensures o < |m|
  {
    var k :| k in FreeIds(m);
    assert m[k / BITS][k % BITS];
  }

  // ----- The search loop -----

  /** The bsf instruction: the lowest set bit, or -1 for a zero word. */
  function FirstBit(w: Word, from: nat): (r: int)
    requires from <= BITS
    ensures r == -1 <==> (forall i :: from <= i < BITS ==> !w[i])
    ensures r != -1 ==> from <= r < BITS && w[r] && (forall i :: from <= i < r ==> !w[i])
    decreases BITS - from
  {
    if from == BITS then -1 else if w[from] then from else FirstBit(w, from + 1)
  }

  /** The cursor moves to the next word, around the end. */
  function Advance(offset: nat, words: nat): nat {
    if offset + 1 == words then 0 else offset + 1
  }

  /** The cursor after n rounds of the search loop; a round that finds a set bit is the last. */
  function Search(m: seq<Word>, offset: nat, n: nat): (r: nat)
    requires offset < |m|
    ensures r < |m|
    decreases n
  {
    if n == 0 || FirstBit(m[offset], 0) != -1 then offset else Search(m, Advance(offset, |m|), n - 1)
  }

  /** With no id free the search loop never ends. */
  lemma {:induction false} SpinsWhenFull(m: seq<Word>, offset: nat, n: nat)
    requires offset < |m| && FreeIds(m) == {}
    ensures FirstBit(m[Search(m, offset, n)], 0) == -1
    decreases n
  {
    AllUsed(m, offset);
    if n > 0 { SpinsWhenFull(m, Advance(offset, |m|), n - 1); }
  }

  lemma AllUsed(m: seq<Word>, o: nat)
    requires o < |m| && FreeIds(m) == {}
    ensures FirstBit(m[o], 0) == -1
  {
    var i := FirstBit(m[o], 0);
    if i != -1 { BitIsFree(m, o, i); }
  }

  lemma BitIsFree(m: seq<Word>, o: nat, i: nat)
    requires o < |m| && i < BITS && m[o][i]
    ensures o * BITS + i in FreeIds(m)
  {
    DivModIs(o * BITS + i, BITS, o, i);
  }

  class IdMap {
    var kidMap: array<Word>
    var offset: nat
    var size: nat

    ghost predicate Valid()
      reads this, kidMap
    {
      && size / 4 <= kidMap.Length && (offset < size / 4 || offset == 0)
      && Cursor(Words(), offset)
    }

    ghost function Words(): seq<Word>
      requires size / 4 <= kidMap.Length
      reads this, kidMap
    {
      kidMap[..size / 4]
    }

    ghost function Free(): set<int>
      requires size / 4 <= kidMap.Length
      reads this, kidMap
    {
      FreeIds(Words())
    }

    /** kernel_id_kidMapinit: every id below 8 times the size, cut down to a page, is free. */
    constructor (size: nat)
      ensures Valid() && fresh(kidMap) && this.size == (if size < PAGE_SIZE then size else PAGE_SIZE)
      ensures forall id :: id in Free() <==> 0 <= id < BITS * (this.size / 4)
    {
      var n := if size < PAGE_SIZE then size else PAGE_SIZE;
      kidMap := new Word[n / 4](_ => seq(BITS, _ => true));
      offset, this.size := 0, n;
    }

    /** The search loop of get_unused_id: stops at the first word with a set bit. */
    method Scan() returns (index: int)
      requires Valid() && Free() != {}
      modifies this`offset
      ensures Valid() && offset < size / 4 && 0 <= index < BITS
      ensures kidMap[offset][index] && (forall j :: 0 <= j < index ==> !kidMap[offset][j])
    {
      ghost var m := Words();
      SomeWordLeft(m, 0);
      index := FirstBit(kidMap[offset], 0);
      while index == -1
        invariant offset < |m| && Cursor(m, offset) && index == FirstBit(m[offset], 0)
        decreases |m| - offset
      {
        assert Cursor(m, offset + 1);
        SomeWordLeft(m, offset + 1);
        offset := Advance(offset, size / 4);
        index := FirstBit(kidMap[offset], 0);
      }
    }

    /** get_unused_id: the least free id, which is then no longer free. */
    method GetUnusedId() returns (id: int)
      requires Valid() && Free() != {}
      modifies this`offset, kidMap
      ensures Valid()
      ensures id in old(Free()) && (forall k :: k in old(Free()) ==> id <= k)
      ensures Free() == old(Free()) - {id}
    {
      var index := Scan();
      ghost var m := Words();
      FirstIsLeast(m, offset, index);
      SetBit(m, offset, index, false);
      kidMap[offset] := kidMap[offset][index := false];
      assert Words() == m[offset := m[offset][index := false]];
      id := offset * BITS + index;
      if index == 31 {
        assert Cursor(Words(), offset + 1);
        offset := Advance(offset, size / 4);
      }
    }

    /** put_id. */
    method PutId(pid: int)
      requires Valid() && 0 <= pid < BITS * (size / 4)
      modifies this`offset, kidMap
      ensures Valid() && Free() == old(Free()) + {pid}
    {
      ghost var m := Words();
      var o, i := pid / BITS, pid % BITS;
      SetBit(m, o, i, true);
      kidMap[o] := kidMap[o][i := true];
      assert Words() == m[o := m[o][i := true]];
      if o < offset {
        offset := o;
      }
    }

    /** resv_id. */
    method ResvId(id: int)
      requires Valid() && 0 <= id < BITS * (size / 4)
      modifies kidMap
      ensures Valid() && Free() == old(Free()) - {id}
    {
      ghost var m := Words();
      var o, i := id / BITS, id % BITS;
      SetBit(m, o, i, false);
      kidMap[o] := kidMap[o][i := false];
      assert Words() == m[o := m[o][i := false]];
    }
  }

  /** kid_dup: the copy has the same free ids and its own bitmap. */
  method KidDup(dobj: IdMap?, sobj: IdMap?)
    requires dobj != null && sobj != null ==> sobj.Valid() && sobj.size / 4 <= dobj.kidMap.Length && dobj.kidMap != sobj.kidMap
    modifies dobj, if dobj == null then {} else {dobj.kidMap}
    ensures dobj != null && sobj != null ==> dobj.Valid() && sobj.Valid() && dobj.Free() == sobj.Free() == old(sobj.Free())
    ensures dobj != null && sobj == null ==> unchanged(dobj)
  {
    if dobj == null || sobj == null { return; }
    dobj.offset := sobj.offset;
    dobj.size := sobj.size;
    ghost var m := sobj.Words();
    var d, s, i := dobj.kidMap, sobj.kidMap, 0;
    while i < dobj.size / 4
      modifies d
      invariant 0 <= i <= |m| && d[..i] == m[..i]
    {
      d[i] := s[i];
      i := i + 1;
    }
  }

  /** An id put back is handed out again next when no smaller one is free. */
  method PutThenGet(obj: IdMap, pid: int) returns (id: int)
    requires obj.Valid() && 0 <= pid < BITS * (obj.size / 4) && (forall k :: k in obj.Free() ==> pid < k)
    modifies obj`offset, obj.kidMap
    ensures obj.Valid() && id == pid && obj.Free() == old(obj.Free())
  {
    obj.PutId(pid);
    id := obj.GetUnusedId();
  }
}
