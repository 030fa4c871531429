/** mbuf chains (Kernel/mbuf.c) as values, and the byte strings they spell. */
module MbufSpec {
  type byte = int

  const MLEN: nat := 108
  const MHLEN: nat := 100
  const MCLBYTES: nat := 2048
  const MINCLSIZE: nat := 208
  const HDR: nat := 8   // the packet header takes the first bytes of the data area

  /** The data are the len bytes of the store from data on; with ext the store is a cluster; with hdr the mbuf
      carries a packet header, which says pktLen. */
  datatype Mbuf = Mbuf(data: int, len: int, ext: bool, hdr: bool, pktLen: int, store: seq<byte>)

  type Chain = seq<Mbuf>

  /** The first byte of the store that data may use. */
  function Low(m: Mbuf): int {
    if !m.ext && m.hdr then HDR else 0
  }

  predicate Valid(m: Mbuf) {
    |m.store| == (if m.ext then MCLBYTES else MLEN) && Low(m) <= m.data && 0 <= m.len && m.data + m.len <= |m.store|
  }

  predicate AllValid(c: Chain) {
    forall i :: 0 <= i < |c| ==> Valid(c[i])
  }

  function Bytes(m: Mbuf): seq<byte>
    requires Valid(m)
  {
    m.store[m.data..m.data + m.len]
  }

  /** The byte string of a chain. */
  function Spell(c: Chain): seq<byte>
    requires AllValid(c)
  {
    if c == [] then [] else Bytes(c[0]) + Spell(c[1..])
  }

  function Total(c: Chain): int {
    if c == [] then 0 else c[0].len + Total(c[1..])
  }

  lemma {:induction false} SpellLength(c: Chain)
    requires AllValid(c)
    ensures |Spell(c)| == Total(c)
  {
    if c != [] { SpellLength(c[1..]); }
  }

  lemma SpellCons(m: Mbuf, c: Chain)
    requires Valid(m) && AllValid(c)
    ensures AllValid([m] + c) && Spell([m] + c) == Bytes(m) + Spell(c)
  {
    assert ([m] + c)[1..] == c;
  }

  lemma {:induction false} SpellJoin(c: Chain, d: Chain)
    requires AllValid(c) && AllValid(d)
    ensures AllValid(c + d) && Spell(c + d) == Spell(c) + Spell(d)
  {
    if c == [] {
      assert c + d == d;
    } else {
      SpellJoin(c[1..], d);
      SpellCons(c[0], c[1..] + d);
      assert c + d == [c[0]] + (c[1..] + d);
      assert c == [c[0]] + c[1..];
    }
  }

  /** The mbuf cut down to len bytes from the front-th on. */
  function Cut(m: Mbuf, front: int, len: int): Mbuf {
    m.(data := m.data + front, len := len)
  }

  lemma CutBytes(m: Mbuf, front: int, len: int)
    requires Valid(m) && 0 <= front && 0 <= len && front + len <= m.len
    ensures Valid(Cut(m, front, len)) && Bytes(Cut(m, front, len)) == Bytes(m)[front..front + len]
  {
    assert |Bytes(m)| == m.len;
    forall k | 0 <= k < len
      ensures Bytes(Cut(m, front, len))[k] == Bytes(m)[front..front + len][k]
    {
      assert Bytes(m)[front + k] == m.store[m.data + front + k];
    }
  }

  // ----- Trimming -----

  /** The chain after n bytes were trimmed from the head. */
  function DropFront(c: Chain, n: int): Chain {
    if c == [] then []
    else if c[0].len <= n then [Cut(c[0], 0, 0)] + DropFront(c[1..], n - c[0].len)
    else [Cut(c[0], n, c[0].len - n)] + c[1..]
  }

  /** What is left of s without its first n bytes. */
  function Suffix(s: seq<byte>, n: nat): seq<byte> {
    if n <= |s| then s[n..] else []
  }

  lemma SuffixOfJoin(a: seq<byte>, b: seq<byte>, n: nat)
    ensures Suffix(a + b, n) == if n < |a| then a[n..] + b else Suffix(b, n - |a|)
  {
  }

  lemma {:induction false} DropFrontSpells(c: Chain, n: nat)
    requires AllValid(c)
    ensures AllValid(DropFront(c, n))
    ensures Spell(DropFront(c, n)) == Suffix(Spell(c), n)
  {
    if c != [] {
      SuffixOfJoin(Bytes(c[0]), Spell(c[1..]), n);
      if c[0].len <= n {
        CutBytes(c[0], 0, 0);
        DropFrontSpells(c[1..], n - c[0].len);
        SpellCons(Cut(c[0], 0, 0), DropFront(c[1..], n - c[0].len));
      } else {
        CutBytes(c[0], n, c[0].len - n);
        SpellCons(Cut(c[0], n, c[0].len - n), c[1..]);
      }
    }
  }

  lemma {:induction false} DropNothing(c: Chain)
    requires AllValid(c)
    ensures DropFront(c, 0) == c
  {
    if c != [] {
      DropNothing(c[1..]);
      assert c == [c[0]] + c[1..];
    }
  }

  function Emptied(c: Chain): Chain {
    if c == [] then [] else [Cut(c[0], 0, 0)] + Emptied(c[1..])
  }

  lemma {:induction false} EmptiedSpellsNothing(c: Chain)
    requires AllValid(c)
    ensures AllValid(Emptied(c)) && Spell(Emptied(c)) == []
  {
    if c != [] {
      CutBytes(c[0], 0, 0);
      EmptiedSpellsNothing(c[1..]);
      SpellCons(Cut(c[0], 0, 0), Emptied(c[1..]));
    }
  }

  /** The chain after all but its first n bytes were tossed. */
  function TakeFront(c: Chain, n: int): Chain {
    if c == [] then []
    else if c[0].len >= n then [Cut(c[0], 0, n)] + Emptied(c[1..])
    else [c[0]] + TakeFront(c[1..], n - c[0].len)
  }

  lemma {:induction false} TakeFrontSpells(c: Chain, n: nat)
    requires AllValid(c) && n <= |Spell(c)|
    ensures AllValid(TakeFront(c, n)) && Spell(TakeFront(c, n)) == Spell(c)[..n]
  {
    if c != [] {
      if c[0].len >= n {
        CutBytes(c[0], 0, n);
        EmptiedSpellsNothing(c[1..]);
        SpellCons(Cut(c[0], 0, n), Emptied(c[1..]));
      } else {
        TakeFrontSpells(c[1..], n - c[0].len);
        SpellCons(c[0], TakeFront(c[1..], n - c[0].len));
      }
    }
  }
}

/** The operations of Kernel/mbuf.c that rewrite chains in place. */
module Mbufs {
  import opened MbufSpec

  function Min(a: int, b: int): int {
    if a <= b then a else b
  }

  lemma TotalFrom(c: Chain, i: nat)
    requires i < |c|
    ensures Total(c[i..]) == c[i].len + Total(c[i + 1..])
  {
    assert c[i..][1..] == c[i + 1..];
  }

  lemma DropStep(c: Chain, b: Chain, i: nat, n: int, len: int)
    requires i < |b| == |c| && b[i] == c[i] && DropFront(c, n) == b[..i] + DropFront(c[i..], len) && c[i].len <= len
    ensures DropFront(c, n) == b[i := Cut(b[i], 0, 0)][..i + 1] + DropFront(c[i + 1..], len - c[i].len)
  {
    assert c[i..][1..] == c[i + 1..];
    assert b[i := Cut(b[i], 0, 0)][..i + 1] == b[..i] + [Cut(b[i], 0, 0)];
  }

  lemma DropStop(c: Chain, b: Chain, i: nat, n: int, len: int)
    requires i < |b| == |c| && b[i..] == c[i..] && DropFront(c, n) == b[..i] + DropFront(c[i..], len) && c[i].len > len
    ensures DropFront(c, n) == b[i := Cut(b[i], len, b[i].len - len)]
  {
    assert b[i] == b[i..][0] == c[i];
    assert c[i..][1..] == c[i + 1..] == b[i..][1..] == b[i + 1..];
    var m := Cut(b[i], len, b[i].len - len);
    assert b[i := m] == b[..i] + ([m] + b[i + 1..]);
  }

  lemma DropDone(c: Chain, b: Chain, i: nat, n: int, len: int)
    requires AllValid(c) && i <= |b| == |c| && b[i..] == c[i..] && DropFront(c, n) == b[..i] + DropFront(c[i..], len)
    ensures len == 0 || i == |c| ==> DropFront(c, n) == b
    ensures i == |c| ==> Total(c[i..]) == 0
  {
    DropNothing(c[i..]);
    assert b == b[..i] + b[i..];
  }

  /** Where the loop of m_adj that trims from the head stands: i mbufs are emptied, len bytes are still to go. */
  ghost predicate Trimming(c: Chain, b: Chain, i: int, req: int, len: int) {
    && 0 <= i <= |b| == |c| && b[i..] == c[i..] && len >= 0
    && DropFront(c, req) == b[..i] + DropFront(c[i..], len)
    && req - len + Min(len, Total(c[i..])) == Min(req, Total(c))
  }

  lemma TrimStep(c: Chain, b: Chain, i: nat, req: int, len: int)
    requires AllValid(c) && Trimming(c, b, i, req, len) && i < |b|
    ensures b[i] == c[i] && (b[i].len <= len ==> Trimming(c, b[i := Cut(b[i], 0, 0)], i + 1, req, len - b[i].len))
    ensures b[i].len > len ==> DropFront(c, req) == b[i := Cut(b[i], len, b[i].len - len)] && req == Min(req, Total(c))
  {
    assert b[i] == b[i..][0] && b[i..][1..] == b[i + 1..] && c[i..][1..] == c[i + 1..];
    TotalFrom(c, i);
    TotalNonNegative(c, i + 1);
    if b[i].len <= len {
      DropStep(c, b, i, req, len);
      assert b[i := Cut(b[i], 0, 0)][i + 1..] == b[i + 1..];
    } else {
      DropStop(c, b, i, req, len);
    }
  }

  /** The loop of m_adj that trims from the head; len is what could not be trimmed. */
  method TrimHead(c: Chain, req: nat) returns (b: Chain, len: int)
    requires AllValid(c)
    ensures b == DropFront(c, req) && req - len == Min(req, Total(c))
  {
    b, len := c, req;
    var i := 0;
    assert c[0..] == c;
    while i < |b| && len > 0
      invariant Trimming(c, b, i, req, len)
      decreases |b| - i
    {
      TrimStep(c, b, i, req, len);
      if b[i].len <= len {
        len := len - b[i].len;
        b := b[i := b[i].(len := 0)];
        i := i + 1;
      } else {
        b := b[i := b[i].(len := b[i].len - len, data := b[i].data + len)];
        len := 0;
        return;
      }
    }
    DropDone(c, b, i, req, len);
    TotalNonNegative(c, i);
  }

  lemma TotalNonNegative(c: Chain, i: nat)
    requires AllValid(c) && i <= |c|
    ensures Total(c[i..]) >= 0
  {
    SpellLength(c[i..]);
  }

  lemma TakeStep(c: Chain, i: nat, n: int, count: int)
    requires i < |c| && TakeFront(c, n) == c[..i] + TakeFront(c[i..], count) && c[i].len < count
    ensures TakeFront(c, n) == c[..i + 1] + TakeFront(c[i + 1..], count - c[i].len)
  {
    assert c[i..][1..] == c[i + 1..] && c[..i + 1] == c[..i] + [c[i]];
  }

  lemma TakeStop(c: Chain, i: nat, n: int, count: int)
    requires i < |c| && TakeFront(c, n) == c[..i] + TakeFront(c[i..], count) && c[i].len >= count
    ensures TakeFront(c, n) == c[i := Cut(c[i], 0, count)][..i + 1] + Emptied(c[i + 1..])
  {
    assert c[i..][1..] == c[i + 1..];
    assert c[i := Cut(c[i], 0, count)][..i + 1] == c[..i] + [Cut(c[i], 0, count)];
  }

  lemma EmptyStep(r: Chain, b: Chain, i: nat)
    requires i < |b| && r == b[..i] + Emptied(b[i..])
    ensures r == b[i := Cut(b[i], 0, 0)][..i + 1] + Emptied(b[i + 1..])
  {
    assert b[i..][1..] == b[i + 1..];
    assert b[i := Cut(b[i], 0, 0)][..i + 1] == b[..i] + [Cut(b[i], 0, 0)];
  }

  /** The rescan of m_adj for the mbuf with the last data kept; it never runs off the chain. */
  method FindLast(c: Chain, n: nat) returns (i: nat, count: int)
    requires AllValid(c) && c != [] && n <= Total(c)
    ensures i < |c| && 0 <= count <= c[i].len && TakeFront(c, n) == c[i := Cut(c[i], 0, count)][..i + 1] + Emptied(c[i + 1..])
  {
    i, count := 0, n;
    assert c[0..] == c;
    while c[i].len < count
      invariant 0 <= i < |c| && 0 <= count <= Total(c[i..])
      invariant TakeFront(c, n) == c[..i] + TakeFront(c[i..], count)
      decreases |c| - i
    {
      TakeStep(c, i, n, count);
      TotalFrom(c, i);
      count := count - c[i].len;
      i := i + 1;
    }
    TakeStop(c, i, n, count);
  }

  /** The data of the remaining mbufs is tossed. */
  method Toss(c: Chain, n: nat) returns (b: Chain)
    requires AllValid(c) && c != [] && n <= Total(c)
    ensures b == TakeFront(c, n)
  {
    var i, count := FindLast(c, n);
    ghost var r := TakeFront(c, n);
    b := c[i := c[i].(len := count)];
    i := i + 1;
    assert b[i..] == c[i..];
    while i < |b|
      invariant 0 < i <= |b| && r == b[..i] + Emptied(b[i..])
    {
      EmptyStep(r, b, i);
      ghost var rest := b[i + 1..];
      b := b[i := b[i].(len := 0)];
      i := i + 1;
      assert b[i..] == rest;
    }
    assert b[..i] == b;
  }

  /** Everything but starts, lengths and the first packet length is as it was. */
  ghost predicate SameFrame(c: Chain, b: Chain) {
    |b| == |c| && forall i :: 0 <= i < |c| ==> b[i].store == c[i].store && b[i].ext == c[i].ext && b[i].hdr == c[i].hdr
  }

  lemma {:induction false} TakeFrame(c: Chain, n: int)
    ensures SameFrame(c, TakeFront(c, n)) && SameFrame(c, Emptied(c))
    ensures c != [] ==> TakeFront(c, n)[0].pktLen == c[0].pktLen
  {
    if c != [] { TakeFrame(c[1..], n - c[0].len); }
  }

  lemma {:induction false} DropFrame(c: Chain, n: int)
    ensures SameFrame(c, DropFront(c, n))
    ensures c != [] ==> DropFront(c, n)[0].pktLen == c[0].pktLen
  {
    if c != [] { DropFrame(c[1..], n - c[0].len); }
  }

  /** The packet length plays no part in the bytes. */
  lemma Relabel(c: Chain, x: int)
    requires AllValid(c) && c != []
    ensures var b := c[0 := c[0].(pktLen := x)]; AllValid(b) && Spell(b) == Spell(c) && Total(b) == Total(c) && SameFrame(c, b)
  {
    var b := c[0 := c[0].(pktLen := x)];
    assert b[1..] == c[1..];
  }

  lemma SpellLast(p: Chain, m: Mbuf)
    requires AllValid(p) && Valid(m)
    ensures AllValid(p + [m]) && Spell(p + [m]) == Spell(p) + Bytes(m)
  {
    SpellJoin(p, [m]);
    SpellCons(m, []);
    assert [m] + [] == [m];
  }

  lemma PrefixOfJoin(a: seq<byte>, b: seq<byte>, n: nat)
    requires n <= |b|
    ensures (a + b)[..|a| + n] == a + b[..n]
  {
  }

  /** Cutting the last mbuf of a chain down to n bytes. */
  lemma LastCut(p: Chain, m: Mbuf, n: nat)
    requires AllValid(p) && Valid(m) && n <= m.len
    ensures AllValid(p + [m]) && AllValid(p + [Cut(m, 0, n)])
    ensures |Spell(p)| + n <= |Spell(p + [m])| && Spell(p + [Cut(m, 0, n)]) == Spell(p + [m])[..|Spell(p)| + n]
    ensures |Spell(p + [m])| == |Spell(p)| + m.len
  {
    CutBytes(m, 0, n);
    SpellLast(p, m);
    SpellLast(p, Cut(m, 0, n));
    PrefixOfJoin(Spell(p), Bytes(m), n);
  }

  function Max0(n: int): nat {
    if n < 0 then 0 else n
  }

  /** The first scan of m_adj: the last mbuf and the length of the chain. */
  method Measure(c: Chain) returns (i: nat, count: int)
    requires c != []
    ensures i == |c| - 1 && count == Total(c)
  {
    i, count := 0, c[0].len;
    while i + 1 < |c|
      invariant 0 <= i < |c| && count + Total(c[i + 1..]) == Total(c)
    {
      i := i + 1;
      TotalFrom(c, i);
      count := count + c[i].len;
    }
  }

  /** The adjustment only affects the last mbuf. */
  method TrimLast(c: Chain, len: nat) returns (b: Chain)
    requires AllValid(c) && c != [] && len <= c[|c| - 1].len
    ensures AllValid(b) && SameFrame(c, b) && b[0].pktLen == c[0].pktLen
    ensures Total(b) == Total(c) - len && Spell(b) == Spell(c)[..Max0(|Spell(c)| - len)]
  {
    var i := |c| - 1;
    b := c[i := c[i].(len := c[i].len - len)];
    assert c == c[..i] + [c[i]] && b == c[..i] + [Cut(c[i], 0, c[i].len - len)];
    LastCut(c[..i], c[i], c[i].len - len);
    SpellLength(b);
    SpellLength(c);
  }

  /** m_adj for a negative request: len bytes are trimmed from the tail. */
  method TrimTail(c: Chain, len: nat) returns (b: Chain)
    requires AllValid(c) && c != []
    ensures AllValid(b) && SameFrame(c, b) && Spell(b) == Spell(c)[..Max0(|Spell(c)| - len)]
    ensures c[0].hdr && c[0].pktLen == Total(c) ==> b[0].pktLen == Total(b)
  {
    b := c;
    var i, count := Measure(c);
    if b[i].len >= len {
      b := TrimLast(c, len);
      if b[0].hdr {
        Relabel(b, b[0].pktLen - len);
        b := b[0 := b[0].(pktLen := b[0].pktLen - len)];
      }
      return;
    }
    SpellLength(c);
    count := count - len;
    if count < 0 {
      count := 0;
    }
    if b[0].hdr {
      Relabel(b, count);
      b := b[0 := b[0].(pktLen := count)];
    }
    TakeFrame(b, count);
    TakeFrontSpells(b, count);
    b := Toss(b, count);
    SpellLength(b);
  }

  /** m_adj for a request that is not negative: req bytes are trimmed from the head. */
  method TrimFront(c: Chain, req: nat) returns (b: Chain)
    requires AllValid(c) && c != []
    ensures AllValid(b) && SameFrame(c, b) && Spell(b) == Suffix(Spell(c), req)
    ensures c[0].hdr && c[0].pktLen == Total(c) ==> b[0].pktLen == Total(b)
  {
    var len;
    DropFrontSpells(c, req);
    DropFrame(c, req);
    SpellLength(c);
    b, len := TrimHead(c, req);
    SpellLength(b);
    if b[0].hdr {
      Relabel(b, b[0].pktLen - (req - len));
      b := b[0 := b[0].(pktLen := b[0].pktLen - (req - len))];
    }
  }

  /** m_adj: a chain loses a prefix or a suffix, and a packet length that was right stays right. */
  method Adj(c: Chain, req: int) returns (b: Chain)
    requires AllValid(c)
    ensures AllValid(b) && SameFrame(c, b)
    ensures 0 <= req <= |Spell(c)| ==> Spell(b) == Spell(c)[req..]
    ensures -|Spell(c)| <= req <= 0 ==> Spell(b) == Spell(c)[..|Spell(c)| + req]
    ensures req > |Spell(c)| || req < -|Spell(c)| ==> Spell(b) == []
    ensures c != [] && c[0].hdr && c[0].pktLen == Total(c) ==> b[0].pktLen == Total(b)
  {
    if c == [] { return c; }
    if req >= 0 {
      b := TrimFront(c, req);
    } else {
      b := TrimTail(c, -req);
    }
  }
}
