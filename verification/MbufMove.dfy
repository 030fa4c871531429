/** Joining, extending, reading and filling mbuf chains (Kernel/mbuf.c). */
module MbufMoves {
  import opened MbufSpec
  import opened Mbufs

  // ----- Filling the store of one mbuf -----

  /** s written into the store of m at position at. */
  function Written(m: Mbuf, at: nat, s: seq<byte>): Mbuf
    requires at + |s| <= |m.store|
  {
    m.(store := m.store[..at] + s + m.store[at + |s|..])
  }

  /** Writing right behind the data and lengthening it appends. */
  lemma AppendBytes(m: Mbuf, s: seq<byte>)
    requires Valid(m) && m.data + m.len + |s| <= |m.store|
    ensures var r := Written(m, m.data + m.len, s).(len := m.len + |s|); Valid(r) && Bytes(r) == Bytes(m) + s
  {
    var at := m.data + m.len;
    var t := m.store[..at] + s + m.store[at + |s|..];
    assert t[..at] == m.store[..at] && t[at..at + |s|] == s;
    assert t[m.data..at + |s|] == t[m.data..at] + t[at..at + |s|];
    assert t[m.data..at] == t[..at][m.data..] == m.store[..at][m.data..] == m.store[m.data..at];
  }

  // ----- m_cat -----

  /** m after the data of n was copied behind its own. */
  function Joined(m: Mbuf, n: Mbuf): (r: Mbuf)
    requires Valid(m) && Valid(n) && m.data + m.len + n.len <= |m.store|
    ensures Valid(r) && Bytes(r) == Bytes(m) + Bytes(n) && r.hdr == m.hdr && r.pktLen == m.pktLen
    ensures r.ext == m.ext && r.data == m.data && r.len == m.len + n.len
  {
    AppendBytes(m, Bytes(n));
    Written(m, m.data + m.len, n.store[n.data..n.data + n.len]).(len := m.len + n.len)
  }

  lemma Absorb(p: Chain, m: Mbuf, r: Mbuf, s: seq<byte>)
    requires AllValid(p) && Valid(m) && Valid(r) && Bytes(r) == Bytes(m) + s
    ensures AllValid(p + [r]) && AllValid(p + [m]) && Spell(p + [r]) == Spell(p + [m]) + s
  {
    SpellLast(p, m);
    SpellLast(p, r);
  }

  lemma SpellFrom(d: Chain, k: nat)
    requires AllValid(d) && k < |d|
    ensures AllValid(d[k..]) && AllValid(d[k + 1..]) && Spell(d[k..]) == Bytes(d[k]) + Spell(d[k + 1..])
  {
    assert d[k..][1..] == d[k + 1..];
  }

  lemma FillStep(p: Chain, m: Mbuf, d: Chain, k: nat, r: Mbuf)
    requires AllValid(p) && Valid(m) && AllValid(d) && k < |d| && Valid(r) && Bytes(r) == Bytes(m) + Bytes(d[k])
    ensures AllValid(p + [m]) && AllValid(p + [r]) && AllValid(d[k..]) && AllValid(d[k + 1..])
    ensures Spell(p + [r]) + Spell(d[k + 1..]) == Spell(p + [m]) + Spell(d[k..])
  {
    Absorb(p, m, r, Bytes(d[k]));
    SpellFrom(d, k);
  }

  /** m_cat: the joined chain spells the two in order. The mbufs of d are copied into the last mbuf of c and freed as
      long as that has no cluster and stays short of its end; the first that does not fit is linked on with all that
      follow. Packet headers stay as they were. */
  method Cat(c: Chain, d: Chain) returns (b: Chain, freed: nat)
    requires AllValid(c) && AllValid(d) && c != []
    ensures AllValid(b) && Spell(b) == Spell(c) + Spell(d)
    ensures freed <= |d| && |b| == |c| + |d| - freed && b[|c|..] == d[freed..]
    ensures b[..|c| - 1] == c[..|c| - 1] && b[|c| - 1].hdr == c[|c| - 1].hdr && b[|c| - 1].pktLen == c[|c| - 1].pktLen
    ensures b[|c| - 1].ext == c[|c| - 1].ext && b[|c| - 1].data == c[|c| - 1].data
    ensures c[|c| - 1].ext ==> freed == 0
    ensures freed > 0 ==> c[|c| - 1].data + c[|c| - 1].len + Total(d[..freed]) < MLEN
    ensures freed == |d| || c[|c| - 1].ext || b[|c| - 1].data + b[|c| - 1].len + d[freed].len >= MLEN
    ensures b[|c| - 1].len == c[|c| - 1].len + Total(d[..freed])
  {
    var last := |c| - 1;
    var p := c[..last];
    var m;
    assert c == p + [c[last]];
    m, freed := Fill(p, c[last], d);
    SpellJoin(p + [m], d[freed..]);
    b := p + [m] + d[freed..];
  }

  /** The copying loop of m_cat. */
  method Fill(ghost p: Chain, last: Mbuf, d: Chain) returns (m: Mbuf, freed: nat)
    requires AllValid(p) && Valid(last) && AllValid(p + [last]) && AllValid(d)
    ensures freed <= |d| && Valid(m) && AllValid(p + [m]) && AllValid(d[freed..])
    ensures Spell(p + [m]) + Spell(d[freed..]) == Spell(p + [last]) + Spell(d)
    ensures m.hdr == last.hdr && m.pktLen == last.pktLen && m.ext == last.ext && m.data == last.data
    ensures m.len == last.len + Total(d[..freed]) && (last.ext ==> freed == 0)
    ensures freed > 0 ==> last.data + last.len + Total(d[..freed]) < MLEN
    ensures freed == |d| || m.ext || m.data + m.len + d[freed].len >= MLEN
  {
    m, freed := last, 0;
    ghost var all := Spell(p + [last]) + Spell(d);
    assert d[0..] == d && d[..0] == [];
    while freed < |d|
      invariant freed <= |d| && Valid(m) && m.hdr == last.hdr && m.pktLen == last.pktLen && m.ext == last.ext && m.data == last.data
      invariant m.len == last.len + Total(d[..freed]) && (last.ext ==> freed == 0)
      invariant freed > 0 ==> last.data + last.len + Total(d[..freed]) < MLEN
      invariant AllValid(p + [m]) && AllValid(d[freed..]) && Spell(p + [m]) + Spell(d[freed..]) == all
    {
      var n := d[freed];
      if m.ext || m.data + m.len + n.len >= MLEN {
        return;
      }
      FillStep(p, m, d, freed, Joined(m, n));
      TotalUpTo(d, freed);
      m := Joined(m, n);
      freed := freed + 1;
    }
  }

  // ----- m_prepend -----

  /** An mbuf from m_get: zeroed, no cluster, no header. */
  function Blank(): Mbuf {
    Mbuf(0, 0, false, false, 0, seq(MLEN, _ => 0))
  }

  /** The mbuf that m_prepend puts in front of head when there is no room: it takes over the packet header
      and holds its len bytes at the longword boundary nearest the end. */
  function Front(head: Mbuf, len: int): Mbuf {
    Mbuf((if head.hdr then HDR else 0) + (MHLEN - len - (MHLEN - len) % 4), len, false, head.hdr, if head.hdr then head.pktLen else 0, Blank().store)
  }

  /** Only the first mbuf of a packet carries a header. */
  ghost predicate HeaderFirst(c: Chain) {
    forall i :: 0 < i < |c| ==> !c[i].hdr
  }

  /** The data of r is len bytes and then that of m. */
  ghost predicate Extends(r: Chain, c: Chain, len: nat)
    requires AllValid(c)
  {
    AllValid(r) && |Spell(r)| == len + |Spell(c)| && Spell(r)[len..] == Spell(c)
  }

  lemma ExtendsInPlace(m: Mbuf, rest: Chain, len: nat)
    requires Valid(m) && AllValid(rest) && m.data - Low(m) >= len && AllValid([m] + rest)
    ensures var b := [m.(data := m.data - len, len := m.len + len)] + rest;
            Extends(b, [m] + rest, len) && (HeaderFirst([m] + rest) ==> HeaderFirst(b))
  {
    Widened(m, len);
    SpellCons(m, rest);
    SpellCons(m.(data := m.data - len, len := m.len + len), rest);
  }

  lemma ExtendsWithFront(m: Mbuf, rest: Chain, len: nat)
    requires Valid(m) && AllValid(rest) && len <= MHLEN && AllValid([m] + rest)
    ensures var b := [Front(m, len)] + ([m.(hdr := false)] + rest);
            Extends(b, [m] + rest, len) && (HeaderFirst([m] + rest) ==> HeaderFirst(b))
  {
    assert Valid(Front(m, len));
    assert Bytes(m.(hdr := false)) == Bytes(m);
    SpellCons(m, rest);
    SpellCons(m.(hdr := false), rest);
    SpellCons(Front(m, len), [m.(hdr := false)] + rest);
  }

  lemma RelabelKeeps(b: Chain, c: Chain, len: nat, x: int)
    requires AllValid(c) && b != [] && Extends(b, c, len)
    ensures var r := b[0 := b[0].(pktLen := x)]; Extends(r, c, len) && (HeaderFirst(b) ==> HeaderFirst(r))
  {
    Relabel(b, x);
  }

  /** The branches of m_prepend: move the start back, or put a new mbuf in front. */
  method MakeRoom(c: Chain, len: nat) returns (b: Chain)
    requires AllValid(c) && c != [] && len <= MHLEN
    ensures b != [] && Extends(b, c, len) && b[0].len >= len && (HeaderFirst(c) ==> HeaderFirst(b))
    ensures |b| == (if c[0].data - Low(c[0]) >= len then |c| else |c| + 1)
    ensures b[0].hdr == c[0].hdr && (c[0].hdr ==> b[0].pktLen == c[0].pktLen)
    ensures c[0].data - Low(c[0]) >= len ==> b[0].data == c[0].data - len && b[0].len == c[0].len + len && b[1..] == c[1..]
    ensures c[0].data - Low(c[0]) < len ==>
              && b[0].data == (if c[0].hdr then 8 else 0) + (100 - len) / 4 * 4 && b[0].len == len && !b[0].ext
              && b[1] == c[0].(hdr := false) && b[2..] == c[1..]
  {
    var m, rest := c[0], c[1..];
    assert c == [m] + rest;
    if m.data - Low(m) >= len {
      ExtendsInPlace(m, rest, len);
      b := [m.(data := m.data - len, len := m.len + len)] + rest;
    } else {
      ExtendsWithFront(m, rest, len);
      b := [Front(m, len)] + ([m.(hdr := false)] + rest);
    }
  }

  /** m_prepend: len bytes come in front, contiguous in the first mbuf, and the packet length grows by len. Without room
      they go to a new mbuf, at the longword boundary nearest its end, which takes over the packet header. */
  method Prepend(c: Chain, len: nat) returns (b: Chain)
    requires AllValid(c) && c != [] && len <= MHLEN
    ensures b != [] && Extends(b, c, len) && b[0].len >= len && (HeaderFirst(c) ==> HeaderFirst(b))
    ensures |b| == (if c[0].data - Low(c[0]) >= len then |c| else |c| + 1)
    ensures b[0].hdr == c[0].hdr && (c[0].hdr ==> b[0].pktLen == c[0].pktLen + len)
    ensures c[0].data - Low(c[0]) >= len ==> b[0].data == c[0].data - len && b[0].len == c[0].len + len && b[1..] == c[1..]
    ensures c[0].data - Low(c[0]) < len ==>
              && b[0].data == (if c[0].hdr then 8 else 0) + (100 - len) / 4 * 4 && b[0].len == len && !b[0].ext
              && b[1] == c[0].(hdr := false) && b[2..] == c[1..]
  {
    b := MakeRoom(c, len);
    if b[0].hdr {
      RelabelKeeps(b, c, len, b[0].pktLen + len);
      b := b[0 := b[0].(pktLen := b[0].pktLen + len)];
    }
  }

  lemma Widened(m: Mbuf, len: nat)
    requires Valid(m) && m.data - Low(m) >= len
    ensures var r := m.(data := m.data - len, len := m.len + len); Valid(r) && |Bytes(r)| == len + m.len && Bytes(r)[len..] == Bytes(m)
  {
  }

  /** Trimming what was prepended gives the bytes and the packet length back. */
  method PrependThenAdj(c: Chain, len: nat) returns (b: Chain)
    requires AllValid(c) && c != [] && len <= MHLEN
    ensures AllValid(b) && Spell(b) == Spell(c)
    ensures c[0].hdr && c[0].pktLen == Total(c) ==> b != [] && b[0].hdr && b[0].pktLen == Total(c)
  {
    b := Prepend(c, len);
    SpellLength(b);
    SpellLength(c);
    b := Adj(b, len);
    SpellLength(b);
  }

  // ----- m_getptr and m_copydata -----

  /** m_getptr: the mbuf and the offset in it of byte loc; the end of the data counts as a location in the
      last mbuf; -1 stands for the null pointer. */
  method GetPtr(c: Chain, loc: int) returns (k: int, off: int)
    requires AllValid(c) && c != []
    ensures k == -1 <==> loc < 0 || loc > Total(c)
    ensures k != -1 ==> 0 <= k < |c| && 0 <= off <= c[k].len && Total(c[..k]) + off == loc
    ensures 0 <= loc < Total(c) ==> off < c[k].len
    ensures loc == Total(c) ==> k == |c| - 1 && off == c[k].len
  {
    TotalNonNegative(c, 0);
    assert c[..0] == [] && c[0..] == c;
    if loc < 0 { return -1, 0; }
    k, off := 0, loc;
    while true
      invariant 0 <= k < |c| && 0 <= off && Total(c[..k]) + off == loc && off + Total(c) == loc + Total(c[k..])
      decreases |c| - k
    {
      TotalFrom(c, k);
      TotalUpTo(c, k);
      TotalNonNegative(c, k + 1);
      if c[k].len > off {
        return;
      }
      off := off - c[k].len;
      if k + 1 == |c| {
        if off == 0 {
          off := c[k].len;
          return;
        }
        return -1, off;
      }
      k := k + 1;
    }
  }

  /** That location holds byte loc of the byte string. */
  lemma {:induction false} ByteAt(c: Chain, k: nat, off: int)
    requires AllValid(c) && k < |c| && 0 <= off < c[k].len
    ensures var loc := Total(c[..k]) + off;
            0 <= loc < |Spell(c)| && Spell(c)[loc] == c[k].store[c[k].data + off]
    decreases k
  {
    if k == 0 {
      assert c[..0] == [];
    } else {
      ByteAt(c[1..], k - 1, off);
      assert c[..k][1..] == c[1..][..k - 1];
    }
  }

  lemma {:induction false} TotalUpTo(c: Chain, k: nat)
    requires k < |c|
    ensures Total(c[..k + 1]) == Total(c[..k]) + c[k].len
    decreases k
  {
    if k > 0 {
      TotalUpTo(c[1..], k - 1);
      assert c[..k + 1][1..] == c[1..][..k] && c[..k][1..] == c[1..][..k - 1];
    } else {
      assert c[..1][1..] == [] && c[..0] == [];
    }
  }

  /** The len bytes from off on, counted from mbuf i. */
  ghost predicate Lies(c: Chain, i: nat, off: int, len: int, want: seq<byte>)
    requires AllValid(c) && i <= |c|
  {
    AllValid(c[i..]) && 0 <= off && 0 <= len && off + len <= |Spell(c[i..])| && Spell(c[i..])[off..off + len] == want
  }

  lemma SkipStep(c: Chain, i: nat, off: int, len: int, want: seq<byte>)
    requires AllValid(c) && i < |c| && Lies(c, i, off, len, want) && c[i].len <= off
    ensures Lies(c, i + 1, off - c[i].len, len, want) && |Spell(c[i + 1..])| == |Spell(c[i..])| - c[i].len
  {
    SpellFrom(c, i);
    Skipped(Bytes(c[i]), Spell(c[i + 1..]), off, len);
  }

  lemma CopyStep(c: Chain, i: nat, off: int, len: int, count: int, want: seq<byte>)
    requires AllValid(c) && i < |c| && Lies(c, i, off, len, want) && off <= c[i].len && count == Min(c[i].len - off, len)
    ensures 0 <= count <= |want| && Lies(c, i + 1, 0, len - count, want[count..])
    ensures c[i].store[c[i].data + off..c[i].data + off + count] == want[..count]
  {
    SpellFrom(c, i);
    Copied(Bytes(c[i]), Spell(c[i + 1..]), off, len, count);
    CutBytes(c[i], off, count);
  }

  /** The first loop of m_copydata: skip whole mbufs. */
  method Seek(c: Chain, off: nat, ghost len: nat, ghost want: seq<byte>) returns (i: nat, rest: int)
    requires AllValid(c) && c != [] && Lies(c, 0, off, len, want) && (off < Total(c) || off == 0)
    ensures i < |c| && Lies(c, i, rest, len, want) && rest <= c[i].len
  {
    i, rest := 0, off;
    assert c[0..] == c;
    while rest > 0 && rest >= c[i].len
      invariant 0 <= i < |c| && Lies(c, i, rest, len, want) && (rest < Total(c[i..]) || rest == 0)
      decreases |c| - i
    {
      SkipStep(c, i, rest, len, want);
      TotalFrom(c, i);
      rest := rest - c[i].len;
      i := i + 1;
    }
  }

  /** The second loop of m_copydata: copy piece by piece. */
  method Gather(c: Chain, from: nat, skip: int, wanted: nat, ghost want: seq<byte>) returns (out: seq<byte>)
    requires AllValid(c) && from < |c| && Lies(c, from, skip, wanted, want) && skip <= c[from].len
    ensures out == want
  {
    var i, off, len := from, skip, wanted;
    ghost var left := want;
    out := [];
    while len > 0
      invariant 0 <= i <= |c| && Lies(c, i, off, len, left) && (i < |c| ==> off <= c[i].len) && out + left == want
      decreases |c| - i
    {
      var count := Min(c[i].len - off, len);
      CopyStep(c, i, off, len, count, left);
      out := out + c[i].store[c[i].data + off..c[i].data + off + count];
      left := left[count..];
      len := len - count;
      off := 0;
      i := i + 1;
    }
  }

  /** m_copydata on a chain without clusters: exactly the len bytes from off on. */
  method CopyData(c: Chain, off: nat, len: nat) returns (out: seq<byte>)
    requires AllValid(c) && c != [] && (forall i :: 0 <= i < |c| ==> !c[i].ext)
    requires off + len <= Total(c) && (off < Total(c) || off == 0)
    ensures |Spell(c)| == Total(c) && out == Spell(c)[off..off + len]
  {
    SpellLength(c);
    assert c[0..] == c;
    ghost var want := Spell(c)[off..off + len];
    var i, rest := Seek(c, off, len, want);
    out := Gather(c, i, rest, len, want);
  }

  lemma Skipped(a: seq<byte>, b: seq<byte>, off: nat, len: nat)
    requires |a| <= off && off + len <= |a| + |b|
    ensures (a + b)[off..off + len] == b[off - |a|..off - |a| + len]
  {
  }

  lemma Copied(a: seq<byte>, b: seq<byte>, off: nat, len: nat, count: nat)
    requires off <= |a| && off + len <= |a| + |b| && count == Min(|a| - off, len)
    ensures (a + b)[off..off + len] == a[off..off + count] + b[..len - count]
  {
  }

  // ----- m_devget -----

  /** An empty mbuf whose data will start at data. */
  function Fresh(data: int, ext: bool, hdr: bool, pktLen: int): Mbuf {
    Mbuf(data, 0, ext, hdr, pktLen, seq(if ext then MCLBYTES else MLEN, _ => 0))
  }

  /** Where m_devget starts the data of an mbuf when total bytes are left: behind the packet header in the first one, with
      room for the link header if all still fits, and behind the offset asked for; at the start of a cluster otherwise. */
  function LoadedAt(total: nat, top: bool, off: nat, linkhdr: nat): int {
    if total + off >= 208 then off
    else (if top then 8 else 0) + (if top && total + off + linkhdr <= 100 then linkhdr else 0) + off
  }

  /** One round of m_devget: choose a plain mbuf or a cluster, leave room for headers, and copy what fits. */
  method Load(rest: seq<byte>, top: bool, off: nat, linkhdr: nat, pktLen: int) returns (m: Mbuf)
    requires rest != [] && off <= MHLEN && (!top ==> off == 0)
    ensures Valid(m) && m.len <= |rest| && Bytes(m) == rest[..m.len] && (m.len == 0 ==> top)
    ensures m.hdr == top && (top ==> m.pktLen == pktLen) && m.data - Low(m) >= off
    ensures m.ext == (|rest| + off >= MINCLSIZE) && m.data == LoadedAt(|rest|, top, off, linkhdr) && m.len == Min(|rest|, |m.store| - m.data)
  {
    var totlen := |rest|;
    var data, len := if top then HDR else 0, if top then MHLEN else MLEN;
    var ext := false;
    if totlen + off >= MINCLSIZE {
      data, len, ext := 0, MCLBYTES, true;
    } else if top && totlen + off + linkhdr <= len {
      data := data + linkhdr;
      len := len - linkhdr;
    }
    if off != 0 {
      data := data + off;
      len := len - off;
    }
    len := Min(totlen, len);
    m := Fresh(data, ext, top, pktLen);
    AppendBytes(m, rest[..len]);
    m := Written(m, data, rest[..len]).(len := len);
  }

  /** A packet under construction that spells s. */
  ghost predicate Packet(top: Chain, s: seq<byte>, totlen: int, off: int) {
    && AllValid(top) && Spell(top) == s && HeaderFirst(top)
    && (top != [] ==> top[0].hdr && top[0].pktLen == totlen && top[0].data - Low(top[0]) >= off)
  }

  lemma PacketGrows(top: Chain, s: seq<byte>, totlen: int, off: int, m: Mbuf)
    requires Packet(top, s, totlen, off) && Valid(m) && m.hdr == (top == [])
    requires top == [] ==> m.pktLen == totlen && m.data - Low(m) >= off
    ensures Packet(top + [m], s + Bytes(m), totlen, off)
  {
    SpellLast(top, m);
  }

  /** The i-th mbuf has a cluster exactly when what is left needs more than two plain ones, its data start where they
      should, and it takes all that is left or is full. */
  ghost predicate Placed(top: Chain, totlen: int, off: int, linkhdr: int, i: nat)
    requires i < |top|
  {
    var m, left, o := top[i], totlen - Total(top[..i]), if i == 0 then off else 0;
    && (m.ext <==> left + o >= 208)
    && (m.ext ==> m.data == o)
    && (!m.ext && i == 0 ==> m.data == 8 + off + if left + off + linkhdr <= 100 then linkhdr else 0)
    && (!m.ext && i > 0 ==> m.data == 0)
    && m.len == Min(left, |m.store| - m.data)
  }

  lemma PlacedGrows(top: Chain, totlen: int, off: int, linkhdr: nat, m: Mbuf)
    requires forall i :: 0 <= i < |top| ==> Placed(top, totlen, off, linkhdr, i)
    requires 0 <= Total(top) < totlen && 0 <= off
    requires var left, o := totlen - Total(top), if top == [] then off else 0;
             m.ext == (left + o >= MINCLSIZE) && m.data == LoadedAt(left, top == [], o, linkhdr) && m.len == Min(left, |m.store| - m.data)
    ensures Total(top + [m]) == Total(top) + m.len
    ensures forall i :: 0 <= i < |top + [m]| ==> Placed(top + [m], totlen, off, linkhdr, i)
  {
    var t := top + [m];
    TotalUpTo(t, |top|);
    assert t[..|top|] == top && t[..|top| + 1] == t;
    forall i | 0 <= i < |t| ensures Placed(t, totlen, off, linkhdr, i) {
      if i < |top| {
        assert t[..i] == top[..i] && Placed(top, totlen, off, linkhdr, i);
      }
    }
  }

  lemma NextPiece(buf: seq<byte>, pos: nat, totlen: nat, n: nat)
    requires pos + n <= totlen <= |buf|
    ensures buf[..pos] + buf[pos..totlen][..n] == buf[..pos + n]
  {
  }

  /** m_devget: the device's bytes in order, each mbuf within its capacity, the packet length in the first
      mbuf and the requested offset free before its data. A bad offset or an empty packet gives no chain. */
  method DevGet(buf: seq<byte>, totlen: int, off: int, linkhdr: nat) returns (top: Chain)
    requires totlen <= |buf|
    ensures top == [] <==> off < 0 || off > MHLEN || totlen <= 0
    ensures top != [] ==> Packet(top, buf[..totlen], totlen, off)
    ensures forall i :: 0 <= i < |top| ==> Placed(top, totlen, off, linkhdr, i)
  {
    top := [];
    if off < 0 || off > MHLEN { return; }
    var pos := 0;
    while pos < totlen
      invariant 0 <= pos && (if top == [] then pos == 0 else pos <= totlen && totlen > 0)
      invariant Packet(top, buf[..pos], totlen, off)
      invariant Total(top) == pos && forall i :: 0 <= i < |top| ==> Placed(top, totlen, off, linkhdr, i)
      decreases totlen - pos, if top == [] then 1 else 0
    {
      var m := Load(buf[pos..totlen], top == [], if top == [] then off else 0, linkhdr, totlen);
      NextPiece(buf, pos, totlen, m.len);
      PacketGrows(top, buf[..pos], totlen, off, m);
      PlacedGrows(top, totlen, off, linkhdr, m);
      top := top + [m];
      pos := pos + m.len;
    }
  }
}
