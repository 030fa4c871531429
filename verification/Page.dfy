/** Two-level page tables (map_page and map_pages of Kernel/page.c, probe_for_write of Kernel/kthread.c). */
module Page {
  import opened Arith

  const PAGE_SIZE: nat := 4096
  const ENTRIES: nat := 1024
  const PAGE_OFFSET: nat := 0xC000_0000

  datatype Flag = Pre | Rw | Usr | Pwt | Pcd | Accessed | Dirty | Pse | Global

  /** A directory or table word: a page frame and the flags in the low bits. */
  datatype Entry = Entry(frame: nat, flags: set<Flag>)

  const ZERO := Entry(0, {})

  /** The page frames in use as directories and tables. */
  type Mem = map<nat, seq<Entry>>

  datatype Option<T> = None | Some(value: T)

  ghost predicate IsTable(e: Entry) {
    Pre in e.flags && Pse !in e.flags
  }

  /** The directory and its tables are distinct whole pages. */
  ghost predicate Tables(mem: Mem, dir: nat) {
    && dir in mem && |mem[dir]| == ENTRIES
    && (forall i :: 0 <= i < ENTRIES && IsTable(mem[dir][i]) ==> HasTable(mem, dir, mem[dir][i].frame))
    && (forall i, k :: 0 <= i < k < ENTRIES && IsTable(mem[dir][i]) && IsTable(mem[dir][k]) ==> mem[dir][i].frame != mem[dir][k].frame)
  }

  ghost predicate HasTable(mem: Mem, dir: nat, f: nat) {
    f in mem && f != dir && |mem[f]| == ENTRIES
  }

  /** The walk for directory index i and table index j: the word that maps the page. */
  function Walk(mem: Mem, dir: nat, i: nat, j: nat): Option<Entry>
    requires Tables(mem, dir) && i < ENTRIES && j < ENTRIES
  {
    var pde := mem[dir][i];
    if Pre !in pde.flags then None
    else if Pse in pde.flags then Some(pde)
    else
      var pte := mem[pde.frame][j];
      if Pre in pte.flags then Some(pte) else None
  }

  /** A page table word is already occupied by another frame. */
  ghost predicate Occupied(mem: Mem, dir: nat, i: nat, j: nat)
    requires Tables(mem, dir) && i < ENTRIES && j < ENTRIES
  {
    IsTable(mem[dir][i]) && mem[mem[dir][i].frame][j].frame != 0
  }

  /** Installing a zeroed frame as the table of a directory entry that had none changes no translation. */
  function Install(mem: Mem, dir: nat, i: nat, f: nat, flags: set<Flag>): Mem
    requires Tables(mem, dir) && i < ENTRIES
  {
    mem[f := seq(ENTRIES, _ => ZERO)][dir := mem[dir][i := Entry(f, flags)]]
  }

  lemma InstallKeeps(mem: Mem, dir: nat, i: nat, f: nat, flags: set<Flag>)
    requires Tables(mem, dir) && i < ENTRIES && Pre !in mem[dir][i].flags && f !in mem && Pse !in flags
    ensures Tables(Install(mem, dir, i, f, flags), dir)
    ensures forall a, b :: 0 <= a < ENTRIES && 0 <= b < ENTRIES ==> Walk(Install(mem, dir, i, f, flags), dir, a, b) == Walk(mem, dir, a, b)
    ensures forall a, b :: 0 <= a < ENTRIES && 0 <= b < ENTRIES ==> Occupied(Install(mem, dir, i, f, flags), dir, a, b) == Occupied(mem, dir, a, b)
  {
  }

  /** Writing one table word is a map update of the translation. */
  lemma SetKeeps(mem: Mem, dir: nat, i: nat, j: nat, e: Entry)
    requires Tables(mem, dir) && i < ENTRIES && j < ENTRIES && IsTable(mem[dir][i])
    ensures var t := mem[dir][i].frame; var m := mem[t := mem[t][j := e]];
            && Tables(m, dir)
            && (forall a, b :: 0 <= a < ENTRIES && 0 <= b < ENTRIES && (a != i || b != j) ==> Walk(m, dir, a, b) == Walk(mem, dir, a, b) && Occupied(m, dir, a, b) == Occupied(mem, dir, a, b))
            && Walk(m, dir, i, j) == (if Pre in e.flags then Some(e) else None)
  {
  }

  /** A page that no directory entry uses as a table may hold anything. */
  lemma OrphanKeeps(mem: Mem, dir: nat, f: nat, page: seq<Entry>)
    requires Tables(mem, dir) && f != dir && |page| == ENTRIES
    requires forall i :: 0 <= i < ENTRIES && IsTable(mem[dir][i]) ==> mem[dir][i].frame != f
    ensures Tables(mem[f := page], dir)
    ensures forall a, b :: 0 <= a < ENTRIES && 0 <= b < ENTRIES ==> Walk(mem[f := page], dir, a, b) == Walk(mem, dir, a, b) && Occupied(mem[f := page], dir, a, b) == Occupied(mem, dir, a, b)
  {
  }

  // ----- Virtual pages -----

  ghost predicate IsPage(vp: int) {
    0 <= vp < ENTRIES * ENTRIES
  }

  /** The translation of a virtual page. */
  ghost function Translate(mem: Mem, dir: nat, vp: int): Option<Entry>
    requires Tables(mem, dir) && IsPage(vp)
  {
    Walk(mem, dir, vp / ENTRIES, vp % ENTRIES)
  }

  ghost predicate Taken(mem: Mem, dir: nat, vp: int)
    requires Tables(mem, dir) && IsPage(vp)
  {
    Occupied(mem, dir, vp / ENTRIES, vp % ENTRIES)
  }

  /** No 4 MB page covers the virtual page. */
  ghost predicate Small(mem: Mem, dir: nat, vp: int)
    requires Tables(mem, dir) && IsPage(vp)
  {
    var pde := mem[dir][vp / ENTRIES]; Pre in pde.flags ==> Pse !in pde.flags
  }

  ghost predicate NeedsTable(mem: Mem, dir: nat, vp: int)
    requires Tables(mem, dir) && IsPage(vp)
  {
    Pre !in mem[dir][vp / ENTRIES].flags
  }

  /** The translation after page vp was mapped with entry e. */
  ghost predicate Updated(was: Mem, mem: Mem, dir: nat, vp: int, e: Entry)
    requires Tables(was, dir) && Tables(mem, dir) && IsPage(vp)
  {
    && Translate(mem, dir, vp) == (if Pre in e.flags then Some(e) else None)
    && (forall v :: IsPage(v) && v != vp ==> Translate(mem, dir, v) == Translate(was, dir, v) && Taken(mem, dir, v) == Taken(was, dir, v))
    && (forall v :: IsPage(v) && Small(was, dir, v) ==> Small(mem, dir, v))
  }

  /** The translation after a 4 MB page was put over page vp and its neighbours. */
  ghost predicate BigUpdated(was: Mem, mem: Mem, dir: nat, vp: int, e: Entry)
    requires Tables(was, dir) && Tables(mem, dir) && IsPage(vp)
  {
    forall v :: IsPage(v) ==>
      Translate(mem, dir, v) == if v / ENTRIES == vp / ENTRIES then (if Pre in e.flags then Some(e) else None) else Translate(was, dir, v)
  }

  lemma BigKeeps(mem: Mem, dir: nat, i: nat, e: Entry)
    requires Tables(mem, dir) && i < ENTRIES && Pse in e.flags
    ensures var m := mem[dir := mem[dir][i := e]];
            && Tables(m, dir)
            && forall a, b :: 0 <= a < ENTRIES && 0 <= b < ENTRIES ==>
                 Walk(m, dir, a, b) == if a == i then (if Pre in e.flags then Some(e) else None) else Walk(mem, dir, a, b)
  {
  }

  /** map_page on values: a table is installed when there is none, then the table word is written. */
  function Mapped(mem: Mem, dir: nat, i: nat, j: nat, e: Entry, f: nat): Mem
    requires Tables(mem, dir) && i < ENTRIES && j < ENTRIES && (Pre in mem[dir][i].flags ==> Pse !in mem[dir][i].flags)
  {
    if Pre in mem[dir][i].flags then
      var t := mem[dir][i].frame; mem[t := mem[t][j := e]]
    else
      var m := Install(mem, dir, i, f, e.flags + {Rw}); m[f := seq(ENTRIES, _ => ZERO)[j := e]]
  }

  lemma MappedUpdates(mem: Mem, dir: nat, vp: int, e: Entry, f: nat)
    requires Tables(mem, dir) && IsPage(vp) && Small(mem, dir, vp) && Pse !in e.flags
    requires NeedsTable(mem, dir, vp) ==> f !in mem
    ensures var m := Mapped(mem, dir, vp / ENTRIES, vp % ENTRIES, e, f); Tables(m, dir) && Updated(mem, m, dir, vp, e)
  {
    var i, j := vp / ENTRIES, vp % ENTRIES;
    var m := Mapped(mem, dir, i, j, e, f);
    if Pre in mem[dir][i].flags {
      SetKeeps(mem, dir, i, j, e);
    } else {
      var n := Install(mem, dir, i, f, e.flags + {Rw});
      InstallKeeps(mem, dir, i, f, e.flags + {Rw});
      assert n[f] == seq(ENTRIES, _ => ZERO);
      if Pre in e.flags {
        SetKeeps(n, dir, i, j, e);
      } else {
        OrphanKeeps(n, dir, f, n[f][j := e]);
      }
    }
    forall v | IsPage(v) && v != vp
      ensures Translate(m, dir, v) == Translate(mem, dir, v) && Taken(m, dir, v) == Taken(mem, dir, v)
    {
      assert v == (v / ENTRIES) * ENTRIES + v % ENTRIES && vp == i * ENTRIES + j;
    }
  }

  // ----- How many pages map_pages maps -----

  /** PAGE_ALIGN(size) >> PAGE_SHIFT, and one more when the offset and the odd bytes together exceed a page. */
  function PageCount(offset: nat, size: nat): nat {
    (size + PAGE_SIZE - 1) / PAGE_SIZE + if offset + size % PAGE_SIZE > PAGE_SIZE then 1 else 0
  }

  /** The pages reach the end of the range exactly when the range starts on a page boundary or is
      not a whole number of pages; otherwise they miss its last page, and they never reach further. */
  lemma PagesReachEnd(offset: nat, size: nat)
    requires offset < PAGE_SIZE
    ensures size > 0 ==> (offset + size <= PageCount(offset, size) * PAGE_SIZE <==> offset == 0 || size % PAGE_SIZE != 0)
    ensures PageCount(offset, size) * PAGE_SIZE < offset + size + PAGE_SIZE
    ensures offset != 0 && size > 0 && size % PAGE_SIZE == 0 ==> PageCount(offset, size) * PAGE_SIZE == size
  {
    var q, r := size / PAGE_SIZE, size % PAGE_SIZE;
    assert size == q * PAGE_SIZE + r;
    if r == 0 {
      DivModIs(size + PAGE_SIZE - 1, PAGE_SIZE, q, PAGE_SIZE - 1);
    } else {
      DivModIs(size + PAGE_SIZE - 1, PAGE_SIZE, q + 1, r - 1);
    }
  }

  /** One page from an address one byte past a boundary touches two pages; one is mapped. */
  lemma OnePageTooFew()
    ensures PageCount(1, PAGE_SIZE) * PAGE_SIZE < 1 + PAGE_SIZE
  {
  }

  ghost predicate Distinct(s: seq<nat>) {
    forall i, k :: 0 <= i < k < |s| ==> s[i] != s[k]
  }

  /** What map_page does to the directory: a 4 MB page takes the word itself, a missing table is the next zeroed frame,
      writable and with the flags of the page, and a table that is there stays. No other word changes. */
  ghost predicate DirWord(was: seq<Entry>, now: seq<Entry>, i: int, pool: seq<nat>, e: Entry) {
    && 0 <= i < |was| == |now|
    && (forall k :: 0 <= k < |was| && k != i ==> now[k] == was[k])
    && (Pse in e.flags ==> now[i] == e)
    && (Pse !in e.flags && Pre in was[i].flags ==> now[i] == was[i])
    && (Pse !in e.flags && Pre !in was[i].flags ==> pool != [] && now[i].frame == pool[0] && now[i].flags == e.flags + {Rw})
  }

  class AddressSpace {
    var mem: Mem
    const dir: nat
    var pool: seq<nat>   // the zeroed frames that get_zero_page will hand out

    ghost predicate Valid()
      reads this
    {
      Tables(mem, dir) && Distinct(pool) && forall k :: 0 <= k < |pool| ==> pool[k] !in mem
    }

    constructor (dir: nat, pool: seq<nat>)
      requires Distinct(pool) && dir !in pool
      ensures Valid() && this.dir == dir && this.pool == pool
      ensures forall vp :: IsPage(vp) ==> Translate(mem, dir, vp) == None
    {
      this.dir, this.pool := dir, pool;
      mem := map[dir := seq(ENTRIES, _ => ZERO)];
    }

    /** probe_for_write: the end must not lie in kernel space and the page of the first byte must be mapped. */
    method ProbeForWrite(addr: nat, size: int) returns (r: int)
      requires Valid() && addr < WORD
      ensures r == if (addr + size) % WORD <= PAGE_OFFSET && Translate(mem, dir, addr / PAGE_SIZE).Some? then 0 else -1
      ensures r == 0 <==>
                && (addr + size) % 0x1_0000_0000 <= 0xC000_0000 && Pre in mem[dir][addr / 0x40_0000].flags
                && (Pse in mem[dir][addr / 0x40_0000].flags
                    || (var t := mem[dir][addr / 0x40_0000].frame; t in mem && |mem[t]| == 1024 && Pre in mem[t][addr / 0x1000 % 1024].flags))
    {
      Indices(addr);
      if (addr + size) % WORD > PAGE_OFFSET { return -1; }
      var pde := mem[dir][addr / (PAGE_SIZE * ENTRIES)];
      if pde == ZERO { return -1; }
      if Pre !in pde.flags { return -1; }
      if Pse !in pde.flags {
        var pte := mem[pde.frame][addr / PAGE_SIZE % ENTRIES];
        if pte == ZERO { return -1; }
        if Pre !in pte.flags { return -1; }
      }
      return 0;
    }

    method GetZeroPage() returns (f: nat)
      requires Valid() && pool != []
      modifies this`pool
      ensures Valid() && old(pool) == [f] + pool && f !in mem && f !in pool
    {
      f := pool[0];
      pool := pool[1..];
    }

    /** map_page: a 4 MB page replaces the directory word; for a 4 KB page, a table word that already names a frame
        is a kernel bug and stays as it is. */
    method MapPage(va: nat, pa: nat, flags: set<Flag>) returns (r: int)
      requires Valid() && va < WORD && pa % PAGE_SIZE == 0
      requires Pse !in flags ==> Small(mem, dir, va / PAGE_SIZE) && (NeedsTable(mem, dir, va / PAGE_SIZE) ==> pool != [])
      modifies this`mem, this`pool
      ensures Valid() && (pool == old(pool) || (old(pool) != [] && pool == old(pool)[1..]))
      ensures forall f :: f in mem ==> f in old(mem) || (f in old(pool) && f !in pool)
      ensures r == if Pse !in flags && old(Taken(mem, dir, va / PAGE_SIZE)) then -1 else 0
      ensures r == -1 ==> mem == old(mem) && pool == old(pool)
      ensures r == 0 && Pse !in flags ==> Updated(old(mem), mem, dir, va / PAGE_SIZE, Entry(pa / PAGE_SIZE, flags))
      ensures Pse in flags ==> BigUpdated(old(mem), mem, dir, va / PAGE_SIZE, Entry(pa / PAGE_SIZE, flags)) && pool == old(pool)
      ensures r == -1 <==>
                && Pse !in flags && Pre in old(mem)[dir][va / 0x40_0000].flags
                && var t := old(mem)[dir][va / 0x40_0000].frame;
                   t in old(mem) && |old(mem)[t]| == 1024 && old(mem)[t][va / 0x1000 % 1024].frame != 0
      ensures r == 0 ==> DirWord(old(mem[dir]), mem[dir], va / 0x40_0000, old(pool), Entry(pa / 0x1000, flags))
      ensures r == 0 && Pse !in flags ==>
                var t := mem[dir][va / 0x40_0000].frame;
                t in mem && |mem[t]| == 1024 && mem[t][va / 0x1000 % 1024] == Entry(pa / 0x1000, flags)
    {
      var i, j := va / (PAGE_SIZE * ENTRIES), va / PAGE_SIZE % ENTRIES;
      Indices(va);
      ghost var m := mem;
      if Pse in flags {
        BigKeeps(mem, dir, i, Entry(pa / PAGE_SIZE, flags));
        mem := mem[dir := mem[dir][i := Entry(pa / PAGE_SIZE, flags)]];
        return 0;
      }
      var t: nat;
      if Pre !in mem[dir][i].flags {
        t := GetZeroPage();
        mem := Install(mem, dir, i, t, flags + {Rw});
        MappedUpdates(m, dir, va / PAGE_SIZE, Entry(pa / PAGE_SIZE, flags), t);
      } else {
        t := mem[dir][i].frame;
        if mem[t][j].frame != 0 {
          return -1;
        }
        MappedUpdates(m, dir, va / PAGE_SIZE, Entry(pa / PAGE_SIZE, flags), 0);
      }
      mem := mem[t := mem[t][j := Entry(pa / PAGE_SIZE, flags)]];
      return 0;
    }
  
    /** One round of map_pages: the next page gets the next zeroed frame. */
    method MapNext(dest: nat, flags: set<Flag>, ghost was: Mem, ghost first: nat, ghost got: seq<nat>, ghost base: seq<nat>)
      returns (r: int, ghost more: seq<nat>)
      requires Valid() && |pool| >= 2 && Tables(was, dir) && Progress(was, mem, dir, first, got, flags) && Own(got, base, pool, mem)
      requires IsPage(first + |got|) && Small(was, dir, first + |got|) && dest == (first + |got|) * PAGE_SIZE
      requires Pre in flags && Pse !in flags
      modifies this`mem, this`pool
      ensures Valid() && |pool| >= |old(pool)| - 2 && Own(more, base, pool, mem) && Progress(was, mem, dir, first, more, flags)
      ensures r == if Taken(was, dir, first + |got|) then -1 else 0
      ensures r == 0 ==> |more| == |got| + 1
      ensures r == -1 ==> more == got
    {
      ghost var before := mem;
      DivModIs(dest, PAGE_SIZE, first + |got|, 0);
      var page := GetZeroPage();
      DivModIs(page * PAGE_SIZE, PAGE_SIZE, page, 0);
      ghost var words := pool;
      r := MapPage(dest, page * PAGE_SIZE, flags);
      more := got;
      if r == 0 {
        more := got + [page];
        ProgressStep(was, before, mem, dir, first, got, flags, page, dest / 0x40_0000, words);
      }
    }

    /** The loop of map_pages. */
    method MapRange(va: nat, size: nat, flag: set<Flag>) returns (r: int, ghost got: seq<nat>)
      requires Valid() && va + size + 2 * PAGE_SIZE <= WORD && Pse !in flag
      requires |pool| >= 2 * PageCount(va % PAGE_SIZE, size)
      requires forall vp :: IsPage(vp) && InRange(va, size, vp) ==> Small(mem, dir, vp)
      modifies this`mem, this`pool
      ensures Valid() && (r == 0 || r == -1)
      ensures r == 0 <==> forall vp :: IsPage(vp) && InRange(va, size, vp) ==> !old(Taken(mem, dir, vp))
      ensures Own(got, old(pool), pool, mem) && Progress(old(mem), mem, dir, va / PAGE_SIZE, got, PageFlags(va, flag))
      ensures |got| <= PageCount(va % PAGE_SIZE, size) && (r == 0 ==> |got| == PageCount(va % PAGE_SIZE, size))
    {
      var dest := va - va % PAGE_SIZE;
      var flags := flag + {Pre};
      var i := PageCount(va % PAGE_SIZE, size);
      if va < PAGE_OFFSET {
        flags := flags + {Usr};
      }
      assert flags == PageFlags(va, flag);
      got := [];
      ghost var first, n, was, base := va / PAGE_SIZE, i, mem, pool;
      RangeIsPages(va, size);
      while i != 0
        invariant 0 <= i <= n && |got| == n - i && dest == (first + |got|) * PAGE_SIZE && |pool| >= 2 * i
        invariant Valid() && Progress(was, mem, dir, first, got, flags) && Own(got, base, pool, mem)
        invariant forall vp :: IsPage(vp) && first <= vp < first + |got| ==> !Taken(was, dir, vp)
        decreases i
      {
        r, got := MapNext(dest, flags, was, first, got, base);
        if r < 0 {
          return;
        }
        dest := dest + PAGE_SIZE;
        i := i - 1;
      }
      return 0, got;
    }

    /** map_pages: maps fresh zeroed frames over the page range, in order, unless a page is already mapped. */
    method MapPages(va: nat, size: nat, flag: set<Flag>) returns (r: int, ghost got: seq<nat>)
      requires Valid() && va + size + 2 * PAGE_SIZE <= WORD && Pse !in flag
      requires |pool| >= 2 * PageCount(va % PAGE_SIZE, size)
      requires forall vp :: IsPage(vp) && InRange(va, size, vp) ==> Small(mem, dir, vp)
      modifies this`mem, this`pool
      ensures Valid() && (r == 0 || r == -1)
      ensures r == 0 <==> forall vp :: IsPage(vp) && InRange(va, size, vp) ==> !old(Taken(mem, dir, vp))
      ensures Own(got, old(pool), pool, mem) && Progress(old(mem), mem, dir, va / PAGE_SIZE, got, PageFlags(va, flag))
      ensures |got| <= PageCount(va % PAGE_SIZE, size) && (r == 0 ==> |got| == PageCount(va % PAGE_SIZE, size))
      ensures forall k :: 0 <= k < |got| ==> GivenPage(mem, dir, va, flag, va / PAGE_SIZE + k, got[k])
      ensures forall i :: 0 <= i < ENTRIES && mem[dir][i] != old(mem)[dir][i] ==>
                Pre !in old(mem)[dir][i].flags && Rw in mem[dir][i].flags && GivenFlags(va, flag + {Rw}, mem[dir][i].flags)
    {
      ghost var was := mem;
      r, got := MapRange(va, size, flag);
      RangeFlags(was, mem, dir, va, got, flag);
    }
  }

  /** After map_pages the whole byte range [va, va + size) is mapped when va is page aligned or the size is
      not a whole number of pages. */
  lemma RangeCovered(was: Mem, mem: Mem, dir: nat, va: nat, size: nat, got: seq<nat>, flags: set<Flag>, b: nat)
    requires Tables(was, dir) && Tables(mem, dir) && Progress(was, mem, dir, va / PAGE_SIZE, got, flags) && |got| == PageCount(va % PAGE_SIZE, size)
    requires va <= b < va + size && (va % PAGE_SIZE == 0 || size % PAGE_SIZE != 0)
    ensures IsPage(b / PAGE_SIZE) && Translate(mem, dir, b / PAGE_SIZE).Some? && Translate(mem, dir, b / PAGE_SIZE).value.frame in got
  {
    PagesReachEnd(va % PAGE_SIZE, size);
    var first, k := va / PAGE_SIZE, b / PAGE_SIZE - va / PAGE_SIZE;
    assert va == first * PAGE_SIZE + va % PAGE_SIZE && b == (first + k) * PAGE_SIZE + b % PAGE_SIZE;
    assert Translate(mem, dir, first + k) == Some(Entry(got[k], flags));
  }

  /** Otherwise the last page of the range keeps its old translation, so the range is covered only when that
      page was mapped before. */
  lemma LastPageMissed(was: Mem, mem: Mem, dir: nat, va: nat, size: nat, got: seq<nat>, flags: set<Flag>)
    requires Tables(was, dir) && Tables(mem, dir) && Progress(was, mem, dir, va / PAGE_SIZE, got, flags) && |got| == PageCount(va % PAGE_SIZE, size)
    requires size > 0 && va % PAGE_SIZE != 0 && size % PAGE_SIZE == 0 && va + size <= WORD
    ensures var vp := (va + size - 1) / PAGE_SIZE; IsPage(vp) && Translate(mem, dir, vp) == Translate(was, dir, vp)
  {
    PagesReachEnd(va % PAGE_SIZE, size);
    var first, vp := va / PAGE_SIZE, (va + size - 1) / PAGE_SIZE;
    assert va == first * PAGE_SIZE + va % PAGE_SIZE && size == |got| * PAGE_SIZE;
    DivModIs(va + size - 1, PAGE_SIZE, first + |got|, va % PAGE_SIZE - 1);
  }

  /** A user range just mapped passes the probe at every byte, exactly under the condition above. */
  method MapThenProbe(space: AddressSpace, va: nat, size: nat, flag: set<Flag>, b: nat) returns (mapped: int, probed: int)
    requires space.Valid() && va + size <= PAGE_OFFSET && Pse !in flag && va <= b < va + size
    requires |space.pool| >= 2 * PageCount(va % PAGE_SIZE, size)
    requires forall vp :: IsPage(vp) && InRange(va, size, vp) ==> Small(space.mem, space.dir, vp)
    modifies space
    ensures space.Valid()
    ensures mapped == 0 && (va % PAGE_SIZE == 0 || size % PAGE_SIZE != 0) ==> probed == 0
    ensures mapped == 0 && va % PAGE_SIZE != 0 && size % PAGE_SIZE == 0 && b == va + size - 1 ==>
              (probed == 0 <==> old(Translate(space.mem, space.dir, b / PAGE_SIZE)).Some?)
  {
    ghost var got: seq<nat>;
    ghost var was := space.mem;
    mapped, got := space.MapPages(va, size, flag);
    probed := space.ProbeForWrite(b, 1);
    if mapped == 0 {
      if va % PAGE_SIZE == 0 || size % PAGE_SIZE != 0 {
        RangeCovered(was, space.mem, space.dir, va, size, got, PageFlags(va, flag), b);
      } else if b == va + size - 1 {
        LastPageMissed(was, space.mem, space.dir, va, size, got, PageFlags(va, flag));
      }
    }
  }

  /** The frames handed out are distinct, came from the base pool, and are neither left in it nor used as tables. */
  ghost predicate Own(got: seq<nat>, base: seq<nat>, pool: seq<nat>, mem: Mem) {
    && Distinct(got)
    && (forall f :: f in got ==> f in base && f !in pool && f !in mem)
    && (forall f :: f in pool ==> f in base)
  }

  lemma ProgressStep(was: Mem, before: Mem, mem: Mem, dir: nat, first: nat, got: seq<nat>, flags: set<Flag>, page: nat, i: int, pool: seq<nat>)
    requires Tables(was, dir) && Tables(before, dir) && Tables(mem, dir) && Progress(was, before, dir, first, got, flags)
    requires IsPage(first + |got|) && Pre in flags && Updated(before, mem, dir, first + |got|, Entry(page, flags))
    requires Pse !in flags && DirWord(before[dir], mem[dir], i, pool, Entry(page, flags))
    ensures Progress(was, mem, dir, first, got + [page], flags)
  {
    var more := got + [page];
    forall k | 0 <= k < |more|
      ensures Translate(mem, dir, first + k) == Some(Entry(more[k], flags))
    {
      if k < |got| { assert Translate(before, dir, first + k) == Some(Entry(got[k], flags)); }
    }
  }

  lemma PageFlagsGiven(va: nat, flag: set<Flag>)
    ensures GivenFlags(va, flag, PageFlags(va, flag)) && GivenFlags(va, flag + {Rw}, PageFlags(va, flag) + {Rw})
  {
  }

  lemma RangeFlags(was: Mem, mem: Mem, dir: nat, va: nat, got: seq<nat>, flag: set<Flag>)
    requires Tables(was, dir) && Tables(mem, dir) && Progress(was, mem, dir, va / PAGE_SIZE, got, PageFlags(va, flag))
    ensures forall k :: 0 <= k < |got| ==> GivenPage(mem, dir, va, flag, va / PAGE_SIZE + k, got[k])
    ensures forall i :: 0 <= i < ENTRIES && mem[dir][i] != was[dir][i] ==>
              Pre !in was[dir][i].flags && Rw in mem[dir][i].flags && GivenFlags(va, flag + {Rw}, mem[dir][i].flags)
  {
    PageFlagsGiven(va, flag);
    forall k | 0 <= k < |got| ensures GivenPage(mem, dir, va, flag, va / PAGE_SIZE + k, got[k]) {
      assert Translate(mem, dir, va / PAGE_SIZE + k) == Some(Entry(got[k], PageFlags(va, flag)));
    }
  }

  lemma RangeIsPages(va: nat, size: nat)
    requires va + size + 2 * PAGE_SIZE <= WORD
    ensures va / PAGE_SIZE + PageCount(va % PAGE_SIZE, size) < ENTRIES * ENTRIES
  {
    PagesReachEnd(va % PAGE_SIZE, size);
    assert va == (va / PAGE_SIZE) * PAGE_SIZE + va % PAGE_SIZE;
  }

  /** The flags asked for, present, and open to the user exactly below the kernel's addresses or on request. */
  ghost predicate GivenFlags(va: nat, flag: set<Flag>, flags: set<Flag>) {
    && Pre in flags
    && (Usr in flags <==> va < 0xC000_0000 || Usr in flag)
    && (forall x :: x != Pre && x != Usr ==> (x in flags <==> x in flag))
  }

  /** Virtual page v is mapped to frame f with those flags. */
  ghost predicate GivenPage(mem: Mem, dir: nat, va: nat, flag: set<Flag>, v: int, f: nat)
    requires Tables(mem, dir)
  {
    IsPage(v) && var t := Translate(mem, dir, v); t.Some? && t.value.frame == f && GivenFlags(va, flag, t.value.flags)
  }

  ghost predicate InRange(va: nat, size: nat, vp: int) {
    va / PAGE_SIZE <= vp < va / PAGE_SIZE + PageCount(va % PAGE_SIZE, size)
  }

  function PageFlags(va: nat, flag: set<Flag>): set<Flag> {
    flag + {Pre} + if va < PAGE_OFFSET then {Usr} else {}
  }

  /** The pages from first on are mapped to the frames got, and all other translations are as before. */
  ghost predicate Progress(was: Mem, mem: Mem, dir: nat, first: nat, got: seq<nat>, flags: set<Flag>)
    requires Tables(was, dir) && Tables(mem, dir)
  {
    && first + |got| <= ENTRIES * ENTRIES
    && (forall k :: 0 <= k < |got| ==> Translate(mem, dir, first + k) == Some(Entry(got[k], flags)))
    && (forall v :: IsPage(v) && !(first <= v < first + |got|) ==> Translate(mem, dir, v) == Translate(was, dir, v) && Taken(mem, dir, v) == Taken(was, dir, v))
    && (forall v :: IsPage(v) && Small(was, dir, v) ==> Small(mem, dir, v))
    && (forall i :: 0 <= i < ENTRIES && mem[dir][i] != was[dir][i] ==> Pre !in was[dir][i].flags && mem[dir][i].flags == flags + {Rw})
  }

  lemma Indices(va: nat)
    requires va < WORD
    ensures va / (PAGE_SIZE * ENTRIES) == va / PAGE_SIZE / ENTRIES && IsPage(va / PAGE_SIZE)
  {
    var vp := va / PAGE_SIZE;
    assert va == vp * PAGE_SIZE + va % PAGE_SIZE && vp == (vp / ENTRIES) * ENTRIES + vp % ENTRIES;
    DivModIs(va, PAGE_SIZE * ENTRIES, vp / ENTRIES, (vp % ENTRIES) * PAGE_SIZE + va % PAGE_SIZE);
  }
}
