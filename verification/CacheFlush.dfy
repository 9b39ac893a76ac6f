/** The HAL's cache maintenance calls, and what they promise to readers of memory. */
module CacheFlush {
  import opened Words
  import opened Cache

  // Addresses with this bit set bypass the data cache.
  const BYPASS := 0x8000_0000

  function MemByte(c: Dcache, a: nat): u8
    requires a / LINE < |c.mem|
  {
    c.mem[a / LINE][a % LINE]
  }

  function ViewByte(c: Dcache, a: nat): u8
    requires Valid(c) && a / LINE < |c.mem|
  {
    View(c, a / LINE)[a % LINE]
  }

  // Memory agrees with the program's view throughout the range, and the program's view is what it was.
  ghost predicate Flushed(c: Dcache, before: Dcache, start: nat, len: nat)
    requires Valid(before)
  {
    && Valid(c) && |c.mem| == |before.mem|
    && (forall a: nat :: a / LINE < |c.mem| ==> ViewByte(c, a) == ViewByte(before, a))
    && (forall a: nat :: start <= a < start + len && a / LINE < |c.mem| ==>
          MemByte(c, a) == ViewByte(c, a) && !Holds(c, a / LINE))
  }

  // Lines the range does not touch, but for one past its end, are left as they were.
  ghost predicate OthersLeft(c: Dcache, before: Dcache, start: nat, len: nat)
    requires Valid(before) && Valid(c) && |c.mem| == |before.mem|
  {
    forall l: nat :: l < |c.mem| && (l < start / LINE || l > (start + len) / LINE + 1) ==>
      (Holds(c, l) <==> Holds(before, l)) && c.mem[l] == before.mem[l]
  }

  lemma RunFlushes(c: Dcache, start: nat, len: nat)
    requires Valid(c)
    ensures var r := FlushRun(c, start / LINE, Flushes(start, len));
      Flushed(r, c, start, len) && OthersLeft(r, c, start, len)
  {
    hide FlushRun, View, Holds, Flushes, Valid;
    var from, n := start / LINE, Flushes(start, len);
    var r := FlushRun(c, from, n);
    forall a: nat | a / LINE < |r.mem|
      ensures ViewByte(r, a) == ViewByte(c, a)
      ensures start <= a < start + len ==> MemByte(r, a) == ViewByte(r, a) && !Holds(r, a / LINE)
    {
      FlushRunView(c, from, n, a / LINE);
      FlushesCover(start, len, a);
    }
    forall l: nat | l < |r.mem| && (l < start / LINE || l > (start + len) / LINE + 1)
      ensures (Holds(r, l) <==> Holds(c, l)) && r.mem[l] == c.mem[l]
    {
      FlushRunView(c, from, n, l);
      PastEnd(start, len);
    }
  }

  lemma PastEnd(start: nat, len: nat)
    ensures start / LINE + Flushes(start, len) <= (start + len) / LINE + 2
  {
  }

  lemma SetsFlush(c: Dcache, start: nat, len: nat)
    requires Valid(c)
    ensures Flushed(FlushSets(c, start / LINE, Flushes(start, Trim(len, DSETS * LINE))), c, start, len)
  {
    hide FlushSets, View, Holds, Flushes, Valid;
    var from, n := start / LINE, Flushes(start, Trim(len, DSETS * LINE));
    var r := FlushSets(c, from, n);
    forall a: nat | a / LINE < |r.mem|
      ensures ViewByte(r, a) == ViewByte(c, a)
      ensures start <= a < start + len ==> MemByte(r, a) == ViewByte(r, a) && !Holds(r, a / LINE)
    {
      if start <= a < start + len {
        var k := TrimCovers(start, len, DSETS, a);
        FlushSetsView(c, from, n, a / LINE, k);
      } else {
        FlushSetsView(c, from, n, a / LINE, n);
      }
    }
  }

  // No line of the range is held.
  ghost predicate Discarded(i: seq<Line>, start: nat, len: nat)
    requires ValidI(i)
  {
    forall a: nat :: start <= a < start + len ==> !HoldsI(i, a / LINE)
  }

  lemma RunDiscards(i: seq<Line>, start: nat, len: nat)
    requires ValidI(i)
    ensures Discarded(FlushiRun(i, start / LINE, Flushes(start, Trim(len, ISETS * LINE))), start, len)
  {
    hide FlushiRun, HoldsI, ValidI, Flushes, Trim;
    var from, n := start / LINE, Flushes(start, Trim(len, ISETS * LINE));
    forall a: nat | start <= a < start + len ensures !HoldsI(FlushiRun(i, from, n), a / LINE) {
      var k := TrimCovers(start, len, ISETS, a);
      FlushiRunEmpties(i, from, n, a / LINE, k);
    }
  }

  // One more flush.
  lemma NextLine(c: Dcache, start: nat, n: nat)
    requires Valid(c)
    ensures FlushRun(c, start / LINE, n + 1) == FlushAddress(FlushRun(c, start / LINE, n), (start + LINE * n) / LINE)
    ensures FlushSets(c, start / LINE, n + 1) == FlushIndex(FlushSets(c, start / LINE, n), (start + LINE * n) / LINE)
    ensures FlushRun(c, start / LINE, 0) == c == FlushSets(c, start / LINE, 0)
  {
    hide Valid, Evict;
    assert (start + LINE * n) / LINE == start / LINE + n;
  }

  lemma NextCopy(i: seq<Line>, start: nat, n: nat)
    requires ValidI(i)
    ensures FlushiRun(i, start / LINE, n + 1)
            == FlushiRun(i, start / LINE, n)[(start + LINE * n) / LINE % ISETS := Empty]
    ensures FlushiRun(i, start / LINE, 0) == i
  {
    hide ValidI;
    assert (start + LINE * n) / LINE == start / LINE + n;
  }

  // ---------- Whole runs ----------

  function FlatByte(mem: seq<Block>, a: nat): u8
    requires a / LINE < |mem|
  {
    mem[a / LINE][a % LINE]
  }

  // A store through the cache changes its byte of the program's view and no other; a load changes none.
  lemma StoredSeen(c: Dcache, x: Access, a: nat)
    requires Valid(c) && x.address / LINE < |c.mem| && a / LINE < |c.mem|
    ensures Valid(Perform(c, x)) && |Perform(c, x).mem| == |c.mem|
    ensures ViewByte(Perform(c, x), a) == if x.Store? && a == x.address then x.value else ViewByte(c, a)
  {
    hide Perform, View, Valid;
    PerformView(c, x, a / LINE);
    SameByte(a, x.address);
  }

  // The same of the memory without a cache.
  lemma FlatStored(mem: seq<Block>, x: Access, a: nat)
    requires x.address / LINE < |mem| && a / LINE < |mem|
    ensures FlatByte(Flat(mem, x), a) == if x.Store? && a == x.address then x.value else FlatByte(mem, a)
  {
    SameByte(a, x.address);
  }

  lemma SameByte(a: nat, b: nat)
    ensures a == b <==> a / LINE == b / LINE && a % LINE == b % LINE
  {
  }

  // After any run of loads and stores and a flush, uncached readers of the range see the last stores.
  lemma LatestSeen(c: Dcache, flat: seq<Block>, xs: seq<Access>, start: nat, len: nat, d: Dcache, a: nat)
    requires Sees(c, flat) && InMemory(xs, |flat|)
    requires Flushed(d, Run(c, xs), start, len)
    requires start <= a < start + len && a / LINE < |flat|
    ensures MemByte(d, a) == FlatByte(FlatRun(flat, xs), a)
  {
    RunSees(c, flat, xs);
  }

  // And with the instruction cache flushed too, so does the fetch of code just stored.
  lemma LatestFetched(c: Dcache, flat: seq<Block>, xs: seq<Access>, start: nat, len: nat, d: Dcache, i: seq<Line>, a: nat)
    requires Sees(c, flat) && InMemory(xs, |flat|)
    requires Flushed(d, Run(c, xs), start, len) && ValidI(i) && Discarded(i, start, len)
    requires start <= a < start + len && a / LINE < |flat|
    ensures Fetch(i, d.mem, a / LINE)[a % LINE] == FlatByte(FlatRun(flat, xs), a)
  {
    LatestSeen(c, flat, xs, start, len, d, a);
  }

  // ---------- The calls ----------

  class Caches {
    var d: Dcache
    var i: seq<Line>

    constructor (mem: seq<Block>)
      ensures Valid(d) && ValidI(i) && d.mem == mem
      ensures forall l: nat :: l < |mem| ==> View(d, l) == mem[l]
    {
      d := Dcache(seq(DSETS, s => Empty), mem);
      i := seq(ISETS, s => Empty);
    }

    // flushda.
    method Flushda(address: nat)
      requires Valid(d)
      modifies this`d
      ensures d == FlushAddress(old(d), address / LINE)
    {
      d := FlushAddress(d, address / LINE);
    }

    // flushd.
    method Flushd(address: nat)
      requires Valid(d)
      modifies this`d
      ensures d == FlushIndex(old(d), address / LINE)
    {
      d := FlushIndex(d, address / LINE);
    }

    // flushi.
    method Flushi(address: nat)
      requires ValidI(i)
      modifies this`i
      ensures i == old(i)[address / LINE % ISETS := Empty]
    {
      i := i[address / LINE % ISETS := Empty];
    }

    // alt_dcache_flush, with flush by address.  The pointers it steps through do not wrap around.
    method DcacheFlush(start: u32, len: u32)
      requires Valid(d) && start + len + LINE <= WRAP
      modifies this`d
      ensures Valid(d) && Flushed(d, old(d), start, len) && OthersLeft(d, old(d), start, len)
    {
      hide Flushed, FlushAddress, FlushRun, Valid, Holds;
      var end := start + len;
      var p: u32 := start;
      ghost var n := 0;
      NextLine(d, start, 0);
      while p < end
        invariant p == start + LINE * n && (n > 0 ==> p < end + LINE)
        invariant Valid(d) && d == FlushRun(old(d), start / LINE, n)
      {
        NextLine(old(d), start, n);
        Flushda(p);
        n := n + 1;
        p := p + LINE;
      }
      if start % LINE != 0 {
        NextLine(old(d), start, n);
        Flushda(p);
        n := n + 1;
      }
      RunFlushes(old(d), start, len);
      assert n == Flushes(start, len);
    }

    // alt_dcache_flush, on a core that can only flush by index.
    method DcacheFlushByIndex(start: u32, len: u32)
      requires Valid(d) && start + Trim(len, DSETS * LINE) + LINE <= WRAP
      modifies this`d
      ensures Valid(d) && Flushed(d, old(d), start, len)
    {
      hide Flushed, FlushIndex, FlushSets, Valid, Holds;
      var most: u32 := if len > DSETS * LINE then DSETS * LINE else len;
      var end := start + most;
      var p: u32 := start;
      ghost var n := 0;
      NextLine(d, start, 0);
      while p < end
        invariant p == start + LINE * n && (n > 0 ==> p < end + LINE)
        invariant Valid(d) && d == FlushSets(old(d), start / LINE, n)
      {
        NextLine(old(d), start, n);
        Flushd(p);
        n := n + 1;
        p := p + LINE;
      }
      if start % LINE != 0 {
        NextLine(old(d), start, n);
        Flushd(p);
        n := n + 1;
      }
      SetsFlush(old(d), start, len);
      assert n == Flushes(start, most);
    }

    // alt_icache_flush.
    method IcacheFlush(start: u32, len: u32)
      requires ValidI(i) && start + Trim(len, ISETS * LINE) + LINE <= WRAP
      modifies this`i
      ensures ValidI(i) && Discarded(i, start, len)
    {
      hide Discarded, FlushiRun, ValidI, HoldsI;
      var most: u32 := if len > ISETS * LINE then ISETS * LINE else len;
      var end := start + most;
      var p: u32 := start;
      ghost var n := 0;
      NextCopy(i, start, 0);
      while p < end
        invariant p == start + LINE * n && (n > 0 ==> p < end + LINE)
        invariant ValidI(i) && i == FlushiRun(old(i), start / LINE, n)
      {
        NextCopy(old(i), start, n);
        Flushi(p);
        n := n + 1;
        p := p + LINE;
      }
      if start % LINE != 0 {
        NextCopy(old(i), start, n);
        Flushi(p);
        n := n + 1;
      }
      RunDiscards(old(i), start, len);
      assert n == Flushes(start, most);
    }

    // alt_remap_uncached: the same bytes, at an address that bypasses the cache.
    method RemapUncached(p: u32, len: u32) returns (q: u32)
      requires Valid(d) && p < BYPASS && p + len + LINE <= WRAP
      modifies this`d
      ensures Valid(d) && Flushed(d, old(d), p, len)
      ensures q == p + 0x8000_0000
    {
      DcacheFlush(p, len);
      q := p + BYPASS;
    }

    // A load: straight from memory when the address bypasses the cache.
    method LoadByte(address: u32) returns (b: u8)
      requires Valid(d) && address % BYPASS / LINE < |d.mem|
      modifies this`d
      ensures Valid(d) && |d.mem| == |old(d.mem)|
      ensures address >= BYPASS ==> d == old(d) && b == MemByte(d, address - BYPASS)
      ensures address < BYPASS ==> b == ViewByte(old(d), address) && d == Perform(old(d), Load(address))
    {
      if address >= BYPASS {
        b := d.mem[(address - BYPASS) / LINE][(address - BYPASS) % LINE];
      } else {
        PerformView(d, Load(address), address / LINE);
        FillView(d, address / LINE, address / LINE);
        d := Perform(d, Load(address));
        b := d.sets[address / LINE % DSETS].data[address % LINE];
      }
    }
  }

  // Through the remapped pointer, the bytes are those the program saw when it was remapped.
  method ReadRemapped(c: Caches, p: u32, len: u32, k: u32) returns (b: u8)
    requires Valid(c.d) && p + len <= BYPASS && k < len && (p + k) / LINE < |c.d.mem|
    modifies c`d
    ensures b == ViewByte(old(c.d), p + k)
  {
    var q := c.RemapUncached(p, len);
    b := c.LoadByte(q + k);
  }
}
