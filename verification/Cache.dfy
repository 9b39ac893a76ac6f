/**
  The Nios II caches: a write-back, direct-mapped data cache over memory, and an instruction cache that
  holds copies.  Lines are 32 bytes; a line of memory can only be held in the set its number selects.
 */
module Cache {
  import opened Words

  const LINE := 32
  const DSETS := 64   // 2048 bytes
  const ISETS := 128  // 4096 bytes

  type Block = s: seq<u8> | |s| == 32 witness seq(32, i => 0)

  datatype Line = Empty | Held(line: nat, dirty: bool, data: Block)

  // Memory, by lines, and what the data cache holds of it.
  datatype Dcache = Dcache(sets: seq<Line>, mem: seq<Block>)

  predicate Valid(c: Dcache) {
    && |c.sets| == DSETS
    && forall s :: 0 <= s < DSETS && c.sets[s].Held? ==>
         && c.sets[s].line < |c.mem| && c.sets[s].line % DSETS == s
         && (!c.sets[s].dirty ==> c.sets[s].data == c.mem[c.sets[s].line])
  }

  predicate Holds(c: Dcache, l: nat)
    requires Valid(c)
  {
    c.sets[l % DSETS].Held? && c.sets[l % DSETS].line == l
  }

  // The program's view of a line: the cache over memory.
  function View(c: Dcache, l: nat): Block
    requires Valid(c) && l < |c.mem|
  {
    if Holds(c, l) then c.sets[l % DSETS].data else c.mem[l]
  }

  // Empty a set, writing a dirty line back.
  function Evict(c: Dcache, s: nat): Dcache
    requires Valid(c) && s < DSETS
  {
    var line := c.sets[s];
    Dcache(c.sets[s := Empty], if line.Held? && line.dirty then c.mem[line.line := line.data] else c.mem)
  }

  // flushda: flush line l if it is held.
  function FlushAddress(c: Dcache, l: nat): Dcache
    requires Valid(c)
  {
    if Holds(c, l) then Evict(c, l % DSETS) else c
  }

  // flushd: flush whatever is in l's set.
  function FlushIndex(c: Dcache, l: nat): Dcache
    requires Valid(c)
  {
    Evict(c, l % DSETS)
  }

  lemma EvictView(c: Dcache, s: nat, l: nat)
    requires Valid(c) && s < DSETS && l < |c.mem|
    ensures var e := Evict(c, s);
      && Valid(e) && |e.mem| == |c.mem|
      && View(e, l) == View(c, l)
      && (l % DSETS == s ==> !Holds(e, l) && e.mem[l] == View(c, l))
      && (l % DSETS != s ==> e.sets[l % DSETS] == c.sets[l % DSETS] && e.mem[l] == c.mem[l])
  {
  }

  lemma EvictValid(c: Dcache, s: nat)
    requires Valid(c) && s < DSETS
    ensures Valid(Evict(c, s)) && |Evict(c, s).mem| == |c.mem|
  {
  }

  // ---------- Runs of flushes ----------

  // n flushes by address, of consecutive lines.
  function FlushRun(c: Dcache, from: nat, n: nat): (r: Dcache)
    requires Valid(c)
    ensures Valid(r) && |r.mem| == |c.mem|
  {
    if n == 0 then c
    else
      var d := FlushRun(c, from, n - 1);
      EvictValid(d, (from + n - 1) % DSETS);
      FlushAddress(d, from + n - 1)
  }

  // n flushes by index.
  function FlushSets(c: Dcache, from: nat, n: nat): (r: Dcache)
    requires Valid(c)
    ensures Valid(r) && |r.mem| == |c.mem|
  {
    if n == 0 then c
    else
      var d := FlushSets(c, from, n - 1);
      EvictValid(d, (from + n - 1) % DSETS);
      FlushIndex(d, from + n - 1)
  }

  // A line the run flushes is in memory as the program sees it; any other line is left as it was.
  lemma {:induction false} FlushRunView(c: Dcache, from: nat, n: nat, l: nat)
    requires Valid(c) && l < |c.mem|
    ensures var r := FlushRun(c, from, n);
      && View(r, l) == View(c, l)
      && (from <= l < from + n ==> !Holds(r, l) && r.mem[l] == View(c, l))
      && (!(from <= l < from + n) ==> (Holds(r, l) <==> Holds(c, l)) && r.mem[l] == c.mem[l])
  {
    hide Valid, View, FlushAddress;
    if n > 0 {
      FlushRunView(c, from, n - 1, l);
      FlushOne(FlushRun(c, from, n - 1), from + n - 1, l);
    }
  }

  lemma FlushOne(c: Dcache, k: nat, l: nat)
    requires Valid(c) && l < |c.mem|
    ensures var d := FlushAddress(c, k);
      && Valid(d) && |d.mem| == |c.mem|
      && View(d, l) == View(c, l)
      && (l == k ==> !Holds(d, l) && d.mem[l] == View(c, l))
      && (l != k ==> (Holds(d, l) <==> Holds(c, l)) && d.mem[l] == c.mem[l])
  {
    EvictView(c, k % DSETS, l);
    EvictValid(c, k % DSETS);
  }

  // A flush by index reaches every line whose set is among those of the run.
  lemma {:induction false} FlushSetsView(c: Dcache, from: nat, n: nat, l: nat, k: nat)
    requires Valid(c) && l < |c.mem|
    requires k < n ==> (from + k) % DSETS == l % DSETS
    ensures var r := FlushSets(c, from, n);
      View(r, l) == View(c, l) && (k < n ==> !Holds(r, l) && r.mem[l] == View(c, l))
  {
    hide Valid, View, Evict;
    if n > 0 {
      FlushSetsView(c, from, n - 1, l, if k < n - 1 then k else n);
      EvictView(FlushSets(c, from, n - 1), (from + n - 1) % DSETS, l);
    }
  }

  // ---------- Which lines a call flushes ----------

  // The number of flush instructions for a range: one a line, and one more if it starts inside a line.
  function Flushes(start: nat, len: nat): nat {
    (len + LINE - 1) / LINE + if start % LINE != 0 then 1 else 0
  }

  // They reach every line the range touches, and at most one line past it.
  lemma FlushesCover(start: nat, len: nat, a: nat)
    ensures start <= a < start + len ==> start / LINE <= a / LINE < start / LINE + Flushes(start, len)
    ensures len > 0 ==> start / LINE + Flushes(start, len) <= (start + len - 1) / LINE + 2
  {
  }

  function Trim(len: nat, size: nat): nat {
    if len > size then size else len
  }

  // Trimmed to the cache's size, they still reach the set of every line the untrimmed range touches.
  lemma TrimCovers(start: nat, len: nat, sets: nat, a: nat) returns (k: nat)
    requires sets == DSETS || sets == ISETS
    requires start <= a < start + len
    ensures k < Flushes(start, Trim(len, sets * LINE))
    ensures (start / LINE + k) % sets == a / LINE % sets
  {
    var d := a / LINE - start / LINE;
    k := d % sets;
    if sets == DSETS {
      Around(start / LINE, d, DSETS);
    } else {
      Around(start / LINE, d, ISETS);
    }
    if len <= sets * LINE {
      FlushesCover(start, len, a);
    } else {
      FlushesCover(start, sets * LINE, start);
    }
  }

  lemma Around(first: nat, d: nat, sets: nat)
    requires sets == DSETS || sets == ISETS
    ensures (first + d % sets) % sets == (first + d) % sets && d % sets <= d && d % sets < sets
  {
    if sets == DSETS {
      DTurns(d / DSETS, first + d % DSETS);
    } else {
      ITurns(d / ISETS, first + d % ISETS);
    }
  }

  lemma DTurns(q: nat, x: nat)
    ensures (DSETS * q + x) % DSETS == x % DSETS
  {
  }

  lemma ITurns(q: nat, x: nat)
    ensures (ISETS * q + x) % ISETS == x % ISETS
  {
  }

  // ---------- The instruction cache ----------

  // An instruction cache over the same memory; its copies can be stale.
  predicate ValidI(i: seq<Line>) {
    && |i| == ISETS
    && forall s :: 0 <= s < ISETS && i[s].Held? ==> i[s].line % ISETS == s
  }

  predicate HoldsI(i: seq<Line>, l: nat)
    requires ValidI(i)
  {
    i[l % ISETS].Held? && i[l % ISETS].line == l
  }

  // What is fetched from line l.
  function Fetch(i: seq<Line>, mem: seq<Block>, l: nat): Block
    requires ValidI(i) && l < |mem|
  {
    if HoldsI(i, l) then i[l % ISETS].data else mem[l]
  }

  // n flushi instructions.
  function FlushiRun(i: seq<Line>, from: nat, n: nat): (r: seq<Line>)
    requires ValidI(i)
    ensures ValidI(r)
  {
    if n == 0 then i else FlushiRun(i, from, n - 1)[(from + n - 1) % ISETS := Empty]
  }

  lemma {:induction false} FlushiRunEmpties(i: seq<Line>, from: nat, n: nat, l: nat, k: nat)
    requires ValidI(i) && k < n && (from + k) % ISETS == l % ISETS
    ensures !HoldsI(FlushiRun(i, from, n), l)
  {
    if k < n - 1 {
      FlushiRunEmpties(i, from, n - 1, l, k);
    }
  }

  // ---------- The program ----------

  // Loads and stores through the data cache.
  datatype Access = Load(address: nat) | Store(address: nat, value: u8)

  // The set of the address is filled with its line, whatever it held before.
  function Fill(c: Dcache, l: nat): Dcache
    requires Valid(c) && l < |c.mem|
  {
    if Holds(c, l) then c
    else
      EvictValid(c, l % DSETS);
      var e := Evict(c, l % DSETS);
      e.(sets := e.sets[l % DSETS := Held(l, false, e.mem[l])])
  }

  function Perform(c: Dcache, x: Access): Dcache
    requires Valid(c) && x.address / LINE < |c.mem|
  {
    var l := x.address / LINE;
    FillView(c, l, l);
    var f := Fill(c, l);
    if x.Load? then f
    else f.(sets := f.sets[l % DSETS := Held(l, true, f.sets[l % DSETS].data[x.address % LINE := x.value])])
  }

  lemma FillView(c: Dcache, l: nat, m: nat)
    requires Valid(c) && l < |c.mem| && m < |c.mem|
    ensures var f := Fill(c, l);
      Valid(f) && |f.mem| == |c.mem| && Holds(f, l) && View(f, m) == View(c, m)
  {
    EvictView(c, l % DSETS, m);
    EvictView(c, l % DSETS, l);
    EvictValid(c, l % DSETS);
  }

  // A memory without a cache.
  function Flat(mem: seq<Block>, x: Access): seq<Block>
    requires x.address / LINE < |mem|
  {
    var l := x.address / LINE;
    if x.Load? then mem else mem[l := mem[l][x.address % LINE := x.value]]
  }

  predicate InMemory(xs: seq<Access>, lines: nat) {
    forall k :: 0 <= k < |xs| ==> xs[k].address / LINE < lines
  }

  // The program sees a flat memory.
  ghost predicate Sees(c: Dcache, flat: seq<Block>) {
    && Valid(c) && |c.mem| == |flat|
    && forall l :: 0 <= l < |flat| ==> View(c, l) == flat[l]
  }

  function FlatRun(mem: seq<Block>, xs: seq<Access>): (r: seq<Block>)
    requires InMemory(xs, |mem|)
    ensures |r| == |mem|
  {
    if xs == [] then mem else Flat(FlatRun(mem, xs[..|xs| - 1]), xs[|xs| - 1])
  }

  function Run(c: Dcache, xs: seq<Access>): (r: Dcache)
    requires Valid(c) && InMemory(xs, |c.mem|)
    ensures Valid(r) && |r.mem| == |c.mem|
  {
    if xs == [] then c
    else
      var d, x := Run(c, xs[..|xs| - 1]), xs[|xs| - 1];
      PerformValid(d, x);
      Perform(d, x)
  }

  lemma PerformValid(c: Dcache, x: Access)
    requires Valid(c) && x.address / LINE < |c.mem|
    ensures Valid(Perform(c, x)) && |Perform(c, x).mem| == |c.mem|
  {
    FillView(c, x.address / LINE, x.address / LINE);
  }

  lemma PerformView(c: Dcache, x: Access, m: nat)
    requires Valid(c) && x.address / LINE < |c.mem| && m < |c.mem|
    ensures Valid(Perform(c, x)) && |Perform(c, x).mem| == |c.mem|
    ensures View(Perform(c, x), m) ==
            if x.Store? && m == x.address / LINE then View(c, m)[x.address % LINE := x.value] else View(c, m)
  {
    PerformValid(c, x);
    FillView(c, x.address / LINE, m);
  }

  // Every run of loads and stores through the cache is one on a flat memory.
  lemma {:induction false} RunSees(c: Dcache, flat: seq<Block>, xs: seq<Access>)
    requires Sees(c, flat) && InMemory(xs, |flat|)
    ensures Sees(Run(c, xs), FlatRun(flat, xs))
  {
    if xs != [] {
      var front, x := xs[..|xs| - 1], xs[|xs| - 1];
      RunSees(c, flat, front);
      var d, f := Run(c, front), FlatRun(flat, front);
      forall l | 0 <= l < |f| ensures View(Perform(d, x), l) == Flat(f, x)[l] {
        PerformView(d, x, l);
      }
    }
  }
}
