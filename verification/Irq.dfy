/** alt_irq_handler: dispatch of the lowest-numbered pending interrupt, until none is pending. */
module Irq {
  import opened Bits

  // ---------- Pending words ----------

  // 1 << i.
  function OneBit(i: nat): bv32 {
    if i == 0 then 1 else OneBit(i - 1) << 1
  }

  // Interrupt i is pending.
  predicate Bit(w: bv32, i: nat) {
    Both(w, OneBit(i)) != 0
  }

  function Without(w: bv32, m: bv32): bv32 {
    w & !m
  }

  // The word without interrupt i.
  function Clear(w: bv32, i: nat): bv32 {
    Without(w, OneBit(i))
  }

  function With(w: bv32, m: bv32): bv32 {
    w | m
  }

  ghost predicate IsLowest(w: bv32, i: nat) {
    i < 32 && Bit(w, i) && forall j: nat :: j < i ==> !Bit(w, j)
  }

  // The interrupts below n that are pending, in increasing order.
  function PendingBelow(w: bv32, n: nat): seq<nat> {
    if n == 0 then [] else if Bit(w, n - 1) then PendingBelow(w, n - 1) + [n - 1] else PendingBelow(w, n - 1)
  }

  function Pending(w: bv32): seq<nat> {
    PendingBelow(w, 32)
  }

  // The word without its lowest bit, and that bit.
  function Half(w: bv32): bv32 {
    w >> 1
  }

  predicate Odd(w: bv32) {
    w & 1 == 1
  }

  // Interrupt i is bit i of the word, counted from the lowest.
  lemma BitNumber(w: bv32, i: nat)
    ensures Bit(w, 0) <==> Odd(w)
    ensures Bit(w, i + 1) <==> Bit(Half(w), i)
  {
    hide Both, Half, Odd, OneBit, Left;
    OneBitNext(i);
    LowBit(w);
    BothShift(w, OneBit(i));
  }

  function Left(m: bv32): bv32 {
    m << 1
  }

  lemma OneBitNext(i: nat)
    ensures OneBit(0) == 1 && OneBit(i + 1) == Left(OneBit(i))
  {
  }

  lemma LowBit(w: bv32)
    ensures Both(w, 1) != 0 <==> Odd(w)
  {
  }

  lemma BothShift(w: bv32, m: bv32)
    ensures Both(w, Left(m)) != 0 <==> Both(Half(w), m) != 0
  {
  }

  // ---------- Masks ----------

  // m is one bit, or none, and w has no bit below it.
  predicate Covered(w: bv32, m: bv32) {
    w & (m - 1) == 0 && m & (m - 1) == 0
  }

  lemma CoveredFirst(w: bv32)
    ensures Covered(w, 1)
  {
  }

  lemma Below(w: bv32, m: bv32)
    requires Covered(w, m) && Both(w, m) == 0
    ensures Covered(w, m << 1)
  {
  }

  lemma SomeMask(w: bv32, m: bv32)
    requires Covered(w, m) && w != 0
    ensures m != 0
  {
  }

  lemma {:induction false} MaskMore(i: nat, k: nat)
    ensures OneBit(i + k) == if k == 0 then OneBit(i) else OneBit(i + k - 1) << 1
  {
  }

  lemma MaskFour(i: nat)
    ensures OneBit(i + 4) == OneBit(i) << 4
  {
    MaskMore(i, 1);
    MaskMore(i, 2);
    MaskMore(i, 3);
    MaskMore(i, 4);
    ShiftFour(OneBit(i));
  }

  lemma ShiftFour(m: bv32)
    ensures (((m << 1) << 1) << 1) << 1 == m << 4
  {
  }

  // A mask shifted 32 times is gone.
  lemma MaskGone()
    ensures OneBit(32) == 0
  {
    hide OneBit;
    MaskFour(0);
    MaskFour(4);
    MaskFour(8);
    MaskFour(12);
    MaskFour(16);
    MaskFour(20);
    MaskFour(24);
    MaskFour(28);
    EightShifts(OneBit(0));
  }

  lemma EightShifts(m: bv32)
    ensures (((((((m << 4) << 4) << 4) << 4) << 4) << 4) << 4) << 4 == 0
  {
  }

  lemma {:induction false} MasksApart(i: nat, j: nat)
    requires i < j
    ensures Both(OneBit(i), OneBit(j)) == 0
  {
    if i == 0 {
      EvenMask(OneBit(j - 1));
    } else {
      MasksApart(i - 1, j - 1);
      ShiftApart(OneBit(i - 1), OneBit(j - 1));
    }
  }

  lemma EvenMask(m: bv32)
    ensures Both(1, m << 1) == 0
  {
  }

  lemma ShiftApart(a: bv32, b: bv32)
    requires Both(a, b) == 0
    ensures Both(a << 1, b << 1) == 0
  {
  }

  lemma ClearSame(w: bv32, m: bv32)
    ensures Both(Without(w, m), m) == 0
  {
  }

  lemma ClearOther(w: bv32, m: bv32, k: bv32)
    requires Both(m, k) == 0
    ensures Both(Without(w, m), k) == Both(w, k)
  {
    hide Both, Without;
    WithoutIs(w, m);
    Assoc(w, !m, k);
    Disjoint(m, k);
  }

  lemma WithoutIs(w: bv32, m: bv32)
    ensures Without(w, m) == Both(w, !m)
  {
  }

  lemma Assoc(w: bv32, a: bv32, k: bv32)
    ensures Both(Both(w, a), k) == Both(w, Both(a, k))
  {
  }

  lemma Disjoint(m: bv32, k: bv32)
    requires Both(m, k) == 0
    ensures Both(!m, k) == k
  {
  }

  lemma BothSwap(m: bv32, k: bv32)
    ensures Both(m, k) == Both(k, m)
  {
  }

  lemma ClearBit(w: bv32, i: nat, j: nat)
    ensures Bit(Clear(w, i), j) <==> Bit(w, j) && j != i
  {
    hide OneBit, Both, Without;
    ClearSame(w, OneBit(i));
    if i < j {
      MasksApart(i, j);
      ClearOther(w, OneBit(i), OneBit(j));
    } else if j < i {
      MasksApart(j, i);
      BothSwap(OneBit(j), OneBit(i));
      ClearOther(w, OneBit(i), OneBit(j));
    }
  }

  // ---------- Running in order ----------

  // The lowest runs first; what it leaves is the rest, in order.
  lemma {:induction false} ClearLowest(w: bv32, i: nat, n: nat)
    requires IsLowest(w, i)
    ensures PendingBelow(w, n) == (if i < n then [i] else []) + PendingBelow(Clear(w, i), n)
    ensures n <= i ==> PendingBelow(w, n) == []
  {
    hide Bit, Clear;
    if n > 0 {
      ClearLowest(w, i, n - 1);
      ClearBit(w, i, n - 1);
    }
  }

  // A run: the words read from the controller, and the interrupts run after all but the last of them.
  ghost predicate Dispatched(words: seq<bv32>, ran: seq<nat>) {
    && |words| == |ran| + 1
    && forall k :: 0 <= k < |ran| ==> words[k] != 0 && IsLowest(words[k], ran[k])
  }

  lemma MoreDispatched(words: seq<bv32>, ran: seq<nat>, i: nat)
    requires Dispatched(words, ran) && words[|ran|] != 0 && IsLowest(words[|ran|], i)
    ensures forall next: bv32 :: Dispatched(words + [next], ran + [i])
  {
    hide IsLowest;
    forall next: bv32 ensures Dispatched(words + [next], ran + [i]) {
      forall k | 0 <= k < |ran| + 1
        ensures (words + [next])[k] != 0 && IsLowest((words + [next])[k], (ran + [i])[k])
      {
      }
    }
  }

  // Each handler clears its own interrupt, and nothing raises another.
  ghost predicate Clearing(words: seq<bv32>, ran: seq<nat>)
    requires |words| == |ran| + 1
  {
    forall k :: 0 <= k < |ran| ==> words[k + 1] == Clear(words[k], ran[k])
  }

  lemma {:induction false} NonePending(w: bv32, n: nat)
    requires w == 0
    ensures PendingBelow(w, n) == []
  {
    if n > 0 {
      NonePending(w, n - 1);
    }
  }

  lemma WordStep(w: bv32, i: nat)
    requires IsLowest(w, i)
    ensures Pending(w) == [i] + Pending(Clear(w, i))
  {
    ClearLowest(w, i, 32);
  }

  // At any point of such a run, what was pending is what has run and then what still is pending.
  lemma {:induction false} RunsInOrder(words: seq<bv32>, ran: seq<nat>)
    requires Dispatched(words, ran) && Clearing(words, ran)
    ensures Pending(words[0]) == ran + Pending(words[|ran|])
  {
    hide Pending, IsLowest, Clear;
    if ran != [] {
      WordStep(words[0], ran[0]);
      RunsInOrder(words[1..], ran[1..]);
      assert ran == [ran[0]] + ran[1..];
      Regroup([ran[0]], ran[1..], Pending(words[|ran|]));
    }
  }

  lemma Regroup(a: seq<nat>, b: seq<nat>, c: seq<nat>)
    ensures a + b + c == a + (b + c)
  {
  }

  // So such a run has at most one step for each interrupt pending at entry, and when it ends it has run
  // each of them once, lowest first.
  lemma EachOnce(words: seq<bv32>, ran: seq<nat>)
    requires Dispatched(words, ran) && Clearing(words, ran)
    ensures |ran| <= |Pending(words[0])|
    ensures words[|ran|] == 0 ==> ran == Pending(words[0])
    ensures |ran| == |Pending(words[0])| ==> words[|ran|] == 0
  {
    hide Pending;
    RunsInOrder(words, ran);
    if words[|ran|] == 0 {
      PendingNone(words[|ran|]);
    } else {
      PendingSome(words[|ran|]);
    }
  }

  lemma PendingNone(w: bv32)
    requires w == 0
    ensures Pending(w) == []
  {
    NonePending(w, 32);
  }

  lemma PendingSome(w: bv32)
    requires w != 0
    ensures Pending(w) != []
  {
    if Pending(w) == [] {
      NoBits(w, 32);
      MaskGone();
      SomeMask(w, OneBit(32));
    }
  }

  lemma {:induction false} NoBits(w: bv32, n: nat)
    requires PendingBelow(w, n) == []
    ensures Covered(w, OneBit(n))
  {
    if n > 0 {
      NoBits(w, n - 1);
      Below(w, OneBit(n - 1));
    }
  }

  // Pending(w) lists exactly the pending interrupts, in strictly increasing order.
  lemma {:induction false} PendingExact(w: bv32, n: nat, i: nat)
    ensures i in PendingBelow(w, n) <==> i < n && Bit(w, i)
    ensures forall j, k :: 0 <= j < k < |PendingBelow(w, n)| ==> PendingBelow(w, n)[j] < PendingBelow(w, n)[k] < n
    ensures forall j :: 0 <= j < |PendingBelow(w, n)| ==> PendingBelow(w, n)[j] < n
  {
    hide Bit;
    if n > 0 {
      PendingExact(w, n - 1, i);
    }
  }

  // ---------- The dispatcher ----------

  // The scan for the lowest bit of a word that has one.
  method FirstPending(w: bv32) returns (i: nat, mask: bv32)
    requires w != 0
    ensures IsLowest(w, i) && mask == OneBit(i)
  {
    hide Covered, Both;
    i, mask := 0, 1;
    MaskGone();
    CoveredFirst(w);
    SomeMask(w, mask);
    while Both(w, mask) == 0
      invariant i < 32 && mask == OneBit(i) && mask != 0
      invariant Covered(w, mask)
      invariant forall j: nat :: j < i ==> !Bit(w, j)
      decreases 32 - i
    {
      Below(w, mask);
      mask := mask << 1;
      i := i + 1;
      SomeMask(w, mask);
    }
  }

  // The interrupt controller: the words its register will read next, whatever handlers and devices do.
  class Controller {
    var words: seq<bv32>
    var ran: seq<nat>

    constructor (words: seq<bv32>)
      ensures this.words == words && ran == []
    {
      this.words, ran := words, [];
    }

    // alt_irq_pending.
    method ReadPending() returns (w: bv32)
      requires words != []
      modifies this`words
      ensures w == old(words)[0] && words == old(words)[1..]
    {
      w := words[0];
      words := words[1..];
    }

    // alt_irq[i].handler.
    method Handle(i: nat)
      modifies this`ran
      ensures ran == old(ran) + [i]
    {
      ran := ran + [i];
    }

    // alt_irq_handler, entered because an interrupt is pending, as far as the words given tell: it ends on
    // the first that is zero, or is still running when they are used up.
    method Dispatch() returns (ended: bool, ghost got: seq<nat>)
      requires words != [] && words[0] != 0
      modifies this
      ensures ran == old(ran) + got && |got| <= |old(words)|
      ensures forall k :: 0 <= k < |got| ==> old(words)[k] != 0 && IsLowest(old(words)[k], got[k])
      ensures if ended then |got| < |old(words)| && old(words)[|got|] == 0 && words == old(words)[|got| + 1..]
              else |got| == |old(words)| && words == []
    {
      hide IsLowest;
      ghost var all, before := words, ran;
      var active := ReadPending();
      got := [];
      while true
        invariant |got| < |all| && active == all[|got|] && active != 0 && words == all[|got| + 1..]
        invariant ran == before + got
        invariant forall k :: 0 <= k < |got| ==> all[k] != 0 && IsLowest(all[k], got[k])
        decreases |all| - |got|
      {
        var i, bit := FirstPending(active);
        Handle(i);
        got := got + [i];
        if words == [] {
          return false, got;
        }
        active := ReadPending();
        if active == 0 {
          return true, got;
        }
      }
    }
  }

  // A controller whose handlers each clear their own interrupt.  While one runs, others may be raised: the
  // k-th run raises the k-th word of `raising`, and later ones raise nothing.
  class Lines {
    var pending: bv32
    var raising: seq<bv32>
    var ran: seq<nat>

    constructor (pending: bv32, raising: seq<bv32>)
      ensures this.pending == pending && this.raising == raising && ran == []
    {
      this.pending, this.raising, ran := pending, raising, [];
    }

    // The handler of interrupt i.
    method Handle(i: nat)
      modifies this
      ensures ran == old(ran) + [i]
      ensures old(raising) == [] ==> raising == [] && pending == Clear(old(pending), i)
      ensures old(raising) != [] ==> raising == old(raising)[1..]
                                     && pending == With(Clear(old(pending), i), old(raising)[0])
    {
      hide Clear, With;
      pending := Clear(pending, i);
      if raising != [] {
        pending := With(pending, raising[0]);
        raising := raising[1..];
      }
      ran := ran + [i];
    }

    // alt_irq_handler, entered because an interrupt is pending.  The call ends; if nothing is raised, it
    // has run each interrupt pending at entry once, lowest first.
    method Dispatch() returns (ghost words: seq<bv32>, ghost got: seq<nat>)
      requires pending != 0
      modifies this
      ensures pending == 0 && ran == old(ran) + got
      ensures Dispatched(words, got) && words[0] == old(pending) && words[|got|] == 0
      ensures old(raising) == [] ==> got == Pending(old(pending))
    {
      hide IsLowest, Pending, Clear;
      ghost var before, first, none := ran, pending, raising == [];
      words, got := [pending], [];
      var active := pending;
      while true
        invariant active == pending != 0 && ran == before + got
        invariant Dispatched(words, got) && words[0] == first && words[|got|] == pending
        invariant none ==> raising == [] && Pending(first) == got + Pending(pending)
        decreases |raising|, |Pending(pending)|
      {
        var i, mask := FirstPending(active);
        WordStep(pending, i);
        Regroup(got, [i], Pending(Clear(pending, i)));
        MoreDispatched(words, got, i);
        Handle(i);
        words, got := words + [pending], got + [i];
        active := pending;
        if active == 0 {
          break;
        }
      }
      PendingNone(pending);
    }
  }
}
