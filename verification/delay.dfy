/**
 src/DelayBucket.cc and src/DelayVector.cc: token buckets, and a vector of them that admits what its
 emptiest member allows.
 */
module DelayPools {
  import opened Basics

  /** A restore rate of -1 means that the bucket is not refilled. */
  datatype Spec = Spec(restoreBps: int, maxBytes: int) {
    predicate Valid() {
      restoreBps >= -1 && maxBytes >= 0
    }

    /** Bytes restored in `incr` seconds. */
    function Restored(incr: nat): nat
      requires Valid()
    {
      if restoreBps == -1 then 0 else restoreBps * incr
    }
  }

  function Max(a: int, b: int): int {
    if a >= b then a else b
  }

  // ---------- the buckets ----------

  class Bucket {
    var level: int

    constructor ()
      ensures level == 0
    {
      level := 0;
    }

    /** DelayBucket::init: the configured percentage of the capacity. */
    method Init(rate: Spec, initial: nat)
      requires rate.Valid()
      modifies this
      ensures 100 * level <= rate.maxBytes * initial < 100 * (level + 1)
    {
      level := rate.maxBytes * initial / 100;
    }

    /** DelayBucket::update: the whole restored amount is added, except for what does not fit the capacity. */
    method Update(rate: Spec, incr: nat)
      modifies this
      ensures level == Refilled(rate, old(level), incr)
      ensures rate.restoreBps == -1 ==> level == old(level)
      ensures rate.restoreBps != -1 ==> level <= rate.maxBytes && level <= old(level) + rate.restoreBps * incr
      ensures rate.restoreBps != -1 && level < old(level) + rate.restoreBps * incr ==> level == rate.maxBytes
    {
      if rate.restoreBps != -1 {
        level := level + rate.restoreBps * incr;
        if level > rate.maxBytes { level := rate.maxBytes; }
      }
    }

    /** DelayBucket::bytesWanted: as much as maximum and level allow, but the minimum in any case. */
    function BytesWanted(minimum: int, maximum: int): (r: int)
      reads this
      ensures minimum <= r && (minimum < r ==> r <= maximum && r <= level)
      ensures maximum <= r || level <= r
    {
      Max(minimum, Min(maximum, level))
    }

    /** DelayBucket::bytesIn: a read of no more than was granted does not overdraw the bucket. */
    method BytesIn(qty: int, ghost maximum: int)
      modifies this
      ensures level + qty == old(level)
      ensures old(level) >= 0 && qty <= old(BytesWanted(0, maximum)) ==> level >= 0
    {
      level := level - qty;
    }
  }

  /** The level after a refill. */
  function Refilled(rate: Spec, level: int, incr: nat): int {
    if rate.restoreBps == -1 then level else Min(level + rate.restoreBps * incr, rate.maxBytes)
  }

  // ---------- the vector ----------

  /** The smallest of `maximum` and the levels. */
  function Least(levels: seq<int>, maximum: int): int {
    if levels == [] then maximum else Min(Least(levels[..|levels| - 1], maximum), levels[|levels| - 1])
  }

  /** What a vector grants. */
  function Granted(levels: seq<int>, minimum: int, maximum: int): int {
    Max(minimum, Least(levels, maximum))
  }

  ghost function Levels(ids: seq<Bucket>): (r: seq<int>)
    reads ids
    ensures |r| == |ids| && forall i :: 0 <= i < |ids| ==> r[i] == ids[i].level
  {
    seq(|ids|, i requires 0 <= i < |ids| reads ids => ids[i].level)
  }

  /** DelayVector::Id::bytesWanted: each member narrows the request; the minimum is granted in any case. */
  method BytesWanted(ids: seq<Bucket>, minimum: int, maximum: int) returns (nbytes: int)
    ensures nbytes == Granted(Levels(ids), minimum, maximum)
    ensures minimum <= nbytes && (minimum < nbytes ==> Affordable(ids, nbytes, maximum))
    ensures forall x :: Affordable(ids, x, maximum) ==> x <= nbytes
  {
    nbytes := maximum;
    var pos := 0;
    ghost var ls := Levels(ids);
    assert ls[..0] == [];
    while pos < |ids|
      invariant 0 <= pos <= |ids|
      invariant Max(minimum, nbytes) == Granted(ls[..pos], minimum, maximum)
      invariant nbytes >= minimum || nbytes == maximum
    {
      assert ls[..pos + 1][..pos] == ls[..pos];
      nbytes := Min(nbytes, ids[pos].BytesWanted(minimum, nbytes));
      pos := pos + 1;
    }
    assert ls[..|ids|] == ls;
    nbytes := Max(minimum, nbytes);
    GrantIs(ids, minimum, maximum);
  }

  /** Within the request, and every member can pay for it. */
  ghost predicate Affordable(ids: seq<Bucket>, x: int, maximum: int)
    reads ids
  {
    x <= maximum && forall i :: 0 <= i < |ids| ==> x <= ids[i].level
  }

  /** The grant is the minimum, or the most that is affordable, whichever is more. */
  lemma {:induction false} GrantIs(ids: seq<Bucket>, minimum: int, maximum: int)
    ensures var g := Granted(Levels(ids), minimum, maximum);
            minimum <= g && (minimum < g ==> Affordable(ids, g, maximum)) && forall x :: Affordable(ids, x, maximum) ==> x <= g
  {
    var ls := Levels(ids);
    LeastIs(ls, maximum);
    forall i | 0 <= i < |ids| ensures Least(ls, maximum) <= ids[i].level { assert ls[i] in ls; }
  }

  /** How often a bucket is among the members. */
  ghost function Times(ids: seq<Bucket>, b: Bucket): nat {
    if ids == [] then 0 else Times(ids[..|ids| - 1], b) + (if ids[|ids| - 1] == b then 1 else 0)
  }

  /** What it owes for `qty` bytes. */
  ghost function Owed(ids: seq<Bucket>, b: Bucket, qty: int): int {
    qty * Times(ids, b)
  }

  lemma OwedMore(ids: seq<Bucket>, pos: nat, b: Bucket, qty: int)
    requires pos < |ids|
    ensures Owed(ids[..pos + 1], b, qty) == Owed(ids[..pos], b, qty) + (if ids[pos] == b then qty else 0)
  {
    assert ids[..pos + 1][..pos] == ids[..pos];
    var n := Times(ids[..pos], b);
    assert qty * (n + 1) == qty * n + qty;
  }

  lemma OwedNone(b: Bucket, qty: int)
    ensures Owed([], b, qty) == 0
  {
  }

  /** DelayVector::Id::bytesIn: every member pays, once for each time it is among the members. */
  method BytesIn(ids: seq<Bucket>, qty: int)
    modifies ids
    ensures forall b :: b in ids ==> b.level == old(b.level) - qty * Times(ids, b)
  {
    hide Owed, Times;
    var pos := 0;
    assert ids[..0] == [];
    forall b | b in ids ensures Owed(ids[..0], b, qty) == 0 { OwedNone(b, qty); }
    while pos < |ids|
      invariant 0 <= pos <= |ids|
      invariant forall b :: b in ids ==> b.level == old(b.level) - Owed(ids[..pos], b, qty)
    {
      forall b | b in ids
        ensures Owed(ids[..pos + 1], b, qty) == Owed(ids[..pos], b, qty) + (if ids[pos] == b then qty else 0)
      {
        OwedMore(ids, pos, b, qty);
      }
      ids[pos].BytesIn(qty, 0);
      pos := pos + 1;
    }
    assert ids[..pos] == ids;
    forall b | b in ids ensures Owed(ids, b, qty) == qty * Times(ids, b) { OwedIs(ids, b, qty); }
  }

  lemma OwedIs(ids: seq<Bucket>, b: Bucket, qty: int)
    ensures Owed(ids, b, qty) == qty * Times(ids, b)
  {
  }

  /** The least level bounds every level, and is one of them or the maximum. */
  lemma {:induction false} LeastIs(levels: seq<int>, maximum: int)
    ensures Least(levels, maximum) <= maximum
    ensures forall x :: x in levels ==> Least(levels, maximum) <= x
    ensures Least(levels, maximum) == maximum || Least(levels, maximum) in levels
  {
    if levels != [] {
      var front := levels[..|levels| - 1];
      LeastIs(front, maximum);
      assert levels == front + [levels[|levels| - 1]];
    }
  }

  /** The grant does not depend on the order of the members, nor on repetitions. */
  lemma {:induction false} AnyOrder(a: seq<int>, b: seq<int>, minimum: int, maximum: int)
    requires forall x :: x in a <==> x in b
    ensures Granted(a, minimum, maximum) == Granted(b, minimum, maximum)
  {
    LeastIs(a, maximum);
    LeastIs(b, maximum);
  }

  // ---------- whole runs ----------

  /** The members with their levels, what each was refilled so far, and all bytes admitted. */
  datatype State = State(specs: seq<Spec>, levels: seq<int>, restored: seq<nat>, admitted: nat)

  datatype Action = Update(i: nat, incr: nat) | Read(maximum: int, taken: nat)

  /** A read takes no more than was granted with minimum 0. */
  predicate Allowed(s: State, a: Action) {
    match a
    case Update(i, _) => i < |s.specs|
    case Read(maximum, taken) => taken <= Granted(s.levels, 0, maximum)
  }

  predicate WellFormed(s: State) {
    |s.levels| == |s.specs| == |s.restored| && forall i :: 0 <= i < |s.specs| ==> s.specs[i].Valid()
  }

  function Step(s: State, a: Action): (s': State)
    requires WellFormed(s) && Allowed(s, a)
    ensures WellFormed(s') && s'.specs == s.specs
  {
    match a
    case Update(i, incr) =>
      s.(levels := s.levels[i := Refilled(s.specs[i], s.levels[i], incr)],
         restored := s.restored[i := s.restored[i] + s.specs[i].Restored(incr)])
    case Read(_, taken) =>
      s.(levels := seq(|s.levels|, i requires 0 <= i < |s.levels| => s.levels[i] - taken), admitted := s.admitted + taken)
  }

  predicate RunOK(s: State, run: seq<Action>)
    requires WellFormed(s)
    decreases |run|
  {
    run == [] || (Allowed(s, run[0]) && RunOK(Step(s, run[0]), run[1..]))
  }

  function Run(s: State, run: seq<Action>): (s': State)
    requires WellFormed(s) && RunOK(s, run)
    ensures WellFormed(s') && s'.specs == s.specs
    decreases |run|
  {
    if run == [] then s else Run(Step(s, run[0]), run[1..])
  }

  /** No level is negative or above capacity, and what was admitted and is left came from the start or from refills. */
  ghost predicate Inv(s: State, initial: seq<int>) {
    && WellFormed(s) && |initial| == |s.levels|
    && (forall i :: 0 <= i < |s.levels| ==> 0 <= s.levels[i] && s.admitted + s.levels[i] <= initial[i] + s.restored[i])
  }

  lemma {:induction false} StepKeeps(s: State, a: Action, initial: seq<int>)
    requires Inv(s, initial) && Allowed(s, a)
    ensures Inv(Step(s, a), initial)
  {
    match a
    case Update(i, incr) => RefillBound(s.specs[i], s.levels[i], incr);
    case Read(maximum, taken) =>
      LeastIs(s.levels, maximum);
      forall i | 0 <= i < |s.levels| ensures taken <= s.levels[i] { assert s.levels[i] in s.levels; }
  }

  lemma RefillBound(rate: Spec, level: int, incr: nat)
    requires rate.Valid() && 0 <= level
    ensures 0 <= Refilled(rate, level, incr) <= level + rate.Restored(incr)
  {
  }

  /** Over any run no level goes negative, and no member admits more than it held plus what was restored. */
  lemma {:induction false} RunBound(s: State, run: seq<Action>, initial: seq<int>)
    requires Inv(s, initial) && RunOK(s, run)
    ensures Inv(Run(s, run), initial)
    decreases |run|
  {
    if run != [] {
      StepKeeps(s, run[0], initial);
      RunBound(Step(s, run[0]), run[1..], initial);
    }
  }

  /** The bound for a vector that starts at some levels: with updates of `elapsed` seconds in all for member `i`. */
  lemma {:induction false} AdmittedBound(specs: seq<Spec>, initial: seq<int>, run: seq<Action>, i: nat)
    requires |specs| == |initial| && i < |specs| && (forall k :: 0 <= k < |specs| ==> specs[k].Valid() && 0 <= initial[k])
    requires RunOK(State(specs, initial, seq(|specs|, _ => 0), 0), run)
    ensures var s := Run(State(specs, initial, seq(|specs|, _ => 0), 0), run);
            0 <= s.levels[i] && s.admitted <= initial[i] + specs[i].Restored(Elapsed(run, i))
  {
    var s0 := State(specs, initial, seq(|specs|, _ => 0), 0);
    RunBound(s0, run, initial);
    RestoredIs(s0, run, i);
  }

  function Elapsed(run: seq<Action>, i: nat): nat {
    if run == [] then 0 else (if run[0].Update? && run[0].i == i then run[0].incr else 0) + Elapsed(run[1..], i)
  }

  lemma {:induction false} RestoredIs(s: State, run: seq<Action>, i: nat)
    requires WellFormed(s) && RunOK(s, run) && i < |s.specs|
    ensures Run(s, run).restored[i] == s.restored[i] + s.specs[i].Restored(Elapsed(run, i))
    decreases |run|
  {
    if run != [] {
      var s1 := Step(s, run[0]);
      RestoredIs(s1, run[1..], i);
      var e := Elapsed(run[1..], i);
      if run[0].Update? && run[0].i == i { RestoredSum(s.specs[i], run[0].incr, e); }
    }
  }

  lemma RestoredSum(rate: Spec, a: nat, b: nat)
    requires rate.Valid()
    ensures rate.Restored(a + b) == rate.Restored(a) + rate.Restored(b)
  {
  }

  /** Taking a whole grant leaves no member negative exactly when no member holds less than the minimum. */
  lemma {:induction false} OverdrawnIff(levels: seq<int>, minimum: int, maximum: int)
    ensures (forall i :: 0 <= i < |levels| ==> levels[i] - Granted(levels, minimum, maximum) >= 0)
            <==> (forall i :: 0 <= i < |levels| ==> minimum <= levels[i])
  {
    LeastIs(levels, maximum);
    assert forall i :: 0 <= i < |levels| ==> levels[i] in levels;
  }

  ghost predicate AllDifferent(ids: seq<Bucket>) {
    forall i, j :: 0 <= i < j < |ids| ==> ids[i] != ids[j]
  }

  lemma {:induction false} OnceEach(ids: seq<Bucket>, i: nat)
    requires AllDifferent(ids) && i < |ids|
    ensures Times(ids, ids[i]) == 1
  {
    var front := ids[..|ids| - 1];
    if i == |ids| - 1 { NotThere(front, ids[i]); } else { OnceEach(front, i); }
  }

  lemma {:induction false} NotThere(ids: seq<Bucket>, b: Bucket)
    requires b !in ids
    ensures Times(ids, b) == 0
  {
    if ids != [] { NotThere(ids[..|ids| - 1], b); }
  }

  /** A read that takes no more than is granted. */
  method ReadSome(ids: seq<Bucket>, maximum: int, taken: nat)
    requires AllDifferent(ids) && taken <= Granted(Levels(ids), 0, maximum)
    modifies ids
    ensures forall i :: 0 <= i < |ids| ==> ids[i].level == old(ids[i].level) - taken
  {
    hide Times, Granted, AllDifferent;
    var granted := BytesWanted(ids, 0, maximum);
    assert taken <= granted;
    BytesIn(ids, taken);
    forall i | 0 <= i < |ids| ensures ids[i].level == old(ids[i].level) - taken {
      OnceEach(ids, i);
      assert ids[i] in ids;
    }
  }

  /** One action on the buckets themselves. */
  method Perform(ids: seq<Bucket>, specs: seq<Spec>, a: Action, ghost s: State)
    requires AllDifferent(ids) && |specs| == |ids| && WellFormed(s) && Allowed(s, a) && s.specs == specs && s.levels == Levels(ids)
    modifies ids
    ensures Levels(ids) == Step(s, a).levels
  {
    hide Granted, Refilled;
    match a
    case Update(i, incr) => ids[i].Update(specs[i], incr);
    case Read(maximum, taken) => ReadSome(ids, maximum, taken);
  }

  /** The buckets follow every run, so that the bounds proved of runs hold of them. */
  method Serve(ids: seq<Bucket>, specs: seq<Spec>, run: seq<Action>)
    requires AllDifferent(ids) && |specs| == |ids| && forall i :: 0 <= i < |specs| ==> specs[i].Valid()
    requires RunOK(State(specs, Levels(ids), seq(|specs|, _ => 0), 0), run)
    modifies ids
    ensures Levels(ids) == Run(State(specs, old(Levels(ids)), seq(|specs|, _ => 0), 0), run).levels
  {
    hide Step, Allowed;
    ghost var s := State(specs, Levels(ids), seq(|specs|, _ => 0), 0);
    ghost var end := Run(s, run);
    var i := 0;
    assert run[0..] == run;
    while i < |run|
      invariant 0 <= i <= |run| && WellFormed(s) && s.specs == specs && s.levels == Levels(ids)
      invariant RunOK(s, run[i..]) && Run(s, run[i..]) == end
    {
      assert run[i..][1..] == run[i + 1..];
      Perform(ids, specs, run[i], s);
      s := Step(s, run[i]);
      i := i + 1;
    }
    assert run[i..] == [];
  }
}
