/** `build_minimal_runs`: deduplicate the events, then sweep the run index upward and put
    every unscheduled event on the first of its candidate registers still free in the
    current run. */
module Scheduler {
  import opened Wrappers
  import opened Strings
  import opened Registers
  import opened EventStrings

  // ---------------------------------------------------------------------------
  // Removing duplicates: `[e for i, e in enumerate(events) if events.index(e) == i]`.

  predicate Distinct<T(==)>(s: seq<T>) {
    forall i, j :: 0 <= i < j < |s| ==> s[i] != s[j]
  }

  /** `events.index(x)`: the position of the first occurrence of `x`. */
  function FirstIndex<T(==)>(s: seq<T>, x: T): (k: nat)
    requires x in s
    ensures k < |s| && s[k] == x && x !in s[..k]
    decreases |s|
  {
    if s[0] == x then 0
    else
      var k := 1 + FirstIndex(s[1..], x);
      assert s[..k] == [s[0]] + s[1..][..k - 1];
      k
  }

  /** The events, each at its first occurrence only, in their original order. */
  function Dedupe<T(==, !new)>(s: seq<T>): (r: seq<T>)
    ensures forall x :: x in r <==> x in s
    ensures Distinct(r)
    decreases |s|
  {
    if s == [] then []
    else
      var front := s[..|s| - 1];
      var last := s[|s| - 1];
      assert forall x :: x in s <==> x in front || x == last;
      if last in front then Dedupe(front) else Dedupe(front) + [last]
  }

  /** A kept element's first occurrence precedes those of the elements kept after it. */
  lemma {:induction false} DedupeOrder<T(!new)>(s: seq<T>, i: nat, j: nat)
    requires i < j < |Dedupe(s)|
    ensures FirstIndex(s, Dedupe(s)[i]) < FirstIndex(s, Dedupe(s)[j])
    decreases |s|
  {
    var front := s[..|s| - 1];
    var last := s[|s| - 1];
    var r := Dedupe(s);
    assert forall x :: x in front ==> x in s && FirstIndex(s, x) == FirstIndex(front, x) by {
      forall x | x in front
        ensures x in s && FirstIndex(s, x) == FirstIndex(front, x)
      {
        FirstIndexPrefix(s, front, x);
      }
    }
    if last in front {
      DedupeOrder(front, i, j);
    } else if j < |Dedupe(front)| {
      DedupeOrder(front, i, j);
    } else {
      assert r[j] == last && r[i] in front;
      assert FirstIndex(s, last) == |s| - 1 by {
        assert s[..|s| - 1] == front;
      }
    }
  }

  /** Only one position holds the first occurrence. */
  lemma FirstOccurrenceUnique<T>(s: seq<T>, x: T, a: nat, b: nat)
    requires a < |s| && s[a] == x && x !in s[..a]
    requires b < |s| && s[b] == x && x !in s[..b]
    ensures a == b
  {
    assert forall i :: 0 <= i < b ==> s[..b][i] == s[i];
    assert forall i :: 0 <= i < a ==> s[..a][i] == s[i];
  }

  lemma FirstIndexPrefix<T>(s: seq<T>, front: seq<T>, x: T)
    requires |s| > 0 && front == s[..|s| - 1] && x in front
    ensures x in s && FirstIndex(s, x) == FirstIndex(front, x)
  {
    var k := FirstIndex(front, x);
    assert s[k] == x;
    assert s[..k] == front[..k];
    FirstOccurrenceUnique(s, x, k, FirstIndex(s, x));
  }

  /** Removing duplicates from a list without any changes nothing. */
  lemma {:induction false} DedupeDistinct<T(!new)>(s: seq<T>)
    requires Distinct(s)
    ensures Dedupe(s) == s
    decreases |s|
  {
    if s != [] {
      var front := s[..|s| - 1];
      DedupeDistinct(front);
      assert s[|s| - 1] !in front;
      assert front + [s[|s| - 1]] == s;
    }
  }

  // ---------------------------------------------------------------------------
  // Sets of event indices.

  function Range(n: nat): (r: set<nat>)
    ensures |r| == n && forall i :: i in r <==> 0 <= i < n
  {
    if n == 0 then {}
    else
      var r := Range(n - 1);
      assert n - 1 !in r;
      r + {n - 1}
  }

  lemma SubsetCard(a: set<nat>, b: set<nat>)
    requires a <= b
    ensures |a| <= |b| && (|a| == |b| ==> a == b)
  {
    assert b == a + (b - a);
    assert a * (b - a) == {};
    if |a| == |b| {
      assert |b - a| == 0;
    }
  }

  // ---------------------------------------------------------------------------
  // One sweep.

  /** An event placed in a run: its position in the deduplicated list and its register. */
  datatype Slot = Slot(index: nat, register: string)

  /** The registers in use in a run: the keys of its register dictionary. */
  function SlotRegisters(run: seq<Slot>): seq<string> {
    seq(|run|, p requires 0 <= p < |run| => run[p].register)
  }

  /** The candidate registers of event `j`. */
  function Options(evs: seq<EventTuple>, j: nat): seq<string> {
    if j < |evs| && ValidDescriptor(evs[j].register) then RegisterOptions(evs[j].register) else []
  }

  /** The candidate loop: the first candidate not yet used, or none. */
  function FirstFree(cands: seq<string>, used: seq<string>): Option<string>
    decreases |cands|
  {
    if cands == [] then None
    else if cands[0] !in used then Some(cands[0])
    else FirstFree(cands[1..], used)
  }

  /** The candidate loop finds nothing exactly when every candidate is in use, and
      otherwise the first candidate not in use. */
  lemma {:induction false} FirstFreeSpec(cands: seq<string>, used: seq<string>)
    ensures FirstFree(cands, used).None? <==> forall k :: 0 <= k < |cands| ==> cands[k] in used
    ensures FirstFree(cands, used).Some? ==>
      exists k :: 0 <= k < |cands| && cands[k] == FirstFree(cands, used).value
        && cands[k] !in used && forall m :: 0 <= m < k ==> cands[m] in used
    decreases |cands|
  {
    if cands != [] && cands[0] in used {
      FirstFreeSpec(cands[1..], used);
      assert forall k :: 1 <= k < |cands| ==> cands[k] == cands[1..][k - 1];
      var r := FirstFree(cands[1..], used);
      if r.Some? {
        var k :| 0 <= k < |cands[1..]| && cands[1..][k] == r.value && cands[1..][k] !in used
                  && forall m :: 0 <= m < k ==> cands[1..][m] in used;
        assert cands[k + 1] == r.value;
      }
    } else if cands != [] {
      assert cands[0] == FirstFree(cands, used).value;
    }
  }

  /** The `for event_tpl in events` loop of one sweep, from event `i` on, with `done` the
      events scheduled so far and `run` the current run's placements. */
  function Sweep(evs: seq<EventTuple>, done: set<nat>, i: nat, run: seq<Slot>): (set<nat>, seq<Slot>)
    decreases |evs| - i
  {
    if i >= |evs| then (done, run)
    else if i in done then Sweep(evs, done, i + 1, run)
    else
      match FirstFree(Options(evs, i), SlotRegisters(run))
      case None => Sweep(evs, done, i + 1, run)
      case Some(reg) => Sweep(evs, done + {i}, i + 1, run + [Slot(i, reg)])
  }

  /** The number of placements of `run` for events before `j`. */
  function CountBelow(run: seq<Slot>, j: nat): (c: nat)
    ensures c <= |run|
    decreases |run|
  {
    if run == [] then 0
    else if run[|run| - 1].index < j then CountBelow(run[..|run| - 1], j) + 1
    else CountBelow(run[..|run| - 1], j)
  }

  function IndexSet(run: seq<Slot>): set<nat> {
    set p | 0 <= p < |run| :: run[p].index
  }

  /** Placements are in event order. */
  predicate Increasing(run: seq<Slot>) {
    forall p, q :: 0 <= p < q < |run| ==> run[p].index < run[q].index
  }

  /** Every placement took the first candidate free when its event's turn came. */
  predicate FirstFit(evs: seq<EventTuple>, run: seq<Slot>) {
    forall p :: 0 <= p < |run| ==> FirstFree(Options(evs, run[p].index), SlotRegisters(run[..p])) == Some(run[p].register)
  }

  /** Every event passed over before `i` found all its candidates taken by the events
      placed before it. */
  predicate Blocked(evs: seq<EventTuple>, done: set<nat>, i: nat, run: seq<Slot>) {
    forall j :: 0 <= j < i && j !in done ==> PassedOver(evs, run, j)
  }

  /** When event `j`'s turn came in `run`, the events placed before it held every one
      of its candidates. */
  predicate PassedOver(evs: seq<EventTuple>, run: seq<Slot>, j: nat) {
    FirstFree(Options(evs, j), SlotRegisters(run[..CountBelow(run, j)])) == None
  }

  /** What holds at every step of a sweep that started with `done0` and an empty run. */
  predicate SweepInv(evs: seq<EventTuple>, done0: set<nat>, done: set<nat>, i: nat, run: seq<Slot>) {
    i <= |evs|
    && done == done0 + IndexSet(run)
    && (forall p :: 0 <= p < |run| ==> run[p].index < i && run[p].index !in done0)
    && Increasing(run)
    && FirstFit(evs, run)
    && Blocked(evs, done, i, run)
  }

  lemma CountBelowAll(run: seq<Slot>, j: nat)
    requires forall p :: 0 <= p < |run| ==> run[p].index < j
    ensures CountBelow(run, j) == |run|
    decreases |run|
  {
    if run != [] {
      CountBelowAll(run[..|run| - 1], j);
    }
  }

  lemma IndexSetAppend(run: seq<Slot>, x: Slot)
    ensures IndexSet(run + [x]) == IndexSet(run) + {x.index}
  {
    var run' := run + [x];
    forall y | y in IndexSet(run')
      ensures y in IndexSet(run) + {x.index}
    {
      var p :| 0 <= p < |run'| && run'[p].index == y;
      if p < |run| { assert run[p].index == y; }
    }
    forall y | y in IndexSet(run) + {x.index}
      ensures y in IndexSet(run')
    {
      if y == x.index {
        assert run'[|run|].index == y;
      } else {
        var p :| 0 <= p < |run| && run[p].index == y;
        assert run'[p].index == y;
      }
    }
  }

  lemma FirstFitAppend(evs: seq<EventTuple>, run: seq<Slot>, x: Slot)
    requires FirstFit(evs, run)
    requires FirstFree(Options(evs, x.index), SlotRegisters(run)) == Some(x.register)
    ensures FirstFit(evs, run + [x])
  {
    var run' := run + [x];
    forall p | 0 <= p < |run'|
      ensures FirstFree(Options(evs, run'[p].index), SlotRegisters(run'[..p])) == Some(run'[p].register)
    {
      if p < |run| {
        assert run'[..p] == run[..p];
      } else {
        assert run'[..p] == run;
      }
    }
  }

  lemma BlockedAppend(evs: seq<EventTuple>, done: set<nat>, i: nat, run: seq<Slot>, x: Slot)
    requires Blocked(evs, done, i, run)
    requires x.index == i
    ensures Blocked(evs, done + {i}, i + 1, run + [x])
  {
    var run' := run + [x];
    forall j | 0 <= j < i + 1 && j !in done + {i}
      ensures PassedOver(evs, run', j)
    {
      assert run'[..|run|] == run;
      assert CountBelow(run', j) == CountBelow(run, j);
      assert run'[..CountBelow(run, j)] == run[..CountBelow(run, j)];
    }
  }

  lemma BlockedSkip(evs: seq<EventTuple>, done: set<nat>, i: nat, run: seq<Slot>)
    requires Blocked(evs, done, i, run)
    requires forall p :: 0 <= p < |run| ==> run[p].index < i
    requires i !in done ==> FirstFree(Options(evs, i), SlotRegisters(run)) == None
    ensures Blocked(evs, done, i + 1, run)
  {
    CountBelowAll(run, i);
    assert run[..CountBelow(run, i)] == run;
    assert i !in done ==> PassedOver(evs, run, i);
  }

  /** A step that passes over event `i` keeps the invariant. */
  lemma SweepSkip(evs: seq<EventTuple>, done0: set<nat>, done: set<nat>, i: nat, run: seq<Slot>)
    requires SweepInv(evs, done0, done, i, run) && i < |evs|
    requires i !in done ==> FirstFree(Options(evs, i), SlotRegisters(run)) == None
    ensures SweepInv(evs, done0, done, i + 1, run)
  {
    BlockedSkip(evs, done, i, run);
  }

  /** A step that places event `i` on register `reg` keeps the invariant. */
  lemma SweepPlace(evs: seq<EventTuple>, done0: set<nat>, done: set<nat>, i: nat, run: seq<Slot>, reg: string)
    requires SweepInv(evs, done0, done, i, run) && i < |evs| && i !in done
    requires FirstFree(Options(evs, i), SlotRegisters(run)) == Some(reg)
    ensures SweepInv(evs, done0, done + {i}, i + 1, run + [Slot(i, reg)])
  {
    var x := Slot(i, reg);
    var run' := run + [x];
    assert done + {i} == done0 + IndexSet(run') by {
      IndexSetAppend(run, x);
    }
    assert FirstFit(evs, run') by {
      FirstFitAppend(evs, run, x);
    }
    assert Blocked(evs, done + {i}, i + 1, run') by {
      BlockedAppend(evs, done, i, run, x);
    }
    assert forall p :: 0 <= p < |run'| ==> run'[p].index < i + 1 && run'[p].index !in done0 by {
      assert i !in done0;
    }
    assert Increasing(run');
  }

  /** A whole sweep keeps the invariant. */
  lemma {:induction false} SweepKeeps(evs: seq<EventTuple>, done0: set<nat>, done: set<nat>, i: nat, run: seq<Slot>)
    requires SweepInv(evs, done0, done, i, run)
    ensures SweepInv(evs, done0, Sweep(evs, done, i, run).0, |evs|, Sweep(evs, done, i, run).1)
    decreases |evs| - i
  {
    if i < |evs| {
      if i in done {
        SweepSkip(evs, done0, done, i, run);
        SweepKeeps(evs, done0, done, i + 1, run);
      } else {
        match FirstFree(Options(evs, i), SlotRegisters(run))
        case None =>
          SweepSkip(evs, done0, done, i, run);
          SweepKeeps(evs, done0, done, i + 1, run);
        case Some(reg) =>
          SweepPlace(evs, done0, done, i, run, reg);
          SweepKeeps(evs, done0, done + {i}, i + 1, run + [Slot(i, reg)]);
      }
    }
  }

  /** A sweep that starts with an empty run ends with the invariant. */
  lemma SweepFromStart(evs: seq<EventTuple>, done: set<nat>)
    ensures SweepInv(evs, done, Sweep(evs, done, 0, []).0, |evs|, Sweep(evs, done, 0, []).1)
  {
    assert IndexSet([]) == {};
    SweepKeeps(evs, done, done, 0, []);
  }

  /** A sweep schedules only events of `evs`. */
  lemma SweepBounded(evs: seq<EventTuple>, done: set<nat>)
    requires done <= Range(|evs|)
    ensures Sweep(evs, done, 0, []).0 <= Range(|evs|)
  {
    var (done', run) := Sweep(evs, done, 0, []);
    SweepFromStart(evs, done);
    forall x | x in IndexSet(run)
      ensures x in Range(|evs|)
    {
      var p :| 0 <= p < |run| && run[p].index == x;
    }
  }

  // ---------------------------------------------------------------------------
  // The `while` loop: sweeps until every event is scheduled.

  /** Every event has at least one candidate register. */
  predicate Schedulable(evs: seq<EventTuple>) {
    forall j :: 0 <= j < |evs| ==> Options(evs, j) != []
  }

  /** Some index below `n` is missing from a set of indices smaller than `n`. */
  lemma MissingIndex(done: set<nat>, n: nat) returns (j: nat)
    requires done <= Range(n) && |done| < n
    ensures j < n && j !in done
  {
    SubsetCard(done, Range(n));
    assert Range(n) - done != {};
    var x :| x in Range(n) - done;
    j := x;
  }

  /** While an event is unscheduled, a sweep schedules at least one event and so adds a
      run. This holds because every event has a candidate and the run starts empty. */
  lemma SweepProgress(evs: seq<EventTuple>, done: set<nat>)
    requires Schedulable(evs) && done <= Range(|evs|) && |done| < |evs|
    ensures done < Sweep(evs, done, 0, []).0 <= Range(|evs|)
    ensures |done| < |Sweep(evs, done, 0, []).0| <= |evs|
    ensures Sweep(evs, done, 0, []).1 != []
  {
    var j := MissingIndex(done, |evs|);
    var (done', run) := Sweep(evs, done, 0, []);
    SweepFromStart(evs, done);
    assert forall x :: x in IndexSet(run) ==> x < |evs|;
    if j !in done' {
      assert PassedOver(evs, run, j);
      var c := CountBelow(run, j);
      FirstFreeSpec(Options(evs, j), SlotRegisters(run[..c]));
      assert Options(evs, j)[0] in SlotRegisters(run[..c]);
      assert run[0].index in done' - done;
    } else {
      assert j in IndexSet(run);
    }
    SubsetCard(done, done');
    SubsetCard(done', Range(|evs|));
  }

  /** The runs of slots that the `while` loop builds once `done` is scheduled. */
  function Greedy(evs: seq<EventTuple>, done: set<nat>): seq<seq<Slot>>
    requires Schedulable(evs) && done <= Range(|evs|)
    decreases |evs| - |done|
  {
    SubsetCard(done, Range(|evs|));
    if |done| == |evs| then []
    else
      var (done', run) := Sweep(evs, done, 0, []);
      SweepProgress(evs, done);
      [run] + Greedy(evs, done')
  }

  // ---------------------------------------------------------------------------
  // What the runs satisfy.

  /** A run of a sweep that started with `done`: non-empty, in event order, every event
      on the first register free at its turn, and only events not scheduled before. */
  predicate RunShape(evs: seq<EventTuple>, done: set<nat>, run: seq<Slot>) {
    run != []
    && Increasing(run)
    && FirstFit(evs, run)
    && forall p :: 0 <= p < |run| ==> run[p].index < |evs| && run[p].index !in done
  }

  /** The first run of `Greedy` and the events scheduled after it. */
  lemma GreedyStep(evs: seq<EventTuple>, done: set<nat>) returns (done': set<nat>, run: seq<Slot>)
    requires Schedulable(evs) && done <= Range(|evs|) && |done| < |evs|
    ensures done <= done' <= Range(|evs|) && |done| < |done'|
    ensures done' == done + IndexSet(run)
    ensures RunShape(evs, done, run) && Blocked(evs, done', |evs|, run)
    ensures Greedy(evs, done) == [run] + Greedy(evs, done')
  {
    done' := Sweep(evs, done, 0, []).0;
    run := Sweep(evs, done, 0, []).1;
    SweepProgress(evs, done);
    SweepFromStart(evs, done);
  }

  /** The loop ends after at most one run per unscheduled event, and every run has the
      shape above. */
  lemma {:induction false} GreedyShape(evs: seq<EventTuple>, done: set<nat>)
    requires Schedulable(evs) && done <= Range(|evs|)
    ensures |Greedy(evs, done)| <= |evs| - |done|
    ensures forall r :: 0 <= r < |Greedy(evs, done)| ==> RunShape(evs, done, Greedy(evs, done)[r])
    decreases |evs| - |done|
  {
    SubsetCard(done, Range(|evs|));
    if |done| < |evs| {
      var done', run := GreedyStep(evs, done);
      GreedyShape(evs, done');
      ShapeCons(evs, done, done', run, Greedy(evs, done'));
    }
  }

  /** A run of the right shape in front of runs that avoid a larger scheduled set. */
  lemma ShapeCons(evs: seq<EventTuple>, done: set<nat>, done': set<nat>, run: seq<Slot>, rest: seq<seq<Slot>>)
    requires done <= done' && RunShape(evs, done, run)
    requires forall r :: 0 <= r < |rest| ==> RunShape(evs, done', rest[r])
    ensures forall r :: 0 <= r < |[run] + rest| ==> RunShape(evs, done, ([run] + rest)[r])
  {
    forall r | 1 <= r < |[run] + rest|
      ensures RunShape(evs, done, ([run] + rest)[r])
    {
      assert ([run] + rest)[r] == rest[r - 1];
      RunShapeWeaken(evs, done, done', rest[r - 1]);
    }
  }

  /** A run of events outside `done'` is a run of events outside any smaller set. */
  lemma RunShapeWeaken(evs: seq<EventTuple>, done: set<nat>, done': set<nat>, run: seq<Slot>)
    requires done <= done' && RunShape(evs, done', run)
    ensures RunShape(evs, done, run)
  {
  }

  /** The registers of a first-fit run are pairwise different. */
  lemma FirstFitDistinct(evs: seq<EventTuple>, run: seq<Slot>)
    requires FirstFit(evs, run)
    ensures Distinct(SlotRegisters(run))
  {
    forall p, q | 0 <= p < q < |run|
      ensures run[p].register != run[q].register
    {
      var used := SlotRegisters(run[..q]);
      FirstFreeSpec(Options(evs, run[q].index), used);
      assert used[p] == run[p].register;
    }
  }

  /** Every register of a first-fit run is a candidate of its event. */
  lemma FirstFitOptions(evs: seq<EventTuple>, run: seq<Slot>)
    requires FirstFit(evs, run)
    ensures forall p :: 0 <= p < |run| ==> run[p].register in Options(evs, run[p].index)
  {
    forall p | 0 <= p < |run|
      ensures run[p].register in Options(evs, run[p].index)
    {
      FirstFreeSpec(Options(evs, run[p].index), SlotRegisters(run[..p]));
    }
  }

  /** Within each run no register is used twice, and every register is one of the
      candidates of the event placed on it. */
  lemma GreedyRegisters(evs: seq<EventTuple>, done: set<nat>)
    requires Schedulable(evs) && done <= Range(|evs|)
    ensures forall r :: 0 <= r < |Greedy(evs, done)| ==> Distinct(SlotRegisters(Greedy(evs, done)[r]))
    ensures forall r, p :: 0 <= r < |Greedy(evs, done)| && 0 <= p < |Greedy(evs, done)[r]| ==>
      Greedy(evs, done)[r][p].register in Options(evs, Greedy(evs, done)[r][p].index)
  {
    var runs: seq<seq<Slot>> := Greedy(evs, done);
    GreedyShape(evs, done);
    forall r | 0 <= r < |runs|
      ensures Distinct(SlotRegisters(runs[r]))
      ensures forall p :: 0 <= p < |runs[r]| ==> runs[r][p].register in Options(evs, runs[r][p].index)
    {
      assert RunShape(evs, done, runs[r]);
      FirstFitDistinct(evs, runs[r]);
      FirstFitOptions(evs, runs[r]);
    }
  }

  /** No event is in two slots. */
  predicate OnceEach(runs: seq<seq<Slot>>) {
    forall r1, p1, r2, p2 ::
      0 <= r1 < |runs| && 0 <= p1 < |runs[r1]| && 0 <= r2 < |runs| && 0 <= p2 < |runs[r2]|
      && runs[r1][p1].index == runs[r2][p2].index
      ==> r1 == r2 && p1 == p2
  }

  /** A run in event order whose events are all in `done'`, in front of runs that avoid
      `done'` and have each event once, gives runs that have each event once. */
  lemma OnceEachCons(run: seq<Slot>, rest: seq<seq<Slot>>, done': set<nat>)
    requires Increasing(run) && OnceEach(rest)
    requires forall p :: 0 <= p < |run| ==> run[p].index in done'
    requires forall r, p :: 0 <= r < |rest| && 0 <= p < |rest[r]| ==> rest[r][p].index !in done'
    ensures OnceEach([run] + rest)
  {
    var runs: seq<seq<Slot>> := [run] + rest;
    forall r1, p1, r2, p2 |
      0 <= r1 < |runs| && 0 <= p1 < |runs[r1]| && 0 <= r2 < |runs| && 0 <= p2 < |runs[r2]|
      && runs[r1][p1].index == runs[r2][p2].index
      ensures r1 == r2 && p1 == p2
    {
      if r1 == 0 && r2 == 0 {
      } else if r1 == 0 || r2 == 0 {
        assert false;
      } else {
        assert runs[r1] == rest[r1 - 1] && runs[r2] == rest[r2 - 1];
      }
    }
  }

  /** No event is scheduled twice: two slots with the same event are the same slot. */
  lemma {:induction false} GreedyOnce(evs: seq<EventTuple>, done: set<nat>)
    requires Schedulable(evs) && done <= Range(|evs|)
    ensures OnceEach(Greedy(evs, done))
    decreases |evs| - |done|
  {
    SubsetCard(done, Range(|evs|));
    if |done| < |evs| {
      var done', run := GreedyStep(evs, done);
      var rest: seq<seq<Slot>> := Greedy(evs, done');
      GreedyOnce(evs, done');
      GreedyShape(evs, done');
      assert forall p :: 0 <= p < |run| ==> run[p].index in IndexSet(run);
      assert forall r, p :: 0 <= r < |rest| && 0 <= p < |rest[r]| ==> rest[r][p].index !in done' by {
        forall r | 0 <= r < |rest| ensures RunShape(evs, done', rest[r]) { }
      }
      OnceEachCons(run, rest, done');
    }
  }

  /** Event `j` is in some slot. */
  predicate Scheduled(runs: seq<seq<Slot>>, j: nat) {
    exists r, p :: 0 <= r < |runs| && 0 <= p < |runs[r]| && runs[r][p].index == j
  }

  /** Every event not scheduled before is scheduled in some run. */
  lemma {:induction false} GreedyCovers(evs: seq<EventTuple>, done: set<nat>, j: nat)
    requires Schedulable(evs) && done <= Range(|evs|)
    requires j < |evs| && j !in done
    ensures Scheduled(Greedy(evs, done), j)
    decreases |evs| - |done|
  {
    SubsetCard(done, Range(|evs|));
    var done', run := GreedyStep(evs, done);
    var runs: seq<seq<Slot>> := Greedy(evs, done);
    var rest: seq<seq<Slot>> := Greedy(evs, done');
    if j in IndexSet(run) {
      var p :| 0 <= p < |run| && run[p].index == j;
      assert runs[0][p].index == j;
    } else {
      GreedyCovers(evs, done', j);
      var r, p :| 0 <= r < |rest| && 0 <= p < |rest[r]| && rest[r][p].index == j;
      assert runs[r + 1][p].index == j;
    }
  }

  /** Every event placed in a later run was passed over in every earlier run: when its
      turn came there, every one of its candidates was taken. */
  predicate BlockedBefore(evs: seq<EventTuple>, runs: seq<seq<Slot>>) {
    forall r1, r2, p :: 0 <= r1 < r2 < |runs| && 0 <= p < |runs[r2]| ==>
      PassedOver(evs, runs[r1], runs[r2][p].index)
  }

  lemma {:induction false} GreedyBlocked(evs: seq<EventTuple>, done: set<nat>)
    requires Schedulable(evs) && done <= Range(|evs|)
    ensures BlockedBefore(evs, Greedy(evs, done))
    decreases |evs| - |done|
  {
    SubsetCard(done, Range(|evs|));
    if |done| < |evs| {
      var done', run := GreedyStep(evs, done);
      GreedyBlocked(evs, done');
      GreedyShape(evs, done');
      BlockedCons(evs, done', run, Greedy(evs, done'));
    }
  }

  /** A run that blocked every event left after it, in front of runs of those events. */
  lemma BlockedCons(evs: seq<EventTuple>, done': set<nat>, run: seq<Slot>, rest: seq<seq<Slot>>)
    requires Blocked(evs, done', |evs|, run) && BlockedBefore(evs, rest)
    requires forall r :: 0 <= r < |rest| ==> RunShape(evs, done', rest[r])
    ensures BlockedBefore(evs, [run] + rest)
  {
    HeadBlocksAll(evs, done', run, rest);
    ConsBlocked(evs, run, rest);
  }

  /** `run` passed over every event of every run of `later`. */
  predicate BlocksAll(evs: seq<EventTuple>, run: seq<Slot>, later: seq<seq<Slot>>) {
    forall r, p :: 0 <= r < |later| && 0 <= p < |later[r]| ==> PassedOver(evs, run, later[r][p].index)
  }

  lemma HeadBlocksAll(evs: seq<EventTuple>, done': set<nat>, run: seq<Slot>, rest: seq<seq<Slot>>)
    requires Blocked(evs, done', |evs|, run)
    requires forall r :: 0 <= r < |rest| ==> RunShape(evs, done', rest[r])
    ensures BlocksAll(evs, run, rest)
  {
    forall r, p | 0 <= r < |rest| && 0 <= p < |rest[r]|
      ensures PassedOver(evs, run, rest[r][p].index)
    {
      BlockedLater(evs, done', run, rest[r], p);
    }
  }

  /** A run that blocked every event outside `done'` blocked each event of a later run. */
  lemma BlockedLater(evs: seq<EventTuple>, done': set<nat>, run: seq<Slot>, later: seq<Slot>, p: nat)
    requires Blocked(evs, done', |evs|, run) && RunShape(evs, done', later) && p < |later|
    ensures PassedOver(evs, run, later[p].index)
  {
    var j := later[p].index;
    assert j < |evs| && j !in done';
  }

  lemma ConsBlocked(evs: seq<EventTuple>, run: seq<Slot>, rest: seq<seq<Slot>>)
    requires BlocksAll(evs, run, rest) && BlockedBefore(evs, rest)
    ensures BlockedBefore(evs, [run] + rest)
  {
    var runs: seq<seq<Slot>> := [run] + rest;
    forall r1, r2, p | 0 <= r1 < r2 < |runs| && 0 <= p < |runs[r2]|
      ensures PassedOver(evs, runs[r1], runs[r2][p].index)
    {
      assert runs[r2] == rest[r2 - 1];
      if r1 > 0 {
        assert runs[r1] == rest[r1 - 1];
      }
    }
  }

  // ---------------------------------------------------------------------------
  // An event without candidates keeps the loop running forever.

  /** The set of scheduled events after `k` sweeps. */
  function Sweeps(evs: seq<EventTuple>, done: set<nat>, k: nat): set<nat>
    decreases k
  {
    if k == 0 then done else Sweeps(evs, Sweep(evs, done, 0, []).0, k - 1)
  }

  lemma {:induction false} SweepPassesOver(evs: seq<EventTuple>, done: set<nat>, i: nat, run: seq<Slot>, j: nat)
    requires Options(evs, j) == [] && j !in done
    ensures j !in Sweep(evs, done, i, run).0
    decreases |evs| - i
  {
    if i < |evs| && i !in done {
      match FirstFree(Options(evs, i), SlotRegisters(run))
      case None =>
        SweepPassesOver(evs, done, i + 1, run, j);
      case Some(reg) =>
        assert i != j;
        SweepPassesOver(evs, done + {i}, i + 1, run + [Slot(i, reg)], j);
    } else if i < |evs| {
      SweepPassesOver(evs, done, i + 1, run, j);
    }
  }

  /** If every descriptor is well formed (none raises) and event `j`'s descriptor expands
      to no register, no number of sweeps schedules it, so the count of scheduled events
      never reaches the number of events and the `while` loop never ends. */
  lemma {:induction false} NoCandidatesNoEnd(evs: seq<EventTuple>, done: set<nat>, j: nat, k: nat)
    requires forall m :: 0 <= m < |evs| ==> ValidDescriptor(evs[m].register)
    requires done <= Range(|evs|) && j < |evs| && j !in done && RegisterOptions(evs[j].register) == []
    ensures j !in Sweeps(evs, done, k) && Sweeps(evs, done, k) <= Range(|evs|)
    ensures |Sweeps(evs, done, k)| < |evs|
    decreases k
  {
    assert Options(evs, j) == [];
    if k > 0 {
      var done' := Sweep(evs, done, 0, []).0;
      SweepBounded(evs, done);
      SweepPassesOver(evs, done, 0, [], j);
      NoCandidatesNoEnd(evs, done', j, k - 1);
    } else {
      SubsetCard(done, Range(|evs|));
    }
  }

  // ---------------------------------------------------------------------------
  // The entries of the runs and the method itself.

  /** Every slot of `run` names an event of `evs`. */
  predicate InRange(evs: seq<EventTuple>, run: seq<Slot>) {
    forall p :: 0 <= p < |run| ==> run[p].index < |evs|
  }

  /** The entry stored for a slot: the event with the concrete register in place of its
      descriptor. */
  function Entry(evs: seq<EventTuple>, s: Slot): EventTuple
    requires s.index < |evs|
  {
    EventTuple(evs[s.index].event, s.register, evs[s.index].parameters)
  }

  /** The register dictionary of one run, as the list of its values. */
  function RenderRun(evs: seq<EventTuple>, run: seq<Slot>): seq<EventTuple>
    requires InRange(evs, run)
  {
    seq(|run|, p requires 0 <= p < |run| => Entry(evs, run[p]))
  }

  function RenderRuns(evs: seq<EventTuple>, runs: seq<seq<Slot>>): seq<seq<EventTuple>>
    requires forall k :: 0 <= k < |runs| ==> InRange(evs, runs[k])
  {
    seq(|runs|, k requires 0 <= k < |runs| => RenderRun(evs, runs[k]))
  }

  /** The keys of a register dictionary. */
  function RunRegisters(s: seq<EventTuple>): seq<string> {
    seq(|s|, p requires 0 <= p < |s| => s[p].register)
  }

  /** The dictionary of a rendered run is keyed by the registers of its slots. */
  lemma RenderedRegisters(evs: seq<EventTuple>, run: seq<Slot>)
    requires InRange(evs, run)
    ensures RunRegisters(RenderRun(evs, run)) == SlotRegisters(run)
  {
  }

  /** The first sweep of `Greedy`, by its definition. */
  lemma GreedyUnfold(evs: seq<EventTuple>, done: set<nat>)
    requires Schedulable(evs) && done <= Range(|evs|) && |done| < |evs|
    ensures Sweep(evs, done, 0, []).0 <= Range(|evs|)
    ensures Greedy(evs, done) == [Sweep(evs, done, 0, []).1] + Greedy(evs, Sweep(evs, done, 0, []).0)
  {
    SweepProgress(evs, done);
  }

  /** Every event of `events` has a descriptor that expands to at least one register. */
  predicate Expandable(events: seq<EventTuple>) {
    forall k :: 0 <= k < |events| ==> ValidDescriptor(events[k].register) && RegisterOptions(events[k].register) != []
  }

  lemma DedupeSchedulable(events: seq<EventTuple>)
    requires Expandable(events)
    ensures Schedulable(Dedupe(events)) && Distinct(Dedupe(events))
  {
    var evs := Dedupe(events);
    forall j | 0 <= j < |evs|
      ensures Options(evs, j) != []
    {
      assert evs[j] in events;
    }
  }

  /** `scheduled` lists exactly the events whose indices are in `done`. */
  predicate Tracks(evs: seq<EventTuple>, scheduled: seq<EventTuple>, done: set<nat>) {
    done <= Range(|evs|) && |scheduled| == |done|
    && forall j :: 0 <= j < |evs| ==> (evs[j] in scheduled <==> j in done)
  }

  lemma TracksAdd(evs: seq<EventTuple>, scheduled: seq<EventTuple>, done: set<nat>, i: nat)
    requires Distinct(evs) && Tracks(evs, scheduled, done) && i < |evs| && i !in done
    ensures Tracks(evs, scheduled + [evs[i]], done + {i})
  {
  }

  /** Adding a slot to the open run adds its entry to the last dictionary. */
  lemma RenderAppend(evs: seq<EventTuple>, runs0: seq<seq<EventTuple>>, cur: seq<Slot>, x: Slot)
    requires InRange(evs, cur) && x.index < |evs|
    ensures InRange(evs, cur + [x])
    ensures var runs := runs0 + [RenderRun(evs, cur)];
      runs[|runs0| := runs[|runs0|] + [Entry(evs, x)]] == runs0 + [RenderRun(evs, cur + [x])]
  {
    assert RenderRun(evs, cur) + [Entry(evs, x)] == RenderRun(evs, cur + [x]);
  }

  /** Closing the open run. */
  lemma RenderClose(evs: seq<EventTuple>, placed: seq<seq<Slot>>, cur: seq<Slot>)
    requires forall k :: 0 <= k < |placed| ==> InRange(evs, placed[k])
    requires InRange(evs, cur)
    ensures RenderRuns(evs, placed) + [RenderRun(evs, cur)] == RenderRuns(evs, placed + [cur])
  {
  }

  /** The candidate loop of `build_minimal_runs`: the first candidate register that is
      not yet a key of the run's dictionary `s`. */
  method FreeRegister(options: seq<string>, s: seq<EventTuple>) returns (found: Option<string>)
    ensures found == FirstFree(options, RunRegisters(s))
  {
    var k := 0;
    while k < |options|
      invariant 0 <= k <= |options|
      invariant FirstFree(options, RunRegisters(s)) == FirstFree(options[k..], RunRegisters(s))
    {
      if options[k] !in RunRegisters(s) {
        return Some(options[k]);
      }
      assert options[k..][1..] == options[k + 1..];
      k := k + 1;
    }
    return None;
  }

  /** One turn of the candidate sweep: event `i` takes the first free candidate of the
      open run, if it is not scheduled yet and one is free; this is one step of `Sweep`. */
  method FillSlot(evs: seq<EventTuple>, runs0: seq<seq<EventTuple>>, scheduledRuns: seq<seq<EventTuple>>,
                  scheduledEvents: seq<EventTuple>, curRun: nat, i: nat, ghost done: set<nat>, ghost cur: seq<Slot>)
    returns (runs': seq<seq<EventTuple>>, scheduled': seq<EventTuple>, ghost done': set<nat>, ghost cur': seq<Slot>)
    requires Schedulable(evs) && Distinct(evs) && i < |evs| && curRun == |runs0|
    requires InRange(evs, cur) && Tracks(evs, scheduledEvents, done)
    requires scheduledRuns == runs0 + (if cur == [] then [] else [RenderRun(evs, cur)])
    ensures i in done || FirstFree(Options(evs, i), SlotRegisters(cur)).None? ==> done' == done && cur' == cur
    ensures i !in done && FirstFree(Options(evs, i), SlotRegisters(cur)).Some? ==>
      done' == done + {i} && cur' == cur + [Slot(i, FirstFree(Options(evs, i), SlotRegisters(cur)).value)]
    ensures Sweep(evs, done, i, cur) == Sweep(evs, done', i + 1, cur')
    ensures InRange(evs, cur') && Tracks(evs, scheduled', done')
    ensures runs' == runs0 + (if cur' == [] then [] else [RenderRun(evs, cur')])
  {
    runs', scheduled', done', cur' := scheduledRuns, scheduledEvents, done, cur;
    var e := evs[i];
    if e in scheduledEvents {
      return;
    }
    assert Options(evs, i) != [];
    var options := RegisterOptions(e.register);
    assert options == Options(evs, i);
    if options != [] && curRun == |runs'| {
      runs' := runs' + [[]];
      assert RenderRun(evs, cur) == [];
    }
    assert runs' == runs0 + [RenderRun(evs, cur)];
    var s := runs'[curRun];
    RenderedRegisters(evs, cur);
    var found := FreeRegister(options, s);
    if found.Some? {
      var reg := found.value;
      RenderAppend(evs, runs0, cur, Slot(i, reg));
      TracksAdd(evs, scheduledEvents, done, i);
      runs' := runs'[curRun := s + [EventTuple(e.event, reg, e.parameters)]];
      scheduled' := scheduledEvents + [e];
      done' := done + {i};
      cur' := cur + [Slot(i, reg)];
    }
  }

  /** One pass of the `for event_tpl in events` loop: every event not yet scheduled gets
      the first free candidate register of run `curRun`, if any; the run's dictionary is
      created the first time a candidate is tried. */
  method FillRun(evs: seq<EventTuple>, runs0: seq<seq<EventTuple>>, scheduled0: seq<EventTuple>,
                 curRun: nat, ghost start: set<nat>)
    returns (scheduledRuns: seq<seq<EventTuple>>, scheduledEvents: seq<EventTuple>)
    requires Schedulable(evs) && Distinct(evs) && Tracks(evs, scheduled0, start) && |start| < |evs|
    requires curRun == |runs0|
    ensures InRange(evs, Sweep(evs, start, 0, []).1)
    ensures Tracks(evs, scheduledEvents, Sweep(evs, start, 0, []).0)
    ensures scheduledRuns == runs0 + [RenderRun(evs, Sweep(evs, start, 0, []).1)]
  {
    scheduledRuns, scheduledEvents := runs0, scheduled0;
    ghost var done: set<nat> := start;
    ghost var cur: seq<Slot> := [];
    for i := 0 to |evs|
      invariant Sweep(evs, start, 0, []) == Sweep(evs, done, i, cur)
      invariant InRange(evs, cur) && Tracks(evs, scheduledEvents, done)
      invariant scheduledRuns == runs0 + (if cur == [] then [] else [RenderRun(evs, cur)])
    {
      scheduledRuns, scheduledEvents, done, cur := FillSlot(evs, runs0, scheduledRuns, scheduledEvents, curRun, i, done, cur);
    }
    SweepProgress(evs, start);
  }

  /** `build_minimal_runs`: removes repeated events, then sweeps the events again and
      again, each sweep filling a new run, until every event has a register. */
  method BuildMinimalRuns(events: seq<EventTuple>) returns (runs: seq<seq<EventTuple>>)
    requires Expandable(events)
    ensures Schedulable(Dedupe(events))
    ensures forall k :: 0 <= k < |Greedy(Dedupe(events), {})| ==> InRange(Dedupe(events), Greedy(Dedupe(events), {})[k])
    ensures runs == RenderRuns(Dedupe(events), Greedy(Dedupe(events), {}))
    ensures |runs| <= |Dedupe(events)|
    ensures forall r :: 0 <= r < |runs| ==> runs[r] != [] && Distinct(RunRegisters(runs[r]))
  {
    var evs := Dedupe(events);
    DedupeSchedulable(events);
    var scheduledRuns: seq<seq<EventTuple>> := [];
    var scheduledEvents: seq<EventTuple> := [];
    var curRun := 0;
    ghost var done: set<nat> := {};
    ghost var placed: seq<seq<Slot>> := [];
    while |scheduledEvents| != |evs|
      invariant Tracks(evs, scheduledEvents, done)
      invariant forall k :: 0 <= k < |placed| ==> InRange(evs, placed[k])
      invariant placed + Greedy(evs, done) == Greedy(evs, {})
      invariant scheduledRuns == RenderRuns(evs, placed) && curRun == |placed|
      decreases |evs| - |done|
    {
      ghost var start := done;
      SubsetCard(start, Range(|evs|));
      scheduledRuns, scheduledEvents := FillRun(evs, scheduledRuns, scheduledEvents, curRun, start);
      ghost var cur := Sweep(evs, start, 0, []).1;
      done := Sweep(evs, start, 0, []).0;
      GreedyNext(evs, placed, start);
      RenderClose(evs, placed, cur);
      placed := placed + [cur];
      curRun := curRun + 1;
    }
    assert Greedy(evs, done) == [] by {
      SubsetCard(done, Range(|evs|));
    }
    assert placed == Greedy(evs, {});
    RenderedShape(evs);
    runs := scheduledRuns;
  }

  /** One turn of the `while` loop: the sweep from `start` is the next run of `Greedy`. */
  lemma GreedyNext(evs: seq<EventTuple>, placed: seq<seq<Slot>>, start: set<nat>)
    requires Schedulable(evs) && start <= Range(|evs|) && |start| < |evs|
    requires placed + Greedy(evs, start) == Greedy(evs, {})
    ensures Sweep(evs, start, 0, []).0 <= Range(|evs|) && |start| < |Sweep(evs, start, 0, []).0|
    ensures placed + [Sweep(evs, start, 0, []).1] + Greedy(evs, Sweep(evs, start, 0, []).0) == Greedy(evs, {})
  {
    var (done, cur) := Sweep(evs, start, 0, []);
    SweepProgress(evs, start);
    GreedyUnfold(evs, start);
    assert placed + [cur] + Greedy(evs, done) == placed + ([cur] + Greedy(evs, done));
  }

  /** Every run `Greedy` builds from scratch renders to a non-empty dictionary with
      distinct registers, and there are no more runs than events. */
  lemma RenderedShape(evs: seq<EventTuple>)
    requires Schedulable(evs)
    ensures forall r :: 0 <= r < |Greedy(evs, {})| ==> InRange(evs, Greedy(evs, {})[r])
    ensures |RenderRuns(evs, Greedy(evs, {}))| <= |evs|
    ensures forall r :: 0 <= r < |RenderRuns(evs, Greedy(evs, {}))| ==>
      RenderRuns(evs, Greedy(evs, {}))[r] != [] && Distinct(RunRegisters(RenderRuns(evs, Greedy(evs, {}))[r]))
  {
    var runs := Greedy(evs, {});
    GreedyShape(evs, {});
    GreedyRegisters(evs, {});
    forall r | 0 <= r < |runs|
      ensures InRange(evs, runs[r])
    {
      assert RunShape(evs, {}, runs[r]);
    }
    var rendered := RenderRuns(evs, runs);
    assert |rendered| == |runs|;
    forall r | 0 <= r < |rendered|
      ensures rendered[r] != [] && Distinct(RunRegisters(rendered[r]))
    {
      assert rendered[r] == RenderRun(evs, runs[r]);
      assert RunShape(evs, {}, runs[r]);
      RenderedRegisters(evs, runs[r]);
    }
  }
}
