/** The counter half of `Benchmark.analyze`: every minimal run is measured once, the
    per-run result dictionaries are merged into one, and every symbol of the cache
    metrics is bound to the raw counter of one of its candidate registers. */
module CounterBinding {
  import opened Wrappers
  import opened Registers
  import opened EventStrings
  import opened PerfctrOutput

  // ---------------------------------------------------------------------------
  // Measuring the runs and merging their results.

  /** `measured_ctrs.update(r)` for every run result in turn: a later run's entry
      replaces an earlier one as a whole. */
  function Merged<F>(rs: seq<Results<F>>): Results<F>
    decreases |rs|
  {
    if rs == [] then map[] else Merged(rs[..|rs| - 1]) + rs[|rs| - 1]
  }

  /** The last run whose result has an entry for `k`. */
  function LastWith<F>(rs: seq<Results<F>>, k: string): (i: nat)
    requires exists j :: 0 <= j < |rs| && k in rs[j]
    ensures i < |rs| && k in rs[i] && forall j :: i < j < |rs| ==> k !in rs[j]
    decreases |rs|
  {
    if k in rs[|rs| - 1] then |rs| - 1
    else
      var front := rs[..|rs| - 1];
      assert exists j :: 0 <= j < |front| && k in front[j] by {
        var j :| 0 <= j < |rs| && k in rs[j];
        assert front[j] == rs[j];
      }
      LastWith(front, k)
  }

  /** The merged dictionary has an entry for exactly the names some run reported, and
      that entry is the whole value of the last run reporting the name: register maps
      of different runs are not combined. */
  lemma {:induction false} MergedSpec<F>(rs: seq<Results<F>>)
    ensures MergedKeys(rs) && MergedValues(rs)
    decreases |rs|
  {
    if rs != [] {
      MergedSpec(rs[..|rs| - 1]);
      MergedKeysStep(rs);
      MergedValuesStep(rs);
    }
  }

  /** The merged dictionary has an entry for exactly the names some run reported. */
  ghost predicate MergedKeys<F>(rs: seq<Results<F>>) {
    forall k :: k in Merged(rs) <==> exists j :: 0 <= j < |rs| && k in rs[j]
  }

  /** Each entry of the merged dictionary is the whole value of the last run reporting
      the name: register maps of different runs are not combined. */
  ghost predicate MergedValues<F>(rs: seq<Results<F>>)
    requires MergedKeys(rs)
  {
    forall k :: k in Merged(rs) ==> Merged(rs)[k] == rs[LastWith(rs, k)][k]
  }

  lemma MergedKeysStep<F>(rs: seq<Results<F>>)
    requires rs != [] && MergedKeys(rs[..|rs| - 1])
    ensures MergedKeys(rs)
  {
    var front := rs[..|rs| - 1];
    forall k | k in Merged(rs)
      ensures exists j :: 0 <= j < |rs| && k in rs[j]
    {
      if k !in rs[|rs| - 1] {
        assert k in Merged(front);
        var j :| 0 <= j < |front| && k in front[j];
        assert rs[j] == front[j];
      }
    }
    forall k | exists j :: 0 <= j < |rs| && k in rs[j]
      ensures k in Merged(rs)
    {
      var j :| 0 <= j < |rs| && k in rs[j];
      if j < |rs| - 1 {
        assert front[j] == rs[j];
      }
    }
  }

  lemma MergedValuesStep<F>(rs: seq<Results<F>>)
    requires rs != [] && MergedKeys(rs) && MergedKeys(rs[..|rs| - 1])
    requires MergedValues(rs[..|rs| - 1])
    ensures MergedValues(rs)
  {
    var front := rs[..|rs| - 1];
    forall k | k in Merged(rs)
      ensures Merged(rs)[k] == rs[LastWith(rs, k)][k]
    {
      if k !in rs[|rs| - 1] {
        var j :| 0 <= j < |front| && k in front[j];
        assert rs[j] == front[j];
        assert LastWith(rs, k) == LastWith(front, k);
      }
    }
  }

  lemma MergedSnoc<F>(rs: seq<Results<F>>, r: Results<F>)
    ensures Merged(rs + [r]) == Merged(rs) + r
  {
    assert (rs + [r])[..|rs|] == rs;
  }

  /** The raw results of the runs in order, measured by `measure`, which stands for
      running `likwid-perfctr` on a run's group and parsing its output; the first run
      whose output parsing raises stops the loop with that error. */
  function MeasureAll<F>(runs: seq<seq<EventTuple>>, measure: string -> Result<Results<F>, ParseError>): Result<seq<Results<F>>, ParseError>
    decreases |runs|
  {
    if runs == [] then Success([])
    else
      match MeasureAll(runs[..|runs| - 1], measure)
      case Failure(e) => Failure(e)
      case Success(rs) =>
        match measure(GroupString(runs[|runs| - 1]))
        case Failure(e) => Failure(e)
        case Success(r) => Success(rs + [r])
  }

  /** Measuring succeeds exactly when every run's measurement does, and then gives one
      result per run, in run order; otherwise the error is that of the first run whose
      measurement failed. */
  lemma {:induction false} MeasureAllSpec<F>(runs: seq<seq<EventTuple>>, measure: string -> Result<Results<F>, ParseError>)
    ensures MeasureAll(runs, measure).Success? <==> forall i :: 0 <= i < |runs| ==> measure(GroupString(runs[i])).Success?
    ensures MeasureAll(runs, measure).Success? ==>
      |MeasureAll(runs, measure).value| == |runs|
      && forall i :: 0 <= i < |runs| ==> measure(GroupString(runs[i])) == Success(MeasureAll(runs, measure).value[i])
    ensures MeasureAll(runs, measure).Failure? ==>
      exists i :: 0 <= i < |runs| && measure(GroupString(runs[i])) == Failure(MeasureAll(runs, measure).error)
        && forall j :: 0 <= j < i ==> measure(GroupString(runs[j])).Success?
    decreases |runs|
  {
    if runs != [] {
      var front := runs[..|runs| - 1];
      MeasureAllSpec(front, measure);
      assert forall i :: 0 <= i < |front| ==> front[i] == runs[i];
      if MeasureAll(front, measure).Failure? {
        var i :| 0 <= i < |front| && measure(GroupString(front[i])) == Failure(MeasureAll(front, measure).error)
          && forall j :: 0 <= j < i ==> measure(GroupString(front[j])).Success?;
        assert measure(GroupString(runs[i])) == Failure(MeasureAll(runs, measure).error);
      } else if measure(GroupString(runs[|runs| - 1])).Failure? {
        assert measure(GroupString(runs[|runs| - 1])) == Failure(MeasureAll(runs, measure).error);
      }
    }
  }

  /** The run loop of `analyze`: every run's group string is measured, the raw results
      are kept in run order and merged into one dictionary; an error raised while
      measuring a run ends the loop. */
  method MeasureRuns<F>(runs: seq<seq<EventTuple>>, measure: string -> Result<Results<F>, ParseError>)
    returns (res: Result<(seq<Results<F>>, Results<F>), ParseError>)
    ensures res == match MeasureAll(runs, measure)
      case Failure(e) => Failure(e)
      case Success(rs) => Success((rs, Merged(rs)))
  {
    var rawResults: seq<Results<F>> := [];
    var measured: Results<F> := map[];
    for i := 0 to |runs|
      invariant MeasureAll(runs[..i], measure) == Success(rawResults)
      invariant measured == Merged(rawResults)
    {
      assert runs[..i + 1][..i] == runs[..i] && runs[..i + 1][i] == runs[i];
      var ctrs := GroupString(runs[i]);
      var r := measure(ctrs);
      if r.Failure? {
        MeasurePrefixFails(runs, measure, i);
        return Failure(r.error);
      }
      MergedSnoc(rawResults, r.value);
      rawResults := rawResults + [r.value];
      measured := measured + r.value;
    }
    assert runs[..|runs|] == runs;
    return Success((rawResults, measured));
  }

  /** A failure on a run is the failure of the whole measurement. */
  lemma {:induction false} MeasurePrefixFails<F>(runs: seq<seq<EventTuple>>, measure: string -> Result<Results<F>, ParseError>, i: nat)
    requires i < |runs| && MeasureAll(runs[..i + 1], measure).Failure?
    ensures MeasureAll(runs, measure) == MeasureAll(runs[..i + 1], measure)
    decreases |runs|
  {
    if |runs| > i + 1 {
      var front := runs[..|runs| - 1];
      assert front[..i + 1] == runs[..i + 1];
      MeasurePrefixFails(front, measure, i);
    } else {
      assert runs[..i + 1] == runs;
    }
  }

  // ---------------------------------------------------------------------------
  // Binding the symbols.

  /** The inner loop over the candidates: the counter of the last candidate register
      present in the event's register map; none when no candidate is present. */
  function LastPresent(regs: seq<string>, m: map<string, int>): Option<int>
    decreases |regs|
  {
    if regs == [] then None
    else if regs[|regs| - 1] in m then Some(m[regs[|regs| - 1]])
    else LastPresent(regs[..|regs| - 1], m)
  }

  /** No candidate present gives nothing; otherwise the value is the counter of a
      present candidate after which no candidate is present. */
  lemma {:induction false} LastPresentSpec(regs: seq<string>, m: map<string, int>)
    ensures LastPresent(regs, m).None? <==> forall k :: 0 <= k < |regs| ==> regs[k] !in m
    ensures LastPresent(regs, m).Some? ==>
      exists k :: 0 <= k < |regs| && regs[k] in m && LastPresent(regs, m).value == m[regs[k]]
        && forall j :: k < j < |regs| ==> regs[j] !in m
    decreases |regs|
  {
    if regs != [] && regs[|regs| - 1] !in m {
      var front := regs[..|regs| - 1];
      LastPresentSpec(front, m);
      assert forall k :: 0 <= k < |front| ==> front[k] == regs[k];
      if LastPresent(front, m).Some? {
        var k :| 0 <= k < |front| && front[k] in m && LastPresent(front, m).value == m[front[k]]
          && forall j :: k < j < |front| ==> front[j] !in m;
        LastPresentExtend(regs, front, m, k);
      }
    }
  }

  /** A candidate after which no candidate of the front is present stays the last one
      present when the final candidate is absent. */
  lemma LastPresentExtend(regs: seq<string>, front: seq<string>, m: map<string, int>, k: nat)
    requires regs != [] && front == regs[..|regs| - 1] && regs[|regs| - 1] !in m && k < |front|
    requires front[k] in m && forall j :: k < j < |front| ==> front[j] !in m
    ensures regs[k] in m && forall j :: k < j < |regs| ==> regs[j] !in m
  {
    assert forall j :: 0 <= j < |front| ==> front[j] == regs[j];
  }

  /** When two candidates are both present, the later one wins. */
  lemma LastWins(first: string, second: string, m: map<string, int>)
    requires first in m && second in m
    ensures LastPresent([first, second], m) == Some(m[second])
  {
  }

  /** The exceptions the binding loop lets through. */
  datatype BindError =
    | MissingEvent(event: string)     // `measured_ctrs[event]` raises `KeyError`
    | NotACounterMap(event: string)   // `r in measured_ctrs[event]` on a float raises `TypeError`

  /** The candidate loop `for r in regs` for symbol `sym` of event `event`. The measured
      entry of the event is looked up only if there is a candidate register at all. */
  function Candidates<F>(bound: map<string, int>, sym: string, event: string, regs: seq<string>, measured: Results<F>): Result<map<string, int>, BindError> {
    if regs == [] then Success(bound)
    else if event !in measured then Failure(MissingEvent(event))
    else match measured[event]
      case Metric(_) => Failure(NotACounterMap(event))
      case Counters(m) => Success(Rebind(bound, sym, LastPresent(regs, m)))
  }

  /** One pass of the outer loop: the symbol `sym` for the event tuple `ctr`, whose
      candidates are the registers its descriptor expands to. */
  function BindSymbol<F>(bound: map<string, int>, sym: string, ctr: EventTuple, measured: Results<F>): Result<map<string, int>, BindError>
    requires ValidDescriptor(ctr.register)
  {
    Candidates(bound, sym, ctr.event, RegisterOptions(ctr.register), measured)
  }

  /** The symbol's binding after the candidate loop found `v`. */
  function Rebind(bound: map<string, int>, sym: string, v: Option<int>): map<string, int> {
    match v
    case None => bound
    case Some(x) => bound[sym := x]
  }

  /** A symbol and the event tuple it stands for, in the order of `event_counters`. */
  type Symbols = seq<(string, EventTuple)>

  predicate ValidSymbols(symbols: Symbols) {
    forall i :: 0 <= i < |symbols| ==> ValidDescriptor(symbols[i].1.register)
  }

  /** The outer loop over the symbols, stopping at the first uncaught exception. */
  function Bindings<F>(bound: map<string, int>, symbols: Symbols, measured: Results<F>): Result<map<string, int>, BindError>
    requires ValidSymbols(symbols)
    decreases |symbols|
  {
    if symbols == [] then Success(bound)
    else
      match BindSymbol(bound, symbols[0].0, symbols[0].1, measured)
      case Failure(e) => Failure(e)
      case Success(b) => Bindings(b, symbols[1..], measured)
  }

  /** The candidate loop: every candidate register present in the event's counters
      overwrites the symbol's binding. */
  method BindCandidates<F>(bound: map<string, int>, sym: string, event: string, regs: seq<string>, measured: Results<F>)
    returns (res: Result<map<string, int>, BindError>)
    ensures res == Candidates(bound, sym, event, regs, measured)
  {
    var results := bound;
    for k := 0 to |regs|
      invariant k > 0 ==> event in measured && measured[event].Counters?
      invariant k > 0 ==> results == Rebind(bound, sym, LastPresent(regs[..k], measured[event].registers))
      invariant k == 0 ==> results == bound
    {
      if event !in measured {
        return Failure(MissingEvent(event));
      }
      if measured[event].Metric? {
        return Failure(NotACounterMap(event));
      }
      var m := measured[event].registers;
      assert regs[..k + 1][..k] == regs[..k] && regs[..k + 1][k] == regs[k];
      if regs[k] in m {
        results := results[sym := m[regs[k]]];
      }
    }
    assert regs[..|regs|] == regs;
    return Success(results);
  }

  /** The matching loop of `analyze`: `event_counter_results` starts empty and every
      symbol in turn goes through the candidate loop of its event's registers. */
  method BindSymbols<F>(symbols: Symbols, measured: Results<F>) returns (res: Result<map<string, int>, BindError>)
    requires ValidSymbols(symbols)
    ensures res == Bindings(map[], symbols, measured)
    ensures res.Success? && DistinctNames(symbols) ==>
      forall i :: 0 <= i < |symbols| ==> BoundAsMeasured(map[], res.value, symbols[i].0, symbols[i].1, measured)
  {
    var results: map<string, int> := map[];
    for i := 0 to |symbols|
      invariant Bindings(map[], symbols, measured) == Bindings(results, symbols[i..], measured)
    {
      assert symbols[i..][0] == symbols[i] && symbols[i..][1..] == symbols[i + 1..];
      var (sym, ctr) := symbols[i];
      var step := BindCandidates(results, sym, ctr.event, RegisterOptions(ctr.register), measured);
      if step.Failure? {
        return Failure(step.error);
      }
      results := step.value;
    }
    assert symbols[|symbols|..] == [];
    if DistinctNames(symbols) {
      forall i | 0 <= i < |symbols|
        ensures BoundAsMeasured(map[], results, symbols[i].0, symbols[i].1, measured)
      {
        BindingsAt(map[], symbols, measured, results, i);
      }
    }
    return Success(results);
  }

  // ---------------------------------------------------------------------------
  // What binding guarantees.

  /** A symbol none of whose candidates was measured is left as it was. */
  lemma BindUnmeasured<F>(bound: map<string, int>, sym: string, ctr: EventTuple, measured: Results<F>)
    requires ValidDescriptor(ctr.register)
    requires ctr.event in measured && measured[ctr.event].Counters?
    requires forall k :: 0 <= k < |RegisterOptions(ctr.register)| ==> RegisterOptions(ctr.register)[k] !in measured[ctr.event].registers
    ensures BindSymbol(bound, sym, ctr, measured) == Success(bound)
  {
    LastPresentSpec(RegisterOptions(ctr.register), measured[ctr.event].registers);
  }

  /** A symbol with a measured candidate is bound to the counter of the last measured
      candidate; every other symbol keeps its binding. */
  lemma BindMeasured<F>(bound: map<string, int>, sym: string, ctr: EventTuple, measured: Results<F>)
    requires ValidDescriptor(ctr.register)
    requires ctr.event in measured && measured[ctr.event].Counters?
    requires exists k ::
      0 <= k < |RegisterOptions(ctr.register)| && RegisterOptions(ctr.register)[k] in measured[ctr.event].registers
    ensures var regs, m := RegisterOptions(ctr.register), measured[ctr.event].registers;
      exists k :: 0 <= k < |regs| && regs[k] in m
        && BindSymbol(bound, sym, ctr, measured) == Success(bound[sym := m[regs[k]]])
        && forall j :: k < j < |regs| ==> regs[j] !in m
  {
    var regs, m := RegisterOptions(ctr.register), measured[ctr.event].registers;
    LastPresentSpec(regs, m);
    var k :| 0 <= k < |regs| && regs[k] in m && LastPresent(regs, m).value == m[regs[k]]
      && forall j :: k < j < |regs| ==> regs[j] !in m;
    assert BindSymbol(bound, sym, ctr, measured) == Success(bound[sym := m[regs[k]]]);
  }

  /** The exception `e` is what the candidate loop of `ctr` raises: it has a candidate
      register and its event is missing from the merged results or holds a metric
      instead of counters. */
  predicate RaisedBy<F>(e: BindError, ctr: EventTuple, measured: Results<F>)
    requires ValidDescriptor(ctr.register)
  {
    RegisterOptions(ctr.register) != []
    && ((e == MissingEvent(ctr.event) && ctr.event !in measured)
        || (e == NotACounterMap(ctr.event) && ctr.event in measured && measured[ctr.event].Metric?))
  }

  /** The loop fails only on a symbol whose candidate loop raises. */
  lemma {:induction false} BindingsFailure<F>(bound: map<string, int>, symbols: Symbols, measured: Results<F>)
    requires ValidSymbols(symbols) && Bindings(bound, symbols, measured).Failure?
    ensures exists i :: 0 <= i < |symbols| && RaisedBy(Bindings(bound, symbols, measured).error, symbols[i].1, measured)
    decreases |symbols|
  {
    var e := Bindings(bound, symbols, measured).error;
    match BindSymbol(bound, symbols[0].0, symbols[0].1, measured)
    case Failure(_) =>
      assert RaisedBy(e, symbols[0].1, measured);
    case Success(b) =>
      assert ValidSymbols(symbols[1..]) by {
        forall i | 0 <= i < |symbols[1..]| ensures ValidDescriptor(symbols[1..][i].1.register) {
          assert symbols[1..][i] == symbols[i + 1];
        }
      }
      BindingsFailure(b, symbols[1..], measured);
      var i :| 0 <= i < |symbols[1..]| && RaisedBy(e, symbols[1..][i].1, measured);
      assert symbols[1..][i] == symbols[i + 1];
  }
  // ---------------------------------------------------------------------------
  // What the whole symbol loop binds.

  /** The symbols are the keys of `event_counters`, so no name occurs twice. */
  predicate DistinctNames(symbols: Symbols) {
    forall i, j :: 0 <= i < j < |symbols| ==> symbols[i].0 != symbols[j].0
  }

  /** What `b` holds for `sym` after its candidate loop ran on top of `bound`: the
      counter of the last measured candidate when one was measured, and otherwise
      whatever `bound` held. A candidate loop that ran at all found its event's
      counters. */
  ghost predicate BoundAsMeasured<F>(bound: map<string, int>, b: map<string, int>, sym: string, ctr: EventTuple, measured: Results<F>)
    requires ValidDescriptor(ctr.register)
  {
    var regs := RegisterOptions(ctr.register);
    (regs != [] ==> ctr.event in measured && measured[ctr.event].Counters?)
    && if regs != [] && LastPresent(regs, measured[ctr.event].registers).Some? then
         sym in b && b[sym] == LastPresent(regs, measured[ctr.event].registers).value
       else
         (sym in b <==> sym in bound) && (sym in b ==> b[sym] == bound[sym])
  }

  lemma ValidSymbolsTail(symbols: Symbols)
    requires ValidSymbols(symbols) && symbols != []
    ensures ValidSymbols(symbols[1..])
  {
    forall i | 0 <= i < |symbols[1..]| ensures ValidDescriptor(symbols[1..][i].1.register) {
      assert symbols[1..][i] == symbols[i + 1];
    }
  }

  /** The symbol loop never touches a name that is not one of its symbols. */
  lemma {:induction false} BindingsFrame<F>(bound: map<string, int>, symbols: Symbols, measured: Results<F>, b: map<string, int>, s: string)
    requires ValidSymbols(symbols) && Bindings(bound, symbols, measured) == Success(b)
    requires forall k :: 0 <= k < |symbols| ==> symbols[k].0 != s
    ensures (s in b <==> s in bound) && (s in b ==> b[s] == bound[s])
    decreases |symbols|
  {
    if symbols != [] {
      var b1 := BindSymbol(bound, symbols[0].0, symbols[0].1, measured).value;
      ValidSymbolsTail(symbols);
      forall k | 0 <= k < |symbols[1..]| ensures symbols[1..][k].0 != s {
        assert symbols[1..][k] == symbols[k + 1];
      }
      BindSymbolOther(bound, symbols[0].0, symbols[0].1, measured, s);
      BindingsFrame(b1, symbols[1..], measured, b, s);
    }
  }

  /** After the whole symbol loop, every symbol holds what its own candidate loop bound,
      since no later symbol has the same name. */
  lemma {:induction false} BindingsAt<F>(bound: map<string, int>, symbols: Symbols, measured: Results<F>, b: map<string, int>, i: nat)
    requires ValidSymbols(symbols) && DistinctNames(symbols) && Bindings(bound, symbols, measured) == Success(b)
    requires i < |symbols|
    ensures BoundAsMeasured(bound, b, symbols[i].0, symbols[i].1, measured)
    decreases |symbols|
  {
    var (sym, ctr) := symbols[0];
    var b1 := BindSymbol(bound, sym, ctr, measured).value;
    ValidSymbolsTail(symbols);
    DistinctNamesTail(symbols);
    if i == 0 {
      BindSymbolBound(bound, sym, ctr, measured);
      BindingsFrame(b1, symbols[1..], measured, b, sym);
    } else {
      BindingsAt(b1, symbols[1..], measured, b, i - 1);
      assert symbols[1..][i - 1] == symbols[i];
      BindSymbolOther(bound, sym, ctr, measured, symbols[i].0);
      BoundThrough(bound, b1, b, symbols[i].0, symbols[i].1, measured);
    }
  }

  lemma DistinctNamesTail(symbols: Symbols)
    requires DistinctNames(symbols) && symbols != []
    ensures DistinctNames(symbols[1..])
    ensures forall k :: 0 <= k < |symbols[1..]| ==> symbols[1..][k].0 != symbols[0].0
  {
    forall p, q | 0 <= p < q < |symbols[1..]| ensures symbols[1..][p].0 != symbols[1..][q].0 {
      assert symbols[1..][p] == symbols[p + 1] && symbols[1..][q] == symbols[q + 1];
    }
    forall k | 0 <= k < |symbols[1..]| ensures symbols[1..][k].0 != symbols[0].0 {
      assert symbols[1..][k] == symbols[k + 1];
    }
  }

  /** One turn binds its own symbol as measured. */
  lemma BindSymbolBound<F>(bound: map<string, int>, sym: string, ctr: EventTuple, measured: Results<F>)
    requires ValidDescriptor(ctr.register) && BindSymbol(bound, sym, ctr, measured).Success?
    ensures BoundAsMeasured(bound, BindSymbol(bound, sym, ctr, measured).value, sym, ctr, measured)
  {
  }

  /** One turn leaves every other name as it was. */
  lemma BindSymbolOther<F>(bound: map<string, int>, sym: string, ctr: EventTuple, measured: Results<F>, s: string)
    requires ValidDescriptor(ctr.register) && BindSymbol(bound, sym, ctr, measured).Success? && s != sym
    ensures var b1 := BindSymbol(bound, sym, ctr, measured).value;
      (s in b1 <==> s in bound) && (s in b1 ==> b1[s] == bound[s])
  {
  }

  /** A map that agrees with `bound` on `sym` may stand in for it. */
  lemma BoundThrough<F>(bound: map<string, int>, b1: map<string, int>, b: map<string, int>, sym: string, ctr: EventTuple, measured: Results<F>)
    requires ValidDescriptor(ctr.register) && BoundAsMeasured(b1, b, sym, ctr, measured)
    requires (sym in b1 <==> sym in bound) && (sym in b1 ==> b1[sym] == bound[sym])
    ensures BoundAsMeasured(bound, b, sym, ctr, measured)
  {
  }

  /** `event_counter_results` after the loop: a symbol with candidate registers is bound
      exactly when one of them was measured for its event, to the counter of the last
      one measured; a symbol without candidates stays unbound. */
  lemma BindingsFinal<F>(symbols: Symbols, measured: Results<F>, b: map<string, int>, i: nat)
    requires ValidSymbols(symbols) && DistinctNames(symbols) && Bindings(map[], symbols, measured) == Success(b)
    requires i < |symbols|
    ensures var (sym, ctr) := symbols[i];
      var regs := RegisterOptions(ctr.register);
      if regs == [] then sym !in b
      else
        ctr.event in measured && measured[ctr.event].Counters?
        && (sym in b <==> LastPresent(regs, measured[ctr.event].registers).Some?)
        && (sym in b ==> b[sym] == LastPresent(regs, measured[ctr.event].registers).value)
  {
    BindingsAt(map[], symbols, measured, b, i);
  }
}
