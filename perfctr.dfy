/** The parsing half of `Benchmark.perfctr`: the CSV-like lines that `likwid-perfctr`
    prints become a dictionary from names to metric values (`float`) or to per-register
    raw counters (`int`). Python's `float()` is a parameter of the model; Python's `int()`
    on text is modelled here. */
module PerfctrOutput {
  import opened Wrappers
  import opened Strings

  // ---------------------------------------------------------------------------
  // Python's `int(text)`, base 10.

  /** The characters Python's `int()` skips around the number: the ASCII whitespace
      `\t \n \v \f \r` and space, and the non-ASCII characters Python counts as
      whitespace. */
  predicate IsSpace(c: char) {
    c == ' ' || (9 <= c as int <= 13)
    || c as int == 0x85 || c as int == 0xA0 || c as int == 0x1680
    || (0x2000 <= c as int <= 0x200A)
    || c as int == 0x2028 || c as int == 0x2029 || c as int == 0x202F
    || c as int == 0x205F || c as int == 0x3000
  }

  function TrimStart(s: string): (r: string)
    ensures r == [] || !IsSpace(r[0])
    ensures |r| <= |s| && r == s[|s| - |r|..]
    decreases |s|
  {
    if s != [] && IsSpace(s[0]) then TrimStart(s[1..]) else s
  }

  function TrimEnd(s: string): (r: string)
    ensures r == [] || !IsSpace(r[|r| - 1])
    ensures |r| <= |s| && r == s[..|r|]
    decreases |s|
  {
    if s != [] && IsSpace(s[|s| - 1]) then TrimEnd(s[..|s| - 1]) else s
  }

  /** `s.strip()`: leading and trailing whitespace removed. */
  function Strip(s: string): string {
    TrimEnd(TrimStart(s))
  }

  predicate IsDigit(c: char) {
    '0' <= c <= '9'
  }

  /** The digits of a base-10 literal: digits, with single underscores between them
      (no leading, trailing or doubled underscore). */
  predicate ValidDigits(d: string) {
    d != [] && IsDigit(d[0]) && IsDigit(d[|d| - 1])
    && (forall i :: 0 <= i < |d| ==> IsDigit(d[i]) || d[i] == '_')
    && (forall i :: 0 <= i < |d| - 1 ==> d[i] == '_' ==> d[i + 1] != '_')
  }

  /** The value of a run of digits, underscores ignored. */
  function DigitsValue(d: string): nat
    decreases |d|
  {
    if d == [] then 0
    else
      var last := d[|d| - 1];
      if IsDigit(last) then DigitsValue(d[..|d| - 1]) * 10 + (last as int - '0' as int)
      else DigitsValue(d[..|d| - 1])
  }

  /** `int(s)`: `None` where Python raises `ValueError`. */
  function ParseInt(s: string): Option<int> {
    ParseStripped(Strip(s))
  }

  /** The number after whitespace is stripped: an optional sign, then digits. */
  function ParseStripped(t: string): Option<int> {
    if t != [] && (t[0] == '+' || t[0] == '-') then
      if ValidDigits(t[1..]) then
        Some(if t[0] == '-' then -(DigitsValue(t[1..]) as int) else DigitsValue(t[1..]))
      else None
    else if ValidDigits(t) then Some(DigitsValue(t))
    else None
  }

  /** `str(n)` for `n >= 0`. */
  function NatString(n: nat): (r: string)
    ensures r != [] && forall i :: 0 <= i < |r| ==> IsDigit(r[i])
    decreases n
  {
    if n < 10 then [('0' as int + n) as char]
    else NatString(n / 10) + [('0' as int + n % 10) as char]
  }

  /** `str(n)`. */
  function IntString(n: int): string {
    if n < 0 then "-" + NatString(-n) else NatString(n)
  }

  lemma {:induction false} NatStringValue(n: nat)
    ensures ValidDigits(NatString(n)) && DigitsValue(NatString(n)) == n
    decreases n
  {
    var r := NatString(n);
    if n >= 10 {
      NatStringValue(n / 10);
      assert r[..|r| - 1] == NatString(n / 10);
    }
  }

  /** `int(str(n)) == n`. */
  lemma IntStringRoundTrip(n: int)
    ensures ParseInt(IntString(n)) == Some(n)
  {
    IntStringStripped(n);
    if n < 0 {
      NegativeString(-n);
    } else {
      NatStringRead(n);
    }
  }

  /** The numeral of a non-negative number reads back unsigned. */
  lemma NatStringRead(n: nat)
    ensures ParseStripped(NatString(n)) == Some(n)
  {
    NatStringValue(n);
    var s := NatString(n);
    assert IsDigit(s[0]);
  }

  /** `str(n)` carries no whitespace to strip. */
  lemma IntStringStripped(n: int)
    ensures Strip(IntString(n)) == IntString(n)
  {
    var s := IntString(n);
    assert s[0] == '-' || IsDigit(s[0]);
    assert IsDigit(s[|s| - 1]);
    StripTrimmed(s);
  }

  /** The numeral of a negative number reads back with its sign. */
  lemma NegativeString(m: nat)
    requires m > 0
    ensures ParseStripped("-" + NatString(m)) == Some(-(m as int))
  {
    NatStringValue(m);
    assert ("-" + NatString(m))[1..] == NatString(m);
  }

  /** Whitespace around a number does not change what `int()` reads. */
  lemma ParseIntPadded(pre: string, s: string, post: string)
    requires forall i :: 0 <= i < |pre| ==> IsSpace(pre[i])
    requires forall i :: 0 <= i < |post| ==> IsSpace(post[i])
    requires s != [] && !IsSpace(s[0]) && !IsSpace(s[|s| - 1])
    ensures ParseInt(pre + s + post) == ParseInt(s)
  {
    StripPadded(pre, s, post);
  }

  lemma StripPadded(pre: string, s: string, post: string)
    requires forall i :: 0 <= i < |pre| ==> IsSpace(pre[i])
    requires forall i :: 0 <= i < |post| ==> IsSpace(post[i])
    requires s != [] && !IsSpace(s[0]) && !IsSpace(s[|s| - 1])
    ensures Strip(pre + s + post) == s && Strip(s) == s
  {
    TrimStartPadded(pre, s, post);
    TrimEndSpaces(s, post);
    StripTrimmed(s);
  }

  lemma TrimStartPadded(pre: string, s: string, post: string)
    requires forall i :: 0 <= i < |pre| ==> IsSpace(pre[i])
    requires s != [] && !IsSpace(s[0])
    ensures TrimStart(pre + s + post) == s + post
  {
    assert (s + post)[0] == s[0];
    TrimStartSpaces(pre, s + post);
    assert pre + s + post == pre + (s + post);
  }

  lemma StripTrimmed(s: string)
    requires s != [] && !IsSpace(s[0]) && !IsSpace(s[|s| - 1])
    ensures Strip(s) == s
  {
    assert TrimStart(s) == s;
    TrimEndSpaces(s, []);
    assert s + [] == s;
  }

  lemma {:induction false} TrimStartSpaces(pre: string, t: string)
    requires forall i :: 0 <= i < |pre| ==> IsSpace(pre[i])
    requires t != [] && !IsSpace(t[0])
    ensures TrimStart(pre + t) == t
    decreases |pre|
  {
    if pre != [] {
      assert (pre + t)[1..] == pre[1..] + t;
      TrimStartSpaces(pre[1..], t);
    } else {
      assert pre + t == t;
    }
  }

  lemma {:induction false} TrimEndSpaces(t: string, post: string)
    requires forall i :: 0 <= i < |post| ==> IsSpace(post[i])
    requires t != [] && !IsSpace(t[|t| - 1])
    ensures TrimEnd(t + post) == TrimEnd(t) && TrimEnd(t) == t
    decreases |post|
  {
    if post != [] {
      var post' := post[..|post| - 1];
      assert (t + post)[..|t + post| - 1] == t + post';
      TrimEndSpaces(t, post');
    } else {
      assert t + post == t;
    }
  }

  // ---------------------------------------------------------------------------
  // The result dictionary.

  /** A value of the result dictionary: a metric read by `float()`, or the raw counters
      of an event by register name. */
  datatype Value<F> = Metric(metric: F) | Counters(registers: map<string, int>)

  /** The exception the loop does not catch: a counter line for a name whose value is
      a float, which does not support item assignment (`TypeError`). */
  datatype ParseError = FloatNotSubscriptable(name: string)

  type Results<F> = map<string, Value<F>>

  predicate IsUpperOrDigit(c: char) {
    'A' <= c <= 'Z' || IsDigit(c)
  }

  /** `re.fullmatch(r'[A-Z0-9_]+', s)`. */
  predicate IsEventName(s: string) {
    s != [] && forall i :: 0 <= i < |s| ==> IsUpperOrDigit(s[i]) || s[i] == '_'
  }

  /** `re.fullmatch(r'[A-Z0-9]+', s)`. */
  predicate IsRegisterName(s: string) {
    s != [] && forall i :: 0 <= i < |s| ==> IsUpperOrDigit(s[i])
  }

  /** The fields of a line that a counter line needs: an event name, a register name and
      an integer. */
  predicate IsCounterLine(fields: seq<string>) {
    |fields| >= 3 && ParseInt(fields[2]).Some? && IsEventName(fields[0]) && IsRegisterName(fields[1])
  }

  /** The metric half of the loop body: `results[line[0]] = float(line[1])`, skipped
      when `float()` raises `ValueError`. */
  function MetricStep<F>(results: Results<F>, fields: seq<string>, asFloat: string -> Option<F>): Results<F>
    requires |fields| >= 2
  {
    match asFloat(fields[1])
    case Some(x) => results[fields[0] := Metric(x)]
    case None => results
  }

  /** The counter half: `results.setdefault(line[0], {})[line[1]] = int(line[2])`, for
      counter lines only. */
  function CounterStep<F>(results: Results<F>, fields: seq<string>): Result<Results<F>, ParseError>
    requires |fields| >= 2
  {
    if !IsCounterLine(fields) then Success(results)
    else
      var name, register, value := fields[0], fields[1], ParseInt(fields[2]).value;
      if name !in results then Success(results[name := Counters(map[register := value])])
      else match results[name]
        case Metric(_) => Failure(FloatNotSubscriptable(name))
        case Counters(m) => Success(results[name := Counters(m[register := value])])
  }

  /** One pass of the loop body for one line of output. */
  function Step<F>(results: Results<F>, line: string, asFloat: string -> Option<F>): Result<Results<F>, ParseError> {
    var fields := Split(line, ',');
    if |fields| < 2 then Success(results)
    else CounterStep(MetricStep(results, fields, asFloat), fields)
  }

  /** The whole loop over the lines, stopping at the first uncaught exception. */
  function ParseLines<F>(results: Results<F>, lines: seq<string>, asFloat: string -> Option<F>): Result<Results<F>, ParseError>
    decreases |lines|
  {
    if lines == [] then Success(results)
    else
      match Step(results, lines[0], asFloat)
      case Failure(e) => Failure(e)
      case Success(r) => ParseLines(r, lines[1..], asFloat)
  }

  /** The parsing loop of `perfctr`: the output is split into lines and each line into
      fields on commas; the dictionary starts empty and is filled line by line. */
  method ParseOutput<F>(output: string, asFloat: string -> Option<F>) returns (res: Result<Results<F>, ParseError>)
    ensures res == ParseLines(map[], Split(output, '\n'), asFloat)
  {
    var lines := Split(output, '\n');
    var results: Results<F> := map[];
    for i := 0 to |lines|
      invariant ParseLines(map[], lines, asFloat) == ParseLines(results, lines[i..], asFloat)
    {
      ParseLinesUnfold(results, lines, i, asFloat);
      var step := ParseLine(results, lines[i], asFloat);
      if step.Failure? {
        return Failure(step.error);
      }
      results := step.value;
    }
    assert lines[|lines|..] == [];
    return Success(results);
  }

  /** The loop body for one line, updating a copy of the results in place. */
  method ParseLine<F>(results0: Results<F>, line: string, asFloat: string -> Option<F>)
    returns (res: Result<Results<F>, ParseError>)
    ensures res == Step(results0, line, asFloat)
  {
    var results := results0;
    var fields := Split(line, ',');
    if |fields| < 2 {
      return Success(results);
    }
    match asFloat(fields[1]) {
      case Some(x) =>
        results := results[fields[0] := Metric(x)];
      case None =>
    }
    assert Step(results0, line, asFloat) == CounterStep(results, fields);
    res := CountLine(results, fields);
  }

  /** The counter half of the loop body, on the fields of one line. */
  method CountLine<F>(results0: Results<F>, fields: seq<string>) returns (res: Result<Results<F>, ParseError>)
    requires |fields| >= 2
    ensures res == CounterStep(results0, fields)
  {
    var results := results0;
    if |fields| >= 3 && ParseInt(fields[2]).Some? {
      var value := ParseInt(fields[2]).value;
      if IsEventName(fields[0]) && IsRegisterName(fields[1]) {
        if fields[0] !in results {
          results := results[fields[0] := Counters(map[])];
        }
        var entry := results[fields[0]];
        if entry.Metric? {
          return Failure(FloatNotSubscriptable(fields[0]));
        }
        results := results[fields[0] := Counters(entry.registers[fields[1] := value])];
        if fields[0] !in results0 {
          assert entry.registers[fields[1] := value] == map[fields[1] := value];
          assert results == results0[fields[0] := Counters(map[fields[1] := value])];
        }
      }
    }
    return Success(results);
  }

  /** One iteration of the fold. */
  lemma ParseLinesUnfold<F>(results: Results<F>, lines: seq<string>, i: nat, asFloat: string -> Option<F>)
    requires i < |lines|
    ensures ParseLines(results, lines[i..], asFloat) ==
      match Step(results, lines[i], asFloat)
      case Failure(e) => Failure(e)
      case Success(r) => ParseLines(r, lines[i + 1..], asFloat)
  {
    assert lines[i..][0] == lines[i] && lines[i..][1..] == lines[i + 1..];
  }

  // ---------------------------------------------------------------------------
  // What one line does.

  /** A line without a comma is skipped. */
  lemma StepNoComma<F>(results: Results<F>, line: string, asFloat: string -> Option<F>)
    requires ',' !in line
    ensures Step(results, line, asFloat) == Success(results)
  {
    SplitNoSeparator(line, ',');
  }

  /** A line whose second field reads as a float records that metric under its first
      field; the line fails exactly when it is also a counter line, since the counter
      half then finds a float under that name. */
  lemma StepMetric<F>(results: Results<F>, line: string, asFloat: string -> Option<F>, x: F)
    requires |Split(line, ',')| >= 2 && asFloat(Split(line, ',')[1]) == Some(x)
    ensures var fields := Split(line, ',');
      Step(results, line, asFloat) ==
        if IsCounterLine(fields) then Failure(FloatNotSubscriptable(fields[0]))
        else Success(results[fields[0] := Metric(x)])
  {
  }

  /** A counter line whose second field is not a float adds its counter to the event's
      dictionary, creating it if needed, and fails when the event holds a metric. */
  lemma StepCounter<F>(results: Results<F>, line: string, asFloat: string -> Option<F>)
    requires |Split(line, ',')| >= 2 && asFloat(Split(line, ',')[1]).None?
    requires IsCounterLine(Split(line, ','))
    ensures var fields := Split(line, ',');
      var name, value := fields[0], ParseInt(fields[2]).value;
      Step(results, line, asFloat) ==
        if name !in results then Success(results[name := Counters(map[fields[1] := value])])
        else if results[name].Metric? then Failure(FloatNotSubscriptable(name))
        else Success(results[name := Counters(results[name].registers[fields[1] := value])])
  {
  }

  /** A line that is neither a metric nor a counter line adds nothing. */
  lemma StepIgnored<F>(results: Results<F>, line: string, asFloat: string -> Option<F>)
    requires |Split(line, ',')| < 2 || (asFloat(Split(line, ',')[1]).None? && !IsCounterLine(Split(line, ',')))
    ensures Step(results, line, asFloat) == Success(results)
  {
  }

  /** A line changes at most the entry named by its first field. */
  lemma StepFrame<F>(results: Results<F>, line: string, asFloat: string -> Option<F>)
    requires Step(results, line, asFloat).Success?
    ensures var r := Step(results, line, asFloat).value;
      var fields := Split(line, ',');
      results.Keys <= r.Keys
      && (forall k :: k in r && (|fields| < 2 || k != fields[0]) ==> k in results && r[k] == results[k])
  {
    var fields := Split(line, ',');
    if |fields| >= 2 {
      var m := MetricStep(results, fields, asFloat);
      CounterFrame(m, fields);
    }
  }

  /** The counter half keeps every name and changes only the line's own name. */
  lemma CounterFrame<F>(results: Results<F>, fields: seq<string>)
    requires |fields| >= 2 && CounterStep(results, fields).Success?
    ensures var r := CounterStep(results, fields).value;
      results.Keys <= r.Keys && forall k :: k in r && k != fields[0] ==> k in results && r[k] == results[k]
  {
    if IsCounterLine(fields) {
      var name, register, value := fields[0], fields[1], ParseInt(fields[2]).value;
      if name !in results {
        UpdateFrame(results, name, Counters(map[register := value]));
      } else {
        UpdateFrame(results, name, Counters(results[name].registers[register := value]));
      }
    }
  }

  /** Storing under one name keeps every name and every other entry. */
  lemma UpdateFrame<F>(results: Results<F>, name: string, v: Value<F>)
    ensures results.Keys <= results[name := v].Keys
    ensures forall k :: k in results[name := v] && k != name ==> k in results && results[name := v][k] == results[k]
  {
  }

  // ---------------------------------------------------------------------------
  // What the whole loop does.

  /** The loop over `a + b` is the loop over `a` followed by the loop over `b`. */
  lemma {:induction false} ParseLinesAppend<F>(results: Results<F>, a: seq<string>, b: seq<string>, asFloat: string -> Option<F>)
    ensures ParseLines(results, a + b, asFloat) ==
      match ParseLines(results, a, asFloat)
      case Success(r) => ParseLines(r, b, asFloat)
      case Failure(e) => Failure(e)
    decreases |a|
  {
    if a == [] {
      assert a + b == b;
    } else {
      assert (a + b)[0] == a[0] && (a + b)[1..] == a[1..] + b;
      match Step(results, a[0], asFloat)
      case Failure(e) =>
      case Success(r) => ParseLinesAppend(r, a[1..], b, asFloat);
    }
  }

  /** The first field of a line with a comma. */
  predicate NamedBy(line: string, k: string) {
    |Split(line, ',')| >= 2 && Split(line, ',')[0] == k
  }

  /** Keys are never removed, and every new key is the first field of some line. */
  lemma {:induction false} ParseLinesKeys<F>(results: Results<F>, lines: seq<string>, asFloat: string -> Option<F>)
    requires ParseLines(results, lines, asFloat).Success?
    ensures results.Keys <= ParseLines(results, lines, asFloat).value.Keys
    ensures forall k :: k in ParseLines(results, lines, asFloat).value && k !in results ==>
      exists i :: 0 <= i < |lines| && NamedBy(lines[i], k)
    ensures forall k :: k in results && (forall i :: 0 <= i < |lines| ==> !NamedBy(lines[i], k)) ==>
      k in ParseLines(results, lines, asFloat).value && ParseLines(results, lines, asFloat).value[k] == results[k]
    decreases |lines|
  {
    if lines != [] {
      var r := Step(results, lines[0], asFloat).value;
      StepFrame(results, lines[0], asFloat);
      ParseLinesKeys(r, lines[1..], asFloat);
      var final := ParseLines(results, lines, asFloat).value;
      forall k | k in final && k !in results
        ensures exists i :: 0 <= i < |lines| && NamedBy(lines[i], k)
      {
        if k in r {
          assert NamedBy(lines[0], k);
        } else {
          var i :| 0 <= i < |lines[1..]| && NamedBy(lines[1..][i], k);
          assert NamedBy(lines[i + 1], k);
        }
      }
      forall k | k in results && (forall i :: 0 <= i < |lines| ==> !NamedBy(lines[i], k))
        ensures k in final && final[k] == results[k]
      {
        assert !NamedBy(lines[0], k);
        assert forall i :: 0 <= i < |lines[1..]| ==> !NamedBy(lines[1..][i], k) by {
          forall i | 0 <= i < |lines[1..]| ensures !NamedBy(lines[1..][i], k) {
            assert lines[1..][i] == lines[i + 1];
          }
        }
      }
    }
  }

  /** The loop fails only on a counter line whose event already holds a metric. */
  lemma {:induction false} ParseLinesFailure<F>(results: Results<F>, lines: seq<string>, asFloat: string -> Option<F>)
    requires ParseLines(results, lines, asFloat).Failure?
    ensures exists i ::
      0 <= i < |lines| && NamedBy(lines[i], ParseLines(results, lines, asFloat).error.name) && IsCounterLine(Split(lines[i], ','))
    decreases |lines|
  {
    var e := ParseLines(results, lines, asFloat).error;
    match Step(results, lines[0], asFloat)
    case Failure(_) =>
      assert NamedBy(lines[0], e.name) && IsCounterLine(Split(lines[0], ','));
    case Success(r) =>
      ParseLinesFailure(r, lines[1..], asFloat);
      var i :| 0 <= i < |lines[1..]| && NamedBy(lines[1..][i], e.name) && IsCounterLine(Split(lines[1..][i], ','));
      assert lines[1..][i] == lines[i + 1];
  }
}
