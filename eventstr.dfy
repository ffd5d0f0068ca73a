/** `eventstr`: the LIKWID event string of an event tuple,
    `EVENT:REGISTER[:KEY[=0xHEX]]...`, with the parameters in ascending key order. */
module EventStrings {
  import opened Wrappers
  import opened Strings

  /** The parameters of an event. A value is `Some(n)` when it is a Python `int` and
      `None` for every other value (rendered as the bare key). */
  type Parameters = map<string, Option<int>>

  /** An `(event, register, parameters)` tuple; a two-element tuple has no parameters. */
  datatype EventTuple = EventTuple(event: string, register: string, parameters: Option<Parameters>)

  // ---------------------------------------------------------------------------
  // Python's `hex`.

  predicate IsHexDigit(c: char) {
    '0' <= c <= '9' || 'a' <= c <= 'f'
  }

  predicate AllHexDigits(s: string) {
    forall i :: 0 <= i < |s| ==> IsHexDigit(s[i])
  }

  function DigitValue(c: char): (d: nat)
    requires IsHexDigit(c)
    ensures d < 16
  {
    if c <= '9' then c as int - '0' as int else c as int - 'a' as int + 10
  }

  /** The lowercase digit for `d`. */
  function HexDigit(d: nat): (c: char)
    requires d < 16
    ensures IsHexDigit(c) && DigitValue(c) == d
  {
    if d < 10 then ('0' as int + d) as char else ('a' as int + d - 10) as char
  }

  /** The number a string of hex digits stands for, most significant digit first. */
  function HexValue(s: string): nat
    requires AllHexDigits(s)
    decreases |s|
  {
    if s == [] then 0 else HexValue(s[..|s| - 1]) * 16 + DigitValue(s[|s| - 1])
  }

  /** The digits of `n` in base 16: lowercase, no leading zero, and reading back as `n`. */
  function HexDigits(n: nat): (r: string)
    ensures r != [] && AllHexDigits(r)
    ensures r[0] == '0' ==> r == "0"
    ensures HexValue(r) == n
    decreases n
  {
    if n < 16 then [HexDigit(n)]
    else
      var front := HexDigits(n / 16);
      var r := front + [HexDigit(n % 16)];
      assert r[..|r| - 1] == front;
      r
  }

  /** Python's `hex(v)`: `0x` and the digits, with a leading `-` for a negative value. */
  function Hex(v: int): (r: string)
    ensures ParseHex(r) == Some(v)
    ensures ':' !in r && '=' !in r
  {
    if v < 0 then
      var digits := HexDigits(-v);
      var r := "-0x" + digits;
      assert r[..2] != "0x" by { assert r[0] == '-'; }
      assert r[..3] == "-0x" && r[3..] == digits;
      r
    else
      var digits := HexDigits(v);
      var r := "0x" + digits;
      assert r[..2] == "0x" && r[2..] == digits;
      r
  }

  /** Reads back what `hex` writes: `0x` or `-0x` followed by hex digits. */
  function ParseHex(s: string): Option<int> {
    if |s| > 2 && s[..2] == "0x" && AllHexDigits(s[2..]) then Some(HexValue(s[2..]))
    else if |s| > 3 && s[..3] == "-0x" && AllHexDigits(s[3..]) then Some(-(HexValue(s[3..]) as int))
    else None
  }

  // ---------------------------------------------------------------------------
  // `sorted(parameters.items())`: the keys are distinct, so the items are ordered by key.

  /** Strictly ascending in Python's string order. */
  predicate Ascending(r: seq<string>) {
    forall i, j :: 0 <= i < j < |r| ==> Less(r[i], r[j])
  }

  /** `k` is the smallest key of `ks`. */
  predicate IsLeast(k: string, ks: set<string>) {
    k in ks && forall j :: j in ks && j != k ==> Less(k, j)
  }

  lemma {:induction false} LeastExists(ks: set<string>)
    requires ks != {}
    ensures exists k :: IsLeast(k, ks)
    decreases |ks|
  {
    var x :| x in ks;
    var others := ks - {x};
    if others == {} {
      assert ks == {x};
      assert IsLeast(x, ks);
    } else {
      LeastExists(others);
      var m :| IsLeast(m, others);
      LessTotal(x, m);
      if Less(x, m) {
        forall j | j in ks && j != x
          ensures Less(x, j)
        {
          if j != m {
            LessTransitive(x, m, j);
          }
        }
        assert IsLeast(x, ks);
      } else {
        assert IsLeast(m, ks);
      }
    }
  }

  lemma LeastUnique(ks: set<string>)
    ensures forall a, b :: IsLeast(a, ks) && IsLeast(b, ks) ==> a == b
  {
    forall a, b | IsLeast(a, ks) && IsLeast(b, ks)
      ensures a == b
    {
      LessAsymmetric(a, b);
    }
  }

  /** `r` lists exactly the keys of `ks`. */
  predicate Lists(r: seq<string>, ks: set<string>) {
    (forall i :: 0 <= i < |r| ==> r[i] in ks) && (forall k :: k in ks ==> k in r)
  }

  /** The keys of `ks` in ascending order, each once. */
  function SortedKeys(ks: set<string>): (r: seq<string>)
    ensures |r| == |ks| && Lists(r, ks) && Ascending(r)
    decreases |ks|
  {
    if ks == {} then []
    else
      LeastExists(ks);
      LeastUnique(ks);
      var k :| IsLeast(k, ks);
      var rest := SortedKeys(ks - {k});
      assert forall i :: 0 <= i < |rest| ==> Less(k, rest[i]);
      [k] + rest
  }

  /** The first sorted key is the least key, followed by the sorted rest. */
  lemma SortedKeysHead(ks: set<string>)
    requires ks != {}
    ensures IsLeast(SortedKeys(ks)[0], ks)
    ensures SortedKeys(ks) == [SortedKeys(ks)[0]] + SortedKeys(ks - {SortedKeys(ks)[0]})
  {
    LeastExists(ks);
    LeastUnique(ks);
  }

  /** The head of an ascending listing of `ks` is its least key, and the tail lists the rest. */
  lemma AscendingHead(r: seq<string>, ks: set<string>)
    requires r != [] && Ascending(r) && Lists(r, ks)
    ensures IsLeast(r[0], ks)
    ensures Ascending(r[1..]) && Lists(r[1..], ks - {r[0]})
  {
    forall j | j in ks && j != r[0]
      ensures Less(r[0], j)
    {
      var i :| 0 <= i < |r| && r[i] == j;
      assert i != 0;
    }
    var tail := r[1..];
    forall i | 0 <= i < |tail|
      ensures tail[i] in ks - {r[0]}
    {
      assert Less(r[0], r[i + 1]);
      LessIrreflexive(r[0]);
    }
    forall k | k in ks - {r[0]}
      ensures k in tail
    {
      var i :| 0 <= i < |r| && r[i] == k;
      assert i != 0;
      assert tail[i - 1] == k;
    }
  }

  /** Sorting is reproducible: the one ascending listing of a set of keys is `SortedKeys`. */
  lemma {:induction false} SortedKeysUnique(r: seq<string>, ks: set<string>)
    requires Ascending(r) && Lists(r, ks)
    ensures r == SortedKeys(ks)
    decreases |r|
  {
    if r == [] {
      assert ks == {};
    } else {
      AscendingHead(r, ks);
      SortedKeysHead(ks);
      LeastUnique(ks);
      assert SortedKeys(ks)[0] == r[0];
      SortedKeysUnique(r[1..], ks - {r[0]});
      assert r == [r[0]] + r[1..];
    }
  }

  // ---------------------------------------------------------------------------
  // The event string.

  /** One parameter as rendered: `key=0x..` for an `int` value, the bare key otherwise. */
  function Item(k: string, v: Option<int>): string {
    match v
    case Some(n) => k + "=" + Hex(n)
    case None => k
  }

  /** The parameters named by `ks`, rendered in that order. */
  function RenderItems(ks: seq<string>, p: Parameters): (r: seq<string>)
    requires forall i :: 0 <= i < |ks| ==> ks[i] in p
    ensures |r| == |ks|
  {
    seq(|ks|, i requires 0 <= i < |ks| => Item(ks[i], p[ks[i]]))
  }

  /** The rendered parameters, in ascending key order. */
  function ParamItems(p: Parameters): (r: seq<string>)
    ensures |r| == |p|
  {
    RenderItems(SortedKeys(p.Keys), p)
  }

  /** `eventstr(e)`: event, register and (when the parameters are present and non-empty)
      the rendered parameters, joined by `:`. */
  function EventString(e: EventTuple): string {
    Join(EventParts(e), ':')
  }

  /** The fields `eventstr` joins: event, register and the rendered parameters, if any. */
  function EventParts(e: EventTuple): seq<string> {
    [e.event, e.register] + (if e.parameters.Some? then ParamItems(e.parameters.value) else [])
  }

  /** What `eventstr` renders when there are no parameters to show. */
  lemma EventStringPlain(e: EventTuple)
    requires e.parameters.None? || e.parameters.value == map[]
    ensures EventString(e) == e.event + ":" + e.register
  {
    var parts := EventParts(e);
    assert parts == [e.event, e.register];
    assert parts[1..] == [e.register];
    assert Join(parts, ':') == e.event + [':'] + Join([e.register], ':');
  }

  /** With parameters, `eventstr` appends `:` and the rendered items after the register. */
  lemma EventStringWithParameters(e: EventTuple)
    requires e.parameters.Some? && e.parameters.value != map[]
    ensures EventString(e)
      == e.event + ":" + e.register + ":" + Join(ParamItems(e.parameters.value), ':')
  {
    var items := ParamItems(e.parameters.value);
    var parts := EventParts(e);
    assert |items| != 0;
    assert parts[1..][1..] == items;
    assert Join(parts, ':') == e.event + [':'] + Join(parts[1..], ':');
    assert Join(parts[1..], ':') == e.register + [':'] + Join(items, ':');
  }

  // ---------------------------------------------------------------------------
  // Reading an event string back.

  /** Reads back one rendered parameter. */
  function ParseItem(s: string): (string, Option<int>) {
    var parts := Split(s, '=');
    if |parts| == 2 && ParseHex(parts[1]).Some? then (parts[0], ParseHex(parts[1])) else (s, None)
  }

  /** Reads back rendered parameters into a dictionary, later items winning. */
  function ParseItems(items: seq<string>): Parameters
    decreases |items|
  {
    if items == [] then map[]
    else
      var kv := ParseItem(items[|items| - 1]);
      ParseItems(items[..|items| - 1])[kv.0 := kv.1]
  }

  /** Reads back an event string: event, register and any parameters. */
  function ParseEventString(s: string): Option<EventTuple> {
    var fields := Split(s, ':');
    if |fields| < 2 then None
    else if |fields| == 2 then Some(EventTuple(fields[0], fields[1], None))
    else Some(EventTuple(fields[0], fields[1], Some(ParseItems(fields[2..]))))
  }

  /** A key that survives the round trip: it holds neither separator. */
  predicate PlainKey(k: string) {
    ':' !in k && '=' !in k
  }

  /** An event tuple whose fields survive the round trip. */
  predicate PlainEvent(e: EventTuple) {
    ':' !in e.event && ':' !in e.register
    && (e.parameters.Some? ==> forall k :: k in e.parameters.value ==> PlainKey(k))
  }

  /** `None` and an empty dictionary render alike. */
  function Normalized(e: EventTuple): EventTuple {
    if e.parameters == Some(map[]) then e.(parameters := None) else e
  }

  lemma ItemRoundTrip(k: string, v: Option<int>)
    requires PlainKey(k)
    ensures ParseItem(Item(k, v)) == (k, v)
    ensures ':' !in Item(k, v)
  {
    match v
    case Some(n) =>
      var h := Hex(n);
      SplitJoin([k, h], '=');
      assert Join([k, h], '=') == k + "=" + h;
      assert forall c :: c in Item(k, v) ==> c in k || c == '=' || c in h;
    case None =>
      SplitNoSeparator(k, '=');
  }

  /** Reading back the first `j` rendered items gives the first `j` keys with their values. */
  lemma {:induction false} ParseRenderedPrefix(ks: seq<string>, p: Parameters, j: nat)
    requires forall i :: 0 <= i < |ks| ==> ks[i] in p && PlainKey(ks[i])
    requires j <= |ks|
    ensures ReadsBack(ParseItems(RenderItems(ks, p)[..j]), ks[..j], p)
    decreases j
  {
    if j > 0 {
      var items := RenderItems(ks, p);
      ParseRenderedPrefix(ks, p, j - 1);
      ParseItemsLast(items[..j]);
      assert items[..j][..j - 1] == items[..j - 1];
      ItemRoundTrip(ks[j - 1], p[ks[j - 1]]);
      ReadsBackStep(ParseItems(items[..j - 1]), ks, p, j);
    }
  }

  /** `m` holds exactly the keys of `ks`, each with its value in `p`. */
  ghost predicate ReadsBack(m: Parameters, ks: seq<string>, p: Parameters) {
    (forall k :: k in m <==> k in ks)
    && forall k :: k in m ==> k in p && m[k] == p[k]
  }

  lemma ParseItemsLast(items: seq<string>)
    requires items != []
    ensures ParseItems(items) == ParseItems(items[..|items| - 1])[ParseItem(items[|items| - 1]).0 := ParseItem(items[|items| - 1]).1]
  {
  }

  /** Reading back one more item adds the next key with its value. */
  lemma ReadsBackStep(m: Parameters, ks: seq<string>, p: Parameters, j: nat)
    requires 0 < j <= |ks| && ks[j - 1] in p
    requires ReadsBack(m, ks[..j - 1], p)
    ensures ReadsBack(m[ks[j - 1] := p[ks[j - 1]]], ks[..j], p)
  {
    assert ks[..j] == ks[..j - 1] + [ks[j - 1]];
  }

  /** Reading the rendered parameters back gives the dictionary. */
  lemma ParamItemsRoundTrip(p: Parameters)
    requires forall k :: k in p ==> PlainKey(k)
    ensures ParseItems(ParamItems(p)) == p
  {
    var ks := SortedKeys(p.Keys);
    var items := RenderItems(ks, p);
    ParseRenderedPrefix(ks, p, |ks|);
    assert items[..|ks|] == items;
    assert ks[..|ks|] == ks;
    ReadsBackAll(ParseItems(items), ks, p);
  }

  lemma ReadsBackAll(q: Parameters, ks: seq<string>, p: Parameters)
    requires ReadsBack(q, ks, p) && Lists(ks, p.Keys)
    ensures q == p
  {
    forall k | k in p
      ensures k in q && q[k] == p[k]
    {
      assert k in ks;
    }
    assert q.Keys == p.Keys;
  }

  /** No rendered item holds a `:` when no key does. */
  lemma RenderedPlain(ks: seq<string>, p: Parameters)
    requires forall i :: 0 <= i < |ks| ==> ks[i] in p && PlainKey(ks[i])
    ensures forall i :: 0 <= i < |ks| ==> ':' !in RenderItems(ks, p)[i]
  {
    forall i | 0 <= i < |ks|
      ensures ':' !in RenderItems(ks, p)[i]
    {
      ItemRoundTrip(ks[i], p[ks[i]]);
    }
  }

  /** Reading back what `eventstr` renders gives the tuple, as long as no field holds a
      separator; `None` and an empty dictionary both come back as `None`. */
  lemma EventStringRoundTrip(e: EventTuple)
    requires PlainEvent(e)
    ensures ParseEventString(EventString(e)) == Some(Normalized(e))
  {
    var parts := EventParts(e);
    PartsPlain(e);
    SplitJoin(parts, ':');
    if e.parameters.Some? && e.parameters.value != map[] {
      ParamItemsRoundTrip(e.parameters.value);
    } else if e.parameters.Some? {
      assert |parts[2..]| == |e.parameters.value| == 0;
    }
  }

  /** No field `eventstr` joins holds a `:`. */
  lemma PartsPlain(e: EventTuple)
    requires PlainEvent(e)
    ensures forall i :: 0 <= i < |EventParts(e)| ==> ':' !in EventParts(e)[i]
  {
    var parts := EventParts(e);
    if e.parameters.Some? {
      RenderedPlain(SortedKeys(e.parameters.value.Keys), e.parameters.value);
    }
    forall i | 2 <= i < |parts|
      ensures ':' !in parts[i]
    {
      assert parts[i] == parts[2..][i - 2];
    }
  }

  // ---------------------------------------------------------------------------
  // A run as a LIKWID event group.

  /** `','.join([eventstr(e) for e in run])`: the event group measured for one run. */
  function GroupString(run: seq<EventTuple>): string {
    Join(seq(|run|, i requires 0 <= i < |run| => EventString(run[i])), ',')
  }

  /** Splitting the group on `,` gives back each event string in run order, as long as
      no field holds a comma. */
  lemma GroupStringSplit(run: seq<EventTuple>)
    requires |run| >= 1
    requires forall i :: 0 <= i < |run| ==> ',' !in EventString(run[i])
    ensures Split(GroupString(run), ',') == seq(|run|, i requires 0 <= i < |run| => EventString(run[i]))
  {
    SplitJoin(seq(|run|, i requires 0 <= i < |run| => EventString(run[i])), ',');
  }
}

/** The documented examples of `eventstr`. */
module EventStringExamples {
  import opened Wrappers
  import opened Strings
  import opened EventStrings

  lemma NoParametersExample()
    ensures EventString(EventTuple("L1D_REPLACEMENT", "PMC0", None)) == "L1D_REPLACEMENT:PMC0"
  {
    EventStringPlain(EventTuple("L1D_REPLACEMENT", "PMC0", None));
  }

  lemma ThresholdHex()
    ensures Hex(2342) == "0x926"
  {
    assert HexDigits(2342) == "926" by {
      assert HexDigits(9) == "9";
      assert HexDigits(146) == HexDigits(9) + [HexDigit(2)];
      assert HexDigits(2342) == HexDigits(146) + [HexDigit(6)];
    }
  }

  lemma ParametersOrder()
    ensures SortedKeys({"EDGEDETECT", "THRESHOLD"}) == ["EDGEDETECT", "THRESHOLD"]
  {
    var r := ["EDGEDETECT", "THRESHOLD"];
    assert Less(r[0], r[1]);
    SortedKeysUnique(r, {"EDGEDETECT", "THRESHOLD"});
  }

  lemma ParametersJoin()
    ensures Join(["EDGEDETECT", "THRESHOLD=0x926"], ':') == "EDGEDETECT:THRESHOLD=0x926"
  {
    var items := ["EDGEDETECT", "THRESHOLD=0x926"];
    assert items[1..] == ["THRESHOLD=0x926"];
    assert Join(items, ':') == "EDGEDETECT" + [':'] + "THRESHOLD=0x926";
  }

  /** The parameters `{'EDGEDETECT': None, 'THRESHOLD': 2342}` of the documented example. */
  predicate ThresholdParameters(p: Parameters) {
    p.Keys == {"EDGEDETECT", "THRESHOLD"} && p["EDGEDETECT"] == None && p["THRESHOLD"] == Some(2342)
  }

  lemma ThresholdItems(p: Parameters)
    requires ThresholdParameters(p)
    ensures p != map[]
    ensures ParamItems(p) == ["EDGEDETECT", "THRESHOLD=0x926"]
  {
    assert "EDGEDETECT" in p;
    ParametersOrder();
    ThresholdItem();
    var items := RenderItems(["EDGEDETECT", "THRESHOLD"], p);
    assert items[0] == "EDGEDETECT";
  }

  lemma ThresholdItem()
    ensures Item("THRESHOLD", Some(2342)) == "THRESHOLD=0x926"
  {
    ThresholdHex();
    assert "THRESHOLD" + "=" + "0x926" == "THRESHOLD=0x926";
  }

  lemma RenderedThreshold(e: EventTuple)
    requires e.parameters.Some? && e.parameters.value != map[]
    requires ParamItems(e.parameters.value) == ["EDGEDETECT", "THRESHOLD=0x926"]
    ensures EventString(e) == e.event + ":" + e.register + ":" + "EDGEDETECT:THRESHOLD=0x926"
  {
    ParametersJoin();
    EventStringWithParameters(e);
  }

  lemma ParametersExample(e: EventTuple)
    requires e.event == "MEM_UOPS_RETIRED_LOADS" && e.register == "PMC3"
    requires e.parameters.Some? && ThresholdParameters(e.parameters.value)
    ensures EventString(e) == "MEM_UOPS_RETIRED_LOADS:PMC3:EDGEDETECT:THRESHOLD=0x926"
  {
    ThresholdItems(e.parameters.value);
    RenderedThreshold(e);
    ThresholdString();
  }

  lemma ThresholdString()
    ensures "MEM_UOPS_RETIRED_LOADS" + ":" + "PMC3" + ":" + "EDGEDETECT:THRESHOLD=0x926"
      == "MEM_UOPS_RETIRED_LOADS:PMC3:EDGEDETECT:THRESHOLD=0x926"
  {
  }
}
