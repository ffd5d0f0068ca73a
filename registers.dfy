/** The register-descriptor mini-language: `group_iterator` expands the body of a
    bracket group into characters and `register_options` expands a whole
    descriptor (literals, `[..]` groups, `|` alternatives) into register names. */
module Registers {
  import opened Wrappers
  import opened Strings

  // ---------------------------------------------------------------------------
  // The ordered alphabet of ranges: `string.ascii_letters + string.digits`.

  const ALPHABET_SIZE := 62

  function AlphabetChar(i: nat): (c: char)
    requires i < ALPHABET_SIZE
  {
    if i < 26 then ('a' as int + i) as char
    else if i < 52 then ('A' as int + (i - 26)) as char
    else ('0' as int + (i - 52)) as char
  }

  function Alphabet(): string {
    seq(ALPHABET_SIZE, i requires 0 <= i < ALPHABET_SIZE => AlphabetChar(i))
  }

  /** a-z, then A-Z, then 0-9. */
  const ORDERED_CHARS: string := Alphabet()

  /** The character class `[a-zA-Z0-9]` of the range tokenizer. */
  predicate IsAlnum(c: char) {
    ('a' <= c <= 'z') || ('A' <= c <= 'Z') || ('0' <= c <= '9')
  }

  /** `ordered_chars.index(c)`: the position of the first occurrence of `c`. */
  function Index(c: char): (r: nat)
    requires IsAlnum(c)
    ensures r < |ORDERED_CHARS| && ORDERED_CHARS[r] == c
    ensures forall j :: 0 <= j < r ==> ORDERED_CHARS[j] != c
  {
    if 'a' <= c <= 'z' then c as int - 'a' as int
    else if 'A' <= c <= 'Z' then 26 + (c as int - 'A' as int)
    else 52 + (c as int - '0' as int)
  }

  /** Every character of the alphabet is alphanumeric and sits at its own index. */
  lemma IndexOfAlphabet(i: nat)
    requires i < ALPHABET_SIZE
    ensures IsAlnum(ORDERED_CHARS[i]) && Index(ORDERED_CHARS[i]) == i
  {
  }

  /** The range token `x-y`: `ordered_chars[index(x)] .. ordered_chars[index(y)]`,
      nothing when `y` comes before `x`. */
  function CharRange(x: char, y: char): string
    requires IsAlnum(x) && IsAlnum(y)
  {
    if Index(y) < Index(x) then [] else ORDERED_CHARS[Index(x)..Index(y) + 1]
  }

  /** A range yields exactly the alphanumerics from `x` to `y` inclusive, in
      alphabet order, and is empty when the range is reversed. */
  lemma CharRangeSpec(x: char, y: char)
    requires IsAlnum(x) && IsAlnum(y)
    ensures |CharRange(x, y)| == if Index(y) < Index(x) then 0 else Index(y) - Index(x) + 1
    ensures forall c :: c in CharRange(x, y) <==> IsAlnum(c) && Index(x) <= Index(c) <= Index(y)
    ensures forall i :: 0 <= i < |CharRange(x, y)| ==> Index(CharRange(x, y)[i]) == Index(x) + i
  {
    var r := CharRange(x, y);
    forall i | 0 <= i < |r|
      ensures IsAlnum(r[i]) && Index(r[i]) == Index(x) + i
    {
      IndexOfAlphabet(Index(x) + i);
    }
    forall c | IsAlnum(c) && Index(x) <= Index(c) <= Index(y)
      ensures c in r
    {
      assert r[Index(c) - Index(x)] == c;
    }
  }

  // ---------------------------------------------------------------------------
  // group_iterator

  /** A dash-range token `x-y` at the front of `g`. */
  predicate StartsWithRange(g: string) {
    |g| >= 3 && IsAlnum(g[0]) && g[1] == '-' && IsAlnum(g[2])
  }

  /** `group_iterator(g)`: tokens are scanned left to right, a range `x-y` taking
      precedence over a single character; the regex `.` does not match a newline,
      so a newline yields nothing. */
  function GroupChars(g: string): string
    decreases |g|
  {
    if g == [] then []
    else if StartsWithRange(g) then CharRange(g[0], g[2]) + GroupChars(g[3..])
    else if g[0] == '\n' then GroupChars(g[1..])
    else [g[0]] + GroupChars(g[1..])
  }

  /** A group without dashes or newlines yields its own characters. */
  lemma {:induction false} GroupCharsLiteral(g: string)
    requires '-' !in g && '\n' !in g
    ensures GroupChars(g) == g
    decreases |g|
  {
    if g != [] {
      assert g[1..][..] == g[1..];
      GroupCharsLiteral(g[1..]);
      assert g == [g[0]] + g[1..];
    }
  }

  /** Expanding a group piecewise: a dash-free prefix followed by text that does not
      start with a dash expands to the two expansions concatenated. */
  lemma {:induction false} GroupCharsAppend(a: string, b: string)
    requires '-' !in a && (b == [] || b[0] != '-')
    ensures GroupChars(a + b) == GroupChars(a) + GroupChars(b)
    decreases |a|
  {
    if a == [] {
      assert a + b == b;
    } else {
      var ab := a + b;
      assert ab[0] == a[0] && ab[1..] == a[1..] + b;
      assert !StartsWithRange(a) && !StartsWithRange(ab) by {
        if |ab| >= 3 {
          assert ab[1] == if |a| >= 2 then a[1] else b[0];
        }
      }
      GroupCharsAppend(a[1..], b);
    }
  }

  // ---------------------------------------------------------------------------
  // register_options: tokenizer `\[(?P<grp>[^]]+)\]|(?P<chr>.)`, applied with
  // `re.match` at the front of what is left of an alternative.

  datatype Token = Group(body: string) | Literal(c: char)

  /** The first `]` at or after position `i`. */
  function FindClose(u: string, i: nat): (r: Option<nat>)
    requires i <= |u|
    ensures r.Some? ==> i <= r.value < |u| && u[r.value] == ']' && forall j :: i <= j < r.value ==> u[j] != ']'
    ensures r.None? ==> forall j :: i <= j < |u| ==> u[j] != ']'
    decreases |u| - i
  {
    if i == |u| then None
    else if u[i] == ']' then Some(i)
    else FindClose(u, i + 1)
  }

  /** The token `re.match` finds at the front of `u`, with the length it matched;
      None when nothing matches (a newline outside a group). */
  function NextToken(u: string): (r: Option<(Token, nat)>)
    requires u != []
  {
    var close := FindClose(u, 1);
    if u[0] == '[' && close.Some? && close.value >= 2 then
      Some((Group(u[1..close.value]), close.value + 1))
    else if u[0] == '\n' then None
    else Some((Literal(u[0]), 1))
  }

  /** What the tokenizer matched: a group is `[`, a non-empty body without `]`, then
      `]`; otherwise a single character that is not a newline, and then only if the
      text does not start with such a group. */
  lemma NextTokenSpec(u: string)
    requires u != []
    ensures match NextToken(u)
      case Some((Group(body), n)) =>
        n == |body| + 2 <= |u| && body != [] && ']' !in body && u[..n] == "[" + body + "]"
      case Some((Literal(c), n)) =>
        n == 1 && c == u[0] && c != '\n'
        && !(u[0] == '[' && exists k :: 2 <= k < |u| && u[k] == ']' && ']' !in u[1..k])
      case None => u[0] == '\n'
  {
    var close := FindClose(u, 1);
    if u[0] == '[' && close.Some? && close.value >= 2 {
      var k := close.value;
      assert u[..k + 1] == "[" + u[1..k] + "]";
    }
  }

  /** Every token of the alternative `u` can be matched (the tokenizer never hits a
      newline outside a group). */
  predicate Tokenizable(u: string)
    decreases |u|
  {
    u == [] || (NextToken(u).Some? && Tokenizable(u[NextToken(u).value.1..]))
  }

  /** A descriptor `register_options` expands without raising: every `|`-alternative
      is non-empty and tokenizable. */
  predicate ValidDescriptor(d: string) {
    var us := Split(d, '|');
    forall i :: 0 <= i < |us| ==> us[i] != [] && Tokenizable(us[i])
  }

  /** The characters a token stands for. */
  function TokenChars(t: Token): string {
    match t
    case Group(body) => GroupChars(body)
    case Literal(c) => [c]
  }

  /** Every character of `cs` in front of every string of `rs`, `cs` varying slowest. */
  function Cross(cs: string, rs: seq<string>): (r: seq<string>)
    ensures |r| == |cs| * |rs|
    decreases |cs|
  {
    if cs == [] then []
    else Prefixed(cs[0], rs) + Cross(cs[1..], rs)
  }

  function Prefixed(c: char, rs: seq<string>): seq<string> {
    seq(|rs|, j requires 0 <= j < |rs| => [c] + rs[j])
  }

  /** `register_options(u)` for one alternative `u`: the first token's characters,
      each followed by every expansion of the rest. */
  function Alternative(u: string): seq<string>
    requires u != [] && Tokenizable(u)
    decreases |u|
  {
    var tok := NextToken(u).value;
    var cs := TokenChars(tok.0);
    if tok.1 == |u| then Cross(cs, [[]])
    else Cross(cs, Alternative(u[tok.1..]))
  }

  /** The expansions of several alternatives, concatenated in order. */
  function Alternatives(us: seq<string>): seq<string>
    requires forall i :: 0 <= i < |us| ==> us[i] != [] && Tokenizable(us[i])
    decreases |us|
  {
    if us == [] then [] else Alternative(us[0]) + Alternatives(us[1..])
  }

  /** `register_options(d)`: the alternatives of `d`, left to right, with duplicates kept. */
  function RegisterOptions(d: string): seq<string>
    requires ValidDescriptor(d)
  {
    Alternatives(Split(d, '|'))
  }

  // ---------------------------------------------------------------------------
  // What an expansion contains.

  /** Membership in a cross product: first character from `cs`, the rest from `rs`. */
  lemma {:induction false} CrossMember(cs: string, rs: seq<string>, x: string)
    ensures x in Cross(cs, rs) <==> |x| >= 1 && x[0] in cs && x[1..] in rs
    decreases |cs|
  {
    if cs != [] {
      CrossMember(cs[1..], rs, x);
      if x in Prefixed(cs[0], rs) {
        var j :| 0 <= j < |rs| && Prefixed(cs[0], rs)[j] == x;
        assert x[1..] == rs[j];
      }
      if |x| >= 1 && x[0] == cs[0] && x[1..] in rs {
        var j :| 0 <= j < |rs| && rs[j] == x[1..];
        assert Prefixed(cs[0], rs)[j] == x;
      }
      assert |x| >= 1 ==> (x[0] in cs <==> x[0] == cs[0] || x[0] in cs[1..]) by {
        if |x| >= 1 && x[0] in cs {
          var i :| 0 <= i < |cs| && cs[i] == x[0];
          if i > 0 { assert cs[1..][i - 1] == x[0]; }
        }
      }
    }
  }

  /** Row-major order: position `i * |rs| + j` holds `cs[i]` followed by `rs[j]`. */
  lemma {:induction false} CrossAt(cs: string, rs: seq<string>, i: nat, j: nat)
    requires i < |cs| && j < |rs|
    ensures i * |rs| + j < |Cross(cs, rs)|
    ensures Cross(cs, rs)[i * |rs| + j] == [cs[i]] + rs[j]
    decreases |cs|
  {
    if i > 0 {
      CrossAt(cs[1..], rs, i - 1, j);
      assert i * |rs| + j == |rs| + ((i - 1) * |rs| + j);
    }
  }

  /** The strings an alternative denotes, stated token by token: one character per
      token, each drawn from what that token stands for. */
  predicate Denotes(u: string, s: string)
    requires Tokenizable(u)
    decreases |u|
  {
    if u == [] then s == []
    else
      var tok := NextToken(u).value;
      |s| >= 1 && s[0] in TokenChars(tok.0) && Denotes(u[tok.1..], s[1..])
  }

  /** The generator for one alternative yields exactly the strings it denotes. */
  lemma {:induction false} AlternativeDenotes(u: string, s: string)
    requires u != [] && Tokenizable(u)
    ensures s in Alternative(u) <==> Denotes(u, s)
    decreases |u|
  {
    var tok := NextToken(u).value;
    var cs := TokenChars(tok.0);
    var rest := u[tok.1..];
    if tok.1 == |u| {
      CrossMember(cs, [[]], s);
      assert rest == [];
    } else {
      CrossMember(cs, Alternative(rest), s);
      if |s| >= 1 {
        AlternativeDenotes(rest, s[1..]);
      }
    }
  }

  lemma {:induction false} AlternativesMember(us: seq<string>, s: string)
    requires forall i :: 0 <= i < |us| ==> us[i] != [] && Tokenizable(us[i])
    ensures s in Alternatives(us) <==> exists i :: 0 <= i < |us| && Denotes(us[i], s)
    decreases |us|
  {
    if us != [] {
      AlternativeDenotes(us[0], s);
      AlternativesMember(us[1..], s);
      if exists i :: 0 <= i < |us| && Denotes(us[i], s) {
        var i :| 0 <= i < |us| && Denotes(us[i], s);
        if i > 0 { assert us[1..][i - 1] == us[i]; }
      }
      if s in Alternatives(us[1..]) {
        var i :| 0 <= i < |us| - 1 && Denotes(us[1..][i], s);
        assert us[1..][i] == us[i + 1];
      }
    }
  }

  /** A register is a candidate of a descriptor exactly when some `|`-alternative of
      the descriptor denotes it. */
  lemma RegisterOptionsMember(d: string, s: string)
    requires ValidDescriptor(d)
    ensures s in RegisterOptions(d) <==>
      exists i :: 0 <= i < |Split(d, '|')| && Denotes(Split(d, '|')[i], s)
  {
    var us := Split(d, '|');
    AlternativesMember(us, s);
    assert RegisterOptions(d) == Alternatives(us);
    if s in RegisterOptions(d) {
      var i :| 0 <= i < |us| && Denotes(us[i], s);
      assert 0 <= i < |Split(d, '|')| && Denotes(Split(d, '|')[i], s);
    }
  }

  /** An alternative without brackets yields just itself. */
  lemma {:induction false} AlternativePlain(u: string)
    requires u != [] && Tokenizable(u) && '[' !in u
    ensures Alternative(u) == [u]
    decreases |u|
  {
    var tok := NextToken(u).value;
    assert tok == (Literal(u[0]), 1);
    assert TokenChars(tok.0) == [u[0]];
    if |u| == 1 {
      assert Prefixed(u[0], [[]]) == [[u[0]] + []];
      assert Cross([u[0]], [[]]) == [[u[0]] + []];
      assert Alternative(u) == Cross([u[0]], [[]]);
      assert [u[0]] + [] == u;
    } else {
      var rest := u[1..];
      assert forall j :: 0 <= j < |rest| ==> rest[j] == u[j + 1];
      AlternativePlain(rest);
      assert Cross([u[0]], [rest]) == [[u[0]] + rest];
      assert [u[0]] + rest == u;
    }
  }

  /** An alternative of plain characters can always be tokenized. */
  lemma {:induction false} PlainTokenizable(u: string)
    requires '[' !in u && '\n' !in u
    ensures Tokenizable(u)
    decreases |u|
  {
    if u != [] {
      assert NextToken(u) == Some((Literal(u[0]), 1));
      assert forall j :: 0 <= j < |u| - 1 ==> u[1..][j] == u[j + 1];
      PlainTokenizable(u[1..]);
    }
  }

  lemma {:induction false} AlternativesPlain(us: seq<string>)
    requires forall i :: 0 <= i < |us| ==> us[i] != [] && Tokenizable(us[i]) && '[' !in us[i]
    ensures Alternatives(us) == us
    decreases |us|
  {
    if us != [] {
      AlternativePlain(us[0]);
      AlternativesPlain(us[1..]);
      assert us == [us[0]] + us[1..];
    }
  }

  /** A descriptor without brackets yields its alternatives as they are; one without
      `|` either yields exactly itself. */
  lemma RegisterOptionsPlain(d: string)
    requires ValidDescriptor(d) && '[' !in d
    ensures RegisterOptions(d) == Split(d, '|')
    ensures '|' !in d ==> RegisterOptions(d) == [d]
  {
    var us := Split(d, '|');
    forall i | 0 <= i < |us|
      ensures '[' !in us[i]
    {
      SplitPieceIn(d, '|', i, '[');
    }
    AlternativesPlain(us);
    if '|' !in d {
      SplitPieceIn(d, '|', 0, '|');
      SplitNoSeparator(d, '|');
    }
  }

  /** An alternative whose last token stands for `cs` ends in one string per character. */
  lemma {:induction false} CrossEmpty(cs: string)
    ensures Cross(cs, [[]]) == seq(|cs|, i requires 0 <= i < |cs| => [cs[i]])
    decreases |cs|
  {
    if cs != [] {
      CrossEmpty(cs[1..]);
      assert [cs[0]] + [] == [cs[0]];
      assert Prefixed(cs[0], [[]]) == [[cs[0]]];
    }
  }

  /** Every string of `rs`, with `p` in front. */
  function PrefixAll(p: string, rs: seq<string>): seq<string> {
    seq(|rs|, j requires 0 <= j < |rs| => p + rs[j])
  }

  /** A literal character in front of an alternative. */
  lemma AlternativeLiteral(c: char, rest: string)
    requires c != '[' && c != '\n'
    requires rest != [] && Tokenizable(rest)
    ensures Tokenizable([c] + rest) && Alternative([c] + rest) == Prefixed(c, Alternative(rest))
  {
    var u := [c] + rest;
    assert u[0] == c && u[1..] == rest;
    assert NextToken(u) == Some((Literal(c), 1));
    assert TokenChars(Literal(c)) == [c];
    assert Cross([c], Alternative(rest)) == Prefixed(c, Alternative(rest)) + Cross([], Alternative(rest));
  }

  /** Literal characters in front of an alternative are put in front of each of its
      expansions. */
  lemma {:induction false} AlternativeLiteralPrefix(p: string, rest: string, u: string)
    requires p != [] && '[' !in p && '\n' !in p
    requires rest != [] && Tokenizable(rest)
    requires u == p + rest
    ensures Tokenizable(u) && Alternative(u) == PrefixAll(p, Alternative(rest))
    decreases |p|
  {
    ConsAppend(p, rest);
    if |p| == 1 {
      AlternativeLiteral(p[0], rest);
      PrefixedOne(p, Alternative(rest));
    } else {
      AlternativeLiteralPrefix(p[1..], rest, p[1..] + rest);
      AlternativeLiteral(p[0], p[1..] + rest);
      PrefixedPrefixAll(p, Alternative(rest));
    }
  }

  lemma ConsAppend(p: string, rest: string)
    requires p != []
    ensures p + rest == [p[0]] + (p[1..] + rest)
    ensures '[' !in p ==> '[' !in p[1..]
    ensures '\n' !in p ==> '\n' !in p[1..]
  {
    assert p == [p[0]] + p[1..];
  }

  lemma PrefixedOne(p: string, rs: seq<string>)
    requires |p| == 1
    ensures Prefixed(p[0], rs) == PrefixAll(p, rs)
  {
    assert [p[0]] == p;
  }

  lemma PrefixedPrefixAll(p: string, rs: seq<string>)
    requires |p| > 1
    ensures Prefixed(p[0], PrefixAll(p[1..], rs)) == PrefixAll(p, rs)
  {
    forall j | 0 <= j < |rs|
      ensures [p[0]] + (p[1..] + rs[j]) == p + rs[j]
    {
      assert [p[0]] + p[1..] == p;
    }
  }

  /** A bracket group followed by the rest of an alternative. */
  lemma AlternativeGroup(body: string, rest: string, u: string)
    requires body != [] && ']' !in body
    requires Tokenizable(rest)
    requires u == "[" + body + "]" + rest
    ensures Tokenizable(u)
    ensures Alternative(u) == Cross(GroupChars(body), if rest == [] then [[]] else Alternative(rest))
  {
    var k := |body| + 1;
    assert forall j :: 1 <= j < k ==> u[j] == body[j - 1];
    assert u[k] == ']';
    assert FindClose(u, 1) == Some(k) by {
      FindCloseAt(u, 1, k);
    }
    assert u[1..k] == body;
    assert u[k + 1..] == rest;
    assert NextToken(u) == Some((Group(body), k + 1));
  }

  /** A descriptor without `|` is a single alternative. */
  lemma RegisterOptionsSingle(d: string)
    requires '|' !in d && d != [] && Tokenizable(d)
    ensures ValidDescriptor(d) && RegisterOptions(d) == Alternative(d)
  {
    SplitNoSeparator(d, '|');
    assert Alternatives([d]) == Alternative(d) + Alternatives([]);
  }

  lemma {:induction false} FindCloseAt(u: string, i: nat, k: nat)
    requires i <= k < |u| && u[k] == ']'
    requires forall j :: i <= j < k ==> u[j] != ']'
    ensures FindClose(u, i) == Some(k)
    decreases k - i
  {
    if i < k {
      FindCloseAt(u, i + 1, k);
    }
  }
}


/** The documented examples of `group_iterator` and `register_options`. */
module RegisterExamples {
  import opened Strings
  import opened Registers

  lemma GroupRangeExample()
    ensures GroupChars("a-f") == "abcdef"
  {
    assert StartsWithRange("a-f");
    assert "a-f"[3..] == [];
    assert CharRange('a', 'f') == ORDERED_CHARS[0..6];
  }

  lemma GroupLiteralExample()
    ensures GroupChars("148") == "148"
  {
    GroupCharsLiteral("148");
  }

  lemma GroupMixedExample()
    ensures GroupChars("7-9ab") == "789ab"
  {
    assert StartsWithRange("7-9ab");
    assert "7-9ab"[3..] == "ab";
    assert CharRange('7', '9') == ORDERED_CHARS[59..62];
    GroupCharsLiteral("ab");
  }

  lemma GroupReversedExample()
    ensures GroupChars("0B-A1") == "01"
  {
    assert !StartsWithRange("0B-A1");
    assert "0B-A1"[1..] == "B-A1";
    assert StartsWithRange("B-A1");
    assert CharRange('B', 'A') == [];
    assert "B-A1"[3..] == "1";
    GroupCharsLiteral("1");
  }

  // Generic steps: they mention no literal, so each example only has to supply the
  // facts about its own strings.

  /** A lone bracket group `[body]` expands to one string per character it stands for. */
  lemma GroupAlone(body: string, u: string)
    requires body != [] && ']' !in body && u == "[" + body + "]"
    ensures Tokenizable(u) && Alternative(u) == Cross(GroupChars(body), [[]])
  {
    assert u == "[" + body + "]" + "";
    AlternativeGroup(body, "", u);
  }

  lemma CrossPair(x: char, y: char)
    ensures Cross([x, y], [[]]) == [[x], [y]]
  {
    CrossEmpty([x, y]);
  }

  lemma CrossFour(a: char, b: char, c: char, d: char)
    ensures Cross([a, b, c, d], [[]]) == [[a], [b], [c], [d]]
  {
    CrossEmpty([a, b, c, d]);
  }

  lemma PrefixPair(p: string, x: string, y: string)
    ensures PrefixAll(p, [x, y]) == [p + x, p + y]
  {
  }

  lemma PrefixFour(p: string, a: string, b: string, c: string, d: string)
    ensures PrefixAll(p, [a, b, c, d]) == [p + a, p + b, p + c, p + d]
  {
  }

  /** `d` splits on the bar into the two well-formed alternatives `a` and `b`. */
  predicate TwoAlternatives(d: string, a: string, b: string) {
    Split(d, '|') == [a, b] && a != [] && Tokenizable(a) && b != [] && Tokenizable(b)
  }

  /** Two alternatives expand to the first one's strings, then the second one's. */
  lemma OptionsPair(d: string, a: string, b: string)
    requires TwoAlternatives(d, a, b)
    ensures ValidDescriptor(d) && RegisterOptions(d) == Alternative(a) + Alternative(b)
  {
    assert [a, b][1..] == [b] && [b][1..] == [];
    assert Alternatives([b]) == Alternative(b) + Alternatives([]);
    assert Alternatives([a, b]) == Alternative(a) + Alternatives([b]);
  }

  // The prefix `PMC`.

  lemma PmcFacts()
    ensures "PMC" != [] && '[' !in "PMC" && '\n' !in "PMC"
    ensures "PMC" + "0" == "PMC0" && "PMC" + "1" == "PMC1"
    ensures "PMC" + "2" == "PMC2" && "PMC" + "3" == "PMC3"
  {
  }

  // `PMC[0-3]`

  lemma RangeFacts()
    ensures "0-3" != [] && ']' !in "0-3" && "[0-3]" == "[" + "0-3" + "]"
    ensures "PMC" + "[0-3]" == "PMC[0-3]" && "[0-3]" != []
    ensures "PMC[0-3]" != [] && '|' !in "PMC[0-3]"
  {
  }

  lemma RangeChars()
    ensures GroupChars("0-3") == "0123"
  {
    assert StartsWithRange("0-3") && "0-3"[3..] == [];
    assert CharRange('0', '3') == ORDERED_CHARS[52..56];
  }

  lemma RangeGroup()
    ensures Tokenizable("[0-3]") && Alternative("[0-3]") == ["0", "1", "2", "3"]
  {
    RangeFacts();
    RangeChars();
    GroupAlone("0-3", "[0-3]");
    CrossFour('0', '1', '2', '3');
  }

  lemma CounterRangePrefixed()
    ensures Tokenizable("PMC[0-3]")
    ensures Alternative("PMC[0-3]") == ["PMC0", "PMC1", "PMC2", "PMC3"]
  {
    RangeGroup();
    RangeFacts();
    PmcFacts();
    AlternativeLiteralPrefix("PMC", "[0-3]", "PMC[0-3]");
    PrefixFour("PMC", "0", "1", "2", "3");
  }

  lemma OptionsRangeExample()
    ensures ValidDescriptor("PMC[0-3]")
    ensures RegisterOptions("PMC[0-3]") == ["PMC0", "PMC1", "PMC2", "PMC3"]
  {
    CounterRangePrefixed();
    RangeFacts();
    RegisterOptionsSingle("PMC[0-3]");
  }

  // `MBOX0C[01]`

  lemma PairFacts()
    ensures "01" != [] && ']' !in "01" && "[01]" == "[" + "01" + "]" && "[01]" != []
  {
  }

  lemma PairGroup()
    ensures Tokenizable("[01]") && Alternative("[01]") == ["0", "1"]
  {
    PairFacts();
    GroupCharsLiteral("01");
    GroupAlone("01", "[01]");
    CrossPair('0', '1');
  }

  lemma MboxFacts()
    ensures "MBOX0C" != [] && '[' !in "MBOX0C" && '\n' !in "MBOX0C"
    ensures "MBOX0C" + "[01]" == "MBOX0C[01]"
    ensures "MBOX0C" + "0" == "MBOX0C0" && "MBOX0C" + "1" == "MBOX0C1"
    ensures "MBOX0C[01]" != [] && '|' !in "MBOX0C[01]"
  {
  }

  lemma OptionsBoxExample()
    ensures ValidDescriptor("MBOX0C[01]")
    ensures RegisterOptions("MBOX0C[01]") == ["MBOX0C0", "MBOX0C1"]
  {
    PairGroup();
    PairFacts();
    MboxFacts();
    AlternativeLiteralPrefix("MBOX0C", "[01]", "MBOX0C[01]");
    PrefixPair("MBOX0C", "0", "1");
    RegisterOptionsSingle("MBOX0C[01]");
  }

  // `CBOX2C1`

  lemma PlainFacts()
    ensures '[' !in "CBOX2C1" && '\n' !in "CBOX2C1" && '|' !in "CBOX2C1" && "CBOX2C1" != []
  {
  }

  lemma OptionsPlainExample()
    ensures ValidDescriptor("CBOX2C1") && RegisterOptions("CBOX2C1") == ["CBOX2C1"]
  {
    PlainFacts();
    PlainTokenizable("CBOX2C1");
    RegisterOptionsSingle("CBOX2C1");
    AlternativePlain("CBOX2C1");
  }

  // `CBOX[0-3]C[01]`

  lemma SecondBoxFacts()
    ensures "C" != [] && '[' !in "C" && '\n' !in "C" && "C" + "[01]" == "C[01]"
    ensures "C" + "0" == "C0" && "C" + "1" == "C1" && "C[01]" != []
  {
  }

  lemma SecondBox()
    ensures Tokenizable("C[01]") && Alternative("C[01]") == ["C0", "C1"]
  {
    PairGroup();
    PairFacts();
    SecondBoxFacts();
    AlternativeLiteralPrefix("C", "[01]", "C[01]");
    PrefixPair("C", "0", "1");
  }

  lemma BoxFacts()
    ensures "0-3" != [] && ']' !in "0-3" && "[0-3]C[01]" == "[" + "0-3" + "]" + "C[01]"
    ensures "C[01]" != [] && "[0-3]C[01]" != []
  {
  }

  lemma BoxGroupsNames()
    ensures Cross("0123", ["C0", "C1"]) == ["0C0", "0C1", "1C0", "1C1", "2C0", "2C1", "3C0", "3C1"]
  {
    var rs := ["C0", "C1"];
    var a := Cross("0123", rs);
    assert a == Prefixed('0', rs) + Prefixed('1', rs) + Prefixed('2', rs) + Prefixed('3', rs) by {
      assert Cross("0123", rs) == Prefixed('0', rs) + Cross("123", rs);
      assert Cross("123", rs) == Prefixed('1', rs) + Cross("23", rs);
      assert Cross("23", rs) == Prefixed('2', rs) + Cross("3", rs);
      assert Cross("3", rs) == Prefixed('3', rs) + Cross([], rs);
    }
    assert |a| == 8;
    assert a[0] == "0C0" && a[1] == "0C1" && a[2] == "1C0" && a[3] == "1C1";
    assert a[4] == "2C0" && a[5] == "2C1" && a[6] == "3C0" && a[7] == "3C1";
  }

  lemma BoxGroups()
    ensures Tokenizable("[0-3]C[01]")
    ensures Alternative("[0-3]C[01]") == ["0C0", "0C1", "1C0", "1C1", "2C0", "2C1", "3C0", "3C1"]
  {
    SecondBox();
    BoxFacts();
    RangeChars();
    AlternativeGroup("0-3", "C[01]", "[0-3]C[01]");
    BoxGroupsNames();
  }

  lemma TwoGroupsNames()
    ensures PrefixAll("CBOX", ["0C0", "0C1", "1C0", "1C1", "2C0", "2C1", "3C0", "3C1"])
      == ["CBOX0C0", "CBOX0C1", "CBOX1C0", "CBOX1C1", "CBOX2C0", "CBOX2C1", "CBOX3C0", "CBOX3C1"]
  {
    var r := PrefixAll("CBOX", ["0C0", "0C1", "1C0", "1C1", "2C0", "2C1", "3C0", "3C1"]);
    assert |r| == 8;
    assert r[0] == "CBOX0C0" && r[1] == "CBOX0C1" && r[2] == "CBOX1C0" && r[3] == "CBOX1C1";
    assert r[4] == "CBOX2C0" && r[5] == "CBOX2C1" && r[6] == "CBOX3C0" && r[7] == "CBOX3C1";
  }

  lemma CboxFacts()
    ensures "CBOX" + "[0-3]C[01]" == "CBOX[0-3]C[01]"
    ensures "CBOX" != [] && '[' !in "CBOX" && '\n' !in "CBOX" && "[0-3]C[01]" != []
    ensures "CBOX[0-3]C[01]" != [] && '|' !in "CBOX[0-3]C[01]"
  {
  }

  lemma TwoGroupsPrefix()
    requires Tokenizable("[0-3]C[01]")
    ensures Tokenizable("CBOX[0-3]C[01]")
    ensures Alternative("CBOX[0-3]C[01]") == PrefixAll("CBOX", Alternative("[0-3]C[01]"))
  {
    CboxFacts();
    AlternativeLiteralPrefix("CBOX", "[0-3]C[01]", "CBOX[0-3]C[01]");
  }

  lemma TwoGroupsAlternative()
    ensures Tokenizable("CBOX[0-3]C[01]")
    ensures Alternative("CBOX[0-3]C[01]")
      == ["CBOX0C0", "CBOX0C1", "CBOX1C0", "CBOX1C1", "CBOX2C0", "CBOX2C1", "CBOX3C0", "CBOX3C1"]
  {
    BoxGroups();
    TwoGroupsPrefix();
    TwoGroupsNames();
  }

  lemma OptionsTwoGroupsExample()
    ensures ValidDescriptor("CBOX[0-3]C[01]")
    ensures RegisterOptions("CBOX[0-3]C[01]")
      == ["CBOX0C0", "CBOX0C1", "CBOX1C0", "CBOX1C1", "CBOX2C0", "CBOX2C1", "CBOX3C0", "CBOX3C1"]
  {
    TwoGroupsAlternative();
    CboxFacts();
    RegisterOptionsSingle("CBOX[0-3]C[01]");
  }

  // `PMC[b-a]`

  lemma EmptyFacts()
    ensures "b-a" != [] && ']' !in "b-a" && "[b-a]" == "[" + "b-a" + "]" && "[b-a]" != []
    ensures "PMC" + "[b-a]" == "PMC[b-a]" && "PMC[b-a]" != [] && '|' !in "PMC[b-a]"
  {
  }

  lemma EmptyChars()
    ensures GroupChars("b-a") == []
  {
    assert StartsWithRange("b-a") && "b-a"[3..] == [];
  }

  /** A reversed range leaves a descriptor with no register at all. */
  lemma OptionsEmptyExample()
    ensures ValidDescriptor("PMC[b-a]") && RegisterOptions("PMC[b-a]") == []
  {
    EmptyFacts();
    EmptyChars();
    PmcFacts();
    GroupAlone("b-a", "[b-a]");
    AlternativeLiteralPrefix("PMC", "[b-a]", "PMC[b-a]");
    RegisterOptionsSingle("PMC[b-a]");
  }

  // `PMC[0-1]|PMC[23]`

  lemma LowFacts()
    ensures "0-1" != [] && ']' !in "0-1" && "[0-1]" == "[" + "0-1" + "]" && "[0-1]" != []
    ensures "PMC" + "[0-1]" == "PMC[0-1]" && "PMC[0-1]" != []
  {
  }

  lemma LowChars()
    ensures GroupChars("0-1") == "01"
  {
    assert StartsWithRange("0-1") && "0-1"[3..] == [];
    assert CharRange('0', '1') == ORDERED_CHARS[52..54];
  }

  lemma LowGroup()
    ensures Tokenizable("[0-1]") && Alternative("[0-1]") == ["0", "1"]
  {
    LowFacts();
    LowChars();
    GroupAlone("0-1", "[0-1]");
    CrossPair('0', '1');
  }

  lemma LowPair()
    ensures Tokenizable("PMC[0-1]") && Alternative("PMC[0-1]") == ["PMC0", "PMC1"]
  {
    LowGroup();
    LowFacts();
    PmcFacts();
    AlternativeLiteralPrefix("PMC", "[0-1]", "PMC[0-1]");
    PrefixPair("PMC", "0", "1");
  }

  lemma HighFacts()
    ensures "23" != [] && ']' !in "23" && "[23]" == "[" + "23" + "]" && "[23]" != []
    ensures "PMC" + "[23]" == "PMC[23]" && "PMC[23]" != []
  {
  }

  lemma HighGroup()
    ensures Tokenizable("[23]") && Alternative("[23]") == ["2", "3"]
  {
    HighFacts();
    GroupCharsLiteral("23");
    GroupAlone("23", "[23]");
    CrossPair('2', '3');
  }

  lemma HighPair()
    ensures Tokenizable("PMC[23]") && Alternative("PMC[23]") == ["PMC2", "PMC3"]
  {
    HighGroup();
    HighFacts();
    PmcFacts();
    AlternativeLiteralPrefix("PMC", "[23]", "PMC[23]");
    PrefixPair("PMC", "2", "3");
  }

  lemma AlternativesSplit()
    ensures Split("PMC[0-1]|PMC[23]", '|') == ["PMC[0-1]", "PMC[23]"]
  {
    var us := ["PMC[0-1]", "PMC[23]"];
    SplitJoin(us, '|');
    assert Join(us, '|') == "PMC[0-1]|PMC[23]";
  }

  lemma AlternativesFacts()
    ensures TwoAlternatives("PMC[0-1]|PMC[23]", "PMC[0-1]", "PMC[23]")
    ensures Alternative("PMC[0-1]") + Alternative("PMC[23]") == ["PMC0", "PMC1", "PMC2", "PMC3"]
  {
    AlternativesSplit();
    LowPair();
    HighPair();
    AlternativesNames();
  }

  lemma AlternativesNames()
    ensures ["PMC0", "PMC1"] + ["PMC2", "PMC3"] == ["PMC0", "PMC1", "PMC2", "PMC3"]
  {
  }

  /** Alternatives are expanded left to right and concatenated. */
  lemma OptionsAlternativesExample()
    ensures ValidDescriptor("PMC[0-1]|PMC[23]")
    ensures RegisterOptions("PMC[0-1]|PMC[23]") == ["PMC0", "PMC1", "PMC2", "PMC3"]
  {
    AlternativesFacts();
    OptionsPair("PMC[0-1]|PMC[23]", "PMC[0-1]", "PMC[23]");
  }
}
