/** The hand-written metrics exposition: label sets flattened to map keys, the
    counters kept under those keys, and the text that is scraped. A parser for
    the text format is the specification. */
module Metrics {
  import opened Common

  // ----- reading text -----

  predicate IsNameChar(c: char) {
    'a' <= c <= 'z' || 'A' <= c <= 'Z' || '0' <= c <= '9' || c == '_' || c == ':'
  }

  predicate IsName(s: string) {
    s != [] && !('0' <= s[0] <= '9') && forall i | 0 <= i < |s| :: IsNameChar(s[i])
  }

  /** The longest prefix of name characters, and what follows it. */
  function Span(s: string): (string, string) {
    if s == [] || !IsNameChar(s[0]) then ("", s)
    else
      var (name, rest) := Span(s[1..]);
      ([s[0]] + name, rest)
  }

  lemma {:induction false} SpanName(name: string, rest: string)
    requires forall i | 0 <= i < |name| :: IsNameChar(name[i])
    requires rest == [] || !IsNameChar(rest[0])
    ensures Span(name + rest) == (name, rest)
  {
    if name == [] {
      assert name + rest == rest;
    } else {
      assert (name + rest)[1..] == name[1..] + rest;
      SpanName(name[1..], rest);
      assert [name[0]] + name[1..] == name;
    }
  }

  // ----- label values -----

  function EscapeChar(c: char): string {
    if c == '\\' then "\\\\" else if c == '"' then "\\\"" else if c == '\n' then "\\n" else [c]
  }

  function EscapeLabel(v: string): string {
    if v == [] then [] else EscapeChar(v[0]) + EscapeLabel(v[1..])
  }

  /** A quoted value up to its closing quote, with escapes undone. */
  function ParseValue(s: string): Option<(string, string)> {
    if s == [] || s[0] == '\n' then None
    else if s[0] == '"' then Some(("", s[1..]))
    else if s[0] == '\\' && |s| == 1 then None
    else if s[0] == '\\' && s[1] !in "\\\"n" then None
    else
      var (c, rest) := if s[0] == '\\' then (if s[1] == 'n' then '\n' else s[1], s[2..]) else (s[0], s[1..]);
      match ParseValue(rest)
      case None => None
      case Some((v, after)) => Some(([c] + v, after))
  }

  /** Escaping is undone exactly, whatever follows the closing quote. */
  lemma {:induction false} EscapeRoundTrip(v: string, rest: string)
    ensures ParseValue(EscapeLabel(v) + "\"" + rest) == Some((v, rest))
  {
    var s := EscapeLabel(v) + "\"" + rest;
    if v == [] {
      assert s[1..] == rest;
    } else {
      var e := EscapeChar(v[0]);
      var tail := EscapeLabel(v[1..]) + "\"" + rest;
      assert s == e + tail;
      assert s[|e|..] == tail;
      assert |e| == 2 ==> s[0] == '\\' && s[1] == e[1];
      EscapeRoundTrip(v[1..], rest);
      assert [v[0]] + v[1..] == v;
    }
  }

  // ----- label sets -----

  function PairText(key: string, value: string): string {
    key + "=\"" + EscapeLabel(value) + "\""
  }

  function PairsText(kv: seq<string>): string {
    if |kv| < 2 then ""
    else PairText(kv[0], kv[1]) + if |kv| < 4 then "" else "," + PairsText(kv[2..])
  }

  function FormatLabels(kv: seq<string>): string {
    if kv == [] then "" else "{" + PairsText(kv) + "}"
  }

  /** The complete pairs of a list: an odd last element is not written. */
  function Pairs(kv: seq<string>): seq<string> {
    kv[..|kv| - |kv| % 2]
  }

  ghost predicate KeysAreNames(kv: seq<string>) {
    forall i | 0 <= i < |kv| / 2 :: IsName(kv[2 * i])
  }

  lemma {:induction false} PairsTextSnoc(kv: seq<string>, key: string, value: string)
    requires |kv| % 2 == 0
    ensures PairsText(kv + [key, value])
         == PairsText(kv) + (if kv == [] then "" else ",") + PairText(key, value)
  {
    hide PairText;
    if kv != [] {
      PairsTextSnoc(kv[2..], key, value);
      assert (kv + [key, value])[2..] == kv[2..] + [key, value];
      assert |kv| == 2 ==> kv[2..] == [] && PairsText([]) == "";
    }
  }

  lemma {:induction false} PairsTextEven(kv: seq<string>)
    ensures PairsText(Pairs(kv)) == PairsText(kv)
  {
    if |kv| >= 2 {
      PairsTextEven(kv[2..]);
      assert Pairs(kv)[2..] == Pairs(kv[2..]);
    }
  }

  lemma OnePairMore(kv: seq<string>, i: nat)
    requires i + 1 < |kv| && i % 2 == 0
    ensures "{" + PairsText(kv[..i + 2])
         == "{" + PairsText(kv[..i]) + (if i > 0 then "," else "") + PairText(kv[i], kv[i + 1])
  {
    PairsTextSnoc(kv[..i], kv[i], kv[i + 1]);
    hide PairsText, PairText;
    assert kv[..i + 2] == kv[..i] + [kv[i], kv[i + 1]];
  }

  lemma WholePairs(kv: seq<string>, i: nat)
    requires i <= |kv| < i + 2 && i % 2 == 0
    ensures Pairs(kv) == kv[..i]
  {
  }

  /** formatLabels: the builder loop writes the label set. */
  method WriteLabels(kv: seq<string>) returns (b: string)
    ensures b == FormatLabels(kv)
  {
    if |kv| == 0 {
      return "";
    }
    hide PairsText, PairText, Pairs;
    b := "{";
    var i := 0;
    ShortPairsText(kv[..0]);
    while i + 1 < |kv|
      invariant i % 2 == 0 && i <= |kv|
      invariant b == "{" + PairsText(kv[..i])
    {
      OnePairMore(kv, i);
      if i > 0 {
        b := b + ",";
      }
      b := b + PairText(kv[i], kv[i + 1]);
      i := i + 2;
    }
    WholePairs(kv, i);
    PairsTextEven(kv);
    b := b + "}";
  }

  /** Pairs up to the closing brace. */
  function ParsePairs(s: string): Option<(seq<string>, string)>
    decreases |s|
  {
    var (key, rest) := Span(s);
    SpanShrinks(s);
    if !IsName(key) || |rest| < 2 || rest[0] != '=' || rest[1] != '"' then None
    else
      match ParseValue(rest[2..])
      case None => None
      case Some((value, after)) =>
        ValueShrinks(rest[2..]);
        if after == [] then None
        else if after[0] == '}' then Some(([key, value], after[1..]))
        else if after[0] != ',' then None
        else
          match ParsePairs(after[1..])
          case None => None
          case Some((kv, end)) => Some(([key, value] + kv, end))
  }

  lemma {:induction false} SpanShrinks(s: string)
    ensures |Span(s).1| <= |s|
  {
    if s != [] && IsNameChar(s[0]) {
      SpanShrinks(s[1..]);
    }
  }

  lemma {:induction false} ValueShrinks(s: string)
    ensures ParseValue(s).Some? ==> |ParseValue(s).value.1| < |s|
    decreases |s|
  {
    if s != [] && ParseValue(s).Some? && s[0] != '"' {
      ValueShrinks(if s[0] == '\\' then s[2..] else s[1..]);
    }
  }

  /** A label set, or nothing where none is written. */
  function ParseLabels(s: string): Option<(seq<string>, string)> {
    if s == [] || s[0] != '{' then Some(([], s))
    else if |s| > 1 && s[1] == '}' then Some(([], s[2..]))
    else ParsePairs(s[1..])
  }

  lemma ReadPair(key: string, value: string, end: string)
    requires IsName(key)
    ensures var (name, rest) := Span(PairText(key, value) + end);
            && name == key
            && |rest| >= 2 && rest[0] == '=' && rest[1] == '"'
            && ParseValue(rest[2..]) == Some((value, end))
  {
    hide EscapeLabel, ParseValue;
    var quoted := EscapeLabel(value) + "\"" + end;
    var rest := "=\"" + quoted;
    assert PairText(key, value) + end == key + rest;
    SpanName(key, rest);
    assert rest[2..] == quoted;
    EscapeRoundTrip(value, end);
  }

  lemma LastPair(key: string, value: string, rest: string)
    requires IsName(key)
    ensures ParsePairs(PairText(key, value) + ("}" + rest)) == Some(([key, value], rest))
  {
    hide PairText, Span, ParseValue, IsName;
    ReadPair(key, value, "}" + rest);
    assert ("}" + rest)[1..] == rest;
  }

  lemma MorePairs(key: string, value: string, more: string)
    requires IsName(key) && ParsePairs(more).Some?
    ensures ParsePairs(PairText(key, value) + ("," + more))
         == Some(([key, value] + ParsePairs(more).value.0, ParsePairs(more).value.1))
  {
    hide PairText, Span, ParseValue, IsName;
    ReadPair(key, value, "," + more);
    assert ("," + more)[1..] == more;
  }

  lemma {:induction false} PairsRoundTrip(kv: seq<string>, rest: string)
    requires |kv| >= 2 && KeysAreNames(kv)
    ensures ParsePairs(PairsText(kv) + "}" + rest) == Some((Pairs(kv), rest))
    decreases |kv|
  {
    hide PairText, ParsePairs, IsName;
    assert IsName(kv[2 * 0]);
    if |kv| < 4 {
      LastPair(kv[0], kv[1], rest);
      assert PairsText(kv) + "}" + rest == PairText(kv[0], kv[1]) + ("}" + rest);
      assert Pairs(kv) == [kv[0], kv[1]];
    } else {
      var more := kv[2..];
      assert forall i | 0 <= i < |more| / 2 :: more[2 * i] == kv[2 * (i + 1)];
      PairsRoundTrip(more, rest);
      MorePairs(kv[0], kv[1], PairsText(more) + "}" + rest);
      assert PairsText(kv) + "}" + rest == PairText(kv[0], kv[1]) + ("," + (PairsText(more) + "}" + rest));
      assert Pairs(kv) == [kv[0], kv[1]] + Pairs(more);
    }
  }

  /** Parsing a formatted label set returns its pairs and leaves what follows. */
  lemma LabelsRoundTrip(kv: seq<string>, rest: string)
    requires KeysAreNames(kv)
    requires rest == [] || rest[0] != '{'
    ensures ParseLabels(FormatLabels(kv) + rest) == Some((Pairs(kv), rest))
  {
    hide ParsePairs, PairsText;
    if kv == [] {
      assert FormatLabels(kv) + rest == rest;
    } else if |kv| == 1 {
      assert PairsText(kv) == "" by { ShortPairsText(kv); }
      assert FormatLabels(kv) + rest == "{}" + rest && ("{}" + rest)[2..] == rest;
    } else {
      PairsRoundTrip(kv, rest);
      assert IsName(kv[2 * 0]);
      PairsStart(kv);
      BracedPairs(PairsText(kv) + "}" + rest);
      assert FormatLabels(kv) + rest == "{" + (PairsText(kv) + "}" + rest);
    }
  }

  lemma ShortPairsText(kv: seq<string>)
    requires |kv| < 2
    ensures PairsText(kv) == ""
  {
  }

  lemma BracedPairs(body: string)
    requires body != [] && body[0] != '}'
    ensures ParseLabels("{" + body) == ParsePairs(body)
  {
    hide ParsePairs;
    assert ("{" + body)[1..] == body;
  }

  lemma PairsStart(kv: seq<string>)
    requires |kv| >= 2 && IsName(kv[0])
    ensures PairsText(kv) != [] && PairsText(kv)[0] != '}'
  {
    assert PairText(kv[0], kv[1])[0] == kv[0][0] && IsNameChar(kv[0][0]);
  }

  /** Two label lists share a flattened form exactly when they write the same
      pairs and neither or both are empty: for even lists, exactly when they are
      equal. */
  lemma LabelsAreFaithful(a: seq<string>, b: seq<string>)
    requires KeysAreNames(a) && KeysAreNames(b)
    ensures FormatLabels(a) == FormatLabels(b) <==> Pairs(a) == Pairs(b) && (a == [] <==> b == [])
  {
    LabelsRoundTrip(a, "");
    LabelsRoundTrip(b, "");
    assert FormatLabels(a) + "" == FormatLabels(a) && FormatLabels(b) + "" == FormatLabels(b);
    PairsTextEven(a);
    PairsTextEven(b);
  }

  // ----- counters -----

  datatype Series = Series(name: string, labels: string)

  datatype Inc = Inc(name: string, labels: seq<string>)

  type Counts = map<Series, int>

  function SeriesOf(inc: Inc): Series {
    Series(inc.name, FormatLabels(inc.labels))
  }

  function Incremented(counts: Counts, inc: Inc): Counts {
    var key := SeriesOf(inc);
    counts[key := (if key in counts then counts[key] else 0) + 1]
  }

  function Tally(incs: seq<Inc>): Counts {
    if incs == [] then map[] else Incremented(Tally(incs[..|incs| - 1]), incs[|incs| - 1])
  }

  function Occurrences(incs: seq<Inc>, inc: Inc): nat {
    if incs == [] then 0
    else Occurrences(incs[..|incs| - 1], inc) + if incs[|incs| - 1] == inc then 1 else 0
  }

  /** An increment as every caller makes it: whole pairs with name keys. */
  ghost predicate WellFormed(inc: Inc) {
    |inc.labels| % 2 == 0 && KeysAreNames(inc.labels)
  }

  /** After any run each count is the number of increments made with exactly that
      name and label list; series never incremented are absent. */
  lemma {:induction false} CountsAreOccurrences(incs: seq<Inc>, inc: Inc)
    requires WellFormed(inc) && forall i | 0 <= i < |incs| :: WellFormed(incs[i])
    ensures SeriesOf(inc) in Tally(incs) <==> Occurrences(incs, inc) > 0
    ensures SeriesOf(inc) in Tally(incs) ==> Tally(incs)[SeriesOf(inc)] == Occurrences(incs, inc)
  {
    hide FormatLabels, KeysAreNames;
    if incs != [] {
      var last := incs[|incs| - 1];
      CountsAreOccurrences(incs[..|incs| - 1], inc);
      LabelsAreFaithful(last.labels, inc.labels);
      assert Pairs(last.labels) == last.labels && Pairs(inc.labels) == inc.labels;
    }
  }

  /** Every key of a run's counts is the flattened form of some increment. */
  lemma {:induction false} KeysWereIncremented(incs: seq<Inc>, key: Series)
    requires key in Tally(incs)
    ensures exists i | 0 <= i < |incs| :: SeriesOf(incs[i]) == key
    ensures Tally(incs)[key] > 0
  {
    var n := |incs| - 1;
    if SeriesOf(incs[n]) != key {
      KeysWereIncremented(incs[..n], key);
    } else if key in Tally(incs[..n]) {
      KeysWereIncremented(incs[..n], key);
    }
  }
}
