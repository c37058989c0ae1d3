/** The scraped text: counters in sorted order under one header per name, then
    the collected gauges. A line parser is the specification. */
module Exposition {
  import opened Common
  import opened Metrics

  // ----- the order series are written in -----

  /** strings.Compare(a, b) <= 0. */
  predicate StringLeq(a: string, b: string) {
    a == [] || (b != [] && (a[0] < b[0] || (a[0] == b[0] && StringLeq(a[1..], b[1..]))))
  }

  predicate SeriesLeq(a: Series, b: Series) {
    if a.name != b.name then StringLeq(a.name, b.name) else StringLeq(a.labels, b.labels)
  }

  lemma {:induction false} StringLeqTotal(a: string, b: string)
    ensures StringLeq(a, b) || StringLeq(b, a)
    ensures StringLeq(a, b) && StringLeq(b, a) ==> a == b
  {
    if a != [] && b != [] {
      StringLeqTotal(a[1..], b[1..]);
      assert a == [a[0]] + a[1..] && b == [b[0]] + b[1..];
    }
  }

  lemma {:induction false} StringLeqTransitive(a: string, b: string, c: string)
    requires StringLeq(a, b) && StringLeq(b, c)
    ensures StringLeq(a, c)
  {
    if a != [] && a[0] == b[0] == c[0] {
      StringLeqTransitive(a[1..], b[1..], c[1..]);
    }
  }

  lemma SeriesLeqTotal(a: Series, b: Series)
    ensures SeriesLeq(a, b) || SeriesLeq(b, a)
    ensures SeriesLeq(a, b) && SeriesLeq(b, a) ==> a == b
  {
    StringLeqTotal(a.name, b.name);
    StringLeqTotal(a.labels, b.labels);
  }

  lemma SeriesLeqTransitive(a: Series, b: Series, c: Series)
    requires SeriesLeq(a, b) && SeriesLeq(b, c)
    ensures SeriesLeq(a, c)
  {
    StringLeqTotal(a.name, b.name);
    if a.name == c.name {
      StringLeqTotal(b.name, c.name);
      StringLeqTransitive(a.labels, b.labels, c.labels);
    } else if a.name != b.name && b.name != c.name {
      StringLeqTransitive(a.name, b.name, c.name);
    }
  }

  /** The keys of a set once each, in order. */
  ghost predicate SortedKeys(names: seq<Series>, keys: set<Series>) {
    && (forall key: Series :: key in names <==> key in keys)
    && (forall i: nat, j: nat | i < j < |names| :: SeriesLeq(names[i], names[j]) && names[i] != names[j])
  }

  // ----- what is written -----

  datatype Gauge = Gauge(name: string, help: string, labels: string, value: int)

  /** One sample to write, with the header its name would need. */
  datatype Item = Item(name: string, help: string, kind: string, labels: string, value: int)

  // Help texts are written in pieces so that each is short to reason about.
  const ISSUED_HELP: string := "Certificates issued, " + "by credential kind " + "and profile."
  const DENIED_HELP: string := "Requests refused because " + "the caller lacked " + "the role."
  const LIMITED_HELP: string := "Issuance requests refused " + "by the per-user " + "rate limit."
  const REVOKED_HELP: string := "Credentials revoked, " + "by kind."
  const SIGN_IN_HELP: string := "Sign-ins that did " + "not complete."

  const COUNTER_HELP: map<string, string> := map[
    "gruff_certificates_issued_total" := ISSUED_HELP,
    "gruff_authorization_denied_total" := DENIED_HELP,
    "gruff_rate_limited_total" := LIMITED_HELP,
    "gruff_revocations_total" := REVOKED_HELP,
    "gruff_sign_in_failures_total" := SIGN_IN_HELP]

  function HelpOf(name: string): string {
    if name in COUNTER_HELP then COUNTER_HELP[name] else ""
  }

  /** fmt's %d. */
  function PrintInt(v: int): string {
    if v < 0 then "-" + Decimal(-v) else Decimal(v)
  }

  function HelpText(item: Item): string {
    "# HELP " + item.name + " " + item.help
  }

  function TypeText(item: Item): string {
    "# TYPE " + item.name + " " + item.kind
  }

  function HeaderText(item: Item): string {
    HelpText(item) + "\n" + (TypeText(item) + "\n")
  }

  function ValueText(item: Item): string {
    item.name + (item.labels + (" " + PrintInt(item.value)))
  }

  function SampleText(item: Item): string {
    ValueText(item) + "\n"
  }

  /** Samples in order, a header before one whose name differs from the last. */
  function ItemsText(items: seq<Item>, last: string): string {
    if items == [] then ""
    else
      (if items[0].name != last then HeaderText(items[0]) else "")
      + SampleText(items[0]) + ItemsText(items[1..], items[0].name)
  }

  function CounterItem(counts: Counts, s: Series): Item
    requires s in counts
  {
    Item(s.name, HelpOf(s.name), "counter", s.labels, counts[s])
  }

  function CounterItems(counts: Counts, names: seq<Series>): seq<Item>
    requires forall s | s in names :: s in counts
  {
    seq(|names|, i requires 0 <= i < |names| => CounterItem(counts, names[i]))
  }

  function GaugeItem(g: Gauge): Item {
    Item(g.name, g.help, "gauge", g.labels, g.value)
  }

  function GaugeItems(gauges: seq<Gauge>): seq<Item> {
    seq(|gauges|, i requires 0 <= i < |gauges| => GaugeItem(gauges[i]))
  }

  function LastName(items: seq<Item>, last: string): string {
    if items == [] then last else items[|items| - 1].name
  }

  lemma ItemsTextStep(item: Item, more: seq<Item>, last: string)
    ensures ItemsText([item] + more, last)
         == (if item.name != last then HeaderText(item) else "") + SampleText(item) + ItemsText(more, item.name)
    ensures ItemsText([], last) == ""
  {
    assert ([item] + more)[1..] == more;
  }

  lemma {:induction false} ItemsTextSnoc(items: seq<Item>, item: Item, last: string)
    ensures ItemsText(items + [item], last)
         == ItemsText(items, last)
            + (if item.name != LastName(items, last) then HeaderText(item) else "") + SampleText(item)
  {
    hide HeaderText, SampleText, ItemsText;
    if items == [] {
      ItemsTextStep(item, [], last);
      ItemsTextStep(item, [], item.name);
      assert items + [item] == [item] + [];
    } else {
      var rest := items[1..];
      ItemsTextSnoc(rest, item, items[0].name);
      ItemsTextStep(items[0], rest, last);
      ItemsTextStep(items[0], rest + [item], last);
      assert items == [items[0]] + rest && items + [item] == [items[0]] + (rest + [item]);
    }
  }

  /** The text is that of the counters in sorted order and then the gauges in the
      order given. */
  ghost predicate Exposes(w: string, counts: Counts, gauges: seq<Gauge>) {
    exists names | SortedKeys(names, counts.Keys) ::
      w == ItemsText(CounterItems(counts, names), "") + ItemsText(GaugeItems(gauges), "")
  }

  class Registry {
    var counts: Counts

    constructor ()
      ensures counts == map[]
    {
      counts := map[];
    }

    method Inc(name: string, labels: seq<string>)
      modifies this
      ensures counts == Incremented(old(counts), Metrics.Inc(name, labels))
    {
      var text := WriteLabels(labels);
      var key := Series(name, text);
      counts := counts[key := (if key in counts then counts[key] else 0) + 1];
    }

    /** The keys of the counters, sorted by name and then labels. */
    method SortedNames() returns (names: seq<Series>)
      ensures SortedKeys(names, counts.Keys)
    {
      names := [];
      var todo := counts.Keys;
      while todo != {}
        modifies {}
        invariant todo <= counts.Keys
        invariant SortedKeys(names, counts.Keys - todo)
        decreases |todo|
      {
        var key :| key in todo;
        var at := 0;
        while at < |names| && SeriesLeq(names[at], key)
          modifies {}
          invariant at <= |names|
          invariant forall i: nat | i < at :: SeriesLeq(names[i], key)
        {
          at := at + 1;
        }
        InsertKey(names, counts.Keys - todo, key, at);
        names := names[..at] + [key] + names[at..];
        todo := todo - {key};
        assert counts.Keys - todo == counts.Keys - (todo + {key}) + {key};
      }
      assert counts.Keys - todo == counts.Keys;
    }

    /** writeTo: counters first, then the gauges in the order given. */
    method WriteTo(gauges: seq<Gauge>) returns (w: string)
      ensures Exposes(w, counts, gauges)
    {
      hide ItemsText, CounterItems, GaugeItems;
      var names := SortedNames();
      var counters := WriteCounters(names);
      var rest := WriteGauges(gauges);
      w := counters + rest;
    }

    method WriteCounters(names: seq<Series>) returns (w: string)
      requires forall s | s in names :: s in counts
      ensures w == ItemsText(CounterItems(counts, names), "")
    {
      hide ItemsText, HeaderText, SampleText;
      ghost var items := CounterItems(counts, names);
      w := "";
      var last := "";
      EmptyItemsText("");
      assert items[..0] == [];
      for i := 0 to |names|
        modifies {}
        invariant w == ItemsText(items[..i], "") && last == LastName(items[..i], "")
      {
        var s := names[i];
        ItemsTextSnoc(items[..i], items[i], "");
        assert items[..i + 1] == items[..i] + [items[i]];
        if s.name != last {
          w := w + HeaderText(CounterItem(counts, s));
          last := s.name;
        }
        w := w + SampleText(CounterItem(counts, s));
      }
      assert items[..|items|] == items;
    }

    static method WriteGauges(gauges: seq<Gauge>) returns (w: string)
      ensures w == ItemsText(GaugeItems(gauges), "")
    {
      hide ItemsText, HeaderText, SampleText;
      ghost var items := GaugeItems(gauges);
      w := "";
      var last := "";
      EmptyItemsText("");
      assert items[..0] == [];
      for i := 0 to |gauges|
        invariant w == ItemsText(items[..i], "") && last == LastName(items[..i], "")
      {
        ItemsTextSnoc(items[..i], items[i], "");
        assert items[..i + 1] == items[..i] + [items[i]];
        if gauges[i].name != last {
          w := w + HeaderText(GaugeItem(gauges[i]));
          last := gauges[i].name;
        }
        w := w + SampleText(GaugeItem(gauges[i]));
      }
      assert items[..|items|] == items;
    }
  }

  lemma EmptyItemsText(last: string)
    ensures ItemsText([], last) == ""
  {
  }

  lemma InsertKey(names: seq<Series>, keys: set<Series>, key: Series, at: nat)
    requires SortedKeys(names, keys) && key !in keys && at <= |names|
    requires forall i: nat | i < at :: SeriesLeq(names[i], key)
    requires at < |names| ==> !SeriesLeq(names[at], key)
    ensures SortedKeys(names[..at] + [key] + names[at..], keys + {key})
  {
    var grown := names[..at] + [key] + names[at..];
    forall i: nat | at <= i < |names| ensures SeriesLeq(key, names[i]) {
      SeriesLeqTotal(names[at], key);
      if i > at {
        SeriesLeqTransitive(key, names[at], names[i]);
      }
    }
    forall s: Series ensures s in grown <==> s in keys + {key} {
      assert s in grown <==> s in names || s == key;
    }
    forall i: nat, j: nat | i < j < |grown| ensures SeriesLeq(grown[i], grown[j]) && grown[i] != grown[j] {
      var i', j' := if i < at then i else i - 1, if j < at then j else j - 1;
      assert i != at ==> grown[i] == names[i'] && names[i'] in names;
      assert j != at ==> grown[j] == names[j'] && names[j'] in names;
    }
  }

  // ----- reading it back -----

  datatype Line =
    | Help(name: string, text: string)
    | Type(name: string, kind: string)
    | Sample(name: string, labels: seq<string>, value: int)

  function ParseInt(s: string): Option<int> {
    if s != [] && s[0] == '-' then
      if s[1..] == [] || !AllDigits(s[1..]) then None else Some(-(DigitsValue(s[1..]) as int))
    else if s == [] || !AllDigits(s) then None
    else Some(DigitsValue(s))
  }

  lemma PrintIntRoundTrip(v: int)
    ensures ParseInt(PrintInt(v)) == Some(v)
    ensures '\n' !in PrintInt(v)
  {
    var d := Decimal(if v < 0 then -v else v);
    DecimalRoundTrip(if v < 0 then -v else v);
    assert ("-" + d)[1..] == d;
    assert IsDigit(d[0]);
    forall c | c in d ensures IsDigit(c) {
      var i: nat :| i < |d| && d[i] == c;
    }
  }

  function ParseLine(line: string): Option<Line> {
    if "# HELP " <= line then
      match Cut(line[7..], ' ') { case None => None case Some((name, text)) => Some(Help(name, text)) }
    else if "# TYPE " <= line then
      match Cut(line[7..], ' ') { case None => None case Some((name, kind)) => Some(Type(name, kind)) }
    else
      var (name, rest) := Span(line);
      if !IsName(name) then None
      else
        match ParseLabels(rest)
        case None => None
        case Some((labels, after)) =>
          if after == [] || after[0] != ' ' then None
          else
            match ParseInt(after[1..])
            case None => None
            case Some(value) => Some(Sample(name, labels, value))
  }

  function ParseLines(s: string): Option<seq<Line>>
    decreases |s|
  {
    if s == [] then Some([])
    else
      CutShrinks(s, '\n');
      match Cut(s, '\n')
      case None => None
      case Some((line, rest)) =>
        match ParseLine(line)
        case None => None
        case Some(first) =>
          match ParseLines(rest)
          case None => None
          case Some(more) => Some([first] + more)
  }

  /** The label list a flattened label set was written from. */
  function LabelList(labels: string): seq<string> {
    match ParseLabels(labels)
    case Some((kv, _)) => kv
    case None => []
  }

  /** An item as every caller makes it. */
  ghost predicate Writable(item: Item) {
    && IsName(item.name)
    && '\n' !in item.help
    && item.kind in {"counter", "gauge"}
    && Flattened(item.labels)
  }

  ghost predicate Flattened(labels: string) {
    exists kv: seq<string> | |kv| % 2 == 0 && KeysAreNames(kv) :: labels == FormatLabels(kv)
  }

  function HeaderLines(item: Item): seq<Line> {
    [Help(item.name, item.help), Type(item.name, item.kind)]
  }

  function SampleLine(item: Item): Line {
    Sample(item.name, LabelList(item.labels), item.value)
  }

  /** The lines an item list should be read back as. */
  function ItemsLines(items: seq<Item>, last: string): seq<Line> {
    if items == [] then []
    else
      (if items[0].name != last then HeaderLines(items[0]) else [])
      + [SampleLine(items[0])] + ItemsLines(items[1..], items[0].name)
  }

  function Prepend(lines: seq<Line>, r: Option<seq<Line>>): Option<seq<Line>> {
    match r
    case None => None
    case Some(more) => Some(lines + more)
  }

  lemma PrependTwice(a: seq<Line>, b: seq<Line>, r: Option<seq<Line>>)
    ensures Prepend(a, Prepend(b, r)) == Prepend(a + b, r)
    ensures Prepend([], r) == r
  {
    if r.Some? {
      assert a + (b + r.value) == a + b + r.value;
      assert [] + r.value == r.value;
    }
  }

  lemma ParseOneLine(line: string, rest: string)
    requires '\n' !in line && ParseLine(line).Some?
    ensures ParseLines(line + "\n" + rest) == Prepend([ParseLine(line).value], ParseLines(rest))
  {
    hide ParseLine, Cut;
    CutAt(line, '\n', rest);
  }

  lemma NameHasNo(name: string, c: char)
    requires IsName(name) && !IsNameChar(c)
    ensures c !in name
  {
  }

  lemma ReadHelp(item: Item)
    requires IsName(item.name) && '\n' !in item.help
    ensures ParseLine(HelpText(item)) == Some(Help(item.name, item.help))
    ensures '\n' !in HelpText(item)
  {
    hide Cut;
    NameHasNo(item.name, ' ');
    NameHasNo(item.name, '\n');
    assert HelpText(item)[7..] == item.name + " " + item.help;
    CutAt(item.name, ' ', item.help);
    assert "# HELP " <= HelpText(item);
  }

  lemma ReadType(item: Item)
    requires IsName(item.name) && '\n' !in item.kind
    ensures ParseLine(TypeText(item)) == Some(Type(item.name, item.kind))
    ensures '\n' !in TypeText(item)
  {
    hide Cut;
    NameHasNo(item.name, ' ');
    NameHasNo(item.name, '\n');
    assert TypeText(item)[7..] == item.name + " " + item.kind;
    CutAt(item.name, ' ', item.kind);
    assert "# TYPE " <= TypeText(item) && TypeText(item)[2] == 'T' && "# HELP "[2] == 'H';
  }

  lemma ReadHeader(item: Item, rest: string)
    requires Writable(item)
    ensures ParseLines(HeaderText(item) + rest) == Prepend(HeaderLines(item), ParseLines(rest))
  {
    hide ParseLines, ParseLine, HelpText, TypeText, Flattened, IsName, Prepend;
    ReadHelp(item);
    ReadType(item);
    var help, kind := HelpText(item), TypeText(item);
    ParseOneLine(kind, rest);
    ParseOneLine(help, kind + "\n" + rest);
    Associative(help + "\n", kind + "\n", rest);
    PrependTwice([Help(item.name, item.help)], [Type(item.name, item.kind)], ParseLines(rest));
    assert [Help(item.name, item.help)] + [Type(item.name, item.kind)] == HeaderLines(item);
  }

  lemma {:induction false} EscapedHasNoNewline(v: string)
    ensures '\n' !in EscapeLabel(v)
  {
    if v != [] {
      EscapedHasNoNewline(v[1..]);
    }
  }

  lemma {:induction false} PairsHaveNoNewline(kv: seq<string>)
    requires KeysAreNames(kv)
    ensures '\n' !in PairsText(kv)
    decreases |kv|
  {
    if |kv| >= 2 {
      assert IsName(kv[2 * 0]);
      NameHasNo(kv[0], '\n');
      EscapedHasNoNewline(kv[1]);
      hide EscapeLabel;
      assert forall i | 0 <= i < |kv[2..]| / 2 :: kv[2..][2 * i] == kv[2 * (i + 1)];
      PairsHaveNoNewline(kv[2..]);
      assert '\n' !in PairText(kv[0], kv[1]);
    }
  }

  lemma ReadLabels(labels: string, rest: string)
    requires Flattened(labels) && (rest == [] || rest[0] != '{')
    ensures ParseLabels(labels + rest) == Some((LabelList(labels), rest))
    ensures FormatLabels(LabelList(labels)) == labels
    ensures '\n' !in labels
    ensures labels == "" || labels[0] == '{'
  {
    hide ParseLabels, ParsePairs, PairsText;
    var kv: seq<string> :| |kv| % 2 == 0 && KeysAreNames(kv) && labels == FormatLabels(kv);
    LabelsRoundTrip(kv, rest);
    LabelsRoundTrip(kv, "");
    assert labels + "" == labels && Pairs(kv) == kv;
    PairsHaveNoNewline(kv);
  }

  lemma ReadValue(item: Item)
    requires Writable(item)
    ensures ParseLine(ValueText(item)) == Some(SampleLine(item))
    ensures '\n' !in ValueText(item)
  {
    hide ParseLabels, Flattened, PrintInt, ParseInt, LabelList, Cut, Span;
    var value := " " + PrintInt(item.value);
    PrintIntRoundTrip(item.value);
    assert value[1..] == PrintInt(item.value);
    ReadLabels(item.labels, value);
    NameHasNo(item.name, '\n');
    SpanName(item.name, item.labels + value);
    var line := ValueText(item);
    assert line[0] == item.name[0] && IsNameChar(line[0]);
    assert "# HELP "[0] == '#' && "# TYPE "[0] == '#';
  }

  lemma ReadSample(item: Item, rest: string)
    requires Writable(item)
    ensures ParseLines(SampleText(item) + rest) == Prepend([SampleLine(item)], ParseLines(rest))
  {
    hide ParseLines, ParseLine, ValueText, Flattened;
    ReadValue(item);
    ParseOneLine(ValueText(item), rest);
  }

  /** Every item list is read back line for line, with whatever follows it. */
  lemma {:induction false} ItemsRoundTrip(items: seq<Item>, last: string, rest: string)
    requires forall item | item in items :: Writable(item)
    ensures ParseLines(ItemsText(items, last) + rest) == Prepend(ItemsLines(items, last), ParseLines(rest))
  {
    hide ParseLines, Writable, HeaderText, SampleText, SampleLine, HeaderLines, Prepend;
    if items == [] {
      assert "" + rest == rest;
      PrependTwice([], [], ParseLines(rest));
    } else {
      var item := items[0];
      var text, lines := ItemsText(items[1..], item.name), ItemsLines(items[1..], item.name);
      ItemsRoundTrip(items[1..], item.name, rest);
      ReadSample(item, text + rest);
      PrependTwice([SampleLine(item)], lines, ParseLines(rest));
      Associative(SampleText(item), text, rest);
      if item.name != last {
        ReadHeader(item, SampleText(item) + text + rest);
        PrependTwice(HeaderLines(item), [SampleLine(item)] + lines, ParseLines(rest));
        Associative(HeaderText(item), SampleText(item), text);
        Associative(HeaderText(item), SampleText(item) + text, rest);
        Associative(HeaderLines(item), [SampleLine(item)], lines);
      } else {
        assert ItemsText(items, last) == SampleText(item) + text;
        assert ItemsLines(items, last) == [SampleLine(item)] + lines;
      }
    }
  }

  /** The exposition, parsed, is its items line for line: nothing in a help text,
      a label value or a number can be mistaken for structure. */
  lemma ExpositionParsesBack(counts: Counts, names: seq<Series>, gauges: seq<Gauge>)
    requires SortedKeys(names, counts.Keys)
    requires forall s | s in counts :: Writable(CounterItem(counts, s))
    requires forall g | g in gauges :: Writable(GaugeItem(g))
    ensures ParseLines(ItemsText(CounterItems(counts, names), "") + ItemsText(GaugeItems(gauges), ""))
         == Some(ItemsLines(CounterItems(counts, names), "") + ItemsLines(GaugeItems(gauges), ""))
  {
    hide ParseLines, Writable, ItemsText, ItemsLines;
    var counters, rest := CounterItems(counts, names), GaugeItems(gauges);
    forall item | item in counters ensures Writable(item) {
      var i :| 0 <= i < |names| && item == CounterItem(counts, names[i]);
      assert names[i] in names;
    }
    ItemsRoundTrip(rest, "", "");
    ItemsRoundTrip(counters, "", ItemsText(rest, ""));
    assert ItemsText(rest, "") + "" == ItemsText(rest, "");
    assert ParseLines("") == Some([]) by { NoLines(); }
    assert ItemsLines(rest, "") + [] == ItemsLines(rest, "");
  }

  lemma NoLines()
    ensures ParseLines("") == Some([])
  {
  }

  /** What the sample lines say about each series. */
  function Recovered(lines: seq<Line>): Counts {
    if lines == [] then map[]
    else
      var rest := Recovered(lines[1..]);
      match lines[0]
      case Sample(name, labels, value) => rest[Series(name, FormatLabels(labels)) := value]
      case _ => rest
  }

  lemma RecoveredLine(line: Line, more: seq<Line>)
    ensures Recovered([line] + more)
         == if line.Sample? then Recovered(more)[Series(line.name, FormatLabels(line.labels)) := line.value]
            else Recovered(more)
  {
    assert ([line] + more)[1..] == more;
  }

  lemma RecoveredHeader(item: Item, more: seq<Line>)
    ensures Recovered(HeaderLines(item) + more) == Recovered(more)
  {
    hide Recovered;
    var help, kind := Help(item.name, item.help), Type(item.name, item.kind);
    RecoveredLine(kind, more);
    RecoveredLine(help, [kind] + more);
    assert HeaderLines(item) + more == [help] + ([kind] + more);
  }

  lemma RecoveredSample(item: Item, more: seq<Line>)
    requires Flattened(item.labels)
    ensures Recovered([SampleLine(item)] + more) == Recovered(more)[Series(item.name, item.labels) := item.value]
  {
    ReadLabels(item.labels, "");
    hide LabelList, FormatLabels, Flattened, Recovered;
    RecoveredLine(SampleLine(item), more);
  }

  lemma RecoveredItem(item: Item, last: string, more: seq<Line>)
    requires Flattened(item.labels)
    ensures Recovered((if item.name != last then HeaderLines(item) else []) + [SampleLine(item)] + more)
         == Recovered(more)[Series(item.name, item.labels) := item.value]
  {
    hide LabelList, FormatLabels, Flattened, Recovered, HeaderLines, SampleLine;
    var samples := [SampleLine(item)] + more;
    RecoveredSample(item, more);
    RecoveredHeader(item, samples);
    assert HeaderLines(item) + [SampleLine(item)] + more == HeaderLines(item) + samples;
    assert [] + [SampleLine(item)] + more == samples;
  }

  lemma CountersStep(counts: Counts, names: seq<Series>, last: string)
    requires names != [] && forall s | s in names :: s in counts
    ensures var item := CounterItem(counts, names[0]);
            ItemsLines(CounterItems(counts, names), last)
            == (if item.name != last then HeaderLines(item) else []) + [SampleLine(item)]
               + ItemsLines(CounterItems(counts, names[1..]), item.name)
  {
    hide CounterItem, HeaderLines, SampleLine;
    assert CounterItems(counts, names)[1..] == CounterItems(counts, names[1..]);
  }

  /** The counts of some series. */
  function CountsOf(counts: Counts, names: seq<Series>): Counts
    requires forall s | s in names :: s in counts
  {
    map s | s in names :: counts[s]
  }

  lemma CountsOfStep(counts: Counts, names: seq<Series>)
    requires names != [] && forall s | s in names :: s in counts
    ensures CountsOf(counts, names) == CountsOf(counts, names[1..])[names[0] := counts[names[0]]]
  {
    assert names == [names[0]] + names[1..];
  }

  /** The counter lines say exactly what the counters held. */
  lemma {:induction false} CountersRecovered(counts: Counts, names: seq<Series>, last: string)
    requires forall s | s in names :: s in counts && Flattened(s.labels)
    ensures Recovered(ItemsLines(CounterItems(counts, names), last)) == CountsOf(counts, names)
  {
    if names != [] {
      hide Recovered, Flattened, HeaderLines, SampleLine, HelpOf, ItemsLines, CounterItems, CountsOf;
      var item := CounterItem(counts, names[0]);
      CountersRecovered(counts, names[1..], item.name);
      CountersStep(counts, names, last);
      CountsOfStep(counts, names);
      RecoveredItem(item, last, ItemsLines(CounterItems(counts, names[1..]), item.name));
    }
  }

  // ----- every sample, and what is said of its name -----

  /** The samples among the lines, in order. */
  function Samples(lines: seq<Line>): seq<Line> {
    if lines == [] then []
    else (if lines[0].Sample? then [lines[0]] else []) + Samples(lines[1..])
  }

  lemma {:induction false} SamplesConcat(a: seq<Line>, b: seq<Line>)
    ensures Samples(a + b) == Samples(a) + Samples(b)
  {
    if a == [] {
      assert a + b == b;
    } else {
      assert (a + b)[1..] == a[1..] + b;
      SamplesConcat(a[1..], b);
    }
  }

  lemma ItemLines(items: seq<Item>, last: string)
    requires items != []
    ensures var head := if items[0].name != last then HeaderLines(items[0]) else [];
            ItemsLines(items, last) == head + [SampleLine(items[0])] + ItemsLines(items[1..], items[0].name)
  {
  }

  lemma HeaderHasNoSample(item: Item)
    ensures Samples(HeaderLines(item)) == [] && Samples([]) == []
  {
    var help, kind := Help(item.name, item.help), Type(item.name, item.kind);
    SamplesConcat([help], [kind]);
    assert [help][1..] == [] && [kind][1..] == [];
    assert HeaderLines(item) == [help] + [kind];
  }

  lemma OneSample(item: Item)
    ensures Samples([SampleLine(item)]) == [SampleLine(item)]
  {
    assert [SampleLine(item)][1..] == [];
  }

  /** The samples written are those of the items, one each, in order. */
  lemma {:induction false} ItemsSamples(items: seq<Item>, last: string)
    ensures |Samples(ItemsLines(items, last))| == |items|
    ensures forall i: nat | i < |items| :: Samples(ItemsLines(items, last))[i] == SampleLine(items[i])
  {
    if items != [] {
      hide Samples, ItemsLines, SampleLine, HeaderLines;
      var head := if items[0].name != last then HeaderLines(items[0]) else [];
      var rest := ItemsLines(items[1..], items[0].name);
      ItemsSamples(items[1..], items[0].name);
      ItemLines(items, last);
      HeaderHasNoSample(items[0]);
      OneSample(items[0]);
      SamplesConcat(head + [SampleLine(items[0])], rest);
      SamplesConcat(head, [SampleLine(items[0])]);
    }
  }

  /** A header line says what some item of its name says. */
  ghost predicate HeaderOf(line: Line, items: seq<Item>) {
    exists item :: item in items && (line == Help(item.name, item.help) || line == Type(item.name, item.kind))
  }

  lemma {:induction false} ItemsHeaders(items: seq<Item>, last: string)
    ensures forall line | line in ItemsLines(items, last) && !line.Sample? :: HeaderOf(line, items)
  {
    if items != [] {
      ItemsHeaders(items[1..], items[0].name);
      ItemLines(items, last);
      hide ItemsLines;
      assert items[0] in items;
      forall line | line in ItemsLines(items, last) && !line.Sample? ensures HeaderOf(line, items) {
        if line in ItemsLines(items[1..], items[0].name) {
          var item :| item in items[1..]
            && (line == Help(item.name, item.help) || line == Type(item.name, item.kind));
          assert item in items;
        } else {
          assert line in HeaderLines(items[0]);
        }
      }
    }
  }

  lemma ReadsFlattened(kv: seq<string>)
    requires |kv| % 2 == 0 && KeysAreNames(kv)
    ensures LabelList(FormatLabels(kv)) == kv
  {
    hide FormatLabels, KeysAreNames, ParseLabels;
    LabelsRoundTrip(kv, "");
    assert FormatLabels(kv) + "" == FormatLabels(kv);
    WholePairs(kv, |kv|);
    assert kv[..|kv|] == kv;
  }

  /** Read back, the gauges written are every gauge with its labels and its value, in
      order, and nothing else; and the header lines carry a gauge's help or say that
      its name is a gauge. */
  lemma GaugesRecovered(gauges: seq<Gauge>, labels: seq<seq<string>>, last: string)
    requires |labels| == |gauges|
    requires forall i: nat | i < |gauges| ::
      |labels[i]| % 2 == 0 && KeysAreNames(labels[i]) && gauges[i].labels == FormatLabels(labels[i])
    ensures var lines := ItemsLines(GaugeItems(gauges), last);
            && |Samples(lines)| == |gauges|
            && (forall i: nat | i < |gauges| ::
                  Samples(lines)[i] == Sample(gauges[i].name, labels[i], gauges[i].value))
            && (forall line | line in lines && !line.Sample? ::
                  exists g :: g in gauges && (line == Help(g.name, g.help) || line == Type(g.name, "gauge")))
  {
    var items := GaugeItems(gauges);
    ItemsSamples(items, last);
    ItemsHeaders(items, last);
    hide Samples, ItemsLines, FormatLabels, KeysAreNames, LabelList;
    var lines := ItemsLines(items, last);
    forall i: nat | i < |gauges| ensures Samples(lines)[i] == Sample(gauges[i].name, labels[i], gauges[i].value) {
      ReadsFlattened(labels[i]);
    }
    forall line | line in lines && !line.Sample?
      ensures exists g :: g in gauges && (line == Help(g.name, g.help) || line == Type(g.name, "gauge"))
    {
      var item :| item in items && (line == Help(item.name, item.help) || line == Type(item.name, item.kind));
      var i: nat :| i < |items| && items[i] == item;
      assert gauges[i] in gauges;
    }
  }

  /** The counters' header lines carry the help of a counter or say that its name is a
      counter. */
  lemma CountersTyped(counts: Counts, names: seq<Series>, last: string)
    requires forall s | s in names :: s in counts
    ensures forall line | line in ItemsLines(CounterItems(counts, names), last) && !line.Sample? ::
      exists s :: s in names && (line == Help(s.name, HelpOf(s.name)) || line == Type(s.name, "counter"))
  {
    var items := CounterItems(counts, names);
    ItemsHeaders(items, last);
    hide ItemsLines, HelpOf;
    forall line | line in ItemsLines(items, last) && !line.Sample?
      ensures exists s :: s in names && (line == Help(s.name, HelpOf(s.name)) || line == Type(s.name, "counter"))
    {
      var item :| item in items && (line == Help(item.name, item.help) || line == Type(item.name, item.kind));
      var i: nat :| i < |items| && items[i] == item;
      assert names[i] in names;
    }
  }

  // ----- one header per name -----

  /** The rule a scraper holds one metric name to, from the point where its HELP
      and TYPE lines have or have not been seen: neither comes twice, and no
      sample comes before both. */
  predicate Headed(lines: seq<Line>, name: string, helped: bool, typed: bool) {
    lines == []
    || (if lines[0].name != name then Headed(lines[1..], name, helped, typed)
        else match lines[0]
          case Help(_, _) => !helped && Headed(lines[1..], name, true, typed)
          case Type(_, _) => !typed && Headed(lines[1..], name, helped, true)
          case Sample(_, _, _) => helped && typed && Headed(lines[1..], name, helped, typed))
  }

  predicate Named(items: seq<Item>, name: string) {
    exists i: nat | i < |items| :: items[i].name == name
  }

  /** Items of one name stand together. */
  ghost predicate Grouped(items: seq<Item>) {
    forall i: nat, j: nat, k: nat | i < j < k < |items| && items[i].name == items[k].name ::
      items[j].name == items[i].name
  }

  lemma HeadedHeader(item: Item, more: seq<Line>, name: string)
    ensures item.name == name && Headed(more, name, true, true) ==> Headed(HeaderLines(item) + more, name, false, false)
    ensures item.name != name ==>
      forall seen :: Headed(more, name, seen, seen) ==> Headed(HeaderLines(item) + more, name, seen, seen)
  {
    var lines := HeaderLines(item) + more;
    assert lines[1..] == [Type(item.name, item.kind)] + more;
    assert lines[1..][1..] == more;
  }

  lemma HeadedSample(item: Item, more: seq<Line>, name: string, seen: bool)
    requires Headed(more, name, seen, seen) && (item.name == name ==> seen)
    ensures Headed([SampleLine(item)] + more, name, seen, seen)
  {
    assert ([SampleLine(item)] + more)[1..] == more;
  }

  lemma {:induction false} GroupedIsHeaded(items: seq<Item>, last: string, name: string, seen: bool, rest: seq<Line>)
    requires Grouped(items)
    requires seen ==> !Named(items, name) || (items[0].name == name && last == name)
    requires !seen ==> last != name
    requires var headed := seen || Named(items, name); Headed(rest, name, headed, headed)
    ensures Headed(ItemsLines(items, last) + rest, name, seen, seen)
    decreases |items|
  {
    hide SampleLine, HeaderLines, Headed;
    if items == [] {
      assert [] + rest == rest;
    } else {
      var item, tail := items[0], items[1..];
      var seen' := seen || item.name == name;
      assert forall i: nat | i < |tail| :: tail[i] == items[i + 1];
      if Named(tail, name) {
        var k: nat :| k < |tail| && tail[k].name == name;
        assert items[k + 1].name == name;
        assert item.name == name && k > 0 ==> items[1].name == name;
      }
      assert Named(items, name) <==> item.name == name || Named(tail, name) by {
        if Named(items, name) && item.name != name {
          var i: nat :| i < |items| && items[i].name == name;
          assert tail[i - 1].name == name;
        }
      }
      GroupedIsHeaded(tail, item.name, name, seen', rest);
      var more := ItemsLines(tail, item.name) + rest;
      HeadedSample(item, more, name, seen');
      HeadedHeader(item, [SampleLine(item)] + more, name);
      Associative([SampleLine(item)], ItemsLines(tail, item.name), rest);
      Associative(HeaderLines(item), [SampleLine(item)] + ItemsLines(tail, item.name), rest);
      Associative(HeaderLines(item), [SampleLine(item)], ItemsLines(tail, item.name));
      if item.name == last {
        assert ItemsLines(items, last) == [SampleLine(item)] + ItemsLines(tail, item.name);
      }
    }
  }

  /** The sort puts the series of one name together. */
  lemma SortedIsGrouped(counts: Counts, names: seq<Series>)
    requires SortedKeys(names, counts.Keys)
    ensures Grouped(CounterItems(counts, names))
  {
    forall i: nat, j: nat, k: nat | i < j < k < |names| && names[i].name == names[k].name
      ensures names[j].name == names[i].name
    {
      assert SeriesLeq(names[i], names[j]) && SeriesLeq(names[j], names[k]);
      StringLeqTotal(names[i].name, names[j].name);
    }
  }

  /** Every metric name in the exposition has exactly one HELP and one TYPE line,
      both before its first sample, given that the gauges are grouped and share
      no name with a counter. */
  lemma OneHeaderPerName(counts: Counts, names: seq<Series>, gauges: seq<Gauge>, name: string)
    requires SortedKeys(names, counts.Keys) && name != ""
    requires Grouped(GaugeItems(gauges))
    requires forall s, g | s in counts && g in gauges :: s.name != g.name
    ensures Headed(ItemsLines(CounterItems(counts, names), "") + ItemsLines(GaugeItems(gauges), ""), name, false, false)
  {
    var counters, rest := CounterItems(counts, names), GaugeItems(gauges);
    SortedIsGrouped(counts, names);
    var seen := Named(counters, name);
    forall i: nat, j: nat | i < |counters| && j < |rest| ensures counters[i].name != rest[j].name {
      assert names[i] in names && gauges[j] in gauges;
    }
    var both := seen || Named(rest, name);
    assert Headed([], name, both, both);
    if seen {
      HeadedWithout(rest, "", name);
    } else {
      GroupedIsHeaded(rest, "", name, false, []);
      assert ItemsLines(rest, "") + [] == ItemsLines(rest, "");
    }
    GroupedIsHeaded(counters, "", name, false, ItemsLines(rest, ""));
  }

  lemma {:induction false} HeadedWithout(items: seq<Item>, last: string, name: string)
    requires !Named(items, name)
    ensures Headed(ItemsLines(items, last), name, true, true)
  {
    if items != [] {
      hide Headed, SampleLine, HeaderLines;
      var item, tail := items[0], items[1..];
      assert item.name != name && forall i: nat | i < |tail| :: tail[i] == items[i + 1];
      HeadedWithout(tail, item.name, name);
      var more := ItemsLines(tail, item.name);
      HeadedSample(item, more, name, true);
      HeadedHeader(item, [SampleLine(item)] + more, name);
      Associative(HeaderLines(item), [SampleLine(item)], more);
      assert [] + [SampleLine(item)] + more == [SampleLine(item)] + more;
    }
  }
}
