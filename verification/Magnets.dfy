/** The tracking issue: one script prints it, the other reads it back.

    The printer groups the issues by area and writes one line for each; the parser walks the
    lines, remembers the area it is in, and collects what it finds by issue number.  `RoundTrip`
    is the main result: reading back what was printed recovers every issue with its count and
    its areas. */
module Magnets {
  import opened Prelude
  import opened Texts
  import opened Strings
  import opened Sorting

  // ----- the records

  /** An issue as the printer gets it; one without area labels has the one area `UNLABELED`. */
  datatype Info = Info(number: nat, areas: seq<string>, count: nat)

  /** An issue as the parser returns it. */
  datatype Magnet = Magnet(number: int, areas: seq<string>, count: int)

  /** One line of the body. */
  datatype Item = Item(number: nat, count: nat)

  const UNLABELED: string := "(unlabeled)"
  const SITE: string := "https://github.com/"
  const OWNER: string := "zed-industries"
  const REPO: string := "zed"
  const INTRO: string :=
    "These are the issues that are " + "frequently re-reported. "
    + "The list is generated regularly " + "by running a script."

  // ----- printing

  function RepoUrl(): string {
    SITE + OWNER + "/" + REPO
  }

  /** A number right-aligned to two places. */
  function Pad2(t: string): string {
    if |t| < 2 then " " + t else t
  }

  function ItemLine(i: Item): string {
    "-   [" + Pad2(Decimal(i.count)) + " dupes] " + RepoUrl() + "/issues/" + Decimal(i.number)
  }

  function Repeat(i: Item, times: nat): seq<Item> {
    seq(times, _ => i)
  }

  /** The issues of an area, once for each time it is among their areas. */
  function ByArea(infos: seq<Info>, area: string): seq<Item> {
    if infos == [] then []
    else Repeat(Item(infos[0].number, infos[0].count), multiset(infos[0].areas)[area])
         + ByArea(infos[1..], area)
  }

  function AllAreas(infos: seq<Info>): seq<string> {
    if infos == [] then [] else infos[0].areas + AllAreas(infos[1..])
  }

  /** The elements in the order they first occur, each once. */
  function Distinct(xs: seq<string>): seq<string> {
    if xs == [] then []
    else
      var before := Distinct(xs[..|xs| - 1]);
      if xs[|xs| - 1] in before then before else before + [xs[|xs| - 1]]
  }

  function SumCounts(items: seq<Item>): nat {
    if items == [] then 0 else items[0].count + SumCounts(items[1..])
  }

  /** The areas, most duplicates first. */
  function AreaOrder(infos: seq<Info>): seq<string> {
    SortDesc(Distinct(AllAreas(infos)), a => SumCounts(ByArea(infos, a)))
  }

  function ItemLines(items: seq<Item>): seq<string> {
    if items == [] then [] else [ItemLine(items[0])] + ItemLines(items[1..])
  }

  function SortedItems(infos: seq<Info>, area: string): seq<Item> {
    SortDesc(ByArea(infos, area), (i: Item) => i.count)
  }

  function Section(infos: seq<Info>, area: string): seq<string> {
    ["", "## " + area, ""] + ItemLines(SortedItems(infos, area))
  }

  function Sections(infos: seq<Info>, areas: seq<string>): seq<string> {
    if areas == [] then [] else Section(infos, areas[0]) + Sections(infos, areas[1..])
  }

  function BodyLines(intro: string, infos: seq<Info>): seq<string> {
    [intro] + Sections(infos, AreaOrder(infos))
  }

  function Body(intro: string, infos: seq<Info>): string {
    Join(BodyLines(intro, infos))
  }

  // ----- parsing

  function ParseCount(line: string): Option<int> {
    match SecondPart(line, "[")
    case None => None
    case Some(part) =>
      match FirstWord(part)
      case None => None
      case Some(word) => ParseInt(word)
  }

  function ParseNumber(line: string): Option<int> {
    match SecondPart(line, "/issues/")
    case None => None
    case Some(part) =>
      match FirstWord(part)
      case None => None
      case Some(word) => ParseInt(TrimEndOf(word, ')'))
  }

  function Labels(area: string): seq<string> {
    if area == UNLABELED then [] else [area]
  }

  /** Adds one more sighting of an issue: its area, if the issue is known already. */
  function Record(ms: seq<Magnet>, area: string, number: int, count: int): seq<Magnet> {
    if ms == [] then [Magnet(number, Labels(area), count)]
    else if ms[0].number == number then [ms[0].(areas := ms[0].areas + Labels(area))] + ms[1..]
    else [ms[0]] + Record(ms[1..], area, number, count)
  }

  /** The parser's state: the area it is in, empty before the first, and what it has found. */
  datatype Parsed = Parsed(area: string, magnets: seq<Magnet>)

  function ParseLine(st: Parsed, line: string): Parsed {
    if StartsWith(line, "## ") then st.(area := Trim(line[3..]))
    else if st.area == "" || !StartsWith(line, "-") || !Occurs(line, "/issues/") then st
    else
      match (ParseCount(line), ParseNumber(line))
      case (Some(count), Some(number)) =>
        st.(magnets := Record(st.magnets, st.area, number, count))
      case _ => st
  }

  function ParseLines(st: Parsed, lines: seq<string>): Parsed
    decreases |lines|
  {
    if lines == [] then st else ParseLines(ParseLine(st, lines[0]), lines[1..])
  }

  function Parse(body: string): seq<Magnet> {
    SortDesc(ParseLines(Parsed("", []), Rows(body)).magnets, (m: Magnet) => m.count)
  }

  // ----- reading back one line

  lemma DigitsHave(n: nat)
    ensures var t := Decimal(n);
            && NoSpaces(t)
            && forall k :: 0 <= k < |t| ==> t[k] != '[' && t[k] != '/' && t[k] != ')' && t[k] != '\n'
  {
  }

  /** Where the issue number starts: nothing before it looks like the path to it. */
  lemma UrlFinds(p: string, t: string)
    requires forall k :: 0 <= k < |p| ==> p[k] != '/'
    ensures Find(p + RepoUrl() + ("/issues/" + t), "/issues/") == |p + RepoUrl()|
  {
    hide *;
    var sep := "/issues/";
    var a0 := sep + t;
    var a1 := "zed" + a0;
    var a2 := ['/'] + a1;
    var a3 := "zed-industries" + a2;
    var a4 := ['/'] + a3;
    var a5 := "github.com" + a4;
    var a6 := ['/'] + a5;
    var a7 := ['/'] + a6;
    var a8 := "https:" + a7;
    FindHere(sep, t);
    FindSkips("zed", a0, sep);
    FindSkipsOne('/', a1, sep);
    FindSkips("zed-industries", a2, sep);
    FindSkipsOne('/', a3, sep);
    FindSkips("github.com", a4, sep);
    FindSkipsOne('/', a5, sep);
    FindSkipsOne('/', a6, sep);
    FindSkips("https:", a7, sep);
    FindSkips(p, a8, sep);
    UrlIs(a0);
    assert p + RepoUrl() + a0 == p + (RepoUrl() + a0);
  }

  lemma UrlIs(t: string)
    ensures |RepoUrl()| == 37
    ensures RepoUrl() + t ==
            "https:" + (['/'] + (['/'] + ("github.com" + (['/'] + ("zed-industries" + (['/'] + ("zed" + t)))))))
  {
    SiteIs(OWNER + ("/" + (REPO + t)));
    hide SITE;
    Reassociate(SITE + OWNER + "/", REPO, t);
    Reassociate(SITE + OWNER, "/", REPO + t);
    Reassociate(SITE, OWNER, "/" + (REPO + t));
  }

  lemma SiteIs(t: string)
    ensures |SITE| == 19
    ensures SITE + t == "https:" + (['/'] + (['/'] + ("github.com" + (['/'] + t))))
  {
    assert SITE == "https:" + ['/'] + ['/'] + "github.com" + ['/'];
    hide SITE;
    Reassociate("https:" + ['/'] + ['/'] + "github.com", ['/'], t);
    Reassociate("https:" + ['/'] + ['/'], "github.com", ['/'] + t);
    Reassociate("https:" + ['/'], ['/'], "github.com" + (['/'] + t));
    Reassociate("https:", ['/'], ['/'] + ("github.com" + (['/'] + t)));
  }

  lemma UrlLacks(c: char)
    requires c == '[' || c == '\n'
    ensures Lacks(RepoUrl(), c)
  {
    assert Lacks(SITE, c) && Lacks(OWNER, c) && Lacks("/", c) && Lacks(REPO, c);
    hide Lacks, SITE, OWNER, REPO;
    LacksBoth(SITE, OWNER, c);
    LacksBoth(SITE + OWNER, "/", c);
    LacksBoth(SITE + OWNER + "/", REPO, c);
  }

  lemma ItemCountParses(i: Item)
    ensures ParseCount(ItemLine(i)) == Some(i.count)
  {
    hide *;
    var dec, tail := Decimal(i.count), " dupes] " + (RepoUrl() + "/issues/" + Decimal(i.number));
    var rest := Pad2(dec) + tail;
    ItemLineIs(i);
    DigitsHave(i.count);
    ParseDecimal(i.count);
    NoBrackets(i);
    PaddedWord(dec, tail);
    FindSkips("-   ", "[" + rest, "[");
    FindHere("[", rest);
    assert "-   " + "[" + rest == "-   " + ("[" + rest);
    SecondPartIs("-   ", "[", rest);
    ParseCountIs(ItemLine(i), rest, dec);
  }

  lemma ItemLineIs(i: Item)
    ensures ItemLine(i) == "-   " + "[" + (Pad2(Decimal(i.count))
                           + (" dupes] " + (RepoUrl() + "/issues/" + Decimal(i.number))))
    ensures ItemLine(i) == ("-   [" + Pad2(Decimal(i.count)) + " dupes] " + RepoUrl())
                           + "/issues/" + Decimal(i.number)
  {
    var h, a, d, u, n := "-   [", Pad2(Decimal(i.count)), " dupes] ", RepoUrl() + "/issues/", Decimal(i.number);
    assert h == "-   " + "[";
    assert ItemLine(i) == h + a + d + RepoUrl() + "/issues/" + n;
    hide *;
    Reassociate(h + a + d, RepoUrl(), "/issues/");
    Reassociate(h + a + d, u, n);
    Reassociate(h + a, d, u + n);
    Reassociate(h, a, d + (u + n));
  }

  lemma PaddedWord(w: string, rest: string)
    requires w != "" && NoSpaces(w) && rest != "" && rest[0] == ' '
    ensures FirstWord(Pad2(w) + rest) == Some(w)
  {
    hide FirstWord, NoSpaces;
    FirstWordIs(w, rest);
  }

  lemma ParseCountIs(line: string, part: string, word: string)
    requires SecondPart(line, "[") == Some(part) && FirstWord(part) == Some(word)
    ensures ParseCount(line) == ParseInt(word)
  {
    hide SecondPart, FirstWord, ParseInt;
  }

  lemma NoBrackets(i: Item)
    ensures var rest := Pad2(Decimal(i.count)) + (" dupes] " + (RepoUrl() + "/issues/" + Decimal(i.number)));
            forall k :: 0 <= k < |rest| ==> rest[k] != '['
  {
    hide *;
    PaddedLacks(i.count, '[');
    DigitsLack(i.number, '[');
    UrlLacks('[');
    WordsLack('[');
    var a, d, u, n := Pad2(Decimal(i.count)), " dupes] ", RepoUrl(), Decimal(i.number);
    LacksBoth(u, "/issues/", '[');
    LacksBoth(u + "/issues/", n, '[');
    LacksBoth(d, u + "/issues/" + n, '[');
    LacksBoth(a, d + (u + "/issues/" + n), '[');
    LacksAll(a + (d + (u + "/issues/" + n)), '[');
  }

  lemma LacksAll(t: string, c: char)
    requires Lacks(t, c)
    ensures forall k :: 0 <= k < |t| ==> t[k] != c
  {
  }

  lemma DigitsLack(n: nat, c: char)
    requires c == '[' || c == '/' || c == '\n'
    ensures Lacks(Decimal(n), c)
  {
    hide Decimal;
    DigitsHave(n);
  }

  lemma PaddedLacks(n: nat, c: char)
    requires c == '[' || c == '/' || c == '\n'
    ensures Lacks(Pad2(Decimal(n)), c)
  {
    hide Decimal;
    DigitsHave(n);
  }

  lemma WordsLack(c: char)
    requires c == '[' || c == '\n'
    ensures Lacks(" dupes] ", c) && Lacks("/issues/", c)
  {
  }

  lemma ItemNumberParses(i: Item)
    ensures Occurs(ItemLine(i), "/issues/") && ParseNumber(ItemLine(i)) == Some(i.number)
  {
    hide *;
    var p, dec := "-   [" + Pad2(Decimal(i.count)) + " dupes] ", Decimal(i.number);
    ItemLineIs(i);
    DigitsHave(i.number);
    ParseDecimal(i.number);
    NoSlashes(i.count);
    DigitWord(i.number);
    UrlFinds(p, dec);
    Reassociate(p + RepoUrl(), "/issues/", dec);
    SecondPartIs(p + RepoUrl(), "/issues/", dec);
    ParseNumberIs(ItemLine(i), dec, dec);
  }

  lemma DigitWord(n: nat)
    ensures FirstWord(Decimal(n)) == Some(Decimal(n)) && TrimEndOf(Decimal(n), ')') == Decimal(n)
  {
    hide Decimal, FirstWord;
    DigitsHave(n);
    FirstWordIs(Decimal(n), "");
    assert Decimal(n) + "" == Decimal(n);
  }

  lemma ParseNumberIs(line: string, part: string, word: string)
    requires SecondPart(line, "/issues/") == Some(part) && FirstWord(part) == Some(word)
    ensures ParseNumber(line) == ParseInt(TrimEndOf(word, ')'))
  {
    hide SecondPart, FirstWord, ParseInt, TrimEndOf;
  }

  lemma NoSlashes(count: nat)
    ensures var p := "-   [" + Pad2(Decimal(count)) + " dupes] ";
            forall k :: 0 <= k < |p| ==> p[k] != '/'
  {
    hide Decimal, Pad2;
    PaddedLacks(count, '/');
    assert Lacks("-   [", '/') && Lacks(" dupes] ", '/');
    LacksBoth("-   [", Pad2(Decimal(count)), '/');
    LacksBoth("-   [" + Pad2(Decimal(count)), " dupes] ", '/');
  }

  /** A printed line is read back for what it says. */
  lemma ItemParses(st: Parsed, i: Item)
    requires st.area != ""
    ensures ParseLine(st, ItemLine(i)) ==
            st.(magnets := Record(st.magnets, st.area, i.number, i.count))
  {
    hide *;
    ItemCountParses(i);
    ItemNumberParses(i);
    ItemLineIs(i);
    RecordsLine(st, ItemLine(i), i.number, i.count);
  }

  lemma RecordsLine(st: Parsed, line: string, number: int, count: int)
    requires st.area != "" && line != "" && line[0] == '-' && Occurs(line, "/issues/")
    requires ParseCount(line) == Some(count) && ParseNumber(line) == Some(number)
    ensures ParseLine(st, line) == st.(magnets := Record(st.magnets, st.area, number, count))
  {
    hide ParseCount, ParseNumber, Occurs, Record;
    assert line[..1] == "-";
    assert |line| >= 3 ==> line[..3][0] == '-';
  }

  lemma HeaderParses(st: Parsed, area: string)
    requires Trimmed(area)
    ensures ParseLine(st, "## " + area) == st.(area := area)
  {
    var line := "## " + area;
    assert line[..3] == "## " && line[3..] == area;
  }

  // ----- reading back a section

  function RecordAll(ms: seq<Magnet>, area: string, items: seq<Item>): seq<Magnet>
    decreases |items|
  {
    if items == [] then ms
    else RecordAll(Record(ms, area, items[0].number, items[0].count), area, items[1..])
  }

  lemma {:induction false} ParseLinesConcat(st: Parsed, a: seq<string>, b: seq<string>)
    ensures ParseLines(st, a + b) == ParseLines(ParseLines(st, a), b)
    decreases |a|
  {
    if a == [] {
      assert a + b == b;
    } else {
      assert (a + b)[1..] == a[1..] + b;
      hide ParseLine;
      ParseLinesConcat(ParseLine(st, a[0]), a[1..], b);
    }
  }

  lemma {:induction false} ItemsParse(st: Parsed, items: seq<Item>)
    requires st.area != ""
    ensures ParseLines(st, ItemLines(items)) ==
            st.(magnets := RecordAll(st.magnets, st.area, items))
    decreases |items|
  {
    hide ParseLine, ItemLine, Record;
    if items != [] {
      ItemParses(st, items[0]);
      ItemsParse(st.(magnets := Record(st.magnets, st.area, items[0].number, items[0].count)), items[1..]);
      assert ItemLines(items)[1..] == ItemLines(items[1..]);
    }
  }

  lemma SectionParses(st: Parsed, infos: seq<Info>, area: string)
    requires Trimmed(area)
    ensures ParseLines(st, Section(infos, area)) ==
            Parsed(area, RecordAll(st.magnets, area, SortedItems(infos, area)))
  {
    HeaderParses(st, area);
    BlankParses(st);
    BlankParses(st.(area := area));
    hide ParseLine, SortedItems, RecordAll, ItemLines;
    var head := ["", "## " + area, ""];
    ParseThree(st, "", "## " + area, "");
    ParseLinesConcat(st, head, ItemLines(SortedItems(infos, area)));
    ItemsParse(st.(area := area), SortedItems(infos, area));
  }

  lemma ParseThree(st: Parsed, a: string, b: string, c: string)
    ensures ParseLines(st, [a, b, c]) == ParseLine(ParseLine(ParseLine(st, a), b), c)
  {
    hide ParseLine;
    assert [a, b, c][1..] == [b, c];
    assert [b, c][1..] == [c];
    var st' := ParseLine(ParseLine(st, a), b);
    assert ParseLines(st', [c]) == ParseLines(ParseLine(st', c), []);
  }

  lemma BlankParses(st: Parsed)
    ensures ParseLine(st, "") == st
  {
  }

  function RecordSections(ms: seq<Magnet>, infos: seq<Info>, areas: seq<string>): seq<Magnet>
    decreases |areas|
  {
    if areas == [] then ms
    else RecordSections(RecordAll(ms, areas[0], SortedItems(infos, areas[0])), infos, areas[1..])
  }

  lemma {:induction false} SectionsParse(st: Parsed, infos: seq<Info>, areas: seq<string>)
    requires forall k :: 0 <= k < |areas| ==> Trimmed(areas[k])
    ensures ParseLines(st, Sections(infos, areas)).magnets == RecordSections(st.magnets, infos, areas)
    decreases |areas|
  {
    hide Section, RecordAll, SortedItems, Trimmed;
    if areas != [] {
      SectionParses(st, infos, areas[0]);
      ParseLinesConcat(st, Section(infos, areas[0]), Sections(infos, areas[1..]));
      SectionsParse(Parsed(areas[0], RecordAll(st.magnets, areas[0], SortedItems(infos, areas[0]))),
                    infos, areas[1..]);
    }
  }

  // ----- what is known of an issue

  /** The record of an issue, if there is one. */
  function Lookup(ms: seq<Magnet>, number: int): Option<Magnet> {
    if ms == [] then None
    else if ms[0].number == number then Some(ms[0])
    else Lookup(ms[1..], number)
  }

  /** How often an area stands in the record of an issue. */
  ghost function Times(ms: seq<Magnet>, number: int, area: string): nat {
    match Lookup(ms, number)
    case Some(m) => multiset(m.areas)[area]
    case None => 0
  }

  predicate Known(ms: seq<Magnet>, number: int) {
    Lookup(ms, number).Some?
  }

  ghost predicate DistinctNumbers(ms: seq<Magnet>) {
    forall p, q :: 0 <= p < q < |ms| ==> ms[p].number != ms[q].number
  }

  lemma {:induction false} RecordLookup(
      ms: seq<Magnet>, area: string, number: int, count: int, other: int)
    ensures Lookup(Record(ms, area, number, count), other) ==
            if other != number then Lookup(ms, other)
            else match Lookup(ms, number)
                 case Some(m) => Some(m.(areas := m.areas + Labels(area)))
                 case None => Some(Magnet(number, Labels(area), count))
  {
    if ms != [] && ms[0].number != number {
      RecordLookup(ms[1..], area, number, count, other);
    }
  }

  lemma RecordTimes(ms: seq<Magnet>, area: string, number: int, count: int, other: int, a: string)
    ensures Times(Record(ms, area, number, count), other, a) ==
            Times(ms, other, a) + if other == number && a == area && a != UNLABELED then 1 else 0
  {
    RecordLookup(ms, area, number, count, other);
  }

  lemma {:induction false} LookupIs(ms: seq<Magnet>, number: int)
    ensures Lookup(ms, number).Some? ==>
              Lookup(ms, number).value in ms && Lookup(ms, number).value.number == number
    ensures Lookup(ms, number).None? <==> forall k :: 0 <= k < |ms| ==> ms[k].number != number
  {
    if ms != [] && ms[0].number != number {
      LookupIs(ms[1..], number);
    }
  }

  lemma {:induction false} LookupOf(ms: seq<Magnet>, k: nat)
    requires DistinctNumbers(ms) && k < |ms|
    ensures Lookup(ms, ms[k].number) == Some(ms[k])
  {
    if k > 0 {
      assert ms[0].number != ms[k].number;
      LookupOf(ms[1..], k - 1);
    }
  }

  lemma {:induction false} RecordDistinct(ms: seq<Magnet>, area: string, number: int, count: int)
    requires DistinctNumbers(ms)
    ensures DistinctNumbers(Record(ms, area, number, count))
    ensures forall k :: 0 <= k < |Record(ms, area, number, count)| ==>
              Record(ms, area, number, count)[k].number == number
              || exists p :: 0 <= p < |ms| && ms[p].number == Record(ms, area, number, count)[k].number
  {
    if ms != [] && ms[0].number != number {
      RecordDistinct(ms[1..], area, number, count);
      var rest := Record(ms[1..], area, number, count);
      forall k | 0 <= k < |rest|
        ensures rest[k].number != ms[0].number
        ensures rest[k].number == number || exists p :: 0 <= p < |ms| && ms[p].number == rest[k].number
      {
        if rest[k].number != number {
          var p :| 0 <= p < |ms[1..]| && ms[1..][p].number == rest[k].number;
          assert ms[p + 1].number == rest[k].number;
        }
      }
    }
  }

  function CountNumber(items: seq<Item>, number: int): nat {
    if items == [] then 0
    else (if items[0].number == number then 1 else 0) + CountNumber(items[1..], number)
  }

  /** Recording a list adds the area once for each line of the issue, and nothing elsewhere. */
  lemma {:induction false} RecordAllTimes(
      ms: seq<Magnet>, area: string, items: seq<Item>, number: int, a: string)
    ensures Times(RecordAll(ms, area, items), number, a) ==
            Times(ms, number, a) + if a == area && a != UNLABELED then CountNumber(items, number) else 0
    decreases |items|
  {
    if items != [] {
      var ms' := Record(ms, area, items[0].number, items[0].count);
      RecordAllTimes(ms', area, items[1..], number, a);
      RecordTimes(ms, area, items[0].number, items[0].count, number, a);
    }
  }

  /** Every line of the issue carries this count. */
  ghost predicate SameCount(items: seq<Item>, number: int, count: int) {
    forall k :: 0 <= k < |items| && items[k].number == number ==> items[k].count == count
  }

  ghost predicate CountIs(ms: seq<Magnet>, number: int, count: int) {
    Known(ms, number) ==> Lookup(ms, number).value.count == count
  }

  lemma {:induction false} RecordAllKnows(
      ms: seq<Magnet>, area: string, items: seq<Item>, number: int, count: int)
    requires DistinctNumbers(ms) && SameCount(items, number, count) && CountIs(ms, number, count)
    ensures DistinctNumbers(RecordAll(ms, area, items))
    ensures CountIs(RecordAll(ms, area, items), number, count)
    ensures Known(RecordAll(ms, area, items), number) <==>
              Known(ms, number) || CountNumber(items, number) > 0
    decreases |items|
  {
    if items != [] {
      var ms' := Record(ms, area, items[0].number, items[0].count);
      RecordDistinct(ms, area, items[0].number, items[0].count);
      RecordLookup(ms, area, items[0].number, items[0].count, number);
      assert CountIs(ms', number, count);
      hide Record;
      RecordAllKnows(ms', area, items[1..], number, count);
    }
  }

  // ----- what the printer lists

  lemma {:induction false} CountInserted(x: Item, xs: seq<Item>, key: Item -> int, number: int)
    ensures CountNumber(InsertDesc(x, xs, key), number) ==
            CountNumber(xs, number) + if x.number == number then 1 else 0
  {
    if xs == [] || key(x) >= key(xs[0]) {
      assert ([x] + xs)[1..] == xs;
    } else {
      CountInserted(x, xs[1..], key, number);
      var rest := InsertDesc(x, xs[1..], key);
      assert ([xs[0]] + rest)[1..] == rest;
    }
  }

  /** The order of the lines does not matter. */
  lemma {:induction false} CountSorted(xs: seq<Item>, key: Item -> int, number: int)
    ensures CountNumber(SortDesc(xs, key), number) == CountNumber(xs, number)
  {
    if xs != [] {
      CountSorted(xs[1..], key, number);
      CountInserted(xs[0], SortDesc(xs[1..], key), key, number);
    }
  }

  lemma {:induction false} CountConcat(a: seq<Item>, b: seq<Item>, number: int)
    ensures CountNumber(a + b, number) == CountNumber(a, number) + CountNumber(b, number)
  {
    if a == [] {
      assert a + b == b;
    } else {
      CountConcat(a[1..], b, number);
      assert (a + b)[1..] == a[1..] + b;
    }
  }

  lemma {:induction false} CountRepeat(i: Item, times: nat, number: int)
    ensures CountNumber(Repeat(i, times), number) == if i.number == number then times else 0
  {
    if times > 0 {
      CountRepeat(i, times - 1, number);
      assert Repeat(i, times)[1..] == Repeat(i, times - 1);
    }
  }

  ghost predicate DistinctInfos(infos: seq<Info>) {
    forall p, q :: 0 <= p < q < |infos| ==> infos[p].number != infos[q].number
  }

  /** The number of lines of an issue in an area is how often the area is among its areas. */
  lemma {:induction false} CountByArea(infos: seq<Info>, area: string, k: nat)
    requires DistinctInfos(infos) && k < |infos|
    ensures CountNumber(ByArea(infos, area), infos[k].number) == multiset(infos[k].areas)[area]
  {
    var first := Item(infos[0].number, infos[0].count);
    var times := multiset(infos[0].areas)[area];
    CountConcat(Repeat(first, times), ByArea(infos[1..], area), infos[k].number);
    CountRepeat(first, times, infos[k].number);
    if k > 0 {
      assert infos[0].number != infos[k].number;
      CountByArea(infos[1..], area, k - 1);
    } else {
      NoneByArea(infos[1..], area, infos[0].number);
    }
  }

  lemma {:induction false} NoneByArea(infos: seq<Info>, area: string, number: int)
    requires forall k :: 0 <= k < |infos| ==> infos[k].number != number
    ensures CountNumber(ByArea(infos, area), number) == 0
  {
    if infos != [] {
      var first := Item(infos[0].number, infos[0].count);
      var times := multiset(infos[0].areas)[area];
      CountConcat(Repeat(first, times), ByArea(infos[1..], area), number);
      CountRepeat(first, times, number);
      NoneByArea(infos[1..], area, number);
    }
  }

  lemma {:induction false} ByAreaItems(infos: seq<Info>, area: string, i: Item)
    requires i in ByArea(infos, area)
    ensures exists k :: 0 <= k < |infos| && infos[k].number == i.number && infos[k].count == i.count
  {
    var first := Repeat(Item(infos[0].number, infos[0].count), multiset(infos[0].areas)[area]);
    if i in first {
      assert infos[0].number == i.number && infos[0].count == i.count;
    } else {
      ByAreaItems(infos[1..], area, i);
      var k :| 0 <= k < |infos[1..]| && infos[1..][k].number == i.number && infos[1..][k].count == i.count;
      assert infos[k + 1] == infos[1..][k];
    }
  }

  lemma SortedSameCount(infos: seq<Info>, area: string, k: nat)
    requires DistinctInfos(infos) && k < |infos|
    ensures SameCount(SortedItems(infos, area), infos[k].number, infos[k].count)
    ensures CountNumber(SortedItems(infos, area), infos[k].number) == multiset(infos[k].areas)[area]
  {
    var items := SortedItems(infos, area);
    CountSorted(ByArea(infos, area), (i: Item) => i.count, infos[k].number);
    CountByArea(infos, area, k);
    forall n | 0 <= n < |items| && items[n].number == infos[k].number
      ensures items[n].count == infos[k].count
    {
      SortKeepsMembers(ByArea(infos, area), (i: Item) => i.count, items[n]);
      ByAreaItems(infos, area, items[n]);
      var p :| 0 <= p < |infos| && infos[p].number == items[n].number && infos[p].count == items[n].count;
      assert p == k;
    }
  }

  ghost predicate DistinctAreas(areas: seq<string>) {
    forall p, q :: 0 <= p < q < |areas| ==> areas[p] != areas[q]
  }

  /** After all sections: each area stands in an issue's record as often as it is among its
      areas, the issue is known if any of them was listed, and its count is right. */
  lemma {:induction false} SectionsRecord(
      ms: seq<Magnet>, infos: seq<Info>, areas: seq<string>, k: nat, a: string)
    requires DistinctInfos(infos) && k < |infos| && DistinctAreas(areas) && DistinctNumbers(ms)
    requires CountIs(ms, infos[k].number, infos[k].count)
    ensures var after := RecordSections(ms, infos, areas);
            && DistinctNumbers(after) && CountIs(after, infos[k].number, infos[k].count)
            && Times(after, infos[k].number, a) ==
               Times(ms, infos[k].number, a)
               + (if a in areas && a != UNLABELED then multiset(infos[k].areas)[a] else 0)
            && (Known(ms, infos[k].number) ==> Known(after, infos[k].number))
            && (a in areas && a in infos[k].areas ==> Known(after, infos[k].number))
    decreases |areas|
  {
    hide *;
    if areas == [] {
      NoSections(ms, infos);
    } else {
      var ms' := RecordAll(ms, areas[0], SortedItems(infos, areas[0]));
      SectionRecords(ms, infos, areas[0], k, a);
      FirstSection(ms, infos, areas);
      FirstArea(areas, a);
      SectionsRecord(ms', infos, areas[1..], k, a);
    }
  }

  lemma NoSections(ms: seq<Magnet>, infos: seq<Info>)
    ensures RecordSections(ms, infos, []) == ms
  {
  }

  lemma FirstSection(ms: seq<Magnet>, infos: seq<Info>, areas: seq<string>)
    requires areas != []
    ensures RecordSections(ms, infos, areas) ==
            RecordSections(RecordAll(ms, areas[0], SortedItems(infos, areas[0])), infos, areas[1..])
  {
    hide RecordAll, SortedItems;
  }

  lemma FirstArea(areas: seq<string>, a: string)
    requires areas != [] && DistinctAreas(areas)
    ensures DistinctAreas(areas[1..])
    ensures a in areas <==> a == areas[0] || a in areas[1..]
    ensures a == areas[0] ==> a !in areas[1..]
  {
    assert areas == [areas[0]] + areas[1..];
  }

  /** One section adds its area to an issue's record as often as it is among its areas. */
  lemma SectionRecords(ms: seq<Magnet>, infos: seq<Info>, area: string, k: nat, a: string)
    requires DistinctInfos(infos) && k < |infos| && DistinctNumbers(ms)
    requires CountIs(ms, infos[k].number, infos[k].count)
    ensures var after := RecordAll(ms, area, SortedItems(infos, area));
            && DistinctNumbers(after) && CountIs(after, infos[k].number, infos[k].count)
            && Times(after, infos[k].number, a) ==
               Times(ms, infos[k].number, a)
               + (if a == area && a != UNLABELED then multiset(infos[k].areas)[a] else 0)
            && (Known(ms, infos[k].number) ==> Known(after, infos[k].number))
            && (area in infos[k].areas ==> Known(after, infos[k].number))
  {
    hide *;
    var items := SortedItems(infos, area);
    SortedSameCount(infos, area, k);
    RecordAllTimes(ms, area, items, infos[k].number, a);
    RecordAllKnows(ms, area, items, infos[k].number, infos[k].count);
    assert area in infos[k].areas ==> multiset(infos[k].areas)[area] > 0;
  }

  /** Nothing is known but the issues printed. */
  lemma {:induction false} RecordAllFrom(ms: seq<Magnet>, area: string, items: seq<Item>, m: Magnet)
    requires m in RecordAll(ms, area, items)
    ensures (exists k :: 0 <= k < |items| && items[k].number == m.number)
            || (exists k :: 0 <= k < |ms| && ms[k].number == m.number)
    decreases |items|
  {
    if items == [] {
      var k :| 0 <= k < |ms| && ms[k] == m;
    } else {
      var ms' := Record(ms, area, items[0].number, items[0].count);
      RecordAllFrom(ms', area, items[1..], m);
      if exists k :: 0 <= k < |items[1..]| && items[1..][k].number == m.number {
        var k :| 0 <= k < |items[1..]| && items[1..][k].number == m.number;
        assert items[k + 1].number == m.number;
      } else {
        var k :| 0 <= k < |ms'| && ms'[k].number == m.number;
        RecordFrom(ms, area, items[0].number, items[0].count, k);
        assert items[0].number == m.number || exists p :: 0 <= p < |ms| && ms[p].number == m.number;
      }
    }
  }

  lemma {:induction false} RecordFrom(ms: seq<Magnet>, area: string, number: int, count: int, k: nat)
    requires k < |Record(ms, area, number, count)|
    ensures var m := Record(ms, area, number, count)[k];
            m.number == number || exists p :: 0 <= p < |ms| && ms[p].number == m.number
  {
    var m := Record(ms, area, number, count)[k];
    if ms != [] {
      if k == 0 {
        assert ms[0].number == m.number;
      } else if ms[0].number == number {
        assert ms[k].number == m.number;
      } else {
        RecordFrom(ms[1..], area, number, count, k - 1);
        if m.number != number {
          var p :| 0 <= p < |ms[1..]| && ms[1..][p].number == m.number;
          assert ms[p + 1].number == m.number;
        }
      }
    }
  }

  lemma {:induction false} SectionsFrom(
      ms: seq<Magnet>, infos: seq<Info>, areas: seq<string>, m: Magnet)
    requires m in RecordSections(ms, infos, areas)
    ensures (exists k :: 0 <= k < |infos| && infos[k].number == m.number)
            || (exists k :: 0 <= k < |ms| && ms[k].number == m.number)
    decreases |areas|
  {
    if areas == [] {
      var k :| 0 <= k < |ms| && ms[k] == m;
    } else {
      var items := SortedItems(infos, areas[0]);
      var ms' := RecordAll(ms, areas[0], items);
      SectionsFrom(ms', infos, areas[1..], m);
      if exists k :: 0 <= k < |ms'| && ms'[k].number == m.number {
        var k :| 0 <= k < |ms'| && ms'[k].number == m.number;
        RecordAllFrom(ms, areas[0], items, ms'[k]);
        if exists p :: 0 <= p < |items| && items[p].number == m.number {
          var p :| 0 <= p < |items| && items[p].number == m.number;
          SortKeepsMembers(ByArea(infos, areas[0]), (i: Item) => i.count, items[p]);
          ByAreaItems(infos, areas[0], items[p]);
        }
      }
    }
  }

  // ----- the areas listed

  lemma {:induction false} DistinctIs(xs: seq<string>)
    ensures DistinctAreas(Distinct(xs))
    ensures forall x :: x in Distinct(xs) <==> x in xs
  {
    if xs != [] {
      var before := xs[..|xs| - 1];
      DistinctIs(before);
      assert xs == before + [xs[|xs| - 1]];
    }
  }

  lemma {:induction false} AllAreasHas(infos: seq<Info>, k: nat, a: string)
    requires k < |infos| && a in infos[k].areas
    ensures a in AllAreas(infos)
  {
    if k > 0 {
      AllAreasHas(infos[1..], k - 1, a);
    }
  }

  lemma {:induction false} AllAreasFrom(infos: seq<Info>, a: string)
    requires a in AllAreas(infos)
    ensures exists k :: 0 <= k < |infos| && a in infos[k].areas
  {
    if a in infos[0].areas {
    } else {
      AllAreasFrom(infos[1..], a);
      var k :| 0 <= k < |infos[1..]| && a in infos[1..][k].areas;
      assert a in infos[k + 1].areas;
    }
  }

  lemma AreaOrderIs(infos: seq<Info>)
    ensures DistinctAreas(AreaOrder(infos))
    ensures forall a :: a in AreaOrder(infos) <==> a in AllAreas(infos)
  {
    var xs, key := Distinct(AllAreas(infos)), (a: string) => SumCounts(ByArea(infos, a)) as int;
    DistinctIs(AllAreas(infos));
    forall a: string
      ensures a in SortDesc(xs, key) <==> a in xs
    {
      SortKeepsMembers(xs, key, a);
    }
    SortPermutes(xs, key);
    DistinctPermuted(xs, SortDesc(xs, key));
  }

  lemma DistinctPermuted(xs: seq<string>, ys: seq<string>)
    requires DistinctAreas(xs) && multiset(xs) == multiset(ys)
    ensures DistinctAreas(ys)
  {
    forall p, q | 0 <= p < q < |ys|
      ensures ys[p] != ys[q]
    {
      if ys[p] == ys[q] {
        TwiceInBag(ys, p, q);
        OnceInBag(xs, ys[p]);
        assert false;
      }
    }
  }

  lemma TwiceInBag(ys: seq<string>, p: nat, q: nat)
    requires p < q < |ys| && ys[p] == ys[q]
    ensures multiset(ys)[ys[p]] >= 2
  {
    assert ys == ys[..q] + ys[q..];
    assert ys[..q][p] == ys[p] && ys[q..][0] == ys[p];
    assert multiset(ys) == multiset(ys[..q]) + multiset(ys[q..]);
    assert ys[p] in multiset(ys[..q]) && ys[p] in multiset(ys[q..]);
  }

  lemma {:induction false} OnceInBag(xs: seq<string>, x: string)
    requires DistinctAreas(xs)
    ensures multiset(xs)[x] <= 1
  {
    if xs != [] {
      OnceInBag(xs[1..], x);
      assert xs == [xs[0]] + xs[1..];
      if x == xs[0] {
        assert x !in xs[1..];
        assert x !in multiset(xs[1..]);
      }
    }
  }

  // ----- the round trip

  /** What the printer may be given: each issue once, with at least one area, and area names as
      labels are: one line, nothing to trim. */
  ghost predicate Printable(infos: seq<Info>) {
    && DistinctInfos(infos)
    && forall k :: 0 <= k < |infos| ==> infos[k].areas != [] && AreasOk(infos[k].areas)
  }

  ghost predicate AreasOk(areas: seq<string>) {
    forall k :: 0 <= k < |areas| ==> Trimmed(areas[k]) && '\n' !in areas[k]
  }

  /** The record says what was printed: the count, and the areas but for the missing one. */
  ghost predicate Recovers(m: Magnet, info: Info) {
    && m.number == info.number && m.count == info.count
    && multiset(m.areas) == multiset(info.areas)[UNLABELED := 0]
  }

  lemma ItemLineHasNoNewline(i: Item)
    ensures '\n' !in ItemLine(i)
  {
    hide *;
    PaddedLacks(i.count, '\n');
    DigitsLack(i.number, '\n');
    UrlLacks('\n');
    WordsLack('\n');
    HeadLacks();
    var h, a, d, u, n := "-   [", Pad2(Decimal(i.count)), " dupes] ", RepoUrl(), Decimal(i.number);
    LacksBoth(h, a, '\n');
    LacksBoth(h + a, d, '\n');
    LacksBoth(h + a + d, u, '\n');
    LacksBoth(h + a + d + u, "/issues/", '\n');
    LacksBoth(h + a + d + u + "/issues/", n, '\n');
    ItemLineIs(i);
    LacksMeans(ItemLine(i), '\n');
  }

  lemma HeadLacks()
    ensures Lacks("-   [", '\n')
  {
  }

  lemma {:induction false} ItemLinesHaveNoNewlines(items: seq<Item>)
    ensures NoNewlines(ItemLines(items))
  {
    hide ItemLine;
    if items != [] {
      ItemLineHasNoNewline(items[0]);
      ItemLinesHaveNoNewlines(items[1..]);
    }
  }

  lemma {:induction false} SectionsHaveNoNewlines(infos: seq<Info>, areas: seq<string>)
    requires forall k :: 0 <= k < |areas| ==> '\n' !in areas[k]
    ensures NoNewlines(Sections(infos, areas))
  {
    hide SortedItems, ItemLines;
    if areas != [] {
      SectionsHaveNoNewlines(infos, areas[1..]);
      ItemLinesHaveNoNewlines(SortedItems(infos, areas[0]));
      assert '\n' !in "## " + areas[0];
    }
  }

  lemma OrderedAreasOk(infos: seq<Info>)
    requires Printable(infos)
    ensures AreasOk(AreaOrder(infos))
  {
    var areas := AreaOrder(infos);
    AreaOrderIs(infos);
    forall n | 0 <= n < |areas|
      ensures Trimmed(areas[n]) && '\n' !in areas[n]
    {
      assert areas[n] in AllAreas(infos);
      AllAreasFrom(infos, areas[n]);
      var k :| 0 <= k < |infos| && areas[n] in infos[k].areas;
      var p :| 0 <= p < |infos[k].areas| && infos[k].areas[p] == areas[n];
    }
  }

  /** What an introduction must be: one line, and no heading. */
  predicate Introduces(intro: string) {
    '\n' !in intro && !StartsWith(intro, "## ")
  }

  lemma IntroParses(intro: string)
    requires Introduces(intro)
    ensures ParseLine(Parsed("", []), intro) == Parsed("", [])
  {
  }

  /** The introduction the script prints is one. */
  lemma IntroIntroduces()
    ensures Introduces(INTRO)
  {
    var a, b := "These are the issues that are ", "frequently re-reported. ";
    var c, d := "The list is generated regularly ", "by running a script.";
    assert INTRO == a + b + c + d;
    hide INTRO, Lacks;
    IntroLacks();
    LacksBoth(a, b, '\n');
    LacksBoth(a + b, c, '\n');
    LacksBoth(a + b + c, d, '\n');
    LacksMeans(INTRO, '\n');
    assert INTRO[..3][0] == a[0];
  }

  lemma IntroLacks()
    ensures Lacks("These are the issues that are ", '\n') && Lacks("frequently re-reported. ", '\n')
    ensures Lacks("The list is generated regularly ", '\n') && Lacks("by running a script.", '\n')
    ensures "These are the issues that are "[0] == 'T'
  {
  }

  /** The body read back line by line is the sections recorded one after the other. */
  lemma BodyParses(intro: string, infos: seq<Info>)
    requires Introduces(intro) && Printable(infos)
    ensures ParseLines(Parsed("", []), Rows(Body(intro, infos))).magnets ==
            RecordSections([], infos, AreaOrder(infos))
  {
    var areas := AreaOrder(infos);
    OrderedAreasOk(infos);
    SectionsHaveNoNewlines(infos, areas);
    IntroParses(intro);
    SectionsParse(Parsed("", []), infos, areas);
    hide AreaOrder, Sections, ParseLine, RecordSections, Rows, Join, Trimmed;
    var lines := BodyLines(intro, infos);
    assert lines[1..] == Sections(infos, areas);
    assert NoNewlines(lines);
    RowsOfJoin(lines);
  }

  /** The printed issue is found in the records, with its count and its areas. */
  lemma RecordedAs(infos: seq<Info>, k: nat)
    requires Printable(infos) && k < |infos|
    ensures var ms := RecordSections([], infos, AreaOrder(infos));
            && DistinctNumbers(ms) && Known(ms, infos[k].number)
            && Recovers(Lookup(ms, infos[k].number).value, infos[k])
  {
    hide *;
    var n := infos[k].number;
    var ms := RecordSections([], infos, AreaOrder(infos));
    PrintableHas(infos, k);
    RecordedTimes(infos, k, infos[k].areas[0]);
    LookupIs(ms, n);
    KnownIs(ms, n, infos[k].count);
    var m := Lookup(ms, n).value;
    forall a: string
      ensures multiset(m.areas)[a] == multiset(infos[k].areas)[UNLABELED := 0][a]
    {
      RecordedTimes(infos, k, a);
      TimesIs(ms, n, a);
    }
    RecoversIs(m, infos[k]);
  }

  lemma PrintableHas(infos: seq<Info>, k: nat)
    requires Printable(infos) && k < |infos|
    ensures DistinctInfos(infos) && infos[k].areas != []
  {
    hide DistinctInfos, AreasOk;
  }

  lemma KnownIs(ms: seq<Magnet>, n: int, count: int)
    requires Known(ms, n) && CountIs(ms, n, count)
    ensures Lookup(ms, n).Some? && Lookup(ms, n).value.count == count
  {
  }

  lemma TimesIs(ms: seq<Magnet>, n: int, a: string)
    requires Lookup(ms, n).Some?
    ensures Times(ms, n, a) == multiset(Lookup(ms, n).value.areas)[a]
  {
  }

  lemma RecoversIs(m: Magnet, info: Info)
    requires m.number == info.number && m.count == info.count
    requires forall a: string :: multiset(m.areas)[a] == multiset(info.areas)[UNLABELED := 0][a]
    ensures Recovers(m, info)
  {
    assert multiset(m.areas) == multiset(info.areas)[UNLABELED := 0];
  }

  /** How often an area stands in the record of a printed issue. */
  lemma RecordedTimes(infos: seq<Info>, k: nat, a: string)
    requires DistinctInfos(infos) && k < |infos|
    ensures var ms, n := RecordSections([], infos, AreaOrder(infos)), infos[k].number;
            && DistinctNumbers(ms) && CountIs(ms, n, infos[k].count)
            && Times(ms, n, a) == multiset(infos[k].areas)[UNLABELED := 0][a]
            && (a in infos[k].areas ==> Known(ms, n))
  {
    hide *;
    NothingKnown(infos[k].number, infos[k].count, a);
    AreaOrderIs(infos);
    if a in infos[k].areas {
      AllAreasHas(infos, k, a);
    }
    SectionsRecord([], infos, AreaOrder(infos), k, a);
    assert a !in infos[k].areas ==> multiset(infos[k].areas)[a] == 0;
  }

  lemma NothingKnown(n: int, count: int, a: string)
    ensures DistinctNumbers([]) && CountIs([], n, count) && Times([], n, a) == 0
  {
  }

  /** The round trip: whatever line introduces it, reading back the printed body gives each issue
      once, with its count and its areas, the most duplicated first, and nothing else. */
  lemma RoundTrip(intro: string, infos: seq<Info>)
    requires Introduces(intro) && Printable(infos)
    ensures var ms := Parse(Body(intro, infos));
            && SortedDesc(ms, (m: Magnet) => m.count)
            && |ms| == |infos|
            && (forall k :: 0 <= k < |infos| ==> exists m :: m in ms && Recovers(m, infos[k]))
            && (forall m :: m in ms ==> exists k :: 0 <= k < |infos| && Recovers(m, infos[k]))
  {
    var ms, key := RecordSections([], infos, AreaOrder(infos)), (m: Magnet) => m.count;
    BodyParses(intro, infos);
    assert Parse(Body(intro, infos)) == SortDesc(ms, key);
    SortSorts(ms, key);
    forall k | 0 <= k < |infos|
      ensures exists m :: m in SortDesc(ms, key) && Recovers(m, infos[k])
    {
      RecordedAs(infos, k);
      LookupIs(ms, infos[k].number);
      SortKeepsMembers(ms, key, Lookup(ms, infos[k].number).value);
    }
    forall m | m in SortDesc(ms, key)
      ensures exists k :: 0 <= k < |infos| && Recovers(m, infos[k])
    {
      SortKeepsMembers(ms, key, m);
      var k := PrintedAs(infos, m);
    }
    SameLength(infos, ms);
    if ms != [] {
      SortKeepsMembers(ms, key, ms[0]);
    }
  }

  /** Every record is that of an issue printed. */
  lemma PrintedAs(infos: seq<Info>, m: Magnet) returns (k: nat)
    requires Printable(infos) && m in RecordSections([], infos, AreaOrder(infos))
    ensures k < |infos| && Recovers(m, infos[k])
  {
    var ms := RecordSections([], infos, AreaOrder(infos));
    SectionsFrom([], infos, AreaOrder(infos), m);
    k :| 0 <= k < |infos| && infos[k].number == m.number;
    RecordedAs(infos, k);
    var p :| 0 <= p < |ms| && ms[p] == m;
    LookupOf(ms, p);
  }

  lemma SameLength(infos: seq<Info>, ms: seq<Magnet>)
    requires Printable(infos) && ms == RecordSections([], infos, AreaOrder(infos))
    ensures |ms| == |infos|
  {
    var a := set k | 0 <= k < |infos| :: infos[k].number as int;
    var b := set k | 0 <= k < |ms| :: ms[k].number;
    hide *;
    NumbersAre(infos, ms, a, b);
    InfoCount(infos, a);
    MagnetCount(infos, ms, b);
  }

  lemma NumbersAre(infos: seq<Info>, ms: seq<Magnet>, a: set<int>, b: set<int>)
    requires Printable(infos) && ms == RecordSections([], infos, AreaOrder(infos))
    requires a == set k | 0 <= k < |infos| :: infos[k].number as int
    requires b == set k | 0 <= k < |ms| :: ms[k].number
    ensures a == b
  {
    hide RecordSections, AreaOrder;
    forall n | n in a
      ensures n in b
    {
      var k :| 0 <= k < |infos| && infos[k].number == n;
      RecordedAs(infos, k);
      LookupIs(ms, n);
    }
    forall n | n in b
      ensures n in a
    {
      var p :| 0 <= p < |ms| && ms[p].number == n;
      var k := PrintedAs(infos, ms[p]);
    }
  }

  lemma {:induction false} InfoCount(infos: seq<Info>, a: set<int>)
    requires DistinctInfos(infos) || Printable(infos)
    requires a == set k | 0 <= k < |infos| :: infos[k].number as int
    ensures |a| == |infos|
  {
    if infos != [] {
      var rest := infos[1..];
      var a' := set k | 0 <= k < |rest| :: rest[k].number as int;
      InfoCount(rest, a');
      var first: int := infos[0].number;
      forall n | n in a
        ensures n in a' + {first}
      {
        var k :| 0 <= k < |infos| && infos[k].number == n;
        assert k > 0 ==> rest[k - 1] == infos[k];
      }
      forall n | n in a' + {first}
        ensures n in a
      {
        if n in a' {
          var k :| 0 <= k < |rest| && rest[k].number == n;
          assert infos[k + 1] == rest[k];
        }
      }
      assert a == a' + {first};
      assert first !in a';
    }
  }

  lemma MagnetCount(infos: seq<Info>, ms: seq<Magnet>, b: set<int>)
    requires Printable(infos) && ms == RecordSections([], infos, AreaOrder(infos))
    requires b == set k | 0 <= k < |ms| :: ms[k].number
    ensures |b| == |ms|
  {
    if infos == [] {
      assert RecordSections([], infos, AreaOrder(infos)) == [];
      assert b == {};
    } else {
      RecordedAs(infos, 0);
      hide RecordSections, AreaOrder;
      NumberCount(ms, b);
    }
  }

  lemma {:induction false} NumberCount(ms: seq<Magnet>, b: set<int>)
    requires DistinctNumbers(ms) && b == set k | 0 <= k < |ms| :: ms[k].number
    ensures |b| == |ms|
  {
    if ms != [] {
      var rest := ms[1..];
      var b' := set k | 0 <= k < |rest| :: rest[k].number;
      NumberCount(rest, b');
      forall n | n in b
        ensures n in b' + {ms[0].number}
      {
        var k :| 0 <= k < |ms| && ms[k].number == n;
        assert k > 0 ==> rest[k - 1] == ms[k];
      }
      forall n | n in b' + {ms[0].number}
        ensures n in b
      {
        if n in b' {
          var k :| 0 <= k < |rest| && rest[k].number == n;
          assert ms[k + 1] == rest[k];
        }
      }
      assert b == b' + {ms[0].number};
      assert ms[0].number !in b';
    }
  }

  // ----- the order of the printed body

  /** How often the issues of an area have been reported again. */
  function AreaTotal(infos: seq<Info>, area: string): nat {
    if infos == [] then 0
    else infos[0].count * multiset(infos[0].areas)[area] + AreaTotal(infos[1..], area)
  }

  lemma {:induction false} SumOfConcat(x: seq<Item>, y: seq<Item>)
    ensures SumCounts(x + y) == SumCounts(x) + SumCounts(y)
  {
    if x == [] {
      assert x + y == y;
    } else {
      assert (x + y)[1..] == x[1..] + y;
      SumOfConcat(x[1..], y);
    }
  }

  lemma {:induction false} SumOfRepeat(i: Item, times: nat)
    ensures SumCounts(Repeat(i, times)) == i.count * times
  {
    if times > 0 {
      assert Repeat(i, times)[1..] == Repeat(i, times - 1);
      SumOfRepeat(i, times - 1);
    }
  }

  lemma {:induction false} TotalIs(infos: seq<Info>, area: string)
    ensures SumCounts(ByArea(infos, area)) == AreaTotal(infos, area)
  {
    hide SumCounts, Repeat;
    if infos == [] {
      SumOfRepeat(Item(0, 0), 0);
      NoItems();
    } else {
      var first, times := Item(infos[0].number, infos[0].count), multiset(infos[0].areas)[area];
      SumOfConcat(Repeat(first, times), ByArea(infos[1..], area));
      SumOfRepeat(first, times);
      TotalIs(infos[1..], area);
    }
  }

  lemma NoItems()
    ensures SumCounts([]) == 0
  {
  }

  /** The sections come by how often their issues were reported again, most first, each area that
      occurs once; and the lines of a section are its issues, the most reported first. */
  lemma PrintedInOrder(infos: seq<Info>, area: string)
    ensures SortedDesc(AreaOrder(infos), a => AreaTotal(infos, a))
    ensures DistinctAreas(AreaOrder(infos))
    ensures forall a :: a in AreaOrder(infos) <==> exists k :: 0 <= k < |infos| && a in infos[k].areas
    ensures SortedDesc(SortedItems(infos, area), (i: Item) => i.count)
    ensures multiset(SortedItems(infos, area)) == multiset(ByArea(infos, area))
  {
    hide SortDesc, ByArea, SumCounts, AreaTotal, AllAreas, Distinct;
    AreaOrderIs(infos);
    forall a: string
      ensures a in AllAreas(infos) <==> exists k :: 0 <= k < |infos| && a in infos[k].areas
    {
      if a in AllAreas(infos) {
        AllAreasFrom(infos, a);
      }
      if k :| 0 <= k < |infos| && a in infos[k].areas {
        AllAreasHas(infos, k, a);
      }
    }
    OrderIsSorted(infos);
    SortSorts(ByArea(infos, area), (i: Item) => i.count);
    SortPermutes(ByArea(infos, area), (i: Item) => i.count);
  }

  lemma OrderIsSorted(infos: seq<Info>)
    ensures SortedDesc(AreaOrder(infos), a => AreaTotal(infos, a))
  {
    hide SortDesc, ByArea, SumCounts, AreaTotal, AllAreas, Distinct;
    var key: string -> int := a => SumCounts(ByArea(infos, a));
    SortSorts(Distinct(AllAreas(infos)), key);
    var areas := AreaOrder(infos);
    forall i, j | 0 <= i < j < |areas|
      ensures AreaTotal(infos, areas[i]) >= AreaTotal(infos, areas[j])
    {
      TotalIs(infos, areas[i]);
      TotalIs(infos, areas[j]);
      assert key(areas[i]) >= key(areas[j]);
    }
  }

  /** A count is printed at least two places wide, with a space in front only if it needs one. */
  lemma PaddedWidth(n: nat)
    ensures |Pad2(Decimal(n))| >= 2 && (n >= 10 ==> Pad2(Decimal(n)) == Decimal(n))
    ensures n < 10 ==> Pad2(Decimal(n)) == " " + Decimal(n)
  {
  }

  /** An area stands where it first occurs: the ones before it are those that occur before. */
  lemma {:induction false} DistinctInOrder(xs: seq<string>, k: nat) returns (p: nat)
    requires k < |Distinct(xs)|
    ensures p < |xs| && xs[p] == Distinct(xs)[k] && Distinct(xs[..p]) == Distinct(xs)[..k]
  {
    var before := xs[..|xs| - 1];
    if k < |Distinct(before)| {
      p := DistinctInOrder(before, k);
      assert before[..p] == xs[..p];
    } else {
      p := |xs| - 1;
    }
  }

  /** The lines of a body with one issue, as they are written. */
  lemma OneIssue(intro: string)
    ensures BodyLines(intro, [Info(7, ["ui"], 3)]) == [intro, "", "## ui", "", ItemLine(Item(7, 3))]
    ensures ItemLine(Item(7, 3)) == "-   [ 3 dupes] " + RepoUrl() + "/issues/7"
  {
    hide *;
    OneArea(Info(7, ["ui"], 3), "ui");
    OneBody(intro, Info(7, ["ui"], 3), "ui");
    assert "## " + "ui" == "## ui";
    OneLine(Item(7, 3));
  }

  lemma OneLine(i: Item)
    requires i == Item(7, 3)
    ensures ItemLine(i) == "-   [ 3 dupes] " + RepoUrl() + "/issues/7"
  {
    assert Decimal(3) == "3" && Decimal(7) == "7";
    assert Pad2("3") == " 3";
    hide Decimal, Pad2, RepoUrl;
    assert "-   [" + " 3" + " dupes] " == "-   [ 3 dupes] ";
    Reassociate("-   [ 3 dupes] " + RepoUrl(), "/issues/", "7");
    assert "/issues/" + "7" == "/issues/7";
  }

  lemma OneArea(x: Info, a: string)
    requires x.areas == [a]
    ensures AllAreas([x]) == [a] && Distinct([a]) == [a]
    ensures ByArea([x], a) == [Item(x.number, x.count)]
  {
    var i := Item(x.number, x.count);
    assert [x][1..] == [] && AllAreas([]) == [] && [a] + [] == [a];
    assert [a][..0] == [] && Distinct([]) == [];
    assert multiset([a])[a] == 1;
    assert Repeat(i, 1) == [i] && ByArea([], a) == [];
  }

  lemma OneBody(intro: string, x: Info, a: string)
    requires AllAreas([x]) == [a] && Distinct([a]) == [a] && ByArea([x], a) == [Item(x.number, x.count)]
    ensures BodyLines(intro, [x]) == [intro, "", "## " + a, "", ItemLine(Item(x.number, x.count))]
  {
    hide AllAreas, Distinct, ByArea, SumCounts, ItemLine;
    var i := Item(x.number, x.count);
    SortOne(a, (b: string) => SumCounts(ByArea([x], b)) as int);
    SortOne(i, (j: Item) => j.count as int);
    assert AreaOrder([x]) == [a] && SortedItems([x], a) == [i];
    assert [i][1..] == [] && ItemLines([]) == [];
    assert [a][1..] == [] && Sections([x], []) == [];
  }

  lemma SortOne<T>(x: T, key: T -> int)
    ensures SortDesc([x], key) == [x]
  {
    assert [x][1..] == [] && SortDesc([][..], key) == [];
  }

  // ----- reading other bodies

  /** Before the first heading nothing is read. */
  lemma {:induction false} NothingBeforeHeadings(st: Parsed, lines: seq<string>)
    requires st.area == "" && forall k :: 0 <= k < |lines| ==> !StartsWith(lines[k], "## ")
    ensures ParseLines(st, lines) == st
    decreases |lines|
  {
    hide StartsWith, Occurs, ParseCount, ParseNumber;
    if lines != [] {
      assert !StartsWith(lines[0], "## ");
      assert forall k :: 0 <= k < |lines[1..]| ==> lines[1..][k] == lines[k + 1];
      NothingBeforeHeadings(st, lines[1..]);
    }
  }

  /** Only a list item that names an issue, in an area, is read; and only a heading changes the
      area. */
  lemma OnlyItemsAreRead(st: Parsed, line: string)
    ensures ParseLine(st, line).magnets != st.magnets ==>
              && st.area != "" && line != "" && line[0] == '-' && Occurs(line, "/issues/")
              && ParseCount(line).Some? && ParseNumber(line).Some?
    ensures ParseLine(st, line).area != st.area ==>
              |line| >= 3 && line[..3] == "## " && ParseLine(st, line).area == Trim(line[3..])
  {
    hide Occurs, ParseCount, ParseNumber, Record, Trim;
    assert StartsWith(line, "-") ==> line[..1][0] == line[0];
  }

  /** The closing parenthesis of a markdown link after the number does no harm. */
  lemma LinkParses(n: nat)
    ensures TrimEndOf(Decimal(n) + ")", ')') == Decimal(n)
  {
    hide Decimal;
    DigitsHave(n);
    var t := Decimal(n) + ")";
    assert t[..|t| - 1] == Decimal(n);
    assert TrimEndOf(Decimal(n), ')') == Decimal(n);
  }

  // ----- the parser's loop

  /** A dictionary that remembers the order its keys came in, and the list of its values. */
  ghost predicate Holds(order: seq<int>, found: map<int, Magnet>, ms: seq<Magnet>) {
    && |order| == |ms| && DistinctNumbers(ms)
    && (forall k :: 0 <= k < |ms| ==>
          order[k] == ms[k].number && order[k] in found && found[order[k]] == ms[k])
    && forall n :: n in found ==> n in order
  }

  /** A known number keeps its place. */
  lemma {:induction false} RecordKnown(
      ms: seq<Magnet>, k: nat, area: string, number: int, count: int)
    requires k < |ms| && ms[k].number == number && DistinctNumbers(ms)
    ensures Record(ms, area, number, count) == ms[k := ms[k].(areas := ms[k].areas + Labels(area))]
  {
    hide Labels;
    if k > 0 {
      assert ms[0].number != ms[k].number;
      RecordKnown(ms[1..], k - 1, area, number, count);
    }
  }

  /** A new one comes last. */
  lemma {:induction false} RecordNew(ms: seq<Magnet>, area: string, number: int, count: int)
    requires forall k :: 0 <= k < |ms| ==> ms[k].number != number
    ensures Record(ms, area, number, count) == ms + [Magnet(number, Labels(area), count)]
  {
    hide Labels;
    if ms != [] {
      RecordNew(ms[1..], area, number, count);
    }
  }

  lemma HoldsKnown(order: seq<int>, found: map<int, Magnet>, ms: seq<Magnet>,
                   area: string, number: int, count: int)
    requires Holds(order, found, ms) && number in found
    ensures Holds(order, found[number := found[number].(areas := found[number].areas + Labels(area))],
                  Record(ms, area, number, count))
  {
    hide Record, Labels;
    var k :| 0 <= k < |order| && order[k] == number;
    RecordKnown(ms, k, area, number, count);
  }

  lemma HoldsNew(order: seq<int>, found: map<int, Magnet>, ms: seq<Magnet>,
                 area: string, number: int, count: int)
    requires Holds(order, found, ms) && number !in found
    ensures Holds(order + [number], found[number := Magnet(number, Labels(area), count)],
                  Record(ms, area, number, count))
  {
    hide Record, Labels;
    RecordNew(ms, area, number, count);
  }

  lemma ParseOneMore(st: Parsed, lines: seq<string>, i: nat)
    requires i < |lines|
    ensures ParseLines(st, lines[..i + 1]) == ParseLine(ParseLines(st, lines[..i]), lines[i])
  {
    hide ParseLine;
    assert lines[..i + 1] == lines[..i] + [lines[i]];
    ParseLinesConcat(st, lines[..i], [lines[i]]);
  }

  lemma HoldsNothing()
    ensures Holds([], map[], []) && ParseLines(Parsed("", []), []) == Parsed("", [])
  {
  }

  /** What the parser does with a line: a heading, a line to skip, or a sighting. */
  method ReadLine(area: string, found: map<int, Magnet>, order: seq<int>, line: string,
                  ghost ms: seq<Magnet>)
    returns (area': string, found': map<int, Magnet>, order': seq<int>)
    requires Holds(order, found, ms)
    ensures area' == ParseLine(Parsed(area, ms), line).area
    ensures Holds(order', found', ParseLine(Parsed(area, ms), line).magnets)
  {
    hide Holds, Record, Labels, Trim, Occurs, ParseCount, ParseNumber;
    area', found', order' := area, found, order;
    if StartsWith(line, "## ") {
      area' := Trim(line[3..]);
    } else if area != "" && StartsWith(line, "-") && Occurs(line, "/issues/") {
      match (ParseCount(line), ParseNumber(line))
      case (Some(count), Some(number)) =>
        if number in found {
          HoldsKnown(order, found, ms, area, number, count);
          found' := found[number := found[number].(areas := found[number].areas + Labels(area))];
        } else {
          HoldsNew(order, found, ms, area, number, count);
          found' := found[number := Magnet(number, Labels(area), count)];
          order' := order + [number];
        }
      case _ =>
    }
  }

  lemma ValuesAre(order: seq<int>, found: map<int, Magnet>, ms: seq<Magnet>)
    requires Holds(order, found, ms)
    ensures forall k :: 0 <= k < |order| ==> order[k] in found
    ensures |order| == |ms| && forall k :: 0 <= k < |order| ==> found[order[k]] == ms[k]
  {
  }

  /** `parse_duplicate_magnets`. */
  method ParseDuplicateMagnets(body: string) returns (magnets: seq<Magnet>)
    ensures magnets == Parse(body)
  {
    hide *;
    var lines := Rows(body);
    var area: string, found: map<int, Magnet>, order: seq<int> := "", map[], [];
    ghost var start := Parsed("", []);
    HoldsNothing();
    assert lines[..0] == [];
    for i := 0 to |lines|
      invariant area == ParseLines(start, lines[..i]).area
      invariant Holds(order, found, ParseLines(start, lines[..i]).magnets)
    {
      ParseOneMore(start, lines, i);
      area, found, order := ReadLine(area, found, order, lines[i], ParseLines(start, lines[..i]).magnets);
    }
    assert lines[..|lines|] == lines;
    ghost var ms := ParseLines(start, lines).magnets;
    ValuesAre(order, found, ms);
    var values := seq(|order|, k requires 0 <= k < |order| && order[k] in found => found[order[k]]);
    assert values == ms;
    magnets := SortDesc(values, (m: Magnet) => m.count);
    ParseIs(body, values, magnets);
  }

  lemma ParseIs(body: string, ms: seq<Magnet>, magnets: seq<Magnet>)
    requires ms == ParseLines(Parsed("", []), Rows(body)).magnets
    requires magnets == SortDesc(ms, (m: Magnet) => m.count)
    ensures magnets == Parse(body)
  {
    hide SortDesc, ParseLines, Rows;
  }

  // ----- the printer's loops

  function Listed(byArea: map<string, seq<Item>>, a: string): seq<Item> {
    if a in byArea then byArea[a] else []
  }

  function Total(totals: map<string, nat>, a: string): nat {
    if a in totals then totals[a] else 0
  }

  /** The issues seen so far, grouped: the lists, the totals, and the areas as they came. */
  ghost predicate Grouped(seen: seq<Info>, byArea: map<string, seq<Item>>,
                          totals: map<string, nat>, order: seq<string>) {
    && order == Distinct(AllAreas(seen))
    && (forall a :: a in totals <==> a in order)
    && forall a :: GroupedAt(seen, byArea, totals, a)
  }

  ghost predicate GroupedAt(seen: seq<Info>, byArea: map<string, seq<Item>>,
                            totals: map<string, nat>, a: string) {
    Listed(byArea, a) == ByArea(seen, a) && Total(totals, a) == SumCounts(ByArea(seen, a))
  }

  lemma {:induction false} ByAreaSnoc(infos: seq<Info>, x: Info, a: string)
    ensures ByArea(infos + [x], a) ==
            ByArea(infos, a) + Repeat(Item(x.number, x.count), multiset(x.areas)[a])
  {
    hide Repeat;
    if infos != [] {
      assert (infos + [x])[1..] == infos[1..] + [x];
      ByAreaSnoc(infos[1..], x, a);
    } else {
      assert [x][1..] == [];
    }
  }

  lemma {:induction false} AllAreasSnoc(infos: seq<Info>, x: Info)
    ensures AllAreas(infos + [x]) == AllAreas(infos) + x.areas
  {
    if infos != [] {
      assert (infos + [x])[1..] == infos[1..] + [x];
      AllAreasSnoc(infos[1..], x);
    } else {
      assert [x][1..] == [];
    }
  }

  lemma {:induction false} SumCountsSnoc(items: seq<Item>, i: Item)
    ensures SumCounts(items + [i]) == SumCounts(items) + i.count
  {
    if items != [] {
      assert (items + [i])[1..] == items[1..] + [i];
      SumCountsSnoc(items[1..], i);
    } else {
      assert [i][1..] == [];
    }
  }

  /** The issue with only its first `j` areas. */
  function WithAreas(x: Info, j: nat): Info
    requires j <= |x.areas|
  {
    x.(areas := x.areas[..j])
  }

  lemma ByAreaOneMore(infos: seq<Info>, x: Info, j: nat, a: string)
    requires j < |x.areas|
    ensures ByArea(infos + [WithAreas(x, j + 1)], a) ==
            ByArea(infos + [WithAreas(x, j)], a) + (if a == x.areas[j] then [Item(x.number, x.count)] else [])
  {
    hide ByArea;
    var i := Item(x.number, x.count);
    ByAreaSnoc(infos, WithAreas(x, j), a);
    ByAreaSnoc(infos, WithAreas(x, j + 1), a);
    assert x.areas[..j + 1] == x.areas[..j] + [x.areas[j]];
    var n := multiset(x.areas[..j])[a];
    assert Repeat(i, n + 1) == Repeat(i, n) + [i];
    assert Repeat(i, n) + [] == Repeat(i, n);
  }

  lemma AllAreasOneMore(infos: seq<Info>, x: Info, j: nat)
    requires j < |x.areas|
    ensures AllAreas(infos + [WithAreas(x, j + 1)]) == AllAreas(infos + [WithAreas(x, j)]) + [x.areas[j]]
  {
    AllAreasSnoc(infos, WithAreas(x, j));
    AllAreasSnoc(infos, WithAreas(x, j + 1));
    hide AllAreas;
    assert x.areas[..j + 1] == x.areas[..j] + [x.areas[j]];
  }

  lemma DistinctSnoc(xs: seq<string>, x: string)
    ensures Distinct(xs + [x]) == if x in Distinct(xs) then Distinct(xs) else Distinct(xs) + [x]
  {
    assert (xs + [x])[..|xs|] == xs;
  }

  /** One more area of one more issue. */
  lemma GroupedOneMore(infos: seq<Info>, x: Info, j: nat, byArea: map<string, seq<Item>>,
                       totals: map<string, nat>, order: seq<string>)
    requires j < |x.areas| && Grouped(infos + [WithAreas(x, j)], byArea, totals, order)
    ensures var area := x.areas[j];
            Grouped(infos + [WithAreas(x, j + 1)],
                    byArea[area := Listed(byArea, area) + [Item(x.number, x.count)]],
                    totals[area := Total(totals, area) + x.count],
                    if area in totals then order else order + [area])
  {
    hide GroupedAt, Listed, Total, Distinct, AllAreas, WithAreas;
    var area := x.areas[j];
    AllAreasOneMore(infos, x, j);
    DistinctSnoc(AllAreas(infos + [WithAreas(x, j)]), area);
    var seen' := infos + [WithAreas(x, j + 1)];
    var byArea' := byArea[area := Listed(byArea, area) + [Item(x.number, x.count)]];
    var totals' := totals[area := Total(totals, area) + x.count];
    forall a: string
      ensures GroupedAt(seen', byArea', totals', a)
    {
      GroupedAtOneMore(infos, x, j, byArea, totals, a);
    }
  }

  lemma GroupedAtOneMore(infos: seq<Info>, x: Info, j: nat, byArea: map<string, seq<Item>>,
                         totals: map<string, nat>, a: string)
    requires j < |x.areas| && GroupedAt(infos + [WithAreas(x, j)], byArea, totals, a)
    ensures GroupedAt(infos + [WithAreas(x, j + 1)],
                      byArea[x.areas[j] := Listed(byArea, x.areas[j]) + [Item(x.number, x.count)]],
                      totals[x.areas[j] := Total(totals, x.areas[j]) + x.count], a)
  {
    hide ByArea, SumCounts, WithAreas;
    var i, seen := Item(x.number, x.count), infos + [WithAreas(x, j)];
    ByAreaOneMore(infos, x, j, a);
    SumCountsSnoc(ByArea(seen, a), i);
    assert ByArea(seen, a) + [] == ByArea(seen, a);
  }

  lemma GroupedNothing()
    ensures Grouped([], map[], map[], [])
  {
  }

  lemma GroupedNoAreas(infos: seq<Info>, x: Info, byArea: map<string, seq<Item>>,
                       totals: map<string, nat>, order: seq<string>)
    requires Grouped(infos, byArea, totals, order)
    ensures Grouped(infos + [WithAreas(x, 0)], byArea, totals, order)
  {
    AllAreasSnoc(infos, WithAreas(x, 0));
    assert AllAreas(infos) + [] == AllAreas(infos);
    hide ByArea, AllAreas, Distinct, SumCounts;
    var seen' := infos + [WithAreas(x, 0)];
    forall a: string
      ensures GroupedAt(seen', byArea, totals, a)
    {
      assert GroupedAt(infos, byArea, totals, a);
      ByAreaSnoc(infos, WithAreas(x, 0), a);
      assert ByArea(infos, a) + [] == ByArea(infos, a);
    }
  }

  method GroupByArea(infos: seq<Info>)
    returns (byArea: map<string, seq<Item>>, totals: map<string, nat>, order: seq<string>)
    ensures Grouped(infos, byArea, totals, order)
  {
    hide *;
    byArea, totals, order := map[], map[], [];
    GroupedNothing();
    assert infos[..0] == [];
    for n := 0 to |infos|
      invariant Grouped(infos[..n], byArea, totals, order)
    {
      var x := infos[n];
      GroupedNoAreas(infos[..n], x, byArea, totals, order);
      for j := 0 to |x.areas|
        invariant Grouped(infos[..n] + [WithAreas(x, j)], byArea, totals, order)
      {
        var area := x.areas[j];
        GroupedOneMore(infos[..n], x, j, byArea, totals, order);
        byArea := byArea[area := Listed(byArea, area) + [Item(x.number, x.count)]];
        order := if area in totals then order else order + [area];
        totals := totals[area := Total(totals, area) + x.count];
      }
      AllOfTheAreas(x);
      assert infos[..n + 1] == infos[..n] + [x];
    }
    assert infos[..|infos|] == infos;
  }

  lemma AllOfTheAreas(x: Info)
    ensures WithAreas(x, |x.areas|) == x
  {
  }

  lemma {:induction false} SectionsSnoc(infos: seq<Info>, areas: seq<string>, a: string)
    ensures Sections(infos, areas + [a]) == Sections(infos, areas) + Section(infos, a)
  {
    hide Section;
    if areas != [] {
      assert (areas + [a])[1..] == areas[1..] + [a];
      SectionsSnoc(infos, areas[1..], a);
    } else {
      assert [a][1..] == [];
    }
  }

  lemma {:induction false} ItemLinesSnoc(items: seq<Item>, i: Item)
    ensures ItemLines(items + [i]) == ItemLines(items) + [ItemLine(i)]
  {
    hide ItemLine;
    if items != [] {
      assert (items + [i])[1..] == items[1..] + [i];
      ItemLinesSnoc(items[1..], i);
    } else {
      assert [i][1..] == [];
    }
  }

  lemma NoLines(infos: seq<Info>)
    ensures ItemLines([]) == [] && Sections(infos, []) == []
  {
  }

  lemma SectionIs(infos: seq<Info>, a: string, byArea: map<string, seq<Item>>,
                  totals: map<string, nat>, order: seq<string>, items: seq<Item>)
    requires Grouped(infos, byArea, totals, order)
    requires items == SortDesc(Listed(byArea, a), (i: Item) => i.count)
    ensures Section(infos, a) == ["", "## " + a, ""] + ItemLines(items)
  {
    hide SortDesc, ByArea, Distinct, AllAreas, SumCounts, ItemLines;
    assert GroupedAt(infos, byArea, totals, a);
  }

  /** The totals the printer kept give the order of the areas. */
  lemma OrderIs(infos: seq<Info>, byArea: map<string, seq<Item>>, totals: map<string, nat>,
                order: seq<string>, areas: seq<string>)
    requires Grouped(infos, byArea, totals, order)
    requires areas == SortDesc(order, a => Total(totals, a))
    ensures areas == AreaOrder(infos)
  {
    hide SortDesc, ByArea, Distinct, AllAreas, SumCounts;
    assert forall k :: 0 <= k < |order| ==> GroupedAt(infos, byArea, totals, order[k]);
    SortKeyAgrees(order, a => Total(totals, a), a => SumCounts(ByArea(infos, a)));
  }

  lemma BodyIs(infos: seq<Info>)
    ensures Body(INTRO, infos) == Join([INTRO] + Sections(infos, AreaOrder(infos)))
  {
    hide Join, Sections, AreaOrder;
  }

  /** The lines of one area. */
  method AppendSection(lines: seq<string>, area: string, items: seq<Item>) returns (lines': seq<string>)
    ensures lines' == lines + (["", "## " + area, ""] + ItemLines(items))
  {
    hide *;
    lines' := lines + [""];
    lines' := lines' + ["## " + area];
    lines' := lines' + [""];
    ghost var head := ["", "## " + area, ""];
    NoLines([]);
    assert items[..0] == [];
    for n := 0 to |items|
      invariant lines' == lines + head + ItemLines(items[..n])
    {
      ItemLinesSnoc(items[..n], items[n]);
      assert items[..n + 1] == items[..n] + [items[n]];
      lines' := lines' + [ItemLine(items[n])];
    }
    assert items[..|items|] == items;
  }

  /** `build_markdown_body`. */
  method BuildMarkdownBody(infos: seq<Info>) returns (body: string)
    ensures body == Body(INTRO, infos) && Introduces(INTRO)
  {
    hide *;
    var byArea, totals, order := GroupByArea(infos);
    var areas := SortDesc(order, a => Total(totals, a));
    OrderIs(infos, byArea, totals, order, areas);
    var lines := [INTRO];
    NoLines(infos);
    assert areas[..0] == [];
    for n := 0 to |areas|
      invariant lines == [INTRO] + Sections(infos, areas[..n])
    {
      var issues := SortDesc(Listed(byArea, areas[n]), (i: Item) => i.count);
      SectionIs(infos, areas[n], byArea, totals, order, issues);
      lines := AppendSection(lines, areas[n], issues);
      SectionsSnoc(infos, areas[..n], areas[n]);
      assert areas[..n + 1] == areas[..n] + [areas[n]];
    }
    assert areas[..|areas|] == areas;
    BodyIs(infos);
    IntroIntroduces();
    body := Join(lines);
  }
}
