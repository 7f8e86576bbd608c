/** The string operations the two scripts use: finding and splitting, trimming, and decimal
    numbers. */
module Strings {
  import opened Prelude

  // ----- characters a text lacks

  ghost predicate Lacks(t: string, c: char) {
    forall k :: 0 <= k < |t| ==> t[k] != c
  }

  lemma LacksBoth(a: string, b: string, c: char)
    requires Lacks(a, c) && Lacks(b, c)
    ensures Lacks(a + b, c)
  {
  }

  lemma LacksMeans(t: string, c: char)
    ensures Lacks(t, c) <==> c !in t
  {
  }

  // ----- finding and splitting

  predicate StartsWith(t: string, prefix: string) {
    |t| >= |prefix| && t[..|prefix|] == prefix
  }

  /** Where `sep` first occurs; the length of the text when it does not. */
  function Find(t: string, sep: string): (at: nat)
    ensures at <= |t|
  {
    if t == "" || StartsWith(t, sep) then 0 else 1 + Find(t[1..], sep)
  }

  predicate Occurs(t: string, sep: string) {
    StartsWith(t[Find(t, sep)..], sep)
  }

  /** The second part of the text split at every `sep`, if there is one. */
  function SecondPart(t: string, sep: string): Option<string>
    requires sep != ""
  {
    if !Occurs(t, sep) then None
    else
      var rest := t[Find(t, sep) + |sep|..];
      Some(rest[..Find(rest, sep)])
  }

  /** Text without the first character of the separator can be skipped. */
  lemma {:induction false} FindSkips(p: string, t: string, sep: string)
    requires sep != "" && forall k :: 0 <= k < |p| ==> p[k] != sep[0]
    ensures Find(p + t, sep) == |p| + Find(t, sep)
  {
    if p == "" {
      assert p + t == t;
    } else {
      assert (p + t)[0] != sep[0];
      assert (p + t)[1..] == p[1..] + t;
      FindSkips(p[1..], t, sep);
    }
  }

  /** And so can its first character when the second does not follow. */
  lemma FindSkipsOne(c: char, t: string, sep: string)
    requires |sep| >= 2 && t != "" && t[0] != sep[1]
    ensures Find([c] + t, sep) == 1 + Find(t, sep)
  {
    var all := [c] + t;
    assert all[1] == t[0] && all[1..] == t;
    assert |all| >= |sep| ==> all[..|sep|][1] == all[1];
  }

  lemma FindHere(sep: string, t: string)
    ensures Find(sep + t, sep) == 0
  {
    assert (sep + t)[..|sep|] == sep;
  }

  lemma {:induction false} FindNowhere(t: string, sep: string)
    requires sep != "" && forall k :: 0 <= k < |t| ==> t[k] != sep[0]
    ensures Find(t, sep) == |t|
  {
    FindSkips(t, "", sep);
    assert t + "" == t;
  }

  /** Splitting a text that is known to hold the separator once. */
  lemma SecondPartIs(p: string, sep: string, rest: string)
    requires sep != "" && Find(p + sep + rest, sep) == |p|
    requires forall k :: 0 <= k < |rest| ==> rest[k] != sep[0]
    ensures Occurs(p + sep + rest, sep) && SecondPart(p + sep + rest, sep) == Some(rest)
  {
    hide Find;
    var t := p + sep + rest;
    assert t[|p|..] == sep + rest;
    assert (sep + rest)[..|sep|] == sep;
    assert t[|p| + |sep|..] == rest;
    FindNowhere(rest, sep);
    assert rest[..|rest|] == rest;
  }

  // ----- trimming and words

  /** The white space of ASCII. */
  predicate IsSpace(c: char) {
    c == ' ' || '\t' <= c <= '\r' || 0x1c as char <= c <= 0x1f as char
  }

  function TrimStart(t: string): string {
    if t != "" && IsSpace(t[0]) then TrimStart(t[1..]) else t
  }

  function TrimEnd(t: string): string {
    if t != "" && IsSpace(t[|t| - 1]) then TrimEnd(t[..|t| - 1]) else t
  }

  function Trim(t: string): string {
    TrimEnd(TrimStart(t))
  }

  function TrimEndOf(t: string, c: char): string {
    if t != "" && t[|t| - 1] == c then TrimEndOf(t[..|t| - 1], c) else t
  }

  predicate Trimmed(t: string) {
    t != "" && !IsSpace(t[0]) && !IsSpace(t[|t| - 1])
  }

  predicate NoSpaces(t: string) {
    forall k :: 0 <= k < |t| ==> !IsSpace(t[k])
  }

  /** The characters up to the first white space. */
  function WordPrefix(t: string): string {
    if t == "" || IsSpace(t[0]) then "" else [t[0]] + WordPrefix(t[1..])
  }

  /** The first word, if there is one. */
  function FirstWord(t: string): Option<string> {
    var w := WordPrefix(TrimStart(t));
    if w == "" then None else Some(w)
  }

  lemma {:induction false} WordPrefixIs(w: string, rest: string)
    requires NoSpaces(w) && (rest == "" || IsSpace(rest[0]))
    ensures WordPrefix(w + rest) == w
  {
    if w == "" {
      assert w + rest == rest;
    } else {
      assert (w + rest)[1..] == w[1..] + rest;
      WordPrefixIs(w[1..], rest);
      assert [w[0]] + w[1..] == w;
    }
  }

  lemma FirstWordIs(w: string, rest: string)
    requires w != "" && NoSpaces(w) && (rest == "" || IsSpace(rest[0]))
    ensures FirstWord(w + rest) == Some(w) && FirstWord(" " + w + rest) == Some(w)
  {
    WordPrefixIs(w, rest);
    assert (" " + w + rest)[1..] == w + rest;
    assert TrimStart(w + rest) == w + rest;
  }

  // ----- decimal numbers

  predicate IsDigit(c: char) {
    '0' <= c <= '9'
  }

  function Digit(n: nat): (c: char)
    requires n < 10
    ensures IsDigit(c) && c as int - '0' as int == n
  {
    ('0' as int + n) as char
  }

  function Decimal(n: nat): (t: string)
    ensures t != "" && forall k :: 0 <= k < |t| ==> IsDigit(t[k])
  {
    if n < 10 then [Digit(n)] else Decimal(n / 10) + [Digit(n % 10)]
  }

  /** A number written in digits, with an optional sign. */
  function ParseInt(t: string): Option<int> {
    if t != "" && (t[0] == '-' || t[0] == '+') then
      match ParseNat(t[1..])
      case Some(n) => Some(Signed(t[0] == '-', n))
      case None => None
    else
      match ParseNat(t)
      case Some(n) => Some(n)
      case None => None
  }

  function Signed(negative: bool, n: int): int {
    if negative then -n else n
  }

  function ParseNat(t: string): Option<nat> {
    if t == "" || !IsDigit(t[|t| - 1]) then None
    else
      var d := t[|t| - 1] as int - '0' as int;
      if |t| == 1 then Some(d)
      else
        match ParseNat(t[..|t| - 1])
        case Some(n) => Some(10 * n + d)
        case None => None
  }

  /** Reading back a number that was written. */
  lemma {:induction false} ParseDecimal(n: nat)
    ensures ParseInt(Decimal(n)) == Some(n)
    ensures ParseNat(Decimal(n)) == Some(n)
  {
    if n >= 10 {
      ParseDecimal(n / 10);
      var t := Decimal(n / 10);
      assert (t + [Digit(n % 10)])[..|t|] == t;
    }
    assert IsDigit(Decimal(n)[0]);
  }

  lemma ParseSigned(n: nat)
    ensures ParseInt("-" + Decimal(n)).Some? && ParseInt("-" + Decimal(n)).value + n == 0
    ensures ParseInt("+" + Decimal(n)) == Some(n)
  {
    ParseDecimal(n);
    hide Decimal, ParseNat;
    assert ("-" + Decimal(n))[1..] == Decimal(n) && ("+" + Decimal(n))[1..] == Decimal(n);
  }

  // ----- what trimming leaves

  ghost predicate AllSpaces(t: string) {
    forall k :: 0 <= k < |t| ==> IsSpace(t[k])
  }

  lemma {:induction false} TrimStartStrips(a: string, w: string)
    requires AllSpaces(a) && (w == "" || !IsSpace(w[0]))
    ensures TrimStart(a + w) == w
    decreases |a|
  {
    hide IsSpace;
    if a == "" {
      assert a + w == w;
    } else {
      assert (a + w)[1..] == a[1..] + w;
      TrimStartStrips(a[1..], w);
    }
  }

  lemma {:induction false} TrimEndStrips(w: string, b: string)
    requires AllSpaces(b) && (w == "" || !IsSpace(w[|w| - 1]))
    ensures TrimEnd(w + b) == w
    decreases |b|
  {
    hide IsSpace;
    if b == "" {
      assert w + b == w;
    } else {
      assert (w + b)[..|w + b| - 1] == w + b[..|b| - 1];
      TrimEndStrips(w, b[..|b| - 1]);
    }
  }

  /** Trimming takes off the white space at both ends and nothing else. */
  lemma TrimStrips(a: string, w: string, b: string)
    requires AllSpaces(a) && AllSpaces(b) && (w == "" || Trimmed(w))
    ensures Trim(a + w + b) == w
  {
    hide IsSpace, TrimStart, TrimEnd;
    if w == "" {
      assert a + w + b == (a + b) + "" && AllSpaces(a + b);
      TrimStartStrips(a + b, "");
      TrimEndStrips("", "");
      assert "" + "" == "";
    } else {
      assert a + w + b == a + (w + b) && (w + b)[0] == w[0];
      TrimStartStrips(a, w + b);
      TrimEndStrips(w, b);
    }
  }
}
