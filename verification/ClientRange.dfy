/** The -crange parameter: a comma separated list of client numbers and ranges. */
module ClientRange {
  import opened Options

  const UINT32 := 0x1_0000_0000
  const ULONG_MAX := 0xFFFF_FFFF_FFFF_FFFF

  /** The maximal runs of characters other than the separator, as strtok_r yields them. */
  function Tokens(s: string, sep: char): (r: seq<string>)
    ensures forall i :: 0 <= i < |r| ==> r[i] != [] && sep !in r[i]
  {
    if s == [] then []
    else if s[0] == sep then Tokens(s[1..], sep)
    else
      var n := WordLength(s, sep);
      [s[..n]] + Tokens(s[n..], sep)
  }

  function WordLength(s: string, sep: char): (n: nat)
    requires s != [] && s[0] != sep
    ensures 0 < n <= |s| && sep !in s[..n] && (n < |s| ==> s[n] == sep)
  {
    if |s| == 1 || s[1] == sep then 1
    else
      var n := WordLength(s[1..], sep);
      assert s[..n + 1] == [s[0]] + s[1..][..n];
      n + 1
  }

  predicate IsDigit(c: char) {
    '0' <= c <= '9'
  }

  predicate IsSpace(c: char) {
    c == ' ' || '\t' <= c <= '\r'
  }

  predicate AllDigits(s: string) {
    forall i :: 0 <= i < |s| ==> IsDigit(s[i])
  }

  function Number(s: string): nat
    requires AllDigits(s)
  {
    if s == [] then 0 else 10 * Number(s[..|s| - 1]) + (s[|s| - 1] as int - '0' as int)
  }

  function AfterSpace(s: string): string {
    if s != [] && IsSpace(s[0]) then AfterSpace(s[1..]) else s
  }

  /** strtoul to the end of the string: blanks, an optional plus sign and at least one digit;
      the value saturates at the largest unsigned long and is cut to 32 bits. The minus sign
      cannot occur: it separates the bounds of a range. */
  function Strtoul(s: string): Option<nat> {
    var t := AfterSpace(s);
    var digits := if t != [] && t[0] == '+' then t[1..] else t;
    if digits == [] || !AllDigits(digits) then None
    else
      var v := Number(digits);
      Some((if v > ULONG_MAX then ULONG_MAX else v) % UINT32)
  }

  /** Whether one token of the list names the client. A token with a dash is a range between
      its first two parts; what follows a second dash is ignored. */
  predicate Covers(token: string, idx: nat) {
    if '-' in token then
      var parts := Tokens(token, '-');
      |parts| >= 2 &&
      var lo, hi := Strtoul(parts[0]), Strtoul(parts[1]);
      lo.Some? && hi.Some? && lo.value <= idx <= hi.value
    else
      Strtoul(token) == Some(idx)
  }

  predicate InRange(idx: nat, crange: Option<string>) {
    crange.None? || exists i :: 0 <= i < |Tokens(crange.value, ',')| && Covers(Tokens(crange.value, ',')[i], idx)
  }

  /** The loop over the tokens: the first that covers the client decides. */
  method IsClientInCRange(idx: nat, crange: Option<string>) returns (inRange: bool)
    ensures inRange <==> InRange(idx, crange)
  {
    if crange.None? {
      return true;
    }
    var tokens := Tokens(crange.value, ',');
    inRange := false;
    var i := 0;
    while i < |tokens| && !inRange
      invariant 0 <= i <= |tokens|
      invariant inRange <==> exists k :: 0 <= k < i && Covers(tokens[k], idx)
    {
      inRange := Covers(tokens[i], idx);
      i := i + 1;
    }
  }

  // ----- what a user writes is what is meant ----------------------------------------------

  /** A plain way to write numbers and ranges. */
  datatype Range = One(n: nat) | Span(lo: nat, hi: nat)

  function Decimal(n: nat): (s: string)
    ensures s != [] && AllDigits(s)
    ensures Number(s) == n
  {
    var d := [(n % 10 + '0' as int) as char];
    if n < 10 then assert d[..0] == []; d
    else
      var r := Decimal(n / 10) + d;
      assert r[..|r| - 1] == Decimal(n / 10);
      r
  }

  function Written(r: Range): string {
    match r
    case One(n) => Decimal(n)
    case Span(lo, hi) => Decimal(lo) + "-" + Decimal(hi)
  }

  function Join(rs: seq<Range>): string {
    if rs == [] then ""
    else if |rs| == 1 then Written(rs[0])
    else Written(rs[0]) + "," + Join(rs[1..])
  }

  predicate Fits(r: Range) {
    match r
    case One(n) => n < UINT32
    case Span(lo, hi) => lo < UINT32 && hi < UINT32
  }

  predicate Means(r: Range, idx: nat) {
    match r
    case One(n) => idx == n
    case Span(lo, hi) => lo <= idx <= hi
  }

  /** A word up to a separator, or the whole string, is its first token. */
  lemma FirstToken(word: string, rest: string, sep: char)
    requires word != [] && sep !in word
    ensures Tokens(word + [sep] + rest, sep) == [word] + Tokens(rest, sep)
    ensures Tokens(word, sep) == [word]
  {
    var s := word + [sep] + rest;
    var n := WordLength(s, sep);
    assert forall i :: 0 <= i < |word| ==> s[i] == word[i] && s[i] != sep;
    assert n >= |word| && s[|word|] == sep;
    assert s[..n] == word by {
      assert n == |word|;
    }
    assert s[n..][1..] == rest;
    assert word[..|word|] == word && word[|word|..] == [];
  }

  lemma NumberRead(n: nat)
    requires n < UINT32
    ensures Strtoul(Decimal(n)) == Some(n)
    ensures '-' !in Decimal(n) && ',' !in Decimal(n)
  {
    hide Decimal, Number;
    var d := Decimal(n);
    assert IsDigit(d[0]) && !IsSpace(d[0]);
    assert AfterSpace(d) == d;
    SmallMod(n);
  }

  lemma SmallMod(n: nat)
    requires n < UINT32
    ensures n % UINT32 == n
  {
  }

  lemma WrittenCovers(r: Range, idx: nat)
    requires Fits(r)
    ensures Covers(Written(r), idx) <==> Means(r, idx)
    ensures Written(r) != [] && ',' !in Written(r)
  {
    match r
    case One(n) => NumberRead(n);
    case Span(lo, hi) =>
      NumberRead(lo);
      NumberRead(hi);
      FirstToken(Decimal(lo), Decimal(hi), '-');
      FirstToken(Decimal(hi), "", '-');
      assert Written(r)[|Decimal(lo)|] == '-';
  }

  lemma {:induction false} JoinTokens(rs: seq<Range>)
    requires forall i :: 0 <= i < |rs| ==> Fits(rs[i])
    ensures |Tokens(Join(rs), ',')| == |rs|
    ensures forall i :: 0 <= i < |rs| ==> Tokens(Join(rs), ',')[i] == Written(rs[i])
  {
    if rs != [] {
      WrittenCovers(rs[0], 0);
      FirstToken(Written(rs[0]), Join(rs[1..]), ',');
      JoinTokens(rs[1..]);
    }
  }

  /** A list of numbers and ranges written out plainly selects exactly the clients it names. */
  lemma WrittenRangesSelect(rs: seq<Range>, idx: nat)
    requires forall i :: 0 <= i < |rs| ==> Fits(rs[i])
    ensures InRange(idx, Some(Join(rs))) <==> exists i :: 0 <= i < |rs| && Means(rs[i], idx)
  {
    JoinTokens(rs);
    var tokens := Tokens(Join(rs), ',');
    forall i | 0 <= i < |rs|
      ensures Covers(tokens[i], idx) <==> Means(rs[i], idx)
    {
      WrittenCovers(rs[i], idx);
    }
  }
}
