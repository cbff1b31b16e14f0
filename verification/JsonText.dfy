/** The compact ASCII text of a JSON document, as json.dumps writes it with the separators of
    strathmark/auth.py, and what can be read off it: everything, except whether a character
    beyond 0xFFFF was one code point or its two surrogates. How a fraction is written is a
    parameter. */
module JsonText {
  import opened Wrappers
  import opened CanonicalJson
  import opened Utf16

  // ---------------------------------------------------------------- strings

  function HexDigit(d: int): char
    requires 0 <= d < 16
  {
    if d < 10 then '0' + d as char else 'a' + (d - 10) as char
  }

  function HexValue(c: char): int {
    if '0' <= c <= '9' then (c - '0') as int else if 'a' <= c <= 'f' then (c - 'a') as int + 10 else -1
  }

  lemma HexRoundTrip(d: int)
    requires 0 <= d < 16
    ensures HexValue(HexDigit(d)) == d
  {}

  function Hex(u: CodeUnit): (r: string)
    ensures |r| == 6 && r[0] == '\\' && r[1] == 'u'
  {
    ['\\', 'u', HexDigit(u / 4096), HexDigit(u / 256 % 16), HexDigit(u / 16 % 16), HexDigit(u % 16)]
  }

  function ValueOfHex(r: string): int
    requires |r| >= 6
  {
    HexValue(r[2]) * 4096 + HexValue(r[3]) * 256 + HexValue(r[4]) * 16 + HexValue(r[5])
  }

  lemma HexesRoundTrip(u: CodeUnit)
    ensures ValueOfHex(Hex(u)) == u
  {
    HexRoundTrip(u / 4096);
    HexRoundTrip(u / 256 % 16);
    HexRoundTrip(u / 16 % 16);
    HexRoundTrip(u % 16);
    assert u / 256 == u / 4096 * 16 + u / 256 % 16;
    assert u / 16 == u / 256 * 16 + u / 16 % 16;
  }

  /** The short escapes, by code: quote, backslash, newline, return, tab, backspace, form feed. */
  function Short(u: CodeUnit): Option<char> {
    if u == 34 then Some('\"') else if u == 92 then Some('\\')
    else if u == 10 then Some('n') else if u == 13 then Some('r') else if u == 9 then Some('t')
    else if u == 8 then Some('b') else if u == 12 then Some('f')
    else None
  }

  function FromShort(e: char): int {
    if e == 'n' then 10 else if e == 'r' then 13 else if e == 't' then 9
    else if e == 'b' then 8 else if e == 'f' then 12
    else e as int
  }

  function Escape(u: CodeUnit): (r: string)
    ensures r != "" && r[0] != '\"'
  {
    if Short(u).Some? then ['\\', Short(u).value] else if 32 <= u <= 126 then [u as char] else Hex(u)
  }

  /** The code unit at the head of an escaped text, and how many characters it takes. */
  function Decode(r: string): (int, int) {
    if r == "" then (-1, 0)
    else if r[0] != '\\' then (r[0] as int, 1)
    else if |r| < 2 then (-1, 0)
    else if r[1] != 'u' then (FromShort(r[1]), 2)
    else if |r| < 6 then (-1, 0)
    else (ValueOfHex(r), 6)
  }

  lemma DecodeEscape(u: CodeUnit, s: string)
    ensures Decode(Escape(u) + s) == (u, |Escape(u)|)
  {
    var r := Escape(u) + s;
    if Short(u).Some? {
      assert r[0] == '\\' && r[1] == Short(u).value;
    } else if 32 <= u <= 126 {
      assert r[0] == u as char;
    } else {
      HexesRoundTrip(u);
      assert r[0] == '\\' && r[1] == 'u';
      assert r[2] == Hex(u)[2] && r[3] == Hex(u)[3] && r[4] == Hex(u)[4] && r[5] == Hex(u)[5];
    }
  }

  /** An escaped code unit and what follows it can be read off in one way only. */
  lemma EscapeIsPrefixFree(u: CodeUnit, v: CodeUnit, s: string, t: string)
    requires Escape(u) + s == Escape(v) + t
    ensures u == v && s == t
  {
    DecodeEscape(u, s);
    DecodeEscape(v, t);
    assert (Escape(u) + s)[|Escape(u)|..] == s && (Escape(v) + t)[|Escape(v)|..] == t;
  }

  function QuoteRest(us: seq<CodeUnit>): (r: string)
    ensures r != ""
  {
    if us == [] then "\"" else Escape(us[0]) + QuoteRest(us[1..])
  }

  /** A string literal: its code units, escaped. */
  function Quote(t: PyStr): (r: string)
    ensures r != "" && r[0] == '\"'
  {
    "\"" + QuoteRest(Units(t))
  }

  lemma {:induction false} QuoteRestEndsItself(a: seq<CodeUnit>, b: seq<CodeUnit>, s: string, t: string)
    requires QuoteRest(a) + s == QuoteRest(b) + t
    ensures a == b && s == t
  {
    if a == [] || b == [] {
      BothRestsEnd(a, b, s, t);
    } else {
      QuoteRestHead(a, s);
      QuoteRestHead(b, t);
      EscapeIsPrefixFree(a[0], b[0], QuoteRest(a[1..]) + s, QuoteRest(b[1..]) + t);
      QuoteRestEndsItself(a[1..], b[1..], s, t);
      assert a == [a[0]] + a[1..] && b == [b[0]] + b[1..];
    }
  }

  lemma QuoteRestHead(a: seq<CodeUnit>, s: string)
    requires a != []
    ensures QuoteRest(a) + s == Escape(a[0]) + (QuoteRest(a[1..]) + s)
    ensures (QuoteRest(a) + s)[0] != '\"'
  {}

  lemma BothRestsEnd(a: seq<CodeUnit>, b: seq<CodeUnit>, s: string, t: string)
    requires QuoteRest(a) + s == QuoteRest(b) + t && (a == [] || b == [])
    ensures a == b && s == t
  {
    if a != [] {
      QuoteRestHead(a, s);
    }
    if b != [] {
      QuoteRestHead(b, t);
    }
    assert ("\"" + s)[1..] == s && ("\"" + t)[1..] == t;
  }

  lemma QuoteText(a: PyStr, s: string)
    ensures Quote(a) + s == "\"" + (QuoteRest(Units(a)) + s)
  {}

  lemma SameTail(c: char, u: string, v: string)
    requires [c] + u == [c] + v
    ensures u == v
  {
    assert ([c] + u)[1..] == u && ([c] + v)[1..] == v;
  }

  lemma QuoteEndsItself(a: PyStr, b: PyStr, s: string, t: string)
    requires Quote(a) + s == Quote(b) + t
    ensures Units(a) == Units(b) && s == t
  {
    QuoteText(a, s);
    QuoteText(b, t);
    SameTail('\"', QuoteRest(Units(a)) + s, QuoteRest(Units(b)) + t);
    QuoteRestEndsItself(Units(a), Units(b), s, t);
  }

  // ---------------------------------------------------------------- numbers

  predicate NumberChar(c: char) {
    '0' <= c <= '9' || c in {'-', '+', '.', 'e'}
  }

  predicate IsNumberText(s: string) {
    s != "" && forall i | 0 <= i < |s| :: NumberChar(s[i])
  }

  /** What repr writes for a fraction and never for an integer. */
  predicate ShowsFraction(s: string) {
    '.' in s || 'e' in s
  }

  function Digits(n: nat): (r: string)
    ensures r != "" && forall i | 0 <= i < |r| :: '0' <= r[i] <= '9'
  {
    if n < 10 then ['0' + n as char] else Digits(n / 10) + ['0' + (n % 10) as char]
  }

  function ValueOfDigits(s: string): int {
    if s == "" then 0 else ValueOfDigits(s[..|s| - 1]) * 10 + (s[|s| - 1] as int - '0' as int)
  }

  lemma {:induction false} DigitsRoundTrip(n: nat)
    ensures ValueOfDigits(Digits(n)) == n
  {
    var s := Digits(n);
    if n >= 10 {
      DigitsRoundTrip(n / 10);
      assert s[..|s| - 1] == Digits(n / 10);
    } else {
      assert s[..0] == "";
    }
  }

  function WholeText(n: int): (r: string)
    ensures IsNumberText(r) && !ShowsFraction(r)
  {
    if n < 0 then "-" + Digits(-n) else Digits(n)
  }

  lemma WholeTextsDiffer(m: int, n: int)
    requires WholeText(m) == WholeText(n)
    ensures m == n
  {
    var s, t := WholeText(m), WholeText(n);
    assert m < 0 ==> s[0] == '-' && s[1..] == Digits(-m);
    assert n < 0 ==> t[0] == '-' && t[1..] == Digits(-n);
    DigitsRoundTrip(if m < 0 then -m else m);
    DigitsRoundTrip(if n < 0 then -n else n);
  }

  lemma NextChar(a: string, s: string, b: string, t: string)
    requires a + s == b + t && |a| < |b|
    ensures s != "" && s[0] == b[|a|]
  {
    assert (a + s)[|a|] == (b + t)[|a|];
  }

  /** A number is read up to the first character no number contains. */
  lemma NumbersEndWhereTheyStop(a: string, b: string, s: string, t: string)
    requires IsNumberText(a) && IsNumberText(b) && Ends(s) && Ends(t) && a + s == b + t
    ensures a == b && s == t
  {
    var u := a + s;
    assert u == b + t;
    if |a| < |b| {
      NextChar(a, s, b, t);
    }
    if |b| < |a| {
      NextChar(b, t, a, s);
    }
    assert a == u[..|a|] == b && s == u[|a|..] == t;
  }

  /** A value is followed by nothing or by a character that no number contains. */
  predicate Ends(s: string) {
    s == "" || s[0] in {',', ']', '}'}
  }

  // ---------------------------------------------------------------- documents

  function Print(j: Json, fraction: real -> string): string {
    match j
    case Null => "null"
    case Text(s) => Quote(s)
    case Flag(b) => if b then "true" else "false"
    case Whole(n) => WholeText(n)
    case Fraction(r) => fraction(r)
    case Array(items) =>
      "[" + if items == [] then "]" else Print(items[0], fraction) + MoreItems(items[1..], fraction)
    case Object(members) =>
      "{" + if members == [] then "}" else PrintMember(members[0], fraction) + MoreMembers(members[1..], fraction)
  }

  function MoreItems(items: seq<Json>, fraction: real -> string): (r: string)
    ensures r != "" && (r[0] == ',' || r[0] == ']')
  {
    if items == [] then "]" else "," + Print(items[0], fraction) + MoreItems(items[1..], fraction)
  }

  function PrintMember(m: Member, fraction: real -> string): string {
    Quote(m.name) + ":" + Print(m.value, fraction)
  }

  function MoreMembers(members: seq<Member>, fraction: real -> string): (r: string)
    ensures r != "" && (r[0] == ',' || r[0] == '}')
  {
    if members == [] then "}" else "," + PrintMember(members[0], fraction) + MoreMembers(members[1..], fraction)
  }

  // ---------------------------------------------------------------- the writing itself

  function Concat(texts: seq<string>): string {
    if texts == [] then "" else texts[0] + Concat(texts[1..])
  }

  /** Texts with commas between them. */
  function Commas(texts: seq<string>): string {
    if texts == [] then "" else if |texts| == 1 then texts[0] else texts[0] + "," + Commas(texts[1..])
  }

  /** One code unit inside a string literal. */
  ghost predicate WritesUnit(r: string, u: CodeUnit) {
    if u == 0x22 then r == "\\\""
    else if u == 0x5C then r == "\\\\"
    else if u == 0x0A then r == "\\n"
    else if u == 0x0D then r == "\\r"
    else if u == 0x09 then r == "\\t"
    else if u == 0x08 then r == "\\b"
    else if u == 0x0C then r == "\\f"
    else if 0x20 <= u < 0x7F then r == [u as char]
    else
      && |r| == 6 && r[..2] == "\\u"
      && r[2] == HEX[u / 0x1000] && r[3] == HEX[u / 0x100 % 0x10] && r[4] == HEX[u / 0x10 % 0x10] && r[5] == HEX[u % 0x10]
  }

  const HEX := "0123456789abcdef"

  lemma HexDigitIsHex(d: int)
    requires 0 <= d < 16
    ensures |HEX| == 16 && HexDigit(d) == HEX[d]
  {}

  lemma EscapeWritesUnit(u: CodeUnit)
    ensures WritesUnit(Escape(u), u)
  {
    HexDigitIsHex(u / 0x1000);
    HexDigitIsHex(u / 0x100 % 0x10);
    HexDigitIsHex(u / 0x10 % 0x10);
    HexDigitIsHex(u % 0x10);
  }

  function Escapes(us: seq<CodeUnit>): (r: seq<string>)
    ensures |r| == |us| && forall i | 0 <= i < |us| :: r[i] == Escape(us[i])
  {
    if us == [] then [] else [Escape(us[0])] + Escapes(us[1..])
  }

  lemma {:induction false} QuoteRestIsConcat(us: seq<CodeUnit>)
    ensures QuoteRest(us) == Concat(Escapes(us)) + "\""
  {
    if us != [] {
      QuoteRestIsConcat(us[1..]);
      assert Escapes(us)[1..] == Escapes(us[1..]);
    }
  }

  /** A string literal: quotes around what each of its code units is written as. */
  ghost predicate WritesString(r: string, t: PyStr) {
    exists parts: seq<string> :: Spells(parts, t) && r == "\"" + Concat(parts) + "\""
  }

  ghost predicate Spells(parts: seq<string>, t: PyStr) {
    |parts| == |Units(t)| && forall i | 0 <= i < |parts| :: WritesUnit(parts[i], Units(t)[i])
  }

  lemma QuoteWritesString(t: PyStr)
    ensures WritesString(Quote(t), t)
  {
    var parts := Escapes(Units(t));
    QuoteRestIsConcat(Units(t));
    forall i | 0 <= i < |parts| ensures WritesUnit(parts[i], Units(t)[i]) {
      EscapeWritesUnit(Units(t)[i]);
    }
    assert Spells(parts, t);
  }

  /** Decimal digits without leading zeros, most significant first. */
  lemma DigitsAreDecimal(n: nat)
    ensures n < 10 ==> Digits(n) == ["0123456789"[n]]
    ensures n >= 10 ==> Digits(n) == Digits(n / 10) + ["0123456789"[n % 10]]
    ensures WholeText(n) == Digits(n)
    ensures n > 0 ==> WholeText(0 - n) == "-" + Digits(n)
  {
    DigitIsDecimal(n % 10);
  }

  lemma DigitIsDecimal(d: nat)
    requires d < 10
    ensures |"0123456789"| == 10 && '0' + d as char == "0123456789"[d]
  {}

  function ItemTexts(items: seq<Json>, fraction: real -> string): (r: seq<string>)
    ensures |r| == |items| && forall i | 0 <= i < |r| :: r[i] == Print(items[i], fraction)
  {
    if items == [] then [] else [Print(items[0], fraction)] + ItemTexts(items[1..], fraction)
  }

  function MemberTexts(members: seq<Member>, fraction: real -> string): (r: seq<string>)
    ensures |r| == |members|
    ensures forall i | 0 <= i < |r| :: r[i] == Quote(members[i].name) + ":" + Print(members[i].value, fraction)
  {
    if members == [] then [] else [PrintMember(members[0], fraction)] + MemberTexts(members[1..], fraction)
  }

  lemma CommasOf(first: string, rest: seq<string>)
    ensures Commas([first] + rest) == if rest == [] then first else first + ("," + Commas(rest))
  {
    assert ([first] + rest)[1..] == rest;
  }

  lemma Wrap(first: string, rest: string, end: string)
    ensures (first + rest) + end == first + (rest + end)
  {}

  lemma {:induction false} MoreItemsAreListed(items: seq<Json>, fraction: real -> string)
    ensures MoreItems(items, fraction)
            == if items == [] then "]" else ("," + Commas(ItemTexts(items, fraction))) + "]"
    decreases |items|, 1
  {
    if items != [] {
      ListedItems(items, fraction);
      Wrap(",", Print(items[0], fraction), MoreItems(items[1..], fraction));
      Wrap(",", Commas(ItemTexts(items, fraction)), "]");
    }
  }

  lemma {:induction false} ListedItems(items: seq<Json>, fraction: real -> string)
    requires items != []
    ensures Print(items[0], fraction) + MoreItems(items[1..], fraction) == Commas(ItemTexts(items, fraction)) + "]"
    decreases |items|, 0
  {
    var first, rest := Print(items[0], fraction), ItemTexts(items[1..], fraction);
    MoreItemsAreListed(items[1..], fraction);
    CommasOf(first, rest);
    Wrap(first, "," + Commas(rest), "]");
  }

  lemma {:induction false} MoreMembersAreListed(members: seq<Member>, fraction: real -> string)
    ensures MoreMembers(members, fraction)
            == if members == [] then "}" else ("," + Commas(MemberTexts(members, fraction))) + "}"
    decreases |members|, 1
  {
    if members != [] {
      ListedMembers(members, fraction);
      Wrap(",", PrintMember(members[0], fraction), MoreMembers(members[1..], fraction));
      Wrap(",", Commas(MemberTexts(members, fraction)), "}");
    }
  }

  lemma {:induction false} ListedMembers(members: seq<Member>, fraction: real -> string)
    requires members != []
    ensures PrintMember(members[0], fraction) + MoreMembers(members[1..], fraction)
            == Commas(MemberTexts(members, fraction)) + "}"
    decreases |members|, 0
  {
    var first, rest := PrintMember(members[0], fraction), MemberTexts(members[1..], fraction);
    MoreMembersAreListed(members[1..], fraction);
    CommasOf(first, rest);
    Wrap(first, "," + Commas(rest), "}");
  }

  /** What is written for each kind of value, with no blank anywhere between the parts. */
  lemma PrintedForm(j: Json, fraction: real -> string)
    ensures
      var r := Print(j, fraction);
      match j
      case Null => r == "null"
      case Flag(b) => r == if b then "true" else "false"
      case Text(s) => WritesString(r, s)
      case Whole(n) => r == WholeText(n)
      case Fraction(x) => r == fraction(x)
      case Array(items) => r == "[" + Commas(ItemTexts(items, fraction)) + "]"
      case Object(members) => r == "{" + Commas(MemberTexts(members, fraction)) + "}"
  {
    match j
    case Text(s) => QuoteWritesString(s);
    case Array(items) =>
      if items != [] {
        ListedItems(items, fraction);
      }
    case Object(members) =>
      if members != [] {
        ListedMembers(members, fraction);
      }
    case _ =>
  }

  /** The document that is read where j was written: every string and name reread. */
  function ReadBack(j: Json): Json {
    match j
    case Text(s) => Text(Reread(s))
    case Array(items) => Array(ReadItems(items))
    case Object(members) => Object(ReadMembers(members))
    case _ => j
  }

  function ReadItems(items: seq<Json>): seq<Json> {
    if items == [] then [] else [ReadBack(items[0])] + ReadItems(items[1..])
  }

  function ReadMember(m: Member): Member {
    Member(Reread(m.name), ReadBack(m.value))
  }

  function ReadMembers(members: seq<Member>): seq<Member> {
    if members == [] then [] else [ReadMember(members[0])] + ReadMembers(members[1..])
  }

  ghost predicate Within(r: real, j: Json) {
    match j
    case Fraction(q) => q == r
    case Array(items) => exists i :: 0 <= i < |items| && Within(r, items[i])
    case Object(members) => exists i :: 0 <= i < |members| && Within(r, members[i].value)
    case _ => false
  }

  ghost predicate Among(j: Json, known: set<real>) {
    forall r | Within(r, j) :: r in known
  }

  /** These fractions are written as fractions, and different ones differently. */
  ghost predicate Tells(fraction: real -> string, known: set<real>) {
    && (forall r | r in known :: IsNumberText(fraction(r)) && ShowsFraction(fraction(r)))
    && (forall q, r | q in known && r in known && fraction(q) == fraction(r) :: q == r)
  }

  // ---------------------------------------------------------------- one reading only

  predicate IsNumber(j: Json) {
    j.Whole? || j.Fraction?
  }

  /** The kind of value that starts with a character. */
  predicate Starts(j: Json, c: char) {
    match j
    case Null => c == 'n'
    case Text(_) => c == '\"'
    case Flag(b) => c == if b then 't' else 'f'
    case Whole(_) => NumberChar(c)
    case Fraction(_) => NumberChar(c)
    case Array(_) => c == '['
    case Object(_) => c == '{'
  }

  lemma PrintStarts(j: Json, fraction: real -> string, known: set<real>, s: string)
    requires Tells(fraction, known) && Among(j, known)
    ensures Print(j, fraction) != "" && Starts(j, (Print(j, fraction) + s)[0])
  {
    if j.Fraction? {
      assert Within(j.r, j);
    }
  }

  lemma SameKind(x: Json, y: Json, c: char)
    requires Starts(x, c) && Starts(y, c)
    ensures x.Null? <==> y.Null?
    ensures x.Text? <==> y.Text?
    ensures x.Flag? <==> y.Flag?
    ensures x.Flag? ==> x == y
    ensures IsNumber(x) <==> IsNumber(y)
    ensures x.Array? <==> y.Array?
  {}

  lemma NumbersPrintApart(x: Json, y: Json, s: string, t: string, fraction: real -> string, known: set<real>)
    requires Tells(fraction, known) && Among(x, known) && Among(y, known) && Ends(s) && Ends(t)
    requires IsNumber(x) && IsNumber(y) && Print(x, fraction) + s == Print(y, fraction) + t
    ensures x == y && s == t
  {
    if x.Fraction? {
      assert Within(x.r, x);
    }
    if y.Fraction? {
      assert Within(y.r, y);
    }
    NumbersEndWhereTheyStop(Print(x, fraction), Print(y, fraction), s, t);
    if x.Whole? && y.Whole? {
      WholeTextsDiffer(x.n, y.n);
    }
  }

  /** What a printed value and what follows it are can be read off in one way only. */
  lemma {:induction false} PrintEndsItself(
      x: Json, y: Json, s: string, t: string, fraction: real -> string, known: set<real>)
    requires Tells(fraction, known) && Among(x, known) && Among(y, known) && Ends(s) && Ends(t)
    requires Print(x, fraction) + s == Print(y, fraction) + t
    ensures ReadBack(x) == ReadBack(y) && s == t
    decreases x, 1
  {
    PrintStarts(x, fraction, known, s);
    PrintStarts(y, fraction, known, t);
    SameKind(x, y, (Print(x, fraction) + s)[0]);
    if IsNumber(x) {
      NumbersPrintApart(x, y, s, t, fraction, known);
    } else if x.Text? {
      QuoteEndsItself(x.text, y.text, s, t);
    } else if x.Array? {
      ArraysEndThemselves(x, y, s, t, fraction, known);
    } else if x.Object? {
      ObjectsEndThemselves(x, y, s, t, fraction, known);
    } else {
      var n := |Print(x, fraction)|;
      assert (Print(x, fraction) + s)[n..] == s && (Print(y, fraction) + t)[n..] == t;
    }
  }

  lemma ItemIsAmong(j: Json, i: nat, known: set<real>)
    requires j.Array? && i < |j.items| && Among(j, known)
    ensures Among(j.items[i], known)
  {}

  lemma MemberIsAmong(j: Json, i: nat, known: set<real>)
    requires j.Object? && i < |j.members| && Among(j, known)
    ensures Among(j.members[i].value, known)
  {}

  lemma ArrayText(x: Json, s: string, fraction: real -> string)
    requires x.Array?
    ensures x.items == [] ==> Print(x, fraction) + s == "[" + ("]" + s)
    ensures x.items != [] ==>
      Print(x, fraction) + s == "[" + (Print(x.items[0], fraction) + (MoreItems(x.items[1..], fraction) + s))
  {}

  lemma MoreItemsText(xs: seq<Json>, s: string, fraction: real -> string)
    ensures xs == [] ==> MoreItems(xs, fraction) + s == "]" + s
    ensures xs != [] ==>
      MoreItems(xs, fraction) + s == "," + (Print(xs[0], fraction) + (MoreItems(xs[1..], fraction) + s))
  {}

  lemma MemberText(m: Member, s: string, fraction: real -> string)
    ensures PrintMember(m, fraction) + s == Quote(m.name) + (":" + (Print(m.value, fraction) + s))
  {}

  lemma ObjectText(x: Json, s: string, fraction: real -> string)
    requires x.Object?
    ensures x.members == [] ==> Print(x, fraction) + s == "{" + ("}" + s)
    ensures x.members != [] ==>
      Print(x, fraction) + s == "{" + (PrintMember(x.members[0], fraction) + (MoreMembers(x.members[1..], fraction) + s))
  {}

  lemma MoreMembersText(xs: seq<Member>, s: string, fraction: real -> string)
    ensures xs == [] ==> MoreMembers(xs, fraction) + s == "}" + s
    ensures xs != [] ==>
      MoreMembers(xs, fraction) + s == "," + (PrintMember(xs[0], fraction) + (MoreMembers(xs[1..], fraction) + s))
  {}

  lemma {:induction false} ArraysEndThemselves(
      x: Json, y: Json, s: string, t: string, fraction: real -> string, known: set<real>)
    requires Tells(fraction, known) && Among(x, known) && Among(y, known) && x.Array? && y.Array?
    requires Print(x, fraction) + s == Print(y, fraction) + t
    ensures ReadBack(x) == ReadBack(y) && s == t
    decreases x, 0
  {
    ArrayText(x, s, fraction);
    ArrayText(y, t, fraction);
    if x.items == [] {
      EmptyArray(y, s, t, fraction, known);
    } else if y.items == [] {
      EmptyArray(x, t, s, fraction, known);
    } else {
      var p, q := MoreItems(x.items[1..], fraction) + s, MoreItems(y.items[1..], fraction) + t;
      SameTail('[', Print(x.items[0], fraction) + p, Print(y.items[0], fraction) + q);
      ItemsAreAmong(x, known);
      ItemsAreAmong(y, known);
      PrintEndsItself(x.items[0], y.items[0], p, q, fraction, known);
      MoreItemsEndThemselves(x.items[1..], y.items[1..], s, t, fraction, known);
    }
  }

  lemma ItemsAreAmong(j: Json, known: set<real>)
    requires j.Array? && Among(j, known)
    ensures forall i | 0 <= i < |j.items| :: Among(j.items[i], known)
  {
    forall i | 0 <= i < |j.items| { ItemIsAmong(j, i, known); }
  }

  lemma MembersAreAmong(j: Json, known: set<real>)
    requires j.Object? && Among(j, known)
    ensures forall i | 0 <= i < |j.members| :: Among(j.members[i].value, known)
  {
    forall i | 0 <= i < |j.members| { MemberIsAmong(j, i, known); }
  }

  lemma EmptyArray(y: Json, s: string, t: string, fraction: real -> string, known: set<real>)
    requires Tells(fraction, known) && y.Array? && Among(y, known)
    requires "[" + ("]" + s) == Print(y, fraction) + t
    ensures y.items == [] && s == t
  {
    ArrayText(y, t, fraction);
    if y.items == [] {
      SameTail('[', "]" + s, "]" + t);
      SameTail(']', s, t);
    } else {
      var q := MoreItems(y.items[1..], fraction) + t;
      ItemIsAmong(y, 0, known);
      PrintStarts(y.items[0], fraction, known, q);
      SameTail('[', "]" + s, Print(y.items[0], fraction) + q);
    }
  }

  lemma {:induction false} MoreItemsEndThemselves(
      xs: seq<Json>, ys: seq<Json>, s: string, t: string, fraction: real -> string, known: set<real>)
    requires Tells(fraction, known)
    requires forall i | 0 <= i < |xs| :: Among(xs[i], known)
    requires forall i | 0 <= i < |ys| :: Among(ys[i], known)
    requires MoreItems(xs, fraction) + s == MoreItems(ys, fraction) + t
    ensures ReadItems(xs) == ReadItems(ys) && s == t
    decreases xs, 0
  {
    MoreItemsText(xs, s, fraction);
    MoreItemsText(ys, t, fraction);
    assert (MoreItems(xs, fraction) + s)[0] == if xs == [] then ']' else ',';
    assert (MoreItems(ys, fraction) + t)[0] == if ys == [] then ']' else ',';
    if xs == [] {
      SameTail(']', s, t);
    } else {
      var p, q := MoreItems(xs[1..], fraction) + s, MoreItems(ys[1..], fraction) + t;
      SameTail(',', Print(xs[0], fraction) + p, Print(ys[0], fraction) + q);
      PrintEndsItself(xs[0], ys[0], p, q, fraction, known);
      MoreItemsEndThemselves(xs[1..], ys[1..], s, t, fraction, known);
    }
  }

  lemma {:induction false} MemberEndsItself(
      m: Member, n: Member, s: string, t: string, fraction: real -> string, known: set<real>)
    requires Tells(fraction, known) && Among(m.value, known) && Among(n.value, known) && Ends(s) && Ends(t)
    requires PrintMember(m, fraction) + s == PrintMember(n, fraction) + t
    ensures ReadMember(m) == ReadMember(n) && s == t
    decreases m, 0
  {
    var a, b := Print(m.value, fraction) + s, Print(n.value, fraction) + t;
    MemberText(m, s, fraction);
    MemberText(n, t, fraction);
    QuoteEndsItself(m.name, n.name, ":" + a, ":" + b);
    SameTail(':', a, b);
    PrintEndsItself(m.value, n.value, s, t, fraction, known);
  }

  lemma {:induction false} ObjectsEndThemselves(
      x: Json, y: Json, s: string, t: string, fraction: real -> string, known: set<real>)
    requires Tells(fraction, known) && Among(x, known) && Among(y, known) && x.Object? && y.Object?
    requires Print(x, fraction) + s == Print(y, fraction) + t
    ensures ReadBack(x) == ReadBack(y) && s == t
    decreases x, 0
  {
    var xs, ys := x.members, y.members;
    ObjectText(x, s, fraction);
    ObjectText(y, t, fraction);
    if xs == [] {
      EmptyObject(y, s, t, fraction);
    } else if ys == [] {
      EmptyObject(x, t, s, fraction);
    } else {
      var p, q := MoreMembers(xs[1..], fraction) + s, MoreMembers(ys[1..], fraction) + t;
      SameTail('{', PrintMember(xs[0], fraction) + p, PrintMember(ys[0], fraction) + q);
      MembersAreAmong(x, known);
      MembersAreAmong(y, known);
      MemberEndsItself(xs[0], ys[0], p, q, fraction, known);
      MoreMembersEndThemselves(xs[1..], ys[1..], s, t, fraction, known);
    }
  }

  lemma MemberStarts(m: Member, s: string, fraction: real -> string)
    ensures (PrintMember(m, fraction) + s)[0] == '\"'
  {}

  lemma EmptyObject(y: Json, s: string, t: string, fraction: real -> string)
    requires y.Object? && "{" + ("}" + s) == Print(y, fraction) + t
    ensures y.members == [] && s == t
  {
    ObjectText(y, t, fraction);
    if y.members == [] {
      SameTail('{', "}" + s, "}" + t);
      SameTail('}', s, t);
    } else {
      var q := MoreMembers(y.members[1..], fraction) + t;
      MemberStarts(y.members[0], q, fraction);
      SameTail('{', "}" + s, PrintMember(y.members[0], fraction) + q);
    }
  }

  lemma {:induction false} MoreMembersEndThemselves(
      xs: seq<Member>, ys: seq<Member>, s: string, t: string, fraction: real -> string, known: set<real>)
    requires Tells(fraction, known)
    requires forall i | 0 <= i < |xs| :: Among(xs[i].value, known)
    requires forall i | 0 <= i < |ys| :: Among(ys[i].value, known)
    requires MoreMembers(xs, fraction) + s == MoreMembers(ys, fraction) + t
    ensures ReadMembers(xs) == ReadMembers(ys) && s == t
    decreases xs, 0
  {
    MoreMembersText(xs, s, fraction);
    MoreMembersText(ys, t, fraction);
    assert (MoreMembers(xs, fraction) + s)[0] == if xs == [] then '}' else ',';
    assert (MoreMembers(ys, fraction) + t)[0] == if ys == [] then '}' else ',';
    if xs == [] {
      SameTail('}', s, t);
    } else {
      var p, q := MoreMembers(xs[1..], fraction) + s, MoreMembers(ys[1..], fraction) + t;
      SameTail(',', PrintMember(xs[0], fraction) + p, PrintMember(ys[0], fraction) + q);
      MemberEndsItself(xs[0], ys[0], p, q, fraction, known);
      MoreMembersEndThemselves(xs[1..], ys[1..], s, t, fraction, known);
    }
  }

  lemma {:induction false} ReadBackPrintsAlike(j: Json, fraction: real -> string)
    ensures Print(ReadBack(j), fraction) == Print(j, fraction)
    decreases j, 1
  {
    match j
    case Text(t) => RereadIff(t);
    case Array(items) =>
      if items != [] {
        ReadBackPrintsAlike(items[0], fraction);
        ReadItemsPrintAlike(items[1..], fraction);
        assert ReadItems(items)[1..] == ReadItems(items[1..]);
      }
    case Object(members) =>
      if members != [] {
        ReadMemberPrintsAlike(members[0], fraction);
        ReadMembersPrintAlike(members[1..], fraction);
        assert ReadMembers(members)[1..] == ReadMembers(members[1..]);
      }
    case _ =>
  }

  lemma {:induction false} ReadItemsPrintAlike(items: seq<Json>, fraction: real -> string)
    ensures MoreItems(ReadItems(items), fraction) == MoreItems(items, fraction)
    decreases items, 0
  {
    if items != [] {
      ReadBackPrintsAlike(items[0], fraction);
      ReadItemsPrintAlike(items[1..], fraction);
      assert ReadItems(items)[1..] == ReadItems(items[1..]);
    }
  }

  lemma {:induction false} ReadMemberPrintsAlike(m: Member, fraction: real -> string)
    ensures PrintMember(ReadMember(m), fraction) == PrintMember(m, fraction)
    decreases m, 0
  {
    RereadIff(m.name);
    ReadBackPrintsAlike(m.value, fraction);
  }

  lemma {:induction false} ReadMembersPrintAlike(members: seq<Member>, fraction: real -> string)
    ensures MoreMembers(ReadMembers(members), fraction) == MoreMembers(members, fraction)
    decreases members, 0
  {
    if members != [] {
      ReadMemberPrintsAlike(members[0], fraction);
      ReadMembersPrintAlike(members[1..], fraction);
      assert ReadMembers(members)[1..] == ReadMembers(members[1..]);
    }
  }

  /** Two documents are written as the same text exactly when they are read back as the same. */
  lemma PrintsAlikeIff(x: Json, y: Json, fraction: real -> string, known: set<real>)
    requires Tells(fraction, known) && Among(x, known) && Among(y, known)
    ensures Print(x, fraction) == Print(y, fraction) <==> ReadBack(x) == ReadBack(y)
  {
    ReadBackPrintsAlike(x, fraction);
    ReadBackPrintsAlike(y, fraction);
    if Print(x, fraction) == Print(y, fraction) {
      assert Print(x, fraction) + "" == Print(y, fraction) + "";
      PrintEndsItself(x, y, "", "", fraction, known);
    }
  }

  /** No string and no name of the document has a pair of surrogates. */
  ghost predicate PairFree(j: Json) {
    match j
    case Text(t) => !HasPair(t)
    case Array(items) => forall i | 0 <= i < |items| :: PairFree(items[i])
    case Object(members) => forall i | 0 <= i < |members| :: !HasPair(members[i].name) && PairFree(members[i].value)
    case _ => true
  }

  /** Exactly the documents without such pairs are read back as they are. */
  lemma {:induction false} ReadBackIff(j: Json)
    ensures ReadBack(j) == j <==> PairFree(j)
    decreases j, 1
  {
    match j
    case Text(t) => RereadIff(t);
    case Array(items) => ReadItemsIff(items);
    case Object(members) => ReadMembersIff(members);
    case _ =>
  }

  lemma {:induction false} ReadItemsIff(items: seq<Json>)
    ensures ReadItems(items) == items <==> forall i | 0 <= i < |items| :: PairFree(items[i])
    decreases items, 0
  {
    if items != [] {
      ReadBackIff(items[0]);
      ReadItemsIff(items[1..]);
      var read := ReadItems(items);
      assert read[0] == ReadBack(items[0]) && read[1..] == ReadItems(items[1..]);
      assert items == [items[0]] + items[1..] && read == [read[0]] + read[1..];
      assert forall i | 0 < i < |items| :: items[i] == items[1..][i - 1];
    }
  }

  lemma {:induction false} ReadMemberIff(m: Member)
    ensures ReadMember(m) == m <==> !HasPair(m.name) && PairFree(m.value)
    decreases m, 0
  {
    RereadIff(m.name);
    ReadBackIff(m.value);
  }

  lemma {:induction false} ReadMembersIff(members: seq<Member>)
    ensures ReadMembers(members) == members
       <==> forall i | 0 <= i < |members| :: !HasPair(members[i].name) && PairFree(members[i].value)
    decreases members, 0
  {
    if members != [] {
      ReadMemberIff(members[0]);
      ReadMembersIff(members[1..]);
      var read := ReadMembers(members);
      assert read[0] == ReadMember(members[0]) && read[1..] == ReadMembers(members[1..]);
      assert members == [members[0]] + members[1..] && read == [read[0]] + read[1..];
      assert forall i | 0 < i < |members| :: members[i] == members[1..][i - 1];
    }
  }

  /** Different documents without surrogate pairs are written differently. */
  lemma PrintIsInjective(x: Json, y: Json, fraction: real -> string, known: set<real>)
    requires Tells(fraction, known) && Among(x, known) && Among(y, known)
    requires PairFree(x) && PairFree(y) && Print(x, fraction) == Print(y, fraction)
    ensures x == y
  {
    PrintsAlikeIff(x, y, fraction, known);
    ReadBackIff(x);
    ReadBackIff(y);
  }

  // ---------------------------------------------------------------- such a way of writing exists

  function Place(list: seq<real>, r: real): nat {
    if list == [] || list[0] == r then 0 else 1 + Place(list[1..], r)
  }

  lemma {:induction false} PlacesDiffer(list: seq<real>, q: real, r: real)
    requires q in list && r in list && Place(list, q) == Place(list, r)
    ensures q == r
  {
    if list[0] != q && list[0] != r {
      PlacesDiffer(list[1..], q, r);
    }
  }

  function Dots(n: nat): (s: string)
    ensures |s| == n + 1 && forall i | 0 <= i < |s| :: s[i] == '.'
  {
    seq(n + 1, _ => '.')
  }

  /** Any finitely many fractions can be told apart, so any two requests meet the conditions. */
  lemma SomeWritingTells(list: seq<real>, known: set<real>)
    requires forall r | r in known :: r in list
    ensures exists fraction: real -> string :: Tells(fraction, known)
  {
    var fraction := (r: real) => Dots(Place(list, r));
    forall q, r | q in known && r in known && fraction(q) == fraction(r) ensures q == r {
      assert |Dots(Place(list, q))| == |Dots(Place(list, r))|;
      PlacesDiffer(list, q, r);
    }
    forall r | r in known ensures IsNumberText(fraction(r)) && ShowsFraction(fraction(r)) {
      assert fraction(r)[0] == '.';
    }
    assert Tells(fraction, known);
  }

  /** The fractions of a document, one after the other. */
  function FractionList(j: Json): seq<real> {
    match j
    case Fraction(r) => [r]
    case Array(items) => FractionsOf(items)
    case Object(members) => FractionsOfMembers(members)
    case _ => []
  }

  function FractionsOf(items: seq<Json>): seq<real> {
    if items == [] then [] else FractionList(items[0]) + FractionsOf(items[1..])
  }

  function FractionsOfMember(m: Member): seq<real> {
    FractionList(m.value)
  }

  function FractionsOfMembers(members: seq<Member>): seq<real> {
    if members == [] then [] else FractionsOfMember(members[0]) + FractionsOfMembers(members[1..])
  }

  lemma {:induction false} FractionsAreListed(j: Json, r: real)
    requires Within(r, j)
    ensures r in FractionList(j)
    decreases j, 1
  {
    match j
    case Array(items) =>
      var i :| 0 <= i < |items| && Within(r, items[i]);
      FractionsAreListed(items[i], r);
      ItemsAreListed(items, i, r);
    case Object(members) =>
      var i :| 0 <= i < |members| && Within(r, members[i].value);
      FractionsAreListed(members[i].value, r);
      MembersAreListed(members, i, r);
    case _ =>
  }

  lemma {:induction false} ItemsAreListed(items: seq<Json>, i: nat, r: real)
    requires i < |items| && r in FractionList(items[i])
    ensures r in FractionsOf(items)
  {
    if i > 0 {
      ItemsAreListed(items[1..], i - 1, r);
    }
  }

  lemma {:induction false} MembersAreListed(members: seq<Member>, i: nat, r: real)
    requires i < |members| && r in FractionList(members[i].value)
    ensures r in FractionsOfMembers(members)
  {
    if i > 0 {
      MembersAreListed(members[1..], i - 1, r);
    }
  }

  /** For any two documents there is a way of writing fractions that tells theirs apart. */
  lemma DocumentsAreLegible(x: Json, y: Json)
    ensures exists fraction: real -> string, known: set<real> :: Tells(fraction, known) && Among(x, known) && Among(y, known)
  {
    var list := FractionList(x) + FractionList(y);
    var known := set r | r in list;
    forall r | Within(r, x) ensures r in known {
      FractionsAreListed(x, r);
    }
    forall r | Within(r, y) ensures r in known {
      FractionsAreListed(y, r);
    }
    SomeWritingTells(list, known);
    var fraction: real -> string :| Tells(fraction, known);
    assert Among(x, known) && Among(y, known);
  }
}
