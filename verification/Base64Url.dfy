/** The unpadded base64url codec of strathmark/auth.py over the padded code of section 4 of
    RFC 4648, with the alphabet of its section 5. */
module Base64Url {
  import opened Wrappers

  type Byte = b: int | 0 <= b < 256

  type Sextet = v: int | 0 <= v < 64

  const PAD: char := '='

  function Symbol(v: Sextet): char {
    if v < 26 then 'A' + v as char
    else if v < 52 then 'a' + (v - 26) as char
    else if v < 62 then '0' + (v - 52) as char
    else if v == 62 then '-'
    else '_'
  }

  function ValueOf(c: char): Option<Sextet> {
    if 'A' <= c <= 'Z' then Some((c - 'A') as int)
    else if 'a' <= c <= 'z' then Some((c - 'a') as int + 26)
    else if '0' <= c <= '9' then Some((c - '0') as int + 52)
    else if c == '-' then Some(62)
    else if c == '_' then Some(63)
    else None
  }

  predicate InAlphabet(s: string) {
    forall i | 0 <= i < |s| :: ValueOf(s[i]).Some?
  }

  lemma ValueOfSymbol(v: Sextet)
    ensures ValueOf(Symbol(v)) == Some(v) && Symbol(v) != PAD
  {}

  lemma SymbolOfValue(c: char)
    ensures ValueOf(c).Some? ==> Symbol(ValueOf(c).value) == c
  {}

  function Spell(values: seq<Sextet>): (r: string)
    ensures |r| == |values|
  {
    seq(|values|, i requires 0 <= i < |values| => Symbol(values[i]))
  }

  function Read(s: string): (r: seq<Sextet>)
    requires InAlphabet(s)
    ensures |r| == |s|
  {
    seq(|s|, i requires 0 <= i < |s| => ValueOf(s[i]).value)
  }

  lemma ReadSpell(values: seq<Sextet>)
    ensures InAlphabet(Spell(values)) && Read(Spell(values)) == values
  {
    forall i | 0 <= i < |values| ensures ValueOf(Spell(values)[i]) == Some(values[i]) {
      ValueOfSymbol(values[i]);
    }
  }

  lemma SpellRead(s: string)
    requires InAlphabet(s)
    ensures Spell(Read(s)) == s
  {
    forall i | 0 <= i < |s| ensures Spell(Read(s))[i] == s[i] {
      SymbolOfValue(s[i]);
    }
  }

  lemma PadIsNoSymbol()
    ensures ValueOf(PAD).None?
  {}

  // ---------------------------------------------------------------- the padded code

  /** The bits of one to three bytes in groups of six, filled with zero bits. */
  function Split(g: seq<Byte>): (r: seq<Sextet>)
    requires 1 <= |g| <= 3
    ensures |r| == |g| + 1
  {
    var a := g[0];
    if |g| == 1 then [a / 4, a % 4 * 16]
    else
      var b := g[1];
      if |g| == 2 then [a / 4, a % 4 * 16 + b / 16, b % 16 * 4]
      else [a / 4, a % 4 * 16 + b / 16, b % 16 * 4 + g[2] / 64, g[2] % 64]
  }

  function Join(v: seq<Sextet>): (r: seq<Byte>)
    requires 2 <= |v| <= 4
    ensures |r| == |v| - 1
  {
    var a: int := v[0] as int * 4 + v[1] / 16;
    if |v| == 2 then [a]
    else
      var b: int := v[1] as int % 16 * 16 + v[2] / 4;
      if |v| == 3 then [a, b] else [a, b, v[2] as int % 4 * 64 + v[3]]
  }

  lemma JoinSplit(g: seq<Byte>)
    requires 1 <= |g| <= 3
    ensures Join(Split(g)) == g
  {}

  /** The bits of the last sextet that no byte uses are zero. */
  predicate Tight(v: seq<Sextet>)
    requires 2 <= |v| <= 4
  {
    (|v| == 2 ==> v[1] % 16 == 0) && (|v| == 3 ==> v[2] % 4 == 0)
  }

  lemma SplitJoin(v: seq<Sextet>)
    requires 2 <= |v| <= 4
    ensures Split(Join(v)) == v <==> Tight(v)
  {
    var a, w := Join(v), Split(Join(v));
    assert |w| == |v|;
    assert w[0] == v[0];
    if |v| == 2 {
      assert w[1] == v[1] / 16 * 16;
      assert v == [v[0], v[1]] && w == [w[0], w[1]];
    } else if |v| == 3 {
      assert w[1] == v[1];
      assert w[2] == v[2] / 4 * 4;
      assert v == [v[0], v[1], v[2]] && w == [w[0], w[1], w[2]];
    } else {
      assert w[1] == v[1] && w[2] == v[2] && w[3] == v[3];
      assert v == [v[0], v[1], v[2], v[3]] && w == [w[0], w[1], w[2], w[3]];
    }
  }

  function Padding(length: nat): (r: string)
    ensures |r| < 4 && (length + |r|) % 4 == 0
    ensures forall i | 0 <= i < |r| :: r[i] == PAD
  {
    seq((4 - length % 4) % 4, _ => PAD)
  }

  function EncodeGroup(g: seq<Byte>): (r: string)
    requires 1 <= |g| <= 3
    ensures |r| == 4
  {
    Spell(Split(g)) + Padding(|g| + 1)
  }

  function EncodePadded(x: seq<Byte>): string {
    if x == [] then ""
    else if |x| <= 3 then EncodeGroup(x)
    else EncodeGroup(x[..3]) + EncodePadded(x[3..])
  }

  function Unpadded(t: string): string
    requires |t| == 4
  {
    if t[3] != PAD then t else if t[2] != PAD then t[..3] else t[..2]
  }

  function DecodeGroup(t: string): Option<seq<Byte>>
    requires |t| == 4
  {
    if InAlphabet(Unpadded(t)) then Some(Join(Read(Unpadded(t)))) else None
  }

  /** Padding is allowed in the last group only. */
  function DecodePadded(t: string): Option<seq<Byte>> {
    if t == "" then Some([])
    else if |t| < 4 then None
    else
      var first := DecodeGroup(t[..4]);
      if |t| == 4 || first.None? then first
      else
        var rest := DecodePadded(t[4..]);
        if rest.None? || |first.value| < 3 then None else Some(first.value + rest.value)
  }

  // ---------------------------------------------------------------- the source's codec

  function RStrip(s: string): string {
    if s != "" && s[|s| - 1] == PAD then RStrip(s[..|s| - 1]) else s
  }

  function B64Encode(x: seq<Byte>): string {
    RStrip(EncodePadded(x))
  }

  /** None where the source raises. */
  function B64Decode(s: string): Option<seq<Byte>> {
    if s == "" || !InAlphabet(s) then None else DecodePadded(s + Padding(|s|))
  }

  // ---------------------------------------------------------------- decode inverts encode

  lemma GroupRoundTrip(g: seq<Byte>)
    requires 1 <= |g| <= 3
    ensures DecodeGroup(EncodeGroup(g)) == Some(g)
  {
    var body := Spell(Split(g));
    ReadSpell(Split(g));
    UnpadGroup(body);
    JoinSplit(g);
  }

  lemma UnpadGroup(body: string)
    requires InAlphabet(body) && 2 <= |body| <= 4
    ensures |body + Padding(|body|)| == 4 && Unpadded(body + Padding(|body|)) == body
  {
    PadIsNoSymbol();
    assert ValueOf(body[|body| - 1]).Some?;
  }

  lemma {:induction false} PaddedRoundTrip(x: seq<Byte>)
    ensures DecodePadded(EncodePadded(x)) == Some(x)
  {
    if |x| > 3 {
      var t := EncodePadded(x);
      assert t[..4] == EncodeGroup(x[..3]) && t[4..] == EncodePadded(x[3..]);
      PaddedRoundTrip(x[3..]);
      assert EncodePadded(x[3..]) != "";
      GroupRoundTrip(x[..3]);
      assert x == x[..3] + x[3..];
    } else if x != [] {
      assert EncodeGroup(x)[..4] == EncodeGroup(x);
      GroupRoundTrip(x);
    }
  }

  lemma {:induction false} RStripDropsPadding(s: string, n: nat)
    requires s == "" || s[|s| - 1] != PAD
    ensures RStrip(s + seq(n, _ => PAD)) == s
  {
    var t := s + seq(n, _ => PAD);
    if n > 0 {
      assert t[..|t| - 1] == s + seq(n - 1, _ => PAD);
      RStripDropsPadding(s, n - 1);
    } else {
      assert t == s;
    }
  }

  ghost predicate Shape(x: seq<Byte>, body: string) {
    && InAlphabet(body) && |body| == (4 * |x| + 2) / 3
    && EncodePadded(x) == body + Padding(|body|)
  }

  /** An encoded text is symbols followed by exactly the padding its length calls for. */
  lemma {:induction false} EncodedShape(x: seq<Byte>) returns (body: string)
    ensures Shape(x, body)
  {
    if x == [] {
      body := "";
    } else if |x| <= 3 {
      body := Spell(Split(x));
      ReadSpell(Split(x));
    } else {
      var rest := EncodedShape(x[3..]);
      body := Spell(Split(x[..3])) + rest;
      LongerShape(x, rest);
    }
  }

  lemma LongerShape(x: seq<Byte>, rest: string)
    requires |x| > 3 && Shape(x[3..], rest)
    ensures Shape(x, Spell(Split(x[..3])) + rest)
  {
    var first := Spell(Split(x[..3]));
    ReadSpell(Split(x[..3]));
    assert EncodeGroup(x[..3]) == first + Padding(4) == first;
    assert Padding(|first + rest|) == Padding(|rest|);
    assert EncodePadded(x) == first + (rest + Padding(|rest|));
    assert first + (rest + Padding(|rest|)) == (first + rest) + Padding(|rest|);
  }

  lemma EncodeDropsPadding(x: seq<Byte>)
    ensures InAlphabet(B64Encode(x)) && |B64Encode(x)| % 4 != 1
    ensures B64Encode(x) + Padding(|B64Encode(x)|) == EncodePadded(x)
    ensures |B64Encode(x)| == (4 * |x| + 2) / 3
  {
    var body := EncodedShape(x);
    assert ValueOf(PAD).None?;
    RStripDropsPadding(body, |Padding(|body|)|);
  }

  // ---------------------------------------------------------------- the bits of a text

  /** The alphabet of section 5 of RFC 4648, in the order of its values. */
  const ALPHABET := UPPER + LOWER + DIGITS + "-_"

  const UPPER := "ABCDEFGHIJKLMNOPQRSTUVWXYZ"
  const LOWER := "abcdefghijklmnopqrstuvwxyz"
  const DIGITS := "0123456789"

  /** The bits of a byte string, the highest bit of the first byte first; zeros follow them. */
  function BitAt(x: seq<Byte>, p: nat): (r: nat)
    ensures r < 2
  {
    if p / 8 < |x| then Bit(x[p / 8], p % 8) else 0
  }

  function Bit(b: Byte, i: nat): (r: nat)
    requires i < 8
    ensures r < 2
  {
    if i == 0 then b / 128
    else if i == 1 then b / 64 % 2
    else if i == 2 then b / 32 % 2
    else if i == 3 then b / 16 % 2
    else if i == 4 then b / 8 % 2
    else if i == 5 then b / 4 % 2
    else if i == 6 then b / 2 % 2
    else b % 2
  }

  function SixBits(x: seq<Byte>, k: nat): (r: nat)
    ensures r < 64
  {
    32 * BitAt(x, 6 * k) + 16 * BitAt(x, 6 * k + 1) + 8 * BitAt(x, 6 * k + 2)
    + 4 * BitAt(x, 6 * k + 3) + 2 * BitAt(x, 6 * k + 4) + BitAt(x, 6 * k + 5)
  }

  lemma SymbolIsInAlphabet(v: Sextet)
    ensures |ALPHABET| == 64 && Symbol(v) == ALPHABET[v]
  {
    if v < 26 {
      UpperLetters(v);
    } else if v < 52 {
      LowerLetters(v - 26);
    } else if v < 62 {
      DecimalDigits(v - 52);
    }
  }

  lemma UpperLetters(v: nat)
    requires v < 26
    ensures |UPPER| == 26 && UPPER[v] == 'A' + v as char
  {}

  lemma LowerLetters(v: nat)
    requires v < 26
    ensures |LOWER| == 26 && LOWER[v] == 'a' + v as char
  {}

  lemma DecimalDigits(v: nat)
    requires v < 10
    ensures |DIGITS| == 10 && DIGITS[v] == '0' + v as char
  {}

  /** The alphabet is exactly what is read back. */
  lemma InAlphabetIff(c: char)
    ensures ValueOf(c).Some? <==> c in ALPHABET
  {
    SymbolIsInAlphabet(0);
    if ValueOf(c).Some? {
      SymbolOfValue(c);
      SymbolIsInAlphabet(ValueOf(c).value);
    }
    if c in ALPHABET {
      var v :| 0 <= v < |ALPHABET| && ALPHABET[v] == c;
      SymbolIsInAlphabet(v);
      ValueOfSymbol(v);
    }
  }

  lemma Half64(b: nat)
    ensures b / 64 == b / 128 * 2 + b / 64 % 2
  {}

  lemma Half32(b: nat)
    ensures b / 32 == b / 64 * 2 + b / 32 % 2
  {}

  lemma Half16(b: nat)
    ensures b / 16 == b / 32 * 2 + b / 16 % 2
  {}

  lemma Half8(b: nat)
    ensures b / 8 == b / 16 * 2 + b / 8 % 2
  {}

  lemma Half4(b: nat)
    ensures b / 4 == b / 8 * 2 + b / 4 % 2
  {}

  lemma Half2(b: nat)
    ensures b / 2 == b / 4 * 2 + b / 2 % 2
  {}

  lemma BitsOfByte(b: Byte)
    ensures b / 4 == 32 * Bit(b, 0) + 16 * Bit(b, 1) + 8 * Bit(b, 2) + 4 * Bit(b, 3) + 2 * Bit(b, 4) + Bit(b, 5)
    ensures b % 4 == 2 * Bit(b, 6) + Bit(b, 7)
    ensures b / 16 == 8 * Bit(b, 0) + 4 * Bit(b, 1) + 2 * Bit(b, 2) + Bit(b, 3)
    ensures b % 16 == 8 * Bit(b, 4) + 4 * Bit(b, 5) + 2 * Bit(b, 6) + Bit(b, 7)
    ensures b / 64 == 2 * Bit(b, 0) + Bit(b, 1)
    ensures b % 64 == 32 * Bit(b, 2) + 16 * Bit(b, 3) + 8 * Bit(b, 4) + 4 * Bit(b, 5) + 2 * Bit(b, 6) + Bit(b, 7)
  {
    Half64(b);
    Half32(b);
    Half16(b);
    Half8(b);
    Half4(b);
    Half2(b);
    assert b % 4 == b - b / 4 * 4 && b % 16 == b - b / 16 * 16 && b % 64 == b - b / 64 * 64;
    assert b == b / 2 * 2 + b % 2;
  }

  lemma SixBitsOfOne(a: Byte)
    ensures SixBits([a], 0) == a / 4 && SixBits([a], 1) == a % 4 * 16
  {
    BitsOfByte(a);
  }

  lemma SixBitsOfTwo(a: Byte, b: Byte)
    ensures SixBits([a, b], 0) == a / 4 && SixBits([a, b], 1) == a % 4 * 16 + b / 16 && SixBits([a, b], 2) == b % 16 * 4
  {
    BitsOfByte(a);
    BitsOfByte(b);
  }

  lemma SixBitsOfThree(a: Byte, b: Byte, c: Byte)
    ensures SixBits([a, b, c], 0) == a / 4 && SixBits([a, b, c], 1) == a % 4 * 16 + b / 16
    ensures SixBits([a, b, c], 2) == b % 16 * 4 + c / 64 && SixBits([a, b, c], 3) == c % 64
  {
    BitsOfByte(a);
    BitsOfByte(b);
    BitsOfByte(c);
  }

  lemma SplitTakesSixBits(g: seq<Byte>, k: nat)
    requires 1 <= |g| <= 3 && k <= |g|
    ensures Split(g)[k] == SixBits(g, k)
  {
    if |g| == 1 {
      assert g == [g[0]];
      SixBitsOfOne(g[0]);
    } else if |g| == 2 {
      assert g == [g[0], g[1]];
      SixBitsOfTwo(g[0], g[1]);
    } else {
      assert g == [g[0], g[1], g[2]];
      SixBitsOfThree(g[0], g[1], g[2]);
    }
  }

  lemma BitsLocally(x: seq<Byte>, k: nat)
    requires |x| > 3
    ensures k < 4 ==> SixBits(x, k) == SixBits(x[..3], k)
    ensures SixBits(x, k + 4) == SixBits(x[3..], k)
  {
    forall p: nat | p < 24 ensures BitAt(x, p) == BitAt(x[..3], p) {}
    forall p: nat ensures BitAt(x, p + 24) == BitAt(x[3..], p) {
      assert (p + 24) / 8 == p / 8 + 3 && (p + 24) % 8 == p % 8;
    }
    assert 6 * (k + 4) == 6 * k + 24;
  }

  lemma {:induction false} PaddedBits(x: seq<Byte>, k: nat)
    requires k < (4 * |x| + 2) / 3
    ensures k < |EncodePadded(x)| && EncodePadded(x)[k] == ALPHABET[SixBits(x, k)]
  {
    if |x| <= 3 {
      SplitTakesSixBits(x, k);
      SymbolIsInAlphabet(Split(x)[k]);
    } else {
      BitsLocally(x, if k < 4 then k else k - 4);
      if k < 4 {
        SplitTakesSixBits(x[..3], k);
        SymbolIsInAlphabet(Split(x[..3])[k]);
      } else {
        PaddedBits(x[3..], k - 4);
      }
    }
  }

  /** Each character of a text is the symbol of the next six bits of the bytes, zeros filling the
      last six up. */
  lemma EncodesBits(x: seq<Byte>, k: nat)
    requires k < |B64Encode(x)|
    ensures |B64Encode(x)| == (4 * |x| + 2) / 3 && B64Encode(x)[k] == ALPHABET[SixBits(x, k)]
  {
    EncodeDropsPadding(x);
    PaddedBits(x, k);
    assert (B64Encode(x) + Padding(|B64Encode(x)|))[k] == B64Encode(x)[k];
  }

  /** Decoding inverts encoding; only the empty string is refused. */
  lemma RoundTrip(x: seq<Byte>)
    ensures B64Decode(B64Encode(x)) == if x == [] then None else Some(x)
  {
    EncodeDropsPadding(x);
    PaddedRoundTrip(x);
  }

  // ---------------------------------------------------------------- what decodes, and what is canonical

  /** The bits that no byte uses are zero (section 3.5 of RFC 4648). */
  predicate UnusedBitsAreZero(s: string)
    requires InAlphabet(s)
  {
    && (|s| % 4 == 2 ==> ValueOf(s[|s| - 1]).value % 16 == 0)
    && (|s| % 4 == 3 ==> ValueOf(s[|s| - 1]).value % 4 == 0)
  }

  ghost predicate Inverted(s: string)
    requires InAlphabet(s)
  {
    var t := s + Padding(|s|);
    && (DecodePadded(t).Some? <==> |s| % 4 != 1)
    && (|s| % 4 != 1 ==> (EncodePadded(DecodePadded(t).value) == t <==> UnusedBitsAreZero(s)))
  }

  lemma {:induction false} PaddedInverse(s: string)
    requires InAlphabet(s)
    ensures Inverted(s)
  {
    if |s| > 4 {
      PaddedInverse(s[4..]);
      LongInverse(s);
    } else if |s| == 1 {
      PadIsNoSymbol();
      var t := s + Padding(1);
      assert t == [s[0], PAD, PAD, PAD] && t[..4] == t;
      assert Unpadded(t)[1] == PAD;
    } else if s != "" {
      var t := s + Padding(|s|);
      assert t[..4] == t && |t| == 4;
      GroupInverse(s);
      assert EncodePadded(DecodeGroup(t).value) == EncodeGroup(DecodeGroup(t).value);
    }
  }

  lemma GroupInverse(s: string)
    requires InAlphabet(s) && 2 <= |s| <= 4
    ensures |s + Padding(|s|)| == 4
    ensures DecodeGroup(s + Padding(|s|)).Some? && |DecodeGroup(s + Padding(|s|)).value| == |s| - 1
    ensures EncodeGroup(DecodeGroup(s + Padding(|s|)).value) == s + Padding(|s|) <==> UnusedBitsAreZero(s)
  {
    UnpadGroup(s);
    SplitJoin(Read(s));
    SpellRead(s);
    var again := Split(Join(Read(s)));
    ReadSpell(again);
    assert Spell(again) == s <==> again == Read(s);
    assert EncodeGroup(Join(Read(s))) == Spell(again) + Padding(|s|);
    assert Spell(again) + Padding(|s|) == s + Padding(|s|) <==> Spell(again) == s by {
      assert (Spell(again) + Padding(|s|))[..|s|] == Spell(again);
      assert (s + Padding(|s|))[..|s|] == s;
    }
  }

  lemma LongInverse(s: string)
    requires InAlphabet(s) && |s| > 4 && Inverted(s[4..])
    ensures Inverted(s)
  {
    var t, head, tail := s + Padding(|s|), s[..4], s[4..];
    Tail(s);
    GroupInverse(head);
    assert head + Padding(|head|) == head;
    var first, rest := DecodeGroup(head).value, DecodePadded(t[4..]);
    if rest.Some? {
      DecodedIsNonEmpty(t[4..]);
      Longer(t, first, rest.value);
    } else {
      assert DecodePadded(t).None?;
    }
  }

  lemma Tail(s: string)
    requires InAlphabet(s) && |s| > 4
    ensures
      var t := s + Padding(|s|);
      && t[..4] == s[..4] && t[4..] == s[4..] + Padding(|s[4..]|)
      && InAlphabet(s[4..]) && InAlphabet(s[..4]) && UnusedBitsAreZero(s[..4])
      && |s| % 4 == |s[4..]| % 4
      && (UnusedBitsAreZero(s) <==> UnusedBitsAreZero(s[4..]))
  {
    assert Padding(|s|) == Padding(|s[4..]|);
    assert s[4..][|s| - 5] == s[|s| - 1];
  }

  lemma Longer(t: string, first: seq<Byte>, rest: seq<Byte>)
    requires |t| > 4 && |first| == 3 && rest != [] && EncodeGroup(first) == t[..4]
    requires DecodeGroup(t[..4]) == Some(first) && DecodePadded(t[4..]) == Some(rest)
    ensures DecodePadded(t) == Some(first + rest)
    ensures EncodePadded(first + rest) == t <==> EncodePadded(rest) == t[4..]
  {
    var all := first + rest;
    assert all[..3] == first && all[3..] == rest;
    assert EncodePadded(all) == t[..4] + EncodePadded(rest);
    assert (t[..4] + EncodePadded(rest))[4..] == EncodePadded(rest);
    assert t == t[..4] + t[4..];
  }

  lemma DecodedIsNonEmpty(t: string)
    requires t != "" && DecodePadded(t).Some?
    ensures DecodePadded(t).value != []
  {}

  /** A text decodes exactly when it is a non-empty string of the alphabet whose length is
      not one more than a multiple of four. */
  lemma DecodesIff(s: string)
    ensures B64Decode(s).Some? <==> s != "" && InAlphabet(s) && |s| % 4 != 1
  {
    if s != "" && InAlphabet(s) {
      PaddedInverse(s);
    }
  }

  /** Among the texts that decode, exactly those with zero unused bits are what encoding their
      bytes gives back. */
  lemma CanonicalIff(s: string)
    requires B64Decode(s).Some?
    ensures B64Encode(B64Decode(s).value) == s <==> UnusedBitsAreZero(s)
  {
    PaddedInverse(s);
    var x := B64Decode(s).value;
    EncodeDropsPadding(x);
    assert ValueOf(PAD).None?;
    RStripDropsPadding(s, |Padding(|s|)|);
    assert Padding(|s|) == seq(|Padding(|s|)|, _ => PAD);
  }

  /** Decoding alone does not fix the text: these two decode to the same byte. */
  lemma TwoTextsOneByte()
    ensures B64Decode("QQ") == B64Decode("QR") == Some([65])
    ensures B64Encode([65]) == "QQ"
  {
    assert "QQ" + Padding(2) == ['Q', 'Q', PAD, PAD];
    assert "QR" + Padding(2) == ['Q', 'R', PAD, PAD];
    assert DecodePadded(['Q', 'Q', PAD, PAD]) == DecodeGroup(['Q', 'Q', PAD, PAD]) by {
      assert ['Q', 'Q', PAD, PAD][..4] == ['Q', 'Q', PAD, PAD];
    }
    assert DecodePadded(['Q', 'R', PAD, PAD]) == DecodeGroup(['Q', 'R', PAD, PAD]) by {
      assert ['Q', 'R', PAD, PAD][..4] == ['Q', 'R', PAD, PAD];
    }
    CanonicalIff("QQ");
  }
}
