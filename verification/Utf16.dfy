/** Python strings and their UTF-16 code units. A high surrogate directly followed by a low one
    is written like the one character the two stand for. */
module Utf16 {
  import opened CanonicalJson

  type CodeUnit = u: int | 0 <= u < 0x1_0000

  predicate High(c: int) {
    0xD800 <= c < 0xDC00
  }

  predicate Low(c: int) {
    0xDC00 <= c < 0xE000
  }

  function UnitsOf(c: CodePoint): (us: seq<CodeUnit>)
    ensures us != []
  {
    if c < 0x1_0000 then [c] else [0xD800 + (c - 0x1_0000) / 1024, 0xDC00 + (c - 0x1_0000) % 1024]
  }

  function Units(t: PyStr): seq<CodeUnit> {
    if t == [] then [] else UnitsOf(t[0]) + Units(t[1..])
  }

  function Pair(high: CodeUnit, low: CodeUnit): CodePoint
    requires High(high) && Low(low)
  {
    0x1_0000 + (high - 0xD800) * 1024 + (low - 0xDC00)
  }

  /** Reading units joins every pair, as json.loads does. */
  function Joined(us: seq<CodeUnit>): PyStr {
    if us == [] then []
    else if |us| >= 2 && High(us[0]) && Low(us[1]) then [Pair(us[0], us[1])] + Joined(us[2..])
    else [us[0]] + Joined(us[1..])
  }

  /** The text that is read where t was written. */
  function Reread(t: PyStr): PyStr {
    Joined(Units(t))
  }

  predicate PairAt(t: PyStr, i: int) {
    0 <= i < |t| - 1 && High(t[i]) && Low(t[i + 1])
  }

  ghost predicate HasPair(t: PyStr) {
    exists i :: PairAt(t, i)
  }

  lemma PairsSplit(high: CodeUnit, low: CodeUnit)
    requires High(high) && Low(low)
    ensures UnitsOf(Pair(high, low)) == [high, low]
  {}

  lemma PointsJoin(c: CodePoint)
    requires c >= 0x1_0000
    ensures |UnitsOf(c)| == 2 && High(UnitsOf(c)[0]) && Low(UnitsOf(c)[1]) && Pair(UnitsOf(c)[0], UnitsOf(c)[1]) == c
  {}

  /** Writing what was read gives the units back. */
  lemma {:induction false} UnitsOfJoined(us: seq<CodeUnit>)
    ensures Units(Joined(us)) == us
    decreases |us|
  {
    if us != [] {
      var t := Joined(us);
      if |us| >= 2 && High(us[0]) && Low(us[1]) {
        UnitsOfJoined(us[2..]);
        PairsSplit(us[0], us[1]);
        assert t[0] == Pair(us[0], us[1]) && t[1..] == Joined(us[2..]);
        assert us == [us[0], us[1]] + us[2..];
      } else {
        UnitsOfJoined(us[1..]);
        assert t[0] == us[0] && t[1..] == Joined(us[1..]);
        assert us == [us[0]] + us[1..];
      }
    }
  }

  lemma FirstOfJoined(us: seq<CodeUnit>)
    requires us != [] && !Low(us[0])
    ensures Joined(us) != [] && !Low(Joined(us)[0])
  {}

  lemma {:induction false} JoinedHasNoPair(us: seq<CodeUnit>)
    ensures !HasPair(Joined(us))
    decreases |us|
  {
    if us != [] {
      var t := Joined(us);
      var rest := if |us| >= 2 && High(us[0]) && Low(us[1]) then us[2..] else us[1..];
      JoinedHasNoPair(rest);
      assert t[1..] == Joined(rest);
      forall i ensures !PairAt(t, i) {
        if i == 0 && rest != [] && !Low(rest[0]) {
          FirstOfJoined(rest);
        }
        assert !PairAt(t[1..], i - 1);
      }
    }
  }

  lemma {:induction false} RereadPlain(t: PyStr)
    requires !HasPair(t)
    ensures Reread(t) == t
  {
    if t != [] {
      var us := Units(t);
      assert !PairAt(t, 0);
      forall i ensures !PairAt(t[1..], i) {
        assert !PairAt(t, i + 1);
      }
      RereadPlain(t[1..]);
      assert t == [t[0]] + t[1..];
      if t[0] >= 0x1_0000 {
        PointsJoin(t[0]);
        assert us[2..] == Units(t[1..]);
      } else {
        assert us[0] == t[0] && us[1..] == Units(t[1..]);
        if |us| >= 2 {
          FirstUnit(t[1..]);
        }
      }
    }
  }

  lemma FirstUnit(t: PyStr)
    requires t != []
    ensures Units(t) != [] && (Low(Units(t)[0]) ==> Low(t[0]))
  {}

  /** Exactly the texts with a pair are read as another text, one without. */
  lemma RereadIff(t: PyStr)
    ensures Reread(t) == t <==> !HasPair(t)
    ensures Units(Reread(t)) == Units(t) && !HasPair(Reread(t))
  {
    UnitsOfJoined(Units(t));
    JoinedHasNoPair(Units(t));
    if !HasPair(t) {
      RereadPlain(t);
    }
  }
}
