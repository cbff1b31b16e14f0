/** Total orders, the sorted arrangement of a list, and the order of strings and of lists of strings. */
module Ordering {
  ghost predicate TotalPreorder<T(!new)>(le: (T, T) -> bool) {
    && (forall x, y :: le(x, y) || le(y, x))
    && (forall x, y, z :: le(x, y) && le(y, z) ==> le(x, z))
  }

  /** The order tells the elements of a list apart. */
  ghost predicate NoTies<T(!new)>(le: (T, T) -> bool, s: seq<T>) {
    forall x, y | x in s && y in s && le(x, y) && le(y, x) :: x == y
  }

  ghost predicate TotalOrder<T(!new)>(le: (T, T) -> bool) {
    TotalPreorder(le) && forall x, y :: le(x, y) && le(y, x) ==> x == y
  }

  ghost predicate Sorted<T>(s: seq<T>, le: (T, T) -> bool) {
    forall i, j | 0 <= i < j < |s| :: le(s[i], s[j])
  }

  function Insert<T>(x: T, s: seq<T>, le: (T, T) -> bool): (r: seq<T>)
    ensures multiset(r) == multiset(s) + multiset{x}
    ensures |r| == |s| + 1
  {
    if s == [] then [x]
    else if le(x, s[0]) then [x] + s
    else
      assert s == [s[0]] + s[1..];
      [s[0]] + Insert(x, s[1..], le)
  }

  function Sort<T>(s: seq<T>, le: (T, T) -> bool): (r: seq<T>)
    ensures multiset(r) == multiset(s)
    ensures |r| == |s|
  {
    if s == [] then []
    else
      assert s == [s[0]] + s[1..];
      Insert(s[0], Sort(s[1..], le), le)
  }

  lemma {:induction false} InsertSorts<T(!new)>(x: T, s: seq<T>, le: (T, T) -> bool)
    requires TotalPreorder(le) && Sorted(s, le)
    ensures Sorted(Insert(x, s, le), le)
  {
    if s != [] && !le(x, s[0]) {
      var rest := Insert(x, s[1..], le);
      InsertSorts(x, s[1..], le);
      forall i | 0 <= i < |rest| ensures le(s[0], rest[i]) {
        assert rest[i] in multiset(rest);
        if rest[i] != x {
          assert rest[i] in multiset(s[1..]);
          var j :| 0 <= j < |s| - 1 && s[1..][j] == rest[i];
        }
      }
    }
  }

  lemma {:induction false} SortSorts<T(!new)>(s: seq<T>, le: (T, T) -> bool)
    requires TotalPreorder(le)
    ensures Sorted(Sort(s, le), le)
  {
    if s != [] {
      SortSorts(s[1..], le);
      InsertSorts(s[0], Sort(s[1..], le), le);
    }
  }

  /** An order without ties leaves only one sorted arrangement of the same elements. */
  lemma {:induction false} SortedIsUnique<T(!new)>(s: seq<T>, t: seq<T>, le: (T, T) -> bool)
    requires TotalPreorder(le) && NoTies(le, s)
    requires Sorted(s, le) && Sorted(t, le) && multiset(s) == multiset(t)
    ensures s == t
  {
    assert |s| == |multiset(s)| == |multiset(t)| == |t|;
    if s != [] {
      SameLeast(s, t, le);
      TailLacksHead(s);
      TailLacksHead(t);
      assert forall x | x in s[1..] :: x in s;
      SortedIsUnique(s[1..], t[1..], le);
    }
  }

  lemma TailLacksHead<T>(s: seq<T>)
    requires s != []
    ensures multiset(s[1..]) == multiset(s) - multiset{s[0]}
  {
    assert s == [s[0]] + s[1..];
  }

  lemma SameLeast<T(!new)>(s: seq<T>, t: seq<T>, le: (T, T) -> bool)
    requires TotalPreorder(le) && NoTies(le, s)
    requires Sorted(s, le) && Sorted(t, le) && multiset(s) == multiset(t) && s != [] && t != []
    ensures s[0] == t[0]
  {
    assert s[0] in multiset(t) && t[0] in multiset(s);
    var i :| 0 <= i < |t| && t[i] == s[0];
    var j :| 0 <= j < |s| && s[j] == t[0];
    assert le(t[0], t[0]) && le(s[0], s[0]);
    assert le(s[0], s[j]) && le(t[0], t[i]);
  }

  /** Sorting forgets the original arrangement and nothing else. */
  lemma {:induction false} SortIsNormalForm<T(!new)>(s: seq<T>, t: seq<T>, le: (T, T) -> bool)
    requires TotalPreorder(le) && NoTies(le, s)
    ensures Sort(s, le) == Sort(t, le) <==> multiset(s) == multiset(t)
  {
    SortSorts(s, le);
    SortSorts(t, le);
    if multiset(s) == multiset(t) {
      forall x | x in Sort(s, le) ensures x in s {
        assert x in multiset(Sort(s, le));
      }
      SortedIsUnique(Sort(s, le), Sort(t, le), le);
    }
  }

  /** Inserting keeps equals in the order they had, so the order of insertion shows. */
  lemma {:induction false} TiesKeepTheirOrder<T(!new)>(x: T, y: T, s: seq<T>, le: (T, T) -> bool)
    requires TotalPreorder(le) && le(x, y) && le(y, x) && x != y
    ensures Insert(x, Insert(y, s, le), le) != Insert(y, Insert(x, s, le), le)
  {
    if s == [] || le(y, s[0]) {
      assert s != [] ==> le(x, s[0]);
      assert Insert(x, Insert(y, s, le), le)[0] == x && Insert(y, Insert(x, s, le), le)[0] == y;
    } else {
      assert !le(x, s[0]);
      TiesKeepTheirOrder(x, y, s[1..], le);
      InsertLater(x, y, s, le);
      InsertLater(y, x, s, le);
      assert Insert(x, Insert(y, s, le), le)[1..] == Insert(x, Insert(y, s[1..], le), le);
      assert Insert(y, Insert(x, s, le), le)[1..] == Insert(y, Insert(x, s[1..], le), le);
    }
  }

  lemma InsertLater<T(!new)>(x: T, y: T, s: seq<T>, le: (T, T) -> bool)
    requires s != [] && !le(x, s[0]) && !le(y, s[0])
    ensures Insert(x, Insert(y, s, le), le) == [s[0]] + Insert(x, Insert(y, s[1..], le), le)
  {
    var inner := Insert(y, s, le);
    assert inner[0] == s[0] && inner[1..] == Insert(y, s[1..], le);
  }

  /** All arrangements of the same elements sort alike exactly when no two different ones tie. */
  lemma {:induction false} ArrangementsSortAlikeIff<T(!new)>(s: seq<T>, le: (T, T) -> bool)
    requires TotalPreorder(le)
    ensures NoTies(le, s) <==> forall t | multiset(t) == multiset(s) :: Sort(t, le) == Sort(s, le)
  {
    if NoTies(le, s) {
      forall t | multiset(t) == multiset(s) ensures Sort(t, le) == Sort(s, le) {
        SortIsNormalForm(s, t, le);
      }
    } else {
      var x, y :| x in s && y in s && le(x, y) && le(y, x) && x != y;
      var t, u := TieShows(s, x, y, le);
    }
  }

  lemma TieShows<T(!new)>(s: seq<T>, x: T, y: T, le: (T, T) -> bool) returns (t: seq<T>, u: seq<T>)
    requires TotalPreorder(le) && x in s && y in s && le(x, y) && le(y, x) && x != y
    ensures multiset(t) == multiset(s) && multiset(u) == multiset(s) && Sort(t, le) != Sort(u, le)
  {
    var once := WithoutOne(s, x);
    assert y in once by {
      assert y in multiset(s) && y in multiset(once);
    }
    var rest := WithoutOne(once, y);
    SortOfTwoMore(x, y, rest, le);
    SortOfTwoMore(y, x, rest, le);
    TiesKeepTheirOrder(x, y, Sort(rest, le), le);
    t, u := [x, y] + rest, [y, x] + rest;
  }

  lemma SortOfTwoMore<T>(x: T, y: T, rest: seq<T>, le: (T, T) -> bool)
    ensures Sort([x, y] + rest, le) == Insert(x, Insert(y, Sort(rest, le), le), le)
  {
    assert ([x, y] + rest)[1..] == [y] + rest && ([y] + rest)[1..] == rest;
  }

  lemma WithoutOne<T>(s: seq<T>, x: T) returns (rest: seq<T>)
    requires x in s
    ensures multiset(s) == multiset(rest) + multiset{x}
  {
    var i :| 0 <= i < |s| && s[i] == x;
    rest := s[..i] + s[i + 1..];
    assert s == s[..i] + [x] + s[i + 1..];
  }

  // ---------------------------------------------------------------- lists and strings

  /** Lexicographic order of lists, a prefix before its extensions. */
  predicate ListLe<T(==)>(a: seq<T>, b: seq<T>, le: (T, T) -> bool) {
    if a == [] then true
    else if b == [] then false
    else if a[0] != b[0] then le(a[0], b[0])
    else ListLe(a[1..], b[1..], le)
  }

  lemma {:induction false} ListLeTotal<T(!new)>(a: seq<T>, b: seq<T>, le: (T, T) -> bool)
    requires TotalOrder(le)
    ensures ListLe(a, b, le) || ListLe(b, a, le)
    ensures ListLe(a, b, le) && ListLe(b, a, le) ==> a == b
  {
    if a != [] && b != [] {
      assert a == [a[0]] + a[1..] && b == [b[0]] + b[1..];
      ListLeTotal(a[1..], b[1..], le);
    }
  }

  lemma {:induction false} ListLeTransitive<T(!new)>(a: seq<T>, b: seq<T>, c: seq<T>, le: (T, T) -> bool)
    requires TotalOrder(le) && ListLe(a, b, le) && ListLe(b, c, le)
    ensures ListLe(a, c, le)
  {
    if a != [] && b != [] && c != [] && a[0] == b[0] == c[0] {
      ListLeTransitive(a[1..], b[1..], c[1..], le);
    }
  }

  /** One list is a proper prefix of the other, or smaller where they first differ. */
  ghost predicate LexBefore<T(!new)>(a: seq<T>, b: seq<T>, lt: (T, T) -> bool) {
    exists n: nat :: DiffersAt(a, b, n, lt)
  }

  ghost predicate DiffersAt<T(!new)>(a: seq<T>, b: seq<T>, n: nat, lt: (T, T) -> bool) {
    && n <= |a| && n < |b| && a[..n] == b[..n]
    && (n < |a| ==> a[n] != b[n] && lt(a[n], b[n]))
  }

  lemma DiffersAtOnce<T(!new)>(a: seq<T>, b: seq<T>, n: nat, lt: (T, T) -> bool)
    requires DiffersAt(a, b, n, lt) && a != []
    ensures n == 0 <==> a[0] != b[0]
  {
    if n > 0 {
      assert a[..n][0] == b[..n][0];
    }
  }

  lemma {:induction false} ListLeIff<T(!new)>(a: seq<T>, b: seq<T>, le: (T, T) -> bool, lt: (T, T) -> bool)
    requires forall x, y | x != y :: le(x, y) <==> lt(x, y)
    ensures ListLe(a, b, le) <==> a == b || LexBefore(a, b, lt)
  {
    if a == [] {
      assert b != [] ==> DiffersAt(a, b, 0, lt);
    } else if b != [] && a[0] != b[0] {
      if lt(a[0], b[0]) {
        assert DiffersAt(a, b, 0, lt);
      }
      forall n: nat | DiffersAt(a, b, n, lt) ensures n == 0 {
        DiffersAtOnce(a, b, n, lt);
      }
    } else if b != [] {
      ListLeIff(a[1..], b[1..], le, lt);
      assert a == [a[0]] + a[1..] && b == [b[0]] + b[1..];
      forall n: nat | DiffersAt(a[1..], b[1..], n, lt) ensures DiffersAt(a, b, n + 1, lt) {
        assert a[..n + 1] == [a[0]] + a[1..][..n] && b[..n + 1] == [b[0]] + b[1..][..n];
      }
      forall n: nat | DiffersAt(a, b, n, lt) ensures n > 0 && DiffersAt(a[1..], b[1..], n - 1, lt) {
        if n > 0 {
          assert a[1..][..n - 1] == a[..n][1..] && b[1..][..n - 1] == b[..n][1..];
        }
      }
    }
  }

  predicate CharLe(x: char, y: char) {
    x <= y
  }

  lemma CharOrderIsTotal()
    ensures TotalOrder(CharLe)
  {}

  /** Code point order. */
  predicate StringLe(a: string, b: string) {
    ListLe(a, b, CharLe)
  }

  /** Strings by their characters, the smaller code point first. */
  ghost predicate StringBefore(a: string, b: string) {
    LexBefore(a, b, (x: char, y: char) => x < y)
  }

  lemma StringLessIff(a: string, b: string)
    ensures StringLe(a, b) <==> a == b || StringBefore(a, b)
    ensures StringLess(a, b) <==> StringBefore(a, b)
  {
    ListLeIff(a, b, CharLe, (x: char, y: char) => x < y);
    NotBeforeItself(a, (x: char, y: char) => x < y);
  }

  lemma NotBeforeItself<T(!new)>(a: seq<T>, lt: (T, T) -> bool)
    ensures !LexBefore(a, a, lt)
  {}

  lemma StringLeTotal(a: string, b: string)
    ensures StringLe(a, b) || StringLe(b, a)
    ensures StringLe(a, b) && StringLe(b, a) ==> a == b
  {
    CharOrderIsTotal();
    ListLeTotal(a, b, CharLe);
  }

  lemma StringLeTransitive(a: string, b: string, c: string)
    requires StringLe(a, b) && StringLe(b, c)
    ensures StringLe(a, c)
  {
    CharOrderIsTotal();
    ListLeTransitive(a, b, c, CharLe);
  }

  lemma StringOrderIsTotal()
    ensures TotalOrder(StringLe)
  {
    forall a, b ensures (StringLe(a, b) || StringLe(b, a)) && (StringLe(a, b) && StringLe(b, a) ==> a == b) {
      StringLeTotal(a, b);
    }
    forall a, b, c | StringLe(a, b) && StringLe(b, c) ensures StringLe(a, c) {
      StringLeTransitive(a, b, c);
    }
  }

  predicate StringLess(a: string, b: string) {
    a != b && StringLe(a, b)
  }

  lemma {:induction false} LeastExists(names: set<string>)
    requires names != {}
    ensures exists least :: least in names && forall n | n in names :: StringLe(least, n)
    decreases |names|
  {
    StringOrderIsTotal();
    var x :| x in names;
    if names == {x} {
      assert forall n | n in names :: StringLe(x, n);
    } else {
      LeastExists(names - {x});
      var y :| y in names - {x} && forall n | n in names - {x} :: StringLe(y, n);
      var least := if StringLe(x, y) then x else y;
      assert least in names && forall n | n in names :: StringLe(least, n) by {
        forall n | n in names ensures StringLe(least, n) {
          assert n == x || n in names - {x};
        }
      }
    }
  }

  /** Order of lists of strings. */
  predicate StringsLe(a: seq<string>, b: seq<string>) {
    ListLe(a, b, StringLe)
  }

  lemma StringsLeTotal(a: seq<string>, b: seq<string>)
    ensures StringsLe(a, b) || StringsLe(b, a)
    ensures StringsLe(a, b) && StringsLe(b, a) ==> a == b
  {
    StringOrderIsTotal();
    ListLeTotal(a, b, StringLe);
  }

  lemma StringsLeTransitive(a: seq<string>, b: seq<string>, c: seq<string>)
    requires StringsLe(a, b) && StringsLe(b, c)
    ensures StringsLe(a, c)
  {
    StringOrderIsTotal();
    ListLeTransitive(a, b, c, StringLe);
  }

  /** Lists of strings, the first differing string decides. */
  ghost predicate StringsBefore(a: seq<string>, b: seq<string>) {
    LexBefore(a, b, (x: string, y: string) => StringLe(x, y))
  }

  lemma StringsLeIff(a: seq<string>, b: seq<string>)
    ensures StringsLe(a, b) <==> a == b || StringsBefore(a, b)
  {
    ListLeIff(a, b, StringLe, (x: string, y: string) => StringLe(x, y));
  }
}
