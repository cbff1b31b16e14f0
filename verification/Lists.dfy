/** Mapping, filtering and removing, and what they do to a list up to order. */
module Lists {
  function Map<A, B>(f: A -> B, s: seq<A>): (r: seq<B>)
    ensures |r| == |s| && forall i | 0 <= i < |s| :: r[i] == f(s[i])
  {
    if s == [] then [] else [f(s[0])] + Map(f, s[1..])
  }

  function Without<A>(s: seq<A>, i: nat): (r: seq<A>)
    requires i < |s|
    ensures multiset(r) == multiset(s) - multiset{s[i]}
    ensures |r| == |s| - 1
  {
    assert s == s[..i] + [s[i]] + s[i + 1..];
    s[..i] + s[i + 1..]
  }

  lemma MapHead<A, B>(f: A -> B, s: seq<A>)
    requires s != []
    ensures multiset(Map(f, s)) == multiset{f(s[0])} + multiset(Map(f, s[1..]))
  {
    assert Map(f, s) == [f(s[0])] + Map(f, s[1..]);
  }

  lemma {:induction false} MapWithout<A, B>(f: A -> B, s: seq<A>, i: nat)
    requires i < |s|
    ensures multiset(Map(f, s)) == multiset(Map(f, Without(s, i))) + multiset{f(s[i])}
  {
    MapHead(f, s);
    if i == 0 {
      assert Without(s, 0) == s[1..];
    } else {
      var rest, shorter := s[1..], Without(s, i);
      assert rest[i - 1] == s[i];
      MapWithout(f, rest, i - 1);
      WithoutTail(s, i);
      MapHead(f, shorter);
    }
  }

  lemma {:induction false} MapForgetsOrder<A, B>(f: A -> B, s: seq<A>, t: seq<A>)
    requires multiset(s) == multiset(t)
    ensures multiset(Map(f, s)) == multiset(Map(f, t))
  {
    if s == [] {
      assert |t| == |multiset(t)| == 0;
    } else {
      var i := Find(s, t);
      MapForgetsOrder(f, s[1..], Without(t, i));
      MapWithout(f, t, i);
      MapHead(f, s);
    }
  }

  /** Where the head of one arrangement stands in another, and what is left without it. */
  lemma Find<A>(s: seq<A>, t: seq<A>) returns (i: nat)
    requires s != [] && multiset(s) == multiset(t)
    ensures i < |t| && t[i] == s[0] && multiset(s[1..]) == multiset(Without(t, i))
  {
    assert s == [s[0]] + s[1..];
    assert s[0] in multiset(t);
    i :| 0 <= i < |t| && t[i] == s[0];
  }

  function Filter<A>(p: A -> bool, s: seq<A>): seq<A> {
    if s == [] then []
    else if p(s[0]) then [s[0]] + Filter(p, s[1..])
    else Filter(p, s[1..])
  }

  lemma {:induction false} FilterFinds<A>(p: A -> bool, s: seq<A>, x: A)
    requires x in Filter(p, s)
    ensures x in s && p(x)
  {
    if !(p(s[0]) && x == s[0]) {
      FilterFinds(p, s[1..], x);
    }
  }

  lemma {:induction false} FilterAppend<A>(p: A -> bool, s: seq<A>, t: seq<A>)
    ensures Filter(p, s + t) == Filter(p, s) + Filter(p, t)
  {
    if s == [] {
      assert s + t == t;
    } else {
      assert (s + t)[0] == s[0] && (s + t)[1..] == s[1..] + t;
      FilterAppend(p, s[1..], t);
    }
  }

  lemma {:induction false} FilterKeeps<A>(p: A -> bool, s: seq<A>, x: A)
    requires x in s && p(x)
    ensures x in Filter(p, s)
  {
    if x != s[0] {
      FilterKeeps(p, s[1..], x);
    }
  }

  function IfKept<A>(p: A -> bool, x: A): multiset<A> {
    if p(x) then multiset{x} else multiset{}
  }

  lemma FilterHead<A>(p: A -> bool, s: seq<A>)
    requires s != []
    ensures multiset(Filter(p, s)) == IfKept(p, s[0]) + multiset(Filter(p, s[1..]))
  {
    if p(s[0]) {
      assert Filter(p, s) == [s[0]] + Filter(p, s[1..]);
    }
  }

  lemma FilterWithout<A>(p: A -> bool, s: seq<A>, i: nat)
    requires i < |s|
    ensures multiset(Filter(p, s)) == multiset(Filter(p, Without(s, i))) + IfKept(p, s[i])
  {
    var before, kept, after := FilterParts(p, s, i);
    MiddlePart(before, kept, after);
  }

  lemma FilterParts<A>(p: A -> bool, s: seq<A>, i: nat) returns (before: seq<A>, kept: seq<A>, after: seq<A>)
    requires i < |s|
    ensures Filter(p, s) == (before + kept) + after && Filter(p, Without(s, i)) == before + after
    ensures kept == if p(s[i]) then [s[i]] else []
  {
    before, kept, after := Filter(p, s[..i]), Filter(p, [s[i]]), Filter(p, s[i + 1..]);
    AroundElement(s, i);
    FilterAppend(p, s[..i] + [s[i]], s[i + 1..]);
    FilterAppend(p, s[..i], [s[i]]);
    FilterAppend(p, s[..i], s[i + 1..]);
    FilterOne(p, s[i]);
  }

  lemma AroundElement<A>(s: seq<A>, i: nat)
    requires i < |s|
    ensures s == (s[..i] + [s[i]]) + s[i + 1..] && Without(s, i) == s[..i] + s[i + 1..]
  {}

  lemma FilterOne<A>(p: A -> bool, x: A)
    ensures Filter(p, [x]) == if p(x) then [x] else []
  {
    assert [x][1..] == [];
  }

  lemma MiddlePart<A>(before: seq<A>, middle: seq<A>, after: seq<A>)
    ensures multiset((before + middle) + after) == multiset(before + after) + multiset(middle)
  {}

  lemma WithoutTail<A>(s: seq<A>, i: nat)
    requires 0 < i < |s|
    ensures Without(s, i) != [] && Without(s, i)[0] == s[0] && Without(s, i)[1..] == Without(s[1..], i - 1)
  {}

  lemma {:induction false} FilterForgetsOrder<A>(p: A -> bool, s: seq<A>, t: seq<A>)
    requires multiset(s) == multiset(t)
    ensures multiset(Filter(p, s)) == multiset(Filter(p, t))
  {
    if s == [] {
      assert |t| == |multiset(t)| == 0;
    } else {
      var i := Find(s, t);
      FilterForgetsOrder(p, s[1..], Without(t, i));
      FilterWithout(p, t, i);
      FilterHead(p, s);
    }
  }

  lemma {:induction false} FilterTwice<A>(p: A -> bool, q: A -> bool, s: seq<A>)
    requires forall x | x in s && p(x) :: q(x)
    ensures Filter(p, Filter(q, s)) == Filter(p, s)
  {
    if s != [] {
      assert s[0] in s && forall x | x in s[1..] :: x in s;
      FilterTwice(p, q, s[1..]);
      if q(s[0]) {
        assert Filter(q, s)[1..] == Filter(q, s[1..]);
      }
    }
  }

  lemma {:induction false} MapAppend<A, B>(f: A -> B, s: seq<A>, t: seq<A>)
    ensures Map(f, s + t) == Map(f, s) + Map(f, t)
  {
    if s == [] {
      assert s + t == t;
    } else {
      assert (s + t)[0] == s[0] && (s + t)[1..] == s[1..] + t;
      MapAppend(f, s[1..], t);
    }
  }

  lemma MapNext<A, B>(f: A -> B, s: seq<A>, i: nat)
    requires i < |s|
    ensures Map(f, s[..i + 1]) == Map(f, s[..i]) + [f(s[i])]
  {
    assert s[..i + 1] == s[..i] + [s[i]];
    MapAppend(f, s[..i], [s[i]]);
  }
}
