/** Options and the few facts about arrays that every other module uses. */
module Sequences {

  datatype Option<+T> = None | Some(value: T)

  ghost predicate NoDup<T>(s: seq<T>) {
    forall i, j :: 0 <= i < j < |s| ==> s[i] != s[j]
  }

  /** The array without the first occurrence of `x`, as `ArrayUtils.removeElement` returns it. */
  function Without<T(==)>(s: seq<T>, x: T): (r: seq<T>)
    ensures x !in s ==> r == s
  {
    if s == [] then []
    else if s[0] == x then s[1..]
    else [s[0]] + Without(s[1..], x)
  }

  /** On a duplicate-free array the removal cuts out exactly one index. */
  lemma {:induction false} WithoutAt<T>(s: seq<T>, x: T, k: nat)
    requires NoDup(s) && k < |s| && s[k] == x
    ensures Without(s, x) == s[..k] + s[k + 1..]
  {
    if k > 0 {
      assert s[0] != s[k];
      assert s[1..][k - 1] == x;
      WithoutAt(s[1..], x, k - 1);
      assert s[1..][..k - 1] + s[1..][k..] == s[1..k] + s[k + 1..];
      assert s[..k] == [s[0]] + s[1..k];
    }
  }

  lemma WithoutNoDup<T>(s: seq<T>, x: T)
    requires NoDup(s)
    ensures NoDup(Without(s, x)) && x !in Without(s, x)
  {
    if x in s {
      var k :| 0 <= k < |s| && s[k] == x;
      WithoutAt(s, x, k);
    }
  }

  lemma NoDupAppended<T>(s: seq<T>, x: T)
    requires NoDup(s) && x !in s
    ensures NoDup(s + [x])
  {}

  lemma Regroup<T>(a: seq<T>, b: seq<T>, c: seq<T>)
    ensures a + (b + c) == (a + b) + c
  {}

  ghost function Elems<T>(s: seq<T>): set<T> {
    set x | x in s
  }

  /** A conjunction that the proofs carry around as one fact. */
  ghost predicate Together(all: bool) {
    all == true
  }

  /** The first element by itself. */
  lemma FirstApart<T>(s: seq<T>, t: seq<T>)
    requires s != []
    ensures s + t == [s[0]] + (s[1..] + t)
  {}

  function Reversed<T>(s: seq<T>): seq<T> {
    if s == [] then [] else Reversed(s[1..]) + [s[0]]
  }

  lemma {:induction false} ReversedIn<T>(s: seq<T>, x: T)
    ensures x in Reversed(s) <==> x in s
  {
    if s != [] { ReversedIn(s[1..], x); }
  }

  lemma NotBefore<T>(s: seq<T>, i: nat, x: T)
    requires NoDup(s) && i <= |s| && x in s[i..]
    ensures x in s && forall j :: 0 <= j < i ==> s[j] != x
  {}

  lemma {:induction false} WithoutIn<T>(s: seq<T>, x: T, y: T)
    ensures y in Without(s, x) ==> y in s
    ensures y in s && y != x ==> y in Without(s, x)
  {
    if s != [] {
      WithoutIn(s[1..], x, y);
    }
  }

  /** The elements of `s` that are not in `gone`, in order. */
  function Minus<T(==)>(s: seq<T>, gone: set<T>): (r: seq<T>)
    ensures forall y {:trigger y in r} | y in r :: y in s && y !in gone
    ensures forall y {:trigger y in r} | y in s && y !in gone :: y in r
  {
    if s == [] then []
    else (if s[0] in gone then [] else [s[0]]) + Minus(s[1..], gone)
  }

  lemma MinusFirst<T>(x: T, s: seq<T>, gone: set<T>)
    ensures Minus([x] + s, gone) == if x in gone then Minus(s, gone) else [x] + Minus(s, gone)
  {
    assert ([x] + s)[1..] == s;
  }

  lemma {:induction false} MinusNoDup<T>(s: seq<T>, gone: set<T>)
    requires NoDup(s)
    ensures NoDup(Minus(s, gone))
  {
    if s != [] {
      MinusNoDup(s[1..], gone);
      assert s[0] !in Minus(s[1..], gone);
    }
  }

  /** Removing one element at a time or a whole set at once is the same on a duplicate-free array. */
  lemma {:induction false} MinusOneMore<T>(s: seq<T>, gone: set<T>, x: T)
    requires NoDup(s)
    ensures Without(Minus(s, gone), x) == Minus(s, gone + {x})
  {
    if s != [] {
      if s[0] == x && x !in gone {
        MinusSame(s[1..], gone, gone + {x});
        assert ([x] + Minus(s[1..], gone))[1..] == Minus(s[1..], gone);
      } else {
        MinusOneMore(s[1..], gone, x);
        var t := Minus(s[1..], gone);
        if s[0] !in gone {
          assert ([s[0]] + t)[1..] == t;
        } else {
          assert [] + t == t;
        }
      }
    }
  }

  lemma {:induction false} MinusSame<T>(s: seq<T>, a: set<T>, b: set<T>)
    requires forall y | y in s :: y in a <==> y in b
    ensures Minus(s, a) == Minus(s, b)
  {
    if s != [] {
      MinusSame(s[1..], a, b);
    }
  }

  lemma {:induction false} MinusNothing<T>(s: seq<T>, gone: set<T>)
    requires forall y | y in s :: y !in gone
    ensures Minus(s, gone) == s
  {
    if s != [] {
      MinusNothing(s[1..], gone);
    }
  }

  lemma {:induction false} MinusTwice<T>(s: seq<T>, a: set<T>, b: set<T>)
    ensures Minus(Minus(s, a), b) == Minus(s, a + b)
  {
    if s != [] {
      var x, rest := s[0], s[1..];
      assert s == [x] + rest;
      MinusTwice(rest, a, b);
      MinusFirst(x, rest, a);
      MinusFirst(x, Minus(rest, a), b);
      MinusFirst(x, rest, a + b);
    }
  }

  lemma MinusHead<T>(s: seq<T>)
    requires NoDup(s) && s != []
    ensures Minus(s, {s[0]}) == s[1..]
  {
    assert s == [s[0]] + s[1..];
    MinusFirst(s[0], s[1..], {s[0]});
    MinusNothing(s[1..], {s[0]});
  }
}
