/** Appending many children at once: the list that is built, and what appending it one by one does. */
module Reorders {
  import opened Sequences
  import opened Chains
  import opened Forests

  // ---------- the list to append ----------

  /** How many of `s` are in `news`. */
  ghost function Slots<T>(s: seq<T>, news: set<T>): nat {
    if s == [] then 0 else (if s[0] in news then 1 else 0) + Slots(s[1..], news)
  }

  /** The old children with every slot of a re-appended child refilled from `rest`, in order, and
      what is left of `rest` at the end. */
  ghost function Refill<T>(old': seq<T>, rest: seq<T>, news: set<T>): (r: seq<T>)
    requires Slots(old', news) <= |rest|
    ensures forall c | c in r :: c in old' || c in rest
  {
    if old' == [] then rest
    else if old'[0] in news then [rest[0]] + Refill(old'[1..], rest[1..], news)
    else [old'[0]] + Refill(old'[1..], rest, news)
  }

  lemma {:induction false} SlotsBounded<T>(old': seq<T>, news: set<T>)
    requires NoDup(old')
    ensures Slots(old', news) <= |news|
  {
    if old' != [] {
      if old'[0] in news {
        SlotsBounded(old'[1..], news - {old'[0]});
        SlotsSame(old'[1..], news, news - {old'[0]});
      } else {
        SlotsBounded(old'[1..], news);
      }
    }
  }

  lemma {:induction false} SlotsSame<T>(s: seq<T>, a: set<T>, b: set<T>)
    requires forall x | x in s :: x in a <==> x in b
    ensures Slots(s, a) == Slots(s, b)
  {
    if s != [] { SlotsSame(s[1..], a, b); }
  }

  lemma {:induction false} ElemsBounded<T>(s: seq<T>)
    ensures |Elems(s)| <= |s|
  {
    if s != [] {
      ElemsBounded(s[1..]);
      assert Elems(s) == {s[0]} + Elems(s[1..]);
    }
  }

  /** There are never more slots than new children, duplicates among them or not. */
  lemma EnoughChildren<T>(old': seq<T>, news: seq<T>)
    requires NoDup(old')
    ensures Slots(old', Elems(news)) <= |news|
  {
    SlotsBounded(old', Elems(news));
    ElemsBounded(news);
  }

  /** The list that `appendChildren` builds from the old and the new children. */
  ghost function Arrange<T>(old': seq<T>, news: seq<T>): (r: seq<T>)
    requires NoDup(old')
    ensures forall c | c in r :: c in old' || c in news
  {
    EnoughChildren(old', news);
    Refill(old', news, Elems(news))
  }

  /** One turn of the loop that builds the list. */
  lemma RefillNext<T>(old': seq<T>, i: nat, rest: seq<T>, j: nat, news: set<T>)
    requires i < |old'| && j <= |rest| && Slots(old'[i..], news) <= |rest[j..]|
    ensures var step := if old'[i] in news then 1 else 0;
      && j + step <= |rest| && Slots(old'[i + 1..], news) <= |rest[j + step..]|
      && Refill(old'[i..], rest[j..], news) ==
         [if step == 1 then rest[j] else old'[i]] + Refill(old'[i + 1..], rest[j + step..], news)
  {
    assert old'[i..][1..] == old'[i + 1..];
    if old'[i] in news { assert rest[j..][1..] == rest[j + 1..]; }
  }

  /** If every old child is among the new ones, the new order is taken as it is. */
  lemma {:induction false} RefillAll<T>(old': seq<T>, rest: seq<T>, news: set<T>)
    requires Slots(old', news) <= |rest| && forall c | c in old' :: c in news
    ensures Refill(old', rest, news) == rest
  {
    if old' != [] { RefillAll(old'[1..], rest[1..], news); }
  }

  /** Children that are not re-appended keep their index, and slots of re-appended ones are
      filled with new children. */
  lemma {:induction false} RefillKeepsIndex<T>(old': seq<T>, rest: seq<T>, news: set<T>, i: nat)
    requires Slots(old', news) <= |rest| && i < |old'| && forall c | c in rest :: c in news
    ensures |Refill(old', rest, news)| == |old'| + |rest| - Slots(old', news)
    ensures var r := Refill(old', rest, news);
      if old'[i] in news then r[i] in news else r[i] == old'[i]
  {
    var t := if old'[0] in news then rest[1..] else rest;
    if |old'| == 1 {
    } else {
      RefillKeepsIndex(old'[1..], t, news, if i == 0 then 0 else i - 1);
    }
  }

  /** The new children come out in the order they were given, each as often as given. */
  lemma {:induction false} RefillKeepsOrder<T>(old': seq<T>, rest: seq<T>, news: set<T>, others: set<T>)
    requires Slots(old', news) <= |rest|
    requires (forall c | c in rest :: c !in others) && (forall c | c in old' :: c in others <==> c !in news)
    ensures Minus(Refill(old', rest, news), others) == rest
  {
    if old' == [] {
      MinusNothing(rest, others);
    } else {
      var t := if old'[0] in news then rest[1..] else rest;
      RefillKeepsOrder(old'[1..], t, news, others);
      if old'[0] in news { assert rest == [rest[0]] + rest[1..]; }
    }
  }

  /** Every new child comes out as often as it was given, every other child as often as before. */
  lemma {:induction false} RefillCounts<T>(old': seq<T>, rest: seq<T>, news: set<T>, c: T)
    requires Slots(old', news) <= |rest| && forall x | x in rest :: x in news
    ensures multiset(Refill(old', rest, news))[c] ==
      multiset(rest)[c] + if c in news then 0 else multiset(old')[c]
  {
    if old' != [] {
      assert old' == [old'[0]] + old'[1..];
      if old'[0] in news {
        assert rest == [rest[0]] + rest[1..];
        RefillCounts(old'[1..], rest[1..], news, c);
      } else {
        RefillCounts(old'[1..], rest, news, c);
      }
    }
  }

  lemma CountsNoDup<T>(s: seq<T>)
    requires forall i | 0 <= i < |s| :: multiset(s)[s[i]] <= 1
    ensures NoDup(s)
  {
    forall i, j | 0 <= i < j < |s| ensures s[i] != s[j] {
      assert s == s[..i] + [s[i]] + s[i + 1..j] + [s[j]] + s[j + 1..];
      assert multiset(s) ==
        multiset(s[..i]) + multiset{s[i]} + multiset(s[i + 1..j]) + multiset{s[j]} + multiset(s[j + 1..]);
    }
  }

  lemma {:induction false} NoDupCounts<T>(s: seq<T>, c: T)
    requires NoDup(s)
    ensures multiset(s)[c] == if c in s then 1 else 0
  {
    if s != [] {
      assert s == [s[0]] + s[1..];
      NoDupCounts(s[1..], c);
    }
  }

  /** Every old and every new child comes out exactly once. */
  lemma ArrangeOnce<T>(old': seq<T>, news: seq<T>)
    requires NoDup(old') && NoDup(news)
    ensures NoDup(Arrange(old', news)) && Elems(Arrange(old', news)) == Elems(old') + Elems(news)
  {
    var r := Arrange(old', news);
    EnoughChildren(old', news);
    forall c | c in old' || c in news ensures multiset(r)[c] == 1 {
      RefillCounts(old', news, Elems(news), c);
      NoDupCounts(old', c);
      NoDupCounts(news, c);
    }
    forall i | 0 <= i < |r| ensures multiset(r)[r[i]] <= 1 {
      assert r[i] in r;
    }
    CountsNoDup(r);
  }

  /** What `appendChildren` builds from two duplicate-free lists: every old and every new child
      exactly once; children that are not re-appended keep their index; the new children keep
      their order; and when they cover all the old ones, they are the result. */
  lemma ArrangeMerges<T>(old': seq<T>, news: seq<T>)
    requires NoDup(old') && NoDup(news)
    ensures var r := Arrange(old', news);
      && NoDup(r) && Elems(r) == Elems(old') + Elems(news) && |old'| <= |r|
      && (forall i | 0 <= i < |old'| :: if old'[i] in news then r[i] in news else r[i] == old'[i])
      && Minus(r, Elems(old') - Elems(news)) == news
      && (Elems(old') <= Elems(news) ==> r == news)
  {
    ArrangeOnce(old', news);
    EnoughChildren(old', news);
    if old' != [] { RefillKeepsIndex(old', news, Elems(news), 0); }
    forall i | 0 <= i < |old'|
      ensures var r := Arrange(old', news); i < |r| && if old'[i] in news then r[i] in news else r[i] == old'[i]
    {
      RefillKeepsIndex(old', news, Elems(news), i);
    }
    RefillKeepsOrder(old', news, Elems(news), Elems(old') - Elems(news));
    if Elems(old') <= Elems(news) {
      assert forall c | c in old' :: c in Elems(old');
      RefillAll(old', news, Elems(news));
    }
  }

  // ---------- appending the list ----------

  /** The forest after `cs` were appended to `p`, one after the other. */
  ghost function AppendSeq<T>(f: Forest<T>, p: T, cs: seq<T>): (g: Forest<T>)
    requires Linked(f) && p in f.kids && forall c | c in cs :: c in f.kids
    ensures Linked(g) && g.kids.Keys == f.kids.Keys
  {
    if cs == [] then f else
      var g := AppendSeq(f, p, cs[..|cs| - 1]);
      AppendChildLinked(g, p, cs[|cs| - 1]);
      AppendChild(g, p, cs[|cs| - 1])
  }

  lemma AppendSeqNext<T>(f: Forest<T>, p: T, cs: seq<T>, i: nat)
    requires Linked(f) && p in f.kids && i < |cs| && forall c | c in cs :: c in f.kids
    ensures AppendSeq(f, p, cs[..i + 1]) == AppendChild(AppendSeq(f, p, cs[..i]), p, cs[i])
  {
    assert cs[..i + 1][..i] == cs[..i];
  }

  lemma AppendChildAt<T>(f: Forest<T>, p: T, c: T, m: T)
    requires Linked(f) && p in f.kids && c in f.kids && m in f.kids
    ensures AppendChild(f, p, c).kids.Keys == AppendChild(f, p, c).parent.Keys == f.kids.Keys
    ensures AppendChild(f, p, c).kids[m] == Without(f.kids[m], c) + if m == p then [c] else []
    ensures AppendChild(f, p, c).parent[m] == if m == c then Some(p) else f.parent[m]
  {
    if f.parent[c] != Some(m) { assert c !in f.kids[m]; }
  }

  lemma {:induction false} WithoutLeft<T>(a: seq<T>, b: seq<T>, x: T)
    requires x !in b
    ensures Without(a + b, x) == Without(a, x) + b
  {
    if a == [] {
      assert a + b == b;
    } else {
      assert (a + b)[1..] == a[1..] + b;
      WithoutLeft(a[1..], b, x);
    }
  }

  lemma GatherOneMore<T>(kids: seq<T>, front: seq<T>, c: T, cs: seq<T>, here: bool)
    requires NoDup(kids) && c !in front && cs == front + [c]
    ensures Without(Minus(kids, Elems(front)) + (if here then front else []), c) + (if here then [c] else [])
      == Minus(kids, Elems(cs)) + (if here then cs else [])
  {
    assert Elems(cs) == Elems(front) + {c};
    MinusOneMore(kids, Elems(front), c);
    WithoutLeft(Minus(kids, Elems(front)), if here then front else [], c);
  }

  /** Appending one by one gathers the nodes, provided none is given twice: they leave wherever
      they were and end up at the end of `p`, in the given order; all others keep their place. */
  lemma {:induction false} AppendSeqGathers<T>(f: Forest<T>, p: T, cs: seq<T>, m: T)
    requires Linked(f) && p in f.kids && m in f.kids && NoDup(cs) && forall c | c in cs :: c in f.kids
    ensures m in AppendSeq(f, p, cs).parent
    ensures AppendSeq(f, p, cs).parent[m] == if m in cs then Some(p) else f.parent[m]
    ensures AppendSeq(f, p, cs).kids[m] == Minus(f.kids[m], Elems(cs)) + if m == p then cs else []
  {
    if cs == [] {
      MinusNothing(f.kids[m], Elems(cs));
      assert f.kids[m] + [] == f.kids[m];
    } else {
      var front, c := cs[..|cs| - 1], cs[|cs| - 1];
      assert cs == front + [c] && c !in front;
      AppendSeqGathers(f, p, front, m);
      var g := AppendSeq(f, p, front);
      AppendChildAt(g, p, c, m);
      GatherOneMore(f.kids[m], front, c, cs, m == p);
    }
  }

  /** Bulk append of duplicate-free children: `p` ends with exactly the arranged list. */
  lemma AppendArranged<T>(f: Forest<T>, p: T, news: seq<T>)
    requires Linked(f) && p in f.kids && NoDup(news) && forall c | c in news :: c in f.kids
    ensures AppendSeq(f, p, Arrange(f.kids[p], news)).kids[p] == Arrange(f.kids[p], news)
  {
    var cs := Arrange(f.kids[p], news);
    ArrangeOnce(f.kids[p], news);
    assert forall x | x in f.kids[p] :: x in Elems(f.kids[p]);
    AppendSeqGathers(f, p, cs, p);
    MinusEverything(f.kids[p], Elems(cs));
  }

  lemma {:induction false} MinusEverything<T>(s: seq<T>, gone: set<T>)
    requires forall x | x in s :: x in gone
    ensures Minus(s, gone) == []
  {
    if s != [] { MinusEverything(s[1..], gone); }
  }

  /** No append into `p` changes the parents of `p`, so checking all children for nesting before
      the first of them moves is enough. */
  lemma {:induction false} AppendSeqWellFormed<T>(f: Forest<T>, p: T, cs: seq<T>, d: T)
    requires WellFormed(f) && p in f.kids && d in f.kids
    requires forall c | c in cs :: c in f.kids && !Under(f.parent, p, c)
    requires !Under(f.parent, p, d)
    ensures WellFormed(AppendSeq(f, p, cs)) && !Under(AppendSeq(f, p, cs).parent, p, d)
  {
    if cs != [] {
      var front, c := cs[..|cs| - 1], cs[|cs| - 1];
      assert c in cs;
      AppendSeqWellFormed(f, p, front, c);
      AppendSeqWellFormed(f, p, front, d);
      var g := AppendSeq(f, p, front);
      AppendChildLinked(g, p, c);
      AppendChildWellFormed(g, p, c);
      AppendUnder(g, p, c, p, d);
    }
  }

  lemma ArrangedWellFormed<T>(f: Forest<T>, p: T, news: seq<T>)
    requires WellFormed(f) && p in f.kids
    requires forall c | c in news :: c in f.kids && !Under(f.parent, p, c)
    ensures forall c | c in Arrange(f.kids[p], news) :: c in f.kids
    ensures WellFormed(AppendSeq(f, p, Arrange(f.kids[p], news)))
  {
    var cs := Arrange(f.kids[p], news);
    forall c | c in cs ensures c in f.kids && !Under(f.parent, p, c) {
      if c in f.kids[p] { ParentNotUnder(f.parent, c); }
    }
    if cs != [] {
      assert cs[0] in cs;
      AppendSeqWellFormed(f, p, cs, cs[0]);
    }
  }

  /** A child array after a bulk append holds nothing but what it held and what was appended. */
  lemma {:induction false} AppendSeqKids<T>(f: Forest<T>, p: T, cs: seq<T>, m: T, c: T)
    requires Linked(f) && p in f.kids && m in f.kids && forall d | d in cs :: d in f.kids
    requires c in AppendSeq(f, p, cs).kids[m]
    ensures c in f.kids[m] || (m == p && c in cs)
  {
    if cs != [] {
      var front, d := cs[..|cs| - 1], cs[|cs| - 1];
      var g := AppendSeq(f, p, front);
      AppendChildAt(g, p, d, m);
      if c in g.kids[m] {
        AppendSeqKids(f, p, front, m, c);
      } else {
        WithoutIn(g.kids[m], d, c);
      }
    }
  }
}
