/** Which objects are saved and deleted together, and what garbage collection keeps. */
module Ownership {
  import opened Circles
  import opened Reflections
  import opened Repository

  /** The classes that the database treats in a special way. */
  datatype Roles = Roles(persistent: Class, value: Class)

  /** The values that one field holds, as `executeOnValues` finds them: by what they are, and in arrays
      only if the array is one of values. */
  function PartsOf(k: Roles, v: Value): set<Obj> {
    match v
    case Null => {}
    case One(o) => if IsInstance(o, k.value) then {o} else {}
    case Many(c, items) => if k.value in Supers(c) then Items(v) else {}
  }

  /** The values that all fields of an object hold. */
  function Parts(k: Roles, o: Obj): set<Obj> {
    set f, v | f in o.fields && v in PartsOf(k, o.fields[f]) :: v
  }

  /** The values of an object: those that its fields hold, and those in arrays of values, whatever else an
      array holds. */
  lemma PartsExactly(k: Roles, o: Obj, v: Obj)
    ensures v in Parts(k, o) <==> exists f ::
      && f in o.fields
      && (|| (o.fields[f] == One(v) && k.value in Supers(v.clazz))
          || (o.fields[f].Many? && k.value in Supers(o.fields[f].component) && v in o.fields[f].items))
  {
    if f :| f in o.fields && v in PartsOf(k, o.fields[f]) {}
    if f :| f in o.fields && o.fields[f] == One(v) && k.value in Supers(v.clazz) {
      assert v in PartsOf(k, o.fields[f]);
    }
    if f :| f in o.fields && o.fields[f].Many? && k.value in Supers(o.fields[f].component) && v in o.fields[f].items {
      assert v in PartsOf(k, o.fields[f]);
    }
  }

  lemma PartsAreValues(k: Roles, schema: Schema, o: Obj, v: Obj)
    requires Conforms(schema, o) && v in Parts(k, o)
    ensures IsInstance(v, k.value)
  {
    var f :| f in o.fields && v in PartsOf(k, o.fields[f]);
    if o.fields[f].Many? { SupersTransitive(v.clazz, o.fields[f].component); }
  }

  /** What garbage collection sees an object hold, a cascade finds too. */
  lemma HeldIsPart(k: Roles, schema: Schema, o: Obj, v: Obj)
    requires Conforms(schema, o) && v in Held(o, k.value)
    ensures v in Parts(k, o)
  {
    var f :| f in o.fields && IsAssignable(k.value, f) && v in Items(o.fields[f]);
    HeldType(f, o.fields[f], v);
    SupersTransitive(v.clazz, f.type');
    if o.fields[f].Many? { SupersTransitive(o.fields[f].component, f.type'); }
    assert v in PartsOf(k, o.fields[f]);
  }

  // ---------- what a save reaches ----------

  /** With every object the values it holds. */
  ghost predicate PartsInside(k: Roles, s: set<Obj>) {
    forall o {:trigger Parts(k, o)} | o in s :: Parts(k, o) <= s
  }

  ghost function Spread(k: Roles, s: set<Obj>): set<Obj> {
    s + set o, v | o in s && v in Parts(k, o) :: v
  }

  /** `s`, the values that its objects hold, those that they hold, and so on. */
  ghost function Reach(k: Roles, universe: set<Obj>, s: set<Obj>): set<Obj>
    requires PartsInside(k, universe) && s <= universe
    decreases universe - s
  {
    if Spread(k, s) <= s then s else Reach(k, universe, Spread(k, s))
  }

  ghost function Span(k: Roles, universe: set<Obj>, x: Obj): set<Obj>
    requires PartsInside(k, universe) && x in universe
  {
    Reach(k, universe, {x})
  }

  lemma {:induction false} ReachCloses(k: Roles, universe: set<Obj>, s: set<Obj>)
    requires PartsInside(k, universe) && s <= universe
    ensures s <= Reach(k, universe, s) <= universe && PartsInside(k, Reach(k, universe, s))
    decreases universe - s
  {
    var g := Spread(k, s);
    if g <= s {
      forall o, v | o in s && v in Parts(k, o) ensures v in s { assert v in g; }
    } else {
      ReachCloses(k, universe, g);
    }
  }

  lemma {:induction false} ReachLeast(k: Roles, universe: set<Obj>, s: set<Obj>, e: set<Obj>)
    requires PartsInside(k, universe) && s <= universe && s <= e && PartsInside(k, e)
    ensures Reach(k, universe, s) <= e
    decreases universe - s
  {
    var g := Spread(k, s);
    forall v | v in g ensures v in e {
      if v !in s {
        var o :| o in s && v in Parts(k, o);
        assert Parts(k, o) <= e;
      }
    }
    if !(g <= s) { ReachLeast(k, universe, g, e); }
  }

  /** What a save of `x` reaches is the least set with `x` that is closed under the values held. */
  lemma SpanIsLeast(k: Roles, universe: set<Obj>, x: Obj, e: set<Obj>)
    requires PartsInside(k, universe) && x in universe
    ensures x in Span(k, universe, x) && Span(k, universe, x) <= universe
    ensures PartsInside(k, Span(k, universe, x))
    ensures x in e && PartsInside(k, e) ==> Span(k, universe, x) <= e
  {
    ReachCloses(k, universe, {x});
    if x in e && PartsInside(k, e) { ReachLeast(k, universe, {x}, e); }
  }

  /** The cascades of the values that `x` holds. */
  ghost function Spans(k: Roles, universe: set<Obj>, s: set<Obj>): set<Obj>
    requires PartsInside(k, universe) && s <= universe
  {
    set v, y | v in s && y in Span(k, universe, v) :: y
  }

  /** A cascade is the object itself and the cascades of the values it holds. */
  lemma SpanSteps(k: Roles, universe: set<Obj>, x: Obj)
    requires PartsInside(k, universe) && x in universe
    ensures Parts(k, x) <= universe
    ensures Span(k, universe, x) == {x} + Spans(k, universe, Parts(k, x))
  {
    var s := {x} + Spans(k, universe, Parts(k, x));
    SpanIsLeast(k, universe, x, {});
    forall v | v in Parts(k, x)
      ensures v in Span(k, universe, v) && Span(k, universe, v) <= Span(k, universe, x)
    {
      SpanIsLeast(k, universe, v, Span(k, universe, x));
    }
    forall o | o in s ensures Parts(k, o) <= s { SpansClose(k, universe, x, o); }
    SpanIsLeast(k, universe, x, s);
  }

  lemma SpansClose(k: Roles, universe: set<Obj>, x: Obj, o: Obj)
    requires PartsInside(k, universe) && x in universe && Parts(k, x) <= universe
    requires o in {x} + Spans(k, universe, Parts(k, x))
    ensures Parts(k, o) <= {x} + Spans(k, universe, Parts(k, x))
  {
    if o == x {
      forall v | v in Parts(k, x) ensures v in Spans(k, universe, Parts(k, x)) { SpanIsLeast(k, universe, v, {}); }
    } else {
      var v :| v in Parts(k, x) && o in Span(k, universe, v);
      SpanIsLeast(k, universe, v, {});
      assert Parts(k, o) <= Span(k, universe, v);
    }
  }

  /** The recursion of a save runs along the values held. */
  ghost function Holdings(k: Roles, universe: set<Obj>): map<Obj, set<Obj>> {
    map o | o in universe :: Parts(k, o)
  }

  /** A save of `x` with at most `depth` calls nested, itself among them, comes to its end. */
  ghost predicate SaveCompletes(k: Roles, x: Obj, depth: nat) {
    depth > 0 && forall v | v in Parts(k, x) :: SaveCompletes(k, v, depth - 1)
  }

  lemma {:induction false} SaveCompletesIf(k: Roles, universe: set<Obj>, x: Obj, depth: nat)
    requires PartsInside(k, universe) && x in universe
    ensures SaveCompletes(k, x, depth) <==> !Descends(Holdings(k, universe), x, depth)
    decreases depth
  {
    if depth > 0 {
      forall v | v in Parts(k, x)
        ensures SaveCompletes(k, v, depth - 1) <==> !Descends(Holdings(k, universe), v, depth - 1)
      {
        assert Parts(k, x) <= universe;
        SaveCompletesIf(k, universe, v, depth - 1);
      }
    }
  }

  /** A save ends if and only if no circle of values, each holding the next, can be reached. */
  lemma SaveEndsExactly(k: Roles, universe: set<Obj>, x: Obj)
    requires PartsInside(k, universe) && x in universe
    ensures (exists depth: nat :: SaveCompletes(k, x, depth)) <==> Stops(Holdings(k, universe), x)
    ensures Stops(Holdings(k, universe), x) <==> !ReachesCircle(Holdings(k, universe), x)
  {
    StopsIffNoCircle(Holdings(k, universe), x);
    if depth: nat :| SaveCompletes(k, x, depth) {
      SaveCompletesIf(k, universe, x, depth);
    }
    if depth: nat :| !Descends(Holdings(k, universe), x, depth) {
      SaveCompletesIf(k, universe, x, depth);
    }
  }

  /** An example without end: two values that hold each other. */
  lemma {:induction false} MutualValuesEndless(k: Roles, u: Obj, v: Obj, depth: nat)
    requires v in Parts(k, u) && u in Parts(k, v)
    ensures !SaveCompletes(k, u, depth)
  {
    if depth > 0 { MutualValuesEndless(k, v, u, depth - 1); }
  }

  ghost function Persistents(k: Roles, s: set<Obj>): set<Obj> {
    set o | o in s && IsInstance(o, k.persistent)
  }

  /** What a deletion takes: an object with the values it holds, but a value alone. */
  ghost function Taken(k: Roles, x: Obj): set<Obj> {
    {x} + if IsInstance(x, k.value) then {} else Parts(k, x)
  }

  // ---------- garbage collection ----------

  /** One pass: the values that no stored object is seen to hold go. */
  ghost function Collected(k: Roles, objects: set<Obj>): set<Obj> {
    objects - Orphans(objects, k.value)
  }

  /** `n` passes. */
  ghost function Passes(k: Roles, objects: set<Obj>, n: nat): set<Obj> {
    if n == 0 then objects else Collected(k, Passes(k, objects, n - 1))
  }

  /** A pass keeps everything that is no value, and whatever something that stays is seen to hold: it
      leaves no object behind with a hole in a field of value type. */
  lemma CollectedKeeps(k: Roles, objects: set<Obj>, v: Obj)
    requires v in objects
    ensures !IsInstance(v, k.value) ==> v in Collected(k, objects)
    ensures IsHeld(Collected(k, objects), k.value, v) ==> v in Collected(k, objects)
  {
    if IsHeld(Collected(k, objects), k.value, v) {
      var o :| o in Collected(k, objects) && v in Held(o, k.value);
      assert o in objects;
    }
  }

  /** Held in a field of value type is referred to from one. */
  lemma HeldIsReferred(k: Roles, objects: set<Obj>, v: Obj)
    ensures IsHeld(objects, k.value, v) <==> exists o, f :: o in objects && Refers(o, f, v) && IsAssignable(k.value, f)
  {
    forall o | o in objects
      ensures v in Held(o, k.value) <==> exists f :: Refers(o, f, v) && IsAssignable(k.value, f)
    {
      HeldExactly(o, k.value, v);
    }
  }

  /** Every value is held by something that is stored. */
  ghost predicate Clean(k: Roles, objects: set<Obj>) {
    forall v {:trigger IsHeld(objects, k.value, v)} | v in objects && IsInstance(v, k.value) ::
      IsHeld(objects, k.value, v)
  }

  lemma SubsetSmaller<T>(a: set<T>, b: set<T>, x: T)
    requires a <= b && x in b && x !in a
    ensures |a| < |b|
  {
    var rest := b - a - {x};
    assert b == a + {x} + rest;
  }

  lemma CollectedLess(k: Roles, objects: set<Obj>)
    requires !Clean(k, objects)
    ensures Collected(k, objects) <= objects && |Collected(k, objects)| < |objects|
  {
    var v :| v in objects && IsInstance(v, k.value) && !IsHeld(objects, k.value, v);
    assert v in Orphans(objects, k.value);
    SubsetSmaller(Collected(k, objects), objects, v);
  }

  lemma CollectedSame(k: Roles, objects: set<Obj>)
    requires Clean(k, objects)
    ensures Collected(k, objects) == objects
  {
    assert Orphans(objects, k.value) == {};
  }

  /** A pass makes the store strictly smaller until every value is held, and then changes nothing. */
  lemma CollectedShrinks(k: Roles, objects: set<Obj>)
    ensures Clean(k, objects) ==> Collected(k, objects) == objects
    ensures !Clean(k, objects) ==> Collected(k, objects) < objects
  {
    if Clean(k, objects) { CollectedSame(k, objects); } else { CollectedLess(k, objects); }
  }

  /** Falling numbers that stay once they do not fall: the `n`-th is the last or smaller by `n`. */
  lemma {:induction false} Falling(sizes: seq<nat>, n: nat)
    requires forall i {:trigger sizes[i]} | 0 < i < |sizes| :: sizes[i] <= sizes[i - 1]
    requires forall i {:trigger sizes[i]} | 1 < i < |sizes| && sizes[i - 1] == sizes[i - 2] :: sizes[i] == sizes[i - 1]
    requires n + 1 < |sizes|
    ensures sizes[n + 1] == sizes[n] || sizes[n + 1] + n + 1 <= sizes[0]
  {
    if n > 0 { Falling(sizes, n - 1); }
  }

  lemma PassFalls(k: Roles, objects: set<Obj>, i: nat)
    requires i > 0
    ensures |Passes(k, objects, i)| <= |Passes(k, objects, i - 1)|
    ensures |Passes(k, objects, i)| == |Passes(k, objects, i - 1)| ==> Clean(k, Passes(k, objects, i - 1))
  {
    var s := Passes(k, objects, i - 1);
    if Clean(k, s) { CollectedSame(k, s); } else { CollectedLess(k, s); }
  }

  lemma PassStays(k: Roles, objects: set<Obj>, i: nat)
    requires i > 1 && |Passes(k, objects, i - 1)| == |Passes(k, objects, i - 2)|
    ensures |Passes(k, objects, i)| == |Passes(k, objects, i - 1)|
  {
    PassFalls(k, objects, i - 1);
    CollectedSame(k, Passes(k, objects, i - 2));
    assert Passes(k, objects, i - 1) == Passes(k, objects, i - 2);
  }

  ghost function Sizes(k: Roles, objects: set<Obj>, n: nat): (sizes: seq<nat>)
    ensures |sizes| == n && forall i: nat | i < n :: sizes[i] == |Passes(k, objects, i)|
  {
    seq(n, (i: nat) => |Passes(k, objects, i)|)
  }

  lemma SizesFall(k: Roles, objects: set<Obj>, n: nat)
    ensures forall i {:trigger Sizes(k, objects, n)[i]} | 0 < i < n ::
      Sizes(k, objects, n)[i] <= Sizes(k, objects, n)[i - 1]
  {
    forall i | 0 < i < n ensures Sizes(k, objects, n)[i] <= Sizes(k, objects, n)[i - 1] {
      PassFalls(k, objects, i);
    }
  }

  lemma SizesStay(k: Roles, objects: set<Obj>, n: nat)
    ensures forall i {:trigger Sizes(k, objects, n)[i]}
      | 1 < i < n && Sizes(k, objects, n)[i - 1] == Sizes(k, objects, n)[i - 2] ::
      Sizes(k, objects, n)[i] == Sizes(k, objects, n)[i - 1]
  {
    forall i | 1 < i < n && Sizes(k, objects, n)[i - 1] == Sizes(k, objects, n)[i - 2]
      ensures Sizes(k, objects, n)[i] == Sizes(k, objects, n)[i - 1]
    {
      PassStays(k, objects, i);
    }
  }

  /** After at most as many passes as there are objects, every value is held. */
  lemma PassesClean(k: Roles, objects: set<Obj>)
    ensures Clean(k, Passes(k, objects, |objects|))
  {
    var n := |objects|;
    var sizes := Sizes(k, objects, n + 2);
    SizesFall(k, objects, n + 2);
    SizesStay(k, objects, n + 2);
    Falling(sizes, n);
    assert sizes[0] == n;
    PassFalls(k, objects, n + 1);
  }

  // ---------- ownership over several levels ----------

  /** All that holds the value among these objects is in `gone`. */
  ghost predicate OwnedBy(k: Roles, objects: set<Obj>, gone: set<Obj>, v: Obj) {
    IsInstance(v, k.value) && forall o | o in objects && v in Held(o, k.value) :: o in gone
  }

  /** What is gone, the values only that owned, the values only those owned, and so on `n` times. */
  ghost function Levels(k: Roles, objects: set<Obj>, gone: set<Obj>, n: nat): set<Obj> {
    if n == 0 then gone
    else
      var before := Levels(k, objects, gone, n - 1);
      before + set v | v in objects && OwnedBy(k, objects, before, v)
  }

  lemma LevelTaken(k: Roles, objects: set<Obj>, gone: set<Obj>)
    ensures Collected(k, objects - gone) == objects - (gone + set v | v in objects && OwnedBy(k, objects, gone, v))
  {
    forall v | v in objects - gone ensures v in Orphans(objects - gone, k.value) <==> OwnedBy(k, objects, gone, v) {
      if o :| o in objects && v in Held(o, k.value) && o !in gone {
        assert o in objects - gone;
      }
    }
  }

  /** After some objects are deleted, each pass takes exactly one more level of the values that only
      they owned: a value inside a value goes with the first pass, one inside that with the second. */
  lemma {:induction false} PassesTakeLevels(k: Roles, objects: set<Obj>, gone: set<Obj>, n: nat)
    ensures Passes(k, objects - gone, n) == objects - Levels(k, objects, gone, n)
  {
    if n > 0 {
      PassesTakeLevels(k, objects, gone, n - 1);
      LevelTaken(k, objects, Levels(k, objects, gone, n - 1));
    }
  }

  /** Deleting an object and collecting once: a value that the deletion left, as it does with one inside
      a value it took, goes exactly if all that held it was deleted. */
  lemma DeleteThenCollect(k: Roles, objects: set<Obj>, x: Obj, w: Obj)
    requires w in objects - Taken(k, x) && IsInstance(w, k.value)
    ensures w !in Passes(k, objects - Taken(k, x), 1) <==> OwnedBy(k, objects, Taken(k, x), w)
  {
    PassesTakeLevels(k, objects, Taken(k, x), 1);
    assert Levels(k, objects, Taken(k, x), 0) == Taken(k, x);
  }
}
