/** References into the void: what collections and deletions leave behind. */
module Integrity {
  import opened Sequences
  import opened Reflections
  import opened Repository
  import opened Ownership
  import opened Sessions

  /** What an accepted deletion leaves stored, told of what was stored before. */
  ghost predicate Outlives(d: Domain, objects: set<Obj>, o: Obj, x: Obj) {
    && x in objects && x !in Taken(d.k, o)
    && (Referrers(objects, o) != {} ==> x !in Orphans(objects, d.k.value))
  }

  lemma OutlivesExactly(d: Domain, objects: set<Obj>, o: Obj, after: set<Obj>, x: Obj)
    requires Deleted(d, objects, o) == Some(after)
    ensures x in after <==> Outlives(d, objects, o, x)
  {}

  // ---------- references that can be seen ----------

  /** Whatever a stored object is seen to refer to is stored. */
  ghost predicate Complete(k: Roles, universe: set<Obj>, objects: set<Obj>) {
    forall o, r {:trigger Sees(o, r)} | o in objects && r in Persistents(k, universe) && Sees(o, r) :: r in objects
  }

  /** A value that is seen is held in a field of value type. */
  lemma SeenIsHeld(k: Roles, o: Obj, v: Obj)
    requires Sees(o, v) && IsInstance(v, k.value)
    ensures v in Held(o, k.value)
  {
    var f :| f in o.fields && IsAssignable(v.clazz, f) && v in Items(o.fields[f]);
    SupersTransitive(f.type', v.clazz);
    assert IsAssignable(k.value, f);
  }

  /** A collection takes nothing that is seen from something it leaves. */
  lemma CollectComplete(k: Roles, universe: set<Obj>, objects: set<Obj>)
    requires Complete(k, universe, objects)
    ensures Complete(k, universe, Collected(k, objects))
  {
    forall o, r | o in Collected(k, objects) && r in Persistents(k, universe) && Sees(o, r)
      ensures r in Collected(k, objects)
    {
      if IsInstance(r, k.value) {
        SeenIsHeld(k, o, r);
        assert IsHeld(objects, k.value, r);
      }
    }
  }

  /** What an accepted deletion of `o` leaves refers to `o` in no field declared with its class. */
  lemma UnseenOnceDeleted(d: Domain, objects: set<Obj>, o: Obj, x: Obj)
    requires Deleted(d, objects, o).Some? && Outlives(d, objects, o, x)
    ensures !Sees(x, o)
  {
    if Referrers(objects, o) == {} {
      assert x !in Referrers(objects, o);
    } else {
      assert x !in Referrers(Collected(d.k, objects), o);
    }
  }

  /** After an accepted deletion everything seen is stored, exactly if nothing that stays is seen to
      refer to a value that was taken along. */
  lemma DeleteComplete(d: Domain, objects: set<Obj>, o: Obj, after: set<Obj>)
    requires WellTyped(d) && o in d.universe && Complete(d.k, d.universe, objects)
    requires Deleted(d, objects, o) == Some(after)
    ensures Complete(d.k, d.universe, after) <==>
      IsInstance(o, d.k.value) ||
      forall x, v | Outlives(d, objects, o, x) && v in Persistents(d.k, Parts(d.k, o)) :: !Sees(x, v)
  {
    CollectComplete(d.k, d.universe, objects);
    var before := if Referrers(objects, o) == {} then objects else Collected(d.k, objects);
    assert Complete(d.k, d.universe, before) && after == before - Taken(d.k, o);
    forall x | x in after ensures !Sees(x, o) { UnseenOnceDeleted(d, objects, o, x); }
    forall x ensures x in after <==> Outlives(d, objects, o, x) { OutlivesExactly(d, objects, o, after, x); }
    assert Parts(d.k, o) <= d.universe;
  }

  // ---------- told of the fields ----------

  /** A collection keeps a value if and only if something stored has a field, declared with the value type
      or below it, that is the value or an array with it. */
  lemma KeptExactly(k: Roles, objects: set<Obj>, v: Obj)
    requires v in objects && k.value in Supers(v.clazz)
    ensures v in Collected(k, objects) <==> exists o, f ::
      && o in objects && f in o.fields && k.value in Supers(f.type')
      && (o.fields[f] == One(v) || (o.fields[f].Many? && v in o.fields[f].items))
  {
    OrphansExactly(objects, k.value, v);
  }

  /** A deletion is refused if and only if something that a collection would leave has a field, declared
      with the class of the object, that is the object or an array with it. */
  lemma RefusedExactly(d: Domain, objects: set<Obj>, o: Obj)
    requires WellTyped(d) && objects <= d.universe
    ensures Deleted(d, objects, o) == None <==> exists x, f ::
      && x in Collected(d.k, objects) && f in x.fields && f.type' == o.clazz
      && (x.fields[f] == One(o) || (x.fields[f].Many? && o in x.fields[f].items))
  {
    forall x | x in objects ensures Sees(x, o) <==> exists f :: Refers(x, f, o) && f.type' == o.clazz {
      SeesExactly(d.schema, x, o);
    }
    if x, f :| x in Collected(d.k, objects) && Refers(x, f, o) && f.type' == o.clazz {
      assert x in Referrers(objects, o) && x in Referrers(Collected(d.k, objects), o);
    }
  }

  /** The values in an array of values are saved with its owner and, unless that is a value itself, deleted
      with it; so is a value in a field. */
  lemma PartsGoAlong(d: Domain, objects: set<Obj>, o: Obj, f: Field, v: Obj)
    requires WellTyped(d) && o in d.universe && f in o.fields && d.k.value in Supers(v.clazz)
    requires o.fields[f] == One(v) ||
      (o.fields[f].Many? && d.k.value in Supers(o.fields[f].component) && v in o.fields[f].items)
    ensures IsInstance(v, d.k.persistent) ==> v in Saved(d, objects, o)
    ensures d.k.value !in Supers(o.clazz) ==> v !in objects - Taken(d.k, o)
  {
    PartsExactly(d.k, o, v);
    SpanSteps(d.k, d.universe, o);
    SpanIsLeast(d.k, d.universe, v, {});
  }

  // ---------- references that there are ----------

  /** Whatever a stored object refers to, in any field, is stored. */
  ghost predicate Tight(k: Roles, universe: set<Obj>, objects: set<Obj>) {
    forall o, f, r {:trigger Refers(o, f, r)} | o in objects && r in Persistents(k, universe) && Refers(o, f, r) ::
      r in objects
  }

  /** A collection takes a value exactly if no reference to it is in a field that is declared with the
      value type or a class below it. */
  lemma CollectedExactly(k: Roles, objects: set<Obj>, r: Obj)
    requires r in objects
    ensures r !in Collected(k, objects) <==>
      IsInstance(r, k.value) && forall x, f | x in objects && Refers(x, f, r) :: !IsAssignable(k.value, f)
  {
    HeldIsReferred(k, objects, r);
  }

  /** A collection leaves the object: it is no value, or something refers to it out of such a field. */
  ghost predicate Stays(k: Roles, objects: set<Obj>, x: Obj) {
    x in objects && (IsInstance(x, k.value) ==>
      exists y, g :: y in objects && Refers(y, g, x) && IsAssignable(k.value, g))
  }

  /** So it leaves a reference into the void exactly if something that stays refers to a value and all
      references to that value are in other fields. */
  lemma CollectTight(k: Roles, universe: set<Obj>, objects: set<Obj>)
    requires Tight(k, universe, objects) && objects <= Persistents(k, universe)
    ensures Tight(k, universe, Collected(k, objects)) <==>
      forall x, f, r | Stays(k, objects, x) && Refers(x, f, r) && r in OfClass(objects, k.value) ::
        exists y, g :: y in objects && Refers(y, g, r) && IsAssignable(k.value, g)
  {
    forall r ensures r in Collected(k, objects) <==> Stays(k, objects, r) {
      if r in objects { CollectedExactly(k, objects, r); }
    }
  }

  /** A reference from `x` to `r` that an accepted deletion of `o` leaves pointing into the void: to the
      object itself out of a field not declared with its class, to a value that went along with it,
      or to a collected value out of a field declared neither with the value type nor below it. */
  ghost predicate LeftBehind(d: Domain, objects: set<Obj>, o: Obj, x: Obj, f: Field, r: Obj) {
    && Outlives(d, objects, o, x) && Refers(x, f, r) && r in objects
    && (|| (r == o && f.type' != o.clazz)
        || (!IsInstance(o, d.k.value) && r in Parts(d.k, o))
        || (Referrers(objects, o) != {} && r in Orphans(objects, d.k.value) && !IsAssignable(d.k.value, f)))
  }

  lemma UnseenField(d: Domain, objects: set<Obj>, o: Obj, x: Obj, f: Field)
    requires WellTyped(d) && objects <= d.universe && Deleted(d, objects, o).Some?
    requires Outlives(d, objects, o, x) && Refers(x, f, o)
    ensures f.type' != o.clazz
  {
    UnseenOnceDeleted(d, objects, o, x);
    SeesExactly(d.schema, x, o);
  }

  lemma OrphanField(k: Roles, objects: set<Obj>, x: Obj, f: Field, r: Obj)
    requires x in objects && Refers(x, f, r) && r in Orphans(objects, k.value)
    ensures !IsAssignable(k.value, f)
  {
    HeldIsReferred(k, objects, r);
  }

  lemma LeftBehindExactly(d: Domain, objects: set<Obj>, o: Obj, x: Obj, f: Field, r: Obj)
    requires WellTyped(d) && o in d.universe && objects <= d.universe && Deleted(d, objects, o).Some?
    requires Outlives(d, objects, o, x) && Refers(x, f, r) && r in objects
    ensures Outlives(d, objects, o, r) <==> !LeftBehind(d, objects, o, x, f, r)
  {
    if r == o { UnseenField(d, objects, o, x, f); }
    if r in Orphans(objects, d.k.value) { OrphanField(d.k, objects, x, f, r); }
  }

  /** After an accepted deletion everything referred to is stored, exactly if no such reference was there. */
  lemma DeleteTight(d: Domain, objects: set<Obj>, o: Obj, after: set<Obj>)
    requires WellTyped(d) && o in d.universe && objects <= Persistents(d.k, d.universe)
    requires Tight(d.k, d.universe, objects) && Deleted(d, objects, o) == Some(after)
    ensures Tight(d.k, d.universe, after) <==> !exists x, f, r :: LeftBehind(d, objects, o, x, f, r)
  {
    forall x ensures x in after <==> Outlives(d, objects, o, x) { OutlivesExactly(d, objects, o, after, x); }
    forall x, f, r | Outlives(d, objects, o, x) && Refers(x, f, r) && r in objects
      ensures Outlives(d, objects, o, r) <==> !LeftBehind(d, objects, o, x, f, r)
    {
      LeftBehindExactly(d, objects, o, x, f, r);
    }
  }

  /** An example: an object refers to another one out of a field declared with a supertype of its class.
      The deletion of the other one is accepted and leaves that reference. */
  lemma MissedReference(d: Domain, x: Obj, o: Obj, f: Field)
    requires WellTyped(d) && x != o && {x, o} <= Persistents(d.k, d.universe)
    requires Refers(x, f, o) && Parts(d.k, o) == {}
    requires forall y, g | y in {x, o} && Refers(y, g, o) :: g.type' != o.clazz
    ensures Deleted(d, {x, o}, o) == Some({x}) && !Tight(d.k, d.universe, {x})
  {
    SeesExactly(d.schema, x, o);
    SeesExactly(d.schema, o, o);
    assert Conforms(d.schema, x) && Conforms(d.schema, o);
    assert Referrers({x, o}, o) == {} && Taken(d.k, o) == {o};
    assert {x, o} - {o} == {x} && o in Persistents(d.k, d.universe);
  }
}
