/** The index of the stored objects by class, and what is read off it. */
module Repository {
  import opened Reflections

  /** The objects of a class: those that have it among their supertypes. */
  ghost function OfClass(objects: set<Obj>, c: Class): set<Obj> {
    set o | o in objects && IsInstance(o, c)
  }

  /** The objects that are seen to refer to `r`. */
  ghost function Referrers(objects: set<Obj>, r: Obj): set<Obj> {
    set o | o in objects && Sees(o, r)
  }

  /** The objects of class `c` that no object holds in a field declared with `c` or below. */
  ghost function Orphans(objects: set<Obj>, c: Class): set<Obj> {
    set v | v in OfClass(objects, c) && !IsHeld(objects, c, v)
  }

  ghost predicate IsHeld(objects: set<Obj>, c: Class, v: Obj) {
    exists o :: o in objects && v in Held(o, c)
  }

  /** Told of the fields: those with a field, declared with the class of `r` or below it, that is `r` or an
      array with it. */
  lemma ReferrersExactly(objects: set<Obj>, r: Obj, o: Obj)
    ensures o in Referrers(objects, r) <==>
      && o in objects
      && exists f ::
           && f in o.fields && r.clazz in Supers(f.type')
           && (o.fields[f] == One(r) || (o.fields[f].Many? && r in o.fields[f].items))
  {
    if f :| Refers(o, f, r) && r.clazz in Supers(f.type') {
      assert r in Items(o.fields[f]);
    }
  }

  /** Told of the fields: instances to which no field that is declared with the class or below it refers,
      directly or in an array. */
  lemma OrphansExactly(objects: set<Obj>, c: Class, v: Obj)
    ensures v in Orphans(objects, c) <==>
      && v in objects && c in Supers(v.clazz)
      && !exists o, f ::
            && o in objects && f in o.fields && c in Supers(f.type')
            && (o.fields[f] == One(v) || (o.fields[f].Many? && v in o.fields[f].items))
  {
    forall o | o in objects { HeldExactly(o, c, v); }
    if o, f :| o in objects && Refers(o, f, v) && c in Supers(f.type') {
      assert v in Held(o, c);
    }
  }

  /** The test of `isReferrer` with these fields. */
  ghost predicate SeesBy(o: Obj, fields: set<Field>, r: Obj) {
    exists f :: f in fields && f in o.fields && r in Items(o.fields[f])
  }

  /** An object has the fields of all its supertypes. */
  lemma FieldsGrow(schema: Schema, c: Class, d: Class)
    requires d in Supers(c)
    ensures FieldsOf(schema, d) <= FieldsOf(schema, c)
  {
    SupersTransitive(c, d);
  }

  lemma SeenByOwnClass(schema: Schema, o: Obj, fields: set<Field>, r: Obj)
    requires Conforms(schema, o) && Sees(o, r)
    requires forall f :: f in fields <==> f in FieldsOf(schema, o.clazz) && IsAssignable(r.clazz, f)
    ensures SeesBy(o, fields, r)
  {}

  /** The objects in an index under a class. */
  function Indexed(index: map<Class, set<Obj>>, c: Class): set<Obj> {
    if c in index then index[c] else {}
  }

  class ObjectRepository {
    const schema: Schema
    const top: Class  // the class all objects have among their supertypes
    var objectsByClass: map<Class, set<Obj>>
    ghost var objects: set<Obj>

    constructor (schema: Schema, top: Class)
      ensures Valid() && objects == {} && this.schema == schema && this.top == top
    {
      this.schema, this.top, objectsByClass, objects := schema, top, map[], {};
    }

    /** The index is that of the plain set of all objects. */
    ghost predicate Valid()
      reads this
    {
      && (forall c :: Indexed(objectsByClass, c) == OfClass(objects, c))
      && forall o | o in objects :: Conforms(schema, o) && IsInstance(o, top)
    }

    method Put(entity: Obj)
      requires Valid() && Conforms(schema, entity) && IsInstance(entity, top)
      modifies this
      ensures Valid() && objects == old(objects) + {entity}
    {
      var todo := Supers(entity.clazz);
      while todo != {}
        invariant objects == old(objects) && todo <= Supers(entity.clazz)
        invariant forall c ::
          Indexed(objectsByClass, c) == OfClass(objects, c) + if c in Supers(entity.clazz) - todo then {entity} else {}
      {
        var c :| c in todo;
        todo := todo - {c};
        objectsByClass := objectsByClass[c := Indexed(objectsByClass, c) + {entity}];
      }
      objects := objects + {entity};
    }

    method Remove(entity: Obj)
      requires Valid()
      modifies this
      ensures Valid() && objects == old(objects) - {entity}
    {
      var todo := Supers(entity.clazz);
      while todo != {}
        invariant objects == old(objects) && todo <= Supers(entity.clazz)
        invariant forall c ::
          Indexed(objectsByClass, c) == OfClass(objects, c) - if c in Supers(entity.clazz) - todo then {entity} else {}
      {
        var c :| c in todo;
        todo := todo - {c};
        if c in objectsByClass {
          objectsByClass := objectsByClass[c := objectsByClass[c] - {entity}];
        }
      }
      objects := objects - {entity};
    }

    /** A query for a class returns exactly the stored objects that are instances of it. */
    method Get(c: Class) returns (r: set<Obj>)
      requires Valid()
      ensures r == OfClass(objects, c)
    {
      r := Indexed(objectsByClass, c);
    }

    /** The inner loop of `getReferrers`: the objects of one class. */
    method AddReferrers(c: Class, referringFields: set<Field>, reference: Obj, start: set<Obj>) returns (r: set<Obj>)
      requires Valid()
      requires forall f :: f in referringFields <==> f in FieldsOf(schema, c) && IsAssignable(reference.clazz, f)
      ensures forall o :: o in r <==> o in start || (o in OfClass(objects, c) && SeesBy(o, referringFields, reference))
    {
      r := start;
      var possible := Get(c);
      ghost var all := possible;
      while possible != {}
        invariant possible <= all
        invariant forall o :: o in r <==> o in start || (o in all - possible && SeesBy(o, referringFields, reference))
      {
        var o :| o in possible;
        possible := possible - {o};
        FieldsGrow(schema, o.clazz, c);
        var sees := Reflections.IsReferrer(o, referringFields, reference);
        if sees {
          r := r + {o};
        }
      }
    }

    method GetReferrers(reference: Obj) returns (r: set<Obj>)
      requires Valid()
      ensures r == Referrers(objects, reference)
    {
      r := {};
      var todo := objectsByClass.Keys;
      forall o | o in objects ensures o.clazz in todo {
        SupersIsClosure(o.clazz);
        assert o in Indexed(objectsByClass, o.clazz);
      }
      while todo != {}
        invariant todo <= objectsByClass.Keys
        invariant r <= Referrers(objects, reference)
        invariant forall o | o in Referrers(objects, reference) :: o in r || o.clazz in todo
      {
        var c :| c in todo;
        todo := todo - {c};
        var referringFields := GetReferringFields(schema, c, reference);
        ghost var before := r;
        r := AddReferrers(c, referringFields, reference, r);
        forall o | o in OfClass(objects, c) ensures SeesBy(o, referringFields, reference) ==> Sees(o, reference) {
          FieldsGrow(schema, o.clazz, c);
        }
        forall o | o in Referrers(objects, reference) && o.clazz == c ensures o in r {
          SupersIsClosure(c);
          SeenByOwnClass(schema, o, referringFields, reference);
        }
      }
    }

    method GetGarbage(c: Class) returns (r: set<Obj>)
      requires Valid()
      ensures r == Orphans(objects, c)
    {
      var values := Get(c);
      var all := Get(top);
      assert all == objects;
      var referred := GetReferredObjects(all, c);
      r := values - referred;
    }
  }
}
