/** Classes with their supertypes, objects with their fields, and which references between objects
    a look at declared field types can see. */
module Reflections {
  import opened Sequences

  // ---------- classes ----------

  datatype Class = Class(name: string, superclass: Option<Class>, interfaces: seq<Class>)

  /** `getSuperClassesAndInterfaces`. */
  function Supers(c: Class): set<Class>
    decreases c, |c.interfaces| + 1
  {
    {c} + InterfaceSupers(c, |c.interfaces|) + match c.superclass case Some(s) => Supers(s) case None => {}
  }

  function InterfaceSupers(c: Class, i: nat): set<Class>
    requires i <= |c.interfaces|
    decreases c, i
  {
    if i == 0 then {} else InterfaceSupers(c, i - 1) + Supers(c.interfaces[i - 1])
  }

  predicate Direct(c: Class, d: Class) {
    d in c.interfaces || c.superclass == Some(d)
  }

  /** With every class its direct supertypes. */
  ghost predicate Upward(s: set<Class>) {
    forall c, d {:trigger Direct(c, d)} | c in s && Direct(c, d) :: d in s
  }

  lemma {:induction false} InterfaceIn(c: Class, i: nat, j: nat)
    requires j < i <= |c.interfaces|
    ensures Supers(c.interfaces[j]) <= InterfaceSupers(c, i)
  {
    if j < i - 1 { InterfaceIn(c, i - 1, j); }
  }

  lemma DirectIn(c: Class, d: Class)
    requires Direct(c, d)
    ensures Supers(d) <= Supers(c) && d in Supers(c)
  {
    if d in c.interfaces {
      var j :| 0 <= j < |c.interfaces| && c.interfaces[j] == d;
      InterfaceIn(c, |c.interfaces|, j);
    }
  }

  lemma {:induction false} SupersCloses(c: Class, x: Class, y: Class)
    requires x in Supers(c) && Direct(x, y)
    ensures y in Supers(c)
    decreases c, |c.interfaces| + 1
  {
    if x == c {
      DirectIn(c, y);
    } else if x in InterfaceSupers(c, |c.interfaces|) {
      InterfaceCloses(c, |c.interfaces|, x, y);
    } else {
      SupersCloses(c.superclass.value, x, y);
    }
  }

  lemma {:induction false} InterfaceCloses(c: Class, i: nat, x: Class, y: Class)
    requires i <= |c.interfaces| && x in InterfaceSupers(c, i) && Direct(x, y)
    ensures y in InterfaceSupers(c, i)
    decreases c, i
  {
    if x in InterfaceSupers(c, i - 1) {
      InterfaceCloses(c, i - 1, x, y);
    } else {
      SupersCloses(c.interfaces[i - 1], x, y);
    }
  }

  lemma {:induction false} SupersLeast(c: Class, s: set<Class>)
    requires c in s && Upward(s)
    ensures Supers(c) <= s
    decreases c, |c.interfaces| + 1
  {
    InterfaceLeast(c, |c.interfaces|, s);
    if c.superclass.Some? {
      assert Direct(c, c.superclass.value);
      SupersLeast(c.superclass.value, s);
    }
  }

  lemma {:induction false} InterfaceLeast(c: Class, i: nat, s: set<Class>)
    requires i <= |c.interfaces| && c in s && Upward(s)
    ensures InterfaceSupers(c, i) <= s
    decreases c, i
  {
    if i > 0 {
      assert Direct(c, c.interfaces[i - 1]);
      InterfaceLeast(c, i - 1, s);
      SupersLeast(c.interfaces[i - 1], s);
    }
  }

  /** The recursion computes the reflexive and transitive closure of "direct supertype". */
  lemma SupersIsClosure(c: Class)
    ensures c in Supers(c) && Upward(Supers(c))
    ensures forall s | c in s && Upward(s) :: Supers(c) <= s
  {
    forall x, y | x in Supers(c) && Direct(x, y) ensures y in Supers(c) { SupersCloses(c, x, y); }
    forall s | c in s && Upward(s) ensures Supers(c) <= s { SupersLeast(c, s); }
  }

  lemma SupersTransitive(c: Class, d: Class)
    requires d in Supers(c)
    ensures Supers(d) <= Supers(c)
  {
    SupersIsClosure(c);
    SupersLeast(d, Supers(c));
  }

  function Max(a: nat, b: nat): nat {
    if a < b then b else a
  }

  /** The length of the longest way upwards. */
  ghost function ClassHeight(c: Class): nat
    decreases c, |c.interfaces| + 1
  {
    1 + Max(InterfaceHeight(c, |c.interfaces|), match c.superclass case Some(s) => ClassHeight(s) case None => 0)
  }

  ghost function InterfaceHeight(c: Class, i: nat): nat
    requires i <= |c.interfaces|
    decreases c, i
  {
    if i == 0 then 0 else Max(InterfaceHeight(c, i - 1), ClassHeight(c.interfaces[i - 1]))
  }

  lemma {:induction false} HigherUp(c: Class, d: Class)
    requires d in Supers(c) && d != c
    ensures ClassHeight(d) < ClassHeight(c)
    decreases c, |c.interfaces| + 1
  {
    if d in InterfaceSupers(c, |c.interfaces|) {
      InterfaceHigherUp(c, |c.interfaces|, d);
    } else if d != c.superclass.value {
      HigherUp(c.superclass.value, d);
    }
  }

  lemma {:induction false} InterfaceHigherUp(c: Class, i: nat, d: Class)
    requires i <= |c.interfaces| && d in InterfaceSupers(c, i)
    ensures ClassHeight(d) <= InterfaceHeight(c, i)
    decreases c, i
  {
    if d in InterfaceSupers(c, i - 1) {
      InterfaceHigherUp(c, i - 1, d);
    } else if d != c.interfaces[i - 1] {
      HigherUp(c.interfaces[i - 1], d);
    }
  }

  /** No two classes are supertypes of each other. */
  lemma SupersAntisymmetric(c: Class, d: Class)
    requires d in Supers(c) && c in Supers(d)
    ensures c == d
  {
    if c != d {
      HigherUp(c, d);
      HigherUp(d, c);
    }
  }

  // ---------- fields and objects ----------

  /** A declared field; of an array field the component type counts. */
  datatype Field = Field(owner: Class, name: string, type': Class, isArray: bool)

  datatype Value = Null | One(obj: Obj) | Many(component: Class, items: seq<Obj?>)

  /** An object as it is during one call: its class and what its fields hold. */
  class Obj {
    const clazz: Class
    const fields: map<Field, Value>

    constructor (clazz: Class, fields: map<Field, Value>)
      ensures this.clazz == clazz && this.fields == fields
    {
      this.clazz, this.fields := clazz, fields;
    }
  }

  predicate IsInstance(o: Obj, c: Class) {
    c in Supers(o.clazz)
  }

  function Items(v: Value): (r: set<Obj>)
    ensures forall o | o in r :: v == One(o) || (v.Many? && o in v.items)
    ensures v.One? ==> v.obj in r
    ensures v.Many? ==> forall o: Obj? | o in v.items && o != null :: o in r
  {
    match v
    case Null => {}
    case One(o) => {o}
    case Many(_, items) => set o: Obj? | o in items && o != null
  }

  /** Which fields each class declares itself. */
  type Schema = map<Class, set<Field>>

  /** `getFields`: the fields declared in a class and in its supertypes. */
  function FieldsOf(schema: Schema, c: Class): set<Field> {
    set d, f | d in Supers(c) && d in schema && f in schema[d] :: f
  }

  /** The fields of an object are those of its class, and hold what their types allow. */
  ghost predicate Conforms(schema: Schema, o: Obj) {
    && o.fields.Keys == FieldsOf(schema, o.clazz)
    && forall f | f in o.fields :: Fits(f, o.fields[f])
  }

  ghost predicate Fits(f: Field, v: Value) {
    match v
    case Null => true
    case One(o) => !f.isArray && IsInstance(o, f.type')
    case Many(c, items) =>
      f.isArray && f.type' in Supers(c) && forall o: Obj? | o in items && o != null :: IsInstance(o, c)
  }

  predicate IsAssignable(c: Class, f: Field) {
    c in Supers(f.type')
  }

  /** `isReferrer` for the fields that `getReferringFields` selects. */
  ghost predicate Sees(o: Obj, r: Obj) {
    exists f :: f in o.fields && IsAssignable(r.clazz, f) && r in Items(o.fields[f])
  }

  /** An object refers to another one through a field: the field holds it, or an array that has it. */
  ghost predicate Refers(o: Obj, f: Field, r: Obj) {
    f in o.fields && (o.fields[f] == One(r) || (o.fields[f].Many? && r in o.fields[f].items))
  }

  lemma HeldType(f: Field, v: Value, r: Obj)
    requires Fits(f, v) && r in Items(v)
    ensures f.type' in Supers(r.clazz)
  {
    if v.Many? { SupersTransitive(r.clazz, v.component); }
  }

  /** A reference is seen exactly if it is held in a field declared with the very class of the object
      referred to: in a field declared with a supertype of that class it is missed. */
  lemma SeesExactly(schema: Schema, o: Obj, r: Obj)
    requires Conforms(schema, o)
    ensures Sees(o, r) <==> exists f :: Refers(o, f, r) && f.type' == r.clazz
  {
    if Sees(o, r) {
      var f :| f in o.fields && IsAssignable(r.clazz, f) && r in Items(o.fields[f]);
      HeldType(f, o.fields[f], r);
      SupersAntisymmetric(r.clazz, f.type');
      assert Refers(o, f, r);
    }
    if f :| Refers(o, f, r) && f.type' == r.clazz {
      SupersIsClosure(r.clazz);
    }
  }

  /** `getReferringFields` by its loop. */
  method GetReferringFields(schema: Schema, c: Class, reference: Obj) returns (referringFields: set<Field>)
    ensures forall f :: f in referringFields <==> f in FieldsOf(schema, c) && IsAssignable(reference.clazz, f)
  {
    referringFields := {};
    var todo := FieldsOf(schema, c);
    while todo != {}
      invariant todo <= FieldsOf(schema, c)
      invariant forall f ::
        f in referringFields <==> f in FieldsOf(schema, c) - todo && IsAssignable(reference.clazz, f)
    {
      var f :| f in todo;
      todo := todo - {f};
      if IsAssignable(reference.clazz, f) {
        referringFields := referringFields + {f};
      }
    }
  }

  method IsReferrer(possibleReferrer: Obj, referringFields: set<Field>, reference: Obj) returns (r: bool)
    requires referringFields <= possibleReferrer.fields.Keys
    ensures r <==> exists f :: f in referringFields && Refers(possibleReferrer, f, reference)
  {
    var todo := referringFields;
    while todo != {}
      invariant todo <= referringFields
      invariant forall f | f in referringFields - todo :: reference !in Items(possibleReferrer.fields[f])
    {
      var f :| f in todo;
      todo := todo - {f};
      if reference in Items(possibleReferrer.fields[f]) {
        return true;
      }
    }
    return false;
  }

  /** What an object holds in the fields that are declared with `c` or a subtype of it. */
  function Held(o: Obj, c: Class): set<Obj> {
    set f, r | f in o.fields && IsAssignable(c, f) && r in Items(o.fields[f]) :: r
  }

  lemma HeldExactly(o: Obj, c: Class, r: Obj)
    ensures r in Held(o, c) <==> exists f :: Refers(o, f, r) && c in Supers(f.type')
  {
    if f :| Refers(o, f, r) && c in Supers(f.type') {
      assert r in Items(o.fields[f]);
    }
  }

  method GetReferredObjects(objects: set<Obj>, c: Class) returns (result: set<Obj>)
    ensures forall r :: r in result <==> exists o :: o in objects && r in Held(o, c)
    ensures forall r :: r in result <==> exists o, f :: o in objects && Refers(o, f, r) && c in Supers(f.type')
  {
    result := {};
    var todo := objects;
    while todo != {}
      invariant todo <= objects
      invariant forall r :: r in result <==> exists o :: o in objects - todo && r in Held(o, c)
    {
      var o :| o in todo;
      result := result + Held(o, c);
      todo := todo - {o};
    }
    forall r ensures r in result <==> exists o, f :: o in objects && Refers(o, f, r) && c in Supers(f.type') {
      forall o | o in objects { HeldExactly(o, c, r); }
    }
  }
}
