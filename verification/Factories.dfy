/** Properties of contents kept in step with those of a prototype. */
module Factories {
  import opened Sequences

  class Property {
    const kind: string
    const choice: bool  // whether the kind of property has a provider of choices
    var serial: int
    var name: string
    var value: string
    var provider: string

    constructor (kind: string, choice: bool, serial: int, name: string, value: string, provider: string)
      ensures this.kind == kind && this.choice == choice && this.serial == serial && this.name == name
      ensures this.value == value && this.provider == provider
    {
      this.kind, this.choice, this.serial := kind, choice, serial;
      this.name, this.value, this.provider := name, value, provider;
    }

    /** Name and choices go to the clone; its value stays. A property with choices throws after the
        renaming if the clone is of another kind. */
    method CloneTo(clone: Property) returns (ok: bool)
      modifies clone`name, clone`provider
      ensures clone.name == name && ok == Casts(this, Some(clone))
      ensures clone.provider == if choice && ok then provider else old(clone.provider)
    {
      clone.name := name;
      ok := !choice || clone.kind == kind;
      if choice && ok {
        clone.provider := provider;
      }
    }

    method Copy() returns (copy: Property)
      ensures fresh(copy) && copy.kind == kind && copy.serial == serial && copy.name == name && copy.value == value
    {
      copy := new Property(kind, choice, serial, name, value, provider);
    }
  }

  /** A property with choices can be cloned to the one found, if any. */
  ghost predicate Casts(p: Property, found: Option<Property>) {
    p.choice && found.Some? ==> found.value.kind == p.kind
  }

  ghost function Serials(s: set<Property>): map<Property, int>
    reads s`serial
  {
    map p | p in s :: p.serial
  }

  /** The last of the clones with this serial, which is not 0. */
  ghost function WithSerial<P>(serials: map<P, int>, clones: seq<P>, n: int): (r: Option<P>)
    requires forall c | c in clones :: c in serials
    ensures r.Some? ==> r.value in clones && serials[r.value] == n && n != 0
    ensures r.None? && n != 0 ==> forall c | c in clones :: serials[c] != n
  {
    if clones == [] then None
    else
      var last := clones[|clones| - 1];
      if serials[last] == n && n != 0 then Some(last) else WithSerial(serials, clones[..|clones| - 1], n)
  }

  /** The clones without serial, in order. */
  ghost function Unnumbered<P>(serials: map<P, int>, clones: seq<P>): (r: seq<P>)
    requires forall c | c in clones :: c in serials
    ensures forall c | c in r :: c in clones && serials[c] == 0
  {
    if clones == [] then []
    else
      var last := clones[|clones| - 1];
      Unnumbered(serials, clones[..|clones| - 1]) + if serials[last] == 0 then [last] else []
  }

  /** The properties follow the prototypes: first one for each, in order, then those without serial. */
  ghost predicate Aligned<P>(serials: map<P, int>, prototypes: seq<P>, properties: seq<P>) {
    && (forall p | p in prototypes :: p in serials) && (forall p | p in properties :: p in serials)
    && |prototypes| <= |properties|
    && (forall i | 0 <= i < |prototypes| :: serials[properties[i]] == serials[prototypes[i]])
    && forall i | |prototypes| <= i < |properties| :: serials[properties[i]] == 0
  }

  ghost predicate Distinct<P>(serials: map<P, int>, prototypes: seq<P>) {
    && (forall p | p in prototypes :: p in serials && serials[p] != 0)
    && forall i, j | 0 <= i < j < |prototypes| :: serials[prototypes[i]] != serials[prototypes[j]]
  }

  lemma {:induction false} WithSerialIs<P>(serials: map<P, int>, clones: seq<P>, i: nat)
    requires (forall c | c in clones :: c in serials) && i < |clones| && serials[clones[i]] != 0
    requires forall j | i < j < |clones| :: serials[clones[j]] != serials[clones[i]]
    ensures WithSerial(serials, clones, serials[clones[i]]) == Some(clones[i])
  {
    if i < |clones| - 1 { WithSerialIs(serials, clones[..|clones| - 1], i); }
  }

  lemma {:induction false} UnnumberedNone<P>(serials: map<P, int>, clones: seq<P>)
    requires forall c | c in clones :: c in serials && serials[c] != 0
    ensures Unnumbered(serials, clones) == []
  {
    if clones != [] { UnnumberedNone(serials, clones[..|clones| - 1]); }
  }

  lemma {:induction false} UnnumberedIs<P>(serials: map<P, int>, clones: seq<P>, n: nat)
    requires (forall c | c in clones :: c in serials) && n <= |clones|
    requires forall i | 0 <= i < n :: serials[clones[i]] != 0
    requires forall i | n <= i < |clones| :: serials[clones[i]] == 0
    ensures Unnumbered(serials, clones) == clones[n..]
  {
    if n < |clones| {
      UnnumberedIs(serials, clones[..|clones| - 1], n);
      FrontBack(clones, n);
    } else {
      UnnumberedNone(serials, clones);
    }
  }

  lemma FrontBack<P>(s: seq<P>, n: nat)
    requires n < |s|
    ensures s[..|s| - 1][n..] + [s[|s| - 1]] == s[n..]
  {}

  /** Properties that are in step with prototypes of different serials are found again, all in place. */
  lemma AlignedFound<P>(serials: map<P, int>, prototypes: seq<P>, properties: seq<P>)
    requires Aligned(serials, prototypes, properties) && Distinct(serials, prototypes)
    ensures forall i | 0 <= i < |prototypes| ::
      WithSerial(serials, properties, serials[prototypes[i]]) == Some(properties[i])
    ensures Unnumbered(serials, properties) == properties[|prototypes|..]
  {
    forall i | 0 <= i < |prototypes|
      ensures WithSerial(serials, properties, serials[prototypes[i]]) == Some(properties[i])
    {
      WithSerialIs(serials, properties, i);
    }
    UnnumberedIs(serials, properties, |prototypes|);
  }

  /** The array without its empty places. */
  ghost function NonNull(s: seq<Property?>): (r: seq<Property>)
    ensures forall p | p in r :: p in s
  {
    if s == [] then []
    else
      var last := s[|s| - 1];
      NonNull(s[..|s| - 1]) + if last != null then [last] else []
  }

  /** The map by serial and the rest hold what was seen of the clones so far. */
  ghost predicate Sorted(serials: map<Property, int>, seen: seq<Property>, bySerial: map<int, Property>,
                         loose: seq<Property>)
  {
    && (forall c | c in seen :: c in serials) && loose == Unnumbered(serials, seen)
    && (forall n | n in bySerial :: WithSerial(serials, seen, n) == Some(bySerial[n]))
    && forall n | n !in bySerial :: WithSerial(serials, seen, n) == None
  }

  lemma SortedNext(serials: map<Property, int>, seen: seq<Property>, bySerial: map<int, Property>, loose: seq<Property>,
                   c: Property)
    requires Sorted(serials, seen, bySerial, loose) && c in serials
    ensures serials[c] != 0 ==> Sorted(serials, seen + [c], bySerial[serials[c] := c], loose)
    ensures serials[c] == 0 ==> Sorted(serials, seen + [c], bySerial, loose + [c])
  {
    assert (seen + [c])[..|seen|] == seen;
    assert loose + [] == loose;
  }

  /** The first loop of `sync`. */
  method SortClones(clones: seq<Property?>, ghost serials: map<Property, int>)
    returns (bySerial: map<int, Property>, loose: seq<Property>)
    requires forall c | c in NonNull(clones) :: c in serials && serials[c] == c.serial
    ensures Sorted(serials, NonNull(clones), bySerial, loose)
  {
    bySerial, loose := map[], [];
    for i := 0 to |clones|
      invariant Sorted(serials, NonNull(clones[..i]), bySerial, loose)
    {
      NonNullNext(clones, i);
      if clones[i] != null {
        var clone: Property := clones[i];
        NonNullHas(clones, i);
        SortedNext(serials, NonNull(clones[..i]), bySerial, loose, clone);
        if clone.serial != 0 {
          bySerial := bySerial[clone.serial := clone];
        } else {
          loose := loose + [clone];
        }
      }
    }
    assert clones[..|clones|] == clones;
  }

  lemma NonNullNext(s: seq<Property?>, i: nat)
    requires i < |s|
    ensures NonNull(s[..i + 1]) == NonNull(s[..i]) + if s[i] != null then [s[i]] else []
    ensures s[i] == null ==> NonNull(s[..i + 1]) == NonNull(s[..i])
  {
    assert s[..i + 1][..i] == s[..i];
  }

  lemma {:induction false} NonNullHas(s: seq<Property?>, i: nat)
    requires i < |s| && s[i] != null
    ensures s[i] in NonNull(s)
  {
    if i < |s| - 1 { NonNullHas(s[..|s| - 1], i); }
  }

  /** What becomes of one prototype: the clone with its serial, or a new copy. */
  twostate predicate Becomes(prototype: Property, found: Option<Property>, new property: Property)
    reads prototype, property
  {
    match found
    case Some(clone) => property == clone
    case None =>
      && fresh(property) && property.serial == prototype.serial
      && property.value == prototype.value && property.kind == prototype.kind
  }

  /** One turn of the second loop. */
  method FollowOne(prototype: Property, clone: Property?) returns (ok: bool, property: Property)
    modifies (if clone != null then {clone} else {})`name, (if clone != null then {clone} else {})`provider
    ensures ok == Casts(prototype, if clone != null then Some(clone) else None)
    ensures property.name == prototype.name
    ensures Becomes(prototype, if clone != null then Some(clone) else None, property)
  {
    if clone != null {
      ok := prototype.CloneTo(clone);
      property := clone;
    } else {
      property := prototype.Copy();
      ok := true;
    }
  }

  lemma SortedFinds(serials: map<Property, int>, seen: seq<Property>, bySerial: map<int, Property>,
                    loose: seq<Property>, n: int)
    requires Sorted(serials, seen, bySerial, loose)
    ensures WithSerial(serials, seen, n) == if n in bySerial then Some(bySerial[n]) else None
    ensures n in bySerial ==> bySerial[n] in seen && serials[bySerial[n]] == n
  {}

  /** The property can follow the prototype once more. */
  ghost predicate SameSort(p: Property, q: Property)
    reads p`serial, q`serial
  {
    p.serial == q.serial && Casts(p, Some(q))
  }

  /** The second loop; it ends at the first prototype that throws. */
  method FollowAll(prototypes: seq<Property>, bySerial: map<int, Property>, ghost serials: map<Property, int>,
                   ghost known: set<Property>, ghost found: seq<Option<Property>>) returns (ok: bool, r: seq<Property>)
    requires serials == Serials(known) && |found| == |prototypes|
    requires forall i | 0 <= i < |prototypes| ::
      prototypes[i] in known && Matches(prototypes[i], bySerial, known, found[i])
    modifies known`name, known`provider
    ensures ok == forall i | 0 <= i < |prototypes| :: Casts(prototypes[i], found[i])
    ensures ok ==> |r| == |prototypes|
    ensures ok ==>
      forall i | 0 <= i < |prototypes| :: Becomes(prototypes[i], found[i], r[i]) && SameSort(prototypes[i], r[i])
    ensures forall i | 0 <= i < |r| :: r[i] in known || fresh(r[i])
    ensures ok && Distinct(serials, prototypes) ==>
      forall i | 0 <= i < |prototypes| :: r[i].name == prototypes[i].name
  {
    r := [];
    for i := 0 to |prototypes|
      invariant |r| == i
      invariant forall j | 0 <= j < i :: Becomes(prototypes[j], found[j], r[j]) && SameSort(prototypes[j], r[j])
      invariant forall j | 0 <= j < i :: Casts(prototypes[j], found[j])
      invariant forall j | 0 <= j < i :: r[j] in known || fresh(r[j])
      invariant Distinct(serials, prototypes) ==> forall j | 0 <= j < i :: r[j].name == prototypes[j].name
    {
      assert Matches(prototypes[i], bySerial, known, found[i]);
      var clone := if prototypes[i].serial in bySerial then bySerial[prototypes[i].serial] else null;
      var property;
      ok, property := FollowOne(prototypes[i], clone);
      if !ok {
        return;
      }
      r := r + [property];
    }
    ok := true;
  }

  /** The clone found for a prototype is known and has its serial. */
  ghost predicate Matches(prototype: Property, bySerial: map<int, Property>, known: set<Property>,
                          found: Option<Property>)
    reads prototype, known
  {
    if prototype.serial in bySerial then
      var clone := bySerial[prototype.serial];
      found == Some(clone) && clone in known && clone.serial == prototype.serial
    else found == None
  }

  ghost function Findings(serials: map<Property, int>, prototypes: seq<Property>, clones: seq<Property>)
    : (r: seq<Option<Property>>)
    requires (forall p | p in prototypes :: p in serials) && forall c | c in clones :: c in serials
    ensures |r| == |prototypes|
    ensures forall i | 0 <= i < |r| :: r[i] == WithSerial(serials, clones, serials[prototypes[i]])
  {
    seq(|prototypes|, i requires 0 <= i < |prototypes| => WithSerial(serials, clones, serials[prototypes[i]]))
  }

  /** The first loop finds the clone for every prototype. */
  method FindClones(prototypes: seq<Property>, clones: seq<Property?>, ghost known: set<Property>,
                    ghost serials: map<Property, int>, ghost found: seq<Option<Property>>)
    returns (bySerial: map<int, Property>, loose: seq<Property>)
    requires (forall p | p in prototypes :: p in known) && forall c | c in NonNull(clones) :: c in known
    requires serials == Serials(known) && found == Findings(serials, prototypes, NonNull(clones))
    ensures forall i | 0 <= i < |prototypes| :: Matches(prototypes[i], bySerial, known, found[i])
    ensures serials == Serials(known) && loose == Unnumbered(serials, NonNull(clones))
  {
    bySerial, loose := SortClones(clones, serials);
    forall i | 0 <= i < |prototypes| ensures Matches(prototypes[i], bySerial, known, found[i]) {
      SortedFinds(serials, NonNull(clones), bySerial, loose, prototypes[i].serial);
    }
  }

  /** `sync`: for each prototype the clone with its serial, renamed but with its own value, or a copy;
      after them the clones without serial. It throws exactly if a prototype with choices finds a clone
      of another kind. With prototypes of different serials a second call finds everything in place. */
  method Sync(prototypes: seq<Property>, clones: seq<Property?>, ghost known: set<Property>)
    returns (ok: bool, r: seq<Property>)
    requires (forall p | p in prototypes :: p in known) && forall c | c in NonNull(clones) :: c in known
    modifies known`name, known`provider
    ensures ok == AllCast(prototypes, Findings(Serials(known), prototypes, NonNull(clones)))
    ensures ok ==> |r| == |prototypes| + |Unnumbered(Serials(known), NonNull(clones))|
    ensures ok ==> r[|prototypes|..] == Unnumbered(Serials(known), NonNull(clones))
    ensures ok ==> forall i | 0 <= i < |prototypes| ::
      && Becomes(prototypes[i], Findings(Serials(known), prototypes, NonNull(clones))[i], r[i])
      && SameSort(prototypes[i], r[i])
    ensures forall p | p in r :: p in known || fresh(p)
    ensures ok && Distinct(Serials(known), prototypes) ==>
      forall i | 0 <= i < |prototypes| :: r[i].name == prototypes[i].name
    ensures ok && Distinct(Serials(known), prototypes) && Aligned(Serials(known), prototypes, NonNull(clones)) ==>
      r == NonNull(clones)
  {
    ghost var serials, present := Serials(known), NonNull(clones);
    ghost var found := Findings(serials, prototypes, present);
    var bySerial, loose := FindClones(prototypes, clones, known, serials, found);
    ok, r := FollowAll(prototypes, bySerial, serials, known, found);
    if !ok {
      return;
    }
    if Distinct(serials, prototypes) && Aligned(serials, prototypes, present) {
      AlignedFound(serials, prototypes, present);
      assert forall i | 0 <= i < |prototypes| :: r[i] == present[i];
      assert r == present[..|prototypes|];
    }
    r := r + loose;
  }

  ghost predicate AllCast(prototypes: seq<Property>, found: seq<Option<Property>>) {
    |found| == |prototypes| && forall i | 0 <= i < |prototypes| :: Casts(prototypes[i], found[i])
  }

  lemma {:induction false} NonNullSame(s: seq<Property?>, r: seq<Property>)
    requires s == r
    ensures NonNull(s) == r
  {
    if s != [] { NonNullSame(s[..|s| - 1], r[..|r| - 1]); }
  }

  /** What one call returns is fit for the next. */
  lemma SyncedReady(prototypes: seq<Property>, r: seq<Property>, known: set<Property>, all: set<Property>)
    requires (forall p | p in prototypes :: p in known && p in all) && (forall p | p in r :: p in all)
    requires Distinct(Serials(known), prototypes) && |prototypes| <= |r|
    requires forall i | 0 <= i < |prototypes| :: SameSort(prototypes[i], r[i])
    requires forall i | |prototypes| <= i < |r| :: r[i].serial == 0
    ensures Aligned(Serials(all), prototypes, r) && Distinct(Serials(all), prototypes)
    ensures AllCast(prototypes, Findings(Serials(all), prototypes, r))
  {
    AlignedFound(Serials(all), prototypes, r);
  }

  lemma UnnumberedSerials(known: set<Property>, r: seq<Property>, n: nat, clones: seq<Property>)
    requires n <= |r| && (forall c | c in clones :: c in known) && r[n..] == Unnumbered(Serials(known), clones)
    ensures forall i | n <= i < |r| :: r[i].serial == 0
  {
    forall i | n <= i < |r| ensures r[i].serial == 0 {
      assert r[i] == r[n..][i - n];
      assert r[i] in Unnumbered(Serials(known), clones);
    }
  }

  /** One call with prototypes of different serials. */
  method SyncOnce(prototypes: seq<Property>, clones: seq<Property?>, ghost present: seq<Property>,
                  ghost known: set<Property>)
    returns (ok: bool, r: seq<Property>, ghost all: set<Property>)
    requires present == NonNull(clones)
    requires (forall p | p in prototypes :: p in known) && forall c | c in present :: c in known
    requires Distinct(Serials(known), prototypes)
    modifies known`name, known`provider
    ensures ok == AllCast(prototypes, Findings(Serials(known), prototypes, present))
    ensures known <= all && (forall p | p in all :: p in known || fresh(p)) && forall p | p in r :: p in all
    ensures ok ==> Next(prototypes, r, all)
    ensures ok && Aligned(Serials(known), prototypes, present) ==> r == present
  {
    ok, r := Sync(prototypes, clones, known);
    all := known + set p | p in r;
    if ok {
      UnnumberedSerials(known, r, |prototypes|, present);
      SyncedReady(prototypes, r, known, all);
    }
  }

  ghost predicate Next(prototypes: seq<Property>, r: seq<Property>, all: set<Property>)
    reads all, prototypes, r
  {
    && Aligned(Serials(all), prototypes, r) && Distinct(Serials(all), prototypes)
    && AllCast(prototypes, Findings(Serials(all), prototypes, r))
  }

  /** Two calls in a row, with prototypes of different serials: if the first one does not throw, neither
      does the second, and it returns what the first did, the very same properties in the same order. */
  method SyncTwice(prototypes: seq<Property>, clones: seq<Property?>, ghost known: set<Property>)
    returns (ok: bool, again: bool, first: seq<Property>, second: seq<Property>)
    requires (forall p | p in prototypes :: p in known) && forall c | c in NonNull(clones) :: c in known
    requires Distinct(Serials(known), prototypes)
    modifies known`name, known`provider
    ensures ok == AllCast(prototypes, Findings(Serials(known), prototypes, NonNull(clones)))
    ensures ok ==> again && second == first
  {
    ghost var all;
    ok, first, all := SyncOnce(prototypes, clones, NonNull(clones), known);
    again, second := false, [];
    if ok {
      NonNullSame(first, first);
      again, second, all := SyncOnce(prototypes, first, first, all);
    }
  }
}
