/** Purging old revisions of a content. */
module Revisions {
  import opened Sequences

  datatype Version = Version(info: string, lastModified: int)

  const DAY := 24 * 3600 * 1000

  /** The versions that are younger than the given moment, in order. */
  ghost function Younger(s: seq<Version>, moment: int): (r: seq<Version>)
    ensures |r| <= |s|
  {
    if s == [] then [] else (if s[0].lastModified > moment then [s[0]] else []) + Younger(s[1..], moment)
  }

  function Smaller(a: int, b: int): int {
    if a < b then a else b
  }

  function Larger(a: int, b: int): int {
    if a < b then b else a
  }

  /** The revisions that are kept: the first `count`, and of the others the young ones; a setting that
      is not positive contributes nothing. */
  ghost function Purged(s: seq<Version>, count: int, days: int, now: int): seq<Version> {
    Kept(s, Larger(count, 0), days > 0, now - days * DAY)
  }

  ghost function Kept(s: seq<Version>, c: nat, young: bool, moment: int): seq<Version> {
    var first := Smaller(c, |s|);
    s[..first] + Rest(s[first..], young, moment)
  }

  ghost function Rest(s: seq<Version>, young: bool, moment: int): seq<Version> {
    if young then Younger(s, moment) else []
  }

  lemma YoungerNext(s: seq<Version>, i: nat, moment: int, r: seq<Version>)
    requires i < |s|
    ensures r + Younger(s[i..], moment) ==
      (if s[i].lastModified > moment then r + [s[i]] else r) + Younger(s[i + 1..], moment)
  {
    assert s[i..][1..] == s[i + 1..];
  }

  /** The newest revision is the first. */
  ghost predicate NewestFirst(s: seq<Version>) {
    forall i, j | 0 <= i < j < |s| :: s[i].lastModified >= s[j].lastModified
  }

  lemma {:induction false} OldStayOld(s: seq<Version>, moment: int)
    requires forall v | v in s :: v.lastModified <= moment
    ensures Younger(s, moment) == []
  {
    if s != [] { OldStayOld(s[1..], moment); }
  }

  lemma {:induction false} YoungerIsPrefix(s: seq<Version>, moment: int)
    requires NewestFirst(s)
    ensures Younger(s, moment) == s[..|Younger(s, moment)|]
  {
    if s != [] {
      if s[0].lastModified > moment {
        YoungerIsPrefix(s[1..], moment);
      } else {
        OldStayOld(s, moment);
      }
    }
  }

  lemma {:induction false} YoungerSplits(s: seq<Version>, n: nat, moment: int)
    requires n <= |s|
    ensures Younger(s, moment) == Younger(s[..n], moment) + Younger(s[n..], moment)
  {
    if n > 0 {
      YoungerSplits(s[1..], n - 1, moment);
      assert s[1..][..n - 1] == s[..n][1..] && s[1..][n - 1..] == s[n..];
    } else {
      assert s[..0] == [] && s[0..] == s;
    }
  }

  lemma {:induction false} YoungAll(s: seq<Version>, moment: int)
    requires forall v | v in s :: v.lastModified > moment
    ensures Younger(s, moment) == s
  {
    if s != [] { YoungAll(s[1..], moment); }
  }

  /** If any beyond the first `n` is young, all of the first `n` are. */
  lemma {:induction false} AllYoung(s: seq<Version>, n: nat, moment: int)
    requires NewestFirst(s) && n < |s| && Younger(s[n..], moment) != []
    ensures |Younger(s[..n], moment)| == n
  {
    if s[n].lastModified <= moment { OldStayOld(s[n..], moment); }
    YoungAll(s[..n], moment);
  }

  /** How many are young beyond the first `n`. */
  lemma YoungBeyond(s: seq<Version>, n: nat, moment: int)
    requires NewestFirst(s) && n <= |s|
    ensures |Younger(s[n..], moment)| == Larger(|Younger(s, moment)| - n, 0)
    ensures Younger(s[n..], moment) == s[n..][..|Younger(s[n..], moment)|]
  {
    YoungerSplits(s, n, moment);
    YoungerIsPrefix(s[n..], moment);
    if Younger(s[n..], moment) != [] { AllYoung(s, n, moment); }
  }

  /** The first `n` with the young ones beyond them. */
  lemma KeptIsPrefix(s: seq<Version>, n: nat, moment: int)
    requires NewestFirst(s) && n <= |s|
    ensures n + Larger(|Younger(s, moment)| - n, 0) <= |s|
    ensures s[..n] + Younger(s[n..], moment) == s[..n + Larger(|Younger(s, moment)| - n, 0)]
  {
    YoungBeyond(s, n, moment);
    Prefixes(s, n, |Younger(s[n..], moment)|);
  }

  /** On revisions with the newest first, a purge keeps exactly a prefix: as many as the larger of the
      count and the number of young ones, if there are so many. */
  lemma PurgedIsPrefix(s: seq<Version>, count: int, days: int, now: int)
    requires NewestFirst(s)
    ensures var young := if days > 0 then |Younger(s, now - days * DAY)| else 0;
      var kept := Smaller(|s|, Larger(count, young));
      kept >= 0 && Purged(s, count, days, now) == s[..kept]
  {
    if days > 0 {
      KeptIsPrefix(s, Smaller(Larger(count, 0), |s|), now - days * DAY);
    }
  }

  lemma {:induction false} YoungerExactly(s: seq<Version>, moment: int, v: Version)
    ensures v in Younger(s, moment) <==> v in s && v.lastModified > moment
  {
    if s != [] { YoungerExactly(s[1..], moment, v); }
  }

  /** Whatever the order: a version stays exactly if it is among the first ones up to the count, or younger
      than the given number of days. */
  lemma PurgedExactly(s: seq<Version>, count: int, days: int, now: int, v: Version)
    ensures v in Purged(s, count, days, now) <==>
      exists j :: 0 <= j < |s| && s[j] == v && (j < count || (days > 0 && v.lastModified > now - days * 86400000))
  {
    var c := Smaller(Larger(count, 0), |s|);
    YoungerExactly(s[c..], now - days * DAY, v);
    InParts(s, c, v);
    assert v in Purged(s, count, days, now) <==> v in s[..c] || (days > 0 && v in Younger(s[c..], now - days * DAY));
  }

  lemma InParts<T>(s: seq<T>, c: nat, v: T)
    requires c <= |s|
    ensures v in s[..c] <==> exists j :: 0 <= j < |s| && s[j] == v && j < c
    ensures v in s[c..] <==> exists j :: c <= j < |s| && s[j] == v
  {
    if j :| 0 <= j < |s| && s[j] == v && j < c { assert s[..c][j] == v; }
    if j :| c <= j < |s| && s[j] == v { assert s[c..][j - c] == v; }
  }

  lemma Prefixes<T>(s: seq<T>, n: nat, m: nat)
    requires n + m <= |s|
    ensures s[..n] + s[n..][..m] == s[..n + m]
  {}

  lemma {:induction false} YoungerAreYoung(s: seq<Version>, moment: int)
    ensures forall v | v in Younger(s, moment) :: v.lastModified > moment && v in s
  {
    if s != [] { YoungerAreYoung(s[1..], moment); }
  }

  lemma KeptTwice(s: seq<Version>, c: nat, young: bool, moment: int)
    ensures Kept(Kept(s, c, young, moment), c, young, moment) == Kept(s, c, young, moment)
  {
    var first := Smaller(c, |s|);
    var rest, r := Rest(s[first..], young, moment), Kept(s, c, young, moment);
    assert Smaller(c, |r|) == first;
    assert r[..first] == s[..first] && r[first..] == rest;
    if young {
      YoungerAreYoung(s[first..], moment);
      YoungAll(rest, moment);
    }
  }

  /** A second purge at the same moment removes nothing, whatever the order of the revisions. */
  lemma PurgedTwice(s: seq<Version>, count: int, days: int, now: int)
    ensures Purged(Purged(s, count, days, now), count, days, now) == Purged(s, count, days, now)
  {
    KeptTwice(s, Larger(count, 0), days > 0, now - days * DAY);
  }

  /** In the middle of a purge: all so far is kept, or what is kept so far and what will be kept of
      the rest make up the result. */
  ghost predicate Purging(s: seq<Version>, c: nat, young: bool, moment: int, i: nat, kept: seq<Version>) {
    i <= |s| &&
    if i < c then kept == s[..i]
    else c <= |kept| && c <= |s| && kept + Rest(s[i..], young, moment) == s[..c] + Rest(s[c..], young, moment)
  }

  lemma PurgingStart(s: seq<Version>, c: nat, young: bool, moment: int)
    ensures Purging(s, c, young, moment, 0, [])
  {
    assert s[..0] == [];
  }

  /** One of the first versions is kept. */
  lemma PurgingFirst(s: seq<Version>, c: nat, young: bool, moment: int, i: nat, kept: seq<Version>)
    requires Purging(s, c, young, moment, i, kept) && i < |s| && i < c
    ensures |kept| < c && Purging(s, c, young, moment, i + 1, kept + [s[i]])
  {
    assert s[..i] + [s[i]] == s[..i + 1];
  }

  /** One of the others is kept if it is young. */
  lemma PurgingRest(s: seq<Version>, c: nat, young: bool, moment: int, i: nat, kept: seq<Version>)
    requires Purging(s, c, young, moment, i, kept) && i < |s| && c <= i
    ensures |kept| >= c
    ensures Purging(s, c, young, moment, i + 1, if young && s[i].lastModified > moment then kept + [s[i]] else kept)
  {
    YoungerNext(s, i, moment, kept);
  }

  lemma PurgingEnd(s: seq<Version>, c: nat, young: bool, moment: int, kept: seq<Version>)
    requires Purging(s, c, young, moment, |s|, kept)
    ensures kept == Kept(s, c, young, moment)
  {
    assert s[|s|..] == [] && kept + [] == kept && s[..|s|] == s;
  }

  class Content {
    var revisions: Option<seq<Version>>

    constructor (revisions: Option<seq<Version>>)
      ensures this.revisions == revisions
    {
      this.revisions := revisions;
    }

    /** Returns how many revisions were removed; -1 stands for no limit. */
    method Purge(count: int, days: int, now: int) returns (removed: int)
      modifies this
      ensures revisions == if count == -1 || days == -1 || old(revisions).None? then old(revisions)
        else Some(Purged(old(revisions).value, count, days, now))
      ensures old(revisions).Some? ==> revisions.Some? && removed == |old(revisions).value| - |revisions.value|
      ensures old(revisions).None? ==> removed == 0
    {
      if count == -1 || days == -1 || revisions.None? {
        return 0;
      }
      var all := revisions.value;
      var daysInPast := now - days * DAY;
      var kept: seq<Version> := [];
      ghost var c := Larger(count, 0);
      PurgingStart(all, c, days > 0, daysInPast);
      for i := 0 to |all|
        invariant Purging(all, c, days > 0, daysInPast, i, kept)
      {
        if i < c {
          PurgingFirst(all, c, days > 0, daysInPast, i, kept);
        } else {
          PurgingRest(all, c, days > 0, daysInPast, i, kept);
        }
        if (count > 0 && |kept| < count) || (days > 0 && all[i].lastModified > daysInPast) {
          kept := kept + [all[i]];
        }
      }
      PurgingEnd(all, c, days > 0, daysInPast, kept);
      revisions := Some(kept);
      removed := |all| - |kept|;
    }
  }
}
