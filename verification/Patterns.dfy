/** `String.replaceFirst` with an empty replacement, for patterns of letters, `.` and `*`: of the
    characters that an id may have, only these two mean more than themselves. */
module Patterns {
  import opened Sequences

  /** A letter, once or any number of times; the letter `.` stands for all others as well. */
  datatype Piece = Piece(letter: char, many: bool)

  predicate Takes(p: Piece, c: char) {
    if p.letter == '.' then c !in ['\n', '\r', '\U{85}', '\U{2028}', '\U{2029}'] else c == p.letter
  }

  /** The pattern that a string stands for; none if a star has no letter before it. */
  function Pieces(pattern: string): Option<seq<Piece>> {
    if pattern == "" then Some([])
    else if pattern[0] == '*' then None
    else
      var many := |pattern| > 1 && pattern[1] == '*';
      match Pieces(pattern[if many then 2 else 1..])
      case None => None
      case Some(rest) => Some([Piece(pattern[0], many)] + rest)
  }

  /** How much of the start of `s` the pattern takes: as much as it can, piece by piece, and less where
      the later pieces would find no place otherwise. */
  function Match(ps: seq<Piece>, s: string): (n: Option<nat>)
    ensures n.Some? ==> n.value <= |s|
    decreases |ps| + |s|
  {
    if ps == [] then Some(0)
    else if s == "" || !Takes(ps[0], s[0]) then if ps[0].many then Match(ps[1..], s) else None
    else
      match Match(if ps[0].many then ps else ps[1..], s[1..])
      case Some(n) => Some(n + 1)
      case None => if ps[0].many then Match(ps[1..], s) else None
  }

  /** The first place where the pattern matches is cut out. */
  function CutFirst(ps: seq<Piece>, s: string): (r: string)
    ensures |r| <= |s|
  {
    match Match(ps, s)
    case Some(n) => s[n..]
    case None => if s == "" then s else [s[0]] + CutFirst(ps, s[1..])
  }

  /** `s.replaceFirst(pattern, "")`; none stands for the exception that a bad pattern throws. */
  function RemoveFirst(s: string, pattern: string): (r: Option<string>)
    ensures r.Some? ==> |r.value| <= |s|
  {
    match Pieces(pattern)
    case None => None
    case Some(ps) => Some(CutFirst(ps, s))
  }

  // ---------- patterns without stars ----------

  lemma {:induction false} PlainMatch(a: string, b: string)
    requires '*' !in a
    ensures Pieces(a).Some? && Match(Pieces(a).value, a + b) == Some(|a|)
  {
    if a == "" {
      assert a + b == b;
    } else {
      PlainMatch(a[1..], b);
      assert (a + b)[1..] == a[1..] + b;
      assert Pieces(a) == Some([Piece(a[0], false)] + Pieces(a[1..]).value);
    }
  }

  /** Without a star, a string as a pattern finds itself. */
  lemma RemovePrefix(a: string, b: string)
    requires '*' !in a
    ensures RemoveFirst(a + b, a) == Some(b)
  {
    PlainMatch(a, b);
  }

  // ---------- stars stay ----------

  /** How many stars there are in a string. */
  function Stars(s: string): nat {
    if s == "" then 0 else (if s[0] == '*' then 1 else 0) + Stars(s[1..])
  }

  lemma {:induction false} StarsAdd(a: string, b: string)
    ensures Stars(a + b) == Stars(a) + Stars(b)
  {
    if a == "" {
      assert a + b == b;
    } else {
      assert (a + b)[1..] == a[1..] + b;
      StarsAdd(a[1..], b);
    }
  }

  lemma {:induction false} StarsNone(s: string)
    ensures Stars(s) == 0 <==> '*' !in s
  {
    if s != "" { StarsNone(s[1..]); }
  }

  /** None of these pieces takes a star. */
  ghost predicate Starless(ps: seq<Piece>) {
    forall p | p in ps :: p.letter != '.' && p.letter != '*'
  }

  lemma {:induction false} PiecesStarless(pattern: string)
    requires '.' !in pattern && Pieces(pattern).Some?
    ensures Starless(Pieces(pattern).value)
  {
    if pattern != "" {
      PiecesStarless(pattern[if |pattern| > 1 && pattern[1] == '*' then 2 else 1..]);
    }
  }

  lemma {:induction false} MatchStarless(ps: seq<Piece>, s: string)
    requires Starless(ps) && Match(ps, s).Some?
    ensures Stars(s[Match(ps, s).value..]) == Stars(s)
    decreases |ps| + |s|
  {
    if ps != [] {
      if s != "" && Takes(ps[0], s[0]) && Match(if ps[0].many then ps else ps[1..], s[1..]).Some? {
        MatchStarless(if ps[0].many then ps else ps[1..], s[1..]);
        assert s[1..][Match(ps, s).value - 1..] == s[Match(ps, s).value..];
      } else {
        MatchStarless(ps[1..], s);
      }
    } else {
      assert s[0..] == s;
    }
  }

  lemma {:induction false} CutStarless(ps: seq<Piece>, s: string)
    requires Starless(ps)
    ensures Stars(CutFirst(ps, s)) == Stars(s)
  {
    if Match(ps, s).Some? {
      MatchStarless(ps, s);
    } else if s != "" {
      CutStarless(ps, s[1..]);
      StarsAdd([s[0]], CutFirst(ps, s[1..]));
      StarsAdd([s[0]], s[1..]);
      assert [s[0]] + s[1..] == s;
    }
  }

  /** A pattern without `.` cuts out no star: in a pattern the stars of a string stand for none. */
  lemma RemoveStarless(s: string, pattern: string)
    requires '.' !in pattern && RemoveFirst(s, pattern).Some?
    ensures Stars(RemoveFirst(s, pattern).value) == Stars(s)
  {
    PiecesStarless(pattern);
    CutStarless(Pieces(pattern).value, s);
  }

  lemma {:induction false} CutIn(ps: seq<Piece>, s: string, c: char)
    requires c in CutFirst(ps, s)
    ensures c in s
  {
    if Match(ps, s).None? && s != "" && c != s[0] { CutIn(ps, s[1..], c); }
  }
}
