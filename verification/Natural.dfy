/** The natural order on strings: numbers inside a string count by value, text by a collator. */
module Natural {

  /** Which characters are digits, and how words that are not numbers compare. */
  datatype Script = Script(isDigit: char -> bool, collate: (string, string) -> int)

  function Sign(n: int): int {
    if n < 0 then -1 else if n > 0 then 1 else 0
  }

  /** How many characters at the start are digits, or are none. */
  function Span(k: Script, digits: bool, s: string): (n: nat)
    ensures n <= |s|
    ensures forall i | 0 <= i < n :: k.isDigit(s[i]) == digits
    ensures n < |s| ==> k.isDigit(s[n]) != digits
  {
    if s == "" || k.isDigit(s[0]) != digits then 0 else 1 + Span(k, digits, s[1..])
  }

  function Zeros(s: string): (n: nat)
    ensures n <= |s|
    ensures forall i | 0 <= i < n :: s[i] == '0'
    ensures n < |s| ==> s[n] != '0'
  {
    if s == "" || s[0] != '0' then 0 else 1 + Zeros(s[1..])
  }

  /** A count of leading characters is known by where it ends. */
  lemma {:induction false} SpanIs(k: Script, digits: bool, s: string, n: nat)
    requires n <= |s| && (forall i | 0 <= i < n :: k.isDigit(s[i]) == digits) && (n < |s| ==> k.isDigit(s[n]) != digits)
    ensures Span(k, digits, s) == n
  {}

  lemma {:induction false} ZerosAre(s: string, n: nat)
    requires n <= |s| && (forall i | 0 <= i < n :: s[i] == '0') && (n < |s| ==> s[n] != '0')
    ensures Zeros(s) == n
  {}

  /** The first difference of two strings of equal length. */
  function FirstDifference(x: string, y: string): int
    requires |x| == |y|
  {
    if x == "" then 0 else if x[0] != y[0] then x[0] as int - y[0] as int else FirstDifference(x[1..], y[1..])
  }

  /** Numbers without leading zeros: the longer one is larger, else the first different digit decides. */
  function Numeric(x: string, y: string): int {
    if |x| < |y| then -1 else if |x| > |y| then 1 else FirstDifference(x, y)
  }

  // ---------- the order, subword by subword ----------

  /** The first subword of a string that is not read as a number: a character and the text after it. */
  function Word(k: Script, s: string): (n: nat)
    requires s != ""
    ensures 0 < n <= |s|
  {
    1 + Span(k, false, s[1..])
  }

  function Order(k: Script, s: string, t: string): int
    decreases |s|
  {
    if s == "" && t == "" then 0
    else if s == "" then -1
    else if t == "" then 1
    else if k.isDigit(s[0]) && k.isDigit(t[0]) then
      var n, m := Span(k, true, s), Span(k, true, t);
      var x, y := Digits(k, s), Digits(k, t);
      if Numeric(x, y) != 0 then Numeric(x, y)
      else if x != "" && n == |s| && m == |t| then Zeros(s) - Zeros(t)
      else Order(k, s[n..], t[m..])
    else
      var a, b := s[..Word(k, s)], t[..Word(k, t)];
      if k.collate(a, b) != 0 then k.collate(a, b) else Order(k, s[|a|..], t[|b|..])
  }

  /** The number at the start of a string, without leading zeros. */
  function Digits(k: Script, s: string): string {
    var n := Span(k, true, s);
    if Zeros(s) <= n then s[Zeros(s)..n] else ""
  }

  // ---------- the order on token lists ----------

  datatype Token = Text(word: string) | Number(zeros: nat, digits: string)

  /** A string as the list of its maximal numbers and texts. */
  ghost function Tokens(k: Script, s: string): seq<Token>
    decreases |s|
  {
    if s == "" then []
    else if k.isDigit(s[0]) then
      [Number(Zeros(s), Digits(k, s))] + Tokens(k, s[Span(k, true, s)..])
    else [Text(s[..Word(k, s)])] + Tokens(k, s[Word(k, s)..])
  }

  /** Numbers by value, texts by the collator, and a text before or after all numbers. */
  ghost function TokenOrder(k: Script, x: Token, y: Token): int {
    match (x, y)
    case (Number(_, c), Number(_, d)) => Numeric(c, d)
    case (Text(v), Text(w)) => k.collate(v, w)
    case (Text(v), Number(_, _)) => k.collate(v, "0")
    case (Number(_, _), Text(w)) => -k.collate(w, "0")
  }

  /** Leading zeros decide only between two strings that end in equal numbers other than zero. */
  ghost function Tie(x: Token, y: Token): int {
    if x.Number? && y.Number? && x.digits != "" then x.zeros - y.zeros else 0
  }

  ghost function ListOrder(k: Script, a: seq<Token>, b: seq<Token>): int
    decreases |a|
  {
    if a == [] && b == [] then 0
    else if a == [] then -1
    else if b == [] then 1
    else if TokenOrder(k, a[0], b[0]) != 0 then TokenOrder(k, a[0], b[0])
    else if |a| == 1 && |b| == 1 then Tie(a[0], b[0])
    else ListOrder(k, a[1..], b[1..])
  }

  // ---------- what is asked of the collator ----------

  ghost predicate Symmetric(k: Script) {
    forall a, b :: Sign(k.collate(a, b)) == -Sign(k.collate(b, a))
  }

  ghost predicate Transitive(k: Script) {
    forall a, b, c :: k.collate(a, b) <= 0 && k.collate(b, c) <= 0 ==> k.collate(a, c) <= 0
  }

  ghost predicate AllText(k: Script, w: string) {
    forall c | c in w :: !k.isDigit(c)
  }

  /** A subword without digits. */
  ghost predicate IsText(k: Script, w: string) {
    w != "" && AllText(k, w)
  }

  /** A subword as it is read where a number meets a text: one digit and the text after it. */
  ghost predicate IsNumeral(k: Script, d: string) {
    d != "" && k.isDigit(d[0]) && AllText(k, d[1..])
  }

  /** Each text is before all numerals, or after all of them. */
  ghost predicate Separated(k: Script) {
    forall w, d {:trigger k.collate(w, d)} | IsText(k, w) && IsNumeral(k, d) ::
      Sign(k.collate(w, d)) == Sign(k.collate(w, "0")) && k.collate(w, "0") != 0
  }

  ghost predicate Fair(k: Script) {
    k.isDigit('0') && Symmetric(k) && Transitive(k) && Separated(k)
  }

  // ---------- numbers ----------

  lemma {:induction false} DifferenceSymmetric(x: string, y: string)
    requires |x| == |y|
    ensures FirstDifference(x, y) == -FirstDifference(y, x)
    ensures FirstDifference(x, y) == 0 ==> x == y
  {
    if x != "" && x[0] == y[0] {
      DifferenceSymmetric(x[1..], y[1..]);
      assert x == [x[0]] + x[1..] && y == [y[0]] + y[1..];
    }
  }

  lemma {:induction false} DifferenceTransitive(x: string, y: string, z: string)
    requires |x| == |y| == |z| && FirstDifference(x, y) <= 0 && FirstDifference(y, z) <= 0
    ensures FirstDifference(x, z) <= 0
  {
    if x != "" && x[0] == y[0] == z[0] { DifferenceTransitive(x[1..], y[1..], z[1..]); }
  }

  lemma NumericOrder(x: string, y: string, z: string)
    ensures Sign(Numeric(x, y)) == -Sign(Numeric(y, x))
    ensures Numeric(x, y) == 0 <==> x == y
    ensures Numeric(x, y) <= 0 && Numeric(y, z) <= 0 ==> Numeric(x, z) <= 0
  {
    if |x| == |y| { DifferenceSymmetric(x, y); }
    if x == y { DifferenceSame(x); }
    if |x| == |y| == |z| && Numeric(x, y) <= 0 && Numeric(y, z) <= 0 { DifferenceTransitive(x, y, z); }
  }

  lemma {:induction false} DifferenceSame(x: string)
    ensures FirstDifference(x, x) == 0
  {
    if x != "" { DifferenceSame(x[1..]); }
  }

  // ---------- tokens ----------

  /** A text holds no digit. */
  ghost predicate WellSplit(k: Script, x: Token) {
    x.Text? ==> IsText(k, x.word)
  }

  ghost predicate AllProper(k: Script, a: seq<Token>) {
    forall x | x in a :: WellSplit(k, x)
  }

  lemma TokenSymmetric(k: Script, x: Token, y: Token)
    requires Fair(k) && WellSplit(k, x) && WellSplit(k, y)
    ensures Sign(TokenOrder(k, x, y)) == -Sign(TokenOrder(k, y, x))
    ensures TokenOrder(k, x, y) == 0 ==> (x.Number? <==> y.Number?)
  {
    match (x, y)
    case (Number(_, c), Number(_, d)) => NumericOrder(c, d, c);
    case (Text(v), Text(w)) =>
    case (Text(v), Number(_, _)) => assert Sign(k.collate(v, "0")) == Sign(k.collate(v, "0"));
    case (Number(_, _), Text(w)) => assert Sign(k.collate(w, "0")) == Sign(k.collate(w, "0"));
  }

  /** A text that is not after another text stands to the numbers as the other, or before them. */
  lemma TokenTransitive(k: Script, x: Token, y: Token, z: Token)
    requires Fair(k) && WellSplit(k, x) && WellSplit(k, y) && WellSplit(k, z)
    requires TokenOrder(k, x, y) <= 0 && TokenOrder(k, y, z) <= 0
    ensures TokenOrder(k, x, z) <= 0
  {
    if x.Number? && y.Number? && z.Number? {
      NumericOrder(x.digits, y.digits, z.digits);
    } else {
      Middle(k, if x.Text? then x.word else "0", if y.Text? then y.word else "0", if z.Text? then z.word else "0");
    }
  }

  lemma Middle(k: Script, a: string, b: string, c: string)
    requires Fair(k)
    ensures k.collate(a, b) <= 0 && k.collate(b, c) <= 0 ==> k.collate(a, c) <= 0
    ensures Sign(k.collate(a, c)) == -Sign(k.collate(c, a))
    ensures Sign(k.collate(a, b)) == -Sign(k.collate(b, a))
    ensures Sign(k.collate(b, c)) == -Sign(k.collate(c, b))
  {}

  /** Equality goes along: a comparison that ends in a tie was a tie all along. */
  lemma TokenTie(k: Script, x: Token, y: Token, z: Token)
    requires Fair(k) && WellSplit(k, x) && WellSplit(k, y) && WellSplit(k, z)
    requires TokenOrder(k, x, y) <= 0 && TokenOrder(k, y, z) <= 0
    ensures TokenOrder(k, x, z) <= 0
    ensures TokenOrder(k, x, z) == 0 <==> TokenOrder(k, x, y) == 0 && TokenOrder(k, y, z) == 0
  {
    TokenSymmetric(k, x, y);
    TokenSymmetric(k, y, z);
    TokenSymmetric(k, x, z);
    TokenTransitive(k, x, y, z);
    if TokenOrder(k, x, z) == 0 {
      TokenTransitive(k, z, x, y);
      TokenTransitive(k, y, z, x);
    } else if TokenOrder(k, x, y) == 0 && TokenOrder(k, y, z) == 0 {
      TokenTransitive(k, z, y, x);
    }
  }

  // ---------- lists ----------

  lemma {:induction false} ListSymmetric(k: Script, a: seq<Token>, b: seq<Token>)
    requires Fair(k) && AllProper(k, a) && AllProper(k, b)
    ensures Sign(ListOrder(k, a, b)) == -Sign(ListOrder(k, b, a))
    decreases |a|
  {
    if a != [] && b != [] {
      TokenSymmetric(k, a[0], b[0]);
      if TokenOrder(k, a[0], b[0]) == 0 {
        SameDigits(k, a[0], b[0]);
        ListSymmetric(k, a[1..], b[1..]);
      }
    }
  }

  lemma SameDigits(k: Script, x: Token, y: Token)
    requires Fair(k) && WellSplit(k, x) && WellSplit(k, y) && TokenOrder(k, x, y) == 0
    ensures x.Number? <==> y.Number?
    ensures x.Number? ==> x.digits == y.digits
  {
    TokenSymmetric(k, x, y);
    if x.Number? { NumericOrder(x.digits, y.digits, x.digits); }
  }

  lemma {:induction false} ListTransitive(k: Script, a: seq<Token>, b: seq<Token>, c: seq<Token>)
    requires Fair(k) && AllProper(k, a) && AllProper(k, b) && AllProper(k, c)
    requires ListOrder(k, a, b) <= 0 && ListOrder(k, b, c) <= 0
    ensures ListOrder(k, a, c) <= 0
    decreases |a|
  {
    if a != [] && b != [] && c != [] {
      TokenTie(k, a[0], b[0], c[0]);
      if TokenOrder(k, a[0], c[0]) == 0 {
        SameDigits(k, a[0], b[0]);
        SameDigits(k, b[0], c[0]);
        if |a| == 1 && |b| == 1 && |c| == 1 {
        } else {
          RestOrder(k, a, b);
          RestOrder(k, b, c);
          RestOrder(k, a, c);
          ListTransitive(k, a[1..], b[1..], c[1..]);
        }
      }
    }
  }

  /** Beyond equal first tokens, the rests decide, unless both are empty. */
  lemma RestOrder(k: Script, a: seq<Token>, b: seq<Token>)
    requires a != [] && b != [] && TokenOrder(k, a[0], b[0]) == 0
    ensures |a| == 1 && |b| == 1 ==> ListOrder(k, a[1..], b[1..]) == 0
    ensures !(|a| == 1 && |b| == 1) ==> ListOrder(k, a, b) == ListOrder(k, a[1..], b[1..])
  {}

  lemma {:induction false} TokensProper(k: Script, s: string)
    ensures AllProper(k, Tokens(k, s))
    decreases |s|
  {
    if s != "" {
      TokensProper(k, s[if k.isDigit(s[0]) then Span(k, true, s) else Word(k, s)..]);
    }
  }

  lemma NumbersFirst(k: Script, s: string, t: string)
    requires Fair(k) && s != "" && t != "" && k.isDigit(s[0]) && k.isDigit(t[0])
    requires var x, y := s[Span(k, true, s)..], t[Span(k, true, t)..];
      Sign(Order(k, x, y)) == Sign(ListOrder(k, Tokens(k, x), Tokens(k, y)))
    ensures Sign(Order(k, s, t)) == Sign(ListOrder(k, Tokens(k, s), Tokens(k, t)))
  {}

  lemma TextsFirst(k: Script, s: string, t: string)
    requires Fair(k) && s != "" && t != "" && !k.isDigit(s[0]) && !k.isDigit(t[0])
    requires var x, y := s[Word(k, s)..], t[Word(k, t)..];
      Sign(Order(k, x, y)) == Sign(ListOrder(k, Tokens(k, x), Tokens(k, y)))
    ensures Sign(Order(k, s, t)) == Sign(ListOrder(k, Tokens(k, s), Tokens(k, t)))
  {}

  /** The walk over the subwords of both strings is the comparison of their token lists. */
  lemma {:induction false} OrderIsList(k: Script, s: string, t: string)
    requires Fair(k)
    ensures Sign(Order(k, s, t)) == Sign(ListOrder(k, Tokens(k, s), Tokens(k, t)))
    decreases |s|
  {
    if s != "" && t != "" {
      if k.isDigit(s[0]) && k.isDigit(t[0]) {
        OrderIsList(k, s[Span(k, true, s)..], t[Span(k, true, t)..]);
        NumbersFirst(k, s, t);
      } else if !k.isDigit(s[0]) && !k.isDigit(t[0]) {
        OrderIsList(k, s[Word(k, s)..], t[Word(k, t)..]);
        TextsFirst(k, s, t);
      } else {
        Apart(k, s[..Word(k, s)], t[..Word(k, t)]);
      }
    }
  }

  /** A text and a word that starts with a digit are never equal, and the digits do not matter. */
  lemma Apart(k: Script, a: string, b: string)
    requires Fair(k) && ((IsText(k, a) && IsNumeral(k, b)) || (IsNumeral(k, a) && IsText(k, b)))
    ensures k.collate(a, b) != 0
    ensures !k.isDigit(a[0]) ==> Sign(k.collate(a, b)) == Sign(k.collate(a, "0"))
    ensures k.isDigit(a[0]) ==> Sign(k.collate(a, b)) == -Sign(k.collate(b, "0"))
  {
    if k.isDigit(a[0]) { assert Sign(k.collate(b, a)) == -Sign(k.collate(a, b)); }
  }

  // ---------- the order is an order ----------

  lemma OrderSymmetric(k: Script, s: string, t: string)
    requires Fair(k)
    ensures Sign(Order(k, s, t)) == -Sign(Order(k, t, s))
  {
    TokensProper(k, s);
    TokensProper(k, t);
    OrderIsList(k, s, t);
    OrderIsList(k, t, s);
    ListSymmetric(k, Tokens(k, s), Tokens(k, t));
  }

  lemma OrderTransitive(k: Script, s: string, t: string, u: string)
    requires Fair(k) && Order(k, s, t) <= 0 && Order(k, t, u) <= 0
    ensures Order(k, s, u) <= 0
  {
    TokensProper(k, s);
    TokensProper(k, t);
    TokensProper(k, u);
    OrderIsList(k, s, t);
    OrderIsList(k, t, u);
    OrderIsList(k, s, u);
    ListTransitive(k, Tokens(k, s), Tokens(k, t), Tokens(k, u));
  }

  // ---------- and only for such collators ----------

  ghost predicate OrderIsOrder(k: Script) {
    && (forall s, t :: Sign(Order(k, s, t)) == -Sign(Order(k, t, s)))
    && forall s, t, u :: Order(k, s, t) <= 0 && Order(k, t, u) <= 0 ==> Order(k, s, u) <= 0
  }

  /** `n` digits, the first `z` of them zeros, and then no digit. */
  lemma NumberIs(k: Script, s: string, n: nat, z: nat)
    requires k.isDigit('0') && z <= n <= |s| && n > 0
    requires (forall i | 0 <= i < n :: k.isDigit(s[i])) && (n < |s| ==> !k.isDigit(s[n]))
    requires (forall i | 0 <= i < z :: s[i] == '0') && (z < n ==> s[z] != '0')
    ensures Span(k, true, s) == n && Zeros(s) == z && Digits(k, s) == s[z..n]
  {
    SpanIs(k, true, s, n);
    ZerosAre(s, z);
  }

  lemma WordIs(k: Script, s: string, n: nat)
    requires 0 < n <= |s| && (forall i | 0 < i < n :: !k.isDigit(s[i])) && (n < |s| ==> k.isDigit(s[n]))
    ensures Word(k, s) == n
  {
    SpanIs(k, false, s[1..], n - 1);
  }

  /** A text and a string that starts with a numeral compare as text and numeral do, if not equal. */
  lemma OrderOfWords(k: Script, w: string, s: string, n: nat)
    requires IsText(k, w) && 0 < n <= |s| && IsNumeral(k, s[..n]) && (n < |s| ==> k.isDigit(s[n]))
    ensures k.collate(w, s[..n]) != 0 ==> Order(k, w, s) == k.collate(w, s[..n])
    ensures k.collate(w, s[..n]) == 0 && n == |s| ==> Order(k, w, s) == 0
  {
    assert w[0] in w;
    forall i | 0 < i < |w| ensures !k.isDigit(w[i]) { assert w[i] in w; }
    forall i | 0 < i < n ensures !k.isDigit(s[i]) { assert s[i] == s[..n][1..][i - 1]; }
    WordIs(k, w, |w|);
    WordIs(k, s, n);
    assert w[..|w|] == w && w[|w|..] == "" && s[|s|..] == "";
  }

  /** One nonzero digit with any text after it is before two equal nonzero digits, zeros before them
      or not; and so is a zero. */
  lemma TwoDigitsLater(k: Script, a: char, x: string, t: string, b: char)
    requires k.isDigit('0') && k.isDigit(a) && AllText(k, x) && k.isDigit(b) && b != '0'
    requires t == [b, b] || t == ['0', b, b]
    ensures Order(k, [a] + x, t) == -1
  {
    var s := [a] + x;
    if x != "" { assert s[1] == x[0] && x[0] in x; }
    NumberIs(k, s, 1, if a == '0' then 1 else 0);
    NumberIs(k, t, |t|, if t == [b, b] then 0 else 1);
  }

  /** The bare digit is before the same digit with text after it. */
  lemma BareDigitFirst(k: Script, b: char, y: string)
    requires k.isDigit('0') && k.isDigit(b) && y != "" && AllText(k, y)
    ensures Order(k, [b], [b] + y) == -1
  {
    var t := [b] + y;
    assert t[1] == y[0] && y[0] in y;
    NumberIs(k, [b], 1, if b == '0' then 1 else 0);
    NumberIs(k, t, 1, if b == '0' then 1 else 0);
    DifferenceSame(Digits(k, [b]));
    assert [b][1..] == "" && t[1..] == y;
  }

  /** Two numbers that are both zero: the rests decide. */
  lemma ZerosLevel(k: Script, s: string, t: string, n: nat, m: nat)
    requires k.isDigit('0') && 0 < n <= |s| && 0 < m <= |t|
    requires (forall i | 0 <= i < n :: s[i] == '0') && (n < |s| ==> !k.isDigit(s[n]))
    requires (forall i | 0 <= i < m :: t[i] == '0') && (m < |t| ==> !k.isDigit(t[m]))
    ensures Order(k, s, t) == Order(k, s[n..], t[m..])
  {
    NumberIs(k, s, n, n);
    NumberIs(k, t, m, m);
  }

  /** Two equal numbers that end both strings: leading zeros decide. */
  lemma TieDecides(k: Script, s: string, t: string)
    requires s != "" && t != "" && Span(k, true, s) == |s| && Span(k, true, t) == |t|
    requires Digits(k, s) == Digits(k, t) && Digits(k, s) != ""
    ensures Order(k, s, t) == Zeros(s) - Zeros(t)
  {
    DifferenceSame(Digits(k, s));
  }

  lemma ZerosWithText(k: Script, y: string)
    requires k.isDigit('0') && Symmetric(k) && IsText(k, y)
    ensures Order(k, "0" + y, "00" + y) == 0
  {
    var s, t := "0" + y, "00" + y;
    assert y[0] in y && s[1] == y[0] && t[2] == y[0];
    assert s[1..] == y && t[2..] == y;
    ZerosLevel(k, s, t, 1, 2);
    TextLevel(k, y);
  }

  lemma TextLevel(k: Script, y: string)
    requires Symmetric(k) && IsText(k, y)
    ensures Order(k, y, y) == 0
  {
    assert y[0] in y;
    forall i | 0 < i < |y| ensures !k.isDigit(y[i]) { assert y[i] in y; }
    WordIs(k, y, |y|);
    assert y[..|y|] == y && y[|y|..] == "";
    assert Sign(k.collate(y, y)) == -Sign(k.collate(y, y));
  }

  lemma ZeroFirst(k: Script, b: char)
    requires k.isDigit('0') && k.isDigit(b) && b != '0'
    ensures Order(k, "0", [b]) == -1 && Order(k, [b], ['0', b]) == -1
  {
    NumberIs(k, "0", 1, 1);
    var s, t := [b], ['0', b];
    NumberIs(k, s, 1, 0);
    NumberIs(k, t, 2, 1);
    assert s[0..1] == s && t[1..2] == s;
    TieDecides(k, s, t);
  }

  lemma UseOrder(k: Script, s: string, t: string, u: string)
    requires OrderIsOrder(k)
    ensures Sign(Order(k, s, t)) == -Sign(Order(k, t, s)) && Sign(Order(k, t, u)) == -Sign(Order(k, u, t))
    ensures Sign(Order(k, s, u)) == -Sign(Order(k, u, s))
    ensures Order(k, s, t) <= 0 && Order(k, t, u) <= 0 ==> Order(k, s, u) <= 0
  {}

  /** A text that equals the first digit of a longer number is before that number. */
  lemma OrderBeyond(k: Script, w: string, s: string)
    requires IsText(k, w) && |s| > 1 && k.isDigit(s[0]) && k.isDigit(s[1]) && k.collate(w, s[..1]) == 0
    ensures Order(k, w, s) == -1
  {
    assert w[0] in w;
    forall i | 0 < i < |w| ensures !k.isDigit(w[i]) { assert w[i] in w; }
    WordIs(k, w, |w|);
    WordIs(k, s, 1);
    assert w[..|w|] == w && w[|w|..] == "";
  }

  lemma BareZeroApart(k: Script, w: string)
    requires k.isDigit('0') && OrderIsOrder(k) && IsText(k, w)
    ensures k.collate(w, "0") != 0
  {
    if k.collate(w, "0") == 0 {
      assert "0"[..1] == "0";
      OrderOfWords(k, w, "0", 1);
      ZerosLevel(k, "00", "0", 2, 1);
      UseOrder(k, "00", "0", w);
      assert "00"[..1] == "0" && "00"[1..] == "0" && "00"[2..] == "" && "0"[1..] == "";
      OrderBeyond(k, w, "00");
    }
  }

  /** A text is level with no bare digit. */
  lemma BareApart(k: Script, w: string, b: char)
    requires k.isDigit('0') && OrderIsOrder(k) && IsText(k, w) && k.isDigit(b)
    ensures k.collate(w, [b]) != 0
  {
    BareZeroApart(k, w);
    if b == '0' {
      assert [b] == "0";
    } else if k.collate(w, [b]) == 0 {
      var t := ['0', b];
      assert [b][..1] == [b] && t[..1] == "0" && "0"[..1] == "0";
      OrderOfWords(k, w, [b], 1);
      OrderOfWords(k, w, "0", 1);
      OrderOfWords(k, w, t, 1);
      ZeroFirst(k, b);
      UseOrder(k, t, w, [b]);
      UseOrder(k, [b], w, "0");
    }
  }

  /** All bare digits are on the same side of a text. */
  lemma BareSameSide(k: Script, w: string, b: char)
    requires k.isDigit('0') && OrderIsOrder(k) && IsText(k, w) && k.isDigit(b)
    ensures Sign(k.collate(w, [b])) == Sign(k.collate(w, "0"))
  {
    BareApart(k, w, b);
    BareZeroApart(k, w);
    if b == '0' {
      assert [b] == "0";
    } else {
      var t, u := ['0', b, b], [b, b];
      assert [b][..1] == [b] && u[..1] == [b] && [b] + "" == [b];
      assert t[..1] == "0" && "0"[..1] == "0" && ['0'] + "" == "0";
      OrderOfWords(k, w, [b], 1);
      OrderOfWords(k, w, "0", 1);
      OrderOfWords(k, w, t, 1);
      OrderOfWords(k, w, u, 1);
      TwoDigitsLater(k, b, "", t, b);
      TwoDigitsLater(k, '0', "", u, b);
      UseOrder(k, t, w, [b]);
      UseOrder(k, u, w, "0");
    }
  }

  lemma OrderOfNumeral(k: Script, w: string, b: char, y: string)
    requires IsText(k, w) && k.isDigit(b) && AllText(k, y)
    ensures Sign(Order(k, w, [b] + y)) == Sign(k.collate(w, [b] + y))
  {
    var d := [b] + y;
    assert d[1..] == y && d[..|d|] == d;
    OrderOfWords(k, w, d, |d|);
  }

  /** A text before a bare digit is before the digit with text. */
  lemma NumeralAfter(k: Script, w: string, b: char, y: string)
    requires k.isDigit('0') && OrderIsOrder(k) && IsText(k, w) && k.isDigit(b) && IsText(k, y) && k.collate(w, [b]) < 0
    ensures k.collate(w, [b] + y) < 0
  {
    assert [b] + "" == [b];
    OrderOfNumeral(k, w, b, y);
    OrderOfNumeral(k, w, b, "");
    BareDigitFirst(k, b, y);
    UseOrder(k, [b] + y, w, [b]);
  }

  /** A text after a bare zero is after the zero with text. */
  lemma ZeroBefore(k: Script, w: string, y: string)
    requires k.isDigit('0') && Symmetric(k) && OrderIsOrder(k) && IsText(k, w) && IsText(k, y) && k.collate(w, "0") > 0
    ensures k.collate(w, ['0'] + y) > 0
  {
    var d, t := "0" + y, "00" + y;
    assert t[..1] == "0" && d == ['0'] + y;
    OrderOfNumeral(k, w, '0', y);
    OrderOfWords(k, w, t, 1);
    ZerosWithText(k, y);
    UseOrder(k, w, d, t);
  }

  /** A text after another bare digit is after the digit with text. */
  lemma NumeralBefore(k: Script, w: string, b: char, y: string)
    requires k.isDigit('0') && OrderIsOrder(k) && IsText(k, w) && k.isDigit(b) && b != '0' && IsText(k, y)
    requires k.collate(w, [b]) > 0
    ensures k.collate(w, [b] + y) > 0
  {
    var t := [b, b];
    assert t[..1] == [b];
    OrderOfNumeral(k, w, b, y);
    OrderOfWords(k, w, t, 1);
    TwoDigitsLater(k, b, y, t, b);
    UseOrder(k, t, w, [b] + y);
  }

  /** So numerals are on the side of the digit they start with. */
  lemma NumeralSameSide(k: Script, w: string, b: char, y: string)
    requires k.isDigit('0') && Symmetric(k) && OrderIsOrder(k) && IsText(k, w) && k.isDigit(b) && IsText(k, y)
    ensures Sign(k.collate(w, [b] + y)) == Sign(k.collate(w, [b]))
  {
    BareApart(k, w, b);
    if k.collate(w, [b]) < 0 {
      NumeralAfter(k, w, b, y);
    } else if b == '0' {
      assert [b] == "0";
      ZeroBefore(k, w, y);
    } else {
      NumeralBefore(k, w, b, y);
    }
  }

  /** For a collator that is a total preorder, the whole comparison is one if and only if each text is
      before all numerals or after all of them. */
  lemma OrderIffSeparated(k: Script)
    requires k.isDigit('0') && Symmetric(k) && Transitive(k)
    ensures OrderIsOrder(k) <==> Separated(k)
  {
    if Separated(k) {
      forall s, t ensures Sign(Order(k, s, t)) == -Sign(Order(k, t, s)) { OrderSymmetric(k, s, t); }
      forall s, t, u | Order(k, s, t) <= 0 && Order(k, t, u) <= 0 ensures Order(k, s, u) <= 0 {
        OrderTransitive(k, s, t, u);
      }
    }
    if OrderIsOrder(k) {
      forall w, d | IsText(k, w) && IsNumeral(k, d)
        ensures Sign(k.collate(w, d)) == Sign(k.collate(w, "0")) && k.collate(w, "0") != 0
      {
        BareZeroApart(k, w);
        BareSameSide(k, w, d[0]);
        if d[1..] == "" {
          assert d == [d[0]];
        } else {
          assert d == [d[0]] + d[1..];
          NumeralSameSide(k, w, d[0], d[1..]);
        }
      }
    }
  }

  /** Without separated texts the order breaks, even if the collator itself is a total preorder: the
      one that takes all words for equal puts "2" level with "a" and "a" level with "1". */
  lemma IndifferenceBreaksOrder(k: Script)
    requires k.isDigit('0') && k.isDigit('1') && k.isDigit('2') && !k.isDigit('a')
    requires forall a, b :: k.collate(a, b) == 0
    ensures Symmetric(k) && Transitive(k) && !Separated(k)
    ensures Order(k, "2", "a") == 0 && Order(k, "a", "1") == 0 && Order(k, "2", "1") > 0
  {
    assert k.collate("a", "0") == 0;
    SpanIs(k, true, "2", 1);
    SpanIs(k, true, "1", 1);
    ZerosAre("2", 0);
    ZerosAre("1", 0);
    assert "2"[0..1] == "2" && "1"[0..1] == "1";
  }

  // ---------- character codes ----------

  predicate AsciiDigit(c: char) {
    '0' <= c <= '9'
  }

  /** Words compared by their first different character, else by length. */
  function CodeOrder(a: string, b: string): int {
    if a == "" || b == "" then |a| - |b|
    else if a[0] != b[0] then a[0] as int - b[0] as int
    else CodeOrder(a[1..], b[1..])
  }

  lemma {:induction false} CodeOrderSymmetric(a: string, b: string)
    ensures CodeOrder(a, b) == -CodeOrder(b, a)
  {
    if a != "" && b != "" && a[0] == b[0] { CodeOrderSymmetric(a[1..], b[1..]); }
  }

  lemma {:induction false} CodeOrderTransitive(a: string, b: string, c: string)
    requires CodeOrder(a, b) <= 0 && CodeOrder(b, c) <= 0
    ensures CodeOrder(a, c) <= 0
  {
    if a != "" && b != "" && c != "" && a[0] == b[0] == c[0] { CodeOrderTransitive(a[1..], b[1..], c[1..]); }
  }

  /** With the ten ASCII digits and character codes, the order is one. */
  lemma CodeOrderIsFair()
    ensures Fair(Script(AsciiDigit, CodeOrder))
  {
    var k := Script(AsciiDigit, CodeOrder);
    forall a, b ensures Sign(k.collate(a, b)) == -Sign(k.collate(b, a)) { CodeOrderSymmetric(a, b); }
    forall a, b, c | k.collate(a, b) <= 0 && k.collate(b, c) <= 0 ensures k.collate(a, c) <= 0 {
      CodeOrderTransitive(a, b, c);
    }
    forall w, d | IsText(k, w) && IsNumeral(k, d)
      ensures Sign(k.collate(w, d)) == Sign(k.collate(w, "0")) && k.collate(w, "0") != 0
    {
      assert w[0] in w;
    }
  }

  ghost predicate AllDigits(x: string) {
    forall c | c in x :: AsciiDigit(c)
  }

  /** The decimal value of a number. */
  ghost function DecimalValue(x: string): nat
    requires AllDigits(x)
  {
    if x == "" then 0 else
      var last := x[|x| - 1];
      assert last in x && AsciiDigit(last);
      10 * DecimalValue(x[..|x| - 1]) + (last as int - '0' as int)
  }

  ghost function Power(n: nat): (p: nat)
    ensures p > 0
  {
    if n == 0 then 1 else 10 * Power(n - 1)
  }

  lemma {:induction false} ValueBounds(x: string)
    requires AllDigits(x)
    ensures DecimalValue(x) < Power(|x|)
    ensures x != "" && x[0] != '0' ==> Power(|x| - 1) <= DecimalValue(x)
  {
    if x != "" {
      assert x[|x| - 1] in x;
      ValueBounds(x[..|x| - 1]);
      if |x| == 1 { assert x[..0] == "" && x[0] in x; }
    }
  }

  lemma {:induction false} PowerGrows(m: nat, n: nat)
    requires m <= n
    ensures Power(m) <= Power(n)
  {
    if m < n { PowerGrows(m, n - 1); }
  }

  lemma {:induction false} DifferenceOfLast(x: string, y: string)
    requires |x| == |y| > 0
    ensures var n := |x| - 1;
      FirstDifference(x, y) == if FirstDifference(x[..n], y[..n]) != 0 then FirstDifference(x[..n], y[..n])
        else x[n] as int - y[n] as int
  {
    var n := |x| - 1;
    if n > 0 {
      DifferenceOfLast(x[1..], y[1..]);
      assert x[1..][..n - 1] == x[..n][1..] && y[1..][..n - 1] == y[..n][1..];
    }
  }

  lemma {:induction false} DifferenceIsValue(x: string, y: string)
    requires |x| == |y| && AllDigits(x) && AllDigits(y)
    ensures Sign(FirstDifference(x, y)) == Sign(DecimalValue(x) - DecimalValue(y))
  {
    if x != "" {
      var n := |x| - 1;
      assert x[n] in x && y[n] in y;
      DifferenceIsValue(x[..n], y[..n]);
      DifferenceOfLast(x, y);
    }
  }

  /** Numbers compare by their decimal value, however long they are. */
  lemma NumericIsValue(x: string, y: string)
    requires AllDigits(x) && AllDigits(y) && (x != "" ==> x[0] != '0') && (y != "" ==> y[0] != '0')
    ensures Sign(Numeric(x, y)) == Sign(DecimalValue(x) - DecimalValue(y))
  {
    ValueBounds(x);
    ValueBounds(y);
    if |x| < |y| {
      PowerGrows(|x|, |y| - 1);
    } else if |y| < |x| {
      PowerGrows(|y|, |x| - 1);
    } else {
      DifferenceIsValue(x, y);
    }
  }

  /** Leading zeros do not change the value. */
  lemma {:induction false} ZerosWorthless(x: string, z: nat)
    requires AllDigits(x) && z <= |x| && forall i | 0 <= i < z :: x[i] == '0'
    ensures DecimalValue(x) == DecimalValue(x[z..])
  {
    if z < |x| {
      var n := |x| - 1;
      assert x[n] in x;
      ZerosWorthless(x[..n], z);
      assert x[z..][..n - z] == x[..n][z..];
    } else if x != "" {
      var n := |x| - 1;
      ZerosWorthless(x[..n], n);
      assert x[..n][n..] == "" && x[z..] == "";
    }
  }

  /** A string of ASCII digits read as one number. */
  lemma PureNumber(k: Script, s: string)
    requires k.isDigit == AsciiDigit && s != "" && AllDigits(s)
    ensures k.isDigit(s[0]) && Span(k, true, s) == |s| && AllDigits(Digits(k, s))
    ensures Digits(k, s) != "" ==> Digits(k, s)[0] != '0'
    ensures DecimalValue(s) == DecimalValue(Digits(k, s)) && |s| == Zeros(s) + |Digits(k, s)|
    ensures DecimalValue(s) == 0 <==> Digits(k, s) == ""
  {
    forall i | 0 <= i < |s| ensures k.isDigit(s[i]) { assert s[i] in s; }
    SpanIs(k, true, s, |s|);
    var x := Digits(k, s);
    assert x == s[Zeros(s)..];
    ZerosWorthless(s, Zeros(s));
    ValueBounds(x);
  }

  lemma PureOrder(k: Script, s: string, t: string)
    requires s != "" && t != "" && k.isDigit(s[0]) && k.isDigit(t[0])
    requires Span(k, true, s) == |s| && Span(k, true, t) == |t|
    ensures Order(k, s, t) == if Numeric(Digits(k, s), Digits(k, t)) != 0 then Numeric(Digits(k, s), Digits(k, t))
      else if Digits(k, s) != "" then Zeros(s) - Zeros(t) else 0
  {
    assert s[|s|..] == "" && t[|t|..] == "";
  }

  /** Strings of ASCII digits only: by value, and of equal numbers other than zero the one with fewer
      leading zeros first. */
  lemma NumbersByValue(k: Script, s: string, t: string)
    requires k.isDigit == AsciiDigit && s != "" && t != "" && AllDigits(s) && AllDigits(t)
    ensures DecimalValue(s) != DecimalValue(t) ==> Sign(Order(k, s, t)) == Sign(DecimalValue(s) - DecimalValue(t))
    ensures DecimalValue(s) == DecimalValue(t) ==>
      Sign(Order(k, s, t)) == if DecimalValue(s) == 0 then 0 else Sign(|s| - |t|)
  {
    PureNumber(k, s);
    PureNumber(k, t);
    PureOrder(k, s, t);
    NumericIsValue(Digits(k, s), Digits(k, t));
    NumericOrder(Digits(k, s), Digits(k, t), "");
  }

  // ---------- the comparison with its loops ----------

  method SkipZeros(s: string, start: nat) returns (index: nat)
    requires start <= |s|
    ensures index == start + Zeros(s[start..]) && index <= |s|
  {
    index := start;
    while index < |s| && s[index] == '0'
      invariant start <= index <= |s| && forall i | start <= i < index :: s[i] == '0'
    {
      index := index + 1;
    }
    ZerosAre(s[start..], index - start);
  }

  method SkipWord(k: Script, s: string, start: nat) returns (index: nat)
    requires start < |s|
    ensures index == start + Word(k, s[start..]) && index <= |s|
  {
    index := start + 1;
    while index < |s| && !k.isDigit(s[index])
      invariant start < index <= |s| && forall i | start < i < index :: !k.isDigit(s[i])
    {
      index := index + 1;
    }
    assert s[start..][1..] == s[start + 1..];
    SpanIs(k, false, s[start + 1..], index - start - 1);
  }

  /** What two numbers without leading zeros, and what follows them, decide. */
  function AfterDigits(k: Script, a: string, b: string, zeros: int): int {
    var n, m := Span(k, true, a), Span(k, true, b);
    if Numeric(a[..n], b[..m]) != 0 then Numeric(a[..n], b[..m])
    else if n == |a| && m == |b| then zeros
    else Order(k, a[n..], b[m..])
  }

  /** The number ends after `o` digits. */
  predicate EndsAt(k: Script, a: string, o: nat) {
    o == |a| || (o < |a| && !k.isDigit(a[o]))
  }

  /** After `o` digits in both strings at least one of the numbers ends. */
  lemma DigitsDone(k: Script, a: string, b: string, o: nat, zeros: int)
    requires 0 < o <= |a| && o <= |b| && forall i | 0 <= i < o :: k.isDigit(a[i]) && k.isDigit(b[i])
    requires EndsAt(k, a, o) || EndsAt(k, b, o)
    ensures EndsAt(k, a, o) <==> Span(k, true, a) == o
    ensures EndsAt(k, b, o) <==> Span(k, true, b) == o
    ensures var d := FirstDifference(a[..o], b[..o]);
      AfterDigits(k, a, b, zeros) ==
        if !EndsAt(k, b, o) then -1 else if !EndsAt(k, a, o) then 1
        else if d != 0 then d else if o == |a| && o == |b| then zeros else Order(k, a[o..], b[o..])
  {
    if EndsAt(k, a, o) { SpanIs(k, true, a, o); }
    if EndsAt(k, b, o) { SpanIs(k, true, b, o); }
  }

  /** The loop over the digits of two numbers without leading zeros. */
  method CompareDigits(k: Script, s: string, t: string, sStart: nat, tStart: nat, zeros: int)
    returns (decided: bool, r: int, sIndex: nat, tIndex: nat)
    requires sStart < |s| && tStart < |t| && k.isDigit(s[sStart]) && k.isDigit(t[tStart])
    ensures decided ==> Sign(r) == Sign(AfterDigits(k, s[sStart..], t[tStart..], zeros))
    ensures !decided ==> sStart < sIndex <= |s| && tStart < tIndex <= |t|
    ensures !decided ==> AfterDigits(k, s[sStart..], t[tStart..], zeros) == Order(k, s[sIndex..], t[tIndex..])
  {
    ghost var a, b := s[sStart..], t[tStart..];
    sIndex, tIndex := sStart, tStart;
    var diff := 0;
    while true
      invariant sStart <= sIndex < |s| && tStart <= tIndex < |t| && sIndex - sStart == tIndex - tStart
      invariant forall i | 0 <= i <= sIndex - sStart :: k.isDigit(a[i]) && k.isDigit(b[i])
      invariant diff == FirstDifference(a[..sIndex - sStart], b[..sIndex - sStart])
      decreases |s| - sIndex
    {
      ghost var o := sIndex - sStart + 1;
      DifferenceNext(a, b, o - 1);
      if diff == 0 {
        diff := s[sIndex] as int - t[tIndex] as int;
      }
      sIndex, tIndex := sIndex + 1, tIndex + 1;
      if EndsAt(k, a, o) || EndsAt(k, b, o) { DigitsDone(k, a, b, o, zeros); }
      if sIndex == |s| && tIndex == |t| {
        return true, if diff != 0 then diff else zeros, sIndex, tIndex;
      }
      if sIndex == |s| {
        return true, if diff == 0 || k.isDigit(t[tIndex]) then -1 else diff, sIndex, tIndex;
      }
      if tIndex == |t| {
        return true, if diff == 0 || k.isDigit(s[sIndex]) then 1 else diff, sIndex, tIndex;
      }
      if !k.isDigit(s[sIndex]) && !k.isDigit(t[tIndex]) {
        assert a[o..] == s[sIndex..] && b[o..] == t[tIndex..];
        return diff != 0, diff, sIndex, tIndex;
      }
      if !k.isDigit(s[sIndex]) {
        return true, -1, sIndex, tIndex;
      }
      if !k.isDigit(t[tIndex]) {
        return true, 1, sIndex, tIndex;
      }
    }
  }

  lemma DifferenceNext(a: string, b: string, o: nat)
    requires o < |a| && o < |b|
    ensures var d := FirstDifference(a[..o], b[..o]);
      FirstDifference(a[..o + 1], b[..o + 1]) == if d != 0 then d else a[o] as int - b[o] as int
  {
    DifferenceOfLast(a[..o + 1], b[..o + 1]);
    assert a[..o + 1][..o] == a[..o] && b[..o + 1][..o] == b[..o];
  }

  /** Leading zeros belong to the number. */
  lemma ZerosInside(k: Script, a: string)
    requires k.isDigit('0') && a != "" && k.isDigit(a[0])
    ensures var z, n := Zeros(a), Span(k, true, a);
      && z <= n && 0 < n && (EndsAt(k, a, z) <==> z == n) && Span(k, true, a[z..]) == n - z && Digits(k, a) == a[z..n]
  {
    var z, n := Zeros(a), Span(k, true, a);
    if n < |a| { assert !k.isDigit(a[n]); }
    SpanIs(k, true, a[z..], n - z);
  }

  lemma Slices(a: string, z: nat, n: nat)
    requires z <= n <= |a|
    ensures a[z..][..n - z] == a[z..n] && a[z..][n - z..] == a[n..]
  {}

  /** `c` is what is left of `a` after its leading zeros. */
  ghost predicate Skipped(k: Script, a: string, c: string, zeros: nat) {
    k.isDigit('0') && a != "" && k.isDigit(a[0]) && zeros == Zeros(a) && c == a[zeros..]
  }

  predicate StartsNumber(k: Script, c: string) {
    c != "" && k.isDigit(c[0])
  }

  lemma BothZero(k: Script, a: string, b: string, c: string, d: string, y: nat, z: nat)
    requires Skipped(k, a, c, y) && Skipped(k, b, d, z) && !StartsNumber(k, c) && !StartsNumber(k, d)
    ensures y > 0 && z > 0 && Order(k, a, b) == Order(k, c, d)
  {
    ZerosInside(k, a);
    ZerosInside(k, b);
    assert Digits(k, a) == "" && Digits(k, b) == "";
  }

  lemma OneZero(k: Script, a: string, b: string, c: string, d: string, y: nat, z: nat)
    requires Skipped(k, a, c, y) && Skipped(k, b, d, z) && (StartsNumber(k, c) <==> !StartsNumber(k, d))
    ensures Order(k, a, b) == if StartsNumber(k, c) then 1 else -1
  {
    ZerosInside(k, a);
    ZerosInside(k, b);
  }

  lemma DigitsLeft(k: Script, a: string, c: string, z: nat)
    requires Skipped(k, a, c, z) && StartsNumber(k, c)
    ensures Digits(k, a) == c[..Span(k, true, c)] != "" && a[Span(k, true, a)..] == c[Span(k, true, c)..]
    ensures Span(k, true, a) == |a| <==> Span(k, true, c) == |c|
  {
    ZerosInside(k, a);
    Slices(a, z, Span(k, true, a));
  }

  lemma NoZero(k: Script, a: string, b: string, c: string, d: string, y: nat, z: nat)
    requires Skipped(k, a, c, y) && Skipped(k, b, d, z) && StartsNumber(k, c) && StartsNumber(k, d)
    ensures Order(k, a, b) == AfterDigits(k, c, d, y - z)
  {
    DigitsLeft(k, a, c, y);
    DigitsLeft(k, b, d, z);
  }

  /** The branch for two numbers. */
  method CompareNumbers(k: Script, s: string, t: string, sFrom: nat, tFrom: nat)
    returns (decided: bool, r: int, sIndex: nat, tIndex: nat)
    requires k.isDigit('0') && sFrom < |s| && tFrom < |t| && k.isDigit(s[sFrom]) && k.isDigit(t[tFrom])
    ensures decided ==> Sign(r) == Sign(Order(k, s[sFrom..], t[tFrom..]))
    ensures !decided ==> sFrom < sIndex <= |s| && tFrom < tIndex <= |t|
    ensures !decided ==> Order(k, s[sFrom..], t[tFrom..]) == Order(k, s[sIndex..], t[tIndex..])
  {
    sIndex := SkipZeros(s, sFrom);
    tIndex := SkipZeros(t, tFrom);
    var sAllZero := sIndex == |s| || !k.isDigit(s[sIndex]);
    var tAllZero := tIndex == |t| || !k.isDigit(t[tIndex]);
    if sAllZero && tAllZero {
      BothZero(k, s[sFrom..], t[tFrom..], s[sIndex..], t[tIndex..], sIndex - sFrom, tIndex - tFrom);
      return false, 0, sIndex, tIndex;
    }
    if sAllZero || tAllZero {
      OneZero(k, s[sFrom..], t[tFrom..], s[sIndex..], t[tIndex..], sIndex - sFrom, tIndex - tFrom);
      return true, if sAllZero then -1 else 1, sIndex, tIndex;
    }
    NoZero(k, s[sFrom..], t[tFrom..], s[sIndex..], t[tIndex..], sIndex - sFrom, tIndex - tFrom);
    decided, r, sIndex, tIndex := CompareDigits(k, s, t, sIndex, tIndex, sIndex - sFrom - (tIndex - tFrom));
  }

  /** The branch for two words of which at least one is no number. */
  method CompareWords(k: Script, s: string, t: string, aw: nat, bw: nat)
    returns (decided: bool, r: int, sIndex: nat, tIndex: nat)
    requires aw < |s| && bw < |t| && !(k.isDigit(s[aw]) && k.isDigit(t[bw]))
    ensures decided ==> r == Order(k, s[aw..], t[bw..])
    ensures !decided ==> aw < sIndex <= |s| && bw < tIndex <= |t|
    ensures !decided ==> Order(k, s[aw..], t[bw..]) == Order(k, s[sIndex..], t[tIndex..])
  {
    ghost var a, b := s[aw..], t[bw..];
    sIndex := SkipWord(k, s, aw);
    tIndex := SkipWord(k, t, bw);
    assert s[aw..sIndex] == a[..sIndex - aw] && t[bw..tIndex] == b[..tIndex - bw];
    assert s[sIndex..] == a[sIndex - aw..] && t[tIndex..] == b[tIndex - bw..];
    r := k.collate(s[aw..sIndex], t[bw..tIndex]);
    decided := r != 0;
  }

  /** The whole comparison; only the sign of its result is meant. */
  method CompareObjects(k: Script, s: string, t: string) returns (r: int)
    requires k.isDigit('0')
    ensures Sign(r) == Sign(Order(k, s, t))
  {
    var sIndex: nat, tIndex: nat := 0, 0;
    while true
      invariant sIndex <= |s| && tIndex <= |t|
      invariant Order(k, s[sIndex..], t[tIndex..]) == Order(k, s, t)
      decreases |s| - sIndex
    {
      if sIndex == |s| && tIndex == |t| {
        return 0;
      }
      if sIndex == |s| {
        return -1;
      }
      if tIndex == |t| {
        return 1;
      }
      var decided;
      if k.isDigit(s[sIndex]) && k.isDigit(t[tIndex]) {
        decided, r, sIndex, tIndex := CompareNumbers(k, s, t, sIndex, tIndex);
      } else {
        decided, r, sIndex, tIndex := CompareWords(k, s, t, sIndex, tIndex);
      }
      if decided {
        return;
      }
    }
  }
}
