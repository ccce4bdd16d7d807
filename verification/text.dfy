/**
 * The string helpers the parser relies on: `utils::split`, `utils::strip`
 * and `std::stoi`. Their implementations are not part of this model; each is
 * given here as a specification-level function whose meaning is pinned down
 * by a partner lemma (split / join round trip, strip / pad round trip,
 * stoi / decimal round trip).
 */
module Text {
  import opened Wrappers

  // ---------------------------------------------------------------------------
  // Occurrences of a delimiter

  /** `d` occurs in `s` starting at index `i`. */
  predicate OccursAt(s: string, d: string, i: int) {
    0 <= i && i + |d| <= |s| && s[i..i + |d|] == d
  }

  predicate Contains(s: string, d: string) {
    exists i :: 0 <= i <= |s| && OccursAt(s, d, i)
  }

  /** The first index at which `d` occurs in `s` (`std::string::find`). */
  function Find(s: string, d: string): (r: Option<nat>)
    requires |d| > 0
    ensures r.Some? ==> OccursAt(s, d, r.value)
    ensures r.Some? ==> forall j :: 0 <= j < r.value ==> !OccursAt(s, d, j)
    ensures r.None? ==> forall j :: !OccursAt(s, d, j)
    decreases |s|
  {
    if |s| < |d| then None
    else if s[..|d|] == d then Some(0)
    else
      var rest := Find(s[1..], d);
      assert forall j :: 1 <= j ==> (OccursAt(s, d, j) <==> OccursAt(s[1..], d, j - 1)) by {
        forall j | 1 <= j ensures OccursAt(s, d, j) <==> OccursAt(s[1..], d, j - 1) {
          OccursAtTail(s, d, j);
        }
      }
      assert !OccursAt(s, d, 0);
      match rest
      case None => None
      case Some(i) => Some(i + 1)
  }

  lemma OccursAtTail(s: string, d: string, j: int)
    requires |s| > 0 && 1 <= j
    ensures OccursAt(s, d, j) <==> OccursAt(s[1..], d, j - 1)
  {
    if j + |d| <= |s| {
      assert s[j..j + |d|] == s[1..][j - 1..j - 1 + |d|];
    }
  }

  // ---------------------------------------------------------------------------
  // utils::split and its inverse

  /**
   * Splits `s` at every occurrence of `d`, scanning left to right; the pieces
   * between occurrences are kept even when empty, so there is always at
   * least one piece.
   */
  function Split(s: string, d: string): (pieces: seq<string>)
    requires |d| > 0
    ensures |pieces| >= 1
    decreases |s|
  {
    match Find(s, d)
    case None => [s]
    case Some(i) => [s[..i]] + Split(s[i + |d|..], d)
  }

  /** Concatenates the pieces with `d` between neighbours. */
  function Join(pieces: seq<string>, d: string): string
    requires |pieces| >= 1
  {
    if |pieces| == 1 then pieces[0] else pieces[0] + d + Join(pieces[1..], d)
  }

  /**
   * Each cut falls at the leftmost occurrence of the delimiter: the first
   * piece ends where the delimiter first occurs, and a text in which it does
   * not occur is one piece. For a delimiter longer than one character this
   * is what decides between pieces that join back to the same text.
   */
  lemma SplitLeftmost(s: string, d: string)
    requires |d| > 0
    ensures |Split(s, d)| > 1 ==> Find(s, d) == Some(|Split(s, d)[0]|)
    ensures |Split(s, d)| == 1 ==> Find(s, d) == None
  {
  }

  /** Joining the pieces of a split gives the text back. */
  lemma {:induction false} JoinSplit(s: string, d: string)
    requires |d| > 0
    ensures Join(Split(s, d), d) == s
    decreases |s|
  {
    match Find(s, d)
    case None =>
      assert Split(s, d) == [s];
    case Some(i) =>
      var rest := s[i + |d|..];
      var pieces := Split(s, d);
      assert pieces == [s[..i]] + Split(rest, d);
      assert pieces[0] == s[..i] && pieces[1..] == Split(rest, d);
      JoinSplit(rest, d);
      assert Join(pieces, d) == s[..i] + d + rest;
      assert s[i..i + |d|] == d;
      assert s == s[..i] + s[i..i + |d|] + rest;
  }

  /** No piece of a split contains the delimiter. */
  lemma {:induction false} SplitPiecesFree(s: string, d: string)
    requires |d| > 0
    ensures forall k :: 0 <= k < |Split(s, d)| ==> !Contains(Split(s, d)[k], d)
    decreases |s|
  {
    match Find(s, d)
    case None =>
      forall j | OccursAt(s, d, j) ensures false { }
    case Some(i) =>
      var rest := s[i + |d|..];
      SplitPiecesFree(rest, d);
      var p := s[..i];
      forall j | OccursAt(p, d, j) ensures false {
        assert p[j..j + |d|] == s[j..j + |d|];
        assert OccursAt(s, d, j);
      }
      assert Split(s, d) == [p] + Split(rest, d);
  }

  /** A split yields a single piece exactly when the delimiter does not occur. */
  lemma SplitSingle(s: string, d: string)
    requires |d| > 0
    ensures |Split(s, d)| == 1 <==> !Contains(s, d)
  {
    match Find(s, d)
    case None =>
    case Some(i) =>
      assert |Split(s, d)| == 1 + |Split(s[i + |d|..], d)|;
  }

  /**
   * When the delimiter's first character does not occur in `p`, the first
   * piece of `p + d + rest` is `p` and the others are the pieces of `rest`.
   */
  lemma SplitAtFirst(p: string, d: string, rest: string)
    requires |d| > 0 && d[0] !in p
    ensures Split(p + d + rest, d) == [p] + Split(rest, d)
  {
    var s := p + d + rest;
    assert s[|p|..|p| + |d|] == d;
    assert OccursAt(s, d, |p|);
    forall j | 0 <= j < |p| ensures !OccursAt(s, d, j) {
      assert s[j] == p[j] != d[0];
      assert j + |d| <= |s| ==> s[j..j + |d|][0] == s[j];
    }
    match Find(s, d)
    case None =>
    case Some(i) =>
      assert i == |p|;
      assert s[..i] == p;
      assert s[i + |d|..] == rest;
  }

  /** A text in which the delimiter's first character does not occur is one piece. */
  lemma SplitWhole(s: string, d: string)
    requires |d| > 0 && d[0] !in s
    ensures Split(s, d) == [s]
  {
    forall j | 0 <= j < |s| ensures !OccursAt(s, d, j) {
      assert s[j] != d[0];
      assert j + |d| <= |s| ==> s[j..j + |d|][0] == s[j];
    }
  }

  /**
   * Splitting pieces joined by `d` gives the pieces back, when the
   * delimiter's first character occurs in none of them.
   */
  lemma {:induction false} SplitJoin(pieces: seq<string>, d: string)
    requires |pieces| >= 1 && |d| > 0
    requires forall k :: 0 <= k < |pieces| ==> d[0] !in pieces[k]
    ensures Split(Join(pieces, d), d) == pieces
    decreases |pieces|
  {
    if |pieces| == 1 {
      SplitWhole(pieces[0], d);
    } else {
      SplitJoin(pieces[1..], d);
      SplitAtFirst(pieces[0], d, Join(pieces[1..], d));
      assert pieces == [pieces[0]] + pieces[1..];
    }
  }

  /** A one-character delimiter occurs exactly when the character does. */
  lemma ContainsChar(s: string, c: char)
    ensures Contains(s, [c]) <==> c in s
  {
    if c in s {
      var i :| 0 <= i < |s| && s[i] == c;
      assert OccursAt(s, [c], i);
    }
    if Contains(s, [c]) {
      var i :| 0 <= i <= |s| && OccursAt(s, [c], i);
      assert s[i..i + 1][0] == s[i];
    }
  }

  // ---------------------------------------------------------------------------
  // utils::strip

  /** White space as C's `isspace` sees it in the "C" locale. */
  predicate IsSpace(c: char) {
    c == ' ' || c == '\t' || c == '\n' || c == '\r' || c == '\U{0B}' || c == '\U{0C}'
  }

  predicate AllSpace(s: string) {
    forall i :: 0 <= i < |s| ==> IsSpace(s[i])
  }

  /** `s` neither starts nor ends with white space. */
  predicate Trimmed(s: string) {
    |s| > 0 ==> !IsSpace(s[0]) && !IsSpace(s[|s| - 1])
  }

  /** The number of white-space characters at the front of `s`. */
  function LeadingSpaces(s: string): (n: nat)
    ensures n <= |s|
    ensures forall i :: 0 <= i < n ==> IsSpace(s[i])
    ensures n < |s| ==> !IsSpace(s[n])
    decreases |s|
  {
    if |s| > 0 && IsSpace(s[0]) then
      var n := 1 + LeadingSpaces(s[1..]);
      assert forall i :: 1 <= i < n ==> s[i] == s[1..][i - 1];
      n
    else 0
  }

  /** The number of white-space characters at the back of `s`. */
  function TrailingSpaces(s: string): (n: nat)
    ensures n <= |s|
    ensures forall i :: |s| - n <= i < |s| ==> IsSpace(s[i])
    ensures n < |s| ==> !IsSpace(s[|s| - n - 1])
    decreases |s|
  {
    if |s| > 0 && IsSpace(s[|s| - 1]) then
      var n := 1 + TrailingSpaces(s[..|s| - 1]);
      assert forall i :: |s| - n <= i < |s| - 1 ==> s[i] == s[..|s| - 1][i];
      n
    else 0
  }

  /** Drops the white space at the front of `s`. */
  function TrimLeft(s: string): string {
    s[LeadingSpaces(s)..]
  }

  /** Drops the white space at the back of `s`. */
  function TrimRight(s: string): string {
    s[..|s| - TrailingSpaces(s)]
  }

  /** `utils::strip`: removes the white space at both ends. */
  function Strip(s: string): (r: string)
    ensures Trimmed(r)
    ensures |r| <= |s|
  {
    var t := TrimLeft(s);
    var r := TrimRight(t);
    assert |r| > 0 ==> r[0] == t[0];
    r
  }

  lemma TrimLeftUnpadded(s: string)
    requires |s| > 0 && !IsSpace(s[0])
    ensures TrimLeft(s) == s
  {
  }

  /** White space followed by text that does not start with it: the white space is all there is to trim. */
  lemma {:induction false} LeadingSpacesOfPadded(a: string, u: string)
    requires AllSpace(a) && (|u| > 0 ==> !IsSpace(u[0]))
    ensures LeadingSpaces(a + u) == |a|
    decreases |a|
  {
    if |a| > 0 {
      assert (a + u)[1..] == a[1..] + u;
      LeadingSpacesOfPadded(a[1..], u);
    } else {
      assert a + u == u;
    }
  }

  /** Text that does not end in white space, followed by white space. */
  lemma {:induction false} TrailingSpacesOfPadded(u: string, b: string)
    requires AllSpace(b) && (|u| > 0 ==> !IsSpace(u[|u| - 1]))
    ensures TrailingSpaces(u + b) == |b|
    decreases |b|
  {
    if |b| > 0 {
      assert (u + b)[..|u + b| - 1] == u + b[..|b| - 1];
      TrailingSpacesOfPadded(u, b[..|b| - 1]);
    } else {
      assert u + b == u;
    }
  }

  /**
   * Strip undoes any white-space padding of a trimmed string; in particular
   * it is idempotent.
   */
  lemma {:induction false} StripPadded(a: string, t: string, b: string)
    requires AllSpace(a) && AllSpace(b) && Trimmed(t)
    ensures Strip(a + t + b) == t
  {
    var s := a + t + b;
    if |t| == 0 {
      assert LeadingSpaces(s) == |s| by {
        assert s == (a + b) + "";
        assert AllSpace(a + b);
        LeadingSpacesOfPadded(a + b, "");
      }
      assert TrimLeft(s) == "";
    } else {
      var u := t + b;
      assert LeadingSpaces(s) == |a| by {
        assert s == a + u;
        LeadingSpacesOfPadded(a, u);
      }
      assert TrimLeft(s) == u by {
        assert s[|a|..] == u;
      }
      assert TrimRight(u) == t by {
        TrailingSpacesOfPadded(t, b);
        assert u[..|u| - |b|] == t;
      }
    }
  }

  lemma StripIdempotent(s: string)
    ensures Strip(Strip(s)) == Strip(s)
  {
    StripPadded("", Strip(s), "");
    assert "" + Strip(s) + "" == Strip(s);
  }

  // ---------------------------------------------------------------------------
  // std::stoi (base 10, as strtol reads it)

  const IntMin: int := -0x8000_0000
  const IntMax: int := 0x7fff_ffff

  predicate IsDigit(c: char) { '0' <= c <= '9' }

  predicate AllDigits(s: string) {
    forall i :: 0 <= i < |s| ==> IsDigit(s[i])
  }

  /** The number of decimal digits at the front of `s`. */
  function LeadingDigitCount(s: string): (n: nat)
    ensures n <= |s|
    ensures forall i :: 0 <= i < n ==> IsDigit(s[i])
    ensures n < |s| ==> !IsDigit(s[n])
    decreases |s|
  {
    if |s| > 0 && IsDigit(s[0]) then
      var n := 1 + LeadingDigitCount(s[1..]);
      assert forall i :: 1 <= i < n ==> s[i] == s[1..][i - 1];
      n
    else 0
  }

  /** The longest prefix of `s` made of decimal digits. */
  function LeadingDigits(s: string): (r: string)
    ensures AllDigits(r)
  {
    s[..LeadingDigitCount(s)]
  }

  /** The number a string of decimal digits denotes. */
  function DigitsValue(d: string): nat
    requires AllDigits(d)
    decreases |d|
  {
    if d == [] then 0
    else DigitsValue(d[..|d| - 1]) * 10 + (d[|d| - 1] as int - '0' as int)
  }

  /**
   * `std::stoi(s)`: skips leading white space, reads an optional sign and
   * then as many decimal digits as there are; whatever follows is ignored.
   * `None` stands for the two exceptions stoi throws: no digits at all
   * (`std::invalid_argument`) and a value outside `int` (`std::out_of_range`).
   */
  function ParseInt(s: string): (r: Option<int>)
    ensures r.Some? ==> IntMin <= r.value <= IntMax
  {
    var t := TrimLeft(s);
    if |t| > 0 && t[0] == '-' then ParseMagnitude(t[1..], true)
    else if |t| > 0 && t[0] == '+' then ParseMagnitude(t[1..], false)
    else ParseMagnitude(t, false)
  }

  /** The leading digits of `u`, read as a value of `int` with the given sign. */
  function ParseMagnitude(u: string, negative: bool): (r: Option<int>)
    ensures r.Some? ==> IntMin <= r.value <= IntMax
  {
    var digits := LeadingDigits(u);
    if digits == [] then None
    else
      var magnitude: int := DigitsValue(digits);
      var v := if negative then -magnitude else magnitude;
      if IntMin <= v <= IntMax then Some(v) else None
  }

  /** The decimal digits of `n`, without leading zeros. */
  function Decimal(n: nat): (r: string)
    ensures |r| > 0 && AllDigits(r)
  {
    if n < 10 then [('0' as int + n) as char]
    else Decimal(n / 10) + [('0' as int + n % 10) as char]
  }

  lemma {:induction false} DecimalValue(n: nat)
    ensures DigitsValue(Decimal(n)) == n
  {
    var r := Decimal(n);
    if n >= 10 {
      DecimalValue(n / 10);
      assert r[..|r| - 1] == Decimal(n / 10);
    } else {
      assert r[..0] == [];
    }
  }

  lemma {:induction false} LeadingDigitsOfDigits(d: string, rest: string)
    requires AllDigits(d)
    requires |rest| > 0 ==> !IsDigit(rest[0])
    ensures LeadingDigits(d + rest) == d
    decreases |d|
  {
    if |d| > 0 {
      assert (d + rest)[1..] == d[1..] + rest;
      LeadingDigitsOfDigits(d[1..], rest);
      assert LeadingDigitCount(d + rest) == |d|;
      assert (d + rest)[..|d|] == d;
    } else {
      assert d + rest == rest;
    }
  }

  /** The digits `Decimal` writes, followed by non-digit text, read back as that number. */
  lemma MagnitudeOfDecimal(n: nat, negative: bool, rest: string)
    requires if negative then n <= -IntMin else n <= IntMax
    requires |rest| > 0 ==> !IsDigit(rest[0])
    ensures ParseMagnitude(Decimal(n) + rest, negative) == Some(if negative then -(n as int) else n)
  {
    LeadingDigitsOfDigits(Decimal(n), rest);
    DecimalValue(n);
  }

  /**
   * stoi reads back what `Decimal` writes, for every value of `int`, with or
   * without a minus sign and whatever non-digit text follows.
   */
  lemma ParseIntDecimal(n: nat, negative: bool, rest: string)
    requires if negative then n <= -IntMin else n <= IntMax
    requires |rest| > 0 ==> !IsDigit(rest[0])
    ensures ParseInt((if negative then "-" else "") + Decimal(n) + rest) == Some(if negative then -(n as int) else n)
  {
    var u := Decimal(n) + rest;
    MagnitudeOfDecimal(n, negative, rest);
    var s := (if negative then "-" else "") + u;
    assert (if negative then "-" else "") + Decimal(n) + rest == s;
    assert s[0] == '-' || IsDigit(s[0]);
    TrimLeftUnpadded(s);
    if negative {
      assert s[1..] == u;
    } else {
      assert s == u && s[0] != '-' && s[0] != '+';
    }
  }
}
