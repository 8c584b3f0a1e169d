/** The string normalisers of the controllers: the slug/username normaliser
    `strtolower(preg_replace('/\s+/', '', x))`, decimal rendering of the
    disambiguation counter, and `GROUP_CONCAT` / `explode` on comma-joined lists. */
module Text {
  import opened Common

  /** The characters PCRE's `\s` matches outside UTF mode: space, tab, line feed,
      vertical tab, form feed and carriage return. */
  predicate IsSpace(c: char) {
    c == ' ' || c == '\t' || c == '\n' || c == '\U{000B}' || c == '\U{000C}' || c == '\r'
  }

  /** The characters PHP's `trim` strips by default: space, tab, line feed, carriage return,
      NUL and vertical tab. */
  predicate IsTrimmed(c: char) {
    c == ' ' || c == '\t' || c == '\n' || c == '\r' || c == '\U{0000}' || c == '\U{000B}'
  }

  /** A string `trim` empties: Laravel's `required` rule rejects it like a missing value. */
  predicate Blank(s: string) {
    forall i | 0 <= i < |s| :: IsTrimmed(s[i])
  }

  /** PHP `trim(s)`: the trimmed characters removed from both ends. */
  function Trim(s: string): string {
    TrimRight(TrimLeft(s))
  }

  function TrimLeft(s: string): (r: string)
    ensures |r| <= |s|
    ensures |r| > 0 ==> !IsTrimmed(r[0])
    ensures r == s[|s| - |r|..]
    decreases |s|
  {
    if |s| > 0 && IsTrimmed(s[0]) then TrimLeft(s[1..]) else s
  }

  function TrimRight(s: string): (r: string)
    ensures |r| <= |s|
    ensures r == s[..|r|]
    decreases |s|
  {
    if |s| > 0 && IsTrimmed(s[|s| - 1]) then TrimRight(s[..|s| - 1]) else s
  }

  /** A string is blank exactly when `trim` leaves nothing of it. */
  lemma {:induction false} BlankIffTrimmedEmpty(s: string)
    ensures Blank(s) <==> Trim(s) == ""
    decreases |s|
  {
    if |s| > 0 && IsTrimmed(s[0]) {
      BlankIffTrimmedEmpty(s[1..]);
      assert Blank(s) <==> Blank(s[1..]) by {
        assert forall i | 1 <= i < |s| :: s[i] == s[1..][i - 1];
      }
    } else if |s| > 0 {
      var l := TrimLeft(s);
      assert l == s;
      assert TrimRight(l) == l[..|TrimRight(l)|];
      assert !Blank(s);
      assert Trim(s) != "" by {
        TrimRightKeepsHead(s);
      }
    }
  }

  /** Trimming the right end keeps a first character that `trim` does not strip. */
  lemma {:induction false} TrimRightKeepsHead(s: string)
    requires |s| > 0 && !IsTrimmed(s[0])
    ensures |TrimRight(s)| > 0
    decreases |s|
  {
    if IsTrimmed(s[|s| - 1]) {
      TrimRightKeepsHead(s[..|s| - 1]);
    }
  }

  predicate IsUpper(c: char) {
    'A' <= c <= 'Z'
  }

  /** PHP 8 `strtolower` on one character: ASCII letters only, everything else unchanged. */
  function Lower(c: char): (r: char)
    ensures !IsUpper(r)
    ensures IsSpace(r) <==> IsSpace(c)
    ensures !IsUpper(c) ==> r == c
  {
    if IsUpper(c) then (c as int + 32) as char else c
  }

  /** A string a slug cannot change: no whitespace and no upper-case ASCII letter. */
  ghost predicate Normalized(s: string) {
    forall i | 0 <= i < |s| :: !IsSpace(s[i]) && !IsUpper(s[i])
  }

  /** `preg_replace('/\s+/', '', s)`: every run of whitespace removed. */
  function StripSpace(s: string): (r: string)
    ensures |r| <= |s|
    ensures forall i | 0 <= i < |r| :: !IsSpace(r[i])
    decreases |s|
  {
    if |s| == 0 then []
    else (if IsSpace(s[0]) then [] else [s[0]]) + StripSpace(s[1..])
  }

  /** `strtolower(s)`, character by character. */
  function ToLower(s: string): (r: string)
    ensures |r| == |s|
    ensures forall i | 0 <= i < |s| :: r[i] == Lower(s[i])
  {
    seq(|s|, i requires 0 <= i < |s| => Lower(s[i]))
  }

  /** The slug of a display name (role slugs, subject slugs, the base of a username). */
  function Slug(s: string): (r: string)
    ensures Normalized(r)
    ensures |r| <= |s|
  {
    ToLower(StripSpace(s))
  }

  /** The slug of one character: whitespace vanishes, a letter is lowered. */
  lemma SlugChar(c: char)
    ensures Slug([c]) == if IsSpace(c) then [] else [Lower(c)]
  {
    assert [c][1..] == [];
  }

  /** The slug distributes over concatenation; with `SlugChar` this pins the slug down completely. */
  lemma {:induction false} SlugAppend(a: string, b: string)
    ensures Slug(a + b) == Slug(a) + Slug(b)
    decreases |a|
  {
    StripAppend(a, b);
    assert ToLower(StripSpace(a) + StripSpace(b)) == ToLower(StripSpace(a)) + ToLower(StripSpace(b));
  }

  lemma {:induction false} StripAppend(a: string, b: string)
    ensures StripSpace(a + b) == StripSpace(a) + StripSpace(b)
    decreases |a|
  {
    if |a| > 0 {
      assert (a + b)[0] == a[0];
      assert (a + b)[1..] == a[1..] + b;
      StripAppend(a[1..], b);
      var head := if IsSpace(a[0]) then [] else [a[0]];
      assert StripSpace(a + b) == head + StripSpace(a[1..] + b);
      assert StripSpace(a) == head + StripSpace(a[1..]);
    } else {
      assert a + b == b;
    }
  }

  /** A normalised string is its own slug. */
  lemma {:induction false} SlugOfNormalized(s: string)
    requires Normalized(s)
    ensures Slug(s) == s
  {
    StripOfSpaceless(s);
  }

  lemma {:induction false} StripOfSpaceless(s: string)
    requires forall i | 0 <= i < |s| :: !IsSpace(s[i])
    ensures StripSpace(s) == s
    decreases |s|
  {
    if |s| > 0 {
      StripOfSpaceless(s[1..]);
      assert s == [s[0]] + s[1..];
    }
  }

  /** The fixed points of the slug are exactly the normalised strings. */
  lemma SlugFixedPoint(s: string)
    ensures Slug(s) == s <==> Normalized(s)
  {
    if Normalized(s) {
      SlugOfNormalized(s);
    }
  }

  /** Taking the slug twice gives the slug. */
  lemma SlugIdempotent(s: string)
    ensures Slug(Slug(s)) == Slug(s)
  {
    SlugOfNormalized(Slug(s));
  }

  predicate IsDigit(c: char) {
    '0' <= c <= '9'
  }

  function DigitChar(d: nat): (c: char)
    requires d < 10
    ensures IsDigit(c)
    ensures c as int - '0' as int == d
  {
    ('0' as int + d) as char
  }

  /** PHP's int-to-string conversion of a non-negative counter: decimal, no leading zeros. */
  function NatToString(n: nat): (r: string)
    ensures |r| >= 1
    ensures forall i | 0 <= i < |r| :: IsDigit(r[i])
    ensures |r| > 1 ==> r[0] != '0'
  {
    if n < 10 then [DigitChar(n)] else NatToString(n / 10) + [DigitChar(n % 10)]
  }

  /** The value of a string of decimal digits; the inverse of `NatToString`. */
  function ParseNat(s: string): nat
    requires forall i | 0 <= i < |s| :: IsDigit(s[i])
  {
    if |s| == 0 then 0
    else
      var d := s[|s| - 1] as int - '0' as int;
      assert IsDigit(s[|s| - 1]);
      assert d >= 0;
      ParseNat(s[..|s| - 1]) * 10 + d
  }

  lemma {:induction false} ParseNatToString(n: nat)
    ensures ParseNat(NatToString(n)) == n
  {
    var s := NatToString(n);
    if n >= 10 {
      ParseNatToString(n / 10);
      assert s[..|s| - 1] == NatToString(n / 10);
    }
  }

  /** Different counters render to different strings. */
  lemma NatToStringInjective(m: nat, n: nat)
    ensures NatToString(m) == NatToString(n) ==> m == n
  {
    ParseNatToString(m);
    ParseNatToString(n);
  }

  /** The index of the first `sep` in `s`, if any. */
  function IndexOf(s: string, sep: char): (r: Option<nat>)
    ensures r.Some? ==> r.value < |s| && s[r.value] == sep && sep !in s[..r.value]
    ensures r.None? <==> sep !in s
    decreases |s|
  {
    if |s| == 0 then None
    else if s[0] == sep then Some(0)
    else
      var r := IndexOf(s[1..], sep);
      assert s == [s[0]] + s[1..];
      if r.None? then None
      else
        assert s[..r.value + 1] == [s[0]] + s[1..][..r.value];
        Some(r.value + 1)
  }

  /** MySQL `GROUP_CONCAT` with its default separator: the items joined by `sep`. */
  function Join(xs: seq<string>, sep: char): string
    decreases |xs|
  {
    if |xs| == 0 then ""
    else if |xs| == 1 then xs[0]
    else xs[0] + [sep] + Join(xs[1..], sep)
  }

  /** PHP `explode(sep, s)`: the pieces between separators; an empty string gives one empty piece. */
  function Split(s: string, sep: char): (r: seq<string>)
    ensures |r| >= 1
    decreases |s|
  {
    match IndexOf(s, sep)
    case None => [s]
    case Some(i) => [s[..i]] + Split(s[i + 1..], sep)
  }

  /** `explode` undoes `GROUP_CONCAT` for a non-empty group whose items contain no separator. */
  lemma {:induction false} SplitJoin(xs: seq<string>, sep: char)
    requires |xs| >= 1
    requires forall k | 0 <= k < |xs| :: sep !in xs[k]
    ensures Split(Join(xs, sep), sep) == xs
    decreases |xs|
  {
    if |xs| == 1 {
      assert IndexOf(xs[0], sep).None?;
    } else {
      SplitHead(xs[0], Join(xs[1..], sep), sep);
      SplitJoin(xs[1..], sep);
      assert xs == [xs[0]] + xs[1..];
    }
  }

  /** Splitting `head`, a separator and `rest` peels off `head` when it holds no separator. */
  lemma SplitHead(head: string, rest: string, sep: char)
    requires sep !in head
    ensures Split(head + [sep] + rest, sep) == [head] + Split(rest, sep)
  {
    var s := head + [sep] + rest;
    var i := |head|;
    assert s[..i] == head;
    assert s[i] == sep;
    assert IndexOf(s, sep) == Some(i);
    assert s[i + 1..] == rest;
  }
}
