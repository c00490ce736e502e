/** The Python `str` operations the tag extraction relies on, with CPython 3
    semantics: `strip`, `split`, slicing with non-negative bounds, `int` on a
    decimal string, and the `re.search(r"\d+", s)` digit search. */
module PyStr {
  import opened Wrappers

  /** `c.isspace()`: the characters CPython's `str.strip()` removes. */
  predicate IsSpace(c: char) {
    || c == ' '
    || '\t' <= c <= '\r'
    || '\U{1c}' <= c <= '\U{1f}'
    || c == '\U{85}' || c == '\U{a0}' || c == '\U{1680}'
    || '\U{2000}' <= c <= '\U{200a}'
    || c == '\U{2028}' || c == '\U{2029}' || c == '\U{202f}' || c == '\U{205f}' || c == '\U{3000}'
  }

  predicate AllSpace(s: string) {
    forall k :: 0 <= k < |s| ==> IsSpace(s[k])
  }

  predicate IsDigit(c: char) {
    '0' <= c <= '9'
  }

  predicate AllDigits(s: string) {
    forall k :: 0 <= k < |s| ==> IsDigit(s[k])
  }

  // ---------------------------------------------------------------------------
  // strip

  /** `s.lstrip()`: the longest suffix of `s` that does not start with whitespace. */
  function StripStart(s: string): (r: string)
    ensures |r| <= |s|
    ensures r != [] ==> !IsSpace(r[0])
  {
    if s != [] && IsSpace(s[0]) then StripStart(s[1..]) else s
  }

  /** `s.rstrip()`: the longest prefix of `s` that does not end with whitespace. */
  function StripEnd(s: string): (r: string)
    ensures |r| <= |s|
    ensures r != [] ==> !IsSpace(r[|r| - 1])
  {
    if s != [] && IsSpace(s[|s| - 1]) then StripEnd(s[..|s| - 1]) else s
  }

  /** `lstrip` removes a prefix made of whitespace only. */
  lemma {:induction false} StripStartRemovesSpace(s: string)
    ensures StripStart(s) == s[|s| - |StripStart(s)|..]
    ensures AllSpace(s[..|s| - |StripStart(s)|])
  {
    if s != [] && IsSpace(s[0]) {
      var r := StripStart(s[1..]);
      StripStartRemovesSpace(s[1..]);
      assert s[..|s| - |r|] == [s[0]] + s[1..][..|s| - 1 - |r|];
    }
  }

  /** `rstrip` removes a suffix made of whitespace only. */
  lemma {:induction false} StripEndRemovesSpace(s: string)
    ensures StripEnd(s) == s[..|StripEnd(s)|]
    ensures AllSpace(s[|StripEnd(s)|..])
  {
    if s != [] && IsSpace(s[|s| - 1]) {
      var r := StripEnd(s[..|s| - 1]);
      StripEndRemovesSpace(s[..|s| - 1]);
      assert s[|r|..] == s[..|s| - 1][|r|..] + [s[|s| - 1]];
    }
  }

  /** `r` is `s` with a run of whitespace removed from each end. */
  ghost predicate TrimmedFrom(r: string, s: string) {
    exists i :: 0 <= i <= |s| - |r| && s[i..i + |r|] == r && AllSpace(s[..i]) && AllSpace(s[i + |r|..])
  }

  /** `s.strip()`: `s` without its leading and trailing whitespace. */
  function Strip(s: string): (r: string)
    ensures |r| <= |s|
    ensures r != [] ==> !IsSpace(r[0]) && !IsSpace(r[|r| - 1])
  {
    StripEndRemovesSpace(StripStart(s));
    StripEnd(StripStart(s))
  }

  /** What `strip` removes is whitespace, from the two ends only. */
  lemma StripTrims(s: string)
    ensures TrimmedFrom(Strip(s), s)
  {
    var t := StripStart(s);
    var r := StripEnd(t);
    var i := |s| - |t|;
    StripStartRemovesSpace(s);
    StripEndRemovesSpace(t);
    assert s[i..i + |r|] == r;
    assert s[i + |r|..] == t[|r|..];
  }

  lemma StripNoSpace(s: string)
    requires s != [] && !IsSpace(s[0]) && !IsSpace(s[|s| - 1])
    ensures Strip(s) == s
  {
  }

  // ---------------------------------------------------------------------------
  // find and split

  predicate OccursAt(s: string, sep: string, j: int) {
    0 <= j && j + |sep| <= |s| && s[j..j + |sep|] == sep
  }

  /** `sep in s` */
  ghost predicate Occurs(s: string, sep: string) {
    exists j :: OccursAt(s, sep, j)
  }

  lemma OccursShift(s: string, sep: string)
    requires |s| > 0
    ensures forall j :: 1 <= j ==> (OccursAt(s, sep, j) <==> OccursAt(s[1..], sep, j - 1))
  {
    forall j | 1 <= j
      ensures OccursAt(s, sep, j) <==> OccursAt(s[1..], sep, j - 1)
    {
      if j + |sep| <= |s| {
        var a, b := s[j..j + |sep|], s[1..][j - 1..j - 1 + |sep|];
        forall m | 0 <= m < |sep| ensures a[m] == b[m] { }
        assert a == b;
      }
    }
  }

  lemma OccursAtChar(s: string, c: char)
    ensures forall j :: OccursAt(s, [c], j) <==> 0 <= j < |s| && s[j] == c
  {
    forall j | 0 <= j < |s|
      ensures s[j..j + 1] == [c] <==> s[j] == c
    {
      assert s[j..j + 1] == [s[j]];
    }
  }

  /** An occurrence in a suffix is an occurrence in the whole string, shifted. */
  lemma OccursAtSuffix(s: string, sep: string, n: nat, j: nat)
    requires n <= |s|
    ensures OccursAt(s[n..], sep, j) <==> OccursAt(s, sep, n + j)
  {
    if n + j + |sep| <= |s| {
      assert s[n..][j..j + |sep|] == s[n + j..n + j + |sep|];
    }
  }

  /** `s.find(sep)`: the leftmost occurrence of `sep` in `s`, if any. */
  function Find(s: string, sep: string): (r: Option<nat>)
    ensures r.Some? ==> OccursAt(s, sep, r.value)
    ensures forall j :: 0 <= j && (r.None? || j < r.value) ==> !OccursAt(s, sep, j)
    decreases |s|
  {
    if |s| < |sep| then
      None
    else if s[..|sep|] == sep then
      Some(0)
    else
      OccursShift(s, sep);
      match Find(s[1..], sep)
      case None => None
      case Some(k) => Some(k + 1)
  }

  /** `s.split(sep)` for a non-empty separator: the pieces between the
      non-overlapping occurrences of `sep`, found from the left. */
  function Split(s: string, sep: string): (r: seq<string>)
    requires |sep| > 0
    ensures |r| >= 1
    decreases |s|
  {
    match Find(s, sep)
    case None => [s]
    case Some(k) => [s[..k]] + Split(s[k + |sep|..], sep)
  }

  /** `sep.join(pieces)` */
  function Join(pieces: seq<string>, sep: string): string
    requires |pieces| >= 1
  {
    if |pieces| == 1 then pieces[0] else pieces[0] + sep + Join(pieces[1..], sep)
  }

  /** Joining the pieces of a split with the separator gives back the string. */
  lemma {:induction false} SplitJoin(s: string, sep: string)
    requires |sep| > 0
    ensures Join(Split(s, sep), sep) == s
    decreases |s|
  {
    var f := Find(s, sep);
    if f.Some? {
      var k := f.value;
      var rest := s[k + |sep|..];
      SplitJoin(rest, sep);
      var p := Split(s, sep);
      assert p[1..] == Split(rest, sep);
      Recompose(s, sep, k);
    }
  }

  lemma Recompose(s: string, sep: string, k: nat)
    requires OccursAt(s, sep, k)
    ensures s == s[..k] + sep + s[k + |sep|..]
  {
    assert s == s[..k] + s[k..k + |sep|] + s[k + |sep|..];
  }

  /** No piece of a split contains the separator. */
  lemma {:induction false} SplitPiecesAvoidSeparator(s: string, sep: string)
    requires |sep| > 0
    ensures forall i :: 0 <= i < |Split(s, sep)| ==> !Occurs(Split(s, sep)[i], sep)
    decreases |s|
  {
    match Find(s, sep)
    case None =>
    case Some(k) =>
      var rest := s[k + |sep|..];
      SplitPiecesAvoidSeparator(rest, sep);
      assert Split(s, sep)[1..] == Split(rest, sep);
      forall j | OccursAt(s[..k], sep, j)
        ensures false
      {
        assert s[..k][j..j + |sep|] == s[j..j + |sep|];
        assert OccursAt(s, sep, j);
      }
  }

  /** Splitting on one character: the first piece is the text before the first
      occurrence of that character, and the remaining pieces are the split of
      the text after it. */
  lemma SplitOnChar(s: string, c: char)
    ensures var p := Split(s, [c]);
      && c !in p[0]
      && p[0] == s[..|p[0]|]
      && (|p| == 1 <==> c !in s)
      && (|p| > 1 ==> s[|p[0]|] == c && p[1..] == Split(s[|p[0]| + 1..], [c]))
  {
    OccursAtChar(s, c);
    var p := Split(s, [c]);
    match Find(s, [c])
    case None =>
      assert p == [s];
    case Some(k) =>
      assert p[0] == s[..k];
      assert s[k] == c;
      forall j | 0 <= j < k
        ensures s[..k][j] != c
      {
        assert !OccursAt(s, [c], j);
      }
  }

  // ---------------------------------------------------------------------------
  // slicing

  /** A slice of a suffix is a slice of the whole. */
  lemma SliceOfSlice(s: string, a: nat, i: nat, n: nat)
    requires a + i + n <= |s|
    ensures s[a..][i..i + n] == s[a + i..a + i + n]
    ensures a + i + n < |s| ==> s[a..][i + n] == s[a + i + n]
  {
  }

  /** `s[1:-1]` */
  function DropEnds(s: string): (r: string)
    ensures |s| >= 2 ==> |r| == |s| - 2 && s == [s[0]] + r + [s[|s| - 1]]
    ensures |s| < 2 ==> r == []
  {
    if |s| >= 2 then s[1..|s| - 1] else []
  }

  function Min(a: nat, b: nat): nat {
    if a <= b then a else b
  }

  /** `s[lo:hi]` for non-negative bounds: bounds past the end are clamped and
      an empty range gives the empty string, never an error. */
  function Slice(s: string, lo: nat, hi: nat): string {
    var a := Min(lo, |s|);
    var b := Min(hi, |s|);
    if a <= b then s[a..b] else []
  }

  // ---------------------------------------------------------------------------
  // decimal digits: int(s) and re.search(r"\d+", s)

  function DigitValue(c: char): nat
    requires IsDigit(c)
  {
    (c as int) - ('0' as int)
  }

  function DigitChar(d: nat): (c: char)
    requires d < 10
    ensures IsDigit(c) && DigitValue(c) == d
  {
    ('0' as int + d) as char
  }

  /** The value of a string of decimal digits, most significant first. */
  function DecimalValue(s: string): nat
    requires AllDigits(s)
  {
    if s == [] then 0 else 10 * DecimalValue(s[..|s| - 1]) + DigitValue(s[|s| - 1])
  }

  /** The decimal spelling of `n`, without leading zeros. */
  function DecimalString(n: nat): (s: string)
    ensures |s| > 0 && AllDigits(s)
  {
    if n < 10 then [DigitChar(n)] else DecimalString(n / 10) + [DigitChar(n % 10)]
  }

  lemma {:induction false} DecimalValueOfString(n: nat)
    ensures DecimalValue(DecimalString(n)) == n
  {
    if n >= 10 {
      var s := DecimalString(n);
      assert s[..|s| - 1] == DecimalString(n / 10);
      DecimalValueOfString(n / 10);
    }
  }

  /** `int(s)` for a non-negative decimal: surrounding whitespace and a leading
      `+` are accepted, as CPython does; anything else is `None` here. */
  function ParseInt(s: string): Option<nat> {
    var t := Strip(s);
    var digits := if |t| > 0 && t[0] == '+' then t[1..] else t;
    if |digits| > 0 && AllDigits(digits) then Some(DecimalValue(digits)) else None
  }

  /** `int(str(n)) == n` */
  lemma ParseIntOfDecimalString(n: nat)
    ensures ParseInt(DecimalString(n)) == Some(n)
  {
    var s := DecimalString(n);
    assert !IsSpace(s[0]) && !IsSpace(s[|s| - 1]);
    StripNoSpace(s);
    assert s[0] != '+';
    DecimalValueOfString(n);
  }

  /** The longest prefix of `s` made of digits. */
  function DigitPrefix(s: string): (r: string)
    ensures |r| <= |s| && r == s[..|r|] && AllDigits(r)
    ensures |r| == |s| || !IsDigit(s[|r|])
  {
    if s != [] && IsDigit(s[0]) then [s[0]] + DigitPrefix(s[1..]) else []
  }

  /** `ds` is the leftmost maximal run of digits in `s`, starting at `i`. */
  predicate LeftmostDigitRun(s: string, i: int, ds: string) {
    && 0 <= i && i + |ds| <= |s| && s[i..i + |ds|] == ds
    && |ds| > 0 && AllDigits(ds)
    && (forall k :: 0 <= k < i ==> !IsDigit(s[k]))
    && (i + |ds| == |s| || !IsDigit(s[i + |ds|]))
  }

  /** `re.search(r"\d+", s).group()`, or `None` when the search finds nothing. */
  function SearchDigits(s: string): (r: Option<string>)
    ensures r.None? <==> forall k :: 0 <= k < |s| ==> !IsDigit(s[k])
    ensures r.Some? ==> |r.value| > 0 && AllDigits(r.value)
  {
    if s == [] then None
    else if IsDigit(s[0]) then Some(DigitPrefix(s))
    else
      var r := SearchDigits(s[1..]);
      assert forall k :: 1 <= k < |s| ==> s[k] == s[1..][k - 1];
      r
  }

  /** What the search finds is the leftmost maximal run of digits. */
  lemma {:induction false} SearchDigitsLeftmost(s: string)
    requires SearchDigits(s).Some?
    ensures exists i :: LeftmostDigitRun(s, i, SearchDigits(s).value)
  {
    if IsDigit(s[0]) {
      assert LeftmostDigitRun(s, 0, SearchDigits(s).value);
    } else {
      assert SearchDigits(s) == SearchDigits(s[1..]);
      SearchDigitsLeftmost(s[1..]);
      var ds := SearchDigits(s).value;
      var i :| LeftmostDigitRun(s[1..], i, ds);
      SliceOfSlice(s, 1, i, |ds|);
      assert LeftmostDigitRun(s, i + 1, ds);
    }
  }

  lemma {:induction false} DigitPrefixStopsAtNonDigit(s: string, t: string)
    requires t != [] && !IsDigit(t[0])
    ensures DigitPrefix(s + t) == DigitPrefix(s)
  {
    if s != [] {
      assert (s + t)[1..] == s[1..] + t;
      DigitPrefixStopsAtNonDigit(s[1..], t);
    }
  }

  /** Appending text that starts with a non-digit, such as `";}"`, changes
      nothing the digit search finds. */
  lemma {:induction false} SearchDigitsIgnoresSuffix(s: string, t: string)
    requires t != [] && !IsDigit(t[0])
    requires forall k :: 0 <= k < |t| ==> !IsDigit(t[k])
    ensures SearchDigits(s + t) == SearchDigits(s)
  {
    if s == [] {
      assert s + t == t;
    } else if IsDigit(s[0]) {
      DigitPrefixStopsAtNonDigit(s, t);
    } else {
      assert (s + t)[1..] == s[1..] + t;
      SearchDigitsIgnoresSuffix(s[1..], t);
    }
  }
}
