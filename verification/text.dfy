/** The JavaScript string operations the cloning pipeline and the command
    translation rely on, over `string` (a sequence of characters):
    `indexOf`/`includes`/`startsWith`, `replace` with a string pattern (first
    occurrence only), `replace` with an escaped global regular expression
    (every non-overlapping occurrence), `trim`, and the decimal rendering of
    a counter inside a template literal. `Split`, `Join` and `MatchCount` are
    not used by the program: they are an independent reference definition
    that the global replace is proved against. */
module Text {
  import opened Wrappers

  /** `pat` occurs in `s` starting at index `i`. */
  predicate OccursAt(s: string, pat: string, i: nat) {
    i + |pat| <= |s| && s[i..i + |pat|] == pat
  }

  /** `s.startsWith(p)`. */
  predicate StartsWith(s: string, p: string) {
    OccursAt(s, p, 0)
  }

  /** `i` is the leftmost index at which `pat` occurs in `s`. */
  predicate FirstOccurrence(s: string, pat: string, i: nat) {
    OccursAt(s, pat, i) && forall j: nat :: j < i ==> !OccursAt(s, pat, j)
  }

  /** `s.indexOf(pat, from)`, with -1 rendered as None. */
  function IndexOfFrom(s: string, pat: string, from: nat): (r: Option<nat>)
    decreases |s| - from
    ensures r.Some? ==> from <= r.value && OccursAt(s, pat, r.value)
    ensures r.Some? ==> forall j: nat :: from <= j < r.value ==> !OccursAt(s, pat, j)
    ensures r.None? ==> forall j: nat :: from <= j ==> !OccursAt(s, pat, j)
  {
    if from + |pat| > |s| then None
    else if OccursAt(s, pat, from) then Some(from)
    else IndexOfFrom(s, pat, from + 1)
  }

  /** `s.indexOf(pat)`: the leftmost occurrence, if any. */
  function IndexOf(s: string, pat: string): (r: Option<nat>)
    ensures r.Some? ==> FirstOccurrence(s, pat, r.value)
    ensures r.None? <==> forall j: nat :: !OccursAt(s, pat, j)
  {
    IndexOfFrom(s, pat, 0)
  }

  /** `s.includes(pat)`. */
  predicate Contains(s: string, pat: string)
    ensures Contains(s, pat) <==> exists i: nat :: OccursAt(s, pat, i)
  {
    IndexOf(s, pat).Some?
  }

  /** `s.replace(pat, rep)` with a string pattern and a replacement free of `$`
      patterns: only the first occurrence is replaced. */
  function ReplaceFirst(s: string, pat: string, rep: string): (r: string)
    ensures !Contains(s, pat) ==> r == s
    ensures forall i: nat :: FirstOccurrence(s, pat, i) ==> r == s[..i] + rep + s[i + |pat|..]
  {
    match IndexOf(s, pat)
    case None => s
    case Some(i) => s[..i] + rep + s[i + |pat|..]
  }

  /** A regular expression built from `pat` with every metacharacter escaped,
      used with the global flag: the replacement goes in for every
      non-overlapping occurrence, scanning left to right. An empty pattern
      matches at every index, so the replacement lands before every character
      and at the end. */
  function ReplaceAll(s: string, pat: string, rep: string): string {
    if |pat| == 0 then InsertEverywhere(s, rep) else ReplaceScan(s, pat, rep)
  }

  /** The left-to-right scan of a global match with a non-empty pattern. */
  function ReplaceScan(s: string, pat: string, rep: string): string
    requires |pat| > 0
    decreases |s|
  {
    if |s| < |pat| then s
    else if s[..|pat|] == pat then rep + ReplaceScan(s[|pat|..], pat, rep)
    else [s[0]] + ReplaceScan(s[1..], pat, rep)
  }

  /** What a global match of the empty pattern does: `rep` at every index. */
  function InsertEverywhere(s: string, rep: string): string {
    if |s| == 0 then rep else rep + [s[0]] + InsertEverywhere(s[1..], rep)
  }

  /** `s.split(sep)` with a non-empty string separator: the text between
      consecutive leftmost non-overlapping occurrences. */
  function Split(s: string, sep: string): (pieces: seq<string>)
    requires |sep| > 0
    decreases |s|
    ensures |pieces| >= 1
    ensures forall k :: 0 <= k < |pieces| ==> !Contains(pieces[k], sep)
  {
    match IndexOf(s, sep)
    case None => [s]
    case Some(i) =>
      PrefixBeforeFirstIsFree(s, sep, i);
      [s[..i]] + Split(s[i + |sep|..], sep)
  }

  /** `pieces.join(sep)`. */
  function Join(pieces: seq<string>, sep: string): string {
    if |pieces| == 0 then ""
    else if |pieces| == 1 then pieces[0]
    else pieces[0] + sep + Join(pieces[1..], sep)
  }

  /** The number of non-overlapping occurrences a global match finds. */
  function MatchCount(s: string, pat: string): nat
    requires |pat| > 0
  {
    |Split(s, pat)| - 1
  }

  /** Total length of a list of strings. */
  function TotalLength(pieces: seq<string>): nat {
    if |pieces| == 0 then 0 else |pieces[0]| + TotalLength(pieces[1..])
  }

  lemma PrefixBeforeFirstIsFree(s: string, pat: string, i: nat)
    requires |pat| > 0 && FirstOccurrence(s, pat, i)
    ensures !Contains(s[..i], pat)
  {
    forall j: nat | OccursAt(s[..i], pat, j)
      ensures false
    {
      assert s[..i][j..j + |pat|] == s[j..j + |pat|];
      assert OccursAt(s, pat, j);
    }
  }

  lemma ShiftOccurrence(s: string, pat: string, j: nat)
    requires |s| > 0
    ensures OccursAt(s[1..], pat, j) <==> OccursAt(s, pat, j + 1)
  {
    if j + |pat| <= |s[1..]| {
      assert s[1..][j..j + |pat|] == s[j + 1..j + 1 + |pat|];
    }
  }

  lemma {:induction false} ScanWithoutOccurrence(s: string, pat: string, rep: string)
    requires |pat| > 0
    requires forall j: nat :: !OccursAt(s, pat, j)
    ensures ReplaceScan(s, pat, rep) == s
    decreases |s|
  {
    if |s| >= |pat| {
      assert !OccursAt(s, pat, 0);
      forall j: nat
        ensures !OccursAt(s[1..], pat, j)
      {
        ShiftOccurrence(s, pat, j);
      }
      ScanWithoutOccurrence(s[1..], pat, rep);
      assert [s[0]] + s[1..] == s;
    }
  }

  /** The scan copies everything before the first occurrence, then replaces it. */
  lemma {:induction false} ScanUpToFirst(s: string, pat: string, rep: string, i: nat)
    requires |pat| > 0
    requires FirstOccurrence(s, pat, i)
    ensures ReplaceScan(s, pat, rep) == s[..i] + rep + ReplaceScan(s[i + |pat|..], pat, rep)
    decreases i
  {
    if i == 0 {
      assert s[..|pat|] == pat;
    } else {
      assert !OccursAt(s, pat, 0);
      assert s[..|pat|] != pat;
      var t := s[1..];
      assert ReplaceScan(s, pat, rep) == [s[0]] + ReplaceScan(t, pat, rep);
      ShiftOccurrence(s, pat, i - 1);
      forall j: nat | j < i - 1
        ensures !OccursAt(t, pat, j)
      {
        ShiftOccurrence(s, pat, j);
      }
      assert FirstOccurrence(t, pat, i - 1);
      var tail := ReplaceScan(s[i + |pat|..], pat, rep);
      calc {
        ReplaceScan(s, pat, rep);
        [s[0]] + ReplaceScan(t, pat, rep);
        { ScanUpToFirst(t, pat, rep, i - 1);
          assert t[i - 1 + |pat|..] == s[i + |pat|..]; }
        [s[0]] + (t[..i - 1] + rep + tail);
        { Regroup([s[0]], t[..i - 1], rep, tail); }
        [s[0]] + t[..i - 1] + rep + tail;
        { assert [s[0]] + t[..i - 1] == s[..i]; }
        s[..i] + rep + tail;
      }
    }
  }

  /** Concatenation regrouped. */
  lemma Regroup(a: string, b: string, c: string, d: string)
    ensures a + (b + c) + d == a + b + c + d
    ensures a + (b + c + d) == a + b + c + d
  {
  }

  /** The global literal replace is the split/join idiom. */
  lemma {:induction false} ReplaceAllIsSplitJoin(s: string, pat: string, rep: string)
    requires |pat| > 0
    ensures ReplaceAll(s, pat, rep) == Join(Split(s, pat), rep)
    decreases |s|
  {
    match IndexOf(s, pat)
    case None =>
      ScanWithoutOccurrence(s, pat, rep);
    case Some(i) =>
      ScanUpToFirst(s, pat, rep, i);
      ReplaceAllIsSplitJoin(s[i + |pat|..], pat, rep);
      var rest := Split(s[i + |pat|..], pat);
      assert Split(s, pat) == [s[..i]] + rest;
      assert ([s[..i]] + rest)[1..] == rest;
  }

  /** Joining the pieces of a split with the same separator gives the text back. */
  lemma {:induction false} SplitJoinRoundTrip(s: string, sep: string)
    requires |sep| > 0
    ensures Join(Split(s, sep), sep) == s
    decreases |s|
  {
    match IndexOf(s, sep)
    case None =>
    case Some(i) =>
      SplitJoinRoundTrip(s[i + |sep|..], sep);
      var rest := Split(s[i + |sep|..], sep);
      assert ([s[..i]] + rest)[1..] == rest;
      assert s[..i] + sep + s[i + |sep|..] == s by {
        assert s[i..i + |sep|] == sep;
      }
  }

  /** Text that does not contain the pattern comes back unchanged. */
  lemma ReplaceAllWithoutMatch(s: string, pat: string, rep: string)
    requires |pat| > 0 && !Contains(s, pat)
    ensures ReplaceAll(s, pat, rep) == s
  {
    ReplaceAllIsSplitJoin(s, pat, rep);
  }

  /** Replacing a pattern by itself changes nothing, including the empty pattern. */
  lemma {:induction false} ReplaceAllByItself(s: string, pat: string)
    ensures ReplaceAll(s, pat, pat) == s
    decreases |s|
  {
    if |pat| == 0 {
      if |s| > 0 {
        ReplaceAllByItself(s[1..], pat);
        assert [s[0]] + s[1..] == s;
      }
    } else {
      ReplaceAllIsSplitJoin(s, pat, pat);
      SplitJoinRoundTrip(s, pat);
    }
  }

  lemma {:induction false} JoinLength(pieces: seq<string>, sep: string)
    requires |pieces| >= 1
    ensures |Join(pieces, sep)| == TotalLength(pieces) + (|pieces| - 1) * |sep|
    decreases |pieces|
  {
    if |pieces| > 1 {
      JoinLength(pieces[1..], sep);
    }
  }

  /** Every replaced occurrence changes the length by `|rep| - |pat|`. */
  lemma ReplaceAllLength(s: string, pat: string, rep: string)
    requires |pat| > 0
    ensures |ReplaceAll(s, pat, rep)| == |s| + MatchCount(s, pat) * (|rep| - |pat|)
  {
    var pieces := Split(s, pat);
    var n, total := |pieces| - 1, TotalLength(pieces);
    ReplaceAllIsSplitJoin(s, pat, rep);
    SplitJoinRoundTrip(s, pat);
    JoinLength(pieces, rep);
    JoinLength(pieces, pat);
    assert MatchCount(s, pat) == n;
    LengthChange(|ReplaceAll(s, pat, rep)|, |s|, total, n, |rep|, |pat|);
  }

  /** `n` pieces of length `x` in place of `n` of length `y`. */
  lemma LengthChange(after: int, before: int, total: int, n: int, x: int, y: int)
    requires after == total + n * x && before == total + n * y
    ensures after == before + n * (x - y)
  {
    assert n * x == n * y + n * (x - y);
  }

  /** A pattern that occurs is found at least once. */
  lemma MatchCountPositive(s: string, pat: string)
    requires |pat| > 0 && Contains(s, pat)
    ensures MatchCount(s, pat) >= 1
  {
  }

  // ---------------------------------------------------------------------
  // String.prototype.trim

  /** The characters `trim` removes: ECMAScript WhiteSpace and LineTerminator. */
  predicate IsJsWhitespace(c: char) {
    || c == '\t' || c == '\n' || c == '\U{000B}' || c == '\U{000C}' || c == '\r'
    || c == ' ' || c == '\U{00A0}' || c == '\U{1680}'
    || ('\U{2000}' <= c <= '\U{200A}')
    || c == '\U{2028}' || c == '\U{2029}' || c == '\U{202F}' || c == '\U{205F}'
    || c == '\U{3000}' || c == '\U{FEFF}'
  }

  /** The index of the first non-whitespace character at or after `i`. */
  function SkipLeading(s: string, i: nat): (lo: nat)
    requires i <= |s|
    decreases |s| - i
    ensures i <= lo <= |s|
    ensures forall k :: i <= k < lo ==> IsJsWhitespace(s[k])
    ensures lo < |s| ==> !IsJsWhitespace(s[lo])
  {
    if i < |s| && IsJsWhitespace(s[i]) then SkipLeading(s, i + 1) else i
  }

  /** The end of `s[lo..hi]` once trailing whitespace is dropped. */
  function SkipTrailing(s: string, lo: nat, hi: nat): (end: nat)
    requires lo <= hi <= |s|
    decreases hi
    ensures lo <= end <= hi
    ensures forall k :: end <= k < hi ==> IsJsWhitespace(s[k])
    ensures end > lo ==> !IsJsWhitespace(s[end - 1])
  {
    if hi > lo && IsJsWhitespace(s[hi - 1]) then SkipTrailing(s, lo, hi - 1) else hi
  }

  /** A string with no whitespace at either end. */
  predicate IsTrimmed(s: string) {
    |s| == 0 || (!IsJsWhitespace(s[0]) && !IsJsWhitespace(s[|s| - 1]))
  }

  /** `s.trim()`: the longest middle slice that does not start or end with
      whitespace, obtained by dropping only whitespace. */
  function Trim(s: string): (r: string)
    ensures IsTrimmed(r)
    ensures exists lo, hi :: 0 <= lo <= hi <= |s| && r == s[lo..hi]
                             && (forall k :: 0 <= k < lo ==> IsJsWhitespace(s[k]))
                             && (forall k :: hi <= k < |s| ==> IsJsWhitespace(s[k]))
  {
    var lo := SkipLeading(s, 0);
    var hi := SkipTrailing(s, lo, |s|);
    assert s[lo..hi] == s[lo..hi];
    s[lo..hi]
  }

  lemma TrimTrimmed(s: string)
    requires IsTrimmed(s)
    ensures Trim(s) == s
  {
    var lo := SkipLeading(s, 0);
    var hi := SkipTrailing(s, lo, |s|);
    if |s| > 0 {
      assert lo == 0;
      assert hi == |s|;
    }
  }

  /** Trimming twice is trimming once. */
  lemma TrimIdempotent(s: string)
    ensures Trim(Trim(s)) == Trim(s)
  {
    TrimTrimmed(Trim(s));
  }

  // ---------------------------------------------------------------------
  // Decimal rendering of a counter (`${n}` in a template literal)

  predicate IsDigit(c: char) {
    '0' <= c <= '9'
  }

  predicate AllDigits(s: string) {
    forall k :: 0 <= k < |s| ==> IsDigit(s[k])
  }

  function DigitChar(d: nat): (c: char)
    requires d < 10
    ensures IsDigit(c)
  {
    (48 + d) as char
  }

  function DigitValue(c: char): (d: nat)
    requires IsDigit(c)
    ensures d < 10
  {
    (c as int - 48) as nat
  }

  /** The decimal form of `n`: one or more digits, no leading zero. */
  function NatToString(n: nat): (r: string)
    decreases n
    ensures |r| >= 1 && AllDigits(r)
    ensures r[0] == '0' ==> n == 0 && |r| == 1
  {
    if n < 10 then [DigitChar(n)] else NatToString(n / 10) + [DigitChar(n % 10)]
  }

  /** Reads a string of decimal digits back as a number. */
  function ParseDecimal(s: string): nat
    requires AllDigits(s)
    decreases |s|
  {
    if |s| == 0 then 0 else ParseDecimal(s[..|s| - 1]) * 10 + DigitValue(s[|s| - 1])
  }

  lemma {:induction false} ParseNatToString(n: nat)
    ensures ParseDecimal(NatToString(n)) == n
    decreases n
  {
    if n >= 10 {
      ParseNatToString(n / 10);
      var r := NatToString(n);
      assert r[..|r| - 1] == NatToString(n / 10);
    }
  }

  /** Distinct counters render as distinct decimal strings. */
  lemma NatToStringInjective(m: nat, n: nat)
    requires NatToString(m) == NatToString(n)
    ensures m == n
  {
    ParseNatToString(m);
    ParseNatToString(n);
  }

  /** A run of digits followed by text that does not start with a digit can be
      split back into the two parts. */
  lemma DigitsThenNonDigit(d1: string, e1: string, d2: string, e2: string)
    requires AllDigits(d1) && AllDigits(d2)
    requires |e1| == 0 || !IsDigit(e1[0])
    requires |e2| == 0 || !IsDigit(e2[0])
    requires d1 + e1 == d2 + e2
    ensures d1 == d2 && e1 == e2
  {
    if |d1| < |d2| {
      DigitsDisagreeAt(d1, e1, d2, e2);
    } else if |d2| < |d1| {
      DigitsDisagreeAt(d2, e2, d1, e1);
    }
    var s := d1 + e1;
    assert d1 == s[..|d1|] == d2;
    assert e1 == s[|d1|..] == e2;
  }

  lemma DigitsDisagreeAt(d1: string, e1: string, d2: string, e2: string)
    requires AllDigits(d2) && |d1| < |d2|
    requires |e1| == 0 || !IsDigit(e1[0])
    ensures d1 + e1 != d2 + e2
  {
    if |d1 + e1| == |d2 + e2| {
      assert (d1 + e1)[|d1|] != (d2 + e2)[|d1|];
    }
  }
}
