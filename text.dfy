/** Optional values, standing in for JavaScript's `null`/`undefined` results. */
module Options {
  datatype Option<+T> = None | Some(value: T)
}

/** The JavaScript string operations the server relies on, over `seq<char>`. */
module Text {
  import opened Options

  /** A character matched by `\s` in a JavaScript regular expression and removed
      by `String.prototype.trim`: the ECMAScript WhiteSpace and LineTerminator
      code points. */
  predicate IsSpace(c: char) {
    c == '\t' || c == '\n' || c == '\U{000B}' || c == '\U{000C}' || c == '\r' || c == ' '
    || c == '\U{00A0}' || c == '\U{1680}' || ('\U{2000}' <= c <= '\U{200A}')
    || c == '\U{2028}' || c == '\U{2029}' || c == '\U{202F}' || c == '\U{205F}'
    || c == '\U{3000}' || c == '\U{FEFF}'
  }

  /** A character that `.` in a JavaScript regular expression does not match. */
  predicate IsLineTerminator(c: char) {
    c == '\n' || c == '\r' || c == '\U{2028}' || c == '\U{2029}'
  }

  predicate NoSpace(s: string) {
    forall i :: 0 <= i < |s| ==> !IsSpace(s[i])
  }

  predicate AllSpace(s: string) {
    forall i :: 0 <= i < |s| ==> IsSpace(s[i])
  }

  /** Neither end of `s` is whitespace. */
  predicate IsTrimmed(s: string) {
    s == [] || (!IsSpace(s[0]) && !IsSpace(s[|s| - 1]))
  }

  // ---------------------------------------------------------------------------
  // trim
  //
  // The string functions below carry no postconditions of their own; their
  // properties are lemmas, so that a proof pays for them only where it uses them.

  /** The length of the leading whitespace run of `s`. */
  function LeadingSpace(s: string): (n: nat)
    ensures n <= |s|
  {
    if s == [] || !IsSpace(s[0]) then 0 else 1 + LeadingSpace(s[1..])
  }

  /** The length of the trailing whitespace run of `s`. */
  function TrailingSpace(s: string): (n: nat)
    ensures n <= |s|
  {
    if s == [] || !IsSpace(s[|s| - 1]) then 0 else 1 + TrailingSpace(s[..|s| - 1])
  }

  /** `s` without its leading whitespace run. */
  function TrimStart(s: string): string {
    s[LeadingSpace(s)..]
  }

  /** `s` without its trailing whitespace run. */
  function TrimEnd(s: string): string {
    s[..|s| - TrailingSpace(s)]
  }

  /** `String.prototype.trim`: `s` without the whitespace runs at both ends. */
  function Trim(s: string): string {
    TrimEnd(TrimStart(s))
  }

  /** The leading run is whitespace and is maximal. */
  lemma {:induction false} LeadingSpaceSpec(s: string)
    ensures forall k :: 0 <= k < LeadingSpace(s) ==> IsSpace(s[k])
    ensures LeadingSpace(s) < |s| ==> !IsSpace(s[LeadingSpace(s)])
  {
    if s != [] && IsSpace(s[0]) {
      LeadingSpaceSpec(s[1..]);
    }
  }

  /** A whitespace run followed by the end or by a character other than
      whitespace is the leading run. */
  lemma {:induction false} LeadingRun(w: string, rest: string)
    requires AllSpace(w) && (rest == "" || !IsSpace(rest[0]))
    ensures LeadingSpace(w + rest) == |w|
    decreases |w|
  {
    if w == [] {
      assert w + rest == rest;
    } else {
      var u := w + rest;
      assert u[0] == w[0] && u[1..] == w[1..] + rest;
      assert forall k :: 0 <= k < |w[1..]| ==> w[1..][k] == w[k + 1];
      LeadingRun(w[1..], rest);
    }
  }

  /** The trailing run is whitespace and is maximal. */
  lemma {:induction false} TrailingSpaceSpec(s: string)
    ensures forall k :: |s| - TrailingSpace(s) <= k < |s| ==> IsSpace(s[k])
    ensures TrailingSpace(s) < |s| ==> !IsSpace(s[|s| - TrailingSpace(s) - 1])
  {
    if s != [] && IsSpace(s[|s| - 1]) {
      TrailingSpaceSpec(s[..|s| - 1]);
    }
  }

  /** The trimmed string has no whitespace at either end; it is the slice of
      `s` after the leading whitespace, and only whitespace lies outside it. */
  lemma TrimSpec(s: string)
    ensures IsTrimmed(Trim(s))
    ensures LeadingSpace(s) + |Trim(s)| <= |s|
    ensures Trim(s) == s[LeadingSpace(s)..LeadingSpace(s) + |Trim(s)|]
    ensures forall k :: 0 <= k < LeadingSpace(s) ==> IsSpace(s[k])
    ensures forall k :: LeadingSpace(s) + |Trim(s)| <= k < |s| ==> IsSpace(s[k])
  {
    LeadingSpaceSpec(s);
    TrimSlice(s);
    TrimEnds(s);
    TrimTail(s);
  }

  lemma TrimSlice(s: string)
    ensures |Trim(s)| == |s| - LeadingSpace(s) - TrailingSpace(TrimStart(s))
    ensures Trim(s) == s[LeadingSpace(s)..LeadingSpace(s) + |Trim(s)|]
  {
  }

  lemma TrimEnds(s: string)
    ensures IsTrimmed(Trim(s))
  {
    var i, a := LeadingSpace(s), TrimStart(s);
    var j := TrailingSpace(a);
    var r := Trim(s);
    if r != [] {
      LeadingSpaceSpec(s);
      TrailingSpaceSpec(a);
      assert r[0] == s[i];
      assert r[|r| - 1] == a[|a| - j - 1];
    }
  }

  lemma TrimTail(s: string)
    ensures forall k :: LeadingSpace(s) + |Trim(s)| <= k < |s| ==> IsSpace(s[k])
  {
    var i, a := LeadingSpace(s), TrimStart(s);
    TrailingSpaceSpec(a);
    TrimSlice(s);
    forall k | i + |Trim(s)| <= k < |s| ensures IsSpace(s[k]) {
      assert s[k] == a[k - i];
    }
  }

  /** Trimming a string whose ends are not whitespace leaves it unchanged. */
  lemma TrimOfTrimmed(s: string)
    requires IsTrimmed(s)
    ensures Trim(s) == s
  {
    assert LeadingSpace(s) == 0;
    assert TrailingSpace(s) == 0;
  }

  /** Trimming twice is trimming once. */
  lemma TrimIdempotent(s: string)
    ensures Trim(Trim(s)) == Trim(s)
  {
    TrimSpec(s);
    TrimOfTrimmed(Trim(s));
  }

  /** Trimming yields the empty string exactly when `s` is all whitespace. */
  lemma TrimEmptyIff(s: string)
    ensures Trim(s) == [] <==> AllSpace(s)
  {
    TrimSpec(s);
    LeadingSpaceSpec(s);
  }

  // ---------------------------------------------------------------------------
  // indexOf

  /** `pat` occurs in `s` starting at index `i`. */
  predicate OccursAt(s: string, pat: string, i: int) {
    0 <= i && i + |pat| <= |s| && s[i..i + |pat|] == pat
  }

  ghost predicate Contains(s: string, pat: string) {
    exists i :: 0 <= i && OccursAt(s, pat, i)
  }

  lemma OccursAtTail(s: string, pat: string, k: int)
    requires |s| > 0 && k >= 0
    ensures OccursAt(s[1..], pat, k) <==> OccursAt(s, pat, k + 1)
  {
    if 0 <= k && k + 1 + |pat| <= |s| {
      assert s[1..][k..k + |pat|] == s[k + 1..k + 1 + |pat|];
    }
  }

  /** `String.prototype.indexOf`: the first index at which `pat` occurs in `s`. */
  function IndexOf(s: string, pat: string): Option<nat>
    decreases |s|
  {
    if |s| < |pat| then None
    else if s[..|pat|] == pat then Some(0)
    else
      match IndexOf(s[1..], pat)
      case None => None
      case Some(k) => Some(k + 1)
  }

  /** `IndexOf` finds the leftmost occurrence, and finds nothing only when there is none. */
  lemma {:induction false} IndexOfSpec(s: string, pat: string)
    ensures IndexOf(s, pat).Some? ==>
              IndexOf(s, pat).value + |pat| <= |s| && OccursAt(s, pat, IndexOf(s, pat).value)
              && forall j :: 0 <= j < IndexOf(s, pat).value ==> !OccursAt(s, pat, j)
    ensures IndexOf(s, pat).None? <==> !Contains(s, pat)
    decreases |s|
  {
    if |s| >= |pat| && s[..|pat|] != pat {
      IndexOfSpec(s[1..], pat);
      forall i | i >= 1 ensures OccursAt(s, pat, i) <==> OccursAt(s[1..], pat, i - 1) {
        OccursAtTail(s, pat, i - 1);
      }
      assert !OccursAt(s, pat, 0);
    }
  }

  /** The leftmost occurrence is unique: any occurrence with none before it is what `IndexOf` finds. */
  lemma IndexOfIsLeftmost(s: string, pat: string, i: nat)
    requires OccursAt(s, pat, i) && forall j :: 0 <= j < i ==> !OccursAt(s, pat, j)
    ensures IndexOf(s, pat) == Some(i)
  {
    IndexOfSpec(s, pat);
    var r := IndexOf(s, pat);
    assert r.Some?;
    assert !(r.value < i);
    assert !(i < r.value);
  }

  /** `s.includes(pat)`, computed. */
  function Includes(s: string, pat: string): (b: bool)
    ensures b <==> Contains(s, pat)
  {
    IndexOfSpec(s, pat);
    IndexOf(s, pat).Some?
  }

  // ---------------------------------------------------------------------------
  // replace (first occurrence, string pattern)

  /** `s.replace(pat, rep)` with a string `pat`: only the first occurrence is replaced. */
  function ReplaceFirst(s: string, pat: string, rep: string): string {
    IndexOfSpec(s, pat);
    match IndexOf(s, pat)
    case None => s
    case Some(i) => s[..i] + rep + s[i + |pat|..]
  }

  /** Without an occurrence nothing changes; otherwise exactly the leftmost
      occurrence is replaced. */
  lemma ReplaceFirstSpec(s: string, pat: string, rep: string)
    ensures !Contains(s, pat) ==> ReplaceFirst(s, pat, rep) == s
    ensures forall i: nat :: OccursAt(s, pat, i) && (forall j :: 0 <= j < i ==> !OccursAt(s, pat, j)) ==>
              ReplaceFirst(s, pat, rep) == s[..i] + rep + s[i + |pat|..]
  {
    IndexOfSpec(s, pat);
    forall i: nat | OccursAt(s, pat, i) && (forall j :: 0 <= j < i ==> !OccursAt(s, pat, j))
      ensures IndexOf(s, pat) == Some(i)
    {
      IndexOfIsLeftmost(s, pat, i);
    }
  }

  // ---------------------------------------------------------------------------
  // split(string) / join

  /** `s.split(sep)` for a non-empty string separator: the pieces between the
      non-overlapping occurrences of `sep`, scanned from the left. */
  function SplitOn(s: string, sep: string): (parts: seq<string>)
    requires |sep| > 0
    ensures |parts| >= 1
    decreases |s|
  {
    IndexOfSpec(s, sep);
    match IndexOf(s, sep)
    case None => [s]
    case Some(i) => [s[..i]] + SplitOn(s[i + |sep|..], sep)
  }

  /** `parts.join(d)`. */
  function Join(parts: seq<string>, d: string): string {
    if parts == [] then ""
    else if |parts| == 1 then parts[0]
    else parts[0] + d + Join(parts[1..], d)
  }

  lemma JoinCons(a: string, tail: seq<string>, d: string)
    requires tail != []
    ensures Join([a] + tail, d) == a + d + Join(tail, d)
  {
    assert ([a] + tail)[1..] == tail;
  }

  /** Joining the pieces of a split with the same separator gives back the string. */
  lemma {:induction false} JoinSplitOn(s: string, sep: string)
    requires |sep| > 0
    ensures Join(SplitOn(s, sep), sep) == s
    decreases |s|
  {
    IndexOfSpec(s, sep);
    match IndexOf(s, sep)
    case None =>
    case Some(i) =>
      var rest := s[i + |sep|..];
      assert SplitOn(s, sep) == [s[..i]] + SplitOn(rest, sep);
      JoinSplitOn(rest, sep);
      JoinCons(s[..i], SplitOn(rest, sep), sep);
      assert s[i..i + |sep|] == sep;
      assert s == s[..i] + sep + rest;
  }

  /** No piece of a split contains the separator. */
  lemma {:induction false} SplitOnPiecesFree(s: string, sep: string)
    requires |sep| > 0
    ensures forall k :: 0 <= k < |SplitOn(s, sep)| ==> !Contains(SplitOn(s, sep)[k], sep)
    decreases |s|
  {
    IndexOfSpec(s, sep);
    match IndexOf(s, sep)
    case None =>
    case Some(i) =>
      var rest := s[i + |sep|..];
      SplitOnPiecesFree(rest, sep);
      assert SplitOn(s, sep) == [s[..i]] + SplitOn(rest, sep);
      forall j | 0 <= j && j + |sep| <= i ensures !OccursAt(s[..i], sep, j) {
        assert !OccursAt(s, sep, j);
        assert s[..i][j..j + |sep|] == s[j..j + |sep|];
      }
  }

  /** `s.split(sep).join(rep)`: every non-overlapping occurrence of `sep`,
      scanned from the left, replaced by `rep`. */
  function ReplaceAll(s: string, sep: string, rep: string): string
    requires |sep| > 0
  {
    Join(SplitOn(s, sep), rep)
  }

  /** Replacing a separator that does not occur changes nothing. */
  lemma ReplaceAllAbsent(s: string, sep: string, rep: string)
    requires |sep| > 0 && !Contains(s, sep)
    ensures ReplaceAll(s, sep, rep) == s
  {
    IndexOfSpec(s, sep);
  }

  /** Replacing a separator by itself changes nothing. */
  lemma ReplaceAllSelf(s: string, sep: string)
    requires |sep| > 0
    ensures ReplaceAll(s, sep, sep) == s
  {
    JoinSplitOn(s, sep);
  }

  /** When `sep` starts with a character absent from `a`, no occurrence of
      `sep` in `a + sep + b` starts inside `a`. */
  lemma NoOccurrenceInPrefix(a: string, sep: string, b: string)
    requires |sep| > 0 && forall k :: 0 <= k < |a| ==> a[k] != sep[0]
    ensures forall j :: 0 <= j < |a| ==> !OccursAt(a + sep + b, sep, j)
  {
    var s := a + sep + b;
    forall j | 0 <= j < |a| ensures !OccursAt(s, sep, j) {
      if j + |sep| <= |s| { assert s[j..j + |sep|][0] == s[j]; }
    }
  }

  /** When the occurrence of `sep` right after `a` is the leftmost one and `b`
      has none, it is the only occurrence replaced, and the text around it is kept. */
  lemma ReplaceAllOnce(a: string, sep: string, b: string, v: string)
    requires |sep| > 0 && forall j :: 0 <= j < |a| ==> !OccursAt(a + sep + b, sep, j)
    requires !Contains(b, sep)
    ensures ReplaceAll(a + sep + b, sep, v) == a + v + b
  {
    var s := a + sep + b;
    assert OccursAt(s, sep, |a|) by { assert s[|a|..|a| + |sep|] == sep; }
    IndexOfIsLeftmost(s, sep, |a|);
    IndexOfSpec(b, sep);
    assert s[..|a|] == a && s[|a| + |sep|..] == b;
    assert SplitOn(s, sep) == [a] + SplitOn(b, sep);
    assert SplitOn(b, sep) == [b];
    assert SplitOn(s, sep) == [a, b];
    assert Join([a, b], v) == a + v + Join([b], v);
  }

  // ---------------------------------------------------------------------------
  // String(n) for an integral number

  predicate IsDigit(c: char) {
    '0' <= c <= '9'
  }

  function DigitChar(d: nat): char
    requires d < 10
  {
    "0123456789"[d]
  }

  /** The plain decimal numeral of `n`, without leading zeros. */
  function NatDigits(n: nat): (r: string)
    ensures |r| > 0 && AllDigits(r)
    ensures r[0] == '0' ==> n == 0 && r == "0"
    decreases n
  {
    if n < 10 then [DigitChar(n)] else NatDigits(n / 10) + [DigitChar(n % 10)]
  }

  predicate AllDigits(s: string) {
    forall k :: 0 <= k < |s| ==> IsDigit(s[k])
  }

  /** The number a digit string denotes. */
  function DigitsValue(s: string): int
    requires AllDigits(s)
  {
    if s == [] then 0 else 10 * DigitsValue(s[..|s| - 1]) + (s[|s| - 1] as int - '0' as int)
  }

  /** Reading a numeral back gives the number it was written from. */
  lemma {:induction false} NatDigitsValue(n: nat)
    ensures DigitsValue(NatDigits(n)) == n
    decreases n
  {
    if n >= 10 {
      NatDigitsValue(n / 10);
      var r := NatDigits(n);
      assert r[..|r| - 1] == NatDigits(n / 10);
    }
  }

  /** `String(n)` for an integral JavaScript number `n`: an optional minus
      sign, then the numeral of `|n|`, with no leading zero unless it is `0`. */
  function IntToString(n: int): (r: string)
    ensures |r| > 0 && NoSpace(r)
    ensures forall k :: 0 <= k < |r| ==> r[k] != '<' && r[k] != '>'
    ensures n >= 0 ==> AllDigits(r) && DigitsValue(r) == n
    ensures n < 0 ==> r[0] == '-' && AllDigits(r[1..]) && DigitsValue(r[1..]) == -n
    ensures n >= 0 && r[0] == '0' ==> r == "0"
    ensures n < 0 ==> |r| > 1 && r[1] != '0'
  {
    var r := if n < 0 then "-" + NatDigits(-n) else NatDigits(n);
    NatDigitsValue(if n < 0 then -n else n);
    assert n < 0 ==> r[1..] == NatDigits(-n);
    r
  }
}
