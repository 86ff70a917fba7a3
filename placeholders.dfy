/** The placeholder regular expression `/<([^>]+)>/g`: the scan used both to
    collect parameter names from a prompt and to delete the placeholders that
    remain in a command after substitution. */
module Placeholders {
  import opened Options
  import opened Text

  /** `/<([^>]+)>/` matches `s` at index `p`, with its closing `>` at index `q`:
      the name between is non-empty and contains no `>` (it may contain `<`). */
  predicate SpanAt(s: string, p: int, q: int) {
    0 <= p && p + 1 < q < |s| && s[p] == '<' && s[q] == '>'
    && forall k :: p < k < q ==> s[k] != '>'
  }

  /** A possible capture of `([^>]+)`. */
  predicate IsName(t: string) {
    |t| > 0 && forall k :: 0 <= k < |t| ==> t[k] != '>'
  }

  /** `s` has no `<x>` span with `x` non-empty and free of `>`. */
  ghost predicate NoSpan(s: string) {
    forall p, q :: !SpanAt(s, p, q)
  }

  /** A span closes at the first `>` after its name starts, so it is determined by its start. */
  lemma SpanUnique(s: string, p: int, q: int, q': int)
    requires SpanAt(s, p, q) && SpanAt(s, p, q')
    ensures q == q'
  {
  }

  /** The first `>` at or after `from`. */
  function CloseFrom(s: string, from: nat): (r: Option<nat>)
    ensures r.Some? ==> from <= r.value < |s| && s[r.value] == '>'
                        && forall k :: from <= k < r.value ==> s[k] != '>'
    ensures r.None? ==> forall k :: from <= k < |s| ==> s[k] != '>'
    decreases |s| - from
  {
    if from >= |s| then None
    else if s[from] == '>' then Some(from)
    else CloseFrom(s, from + 1)
  }

  /** The index of the closing `>` of the span that starts at `p`, if one does. */
  function MatchEnd(s: string, p: nat): (r: Option<nat>)
    ensures r.Some? ==> SpanAt(s, p, r.value)
    ensures r.None? ==> forall q :: !SpanAt(s, p, q)
  {
    if p + 1 < |s| && s[p] == '<' && s[p + 1] != '>' then CloseFrom(s, p + 2) else None
  }

  /** One `exec` of the global regular expression with `lastIndex == from`:
      the leftmost span starting at or after `from`. */
  function NextMatch(s: string, from: nat): (r: Option<(nat, nat)>)
    ensures r.Some? ==> from <= r.value.0 && SpanAt(s, r.value.0, r.value.1)
                        && forall j, q :: from <= j < r.value.0 ==> !SpanAt(s, j, q)
    ensures r.None? ==> forall j, q :: from <= j ==> !SpanAt(s, j, q)
    decreases |s| - from
  {
    if from >= |s| then None
    else
      match MatchEnd(s, from)
      case Some(q) => Some((from, q))
      case None => NextMatch(s, from + 1)
  }

  /** The captures of `([^>]+)` from successive `exec` calls, starting at `from`. */
  function TokensFrom(s: string, from: nat): (r: seq<string>)
    ensures forall k :: 0 <= k < |r| ==> IsName(r[k])
    decreases |s| - from
  {
    match NextMatch(s, from)
    case None => []
    case Some((p, q)) =>
      assert IsName(s[p + 1..q]);
      [s[p + 1..q]] + TokensFrom(s, q + 1)
  }

  /** The captures of all placeholders of `s`, in order. */
  function Tokens(s: string): seq<string> {
    TokensFrom(s, 0)
  }

  /** `s.slice(from).replace(/<[^>]+>/g, '')` for a scan that starts at `from`. */
  function StripFrom(s: string, from: nat): string
    requires from <= |s|
    decreases |s| - from
  {
    match NextMatch(s, from)
    case None => s[from..]
    case Some((p, q)) => s[from..p] + StripFrom(s, q + 1)
  }

  /** `s.replace(/<[^>]+>/g, '')`: every span found by the scan deleted. */
  function Strip(s: string): string {
    StripFrom(s, 0)
  }

  // ---------------------------------------------------------------------------
  // Properties of the scan and of stripping

  /** A span inside the second half of a concatenation is a span of that half. */
  lemma SpanInSuffix(a: string, b: string, x: int, y: int)
    requires SpanAt(a + b, x, y) && x >= |a|
    ensures SpanAt(b, x - |a|, y - |a|)
  {
    var s := a + b;
    forall k | x - |a| < k < y - |a| ensures b[k] != '>' {
      assert s[k + |a|] == b[k];
    }
  }

  /** A span of a slice is a span of the whole string. */
  lemma SpanInSlice(s: string, i: int, j: int, x: int, y: int)
    requires 0 <= i <= j <= |s| && SpanAt(s[i..j], x, y)
    ensures SpanAt(s, x + i, y + i)
  {
    var t := s[i..j];
    forall k | x + i < k < y + i ensures s[k] != '>' {
      assert t[k - i] == s[k];
    }
  }

  /** Every slice of a string without spans is without spans. */
  lemma NoSpanSlice(s: string, i: int, j: int)
    requires 0 <= i <= j <= |s| && NoSpan(s)
    ensures NoSpan(s[i..j])
  {
    forall x, y | SpanAt(s[i..j], x, y) ensures false {
      SpanInSlice(s, i, j, x, y);
    }
  }

  /** Before the leftmost span of a scan, every `<` is directly followed by `>`
      (for otherwise a span would start there, since a `>` does come later). */
  lemma LessThanBeforeMatch(s: string, from: nat, p: nat, q: nat, j: nat)
    requires NextMatch(s, from) == Some((p, q))
    requires from <= j < p && s[j] == '<'
    ensures j + 1 < p && s[j + 1] == '>'
  {
    var c := CloseFrom(s, j + 2);
    assert c.Some? by { assert s[q] == '>'; }
    assert !SpanAt(s, j, c.value);
  }

  /** A string with no `<` has no span. */
  lemma NoSpanWithoutLessThan(s: string)
    requires forall k :: 0 <= k < |s| ==> s[k] != '<'
    ensures NoSpan(s)
  {
  }

  /** Deleting the spans leaves a string without spans, even where deletion
      brings a `<` and a `>` that were apart next to each other. */
  lemma {:induction false} StripFromNoSpan(s: string, from: nat)
    requires from <= |s|
    ensures NoSpan(StripFrom(s, from))
    decreases |s| - from
  {
    match NextMatch(s, from)
    case None =>
      var r := s[from..];
      forall x, y | SpanAt(r, x, y) ensures false {
        SpanInSlice(s, from, |s|, x, y);
      }
    case Some((p, q)) =>
      StripFromNoSpan(s, q + 1);
      NoSpanAfterMatch(s, from, p, q, StripFrom(s, q + 1));
  }

  /** The text before the leftmost span, followed by a string without spans,
      has no span: each `<` of that text is directly followed by `>`. */
  lemma NoSpanAfterMatch(s: string, from: nat, p: nat, q: nat, b: string)
    requires NextMatch(s, from) == Some((p, q)) && NoSpan(b)
    ensures NoSpan(s[from..p] + b)
  {
    var a := s[from..p];
    forall x, y ensures !SpanAt(a + b, x, y) {
      if x >= |a| {
        if SpanAt(a + b, x, y) { SpanInSuffix(a, b, x, y); }
      } else if 0 <= x && (a + b)[x] == '<' {
        assert (a + b)[x] == s[from + x];
        LessThanBeforeMatch(s, from, p, q, from + x);
        assert (a + b)[x + 1] == s[from + x + 1];
      }
    }
  }

  /** A scan that finds nothing from `from` on leaves the rest as it is. */
  lemma StripFromNothing(s: string, from: nat)
    requires from <= |s| && forall j, q :: from <= j ==> !SpanAt(s, j, q)
    ensures StripFrom(s, from) == s[from..]
  {
  }

  /** Stripping a string without spans changes nothing. */
  lemma StripOfNoSpan(s: string)
    requires NoSpan(s)
    ensures Strip(s) == s
  {
    StripFromNothing(s, 0);
  }

  /** The result of stripping contains no span, so stripping again changes nothing. */
  lemma StripIdempotent(s: string)
    ensures NoSpan(Strip(s))
    ensures Strip(Strip(s)) == Strip(s)
  {
    StripFromNoSpan(s, 0);
    StripOfNoSpan(Strip(s));
  }

  /** Trimming the stripped string keeps it free of spans; stripping once more
      changes nothing. */
  lemma StripTrimStable(s: string)
    ensures NoSpan(Trim(Strip(s)))
    ensures Strip(Trim(Strip(s))) == Trim(Strip(s))
  {
    var u := Strip(s);
    StripFromNoSpan(s, 0);
    var r := Trim(u);
    TrimSpec(u);
    NoSpanSlice(u, LeadingSpace(u), LeadingSpace(u) + |r|);
    StripOfNoSpan(r);
  }

  /** A span of `b` is a span of `s == pre + b`, moved by `|pre|`. */
  lemma SpanShift(s: string, pre: string, b: string, x: int, y: int)
    requires s == pre + b && SpanAt(b, x, y)
    ensures SpanAt(s, x + |pre|, y + |pre|)
  {
    forall k | x + |pre| < k < y + |pre| ensures s[k] != '>' {
      assert s[k] == b[k - |pre|];
    }
  }

  /** A span of `s == pre + b` that starts inside `b` is a span of `b`. */
  lemma SpanUnshift(s: string, pre: string, b: string, x: int, y: int)
    requires s == pre + b && |pre| <= x && SpanAt(s, x, y)
    ensures SpanAt(b, x - |pre|, y - |pre|)
  {
    forall k | x - |pre| < k < y - |pre| ensures b[k] != '>' {
      assert b[k] == s[k + |pre|];
    }
  }

  /** The scan of `s == pre + b` from inside `b` finds what the scan of `b`
      finds, moved by `|pre|`. */
  lemma NextMatchShift(s: string, pre: string, b: string, k: nat)
    requires s == pre + b && k <= |b|
    ensures NextMatch(b, k).None? ==> NextMatch(s, |pre| + k).None?
    ensures NextMatch(b, k).Some? ==>
              NextMatch(s, |pre| + k)
              == Some((NextMatch(b, k).value.0 + |pre|, NextMatch(b, k).value.1 + |pre|))
  {
    var r, r' := NextMatch(b, k), NextMatch(s, |pre| + k);
    if r'.Some? {
      SpanUnshift(s, pre, b, r'.value.0, r'.value.1);
    }
    if r.Some? {
      SpanShift(s, pre, b, r.value.0, r.value.1);
      SpanUnique(s, r'.value.0, r'.value.1, r.value.1 + |pre|);
    }
  }

  /** The text a scan keeps when it finds nothing more. */
  lemma StripFromNone(s: string, from: nat)
    requires from <= |s| && NextMatch(s, from).None?
    ensures StripFrom(s, from) == s[from..]
  {
  }

  /** The text a scan keeps when its next match is the span from `p` to `q`. */
  lemma StripFromSome(s: string, from: nat, p: nat, q: nat)
    requires from <= |s| && NextMatch(s, from) == Some((p, q))
    ensures StripFrom(s, from) == s[from..p] + StripFrom(s, q + 1)
  {
  }

  /** Two texts made of equal pieces are equal. */
  lemma EqualPieces(x: string, y: string, a1: string, a2: string, b1: string, b2: string)
    requires x == a1 + b1 && y == a2 + b2 && a1 == a2 && b1 == b2
    ensures x == y
  {
  }

  /** `s == pre + b` read from inside `b` is `b` read from there. */
  lemma SliceInSuffix(s: string, pre: string, b: string, k: nat, p: nat)
    requires s == pre + b && k <= p <= |b|
    ensures s[|pre| + k..|pre| + p] == b[k..p] && s[|pre| + k..] == b[k..]
  {
  }

  /** When the scan of `b` from `k` finds nothing, both scans keep the same rest. */
  lemma ShiftNone(s: string, pre: string, b: string, k: nat)
    requires s == pre + b && k <= |b|
    requires NextMatch(b, k).None? && NextMatch(s, |pre| + k).None?
    ensures StripFrom(s, |pre| + k) == StripFrom(b, k)
  {
    StripFromNone(b, k);
    StripFromNone(s, |pre| + k);
    SliceInSuffix(s, pre, b, k, k);
  }

  /** When both scans find the same span, they keep the same text before it. */
  lemma ShiftSome(s: string, pre: string, b: string, k: nat, p: nat, q: nat)
    requires s == pre + b && k <= |b|
    requires NextMatch(b, k) == Some((p, q)) && NextMatch(s, |pre| + k) == Some((|pre| + p, |pre| + q))
    ensures k <= q < |b|
    ensures StripFrom(s, |pre| + k) == b[k..p] + StripFrom(s, |pre| + q + 1)
    ensures StripFrom(b, k) == b[k..p] + StripFrom(b, q + 1)
  {
    StripFromSome(b, k, p, q);
    StripFromSome(s, |pre| + k, |pre| + p, |pre| + q);
    SliceInSuffix(s, pre, b, k, p);
    EqualPieces(StripFrom(s, |pre| + k), b[k..p] + StripFrom(s, |pre| + q + 1),
                s[|pre| + k..|pre| + p], b[k..p], StripFrom(s, |pre| + q + 1), StripFrom(s, |pre| + q + 1));
  }

  /** One step of the scan of `s == pre + b` from inside `b` against the scan
      of `b`: either both keep the same rest, or both delete the same span and
      agree if they agree after it. */
  lemma ShiftStep(s: string, pre: string, b: string, k: nat) returns (done: bool, q: nat)
    requires s == pre + b && k <= |b|
    ensures done ==> StripFrom(s, |pre| + k) == StripFrom(b, k)
    ensures !done ==> k <= q < |b|
    ensures !done && StripFrom(s, |pre| + q + 1) == StripFrom(b, q + 1) ==>
              StripFrom(s, |pre| + k) == StripFrom(b, k)
  {
    NextMatchShift(s, pre, b, k);
    var r := NextMatch(b, k);
    if r.None? {
      ShiftNone(s, pre, b, k);
      done, q := true, 0;
    } else {
      done, q := false, r.value.1;
      ShiftSome(s, pre, b, k, r.value.0, q);
    }
  }

  /** A scan of `s == pre + b` from inside `b` strips as a scan of `b` does:
      what lies before plays no part. */
  lemma {:induction false} StripFromShift(s: string, pre: string, b: string, k: nat)
    requires s == pre + b && k <= |b|
    ensures StripFrom(s, |pre| + k) == StripFrom(b, k)
    decreases |b| - k
  {
    var done, q := ShiftStep(s, pre, b, k);
    if !done {
      StripFromShift(s, pre, b, q + 1);
    }
  }

  /** After text without `<`, the scan's first match is the span that follows it. */
  lemma FirstSpanAfterPlain(s: string, a: string, name: string, b: string)
    requires s == a + "<" + name + ">" + b
    requires forall k :: 0 <= k < |a| ==> a[k] != '<'
    requires IsName(name)
    ensures NextMatch(s, 0) == Some((|a|, |a| + |name| + 1))
    ensures s[0..|a|] == a && s[|a| + |name| + 2..] == b
  {
    var p, q := |a|, |a| + |name| + 1;
    assert SpanAt(s, p, q) by {
      forall k | p < k < q ensures s[k] != '>' { assert s[k] == name[k - p - 1]; }
    }
    var m := NextMatch(s, 0);
    assert m.value.0 == p by {
      forall j | 0 <= j < p ensures s[j] != '<' { assert s[j] == a[j]; }
    }
    SpanUnique(s, p, q, m.value.1);
    assert s[0..p] == a;
    assert s[q + 1..] == b;
  }

  /** A span after text without `<` is deleted, and the text after the span is
      stripped in turn: the deletion of every span, one after the other. */
  lemma StripCons(a: string, name: string, b: string)
    requires forall k :: 0 <= k < |a| ==> a[k] != '<'
    requires IsName(name)
    ensures Strip(a + "<" + name + ">" + b) == a + Strip(b)
  {
    var s := a + "<" + name + ">" + b;
    var p, q := |a|, |a| + |name| + 1;
    FirstSpanAfterPlain(s, a, name, b);
    StripFromSome(s, 0, p, q);
    StripFromShift(s, a + "<" + name + ">", b, 0);
    EqualPieces(Strip(s), a + Strip(b), s[0..p], a, StripFrom(s, q + 1), Strip(b));
  }

  /** One span between two stretches without `<` is deleted and the rest kept. */
  lemma StripOneSpan(a: string, name: string, b: string)
    requires forall k :: 0 <= k < |a| ==> a[k] != '<'
    requires forall k :: 0 <= k < |b| ==> b[k] != '<'
    requires IsName(name)
    ensures Strip(a + "<" + name + ">" + b) == a + b
  {
    var s := a + "<" + name + ">" + b;
    var p, q := |a|, |a| + |name| + 1;
    assert SpanAt(s, p, q) by {
      forall k | p < k < q ensures s[k] != '>' { assert s[k] == name[k - p - 1]; }
    }
    var m := NextMatch(s, 0);
    assert m.Some?;
    assert m.value.0 == p by {
      forall j | 0 <= j < p ensures s[j] != '<' { assert s[j] == a[j]; }
    }
    SpanUnique(s, p, q, m.value.1);
    assert s[..p] == a;
    forall j, y | q + 1 <= j ensures !SpanAt(s, j, y) {
      if j < |s| { assert s[j] == b[j - q - 1]; }
    }
    StripFromNothing(s, q + 1);
    assert s[q + 1..] == b;
  }
}
