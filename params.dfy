/** The parameter map of a dynamic tool: the placeholders of the prompt, their
    canonical names, and the schema derived from them (type by keyword,
    description from the placeholder text). */
module Params {
  import opened Options
  import opened Text
  import opened Placeholders

  // ---------------------------------------------------------------------------
  // Canonicalisation

  /** `s` with every character passed through `f`. */
  function MapChars(s: string, f: char -> char): (r: string)
    ensures |r| == |s| && forall k :: 0 <= k < |s| ==> r[k] == f(s[k])
  {
    if s == [] then [] else [f(s[0])] + MapChars(s[1..], f)
  }

  function SpaceToUnderscore(c: char): char {
    if IsSpace(c) then '_' else c
  }

  function ColonToUnderscore(c: char): char {
    if c == ':' then '_' else c
  }

  function UnderscoreToSpace(c: char): char {
    if c == '_' then ' ' else c
  }

  const PARAM_NAME := "param name"

  /** `.replace(/\s/g, '_').replace(/:/g, '_')`. */
  function Underscored(t: string): string {
    MapChars(MapChars(t, SpaceToUnderscore), ColonToUnderscore)
  }

  predicate NoColon(s: string) {
    forall k :: 0 <= k < |s| ==> s[k] != ':'
  }

  lemma UnderscoredShape(t: string)
    ensures NoSpace(Underscored(t)) && NoColon(Underscored(t))
  {
    var u := MapChars(t, SpaceToUnderscore);
    var v := MapChars(u, ColonToUnderscore);
    forall k | 0 <= k < |v| ensures !IsSpace(v[k]) && v[k] != ':' {
      assert v[k] == ColonToUnderscore(u[k]);
      assert u[k] == SpaceToUnderscore(t[k]);
    }
  }

  lemma UnderscoredUnchanged(t: string)
    requires NoSpace(t) && NoColon(t)
    ensures Underscored(t) == t
  {
    var u := MapChars(t, SpaceToUnderscore);
    assert u == t;
    assert MapChars(u, ColonToUnderscore) == t;
  }

  /** The clean name of a placeholder:
      `original.replace('param name', '').trim().replace(/\s/g, '_').replace(/:/g, '_')`. */
  function Canonicalize(original: string): string {
    Underscored(Trim(ReplaceFirst(original, PARAM_NAME, "")))
  }

  /** A clean name holds no whitespace and no colon. */
  lemma CanonicalShape(original: string)
    ensures NoSpace(Canonicalize(original)) && NoColon(Canonicalize(original))
  {
    UnderscoredShape(Trim(ReplaceFirst(original, PARAM_NAME, "")));
  }

  /** A string without whitespace does not contain `param name`, whose sixth
      character is a space. */
  lemma NoParamNameWithoutSpace(s: string)
    requires NoSpace(s)
    ensures !Contains(s, PARAM_NAME)
  {
    forall i | 0 <= i ensures !OccursAt(s, PARAM_NAME, i) {
      if i + |PARAM_NAME| <= |s| { assert s[i..i + |PARAM_NAME|][5] == s[i + 5]; }
    }
  }

  /** Canonicalising a clean name gives it back. */
  lemma CanonicalIdempotent(original: string)
    ensures Canonicalize(Canonicalize(original)) == Canonicalize(original)
  {
    var c := Canonicalize(original);
    CanonicalShape(original);
    NoParamNameWithoutSpace(c);
    ReplaceFirstSpec(c, PARAM_NAME, "");
    TrimOfTrimmed(c);
    UnderscoredUnchanged(c);
  }

  /** Only the first `param name` is removed; whitespace and colons become underscores. */
  lemma CanonicalizeExample(original: string)
    requires original == "param name: param name"
    ensures Canonicalize(original) == "__param_name"
  {
    var removed := ": param name";
    RemoveLeadingParamName(original, removed);
    TrimOfTrimmed(removed);
    ExampleUnderscored(removed);
  }

  lemma RemoveLeadingParamName(original: string, rest: string)
    requires original == PARAM_NAME + rest
    ensures ReplaceFirst(original, PARAM_NAME, "") == rest
  {
    assert OccursAt(original, PARAM_NAME, 0);
    assert IndexOf(original, PARAM_NAME) == Some(0);
    assert original[|PARAM_NAME|..] == rest;
  }

  lemma ExampleUnderscored(t: string)
    requires t == ": param name"
    ensures Underscored(t) == "__param_name"
  {
    var spaced := ExampleSpaced(t);
    ExampleColon(spaced);
  }

  lemma ExampleSpaced(t: string) returns (spaced: string)
    requires t == ": param name"
    ensures MapChars(t, SpaceToUnderscore) == spaced && spaced == ":_param_name"
  {
    spaced := MapChars(t, SpaceToUnderscore);
    assert spaced[1] == '_' && spaced[7] == '_';
  }

  lemma ExampleColon(spaced: string)
    requires spaced == ":_param_name"
    ensures MapChars(spaced, ColonToUnderscore) == "__param_name"
  {
    var v := MapChars(spaced, ColonToUnderscore);
    assert v[0] == '_';
  }

  // ---------------------------------------------------------------------------
  // The parameter map

  /** A `paramMap` value `{ original, clean }`; `clean` is also its key. */
  datatype Param = Param(original: string, clean: string)

  /** The position of key `c` in the insertion-ordered map `m`. */
  function KeyIndex(m: seq<Param>, c: string): (r: Option<nat>)
    ensures r.Some? ==> r.value < |m| && m[r.value].clean == c
    ensures r.None? ==> forall i :: 0 <= i < |m| ==> m[i].clean != c
  {
    if m == [] then None
    else if m[|m| - 1].clean == c then Some(|m| - 1)
    else KeyIndex(m[..|m| - 1], c)
  }

  predicate HasKey(m: seq<Param>, c: string) {
    exists i :: 0 <= i < |m| && m[i].clean == c
  }

  /** `Map.prototype.set(c, {original: o, clean: c})`: an existing key keeps its
      position and takes the new value; a new key is appended. */
  function MapSet(m: seq<Param>, c: string, o: string): (r: seq<Param>)
    ensures KeyIndex(m, c).Some? ==> r == m[KeyIndex(m, c).value := Param(o, c)]
    ensures KeyIndex(m, c).None? ==> r == m + [Param(o, c)]
  {
    match KeyIndex(m, c)
    case Some(i) => m[i := Param(o, c)]
    case None => m + [Param(o, c)]
  }

  /** Each capture paired with its clean name. */
  function Captures(toks: seq<string>): seq<Param> {
    seq(|toks|, k requires 0 <= k < |toks| => Param(toks[k], Canonicalize(toks[k])))
  }

  /** The body of the scanning loop for one capture:
      `if (clean) paramMap.set(clean, { original, clean })`. */
  function Insert(m: seq<Param>, e: Param): seq<Param> {
    if e.clean == "" then m else MapSet(m, e.clean, e.original)
  }

  /** The map after the loop has inserted `es`, in order. */
  function Build(es: seq<Param>): seq<Param>
    decreases |es|
  {
    if es == [] then [] else Insert(Build(es[..|es| - 1]), es[|es| - 1])
  }

  /** The parameter map built from a whole prompt (not only its template line). */
  function ParamMap(prompt: string): seq<Param> {
    Build(Captures(Tokens(prompt)))
  }

  /** The map after inserting the captures `toks`, in order, into `m`: what
      the rest of the scanning loop does from a map built so far. */
  function BuildFrom(m: seq<Param>, toks: seq<string>): seq<Param>
    decreases |toks|
  {
    if toks == [] then m else BuildFrom(Insert(m, Param(toks[0], Canonicalize(toks[0]))), toks[1..])
  }

  /** Continuing from the map of `es` with `toks` builds the map of all the captures. */
  lemma {:induction false} BuildFromSpec(es: seq<Param>, toks: seq<string>)
    ensures BuildFrom(Build(es), toks) == Build(es + Captures(toks))
    decreases |toks|
  {
    if toks == [] {
      assert es + Captures(toks) == es;
    } else {
      var e := Param(toks[0], Canonicalize(toks[0]));
      BuildSnoc(es, e);
      BuildFromSpec(es + [e], toks[1..]);
      CapturesCons(toks);
      ConcatAssoc(es, [e], Captures(toks[1..]));
    }
  }

  lemma CapturesCons(toks: seq<string>)
    requires toks != []
    ensures Captures(toks) == [Param(toks[0], Canonicalize(toks[0]))] + Captures(toks[1..])
  {
  }

  lemma ConcatAssoc<T>(a: seq<T>, b: seq<T>, c: seq<T>)
    ensures a + b + c == a + (b + c)
  {
  }

  lemma BuildSnoc(es: seq<Param>, e: Param)
    ensures Build(es + [e]) == Insert(Build(es), e)
  {
    assert (es + [e])[..|es|] == es;
  }

  lemma BuildFromCons(m: seq<Param>, t: string, rest: seq<string>)
    ensures BuildFrom(m, [t] + rest) == BuildFrom(Insert(m, Param(t, Canonicalize(t))), rest)
  {
    assert ([t] + rest)[1..] == rest;
  }

  /** One `paramRegex.exec(prompt)` with `lastIndex == from`: the capture and
      the new `lastIndex`, or `None` when the scan is over. */
  method NextCapture(prompt: string, from: nat) returns (found: Option<(string, nat)>)
    requires from <= |prompt|
    ensures found.None? ==> TokensFrom(prompt, from) == []
    ensures found.Some? ==> from < found.value.1 <= |prompt|
    ensures found.Some? ==> TokensFrom(prompt, from) == [found.value.0] + TokensFrom(prompt, found.value.1)
  {
    var span := NextMatch(prompt, from);
    if span.None? {
      return None;
    }
    var (p, q) := span.value;
    TokensFromStep(prompt, from, p, q);
    return Some((prompt[p + 1..q], q + 1));
  }

  /** The `while ((match = paramRegex.exec(prompt)) !== null)` loop. */
  method CollectParams(prompt: string) returns (m: seq<Param>)
    ensures m == ParamMap(prompt)
  {
    m := [];
    var lastIndex: nat := 0;
    ghost var rest := Tokens(prompt);
    BuildFromSpec([], rest);
    assert [] + Captures(rest) == Captures(rest);
    var found := NextCapture(prompt, lastIndex);
    while found.Some?
      invariant lastIndex <= |prompt|
      invariant found.None? ==> rest == []
      invariant found.Some? ==> lastIndex < found.value.1 <= |prompt| && rest == [found.value.0] + TokensFrom(prompt, found.value.1)
      invariant BuildFrom(m, rest) == ParamMap(prompt)
      decreases |prompt| - lastIndex
    {
      var (original, next) := found.value;
      var clean := Canonicalize(original);
      BuildFromCons(m, original, TokensFrom(prompt, next));
      ghost var before := m;
      if clean != "" {
        m := MapSet(m, clean, original);
      }
      assert m == Insert(before, Param(original, clean));
      rest := TokensFrom(prompt, next);
      lastIndex := next;
      found := NextCapture(prompt, lastIndex);
    }
  }

  /** One `exec` moves one capture from the unscanned rest to the map. */
  lemma TokensFromStep(s: string, from: nat, p: nat, q: nat)
    requires NextMatch(s, from) == Some((p, q))
    ensures q < |s|
    ensures TokensFrom(s, from) == [s[p + 1..q]] + TokensFrom(s, q + 1)
  {
  }

  /** Keys are distinct and non-empty, and every entry is one of the captures. */
  ghost predicate WellFormed(m: seq<Param>, es: seq<Param>) {
    (forall i, j :: 0 <= i < j < |m| ==> m[i].clean != m[j].clean)
    && (forall i :: 0 <= i < |m| ==> m[i].clean != "" && m[i] in es)
  }

  lemma {:induction false} BuildWellFormed(es: seq<Param>)
    ensures WellFormed(Build(es), es)
    decreases |es|
  {
    if es != [] {
      var init := es[..|es| - 1];
      BuildWellFormed(init);
      var m := Build(init);
      var e := es[|es| - 1];
      forall x | x in init ensures x in es { }
      if e.clean != "" {
        var m' := Build(es);
        forall i | 0 <= i < |m'| ensures m'[i].clean != "" && m'[i] in es {
          if i < |m| && m'[i] == m[i] { } else { assert m'[i] == Param(e.original, e.clean); }
        }
      }
    }
  }

  /** The entries of a parameter map are distinct non-empty clean names, each
      the clean name of its own original. */
  lemma ParamMapWellFormed(prompt: string)
    ensures forall i, j :: 0 <= i < j < |ParamMap(prompt)| ==> ParamMap(prompt)[i].clean != ParamMap(prompt)[j].clean
    ensures forall i :: 0 <= i < |ParamMap(prompt)| ==>
              ParamMap(prompt)[i].clean != "" && ParamMap(prompt)[i].clean == Canonicalize(ParamMap(prompt)[i].original)
  {
    var es := Captures(Tokens(prompt));
    BuildWellFormed(es);
    forall i | 0 <= i < |ParamMap(prompt)|
      ensures ParamMap(prompt)[i].clean == Canonicalize(ParamMap(prompt)[i].original)
    {
      var k :| 0 <= k < |es| && es[k] == ParamMap(prompt)[i];
    }
  }

  /** `c` is the clean name of some capture. */
  ghost predicate Named(es: seq<Param>, c: string) {
    exists k :: 0 <= k < |es| && es[k].clean == c
  }

  /** One insertion: the map grows by at most the new entry, the keys already
      present keep their positions, and the keys are the old ones plus the
      new clean name when it is not empty. */
  lemma BuildStep(es: seq<Param>)
    requires es != []
    ensures |Build(es[..|es| - 1])| <= |Build(es)| <= |Build(es[..|es| - 1])| + 1
    ensures forall k :: 0 <= k < |Build(es[..|es| - 1])| ==> Build(es)[k].clean == Build(es[..|es| - 1])[k].clean
    ensures |Build(es)| == |Build(es[..|es| - 1])| + 1 ==>
              Build(es) == Build(es[..|es| - 1]) + [es[|es| - 1]] && es[|es| - 1].clean != ""
              && !HasKey(Build(es[..|es| - 1]), es[|es| - 1].clean)
    ensures forall c :: HasKey(Build(es), c) <==>
              HasKey(Build(es[..|es| - 1]), c) || (c != "" && c == es[|es| - 1].clean)
  {
    var m := Build(es[..|es| - 1]);
    var e := es[|es| - 1];
    var m' := Build(es);
    if e.clean != "" {
      match KeyIndex(m, e.clean)
      case Some(j) =>
        assert m' == m[j := e];
        forall c ensures HasKey(m', c) <==> HasKey(m, c) || (c != "" && c == e.clean) {
          if HasKey(m', c) {
            var i :| 0 <= i < |m'| && m'[i].clean == c;
            assert m[i].clean == c;
          }
          if HasKey(m, c) {
            var i :| 0 <= i < |m| && m[i].clean == c;
            assert m'[i].clean == c;
          }
          if c == e.clean { assert m'[j].clean == c; }
        }
      case None =>
        assert m' == m + [e];
        forall c ensures HasKey(m', c) <==> HasKey(m, c) || (c != "" && c == e.clean) {
          if HasKey(m', c) {
            var i :| 0 <= i < |m'| && m'[i].clean == c;
            if i < |m| { assert m[i].clean == c; }
          }
          if HasKey(m, c) {
            var i :| 0 <= i < |m| && m[i].clean == c;
            assert m'[i].clean == c;
          }
          if c == e.clean { assert m'[|m|].clean == c; }
        }
    }
  }

  /** The map has one entry for every distinct non-empty clean name among the captures, and no other. */
  lemma {:induction false} BuildKeys(es: seq<Param>, c: string)
    ensures HasKey(Build(es), c) <==> c != "" && Named(es, c)
    decreases |es|
  {
    if es != [] {
      BuildKeys(es[..|es| - 1], c);
      BuildStep(es);
      NamedSnoc(es, c);
    }
  }

  lemma NamedSnoc(es: seq<Param>, c: string)
    requires es != []
    ensures Named(es, c) <==> Named(es[..|es| - 1], c) || es[|es| - 1].clean == c
  {
    var init := es[..|es| - 1];
    if Named(es, c) {
      var k :| 0 <= k < |es| && es[k].clean == c;
      if k < |init| { assert init[k] == es[k]; }
    }
    if Named(init, c) {
      var k :| 0 <= k < |init| && init[k].clean == c;
      assert es[k] == init[k];
    }
  }

  /** `k` is the last capture whose clean name is `c`. */
  ghost predicate LastNamed(es: seq<Param>, k: int, c: string) {
    0 <= k < |es| && es[k].clean == c
    && forall k' :: k < k' < |es| ==> es[k'].clean != c
  }

  /** Each entry holds the last capture seen with its clean name: an earlier,
      different original with the same clean name is overwritten. */
  lemma {:induction false} BuildLastOriginal(es: seq<Param>, i: int)
    requires 0 <= i < |Build(es)|
    ensures exists k :: LastNamed(es, k, Build(es)[i].clean) && es[k] == Build(es)[i]
    decreases |es|
  {
    var init := es[..|es| - 1];
    var e := es[|es| - 1];
    var m := Build(init);
    var m' := Build(es);
    var c := m'[i].clean;
    BuildWellFormed(es);
    if c == e.clean {
      assert m'[i] == e by {
        assert c != "";
        var j := KeyIndex(m, c);
        if j.Some? {
          assert m' == m[j.value := Param(e.original, e.clean)];
          assert m'[j.value].clean == c;
        } else {
          assert m' == m + [Param(e.original, e.clean)];
        }
      }
      assert LastNamed(es, |es| - 1, c);
    } else {
      assert i < |m| && m[i] == m'[i];
      BuildLastOriginal(init, i);
      var k :| LastNamed(init, k, c) && init[k] == m[i];
      assert LastNamed(es, k, c);
    }
  }

  /** The index of the first capture whose clean name is `c`, or `|es|`. */
  function FirstNamed(es: seq<Param>, c: string): (r: nat)
    ensures r <= |es| && (r < |es| ==> es[r].clean == c)
    ensures forall k :: 0 <= k < r ==> es[k].clean != c
  {
    if es == [] then 0
    else if es[0].clean == c then 0
    else 1 + FirstNamed(es[1..], c)
  }

  lemma FirstNamedOfPrefix(es: seq<Param>, c: string)
    requires |es| > 0 && Named(es[..|es| - 1], c)
    ensures FirstNamed(es, c) == FirstNamed(es[..|es| - 1], c) < |es| - 1
  {
    var init := es[..|es| - 1];
    var a, b := FirstNamed(es, c), FirstNamed(init, c);
    var k :| 0 <= k < |init| && init[k].clean == c;
    assert b < |init|;
    assert es[b] == init[b];
    assert forall k :: 0 <= k < |init| ==> init[k] == es[k];
  }

  /** An entry already present before the last insertion keeps the first
      occurrence of its clean name. */
  lemma OldKeyFirstNamed(es: seq<Param>, k: int)
    requires es != [] && 0 <= k < |Build(es[..|es| - 1])|
    ensures k < |Build(es)|
    ensures FirstNamed(es, Build(es)[k].clean) == FirstNamed(es[..|es| - 1], Build(es[..|es| - 1])[k].clean) < |es| - 1
  {
    var init := es[..|es| - 1];
    var m := Build(init);
    BuildStep(es);
    var c := m[k].clean;
    assert HasKey(m, c);
    BuildKeys(init, c);
    FirstNamedOfPrefix(es, c);
  }

  /** An entry appended by the last insertion has its first occurrence there. */
  lemma NewKeyFirstNamed(es: seq<Param>)
    requires es != [] && |Build(es)| == |Build(es[..|es| - 1])| + 1
    ensures FirstNamed(es, Build(es)[|Build(es[..|es| - 1])|].clean) == |es| - 1
  {
    var init := es[..|es| - 1];
    var e := es[|es| - 1];
    BuildStep(es);
    assert Build(es)[|Build(init)|] == e;
    BuildKeys(init, e.clean);
    forall k | 0 <= k < |init| ensures es[k].clean != e.clean { assert es[k] == init[k]; }
  }

  /** Entries are ordered by the first occurrence of their clean name. */
  lemma {:induction false} BuildOrder(es: seq<Param>, i: int, j: int)
    requires 0 <= i < j < |Build(es)|
    ensures FirstNamed(es, Build(es)[i].clean) < FirstNamed(es, Build(es)[j].clean)
    decreases |es|
  {
    var init := es[..|es| - 1];
    BuildStep(es);
    OldKeyFirstNamed(es, i);
    if j < |Build(init)| {
      OldKeyFirstNamed(es, j);
      BuildOrder(init, i, j);
    } else {
      NewKeyFirstNamed(es);
    }
  }
}
