/** Concrete calls of dynamic tools, worked through the model. */
module Scenarios {
  import opened Options
  import opened Text
  import opened Placeholders
  import opened Params
  import opened Command

  predicate NoLessThan(s: string) {
    forall k :: 0 <= k < |s| ==> s[k] != '<'
  }

  /** A command without `<` is left as it is by the clean-up when its ends are
      not whitespace. */
  lemma CleanedOfPlain(s: string)
    requires NoLessThan(s) && IsTrimmed(s)
    ensures Cleaned(s) == s
  {
    NoSpanWithoutLessThan(s);
    StripOfNoSpan(s);
    TrimOfTrimmed(s);
  }

  /** A map with one entry substitutes that entry only. */
  lemma SubstitutedSingle(cmd: string, e: Param, args: map<string, Value>)
    ensures Substituted(cmd, [e], args) == SubstStep(cmd, e, args)
  {
    assert [e][..0] == [];
  }

  lemma ValueOf120(v: Value)
    requires v == Num(120)
    ensures ValueString(v) == "120"
  {
    assert NatDigits(1) == "1";
    assert NatDigits(12) == "12";
    assert NatDigits(120) == "120";
  }

  /** A command that is the single-space join of tokens runs the first token
      with the rest as arguments. */
  lemma RunsTokens(c: string, parts: seq<string>)
    requires parts != [] && forall k :: 0 <= k < |parts| ==> parts[k] != "" && NoSpace(parts[k])
    requires c == Join(parts, " ")
    ensures Invocation(c) == (parts[0], parts[1..])
  {
    SplitWsJoin(parts);
  }

  /** Trimming drops one trailing space after a string whose ends are not whitespace. */
  lemma TrimTrailingSpace(a: string)
    requires a != "" && IsTrimmed(a)
    ensures Trim(a + " ") == a
  {
    var u := a + " ";
    assert LeadingSpace(u) == 0;
    assert u[..|u| - 1] == a;
    assert TrailingSpace(a) == 0;
    assert TrailingSpace(u) == 1;
  }

  /** `settings put system screen_brightness <value>` called with `{value: 120}`
      runs `settings` with `put system screen_brightness 120`. */
  lemma BrightnessCall(template: string, m: seq<Param>, args: map<string, Value>)
    requires template == "settings put system screen_brightness <value>"
    requires m == [Param("value", "value")]
    requires args == map["value" := Num(120)]
    ensures Instantiate(template, m, args) == ("settings", ["put", "system", "screen_brightness", "120"])
  {
    var c := BrightnessSubstituted(template, m, args);
    BrightnessInvocation(c);
  }

  lemma BrightnessSubstituted(template: string, m: seq<Param>, args: map<string, Value>) returns (c: string)
    requires template == "settings put system screen_brightness <value>"
    requires m == [Param("value", "value")]
    requires args == map["value" := Num(120)]
    ensures Substituted(template, m, args) == c && c == "settings put system screen_brightness 120"
  {
    c := SubstitutedAt(template, "settings put system screen_brightness ", m[0], "", args);
    ValueOf120(args["value"]);
  }

  /** `SingleSubstitution` for a template split at its one placeholder, with no
      `<` before it. */
  lemma SubstitutedAt(template: string, head: string, e: Param, tail: string, args: map<string, Value>)
    returns (r: string)
    requires template == head + Placeholder(e.original) + tail
    requires e.clean in args && NoLessThan(head) && !Contains(tail, Placeholder(e.original))
    ensures Substituted(template, [e], args) == r && r == head + ValueString(args[e.clean]) + tail
  {
    NoOccurrenceInPrefix(head, Placeholder(e.original), tail);
    SingleSubstitution(head, e, tail, args);
    r := head + ValueString(args[e.clean]) + tail;
  }

  /** A template whose leftmost occurrence of `<original>` comes right after
      `head`, with none after it, called with a value for the entry, has that
      occurrence replaced by the value. */
  lemma SingleSubstitution(head: string, e: Param, tail: string, args: map<string, Value>)
    requires e.clean in args
    requires forall j :: 0 <= j < |head| ==>
               !OccursAt(head + Placeholder(e.original) + tail, Placeholder(e.original), j)
    requires !Contains(tail, Placeholder(e.original))
    ensures Substituted(head + Placeholder(e.original) + tail, [e], args) == head + ValueString(args[e.clean]) + tail
  {
    var sep := Placeholder(e.original);
    SubstitutedSingle(head + sep + tail, e, args);
    ReplaceAllOnce(head, sep, tail, ValueString(args[e.clean]));
  }

  lemma BrightnessInvocation(c: string)
    requires c == "settings put system screen_brightness 120"
    ensures Invocation(Cleaned(c)) == ("settings", ["put", "system", "screen_brightness", "120"])
  {
    BrightnessCleaned(c);
    var parts := ["settings", "put", "system", "screen_brightness", "120"];
    BrightnessJoin(c, parts);
    RunsTokens(c, parts);
  }

  lemma BrightnessCleaned(c: string)
    requires c == "settings put system screen_brightness 120"
    ensures Cleaned(c) == c
  {
    assert NoLessThan(c);
    assert IsTrimmed(c);
    CleanedOfPlain(c);
  }

  lemma BrightnessJoin(c: string, parts: seq<string>)
    requires c == "settings put system screen_brightness 120"
    requires parts == ["settings", "put", "system", "screen_brightness", "120"]
    ensures c == Join(parts, " ")
    ensures forall k :: 0 <= k < |parts| ==> parts[k] != "" && NoSpace(parts[k])
  {
    JoinFive(parts);
    BrightnessPieces(c, parts);
    BrightnessTokensFree(parts);
  }

  lemma BrightnessPieces(c: string, parts: seq<string>)
    requires c == "settings put system screen_brightness 120"
    requires parts == ["settings", "put", "system", "screen_brightness", "120"]
    ensures c == parts[0] + " " + parts[1] + " " + parts[2] + " " + parts[3] + " " + parts[4]
  {
    var a := parts[0] + " " + parts[1];
    assert a == "settings put";
    var b := a + " " + parts[2];
    assert b == "settings put system";
    var d := b + " " + parts[3];
    assert d == "settings put system screen_brightness";
    assert c == d + " " + parts[4];
  }

  lemma BrightnessTokensFree(parts: seq<string>)
    requires parts == ["settings", "put", "system", "screen_brightness", "120"]
    ensures forall k :: 0 <= k < |parts| ==> parts[k] != "" && NoSpace(parts[k])
  {
  }

  lemma JoinFive(p: seq<string>)
    requires |p| == 5
    ensures Join(p, " ") == p[0] + " " + p[1] + " " + p[2] + " " + p[3] + " " + p[4]
  {
    assert Join(p[4..], " ") == p[4];
    JoinCons(p[3], p[4..], " ");
    assert [p[3]] + p[4..] == p[3..];
    JoinCons(p[2], p[3..], " ");
    assert [p[2]] + p[3..] == p[2..];
    JoinCons(p[1], p[2..], " ");
    assert [p[1]] + p[2..] == p[1..];
    JoinCons(p[0], p[1..], " ");
    assert [p[0]] + p[1..] == p;
  }

  lemma JoinTwo(a: string, b: string)
    ensures Join([a, b], " ") == a + " " + b
  {
    assert [a, b][1..] == [b];
  }

  /** `a b` runs `a` with the one argument `b`. */
  lemma TwoTokens(c: string, a: string, b: string)
    requires a != "" && NoSpace(a) && b != "" && NoSpace(b)
    requires c == a + " " + b
    ensures Invocation(c) == (a, [b])
  {
    JoinTwo(a, b);
    RunsTokens(c, [a, b]);
  }

  /** A placeholder the call leaves unset is deleted: `cmd <a> <b>` with
      `{a: 'x'}` runs `cmd x`. */
  lemma UnsetPlaceholderDeleted(template: string, m: seq<Param>, args: map<string, Value>)
    requires template == "cmd <a> <b>"
    requires m == [Param("a", "a"), Param("b", "b")]
    requires args == map["a" := Str("x")]
    ensures Instantiate(template, m, args) == ("cmd", ["x"])
  {
    var s1 := UnsetSubstituted(template, m, args);
    var c := UnsetCleaned(s1);
  }

  lemma UnsetSubstituted(template: string, m: seq<Param>, args: map<string, Value>) returns (s1: string)
    requires template == "cmd <a> <b>"
    requires m == [Param("a", "a"), Param("b", "b")]
    requires args == map["a" := Str("x")]
    ensures Substituted(template, m, args) == s1 && s1 == "cmd x <b>"
  {
    SubstitutedPair(template, m[0], m[1], args);
    NoPlaceholderA(" <b>", Placeholder("a"));
    s1 := SubstitutedAt(template, "cmd ", m[0], " <b>", args);
  }

  /** A second entry whose clean name is not an argument does nothing. */
  lemma SubstitutedPair(cmd: string, e1: Param, e2: Param, args: map<string, Value>)
    requires e2.clean !in args
    ensures Substituted(cmd, [e1, e2], args) == Substituted(cmd, [e1], args)
  {
    assert [e1, e2][..1] == [e1];
  }

  lemma NoPlaceholderA(rest: string, sep: string)
    requires rest == " <b>" && sep == "<a>"
    ensures !Contains(rest, sep)
  {
    forall i | 0 <= i ensures !OccursAt(rest, sep, i) {
      if i + |sep| <= |rest| { assert rest[i..i + |sep|][1] == rest[i + 1]; }
    }
  }

  lemma UnsetCleaned(s1: string) returns (c: string)
    requires s1 == "cmd x <b>"
    ensures Cleaned(s1) == c && c == "cmd x" && Invocation(c) == ("cmd", ["x"])
  {
    c := "cmd x";
    StripOneSpan(c + " ", "b", "");
    assert s1 == c + " " + "<" + "b" + ">" + "";
    assert Strip(s1) == c + " ";
    TrimTrailingSpace(c);
    TwoTokens(c, "cmd", "x");
  }

  /** A span inside a substituted value is deleted too: `echo <msg>` with
      `{msg: '<b>hi'}` runs `echo hi`. */
  lemma SpanInValueDeleted(template: string, m: seq<Param>, args: map<string, Value>)
    requires template == "echo <msg>"
    requires m == [Param("msg", "msg")]
    requires args == map["msg" := Str("<b>hi")]
    ensures Instantiate(template, m, args) == ("echo", ["hi"])
  {
    var s1 := ValueSubstituted(template, m, args);
    var c := ValueCleaned(s1);
  }

  lemma ValueSubstituted(template: string, m: seq<Param>, args: map<string, Value>) returns (s1: string)
    requires template == "echo <msg>"
    requires m == [Param("msg", "msg")]
    requires args == map["msg" := Str("<b>hi")]
    ensures Substituted(template, m, args) == s1 && s1 == "echo <b>hi"
  {
    assert !Contains("", Placeholder("msg"));
    s1 := SubstitutedAt(template, "echo ", m[0], "", args);
  }

  lemma ValueCleaned(s1: string) returns (c: string)
    requires s1 == "echo <b>hi"
    ensures Cleaned(s1) == c && c == "echo hi" && Invocation(c) == ("echo", ["hi"])
  {
    c := CleanedOneSpan(s1, "echo ", "b", "hi");
    TwoTokens(c, "echo", "hi");
  }

  /** A template that is only a placeholder, called without arguments, runs the
      empty program name with no arguments. */
  lemma OnlyPlaceholder(template: string, m: seq<Param>, args: map<string, Value>)
    requires template == "<only>"
    requires m == [Param("only", "only")]
    requires args == map[]
    ensures Instantiate(template, m, args) == ("", [])
  {
    NoArgumentsNoChange(template, m, args);
    var c := CleanedOneSpan(template, "", "only", "");
    EmptyCommand(c);
  }

  /** A command with one span between texts without `<`, whose remainder has
      no whitespace at either end, is cleaned to that remainder. */
  lemma CleanedOneSpan(s: string, a: string, name: string, b: string) returns (c: string)
    requires s == a + "<" + name + ">" + b
    requires NoLessThan(a) && NoLessThan(b) && IsName(name) && IsTrimmed(a + b)
    ensures Cleaned(s) == c && c == a + b
  {
    StripOneSpan(a, name, b);
    TrimOfTrimmed(a + b);
    c := a + b;
  }

  /** Placeholders whose names differ only in a space share a clean name: the
      map keeps one entry, with the original of the last, so `cmd <a b> <a_b>`
      with `{a_b: 'x'}` fills `<a_b>`, and the clean-up deletes `<a b>`; the
      two spaces it leaves separate `cmd` and `x` like one. */
  lemma SharedCleanName(template: string, toks: seq<string>, args: map<string, Value>)
    requires template == "cmd <a b> <a_b>"
    requires toks == ["a b", "a_b"]
    requires args == map["a_b" := Str("x")]
    ensures Build(Captures(toks)) == [Param("a_b", "a_b")]
    ensures Instantiate(template, Build(Captures(toks)), args) == ("cmd", ["x"])
  {
    var m := SharedMap(toks);
    var s1 := SharedSubstituted(template, m, args);
    var c := SharedCleaned(s1);
  }

  lemma SharedMap(toks: seq<string>) returns (m: seq<Param>)
    requires toks == ["a b", "a_b"]
    ensures Build(Captures(toks)) == m && m == [Param("a_b", "a_b")]
  {
    SpacedName(toks[0]);
    PlainName(toks[1]);
    var es := Captures(toks);
    assert es == [Param("a b", "a_b"), Param("a_b", "a_b")];
    m := BuildSameKey(es[0], es[1]);
  }

  /** Two captures with the same non-empty clean name leave one entry, holding
      the original of the second. */
  lemma BuildSameKey(e1: Param, e2: Param) returns (m: seq<Param>)
    requires e1.clean == e2.clean && e1.clean != ""
    ensures Build([e1, e2]) == m && m == [Param(e2.original, e2.clean)]
  {
    BuildSnoc([], e1);
    BuildSnoc([e1], e2);
    assert [e1] + [e2] == [e1, e2];
    m := [Param(e2.original, e2.clean)];
  }

  /** `a b` is cleaned to `a_b`. */
  lemma SpacedName(t: string)
    requires t == "a b"
    ensures Canonicalize(t) == "a_b"
  {
    assert IndexOf(t, PARAM_NAME) == None;
    TrimOfTrimmed(t);
    var u := MapChars(t, SpaceToUnderscore);
    assert u == "a_b" by { assert u[1] == '_'; }
    UnderscoredUnchanged(u);
    assert MapChars(u, ColonToUnderscore) == u;
  }

  /** A name without whitespace or `:` is its own clean name. */
  lemma PlainName(t: string)
    requires NoSpace(t) && NoColon(t)
    ensures Canonicalize(t) == t
  {
    NoParamNameWithoutSpace(t);
    ReplaceFirstSpec(t, PARAM_NAME, "");
    TrimOfTrimmed(t);
    UnderscoredUnchanged(t);
  }

  lemma SharedSubstituted(template: string, m: seq<Param>, args: map<string, Value>) returns (s1: string)
    requires template == "cmd <a b> <a_b>"
    requires m == [Param("a_b", "a_b")]
    requires args == map["a_b" := Str("x")]
    ensures Substituted(template, m, args) == s1 && s1 == "cmd <a b> x"
  {
    var head, sep := "cmd <a b> ", Placeholder("a_b");
    assert template == head + sep + "";
    forall j | 0 <= j < |head| ensures !OccursAt(template, sep, j) {
      if j + |sep| <= |template| {
        assert template[j..j + |sep|][0] == template[j];
        assert template[j..j + |sep|][2] == template[j + 2];
      }
    }
    assert !Contains("", sep);
    SingleSubstitution(head, m[0], "", args);
    s1 := head + "x";
  }

  lemma SharedCleaned(s1: string) returns (c: string)
    requires s1 == "cmd <a b> x"
    ensures Cleaned(s1) == c && c == "cmd  x" && Invocation(c) == ("cmd", ["x"])
  {
    var u := SharedStripped(s1);
    c := "cmd  x";
    SharedTrimmed(u);
    DoubleSpaced(c);
  }

  lemma SharedStripped(s1: string) returns (u: string)
    requires s1 == "cmd <a b> x"
    ensures Strip(s1) == u && u == "cmd  x"
  {
    assert s1 == "cmd " + "<" + "a b" + ">" + " x";
    StripCons("cmd ", "a b", " x");
    NoSpanWithoutLessThan(" x");
    StripOfNoSpan(" x");
    u := "cmd  x";
  }

  lemma SharedTrimmed(u: string)
    requires u == "cmd  x"
    ensures Trim(u) == u
  {
    assert IsTrimmed(u);
    TrimOfTrimmed(u);
  }

  lemma DoubleSpaced(c: string)
    requires c == "cmd  x"
    ensures Invocation(c) == ("cmd", ["x"])
  {
    assert c == "cmd" + "  " + "x";
    SplitWsCons("cmd", "  ", "x");
    assert NoSpace("x");
    SplitWsSpec("x");
    var parts := SplitWs(c);
    assert parts[0] == "cmd" && parts[1..] == SplitWs("x") == ["x"];
  }

  /** Runs of several whitespace characters separate tokens just as one space
      does: `cmd\tx  y`, as left by a deleted placeholder between two values,
      runs `cmd` with `x` and `y`. */
  lemma WhitespaceRuns(c: string)
    requires c == "cmd\tx  y"
    ensures Invocation(c) == ("cmd", ["x", "y"])
  {
    var parts, runs := ["cmd", "x", "y"], ["\t", "  "];
    WhitespaceRunsJoin(c, parts, runs);
    SplitWsInterleave(parts, runs);
  }

  lemma WhitespaceRunsJoin(c: string, parts: seq<string>, runs: seq<string>)
    requires c == "cmd\tx  y"
    requires parts == ["cmd", "x", "y"] && runs == ["\t", "  "]
    ensures |parts| == |runs| + 1 && c == Interleave(parts, runs)
    ensures forall k :: 0 <= k < |parts| ==> parts[k] != "" && NoSpace(parts[k])
    ensures forall k :: 0 <= k < |runs| ==> runs[k] != "" && AllSpace(runs[k])
  {
    assert Interleave(parts[2..], runs[2..]) == "y";
    assert Interleave(parts[1..], runs[1..]) == "x" + "  " + "y";
  }
}
