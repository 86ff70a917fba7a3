/** The handler of a dynamic tool: substitute the call's arguments into the
    command template, delete the placeholders left over, trim, and split on
    whitespace into a program name and its argument list. */
module Command {
  import opened Options
  import opened Text
  import opened Placeholders
  import opened Params

  /** An argument value of a call: `string | number` (numbers as integers). */
  datatype Value = Str(s: string) | Num(n: int)

  /** `String(value)`. */
  function ValueString(v: Value): string {
    match v
    case Str(s) => s
    case Num(n) => IntToString(n)
  }

  /** The literal placeholder `<original>` that substitution looks for. */
  function Placeholder(original: string): (r: string)
    ensures |r| > 0
  {
    "<" + original + ">"
  }

  /** One step of the substitution `forEach`: when the clean name is a key of
      `args`, `cmd.split('<original>').join(String(value))`. */
  function SubstStep(cmd: string, e: Param, args: map<string, Value>): string {
    if e.clean in args then ReplaceAll(cmd, Placeholder(e.original), ValueString(args[e.clean])) else cmd
  }

  /** The command after the substitution loop has visited the entries `m`, in order. */
  function Substituted(cmd: string, m: seq<Param>, args: map<string, Value>): string
    decreases |m|
  {
    if m == [] then cmd else SubstStep(Substituted(cmd, m[..|m| - 1], args), m[|m| - 1], args)
  }

  /** `paramMap.forEach(...)` reassigning `finalCommand`. */
  method Substitute(template: string, m: seq<Param>, args: map<string, Value>) returns (finalCommand: string)
    ensures finalCommand == Substituted(template, m, args)
  {
    finalCommand := template;
    for i := 0 to |m|
      invariant finalCommand == Substituted(template, m[..i], args)
    {
      assert m[..i + 1][..i] == m[..i];
      var e := m[i];
      if e.clean in args {
        finalCommand := ReplaceAll(finalCommand, Placeholder(e.original), ValueString(args[e.clean]));
      }
    }
    assert m[..|m|] == m;
  }

  // ---------------------------------------------------------------------------
  // Properties of substitution

  /** Substituting along `a + b` is substituting along `a`, then along `b`. */
  lemma {:induction false} SubstitutedAppend(cmd: string, a: seq<Param>, b: seq<Param>, args: map<string, Value>)
    ensures Substituted(cmd, a + b, args) == Substituted(Substituted(cmd, a, args), b, args)
    decreases |b|
  {
    if b == [] {
      assert a + b == a;
    } else {
      var b' := b[..|b| - 1];
      SubstitutedAppend(cmd, a, b', args);
      assert (a + b)[..|a + b| - 1] == a + b';
    }
  }

  /** An entry whose clean name is not an argument can be dropped: it leaves the
      command unchanged. */
  lemma AbsentEntryIgnored(cmd: string, a: seq<Param>, e: Param, b: seq<Param>, args: map<string, Value>)
    requires e.clean !in args
    ensures Substituted(cmd, a + [e] + b, args) == Substituted(cmd, a + b, args)
  {
    SubstitutedAppend(cmd, a + [e], b, args);
    SubstitutedAppend(cmd, a, b, args);
    assert (a + [e])[..|a|] == a;
  }

  /** When no clean name is an argument, the command is the template. */
  lemma {:induction false} NoArgumentsNoChange(cmd: string, m: seq<Param>, args: map<string, Value>)
    requires forall i :: 0 <= i < |m| ==> m[i].clean !in args
    ensures Substituted(cmd, m, args) == cmd
    decreases |m|
  {
    if m != [] {
      NoArgumentsNoChange(cmd, m[..|m| - 1], args);
    }
  }

  /** An argument whose key is no clean name of the map has no effect. */
  lemma {:induction false} ExtraArgumentIgnored(cmd: string, m: seq<Param>, args: map<string, Value>, k: string, v: Value)
    requires forall i :: 0 <= i < |m| ==> m[i].clean != k
    ensures Substituted(cmd, m, args[k := v]) == Substituted(cmd, m, args)
    decreases |m|
  {
    if m != [] {
      ExtraArgumentIgnored(cmd, m[..|m| - 1], args, k, v);
    }
  }

  /** A step that applies replaces the placeholder everywhere: the pieces
      between its occurrences are joined by the value, none of those pieces
      contains the placeholder, and joining them by the placeholder instead
      gives back the command. */
  lemma SubstStepSpec(cmd: string, e: Param, args: map<string, Value>)
    requires e.clean in args
    ensures SubstStep(cmd, e, args) == Join(SplitOn(cmd, Placeholder(e.original)), ValueString(args[e.clean]))
    ensures Join(SplitOn(cmd, Placeholder(e.original)), Placeholder(e.original)) == cmd
    ensures forall k :: 0 <= k < |SplitOn(cmd, Placeholder(e.original))| ==>
              !Contains(SplitOn(cmd, Placeholder(e.original))[k], Placeholder(e.original))
  {
    JoinSplitOn(cmd, Placeholder(e.original));
    SplitOnPiecesFree(cmd, Placeholder(e.original));
  }

  /** A step whose placeholder does not occur leaves the command unchanged. */
  lemma SubstStepAbsent(cmd: string, e: Param, args: map<string, Value>)
    requires !Contains(cmd, Placeholder(e.original))
    ensures SubstStep(cmd, e, args) == cmd
  {
    ReplaceAllAbsent(cmd, Placeholder(e.original), if e.clean in args then ValueString(args[e.clean]) else "");
  }

  // ---------------------------------------------------------------------------
  // split(/\s+/)

  /** `s.split(/\s+/)`: the pieces between maximal whitespace runs. A leading
      or trailing run gives an empty first or last piece; `""` gives `[""]`. */
  function SplitWs(s: string): (parts: seq<string>)
    ensures |parts| >= 1
    decreases |s|
  {
    if s == [] then [""]
    else if IsSpace(s[0]) then [""] + SplitWs(s[LeadingSpace(s)..])
    else
      var r := SplitWs(s[1..]);
      [[s[0]] + r[0]] + r[1..]
  }

  /** `const [cmd, ...cmdArgs] = s.split(/\s+/)`. */
  function Invocation(s: string): (string, seq<string>) {
    var parts := SplitWs(s);
    (parts[0], parts[1..])
  }

  /** `finalCommand.replace(/<[^>]+>/g, '').trim()`. */
  function Cleaned(cmd: string): string {
    Trim(Strip(cmd))
  }

  /** The invocation a call produces: the program name and its arguments. */
  function Instantiate(template: string, m: seq<Param>, args: map<string, Value>): (string, seq<string>) {
    Invocation(Cleaned(Substituted(template, m, args)))
  }

  /** The tool handler: substitution by the loop, then strip, trim and split. */
  method Handle(template: string, m: seq<Param>, args: map<string, Value>) returns (cmd: string, cmdArgs: seq<string>)
    ensures (cmd, cmdArgs) == Instantiate(template, m, args)
  {
    var finalCommand := Substitute(template, m, args);
    finalCommand := Cleaned(finalCommand);
    var parts := SplitWs(finalCommand);
    cmd := parts[0];
    cmdArgs := parts[1..];
  }

  // ---------------------------------------------------------------------------
  // Properties of the clean-up and of splitting

  /** After the clean-up no placeholder span is left, the ends are not
      whitespace, and a second clean-up changes nothing. */
  lemma CleanedSpec(cmd: string)
    ensures NoSpan(Cleaned(cmd)) && IsTrimmed(Cleaned(cmd))
    ensures Cleaned(Cleaned(cmd)) == Cleaned(cmd)
  {
    StripTrimStable(cmd);
    TrimSpec(Strip(cmd));
    TrimOfTrimmed(Cleaned(cmd));
  }

  /** Splitting the empty string gives one empty piece: program `""`, no arguments. */
  lemma EmptyCommand(s: string)
    requires s == ""
    ensures Invocation(s) == ("", [])
  {
    var parts := SplitWs(s);
    assert parts == [s];
    assert parts[1..] == [];
    assert Invocation(s) == (parts[0], parts[1..]);
  }

  /** What `split(/\s+/)` gives for any string: whitespace-free pieces, all
      non-empty but the first and the last; the first is empty exactly when the
      string is empty or starts with whitespace, the last exactly when it is
      empty or ends with whitespace; one piece exactly when there is no
      whitespace, and that piece is the string. */
  lemma {:induction false} SplitWsSpec(s: string)
    ensures forall k :: 0 <= k < |SplitWs(s)| ==> NoSpace(SplitWs(s)[k])
    ensures forall k :: 0 < k < |SplitWs(s)| - 1 ==> SplitWs(s)[k] != ""
    ensures SplitWs(s)[0] == "" <==> s == "" || IsSpace(s[0])
    ensures SplitWs(s)[|SplitWs(s)| - 1] == "" <==> s == "" || IsSpace(s[|s| - 1])
    ensures |SplitWs(s)| == 1 <==> NoSpace(s)
    ensures |SplitWs(s)| == 1 ==> SplitWs(s)[0] == s
    decreases |s|, 1
  {
    if s == [] {
    } else if IsSpace(s[0]) {
      SplitAfterRun(s);
    } else {
      SplitAfterChar(s);
    }
  }

  /** `SplitWsSpec` for a string that starts with whitespace. */
  lemma {:induction false} SplitAfterRun(s: string)
    requires s != [] && IsSpace(s[0])
    ensures forall k :: 0 <= k < |SplitWs(s)| ==> NoSpace(SplitWs(s)[k])
    ensures forall k :: 0 < k < |SplitWs(s)| - 1 ==> SplitWs(s)[k] != ""
    ensures SplitWs(s)[0] == ""
    ensures SplitWs(s)[|SplitWs(s)| - 1] == "" <==> IsSpace(s[|s| - 1])
    ensures |SplitWs(s)| > 1 && !NoSpace(s)
    decreases |s|, 0
  {
    var n := LeadingSpace(s);
    var t := s[n..];
    LeadingSpaceSpec(s);
    assert n >= 1;
    SplitWsSpec(t);
    var r := SplitWs(t);
    var parts := SplitWs(s);
    SplitWsSpaceHead(s);
    assert parts == [""] + r;
    if t == [] {
      assert IsSpace(s[|s| - 1]);
    } else {
      assert t[0] == s[n] && t[|t| - 1] == s[|s| - 1];
    }
    forall k | 0 <= k < |parts| ensures NoSpace(parts[k]) {
      if k > 0 { assert parts[k] == r[k - 1]; }
    }
    forall k | 0 < k < |parts| - 1 ensures parts[k] != "" {
      assert parts[k] == r[k - 1];
    }
  }

  /** `SplitWsSpec` for a string that starts with a character other than whitespace. */
  lemma {:induction false} SplitAfterChar(s: string)
    requires s != [] && !IsSpace(s[0])
    ensures forall k :: 0 <= k < |SplitWs(s)| ==> NoSpace(SplitWs(s)[k])
    ensures forall k :: 0 < k < |SplitWs(s)| - 1 ==> SplitWs(s)[k] != ""
    ensures SplitWs(s)[0] != ""
    ensures SplitWs(s)[|SplitWs(s)| - 1] == "" <==> IsSpace(s[|s| - 1])
    ensures |SplitWs(s)| == 1 <==> NoSpace(s)
    ensures |SplitWs(s)| == 1 ==> SplitWs(s)[0] == s
    decreases |s|, 0
  {
    var t := s[1..];
    SplitWsSpec(t);
    var r := SplitWs(t);
    var head := [s[0]] + r[0];
    SplitWsCharHead(s);
    ConsPieces(head, r);
    HeadNoSpace(s[0], r[0]);
    NoSpaceCons(s);
    if t != [] {
      assert t[|t| - 1] == s[|s| - 1];
    }
    if |r| == 1 && NoSpace(t) {
      assert [s[0]] + t == s;
    }
  }

  /** Replacing the first piece keeps the others and their number. */
  lemma ConsPieces(head: string, r: seq<string>)
    requires |r| >= 1
    ensures |[head] + r[1..]| == |r| && ([head] + r[1..])[0] == head
    ensures forall k :: 0 < k < |r| ==> ([head] + r[1..])[k] == r[k]
  {
  }

  lemma HeadNoSpace(c: char, w: string)
    requires !IsSpace(c) && NoSpace(w)
    ensures NoSpace([c] + w) && [c] + w != ""
  {
    forall k | 0 <= k < |[c] + w| ensures !IsSpace(([c] + w)[k]) {
      if k > 0 { assert ([c] + w)[k] == w[k - 1]; }
    }
  }

  lemma NoSpaceCons(s: string)
    requires s != [] && !IsSpace(s[0])
    ensures NoSpace(s) <==> NoSpace(s[1..])
  {
    assert forall k :: 1 <= k < |s| ==> s[k] == s[1..][k - 1];
  }

  /** The whitespace runs of `s`, in order: what `split(/\s+/)` cuts out. */
  function Gaps(s: string): seq<string>
    decreases |s|
  {
    if s == [] then []
    else if IsSpace(s[0]) then [s[..LeadingSpace(s)]] + Gaps(s[LeadingSpace(s)..])
    else Gaps(s[1..])
  }

  /** The pieces `parts` with the runs `runs` between them. */
  function Interleave(parts: seq<string>, runs: seq<string>): string
    requires |parts| == |runs| + 1
    decreases |runs|
  {
    if runs == [] then parts[0] else parts[0] + runs[0] + Interleave(parts[1..], runs[1..])
  }

  lemma InterleaveCons(a: string, g: string, parts: seq<string>, runs: seq<string>)
    requires |parts| == |runs| + 1
    ensures Interleave([a] + parts, [g] + runs) == a + g + Interleave(parts, runs)
  {
    assert ([a] + parts)[1..] == parts;
    assert ([g] + runs)[1..] == runs;
  }

  /** A character put in front of the first piece goes in front of the whole. */
  lemma InterleaveHead(c: char, r: seq<string>, runs: seq<string>)
    requires |r| == |runs| + 1
    ensures Interleave([[c] + r[0]] + r[1..], runs) == [c] + Interleave(r, runs)
  {
    var q := [[c] + r[0]] + r[1..];
    if runs != [] {
      assert q[1..] == r[1..];
      assert q[0] + runs[0] + Interleave(r[1..], runs[1..]) == [c] + (r[0] + runs[0] + Interleave(r[1..], runs[1..]));
    }
  }

  /** Splitting loses nothing but whitespace: `s` is its pieces with its
      whitespace runs, each non-empty, between them. With `SplitWsSpec` (no
      piece holds whitespace) the pieces are exactly the stretches of `s`
      between its whitespace runs, in order. */
  lemma {:induction false} SplitWsGaps(s: string)
    ensures |Gaps(s)| == |SplitWs(s)| - 1
    ensures forall k :: 0 <= k < |Gaps(s)| ==> Gaps(s)[k] != "" && AllSpace(Gaps(s)[k])
    ensures Interleave(SplitWs(s), Gaps(s)) == s
    decreases |s|, 1
  {
    if s == [] {
    } else if IsSpace(s[0]) {
      GapsAfterRun(s);
    } else {
      GapsAfterChar(s);
    }
  }

  /** `SplitWsGaps` for a string that starts with whitespace. */
  lemma {:induction false} GapsAfterRun(s: string)
    requires s != [] && IsSpace(s[0])
    ensures |Gaps(s)| == |SplitWs(s)| - 1
    ensures forall k :: 0 <= k < |Gaps(s)| ==> Gaps(s)[k] != "" && AllSpace(Gaps(s)[k])
    ensures Interleave(SplitWs(s), Gaps(s)) == s
    decreases |s|, 0
  {
    var n := LeadingSpace(s);
    var t, w := s[n..], s[..n];
    LeadingSpaceSpec(s);
    SplitWsGaps(t);
    SplitWsSpaceHead(s);
    RunHead(s);
    InterleaveCons("", w, SplitWs(t), Gaps(t));
    assert "" + w + t == s;
    forall k | 0 < k < |Gaps(s)| ensures Gaps(s)[k] != "" && AllSpace(Gaps(s)[k]) {
      assert Gaps(s)[k] == Gaps(t)[k - 1];
    }
  }

  /** The first gap of a string that starts with whitespace is its leading run. */
  lemma RunHead(s: string)
    requires s != [] && IsSpace(s[0])
    ensures Gaps(s) == [s[..LeadingSpace(s)]] + Gaps(s[LeadingSpace(s)..])
    ensures s[..LeadingSpace(s)] != "" && AllSpace(s[..LeadingSpace(s)])
  {
    LeadingSpaceSpec(s);
    var w := s[..LeadingSpace(s)];
    assert forall i :: 0 <= i < |w| ==> w[i] == s[i];
  }

  /** `SplitWsGaps` for a string that starts with a character other than whitespace. */
  lemma {:induction false} GapsAfterChar(s: string)
    requires s != [] && !IsSpace(s[0])
    ensures |Gaps(s)| == |SplitWs(s)| - 1
    ensures forall k :: 0 <= k < |Gaps(s)| ==> Gaps(s)[k] != "" && AllSpace(Gaps(s)[k])
    ensures Interleave(SplitWs(s), Gaps(s)) == s
    decreases |s|, 0
  {
    var t := s[1..];
    SplitWsGaps(t);
    SplitWsCharHead(s);
    InterleaveHead(s[0], SplitWs(t), Gaps(t));
    assert [s[0]] + t == s;
  }

  /** Whitespace-free pieces joined by non-empty whitespace runs, where only the
      first and the last piece may be empty, split back into those pieces. */
  lemma {:induction false} SplitWsInterleave(parts: seq<string>, runs: seq<string>)
    requires |parts| == |runs| + 1
    requires forall k :: 0 <= k < |parts| ==> NoSpace(parts[k])
    requires forall k :: 0 < k < |parts| - 1 ==> parts[k] != ""
    requires forall k :: 0 <= k < |runs| ==> runs[k] != "" && AllSpace(runs[k])
    ensures SplitWs(Interleave(parts, runs)) == parts
    decreases |runs|
  {
    if runs == [] {
      SplitWsSpec(parts[0]);
      assert parts == [parts[0]];
    } else {
      var p', r' := parts[1..], runs[1..];
      forall k | 0 <= k < |p'| ensures NoSpace(p'[k]) && (0 < k < |p'| - 1 ==> p'[k] != "") {
        assert p'[k] == parts[k + 1];
      }
      forall k | 0 <= k < |r'| ensures r'[k] != "" && AllSpace(r'[k]) {
        assert r'[k] == runs[k + 1];
      }
      SplitWsInterleave(p', r');
      InterleaveStart(p', r');
      SplitWsCons(parts[0], runs[0], Interleave(p', r'));
      assert [parts[0]] + p' == parts;
    }
  }

  /** Pieces joined by runs start with the first piece's first character. */
  lemma InterleaveStart(parts: seq<string>, runs: seq<string>)
    requires |parts| == |runs| + 1 && NoSpace(parts[0]) && (parts[0] != "" || runs == [])
    ensures Interleave(parts, runs) == "" || !IsSpace(Interleave(parts, runs)[0])
  {
    if parts[0] != "" {
      assert Interleave(parts, runs)[0] == parts[0][0];
    }
  }

  /** In a trimmed non-empty string every piece is non-empty and free of whitespace. */
  lemma SplitWsTokens(s: string)
    requires IsTrimmed(s) && s != ""
    ensures forall k :: 0 <= k < |SplitWs(s)| ==> SplitWs(s)[k] != "" && NoSpace(SplitWs(s)[k])
  {
    SplitWsSpec(s);
  }

  /** Splitting the single-space join of whitespace-free, non-empty tokens gives
      the tokens back. */
  lemma {:induction false} SplitWsJoin(parts: seq<string>)
    requires parts != []
    requires forall k :: 0 <= k < |parts| ==> parts[k] != "" && NoSpace(parts[k])
    ensures SplitWs(Join(parts, " ")) == parts
    decreases |parts|
  {
    if |parts| > 1 {
      var tail := parts[1..];
      SplitWsJoin(tail);
      JoinHeadNonSpace(tail);
      JoinCons(parts[0], tail, " ");
      assert [parts[0]] + tail == parts;
      SplitWsCons(parts[0], " ", Join(tail, " "));
    } else {
      SplitWsSpec(parts[0]);
    }
  }

  /** A token, a whitespace run and a rest that does not start with whitespace
      split into the token and the pieces of the rest. */
  lemma SplitWsCons(a: string, w: string, rest: string)
    requires NoSpace(a) && w != "" && AllSpace(w)
    requires rest == "" || !IsSpace(rest[0])
    ensures SplitWs(a + w + rest) == [a] + SplitWs(rest)
  {
    var b := w + rest;
    LeadingRun(w, rest);
    assert b[0] == w[0] && b[|w|..] == rest;
    SplitWsSpaceHead(b);
    SplitWsPrefix(a, b);
    assert a + w + rest == a + b;
    assert a + "" == a;
  }

  /** A whitespace-free prefix joins the first piece of what follows it. */
  lemma {:induction false} SplitWsPrefix(a: string, b: string)
    requires NoSpace(a)
    ensures SplitWs(a + b) == [a + SplitWs(b)[0]] + SplitWs(b)[1..]
    decreases |a|
  {
    var r := SplitWs(b);
    if a == [] {
      assert a + b == b;
      assert a + r[0] == r[0];
      assert [r[0]] + r[1..] == r;
    } else {
      var a' := a[1..];
      SplitWsPrefix(a', b);
      var s := a + b;
      assert s[0] == a[0] && s[1..] == a' + b;
      PrefixStep(s, a, a' + r[0], r);
    }
  }

  /** The step of `SplitWsPrefix`: one more character in front of the prefix. */
  lemma PrefixStep(s: string, a: string, x: string, r: seq<string>)
    requires s != [] && !IsSpace(s[0]) && a != [] && s[0] == a[0]
    requires |r| >= 1 && x == a[1..] + r[0]
    requires SplitWs(s[1..]) == [x] + r[1..]
    ensures SplitWs(s) == [a + r[0]] + r[1..]
  {
    SplitWsCharHead(s);
    assert ([x] + r[1..])[0] == x && ([x] + r[1..])[1..] == r[1..];
    assert [s[0]] + x == a + r[0];
  }

  /** One step of the split at a character other than whitespace. */
  lemma SplitWsCharHead(s: string)
    requires s != [] && !IsSpace(s[0])
    ensures SplitWs(s) == [[s[0]] + SplitWs(s[1..])[0]] + SplitWs(s[1..])[1..]
  {
  }

  /** One step of the split at a whitespace run. */
  lemma SplitWsSpaceHead(s: string)
    requires s != [] && IsSpace(s[0])
    ensures SplitWs(s) == [""] + SplitWs(s[LeadingSpace(s)..])
  {
  }

  /** The single-space join of non-empty whitespace-free tokens starts with a
      character that is not whitespace. */
  lemma JoinHeadNonSpace(parts: seq<string>)
    requires parts != []
    requires forall k :: 0 <= k < |parts| ==> parts[k] != "" && NoSpace(parts[k])
    ensures Join(parts, " ") != "" && !IsSpace(Join(parts, " ")[0])
  {
    if |parts| > 1 {
      assert Join(parts, " ") == parts[0] + " " + Join(parts[1..], " ");
    }
    assert Join(parts, " ")[0] == parts[0][0];
  }

  /** Whatever the arguments, a call runs either the empty program name with no
      arguments (when nothing is left after the clean-up) or a non-empty program
      name; every name and argument is non-empty and free of whitespace. */
  lemma InstantiateShape(template: string, m: seq<Param>, args: map<string, Value>)
    ensures Cleaned(Substituted(template, m, args)) == "" ==> Instantiate(template, m, args) == ("", [])
    ensures Cleaned(Substituted(template, m, args)) != "" ==>
              Instantiate(template, m, args).0 != "" && NoSpace(Instantiate(template, m, args).0)
              && forall k :: 0 <= k < |Instantiate(template, m, args).1| ==>
                   Instantiate(template, m, args).1[k] != "" && NoSpace(Instantiate(template, m, args).1[k])
  {
    var c := Cleaned(Substituted(template, m, args));
    CleanedSpec(Substituted(template, m, args));
    if c == "" {
      EmptyCommand(c);
    } else {
      SplitWsTokens(c);
      var parts := SplitWs(c);
      assert forall k :: 0 <= k < |parts[1..]| ==> parts[1..][k] == parts[k + 1];
    }
  }
}
