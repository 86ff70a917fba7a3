/** Extraction of the command template from a definition's prompt:
    `prompt.match(/Example execution: (.+)/)`, the check on the capture, and
    the trim. */
module Template {
  import opened Options
  import opened Text

  const MARKER := "Example execution: "

  /** `/Example execution: (.+)/` matches `s` at `p`: the marker, then at least
      one character that `.` accepts (anything but a line terminator). */
  predicate MarkerAt(s: string, p: int) {
    OccursAt(s, MARKER, p) && p + |MARKER| < |s| && !IsLineTerminator(s[p + |MARKER|])
  }

  /** `p` is the leftmost match position. */
  predicate FirstMarkerAt(s: string, p: int) {
    MarkerAt(s, p) && forall j :: 0 <= j < p ==> !MarkerAt(s, j)
  }

  /** The leftmost match position at or after `from`. */
  function FindMarker(s: string, from: nat): (r: Option<nat>)
    ensures r.Some? ==> from <= r.value && MarkerAt(s, r.value)
                        && forall j :: from <= j < r.value ==> !MarkerAt(s, j)
    ensures r.None? ==> forall j :: from <= j ==> !MarkerAt(s, j)
    decreases |s| - from
  {
    if from >= |s| then None
    else if MarkerAt(s, from) then Some(from)
    else FindMarker(s, from + 1)
  }

  /** What the greedy `(.+)` captures from index `k`: the rest of that line. */
  function LineFrom(s: string, k: nat): (r: string)
    requires k <= |s|
    ensures k + |r| <= |s| && r == s[k..k + |r|]
    ensures forall i :: 0 <= i < |r| ==> !IsLineTerminator(r[i])
    ensures k + |r| == |s| || IsLineTerminator(s[k + |r|])
    decreases |s| - k
  {
    if k == |s| || IsLineTerminator(s[k]) then "" else [s[k]] + LineFrom(s, k + 1)
  }

  /** The `(.+)` capture of `prompt.match(...)`, or `None` when there is no match. */
  function Capture(prompt: string): (r: Option<string>)
    ensures r.None? <==> forall p :: !MarkerAt(prompt, p)
    ensures r.Some? ==> exists p :: FirstMarkerAt(prompt, p)
                                    && r.value == LineFrom(prompt, p + |MARKER|)
  {
    match FindMarker(prompt, 0)
    case None => None
    case Some(p) =>
      assert FirstMarkerAt(prompt, p);
      Some(LineFrom(prompt, p + |MARKER|))
  }

  /** The command template, or `None` when the definition is skipped
      (`if (!execMatch || !execMatch[1]) continue;`). The emptiness test looks
      at the capture before it is trimmed. */
  function ExtractTemplate(prompt: string): Option<string> {
    match Capture(prompt)
    case None => None
    case Some(c) => if c == "" then None else Some(Trim(c))
  }

  // ---------------------------------------------------------------------------

  /** There is at most one leftmost match position. */
  lemma FirstMarkerUnique(s: string, p: int, p': int)
    requires FirstMarkerAt(s, p) && FirstMarkerAt(s, p')
    ensures p == p'
  {
  }

  /** `.+` takes at least one character, so a capture is never empty. */
  lemma CaptureNonEmpty(prompt: string)
    requires Capture(prompt).Some?
    ensures Capture(prompt).value != ""
  {
  }

  /** A capture is never empty, so a definition is skipped exactly when its
      prompt has no match; otherwise the template is the trimmed rest of the
      line after the leftmost marker that is followed by a character on the
      same line. */
  lemma ExtractTemplateSpec(prompt: string)
    ensures ExtractTemplate(prompt).None? <==> forall p :: !MarkerAt(prompt, p)
    ensures forall p :: FirstMarkerAt(prompt, p) ==>
              ExtractTemplate(prompt) == Some(Trim(LineFrom(prompt, p + |MARKER|)))
  {
    if Capture(prompt).Some? {
      CaptureNonEmpty(prompt);
      var c := Capture(prompt).value;
      assert ExtractTemplate(prompt) == Some(Trim(c));
      var p :| FirstMarkerAt(prompt, p) && c == LineFrom(prompt, p + |MARKER|);
      forall p' | FirstMarkerAt(prompt, p') ensures c == LineFrom(prompt, p' + |MARKER|) {
        FirstMarkerUnique(prompt, p, p');
      }
    }
  }

  /** A remainder of only whitespace passes the emptiness test and registers a
      tool whose template is empty. */
  lemma BlankRemainderRegisters(prompt: string, p: nat)
    requires FirstMarkerAt(prompt, p) && AllSpace(LineFrom(prompt, p + |MARKER|))
    ensures ExtractTemplate(prompt) == Some("")
  {
    ExtractTemplateSpec(prompt);
    TrimEmptyIff(LineFrom(prompt, p + |MARKER|));
  }

  /** The template is one line of the prompt, so it holds no line terminator. */
  lemma TemplateIsOneLine(prompt: string)
    requires ExtractTemplate(prompt).Some?
    ensures forall i :: 0 <= i < |ExtractTemplate(prompt).value| ==>
              !IsLineTerminator(ExtractTemplate(prompt).value[i])
  {
    CaptureNonEmpty(prompt);
    var c := Capture(prompt).value;
    assert ExtractTemplate(prompt).value == Trim(c);
    TrimKeepsNoLineTerminator(c);
  }

  lemma TrimKeepsNoLineTerminator(c: string)
    requires forall i :: 0 <= i < |c| ==> !IsLineTerminator(c[i])
    ensures forall i :: 0 <= i < |Trim(c)| ==> !IsLineTerminator(Trim(c)[i])
  {
    var t := Trim(c);
    TrimSpec(c);
    var i := LeadingSpace(c);
    forall k | 0 <= k < |t| ensures !IsLineTerminator(t[k]) {
      assert t[k] == c[i + k];
    }
  }

  /** A marker directly followed by a newline is passed over for a later one. */
  lemma MarkerBeforeNewlineSkipped(s: string)
    requires s == MARKER + "\n" + MARKER + "adb devices"
    ensures ExtractTemplate(s) == Some("adb devices")
  {
    SecondMarkerIsFirstMatch(s);
    var line := SecondLine(s);
    LineAtFirstMarker(s, |MARKER| + 1, line);
  }

  /** The rest of the line after a leftmost match, when it has no whitespace at
      either end, is the template as it stands. */
  lemma LineAtFirstMarker(s: string, p: nat, line: string)
    requires FirstMarkerAt(s, p) && LineFrom(s, p + |MARKER|) == line
    requires IsTrimmed(line)
    ensures ExtractTemplate(s) == Some(line)
  {
    ExtractTemplateSpec(s);
    TrimOfTrimmed(line);
  }

  lemma SecondLine(s: string) returns (line: string)
    requires s == MARKER + "\n" + MARKER + "adb devices"
    ensures LineFrom(s, 2 * |MARKER| + 1) == line && line == "adb devices" && IsTrimmed(line)
  {
    var k := 2 * |MARKER| + 1;
    assert s[k..] == "adb devices";
    LineFromToEnd(s, k);
    line := "adb devices";
  }

  lemma SecondMarkerIsFirstMatch(s: string)
    requires s == MARKER + "\n" + MARKER + "adb devices"
    ensures FirstMarkerAt(s, |MARKER| + 1)
  {
    var p := |MARKER| + 1;
    assert MarkerAt(s, p) by { assert s[p..p + |MARKER|] == MARKER; }
    assert s[|MARKER|] == '\n';
    assert forall k :: 0 <= k < |MARKER| ==> MARKER[k] != '\n';
    forall j | 0 <= j < p ensures !MarkerAt(s, j) {
      if 0 < j && j + |MARKER| < |s| {
        assert s[j..j + |MARKER|][|MARKER| - j] == s[|MARKER|];
      }
    }
  }

  /** On a last line the capture runs to the end of the prompt. */
  lemma LineFromToEnd(s: string, k: nat)
    requires k <= |s| && forall i :: k <= i < |s| ==> !IsLineTerminator(s[i])
    ensures LineFrom(s, k) == s[k..]
  {
  }
}
