# Dynamic tool synthesis of the adb-control MCP server, in Dafny

The adb-control MCP server exposes Android Debug Bridge commands as tools. Besides a
few fixed tools, it reads every `.toml` command definition in its `commands/android`
directory and turns the definition's free-text prompt into a tool:

- the line after `Example execution: ` becomes a command template;
- every `<...>` placeholder in the prompt becomes a parameter, under a clean name;
- each parameter is typed as a number or a string by a keyword test;
- a call substitutes its arguments into the template, deletes leftover placeholders,
  trims, and splits on whitespace into a program name and an argument list, which
  are run without a shell.

This project models that pipeline, the argument builders of two fixed tools
(`getDeviceArgs` and `adb_logcat`), and the choice of result text after a command ran.
All of it is in `extensions/adb-control-gemini/mcp-server/src/index.ts`.

Modules, one per stage:

- `Text`: the JavaScript string operations used. These are `trim` with the ECMAScript
  whitespace set, `indexOf`, `replace` with a string pattern, `split`/`join` with a
  string separator, and `String(n)` for integers.
- `Placeholders`: the regular expression `/<([^>]+)>/g`. It covers the `exec` scan
  (with `lastIndex`) and `replace(..., '')`.
- `Template`: `prompt.match(/Example execution: (.+)/)`, the skip test and the trim.
- `Params`: canonicalisation of placeholder names, and the `while` loop that fills the
  insertion-ordered `Map`. The map is a `seq<Param>`: `set` on an existing key keeps
  the key's position, and a new key is appended.
- `Schema`: the numeric-keyword test, descriptions, and the `forEach` loop that fills
  the shape.
- `Command`: the substitution `forEach`, the strip/trim, and `split(/\s+/)`.
- `Tools`: `getDeviceArgs`, the logcat argument list, the result text of
  `executeCommandAsTool`, and the loading loop over definition files.
- `Scenarios`: concrete calls worked through the model.

Two behaviours of the code a reader might not expect:

- A remainder that is only whitespace after `Example execution: ` passes the emptiness
  test, which looks at the capture before it is trimmed. The definition is registered
  with an empty template (`Template.BlankRemainderRegisters`).
- A call whose command is empty after clean-up is not rejected. It yields program `""`
  with no arguments, and that is handed on for execution (`Scenarios.OnlyPlaceholder`,
  `Command.InstantiateShape`).

Other behaviour the model keeps as written:

- The keyword list contains `ms`, so any name containing `ms` is numeric
  (`Schema.ItemsIsNumeric`).
- Only the first `param name` in a placeholder is removed.
- When several placeholders share a clean name, the map keeps the position of the
  first and the original text of the last (`Params.BuildOrder`,
  `Params.BuildLastOriginal`). A placeholder written with an earlier original is then
  not substituted, and the clean-up deletes it (`Scenarios.SharedCleanName`).

## Model

| member | source | states |
|---|---|---|
| Text.IsSpace | extensions/adb-control-gemini/mcp-server/src/index.ts:232 | the character set of `\s` and of `trim` (ECMAScript WhiteSpace and LineTerminator), used at lines 209, 229 and 232; the properties that use it are in `Text.TrimSpec`, `Params.CanonicalShape`, `Command.SplitWsSpec` and `Command.SplitWsGaps` |
| Text.IsLineTerminator | extensions/adb-control-gemini/mcp-server/src/index.ts:198 | the characters that `.` does not match in `/Example execution: (.+)/`; properties in `Template.TemplateIsOneLine` and `Template.MarkerBeforeNewlineSkipped` |
| Text.Trim | extensions/adb-control-gemini/mcp-server/src/index.ts:202 | `String.prototype.trim`, also used at lines 209 and 229; properties in `Text.TrimSpec`, `Text.TrimIdempotent` and `Text.TrimEmptyIff` |
| Text.TrimSpec | extensions/adb-control-gemini/mcp-server/src/index.ts:202 | `trim` gives a string with no whitespace at either end; it is the slice of the input that starts after the leading whitespace; everything cut on either side is whitespace |
| Text.TrimIdempotent | extensions/adb-control-gemini/mcp-server/src/index.ts:202 | trimming twice is trimming once |
| Text.TrimEmptyIff | extensions/adb-control-gemini/mcp-server/src/index.ts:202 | trimming gives `""` exactly when the string is all whitespace |
| Text.IndexOf | extensions/adb-control-gemini/mcp-server/src/index.ts:216 | the leftmost-occurrence search behind `includes` (line 216) and the string-pattern `replace` (line 209); properties in `Text.IndexOfSpec` and `Text.Includes` |
| Text.IndexOfSpec | extensions/adb-control-gemini/mcp-server/src/index.ts:209 | `indexOf` returns the leftmost occurrence; it finds nothing exactly when the pattern does not occur |
| Text.ReplaceFirst | extensions/adb-control-gemini/mcp-server/src/index.ts:209 | `replace('param name', '')` with a string pattern; properties in `Text.ReplaceFirstSpec` |
| Text.ReplaceFirstSpec | extensions/adb-control-gemini/mcp-server/src/index.ts:209 | `replace` with a string pattern changes nothing when the pattern is absent; otherwise it replaces exactly the leftmost occurrence |
| Text.Includes | extensions/adb-control-gemini/mcp-server/src/index.ts:216 | `includes` is true exactly when the pattern occurs somewhere |
| Text.SplitOn | extensions/adb-control-gemini/mcp-server/src/index.ts:225 | `split` with a string separator always yields at least one piece |
| Text.Join | extensions/adb-control-gemini/mcp-server/src/index.ts:225 | `join` of the pieces with a string between each pair; properties in `Text.JoinSplitOn` and `Text.ReplaceAllOnce` |
| Text.ReplaceAll | extensions/adb-control-gemini/mcp-server/src/index.ts:225 | `split(sep).join(rep)` with a string separator; properties in `Text.ReplaceAllAbsent`, `Text.ReplaceAllSelf`, `Text.ReplaceAllOnce` and `Command.SubstStepSpec` |
| Text.JoinSplitOn | extensions/adb-control-gemini/mcp-server/src/index.ts:225 | joining the pieces of a split with the same separator gives back the string |
| Text.SplitOnPiecesFree | extensions/adb-control-gemini/mcp-server/src/index.ts:225 | no piece of a split contains the separator |
| Text.ReplaceAllAbsent | extensions/adb-control-gemini/mcp-server/src/index.ts:225 | `split(sep).join(rep)` leaves a string without `sep` unchanged |
| Text.ReplaceAllSelf | extensions/adb-control-gemini/mcp-server/src/index.ts:225 | `split(sep).join(sep)` is the identity |
| Text.ReplaceAllOnce | extensions/adb-control-gemini/mcp-server/src/index.ts:225 | when the leftmost occurrence of the separator is the one right after a prefix and the text after it has none, `split(sep).join(v)` replaces exactly that occurrence by the value and keeps the text around it |
| Text.NoOccurrenceInPrefix | extensions/adb-control-gemini/mcp-server/src/index.ts:225 | a separator cannot start inside a prefix that lacks its first character |
| Text.NatDigits | extensions/adb-control-gemini/mcp-server/src/index.ts:225 | the decimal numeral of a natural number is a non-empty digit string; a leading `0` occurs only in the numeral `0` of 0 |
| Text.NatDigitsValue | extensions/adb-control-gemini/mcp-server/src/index.ts:225 | reading the decimal numeral back gives the number |
| Text.IntToString | extensions/adb-control-gemini/mcp-server/src/index.ts:174 | `String(n)` of an integer is non-empty; it has no whitespace, `<` or `>`; it denotes `n` (a sign and the numeral of `-n` when negative); it has no leading zero, either at its start or after the sign, except for `0` itself |
| Placeholders.SpanAt | extensions/adb-control-gemini/mcp-server/src/index.ts:204 | a match of `/<([^>]+)>/` at a position, the pattern also used at line 229; properties in `Placeholders.SpanUnique`, `Placeholders.NextMatch` and `Placeholders.StripFromNoSpan` |
| Placeholders.SpanUnique | extensions/adb-control-gemini/mcp-server/src/index.ts:204 | a `<...>` match is determined by its start: it closes at the first `>` |
| Placeholders.CloseFrom | extensions/adb-control-gemini/mcp-server/src/index.ts:204 | finds the first `>` at or after a position, or reports that there is none |
| Placeholders.MatchEnd | extensions/adb-control-gemini/mcp-server/src/index.ts:204 | a match starts at `p` exactly when this returns its closing index |
| Placeholders.NextMatch | extensions/adb-control-gemini/mcp-server/src/index.ts:207 | one `exec` from `lastIndex` returns the leftmost match at or after it, or `null` when there is none |
| Placeholders.TokensFrom | extensions/adb-control-gemini/mcp-server/src/index.ts:207-208 | every capture of `([^>]+)` is non-empty and free of `>` |
| Placeholders.Tokens | extensions/adb-control-gemini/mcp-server/src/index.ts:207-208 | the captures of all `exec` calls on the prompt, from `lastIndex` 0 until `null`; properties in `Placeholders.TokensFrom`, `Params.NextCapture` and `Params.CollectParams` |
| Placeholders.StripFrom | extensions/adb-control-gemini/mcp-server/src/index.ts:229 | `replace(/<[^>]+>/g, '')` from a scan position: the text before each leftmost span kept, the span deleted, the scan resumed after its `>`; properties in `Placeholders.StripFromNoSpan` |
| Placeholders.Strip | extensions/adb-control-gemini/mcp-server/src/index.ts:229 | the whole-string deletion; properties in `Placeholders.StripIdempotent`, `Placeholders.StripTrimStable`, `Placeholders.StripOneSpan` |
| Placeholders.StripFromNoSpan | extensions/adb-control-gemini/mcp-server/src/index.ts:229 | after `replace(/<[^>]+>/g, '')` no `<x>` span is left, even where deletion brings a `<` and a `>` together |
| Placeholders.StripIdempotent | extensions/adb-control-gemini/mcp-server/src/index.ts:229 | stripping leaves no span, so stripping again changes nothing |
| Placeholders.StripTrimStable | extensions/adb-control-gemini/mcp-server/src/index.ts:229 | the trimmed result of stripping has no span and is left unchanged by a further strip |
| Placeholders.StripOneSpan | extensions/adb-control-gemini/mcp-server/src/index.ts:229 | a single span between text without `<` is deleted and the text around it is kept |
| Placeholders.StripCons | extensions/adb-control-gemini/mcp-server/src/index.ts:229 | a span after text without `<` is deleted, the text before it is kept, and the text after it is stripped in turn: by induction every span is deleted and everything between the spans is kept, in order |
| Placeholders.StripFromShift | extensions/adb-control-gemini/mcp-server/src/index.ts:229 | the deletion from a position inside a suffix does not depend on the text before the suffix |
| Placeholders.NextMatchShift | extensions/adb-control-gemini/mcp-server/src/index.ts:229 | the next match in a suffix is the next match in the whole text, moved by the length of what comes before |
| Placeholders.NoSpanWithoutLessThan | extensions/adb-control-gemini/mcp-server/src/index.ts:229 | a string without `<` has no span |
| Template.MarkerAt | extensions/adb-control-gemini/mcp-server/src/index.ts:198 | a match of `/Example execution: (.+)/` at a position: the marker followed by a character that `.` accepts; properties in `Template.FindMarker`, `Template.ExtractTemplateSpec` and `Template.MarkerBeforeNewlineSkipped` |
| Template.FindMarker | extensions/adb-control-gemini/mcp-server/src/index.ts:198 | finds the leftmost position where the marker is followed by a character other than a line terminator |
| Template.LineFrom | extensions/adb-control-gemini/mcp-server/src/index.ts:198 | the greedy `(.+)` takes the rest of the line: a slice with no line terminator that ends at one or at the end of the text |
| Template.Capture | extensions/adb-control-gemini/mcp-server/src/index.ts:198 | `match` fails exactly when no marker position matches; otherwise the capture is the rest of the line after the leftmost matching marker |
| Template.ExtractTemplate | extensions/adb-control-gemini/mcp-server/src/index.ts:198-202 | the template or the skip; properties in `Template.ExtractTemplateSpec`, `Template.BlankRemainderRegisters`, `Template.TemplateIsOneLine` |
| Template.ExtractTemplateSpec | extensions/adb-control-gemini/mcp-server/src/index.ts:198-202 | a definition is skipped exactly when the prompt has no match; otherwise the template is the trimmed rest of the line after the leftmost match |
| Template.BlankRemainderRegisters | extensions/adb-control-gemini/mcp-server/src/index.ts:200-202 | a whitespace-only remainder is not skipped and gives the empty template |
| Template.TemplateIsOneLine | extensions/adb-control-gemini/mcp-server/src/index.ts:198-202 | the template contains no line terminator |
| Template.TrimKeepsNoLineTerminator | extensions/adb-control-gemini/mcp-server/src/index.ts:202 | trimming a string without line terminators keeps it without them |
| Template.MarkerBeforeNewlineSkipped | extensions/adb-control-gemini/mcp-server/src/index.ts:198 | example: in `MARKER + "\n" + MARKER + "adb devices"` the first marker, followed directly by a newline, is passed over and the template is `adb devices` |
| Template.LineAtFirstMarker | extensions/adb-control-gemini/mcp-server/src/index.ts:198-202 | a rest of the line after the leftmost match that has no whitespace at either end is the template as it stands |
| Params.MapChars | extensions/adb-control-gemini/mcp-server/src/index.ts:209 | a global one-character replacement maps every character in place and keeps the length |
| Params.Underscored | extensions/adb-control-gemini/mcp-server/src/index.ts:209 | `.replace(/\s/g, '_').replace(/:/g, '_')`; properties in `Params.UnderscoredShape`, `Params.UnderscoredUnchanged` and `Params.CanonicalShape` |
| Params.UnderscoredShape | extensions/adb-control-gemini/mcp-server/src/index.ts:209 | after the two global replacements the text has no whitespace and no `:` |
| Params.UnderscoredUnchanged | extensions/adb-control-gemini/mcp-server/src/index.ts:209 | text without whitespace or `:` is left as it is by the two replacements |
| Params.Canonicalize | extensions/adb-control-gemini/mcp-server/src/index.ts:209 | `original.replace('param name', '').trim().replace(/\s/g, '_').replace(/:/g, '_')`; properties in `Params.CanonicalShape`, `Params.CanonicalIdempotent`, `Params.CanonicalizeExample` |
| Params.CanonicalShape | extensions/adb-control-gemini/mcp-server/src/index.ts:209 | a clean name contains no whitespace and no colon |
| Params.CanonicalIdempotent | extensions/adb-control-gemini/mcp-server/src/index.ts:209 | canonicalising a clean name gives it back |
| Params.CanonicalizeExample | extensions/adb-control-gemini/mcp-server/src/index.ts:209 | only the first `param name` is removed: `param name: param name` becomes `__param_name` |
| Params.KeyIndex | extensions/adb-control-gemini/mcp-server/src/index.ts:210 | finds the position of a key in the map, or reports that the key is absent |
| Params.MapSet | extensions/adb-control-gemini/mcp-server/src/index.ts:210 | `Map.set` replaces the value of an existing key in its position and appends a new key |
| Params.Captures | extensions/adb-control-gemini/mcp-server/src/index.ts:207-209 | each capture of the scan paired with its clean name, as the loop computes them before the `if (clean)` test; properties in `Params.NextCapture`, `Params.CollectParams`, `Params.BuildKeys` and `Params.BuildLastOriginal` |
| Params.Insert | extensions/adb-control-gemini/mcp-server/src/index.ts:210 | the loop body `if (clean) paramMap.set(clean, { original, clean })`; properties in `Params.BuildWellFormed`, `Params.BuildKeys` |
| Params.Build | extensions/adb-control-gemini/mcp-server/src/index.ts:203-211 | the map after inserting a run of captures in order; properties in `Params.BuildWellFormed`, `Params.BuildKeys`, `Params.BuildLastOriginal`, `Params.BuildOrder` |
| Params.ParamMap | extensions/adb-control-gemini/mcp-server/src/index.ts:203-211 | the map of all captures of the whole prompt; the loop computes it (`Params.CollectParams`), and `Params.ParamMapWellFormed` states its shape |
| Params.NextCapture | extensions/adb-control-gemini/mcp-server/src/index.ts:207-208 | one `exec` from `lastIndex` either ends the scan, when no capture is left, or returns the next capture and a `lastIndex` that has moved forward past its `>` |
| Params.BuildFromSpec | extensions/adb-control-gemini/mcp-server/src/index.ts:207-211 | continuing the insertions with the captures still to come gives the map of everything inserted so far followed by those captures |
| Params.CollectParams | extensions/adb-control-gemini/mcp-server/src/index.ts:203-211 | the `exec` loop builds exactly the map of all captures of the whole prompt, inserted in order, with empty clean names dropped |
| Params.ParamMapWellFormed | extensions/adb-control-gemini/mcp-server/src/index.ts:203-211 | the map's keys are distinct and non-empty, and each entry's key is the clean name of its original |
| Params.BuildWellFormed | extensions/adb-control-gemini/mcp-server/src/index.ts:210 | the map has distinct non-empty keys and holds only inserted entries |
| Params.BuildKeys | extensions/adb-control-gemini/mcp-server/src/index.ts:207-211 | a name is a key exactly when it is the non-empty clean name of some capture |
| Params.BuildLastOriginal | extensions/adb-control-gemini/mcp-server/src/index.ts:210 | each entry is the last capture with its clean name |
| Params.FirstNamed | extensions/adb-control-gemini/mcp-server/src/index.ts:210 | finds the first capture with a given clean name |
| Params.BuildOrder | extensions/adb-control-gemini/mcp-server/src/index.ts:210 | entries are ordered by the first occurrence of their clean name |
| Schema.NUMBER_KEYWORDS | extensions/adb-control-gemini/mcp-server/src/index.ts:214 | the twelve keywords, in the source's order; properties in `Schema.IsNumber` and `Schema.ItemsIsNumeric` |
| Schema.AnyKeyword | extensions/adb-control-gemini/mcp-server/src/index.ts:214-216 | `some(k => clean.includes(k) \|\| original.includes(k))` holds exactly when some keyword is a case-sensitive substring of the clean name or of the original |
| Schema.IsNumber | extensions/adb-control-gemini/mcp-server/src/index.ts:214-216 | `isNumber` for one entry with the fixed keyword list; properties in `Schema.AnyKeyword`, `Schema.ItemsIsNumeric` |
| Schema.FieldFor | extensions/adb-control-gemini/mcp-server/src/index.ts:216-217 | the `z.number()` or `z.string()` field with its description for one entry; properties in `Schema.Describe`, `Schema.ShapeOfSpec` |
| Schema.ShapeOf | extensions/adb-control-gemini/mcp-server/src/index.ts:215-218 | the shape after the `forEach` has visited the entries; properties in `Schema.ShapeOfSpec`, `Schema.BuildShape`, `Schema.ShapeOfParamMap` |
| Schema.Describe | extensions/adb-control-gemini/mcp-server/src/index.ts:217 | the description has the original's length, has no `_`, has a space for every `_` and keeps every other character |
| Schema.ShapeOfSpec | extensions/adb-control-gemini/mcp-server/src/index.ts:215-218 | the shape has a field exactly for each key of the map, built from the entry with that key |
| Schema.BuildShape | extensions/adb-control-gemini/mcp-server/src/index.ts:215-218 | the `forEach` loop builds exactly that shape |
| Schema.ShapeOfParamMap | extensions/adb-control-gemini/mcp-server/src/index.ts:213-218 | for a prompt's map, every entry has its own field and the fields are exactly the keys |
| Schema.ItemsIsNumeric | extensions/adb-control-gemini/mcp-server/src/index.ts:214-216 | `<items>` is typed numeric, because `ms` occurs in it |
| Command.ValueString | extensions/adb-control-gemini/mcp-server/src/index.ts:225 | `String(value)` for a string or an integer; properties in `Text.IntToString` |
| Command.Placeholder | extensions/adb-control-gemini/mcp-server/src/index.ts:225 | the split separator `<original>` is never empty |
| Command.SubstStep | extensions/adb-control-gemini/mcp-server/src/index.ts:223-226 | one substitution step, applied only when the clean name is a key of the arguments; properties in `Command.SubstStepSpec`, `Command.SubstStepAbsent`, `Command.AbsentEntryIgnored` |
| Command.Substituted | extensions/adb-control-gemini/mcp-server/src/index.ts:221-227 | the command after the substitution `forEach` has visited the entries in map order; the loop computes it (`Command.Substitute`), with properties in `Command.SubstitutedAppend`, `Command.NoArgumentsNoChange`, `Command.ExtraArgumentIgnored` |
| Command.Substitute | extensions/adb-control-gemini/mcp-server/src/index.ts:221-227 | the `forEach` loop computes the substitution of the entries in map order |
| Command.SubstitutedAppend | extensions/adb-control-gemini/mcp-server/src/index.ts:222-227 | substituting along two runs of entries is substituting along the first, then the second |
| Command.AbsentEntryIgnored | extensions/adb-control-gemini/mcp-server/src/index.ts:223 | an entry whose clean name is not an argument leaves the command unchanged |
| Command.NoArgumentsNoChange | extensions/adb-control-gemini/mcp-server/src/index.ts:221-227 | with no clean name among the arguments the command is the template |
| Command.ExtraArgumentIgnored | extensions/adb-control-gemini/mcp-server/src/index.ts:222-224 | an argument whose key is not a clean name of the map has no effect |
| Command.SubstStepSpec | extensions/adb-control-gemini/mcp-server/src/index.ts:225 | a substitution that applies replaces every occurrence of `<original>`; the pieces between occurrences are kept and contain no occurrence |
| Command.SubstStepAbsent | extensions/adb-control-gemini/mcp-server/src/index.ts:225 | a substitution whose placeholder does not occur changes nothing |
| Command.SplitWs | extensions/adb-control-gemini/mcp-server/src/index.ts:232 | `split(/\s+/)` yields at least one piece, so the destructuring always binds `cmd` |
| Command.SplitWsSpec | extensions/adb-control-gemini/mcp-server/src/index.ts:232 | no piece of `split(/\s+/)` contains whitespace; only the first and last pieces can be empty, and they are exactly when the string starts or ends with whitespace; there is one piece exactly when the string has no whitespace, and then it is the string; what the pieces contain is stated by `Command.SplitWsGaps` |
| Command.SplitWsCons | extensions/adb-control-gemini/mcp-server/src/index.ts:232 | a whitespace-free word followed by a whitespace run and then by text that does not start with whitespace splits into that word followed by the pieces of that text |
| Command.Gaps | extensions/adb-control-gemini/mcp-server/src/index.ts:232 | the whitespace runs that `split(/\s+/)` cuts out, in order; properties in `Command.SplitWsGaps` |
| Command.Interleave | extensions/adb-control-gemini/mcp-server/src/index.ts:232 | pieces with runs between them; properties in `Command.SplitWsGaps`, `Command.SplitWsInterleave` |
| Command.SplitWsGaps | extensions/adb-control-gemini/mcp-server/src/index.ts:232 | nothing but whitespace is lost by `split(/\s+/)`: the string is its pieces with its non-empty whitespace runs between them, so with `Command.SplitWsSpec` the pieces are exactly the stretches between the runs, in order |
| Command.SplitWsInterleave | extensions/adb-control-gemini/mcp-server/src/index.ts:232 | conversely, whitespace-free pieces (only the first and last may be empty) joined by any non-empty whitespace runs split back into exactly those pieces |
| Command.Cleaned | extensions/adb-control-gemini/mcp-server/src/index.ts:229 | `replace(/<[^>]+>/g, '').trim()`; properties in `Command.CleanedSpec` |
| Command.Invocation | extensions/adb-control-gemini/mcp-server/src/index.ts:232 | `const [cmd, ...cmdArgs] = s.split(/\s+/)`; properties in `Command.EmptyCommand`, `Command.SplitWsTokens`, `Command.SplitWsGaps` |
| Command.Instantiate | extensions/adb-control-gemini/mcp-server/src/index.ts:220-233 | the invocation a call produces; the handler computes it (`Command.Handle`), and `Command.InstantiateShape` states its shape |
| Command.Handle | extensions/adb-control-gemini/mcp-server/src/index.ts:220-233 | the handler computes the invocation of the model: substitution, strip, trim, split |
| Command.CleanedSpec | extensions/adb-control-gemini/mcp-server/src/index.ts:229 | after the clean-up no span is left and the ends are not whitespace; a second clean-up changes nothing |
| Command.EmptyCommand | extensions/adb-control-gemini/mcp-server/src/index.ts:232 | an empty command gives program `""` and no arguments |
| Command.SplitWsTokens | extensions/adb-control-gemini/mcp-server/src/index.ts:232 | a trimmed non-empty string splits into non-empty, whitespace-free pieces |
| Command.SplitWsJoin | extensions/adb-control-gemini/mcp-server/src/index.ts:232 | splitting the single-space join of non-empty, whitespace-free tokens gives the tokens back |
| Command.InstantiateShape | extensions/adb-control-gemini/mcp-server/src/index.ts:229-233 | every call runs either `""` with no arguments (nothing left after clean-up) or a non-empty program; each name and argument is non-empty and whitespace-free |
| Tools.Given | extensions/adb-control-gemini/mcp-server/src/index.ts:131 | JavaScript truthiness of an optional string (present and non-empty), also tested at lines 175, 196 and 197; properties in `Tools.DeviceArgs`, `Tools.LogcatArgs` and `Tools.DefineToolSpec` |
| Tools.DeviceArgs | extensions/adb-control-gemini/mcp-server/src/index.ts:130-132 | gives `['-s', d]` exactly when the device `d` is a non-empty string, and `[]` otherwise |
| Tools.LogcatArgs | extensions/adb-control-gemini/mcp-server/src/index.ts:170-177 | the device arguments, then `logcat -d -t <lines>` with `lines` defaulting to 50, then the filter exactly when it is non-empty |
| Tools.ReplyOf | extensions/adb-control-gemini/mcp-server/src/index.ts:41-58 | on error, a `CommandExecutionError` report whose message is stderr, or the error message when stderr is empty; on success, stdout, else stderr, else the fixed success text, so never empty |
| Tools.IsTomlFile | extensions/adb-control-gemini/mcp-server/src/index.ts:189 | `path.extname(file) === '.toml'`; properties in `Tools.OtherFilesIgnored`, `Tools.DefineToolSpec` |
| Tools.ToolName | extensions/adb-control-gemini/mcp-server/src/index.ts:195 | the tool name is the file name without `.toml`, and it is non-empty |
| Tools.DescriptionOf | extensions/adb-control-gemini/mcp-server/src/index.ts:196 | `parsedToml.description || \`Tool for ${toolName}\``; properties in `Tools.DefineToolSpec` |
| Tools.PromptOf | extensions/adb-control-gemini/mcp-server/src/index.ts:197 | `parsedToml.prompt || ''`; properties in `Tools.DefineToolSpec` |
| Tools.DefineTool | extensions/adb-control-gemini/mcp-server/src/index.ts:189-218 | the tool one definition file yields, or the skip; properties in `Tools.DefineToolSpec` |
| Tools.Registered | extensions/adb-control-gemini/mcp-server/src/index.ts:188-235 | the tools of all files, in directory order; the loop computes it (`Tools.RegisterTools`), with properties in `Tools.RegisteredAppend`, `Tools.RegisteredFromFiles`, `Tools.OtherFilesIgnored` |
| Tools.RegisterTools | extensions/adb-control-gemini/mcp-server/src/index.ts:188-235 | the loading loop registers the tools of the definitions, in directory order |
| Tools.DefineToolSpec | extensions/adb-control-gemini/mcp-server/src/index.ts:189-218 | a definition yields a tool exactly when it is a `.toml` file whose prompt matches the marker; the tool has the file's name, the given description or `Tool for <name>`, the template, the whole prompt's map, and one field per key |
| Tools.RegisteredAppend | extensions/adb-control-gemini/mcp-server/src/index.ts:188 | loading `a + b` registers the tools of `a`, then those of `b` |
| Tools.RegisteredFromFiles | extensions/adb-control-gemini/mcp-server/src/index.ts:188-235 | every registered tool is the tool of one of the files, and there are no more tools than files |
| Tools.OtherFilesIgnored | extensions/adb-control-gemini/mcp-server/src/index.ts:189 | a file that is not a `.toml` file contributes no tool |
| Tools.Call | extensions/adb-control-gemini/mcp-server/src/index.ts:220-233 | the invocation a call of a registered tool makes; properties in `Tools.CallSpec` |
| Tools.CallSpec | extensions/adb-control-gemini/mcp-server/src/index.ts:220-233 | a call of a tool defined from a file runs the invocation of that prompt's template under that prompt's map: the program name is empty only with no arguments, and every argument is non-empty and free of whitespace |
| Scenarios.SingleSubstitution | extensions/adb-control-gemini/mcp-server/src/index.ts:222-226 | a template whose leftmost occurrence of `<original>` comes right after a prefix, with none after it, called with a value for the entry, has exactly that occurrence replaced by the value |
| Scenarios.SubstitutedAt | extensions/adb-control-gemini/mcp-server/src/index.ts:222-226 | the same for a template split at its one placeholder with no `<` before it |
| Scenarios.CleanedOneSpan | extensions/adb-control-gemini/mcp-server/src/index.ts:229 | a command with one span between texts without `<`, whose remaining text has no whitespace at its ends, is cleaned to that text |
| Scenarios.BrightnessCall | extensions/adb-control-gemini/mcp-server/src/index.ts:221-233 | `settings put system screen_brightness <value>` with `{value: 120}` runs `settings` with `put system screen_brightness 120` |
| Scenarios.UnsetPlaceholderDeleted | extensions/adb-control-gemini/mcp-server/src/index.ts:221-232 | `cmd <a> <b>` with `{a: 'x'}` runs `cmd` with `x`: the unset placeholder is deleted |
| Scenarios.SpanInValueDeleted | extensions/adb-control-gemini/mcp-server/src/index.ts:225-232 | `echo <msg>` with `{msg: '<b>hi'}` runs `echo` with `hi`: a span inside a substituted value is deleted as well |
| Scenarios.OnlyPlaceholder | extensions/adb-control-gemini/mcp-server/src/index.ts:229-233 | `<only>` called without arguments runs the empty program name with no arguments |
| Scenarios.WhitespaceRuns | extensions/adb-control-gemini/mcp-server/src/index.ts:232 | `cmd\tx  y` runs `cmd` with `x` and `y`: a tab or a double space, as a deleted placeholder between two values leaves, separates arguments like one space |
| Scenarios.SharedCleanName | extensions/adb-control-gemini/mcp-server/src/index.ts:207-232 | the captures `a b` and `a_b` share the clean name `a_b`, so the map has one entry with original `a_b`; `cmd <a b> <a_b>` called with `{a_b: 'x'}` fills `<a_b>`, the clean-up deletes `<a b>`, and the call runs `cmd` with `x` |
| Scenarios.BuildSameKey | extensions/adb-control-gemini/mcp-server/src/index.ts:210 | two captures with the same non-empty clean name leave one entry, which holds the original of the second |

## Left out

- MCP server, stdio transport and tool registration with the SDK: protocol plumbing over an external library. A registered tool is the `Tools.Tool` value and its handler is `Command.Handle`.
- Process execution through `execFile`, and the error log line: I/O. The model takes the error message, stdout and stderr as inputs (`Tools.ReplyOf`).
- Tools.ReplyOf: returns the `{ error, message }` pair, not its `JSON.stringify` text.
- Filesystem access and TOML parsing: I/O and a foreign parser. The loader takes a sequence of (file name, optional `description` string, optional `prompt` string), in directory order. A missing directory behaves as an empty sequence.
- Non-string TOML values for `description` or `prompt`: only absent, empty and non-empty strings are modelled.
- The outer `try`/`catch` (lines 184 and 237): an exception ends the loading there, and tools registered before it stay registered. In the source, a file that cannot be read ends the loading: `readFileSync` at line 192 throws, for instance on a directory named `x.toml`. So does a file whose tool name is already registered: `server.tool` at line 220 throws for a name taken by a fixed tool, such as `adb_devices.toml`. So do malformed TOML and a non-string prompt. The model assumes none of these happens, so `Tools.Registered`, `Tools.RegisterTools` and `Tools.RegisteredAppend` register every later file as well.
- Schema validation of call arguments by the SDK and `zod`: arguments reach the handler as a map from names to values.
- `clean in args` also sees inherited properties of a JavaScript object. The model treats the arguments as a map of their own keys.
- Tools.IsTomlFile: matches `path.extname` only for plain file names, since directory entries contain no `/`.
- Command.ValueString: numbers are integers with |n| < 10^21 that a double holds exactly, which `String` prints as plain decimal digits. From 10^21 on, `String` switches to exponent form (`1e+21`), while `Text.IntToString` keeps printing digits. Above 2^53 not every integer is a JavaScript number. Fractional and non-finite numbers are not modelled.
- Tools.LogcatArgs: `lines` is an integer, printed by `Text.IntToString`, so the range admitted for Command.ValueString applies.
- Text.IsSpace: characters are Unicode scalar values, while JavaScript strings are UTF-16 code units. Lone surrogates and the code-unit meaning of `.` are not modelled.
- Schema.ShapeOf: a clean name `__proto__` makes `shape[clean] = ...` set the prototype of the plain object at line 217 instead of adding a field, so that parameter is missing from the schema. In the model the shape is a map and the field is present.
- Schema.ShapeOf: the shape is a map. The order of its keys as a JavaScript object, where integer-like keys come first, is not modelled.
- The other fixed tools (`get_screen`, the batch tool, `adb_devices`, `inspect_ui`): a Base64 encoding through `Buffer`, fixed argument lists, and a temp file name from `Date.now()`. These are I/O, a foreign call and the clock.
- The `EXTENSION_PATH` check with `process.exit`, and `path.join` for script paths: environment plumbing.
