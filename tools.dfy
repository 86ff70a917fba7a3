/** The fixed tools' argument builders, the result text of a command run, and
    the loader that turns command definition files into dynamic tools. */
module Tools {
  import opened Options
  import opened Text
  import opened Template
  import opened Params
  import opened Schema
  import opened Command

  // ---------------------------------------------------------------------------
  // Argument builders of the fixed tools

  /** An optional string argument is truthy: present and non-empty. */
  predicate Given(o: Option<string>) {
    o.Some? && o.value != ""
  }

  /** `getDeviceArgs(device)`: `-s <device>` for a device id, nothing otherwise. */
  function DeviceArgs(device: Option<string>): (r: seq<string>)
    ensures r != [] <==> Given(device)
    ensures Given(device) ==> r == ["-s", device.value]
  {
    if Given(device) then ["-s", device.value] else []
  }

  /** The default of the `lines` argument of `adb_logcat`. */
  const DEFAULT_LINES := 50

  /** The argument list of `adb_logcat`: the device arguments, a dump of the
      last `lines` lines, and the filter expression only when one is given. */
  method LogcatArgs(device: Option<string>, lines: Option<int>, filter: Option<string>) returns (args: seq<string>)
    ensures |DeviceArgs(device)| + 4 <= |args| <= |DeviceArgs(device)| + 5
    ensures args[..|DeviceArgs(device)|] == DeviceArgs(device)
    ensures args[|DeviceArgs(device)|..|DeviceArgs(device)| + 4]
            == ["logcat", "-d", "-t", IntToString(if lines.Some? then lines.value else DEFAULT_LINES)]
    ensures |args| == |DeviceArgs(device)| + 5 <==> Given(filter)
    ensures Given(filter) ==> args[|args| - 1] == filter.value
  {
    var n := if lines.Some? then lines.value else DEFAULT_LINES;
    args := DeviceArgs(device) + ["logcat", "-d", "-t", IntToString(n)];
    if Given(filter) {
      args := args + [filter.value];
    }
  }

  // ---------------------------------------------------------------------------
  // The result of running a command

  /** The text content a command run resolves with: the output, or the
      `{ error, message }` report of a failure (before JSON encoding). */
  datatype Reply = Output(text: string) | Failure(error: string, message: string)

  const SUCCESS_TEXT := "Command executed successfully."
  const ERROR_NAME := "CommandExecutionError"

  /** `executeCommandAsTool`'s choice of text from the error (its message, if
      the run failed), the standard output and the standard error. */
  function ReplyOf(error: Option<string>, stdout: string, stderr: string): (r: Reply)
    ensures r.Failure? <==> error.Some?
    ensures r.Failure? ==> r.error == ERROR_NAME
    ensures r.Failure? && stderr != "" ==> r.message == stderr
    ensures r.Failure? && stderr == "" ==> r.message == error.value
    ensures r.Output? ==> r.text != ""
    ensures r.Output? && stdout != "" ==> r.text == stdout
    ensures r.Output? && stdout == "" && stderr != "" ==> r.text == stderr
    ensures r.Output? && stdout == "" && stderr == "" ==> r.text == SUCCESS_TEXT
  {
    match error
    case Some(message) => Failure(ERROR_NAME, if stderr != "" then stderr else message)
    case None => Output(if stdout != "" then stdout else if stderr != "" then stderr else SUCCESS_TEXT)
  }

  // ---------------------------------------------------------------------------
  // Loading command definitions

  /** A command definition file: its name and the `description` and `prompt`
      strings of its TOML table, where present. */
  datatype Definition = Definition(fileName: string, description: Option<string>, prompt: Option<string>)

  /** A dynamic tool as registered with the server. */
  datatype Tool = Tool(name: string, description: string, template: string,
                       params: seq<Param>, shape: map<string, Field>)

  const EXTENSION := ".toml"

  /** `path.extname(file) === '.toml'` for a file name without a directory
      part: the name ends with `.toml` and something precedes it. */
  predicate IsTomlFile(name: string) {
    |name| > |EXTENSION| && name[|name| - |EXTENSION|..] == EXTENSION
  }

  /** `path.basename(file, '.toml')`. */
  function ToolName(file: string): (r: string)
    requires IsTomlFile(file)
    ensures r != "" && r + EXTENSION == file
  {
    file[..|file| - |EXTENSION|]
  }

  /** `parsedToml.description || \`Tool for ${toolName}\``. */
  function DescriptionOf(f: Definition): string
    requires IsTomlFile(f.fileName)
  {
    if Given(f.description) then f.description.value else "Tool for " + ToolName(f.fileName)
  }

  /** `parsedToml.prompt || ''`. */
  function PromptOf(f: Definition): string {
    if Given(f.prompt) then f.prompt.value else ""
  }

  /** The tool a definition yields, or `None` when the loop skips it. */
  function DefineTool(f: Definition): Option<Tool> {
    if !IsTomlFile(f.fileName) then None
    else
      var prompt := PromptOf(f);
      match ExtractTemplate(prompt)
      case None => None
      case Some(template) =>
        var m := ParamMap(prompt);
        Some(Tool(ToolName(f.fileName), DescriptionOf(f), template, m, ShapeOf(m)))
  }

  /** The values `f` yields on `xs`, in order, skipping those it does not. */
  function FilterMap<A, B>(f: A -> Option<B>, xs: seq<A>): seq<B>
    decreases |xs|
  {
    if xs == [] then []
    else
      var init := FilterMap(f, xs[..|xs| - 1]);
      match f(xs[|xs| - 1])
      case None => init
      case Some(y) => init + [y]
  }

  lemma {:induction false} FilterMapAppend<A, B>(f: A -> Option<B>, a: seq<A>, b: seq<A>)
    ensures FilterMap(f, a + b) == FilterMap(f, a) + FilterMap(f, b)
    decreases |b|
  {
    if b == [] {
      assert a + b == a;
    } else {
      var b', x := b[..|b| - 1], b[|b| - 1];
      FilterMapAppend(f, a, b');
      assert (a + b)[..|a + b| - 1] == a + b';
      assert (a + b)[|a + b| - 1] == x;
    }
  }

  lemma {:induction false} FilterMapFrom<A, B>(f: A -> Option<B>, xs: seq<A>)
    ensures |FilterMap(f, xs)| <= |xs|
    ensures forall y :: y in FilterMap(f, xs) ==> exists x :: x in xs && f(x) == Some(y)
    decreases |xs|
  {
    if xs != [] {
      var init := xs[..|xs| - 1];
      FilterMapFrom(f, init);
      forall x | x in init ensures x in xs { }
    }
  }

  /** The tools registered from `files`, in directory order. */
  function Registered(files: seq<Definition>): seq<Tool> {
    FilterMap(DefineTool, files)
  }

  /** The registration loop over the files of the commands directory. */
  method RegisterTools(files: seq<Definition>) returns (tools: seq<Tool>)
    ensures tools == Registered(files)
  {
    tools := [];
    for i := 0 to |files|
      invariant tools == Registered(files[..i])
    {
      assert files[..i + 1][..i] == files[..i];
      var f := files[i];
      assert files[..i + 1][i] == f;
      if !IsTomlFile(f.fileName) {
        continue;
      }
      var prompt := PromptOf(f);
      var template := ExtractTemplate(prompt);
      if template.None? {
        continue;
      }
      var m := CollectParams(prompt);
      var shape := BuildShape(m);
      tools := tools + [Tool(ToolName(f.fileName), DescriptionOf(f), template.value, m, shape)];
    }
    assert files[..|files|] == files;
  }

  /** `server.tool(toolName, ..., (args) => ...)`: the invocation a call of a
      registered tool makes. */
  function Call(tool: Tool, args: map<string, Value>): (string, seq<string>) {
    Instantiate(tool.template, tool.params, args)
  }

  /** A call of the tool a definition yields substitutes the arguments into
      the template of the file's prompt under the prompt's map, cleans the
      result, and runs its whitespace-separated pieces: the first as program
      name, the rest as arguments, with nothing but whitespace lost between
      them. The program name is empty exactly when nothing is left after the
      clean-up, and then there are no arguments; every argument is non-empty
      and free of whitespace. */
  lemma CallSpec(f: Definition, args: map<string, Value>)
    requires DefineTool(f).Some?
    ensures var c := Cleaned(Substituted(ExtractTemplate(PromptOf(f)).value, ParamMap(PromptOf(f)), args));
            var r := Call(DefineTool(f).value, args);
            [r.0] + r.1 == SplitWs(c) && |r.1| == |Gaps(c)| && Interleave([r.0] + r.1, Gaps(c)) == c
            && (r.0 == "" <==> c == "") && (c == "" ==> r.1 == [])
            && forall k :: 0 <= k < |r.1| ==> r.1[k] != "" && NoSpace(r.1[k])
  {
    var t := DefineTool(f).value;
    var c := Cleaned(Substituted(t.template, t.params, args));
    InstantiateShape(t.template, t.params, args);
    SplitWsGaps(c);
    var parts := SplitWs(c);
    assert [parts[0]] + parts[1..] == parts;
  }

  // ---------------------------------------------------------------------------
  // Properties of loading

  /** A definition yields a tool exactly when it is a `.toml` file whose prompt
      has a match of the marker; the tool is named after the file, falls back
      to the default description, and carries the template, the parameter map
      of the whole prompt and its schema. */
  lemma DefineToolSpec(f: Definition)
    ensures DefineTool(f).Some? <==> IsTomlFile(f.fileName) && exists p :: MarkerAt(PromptOf(f), p)
    ensures DefineTool(f).Some? ==>
              var t := DefineTool(f).value;
              t.name + EXTENSION == f.fileName
              && (Given(f.description) ==> t.description == f.description.value)
              && (!Given(f.description) ==> t.description == "Tool for " + t.name)
              && Some(t.template) == ExtractTemplate(PromptOf(f))
              && t.params == ParamMap(PromptOf(f))
              && (forall c :: c in t.shape <==> HasKey(t.params, c))
  {
    ExtractTemplateSpec(PromptOf(f));
    if DefineTool(f).Some? {
      ShapeOfParamMap(PromptOf(f));
    }
  }

  /** Loading the files of `a + b` registers the tools of `a`, then those of `b`. */
  lemma RegisteredAppend(a: seq<Definition>, b: seq<Definition>)
    ensures Registered(a + b) == Registered(a) + Registered(b)
  {
    FilterMapAppend(DefineTool, a, b);
  }

  /** Every registered tool is the tool of one of the files, and there are no
      more tools than files. */
  lemma RegisteredFromFiles(files: seq<Definition>)
    ensures |Registered(files)| <= |files|
    ensures forall t :: t in Registered(files) ==> exists f :: f in files && DefineTool(f) == Some(t)
  {
    FilterMapFrom(DefineTool, files);
  }

  /** A file that is not a `.toml` file contributes no tool. */
  lemma OtherFilesIgnored(a: seq<Definition>, f: Definition, b: seq<Definition>)
    requires !IsTomlFile(f.fileName)
    ensures Registered(a + [f] + b) == Registered(a + b)
  {
    RegisteredAppend(a + [f], b);
    RegisteredAppend(a, b);
    RegisteredAppend(a, [f]);
    assert [f][..0] == [];
    assert FilterMap(DefineTool, [f]) == [];
  }
}
