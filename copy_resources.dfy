/**
 * The built-in `CopyResources` node: its executor reads the `from` and `to` path fields and the
 * `flags` options field, builds the argument list of `cp`, runs it and decides by the exit code.
 * The child process is a parameter: it maps the argument list to what the process streams and the
 * code it exits with.
 */
module CopyResourcesNode {
  import opened Types
  import opened JsText
  import opened NodeConfigs

  const PathsRequired: string := "From and to paths are required"

  /** One thing the child process reports before it closes. */
  datatype ProcessOutput = Stdout(text: string) | Stderr(text: string) | SpawnError(message: string)

  /** What `spawn('cp', args)` does up to its `close` event; `code` is absent when it is `null`. */
  datatype ProcessRun = ProcessRun(output: seq<ProcessOutput>, code: Option<int>)

  type Spawn = seq<string> -> ProcessRun

  /** Some `options` field named `flags` has its `recursive` option selected. */
  predicate Recursive(config: NodeConfig) {
    exists i | 0 <= i < |config.fields| ::
      && config.fields[i].OptionsField? && config.fields[i].field == "flags"
      && exists j | 0 <= j < |config.fields[i].options| ::
        config.fields[i].options[j].value == "recursive" && config.fields[i].options[j].selected
  }

  /** The arguments of `cp`: `-a` when recursive, then `<from>/.` and `<to>/.`. */
  function Arguments(config: NodeConfig, from: string, to: string): (args: seq<string>)
    ensures |args| == 2 || |args| == 3
    ensures |args| == 3 <==> Recursive(config)
    ensures |args| == 3 ==> args[0] == "-a"
    ensures args[|args| - 2..] == [from + "/.", to + "/."]
  {
    (if Recursive(config) then ["-a"] else []) + [from + "/.", to + "/."]
  }

  /** `config.fields.some(field => field.type === 'options' && field.field === 'flags' && field.options.some(...))`. */
  method HasRecursiveFlag(config: NodeConfig) returns (found: bool)
    ensures found <==> Recursive(config)
  {
    found := false;
    var i := 0;
    while i < |config.fields| && !found
      invariant 0 <= i <= |config.fields|
      invariant found <==> Recursive(NodeConfig(config.fields[..i]))
      invariant found ==> Recursive(config)
    {
      var f := config.fields[i];
      if f.OptionsField? && f.field == "flags" {
        var j := 0;
        while j < |f.options| && !found
          invariant 0 <= j <= |f.options|
          invariant found <==> exists k | 0 <= k < j :: f.options[k].value == "recursive" && f.options[k].selected
        {
          found := f.options[j].value == "recursive" && f.options[j].selected;
          j := j + 1;
        }
      }
      assert config.fields[..i + 1][i] == f;
      assert forall k | 0 <= k < i :: config.fields[..i + 1][k] == config.fields[..i][k];
      i := i + 1;
    }
    assert !found ==> config.fields[..i] == config.fields;
  }

  /** The `args.push` sequence of the executor. */
  method BuildArguments(config: NodeConfig, from: string, to: string) returns (args: seq<string>)
    ensures args == Arguments(config, from, to)
  {
    args := [];
    var recursive := HasRecursiveFlag(config);
    if recursive {
      args := args + ["-a"];
    }
    args := args + [from + "/."];
    args := args + [to + "/."];
  }

  /** `String(code)` as the close handler logs it. */
  function CodeText(code: Option<int>): string {
    match code
    case None => "null"
    case Some(c) => NumberText(Some(c))
  }

  function OutputLog(id: NodeId, o: ProcessOutput): StreamedLog {
    match o
    case Stdout(text) => StreamedLog(id, Info, text)
    case Stderr(text) => StreamedLog(id, Error, text)
    case SpawnError(message) => StreamedLog(id, Error, message)
  }

  function OutputLogs(id: NodeId, os: seq<ProcessOutput>): (r: seq<StreamedLog>)
    ensures |r| == |os| && forall i | 0 <= i < |os| :: r[i] == OutputLog(id, os[i])
  {
    if os == [] then [] else [OutputLog(id, os[0])] + OutputLogs(id, os[1..])
  }

  /** `!from?.value || !to?.value`: a path field is missing, has no value, or is empty. */
  predicate MissingPath(config: NodeConfig) {
    var from := FieldValue(config.fields, "from", PathKind);
    var to := FieldValue(config.fields, "to", PathKind);
    from.None? || from.value == "" || to.None? || to.value == ""
  }

  /** The exit code rule of the close handler: `0` and `null` resolve, every other code rejects. */
  predicate Succeeded(code: Option<int>) {
    code == Some(0) || code.None?
  }

  /**
   * The `CopyResources` executor. A missing or empty path rejects before anything runs; otherwise
   * the copy is announced, the process output is logged, the exit is logged, and a failing exit
   * logs `Could not copy` and rejects with `undefined` (the empty message here).
   */
  function Execute(spawn: Spawn, inputs: Inputs, config: NodeConfig, node: SerializedNode): (r: Execution)
    ensures MissingPath(config) <==> r == Execution([], Err(PathsRequired))
    ensures !MissingPath(config) ==>
      var from := FieldValue(config.fields, "from", PathKind).value;
      var to := FieldValue(config.fields, "to", PathKind).value;
      var run := spawn(Arguments(config, from, to));
      && (r.outputs.Ok? <==> Succeeded(run.code))
      && (r.outputs.Ok? ==> r.outputs.value == [VoidValue])
      && |r.logs| == |run.output| + (if Succeeded(run.code) then 2 else 3)
      && r.logs[0] == StreamedLog(node.id, Info, "Copying " + from + " to " + to)
      && r.logs[1..1 + |run.output|] == OutputLogs(node.id, run.output)
      && r.logs[1 + |run.output|] == StreamedLog(node.id, Info, "Process exited with code " + CodeText(run.code))
      && (!Succeeded(run.code) ==>
            r.logs[2 + |run.output|] == StreamedLog(node.id, Error, "Could not copy " + from + " to " + to))
  {
    if MissingPath(config) then
      Execution([], Err(PathsRequired))
    else
      var from := FieldValue(config.fields, "from", PathKind);
      var to := FieldValue(config.fields, "to", PathKind);
      var run := spawn(Arguments(config, from.value, to.value));
      var logs := [StreamedLog(node.id, Info, "Copying " + from.value + " to " + to.value)]
        + OutputLogs(node.id, run.output)
        + [StreamedLog(node.id, Info, "Process exited with code " + CodeText(run.code))];
      assert logs[1..1 + |run.output|] == OutputLogs(node.id, run.output);
      if Succeeded(run.code) then Execution(logs, Ok([VoidValue]))
      else Execution(logs + [StreamedLog(node.id, Error, "Could not copy " + from.value + " to " + to.value)], Err(""))
  }

  function Definition(spawn: Spawn): (d: NodeDefinition)
    ensures d.nodeType == "copy_resources" && d.inputs == [VoidIO] && d.outputs == [VoidIO]
  {
    NodeDefinition("copy_resources", "Copy resources", [VoidIO], [VoidIO],
      NodeConfig([PathField("from", None), PathField("to", None),
                  OptionsField("flags", [OptionChoice("Recursive", "recursive", false)])]),
      (i, c, n) => Execute(spawn, i, c, n))
  }
}
