/**
 * The built-in `Sleep` node: its executor reads the `duration` string field, takes a value ending
 * in `ms` as milliseconds and any other value ending in `s` as seconds, and rejects everything
 * else. The timer itself is not modelled; the model yields the delay handed to it.
 */
module SleepNode {
  import opened Types
  import opened JsText
  import opened NodeConfigs

  const DurationRequired: string := "Duration required"
  const DurationNotSupported: string := "Duration not supported"

  /** What reading `.value` of the `undefined` that `find` returns throws. */
  const NoDurationField: string := "Cannot read properties of undefined (reading 'value')"

  /** A delay in milliseconds for the timer (`None` is `NaN`) and the unit the log names. */
  datatype Delay = Delay(ms: Option<int>, unit: string)

  /** The suffix rule: `ms` first, then `s`; the delay is `parseInt` of the whole value, times 1000 for seconds. */
  function ParseDuration(value: string): (r: Result<Delay, string>)
    ensures r.Err? <==> !EndsWith(value, "s")
    ensures r.Err? ==> r.error == DurationNotSupported
    ensures r.Ok? && EndsWith(value, "ms") ==> r.value == Delay(ParseInt(value), "milliseconds")
    ensures r.Ok? && !EndsWith(value, "ms") ==>
      r.value == Delay(match ParseInt(value) case None => None case Some(n) => Some(n * 1000), "seconds")
  {
    if EndsWith(value, "ms") then
      EndsWithMsEndsWithS(value);
      Ok(Delay(ParseInt(value), "milliseconds"))
    else if EndsWith(value, "s") then
      Ok(Delay(match ParseInt(value) case None => None case Some(n) => Some(n * 1000), "seconds"))
    else Err(DurationNotSupported)
  }

  /** The `Sleep` executor; the node's id labels its logs. */
  function Execute(inputs: Inputs, config: NodeConfig, node: SerializedNode): (r: Execution)
    ensures r.outputs.Ok? <==>
      && FindField(config.fields, "duration", StringKind).Some?
      && FieldValue(config.fields, "duration", StringKind).Some?
      && EndsWith(FieldValue(config.fields, "duration", StringKind).value, "s")
    ensures r.outputs.Ok? ==> r.outputs.value == [VoidValue] && |r.logs| == 2
    ensures r.outputs.Ok? ==> r.logs[1] == StreamedLog(node.id, Info, "Done sleeping.")
    ensures r.outputs.Err? ==> r.logs == []
    ensures FindField(config.fields, "duration", StringKind).None? ==> r.outputs == Err(NoDurationField)
    ensures FindField(config.fields, "duration", StringKind).Some? && FieldValue(config.fields, "duration", StringKind).None? ==>
      r.outputs == Err(DurationRequired)
  {
    match FindField(config.fields, "duration", StringKind)
    case None => Execution([], Err(NoDurationField))
    case Some(_) =>
      match FieldValue(config.fields, "duration", StringKind)
      case None => Execution([], Err(DurationRequired))
      case Some(value) =>
        match ParseDuration(value)
        case Err(msg) => Execution([], Err(msg))
        case Ok(d) =>
          Execution([StreamedLog(node.id, Info, "Sleeping for " + NumberText(d.ms) + " " + d.unit),
                     StreamedLog(node.id, Info, "Done sleeping.")], Ok([VoidValue]))
  }

  /** The node definition the blueprint service registers first among the built-ins after `Trigger` and `CopyResources`. */
  function Definition(): (d: NodeDefinition)
    ensures d.nodeType == "sleep" && d.inputs == [VoidIO] && d.outputs == [VoidIO]
  {
    NodeDefinition("sleep", "Sleep", [VoidIO], [VoidIO], NodeConfig([StringField("duration", None)]), Execute)
  }

  /** `<n>ms` waits `n` milliseconds: the `ms` branch is tested before the `s` branch. */
  lemma MillisecondsSuffix(n: int)
    ensures ParseDuration(NumberText(Some(n)) + "ms") == Ok(Delay(Some(n), "milliseconds"))
  {
    var v := NumberText(Some(n)) + "ms";
    assert v[|v| - 2..] == "ms";
    ParseIntReadsNumberText(n, "ms");
  }

  /** `<n>s` waits `n * 1000` milliseconds. */
  lemma SecondsSuffix(n: int)
    ensures ParseDuration(NumberText(Some(n)) + "s") == Ok(Delay(Some(n * 1000), "seconds"))
  {
    var v := NumberText(Some(n)) + "s";
    assert v[|v| - 1..] == "s";
    assert !EndsWith(v, "ms") by {
      var t := NumberText(Some(n));
      NumberTextEndsWithDigit(n);
      assert v[|v| - 2] == t[|t| - 1];
    }
    ParseIntReadsNumberText(n, "s");
  }

  /**
   * The seconds branch logs the millisecond count in front of the word `seconds`: with `SecondsSuffix`,
   * `2s` logs `Sleeping for 2000 seconds`.
   */
  lemma SecondsLogShowsMilliseconds(config: NodeConfig, node: SerializedNode, ms: Option<int>)
    requires FindField(config.fields, "duration", StringKind).Some?
    requires FieldValue(config.fields, "duration", StringKind).Some?
    requires ParseDuration(FieldValue(config.fields, "duration", StringKind).value) == Ok(Delay(ms, "seconds"))
    ensures Execute([], config, node).logs[0].msg == "Sleeping for " + NumberText(ms) + " seconds"
  {
    AcceptedLogs([], config, node, FieldValue(config.fields, "duration", StringKind).value, Delay(ms, "seconds"));
    SecondsWord("Sleeping for " + NumberText(ms));
  }

  /** An accepted duration logs the delay and its unit, then `Done sleeping.`. */
  lemma AcceptedLogs(inputs: Inputs, config: NodeConfig, node: SerializedNode, value: string, d: Delay)
    requires FindField(config.fields, "duration", StringKind).Some?
    requires FieldValue(config.fields, "duration", StringKind) == Some(value)
    requires ParseDuration(value) == Ok(d)
    ensures Execute(inputs, config, node).logs ==
      [StreamedLog(node.id, Info, "Sleeping for " + NumberText(d.ms) + " " + d.unit), StreamedLog(node.id, Info, "Done sleeping.")]
  {
  }

  lemma SecondsWord(prefix: string)
    ensures prefix + " " + "seconds" == prefix + " seconds"
  {
    assert " " + "seconds" == " seconds";
  }
}
