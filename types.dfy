/** The value and record types shared by the flow engine, its executors and its callers. */
module Types {

  datatype Option<+T> = None | Some(value: T)

  datatype Result<+T, +E> = Ok(value: T) | Err(error: E)

  type NodeId = string

  /** IO signature of a node input or output (`IO`). */
  datatype IO =
    | VoidIO
    | BooleanIO
    | NumberIO
    | StringIO
    | ArrayIO(elements: IO)
    | InheritIO

  /** A resolved value travelling on an edge (`ResolvedIO`); JavaScript numbers are modelled as integers. */
  datatype IOValue =
    | VoidValue
    | BooleanValue(b: bool)
    | NumberValue(n: int)
    | StringValue(s: string)
    | ArrayValue(elements: IO, items: seq<IOValue>)
    | InheritValue

  /** The input array handed to an executor: a JavaScript array that may have holes (`None`). */
  type Inputs = seq<Option<IOValue>>

  datatype OptionChoice = OptionChoice(title: string, value: string, selected: bool)

  /** A configuration field of a node (`NodeConfigField`); `value` is absent when undefined. */
  datatype ConfigField =
    | StringField(field: string, value: Option<string>)
    | PathField(field: string, value: Option<string>)
    | OptionsField(field: string, options: seq<OptionChoice>)

  datatype NodeConfig = NodeConfig(fields: seq<ConfigField>)

  /** A node instance placed in a flow (`SerializedSGNode`). */
  datatype SerializedNode = SerializedNode(
    id: NodeId,
    nodeType: string,
    name: string,
    config: NodeConfig,
    parentId: Option<NodeId>)

  /** An edge (`SGEdge`); the string handles are the decimal indices the engine parses. */
  datatype Edge = Edge(id: string, source: NodeId, sourceHandle: nat, target: NodeId, targetHandle: nat)

  datatype LogLevel = Info | Warn | Error

  datatype StreamedLog = StreamedLog(nodeId: NodeId, level: LogLevel, msg: string)

  /** What an execution streams to its consumer: node statuses and executor logs, in order. */
  datatype Event =
    | Status(success: bool, nodeId: NodeId)
    | Log(log: StreamedLog)

  /** What one executor invocation does: the logs it streams, then its outputs or its rejection. */
  datatype Execution = Execution(logs: seq<StreamedLog>, outputs: Result<seq<IOValue>, string>)

  /** An executor (`ExecutorFn`): inputs, the node's configuration and the node itself. */
  type Executor = (Inputs, NodeConfig, SerializedNode) -> Execution

  /** A node type as registered by a plugin (`SGNode`). */
  datatype NodeDefinition = NodeDefinition(
    nodeType: string,
    name: string,
    inputs: seq<IO>,
    outputs: seq<IO>,
    config: NodeConfig,
    execute: Executor)

  function LogEvents(logs: seq<StreamedLog>): (r: seq<Event>)
    ensures |r| == |logs|
    ensures forall i | 0 <= i < |logs| :: r[i] == Log(logs[i])
  {
    if logs == [] then [] else [Log(logs[0])] + LogEvents(logs[1..])
  }
}
