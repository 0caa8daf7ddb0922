// The JSON API's requests: how a request text is parsed into its fields,
// and how the dispatcher defaults the arguments of two commands.

module Api {
  import opened Wrappers
  import opened Sums
  import opened ApiJson
  import opened ApiCommands
  import opened Rag
  import opened CycleDetector
  import opened Recovery

  // ---------------------------------------------------------------------
  // Requests

  const MaxRequestSize := 65536
  const CommandBufferSize := 64
  const NameBufferSize := 32

  datatype Request = Request(
    rawJson: string,
    command: Command,
    processId: int,
    resourceId: int,
    name: string,
    priority: int,
    instances: int,
    scenario: int,
    strategy: int,
    criteria: int,
    numProcesses: int,
    numResources: int,
    seed: int,
    maxTicks: int,
    autoDetect: bool,
    autoRecover: bool)

  function IntOrZero(json: string, key: string): int
  {
    match IntField(json, key) case Some(v) => v case None => 0
  }

  /** The zeroed request holding the raw text, cut to its buffer. */
  function Blank(json: string): (r: Request)
  {
    Request(json[..if |json| < MaxRequestSize - 1 then |json| else MaxRequestSize - 1],
            UnknownCmd, 0, 0, "", 0, 0, 0, 0, 0, 0, 0, 0, 0, false, false)
  }

  /** api_parse_request: the zeroed request, the raw text, then the command
      name (failing, with the unknown command, when it is absent) and every
      optional field, each left zero or false when absent or unreadable. */
  method ParseRequest(json: string) returns (ok: bool, req: Request)
    ensures ok == StringField(json, "command", CommandBufferSize).Some?
    ensures !ok ==> req == Blank(json)
    ensures ok ==> req.rawJson == Blank(json).rawJson
    ensures ok ==> req.command == CommandFrom(StringField(json, "command", CommandBufferSize).value, 0)
    ensures ok ==> req.processId == IntOrZero(json, "process_id")
    ensures ok ==> req.resourceId == IntOrZero(json, "resource_id")
    ensures ok ==> req.priority == IntOrZero(json, "priority")
    ensures ok ==> req.instances == IntOrZero(json, "instances")
    ensures ok ==> req.scenario == IntOrZero(json, "scenario")
    ensures ok ==> req.strategy == IntOrZero(json, "strategy")
    ensures ok ==> req.criteria == IntOrZero(json, "criteria")
    ensures ok ==> req.numProcesses == IntOrZero(json, "num_processes")
    ensures ok ==> req.numResources == IntOrZero(json, "num_resources")
    ensures ok ==> req.seed == IntOrZero(json, "seed")
    ensures ok ==> req.maxTicks == IntOrZero(json, "max_ticks")
    ensures ok ==> req.name == (match StringField(json, "name", NameBufferSize)
                                case Some(v) => v case None => "")
    ensures ok ==> req.autoDetect == (BoolField(json, "auto_detect") == Some(true))
    ensures ok ==> req.autoRecover == (BoolField(json, "auto_recover") == Some(true))
  {
    req := Blank(json);
    var found, cmdStr := ExtractString(json, "command", CommandBufferSize, "");
    if !found {
      return false, req;
    }
    var cmd := GetCommand(cmdStr);
    req := req.(command := cmd);
    var v, b, name;
    found, v := ExtractInt(json, "process_id", 0);
    req := req.(processId := v);
    found, v := ExtractInt(json, "resource_id", 0);
    req := req.(resourceId := v);
    found, name := ExtractString(json, "name", NameBufferSize, "");
    req := req.(name := name);
    found, v := ExtractInt(json, "priority", 0);
    req := req.(priority := v);
    found, v := ExtractInt(json, "instances", 0);
    req := req.(instances := v);
    found, v := ExtractInt(json, "scenario", 0);
    req := req.(scenario := v);
    found, v := ExtractInt(json, "strategy", 0);
    req := req.(strategy := v);
    found, v := ExtractInt(json, "criteria", 0);
    req := req.(criteria := v);
    found, v := ExtractInt(json, "num_processes", 0);
    req := req.(numProcesses := v);
    found, v := ExtractInt(json, "num_resources", 0);
    req := req.(numResources := v);
    found, v := ExtractInt(json, "seed", 0);
    req := req.(seed := v);
    found, v := ExtractInt(json, "max_ticks", 0);
    req := req.(maxTicks := v);
    found, b := ExtractBool(json, "auto_detect", false);
    req := req.(autoDetect := b);
    found, b := ExtractBool(json, "auto_recover", false);
    req := req.(autoRecover := b);
    ok := true;
  }

  /** A request naming only a table command is parsed to that command. */
  lemma CommandRequestParses(k: nat)
    requires k < |TableCommands|
    ensures var json := Opening("command") + Quoted(CommandNames[k]) + "}";
      StringField(json, "command", CommandBufferSize) == Some(CommandNames[k]) &&
      CommandFrom(CommandNames[k], 0) == TableCommands[k]
  {
    var name := CommandNames[k];
    NamesPlain();
    EscapePlain(name);
    StringFieldRoundTrip("command", name, "}", CommandBufferSize);
    CutWhole(name, CommandBufferSize - 1);
    LookupsFindEntry(k, 0);
  }

  /** A string without quotes or backslashes is written as it is. */
  lemma {:induction false} EscapePlain(v: string)
    requires forall j :: 0 <= j < |v| ==> v[j] != '"' && v[j] != '\\'
    ensures Escape(v) == v
  {
    if |v| > 0 {
      EscapePlain(v[1..]);
      assert v == [v[0]] + v[1..];
    }
  }

  lemma {:induction false} CutWhole(v: string, room: nat)
    requires |v| <= room
    ensures Cut(v, room) == v
  {
    if |v| > 0 {
      CutWhole(v[1..], room - 1);
      assert v == [v[0]] + v[1..];
    }
  }

  // ---------------------------------------------------------------------
  // Argument defaulting in the dispatcher

  /** add_resource's instance count: the request's when positive, else 1. */
  function ResourceInstances(req: Request): (n: int)
    ensures n >= 1
    ensures req.instances > 0 ==> n == req.instances
  {
    if req.instances > 0 then req.instances else 1
  }

  /** The add_resource command: the graph gains a resource with the
      defaulted count in its first free slot, so it fails only when every
      slot is taken. */
  method ExecuteAddResource(graph: Graph, req: Request) returns (ok: bool, status: int, rid: int)
    requires graph.Valid()
    modifies graph
    ensures graph.Valid()
    ensures rid == FirstIndex(old(graph.resources), ResourceInactive, 0)
    ensures ok == (rid >= 0) && status == (if ok then StatusSuccess else StatusOperationFailed)
    ensures graph.State() == if ok then AddResourceAt(old(graph.State()), rid, ResourceInstances(req))
                             else old(graph.State())
  {
    rid := graph.AddResource(ResourceInstances(req));
    ok := rid >= 0;
    status := if ok then StatusSuccess else StatusOperationFailed;
  }

  /** The three answers of the recover command. */
  datatype RecoverReply = NoDeadlockToRecover | RecoverySuccessful | RecoveryAttempted

  /** The recover command: detection first; without a deadlock it answers
      success and leaves the graph alone; otherwise it runs recovery with the
      default configuration carrying the request's strategy and criteria,
      and still answers success either way. */
  method ExecuteRecover(graph: Graph, req: Request)
    returns (ok: bool, status: int, reply: RecoverReply, ghost detection: DeadlockResult)
    requires graph.Valid()
    modifies graph
    ensures graph.Valid()
    ensures ok && status == StatusSuccess
    ensures reply == NoDeadlockToRecover <==> !HasCycle(old(graph.State()))
    ensures !HasCycle(old(graph.State())) ==> graph.State() == old(graph.State())
    ensures DetectionOf(old(graph.State()), detection)
    ensures HasCycle(old(graph.State())) ==>
      Listed(detection.deadlockedProcesses) &&
      RecoveryOutcome(old(graph.State()), detection,
                      DefaultConfig().(strategy := req.strategy, selection := CriteriaOf(req.criteria)),
                      reply == RecoverySuccessful, graph.State())
  {
    var detected, found := DetectDeadlock(graph.State());
    detection := found;
    if !detected {
      return true, StatusSuccess, NoDeadlockToRecover, detection;
    }
    var config := DefaultConfig().(strategy := req.strategy, selection := CriteriaOf(req.criteria));
    DetectionListed(found);
    var recovered, result := RecoverFromDeadlock(graph, found, config);
    reply := if recovered then RecoverySuccessful else RecoveryAttempted;
    ok, status := true, StatusSuccess;
  }
}
