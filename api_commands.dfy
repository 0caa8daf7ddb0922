// The command table of the JSON API, which maps command names to commands
// and back, and the names of the reply statuses.

module ApiCommands {
  datatype Command =
    | RagInitCmd | RagResetCmd | RagGetStateCmd
    | AddProcessCmd | RemoveProcessCmd | ListProcessesCmd | GetProcessCmd
    | AddResourceCmd | RemoveResourceCmd | ListResourcesCmd | GetResourceCmd
    | RequestResourceCmd | CancelRequestCmd | AllocateResourceCmd | ReleaseResourceCmd | ReleaseAllCmd
    | DetectDeadlockCmd | DetectAllCyclesCmd | IsProcessDeadlockedCmd | GetWaitForGraphCmd
    | RecoverCmd | RecommendStrategyCmd | AnalyzeOptionsCmd
    | SimInitCmd | SimLoadScenarioCmd | SimStartCmd | SimPauseCmd | SimResumeCmd | SimStopCmd
    | SimTickCmd | SimRunCmd | SimGetStateCmd | SimGetEventsCmd
    | GetVersionCmd | GetHelpCmd | PingCmd | ShutdownCmd
    | UnknownCmd

  /** The name table in the order of the C table, held as its two columns:
      entry k pairs CommandNames[k] with TableCommands[k]. */
  const CommandNames: seq<string> := [
    "rag_init", "rag_reset", "rag_get_state", "add_process",
    "remove_process", "list_processes", "get_process", "add_resource",
    "remove_resource", "list_resources", "get_resource", "request_resource",
    "cancel_request", "allocate_resource", "release_resource", "release_all",
    "detect_deadlock", "detect_all_cycles", "is_process_deadlocked", "get_wait_for_graph",
    "recover", "recommend_strategy", "analyze_options", "sim_init",
    "sim_load_scenario", "sim_start", "sim_pause", "sim_resume",
    "sim_stop", "sim_tick", "sim_run", "sim_get_state",
    "sim_get_events", "get_version", "get_help", "ping",
    "shutdown"
  ]

  const TableCommands: seq<Command> := [
    RagInitCmd, RagResetCmd, RagGetStateCmd, AddProcessCmd,
    RemoveProcessCmd, ListProcessesCmd, GetProcessCmd, AddResourceCmd,
    RemoveResourceCmd, ListResourcesCmd, GetResourceCmd, RequestResourceCmd,
    CancelRequestCmd, AllocateResourceCmd, ReleaseResourceCmd, ReleaseAllCmd,
    DetectDeadlockCmd, DetectAllCyclesCmd, IsProcessDeadlockedCmd, GetWaitForGraphCmd,
    RecoverCmd, RecommendStrategyCmd, AnalyzeOptionsCmd, SimInitCmd,
    SimLoadScenarioCmd, SimStartCmd, SimPauseCmd, SimResumeCmd,
    SimStopCmd, SimTickCmd, SimRunCmd, SimGetStateCmd,
    SimGetEventsCmd, GetVersionCmd, GetHelpCmd, PingCmd,
    ShutdownCmd
  ]

  /** The command of the first table entry from i on named `name`. */
  function CommandFrom(name: string, i: nat): (c: Command)
    requires i <= |TableCommands|
    ensures (forall k :: i <= k < |TableCommands| ==> CommandNames[k] != name) ==> c == UnknownCmd
    decreases |TableCommands| - i
  {
    if i == |TableCommands| then UnknownCmd
    else if CommandNames[i] == name then TableCommands[i]
    else CommandFrom(name, i + 1)
  }

  /** The name of the first table entry from i for command c, or "unknown". */
  function NameFrom(c: Command, i: nat): (name: string)
    requires i <= |TableCommands|
    ensures (forall k :: i <= k < |TableCommands| ==> TableCommands[k] != c) ==> name == "unknown"
    decreases |TableCommands| - i
  {
    if i == |TableCommands| then "unknown"
    else if TableCommands[i] == c then CommandNames[i]
    else NameFrom(c, i + 1)
  }

  /** api_get_command: the table scan by name. */
  method GetCommand(name: string) returns (cmd: Command)
    ensures cmd == CommandFrom(name, 0)
  {
    var i := 0;
    while i < |TableCommands|
      invariant 0 <= i <= |TableCommands|
      invariant CommandFrom(name, i) == CommandFrom(name, 0)
    {
      if CommandNames[i] == name {
        return TableCommands[i];
      }
      i := i + 1;
    }
    return UnknownCmd;
  }

  /** api_command_name: the table scan by command. */
  method CommandName(cmd: Command) returns (name: string)
    ensures name == NameFrom(cmd, 0)
  {
    var i := 0;
    while i < |TableCommands|
      invariant 0 <= i <= |TableCommands|
      invariant NameFrom(cmd, i) == NameFrom(cmd, 0)
    {
      if TableCommands[i] == cmd {
        return CommandNames[i];
      }
      i := i + 1;
    }
    return "unknown";
  }

  /** The position of a command in the enumeration; the unknown command
      comes last. */
  function Index(c: Command): (i: nat)
    ensures i <= |TableCommands|
  {
    match c
    case RagInitCmd => 0
    case RagResetCmd => 1
    case RagGetStateCmd => 2
    case AddProcessCmd => 3
    case RemoveProcessCmd => 4
    case ListProcessesCmd => 5
    case GetProcessCmd => 6
    case AddResourceCmd => 7
    case RemoveResourceCmd => 8
    case ListResourcesCmd => 9
    case GetResourceCmd => 10
    case RequestResourceCmd => 11
    case CancelRequestCmd => 12
    case AllocateResourceCmd => 13
    case ReleaseResourceCmd => 14
    case ReleaseAllCmd => 15
    case DetectDeadlockCmd => 16
    case DetectAllCyclesCmd => 17
    case IsProcessDeadlockedCmd => 18
    case GetWaitForGraphCmd => 19
    case RecoverCmd => 20
    case RecommendStrategyCmd => 21
    case AnalyzeOptionsCmd => 22
    case SimInitCmd => 23
    case SimLoadScenarioCmd => 24
    case SimStartCmd => 25
    case SimPauseCmd => 26
    case SimResumeCmd => 27
    case SimStopCmd => 28
    case SimTickCmd => 29
    case SimRunCmd => 30
    case SimGetStateCmd => 31
    case SimGetEventsCmd => 32
    case GetVersionCmd => 33
    case GetHelpCmd => 34
    case PingCmd => 35
    case ShutdownCmd => 36
    case UnknownCmd => 37
  }

  /** The table lists the commands in enumeration order, so no command
      appears twice and the unknown command not at all. */
  lemma TableFollowsEnumeration()
    ensures forall k :: 0 <= k < |TableCommands| ==> Index(TableCommands[k]) == k
  {
    IndexesFrom0();
    IndexesFrom8();
    IndexesFrom16();
    IndexesFrom24();
    IndexesFrom32();
  }

  // The 37-entry table is too large to unfold in one proof obligation within
  // the solver's budget, so the facts about it are proved a slice at a time.

  lemma IndexesFrom0()
    ensures forall k :: 0 <= k < 8 ==> Index(TableCommands[k]) == k
  {
  }

  lemma IndexesFrom8()
    ensures forall k :: 8 <= k < 16 ==> Index(TableCommands[k]) == k
  {
  }

  lemma IndexesFrom16()
    ensures forall k :: 16 <= k < 24 ==> Index(TableCommands[k]) == k
  {
  }

  lemma IndexesFrom24()
    ensures forall k :: 24 <= k < 32 ==> Index(TableCommands[k]) == k
  {
  }

  lemma IndexesFrom32()
    ensures forall k :: 32 <= k < 37 ==> Index(TableCommands[k]) == k
  {
  }

  /** Every command other than the unknown one has a table entry. */
  lemma Enumerated(c: Command)
    requires c != UnknownCmd
    ensures Index(c) < |TableCommands| && TableCommands[Index(c)] == c
  {
    match c
    case RagInitCmd => assert TableCommands[0] == c;
    case RagResetCmd => assert TableCommands[1] == c;
    case RagGetStateCmd => assert TableCommands[2] == c;
    case AddProcessCmd => assert TableCommands[3] == c;
    case RemoveProcessCmd => assert TableCommands[4] == c;
    case ListProcessesCmd => assert TableCommands[5] == c;
    case GetProcessCmd => assert TableCommands[6] == c;
    case AddResourceCmd => assert TableCommands[7] == c;
    case RemoveResourceCmd => assert TableCommands[8] == c;
    case ListResourcesCmd => assert TableCommands[9] == c;
    case GetResourceCmd => assert TableCommands[10] == c;
    case RequestResourceCmd => assert TableCommands[11] == c;
    case CancelRequestCmd => assert TableCommands[12] == c;
    case AllocateResourceCmd => assert TableCommands[13] == c;
    case ReleaseResourceCmd => assert TableCommands[14] == c;
    case ReleaseAllCmd => assert TableCommands[15] == c;
    case DetectDeadlockCmd => assert TableCommands[16] == c;
    case DetectAllCyclesCmd => assert TableCommands[17] == c;
    case IsProcessDeadlockedCmd => assert TableCommands[18] == c;
    case GetWaitForGraphCmd => assert TableCommands[19] == c;
    case RecoverCmd => assert TableCommands[20] == c;
    case RecommendStrategyCmd => assert TableCommands[21] == c;
    case AnalyzeOptionsCmd => assert TableCommands[22] == c;
    case SimInitCmd => assert TableCommands[23] == c;
    case SimLoadScenarioCmd => assert TableCommands[24] == c;
    case SimStartCmd => assert TableCommands[25] == c;
    case SimPauseCmd => assert TableCommands[26] == c;
    case SimResumeCmd => assert TableCommands[27] == c;
    case SimStopCmd => assert TableCommands[28] == c;
    case SimTickCmd => assert TableCommands[29] == c;
    case SimRunCmd => assert TableCommands[30] == c;
    case SimGetStateCmd => assert TableCommands[31] == c;
    case SimGetEventsCmd => assert TableCommands[32] == c;
    case GetVersionCmd => assert TableCommands[33] == c;
    case GetHelpCmd => assert TableCommands[34] == c;
    case PingCmd => assert TableCommands[35] == c;
    case ShutdownCmd => assert TableCommands[36] == c;
  }

  /** The length and two characters of a name, which already tell the table's
      names apart: names with different keys differ, and comparing 37 short
      keys pairwise is much cheaper for the solver than comparing the strings. */
  function Key(name: string): (int, char, char)
  {
    if |name| < 3 then (|name|, ' ', ' ') else (|name|, name[2], name[|name| - 3])
  }

  // Pairs of keys, split by the position of the later name (the same budget reason).

  lemma KeysDistinct0()
    ensures forall a, b :: 0 <= a < b && 0 <= b < 13 ==> Key(CommandNames[a]) != Key(CommandNames[b])
  {
  }

  lemma KeysDistinct1()
    ensures forall a, b :: 0 <= a < b && 13 <= b < 25 ==> Key(CommandNames[a]) != Key(CommandNames[b])
  {
  }

  lemma KeysDistinct2()
    ensures forall a, b :: 0 <= a < b && 25 <= b < 37 ==> Key(CommandNames[a]) != Key(CommandNames[b])
  {
  }

  /** No name appears twice in the table, and "unknown" is not one of them. */
  lemma NamesDistinct()
    ensures forall a, b :: 0 <= a < b < |TableCommands| ==> CommandNames[a] != CommandNames[b]
    ensures forall k :: 0 <= k < |TableCommands| ==> CommandNames[k] != "unknown"
  {
    KeysDistinct0();
    KeysDistinct1();
    KeysDistinct2();
    assert forall k :: 0 <= k < |TableCommands| ==> Key(CommandNames[k]) != Key("unknown");
  }

  /** Two entries of the table differ in both name and command. */
  lemma EntriesDiffer(i: nat, k: nat)
    requires i < k < |TableCommands|
    ensures CommandNames[i] != CommandNames[k]
    ensures TableCommands[i] != TableCommands[k]
  {
    NamesDistinct();
    TableFollowsEnumeration();
  }

  lemma {:induction false} LookupsFindEntry(k: nat, i: nat)
    requires i <= k < |TableCommands|
    ensures CommandFrom(CommandNames[k], i) == TableCommands[k]
    ensures NameFrom(TableCommands[k], i) == CommandNames[k]
    decreases k - i
  {
    if i < k {
      EntriesDiffer(i, k);
      LookupsFindEntry(k, i + 1);
    }
  }

  /** Every command maps to its name and back, every table name maps to its
      command and back; "unknown" is the name of the unknown command alone,
      and the unknown command is the lookup of exactly the names outside
      the table. */
  lemma CommandNamesRoundTrip(c: Command, name: string)
    ensures CommandFrom(NameFrom(c, 0), 0) == c
    ensures NameFrom(c, 0) == "unknown" <==> c == UnknownCmd
    ensures (exists k :: 0 <= k < |TableCommands| && CommandNames[k] == name) ==>
      NameFrom(CommandFrom(name, 0), 0) == name
    ensures CommandFrom(name, 0) == UnknownCmd <==>
      forall k :: 0 <= k < |TableCommands| ==> CommandNames[k] != name
  {
    TableFollowsEnumeration();
    NamesDistinct();
    if c != UnknownCmd {
      Enumerated(c);
      LookupsFindEntry(Index(c), 0);
    } else {
      assert NameFrom(c, 0) == "unknown";
    }
    if k :| 0 <= k < |TableCommands| && CommandNames[k] == name {
      LookupsFindEntry(k, 0);
    }
  }

  const StatusNames: seq<string> :=
    ["success", "error", "invalid_command", "invalid_params", "not_found", "already_exists", "operation_failed"]

  const StatusSuccess := 0
  const StatusInvalidParams := 3
  const StatusOperationFailed := 6

  /** api_status_name: the table entry for an in-range status, "unknown"
      for any other value of the enumeration's integer. */
  function StatusName(status: int): (name: string)
    ensures 0 <= status < |StatusNames| ==> name == StatusNames[status]
    ensures !(0 <= status < |StatusNames|) ==> name == "unknown"
  {
    if 0 <= status < |StatusNames| then StatusNames[status] else "unknown"
  }

  /** Distinct statuses have distinct names, and "unknown" names exactly the
      values outside the enumeration. */
  lemma StatusNamesDistinct(a: int, b: int)
    ensures StatusName(a) == "unknown" <==> !(0 <= a < |StatusNames|)
    ensures 0 <= a < |StatusNames| && 0 <= b < |StatusNames| && StatusName(a) == StatusName(b) ==> a == b
  {
  }

  /** The table's names are short and hold no quote or backslash. */
  lemma NamesPlain()
    ensures forall k :: 0 <= k < |CommandNames| ==> |CommandNames[k]| < 64
    ensures forall k, j :: 0 <= k < |CommandNames| && 0 <= j < |CommandNames[k]| ==>
      CommandNames[k][j] != '"' && CommandNames[k][j] != '\\'
  {
    NamesPlainFrom0();
    NamesPlainFrom4();
    NamesPlainFrom8();
    NamesPlainFrom12();
    NamesPlainFrom16();
    NamesPlainFrom20();
    NamesPlainFrom24();
    NamesPlainFrom28();
    NamesPlainFrom32();
    NamesPlainFrom36();
  }

  // Four names at a time (the same budget reason).

  lemma NamesPlainFrom0()
    ensures forall k :: 0 <= k < 4 ==> |CommandNames[k]| < 64
    ensures forall k, j :: 0 <= k < 4 && 0 <= j < |CommandNames[k]| ==>
      CommandNames[k][j] != '"' && CommandNames[k][j] != '\\'
  {
  }

  lemma NamesPlainFrom4()
    ensures forall k :: 4 <= k < 8 ==> |CommandNames[k]| < 64
    ensures forall k, j :: 4 <= k < 8 && 0 <= j < |CommandNames[k]| ==>
      CommandNames[k][j] != '"' && CommandNames[k][j] != '\\'
  {
  }

  lemma NamesPlainFrom8()
    ensures forall k :: 8 <= k < 12 ==> |CommandNames[k]| < 64
    ensures forall k, j :: 8 <= k < 12 && 0 <= j < |CommandNames[k]| ==>
      CommandNames[k][j] != '"' && CommandNames[k][j] != '\\'
  {
  }

  lemma NamesPlainFrom12()
    ensures forall k :: 12 <= k < 16 ==> |CommandNames[k]| < 64
    ensures forall k, j :: 12 <= k < 16 && 0 <= j < |CommandNames[k]| ==>
      CommandNames[k][j] != '"' && CommandNames[k][j] != '\\'
  {
  }

  lemma NamesPlainFrom16()
    ensures forall k :: 16 <= k < 20 ==> |CommandNames[k]| < 64
    ensures forall k, j :: 16 <= k < 20 && 0 <= j < |CommandNames[k]| ==>
      CommandNames[k][j] != '"' && CommandNames[k][j] != '\\'
  {
  }

  lemma NamesPlainFrom20()
    ensures forall k :: 20 <= k < 24 ==> |CommandNames[k]| < 64
    ensures forall k, j :: 20 <= k < 24 && 0 <= j < |CommandNames[k]| ==>
      CommandNames[k][j] != '"' && CommandNames[k][j] != '\\'
  {
  }

  lemma NamesPlainFrom24()
    ensures forall k :: 24 <= k < 28 ==> |CommandNames[k]| < 64
    ensures forall k, j :: 24 <= k < 28 && 0 <= j < |CommandNames[k]| ==>
      CommandNames[k][j] != '"' && CommandNames[k][j] != '\\'
  {
  }

  lemma NamesPlainFrom28()
    ensures forall k :: 28 <= k < 32 ==> |CommandNames[k]| < 64
    ensures forall k, j :: 28 <= k < 32 && 0 <= j < |CommandNames[k]| ==>
      CommandNames[k][j] != '"' && CommandNames[k][j] != '\\'
  {
  }

  lemma NamesPlainFrom32()
    ensures forall k :: 32 <= k < 36 ==> |CommandNames[k]| < 64
    ensures forall k, j :: 32 <= k < 36 && 0 <= j < |CommandNames[k]| ==>
      CommandNames[k][j] != '"' && CommandNames[k][j] != '\\'
  {
  }

  lemma NamesPlainFrom36()
    ensures forall k :: 36 <= k < 37 ==> |CommandNames[k]| < 64
    ensures forall k, j :: 36 <= k < 37 && 0 <= j < |CommandNames[k]| ==>
      CommandNames[k][j] != '"' && CommandNames[k][j] != '\\'
  {
  }
}
