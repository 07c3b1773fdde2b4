/**
 * What the manager reports about one extension: its state, derived from the
 * install record and the process runner (`get_status`), and the actions it
 * offers for that state (`get_actions`, `_create_action_pair`).
 */
module Status {
  import opened Wrappers
  import opened Text
  import opened OrderedMaps
  import opened Installs

  /** What the process runner reports for a name. The runner is a separate
      library; only the answer 'running' matters to the manager. */
  datatype RunState = Running | Stopped | Terminated

  /** The runner's view: a name it has no process for reads as stopped. */
  type Runner = map<string, RunState>

  function RunStatus(runner: Runner, name: string): RunState {
    if name in runner then runner[name] else Stopped
  }

  /** 'not_installed', 'installed' (no runner yet), or what the runner reports. */
  datatype State = NotInstalled | Installed | Runs(run: RunState)

  datatype ExtensionStatus = ExtensionStatus(state: State, version: Option<string>)

  /** `get_status`: not installed when the recorded version is falsy; with a
      runner, an installed extension takes the runner's state. */
  function GetStatus(record: Record, runner: Option<Runner>, name: string): (s: ExtensionStatus)
    ensures s.version == Version(record, name)
    ensures s.version.Some? ==> Entry(name, s.version) in record
    ensures name !in Keys(record) ==> s.state == NotInstalled && s.version.None?
    ensures s.state == NotInstalled <==> !Truthy(s.version)
    ensures s.state == Installed <==> Truthy(s.version) && runner.None?
    ensures s.state.Runs? ==> runner.Some? && s.state.run == RunStatus(runner.value, name)
  {
    var version := Version(record, name);
    if !Truthy(version) then ExtensionStatus(NotInstalled, version)
    else if runner.None? then ExtensionStatus(Installed, version)
    else ExtensionStatus(Runs(RunStatus(runner.value, name)), version)
  }

  const ActionStart := 1
  const ActionRestart := 2
  const ActionStop := 3

  /** `action_strings`, indexed by action code. */
  const ActionStrings: seq<string> := ["", "Start", "Restart", "Stop"]

  /** A dropdown entry `{title, value}` for an action code. */
  datatype ActionPair = ActionPair(title: string, value: int)

  /** `_create_action_pair`. */
  function CreateActionPair(action: nat): (p: ActionPair)
    requires action < |ActionStrings|
    ensures p.value == action && p.title == ActionStrings[action]
  {
    ActionPair(ActionStrings[action], action)
  }

  /** `get_actions`: nothing for an extension whose recorded version is
      falsy, restart and stop exactly when the runner reports it running,
      and start alone otherwise. Every offered action is one that
      `perform_action` dispatches, titled by its entry in `action_strings`. */
  function GetActions(record: Record, runner: Option<Runner>, name: string): (r: seq<ActionPair>)
    ensures var version := Version(record, name);
            && (r == [] <==> !Truthy(version))
            && (r == [ActionPair("Restart", 2), ActionPair("Stop", 3)] <==>
                  Truthy(version) && runner.Some? && RunStatus(runner.value, name) == Running)
            && (r == [ActionPair("Start", 1)] <==>
                  Truthy(version) && (runner.None? || RunStatus(runner.value, name) != Running))
    ensures forall p :: p in r ==> 1 <= p.value <= 3 && p.title == ActionStrings[p.value]
  {
    var state := GetStatus(record, runner, name).state;
    if state == NotInstalled then []
    else if state == Runs(Running) then [CreateActionPair(ActionRestart), CreateActionPair(ActionStop)]
    else [CreateActionPair(ActionStart)]
  }
}
