/**
 * The installer's lifecycle operations over an abstract process runner:
 * `_start`, `_stop`, `_restart`, `perform_action`, the exit callback of
 * `_start`, applying an install query (`_query_installs`), loading the catalog
 * (`_load_repository`) and the start-up sequence of the constructor.
 *
 * The runner is a separate library. It is modelled by what the manager asks
 * of it: every call is appended to a trace, and a stop or terminate call is
 * answered later, when the runner completes it, by running the continuation
 * the manager handed over. A started process reads as running; a completed
 * stop or terminate leaves it stopped or terminated.
 */
module Lifecycle {
  import opened Wrappers
  import opened Text
  import opened OrderedMaps
  import opened Catalog
  import opened Installs
  import opened Status
  import opened Reporting

  const ModuleDir := "node_modules/"

  /** The exit code Windows gives a process stopped by a user break. */
  const WindowsUserBreak := 3221225786

  /** A call the manager makes on the runner. */
  datatype Call = StartCall(name: string, cwd: string) | StopCall(name: string) | TerminateCall(name: string)

  /** The trace: a call issued, or the runner completing the call issued at `index`. */
  datatype Event = Issued(call: Call) | Completed(index: nat)

  /** The completion callback handed to `runner.stop` / `runner.terminate`:
      none, or the `_start` of `_restart`. */
  datatype Continuation = Done | StartAgain(name: string)

  /** A stop or terminate call the runner has not completed yet. */
  datatype Job = Job(index: nat, call: Call, next: Continuation)

  /** The installer's state: the catalog and its index cache, the install
      record, the runner (undefined until a catalog is loaded), the install
      root, the status reporter, and the runner's trace and open jobs. */
  datatype Manager = Manager(
    repos: seq<Category>,
    cache: Cache,
    record: Record,
    runner: Option<Runner>,
    root: string,
    reporter: Reporter,
    trace: seq<Event>,
    waiting: seq<Job>)

  /** `_set_status` on the manager's reporter. */
  function Say(m: Manager, text: string, isError: bool): Manager {
    m.(reporter := SetStatus(m.reporter, Message(text, isError)))
  }

  /** `npm_installed[name]` is truthy. */
  predicate IsInstalled(m: Manager, name: string) {
    Truthy(Version(m.record, name))
  }

  /** The working directory a start uses: install root, module directory, name. */
  function WorkingDirectory(m: Manager, name: string): string {
    m.root + ModuleDir + name
  }

  // ---------------------------------------------------------------------------
  // _start, _stop, _restart, perform_action
  // ---------------------------------------------------------------------------

  /** `_start`: starts an installed extension in its working directory, and
      reports "Started" whether or not anything was started. `None` where the
      program calls `runner.start` while the runner is still undefined. */
  function Start(m: Manager, name: string): (r: Option<Manager>)
    ensures r.None? <==> IsInstalled(m, name) && m.runner.None?
    ensures r.Some? ==> r.value.reporter == SetStatus(m.reporter, Message("Started: " + name, false))
    ensures IsInstalled(m, name) && r.Some? ==>
              && r.value.trace == m.trace + [Issued(StartCall(name, WorkingDirectory(m, name)))]
              && r.value.runner == Some(m.runner.value[name := Running])
              && r.value.waiting == m.waiting
    ensures !IsInstalled(m, name) ==> r == Some(m.(reporter := r.value.reporter))
  {
    if IsInstalled(m, name) then
      if m.runner.None? then None
      else
        var started := m.(runner := Some(m.runner.value[name := Running]),
                           trace := m.trace + [Issued(StartCall(name, WorkingDirectory(m, name)))]);
        Some(Say(started, "Started: " + name, false))
    else Some(Say(m, "Started: " + name, false))
  }

  /** Running a completion callback. */
  function Continue(m: Manager, next: Continuation): Option<Manager> {
    match next
    case Done => Some(m)
    case StartAgain(name) => Start(m, name)
  }

  /** `_stop`: reports "Terminating process"; for an installed extension the
      runner reports running, asks the runner to stop it (a user stop) or
      terminate it, handing over the callback; for an installed extension that
      is not running, runs the callback at once; otherwise does nothing more. */
  function Stop(m: Manager, name: string, user: bool, next: Continuation): Option<Manager> {
    var said := Say(m, "Terminating process: " + name + "...", false);
    if !IsInstalled(m, name) then Some(said)
    else if m.runner.Some? && RunStatus(m.runner.value, name) == Running then
      var call := if user then StopCall(name) else TerminateCall(name);
      Some(said.(trace := said.trace + [Issued(call)],
                 waiting := said.waiting + [Job(|said.trace|, call, next)]))
    else Continue(said, next)
  }

  /** `_restart`: a terminate whose completion starts the extension again. */
  function Restart(m: Manager, name: string): Option<Manager> {
    Stop(m, name, false, StartAgain(name))
  }

  /** `perform_action`: 1 starts, 2 restarts, 3 stops on the user's behalf,
      any other code does nothing. */
  function Perform(m: Manager, action: int, name: string): (r: Option<Manager>)
    ensures action != ActionStart && action != ActionRestart && action != ActionStop ==> r == Some(m)
  {
    if action == ActionStart then Start(m, name)
    else if action == ActionRestart then Restart(m, name)
    else if action == ActionStop then Stop(m, name, true, Done)
    else Some(m)
  }

  /** The runner completes the open job at position `k`: the completion is
      traced, the process no longer runs, and the callback runs. */
  function Complete(m: Manager, k: nat): Option<Manager>
    requires k < |m.waiting|
  {
    var job := m.waiting[k];
    var after := if job.call.StopCall? then Stopped else Terminated;
    var runner := if m.runner.Some? then Some(m.runner.value[job.call.name := after]) else None;
    var done := m.(runner := runner,
                   trace := m.trace + [Completed(job.index)],
                   waiting := m.waiting[..k] + m.waiting[k + 1..]);
    Continue(done, job.next)
  }

  // ---------------------------------------------------------------------------
  // The trace stays well formed
  // ---------------------------------------------------------------------------

  predicate Stopping(c: Call) {
    c.StopCall? || c.TerminateCall?
  }

  /** An open job names a stop or terminate call of the trace that has not
      completed; a job that restarts terminates the extension it restarts. */
  predicate JobGood(trace: seq<Event>, j: Job) {
    && j.index < |trace|
    && trace[j.index] == Issued(j.call)
    && Stopping(j.call)
    && Completed(j.index) !in trace
    && (j.next.StartAgain? ==> j.call == TerminateCall(j.next.name))
  }

  /** Every completion refers to an earlier call; open jobs are well formed
      and refer to different calls. */
  predicate Good(m: Manager) {
    && (forall i :: 0 <= i < |m.trace| && m.trace[i].Completed? ==> m.trace[i].index < i)
    && (forall k :: 0 <= k < |m.waiting| ==> JobGood(m.trace, m.waiting[k]))
    && (forall k, l :: 0 <= k < l < |m.waiting| ==> m.waiting[k].index != m.waiting[l].index)
  }

  /** Issuing calls keeps the trace well formed. */
  lemma IssueKeepsGood(m: Manager, m': Manager, more: seq<Call>)
    requires Good(m)
    requires m'.trace == m.trace + seq(|more|, i requires 0 <= i < |more| => Issued(more[i]))
    requires m'.waiting == m.waiting
    ensures Good(m')
  {
    forall k | 0 <= k < |m'.waiting| ensures JobGood(m'.trace, m'.waiting[k]) {
      var j := m.waiting[k];
      assert JobGood(m.trace, j);
      assert m'.trace[j.index] == m.trace[j.index];
    }
  }

  lemma StartKeepsGood(m: Manager, name: string)
    requires Good(m) && Start(m, name).Some?
    ensures Good(Start(m, name).value)
  {
    var r := Start(m, name).value;
    if IsInstalled(m, name) {
      IssueKeepsGood(m, r, [StartCall(name, WorkingDirectory(m, name))]);
    } else {
      IssueKeepsGood(m, r, []);
    }
  }

  lemma ContinueKeepsGood(m: Manager, next: Continuation)
    requires Good(m) && Continue(m, next).Some?
    ensures Good(Continue(m, next).value)
  {
    if next.StartAgain? {
      StartKeepsGood(m, next.name);
    }
  }

  lemma StopKeepsGood(m: Manager, name: string, user: bool, next: Continuation)
    requires Good(m) && Stop(m, name, user, next).Some?
    requires next.StartAgain? ==> next == StartAgain(name) && !user
    ensures Good(Stop(m, name, user, next).value)
  {
    var said := Say(m, "Terminating process: " + name + "...", false);
    assert Good(said);
    if IsInstalled(m, name) {
      if m.runner.Some? && RunStatus(m.runner.value, name) == Running {
        var r := Stop(m, name, user, next).value;
        var call := if user then StopCall(name) else TerminateCall(name);
        var issued := said.(trace := said.trace + [Issued(call)]);
        IssueKeepsGood(said, issued, [call]);
        var job := Job(|said.trace|, call, next);
        assert r == issued.(waiting := issued.waiting + [job]);
        forall k | 0 <= k < |issued.waiting| ensures issued.waiting[k].index < job.index {
          assert JobGood(said.trace, said.waiting[k]);
        }
        OpenJobKeepsGood(issued, job);
      } else {
        ContinueKeepsGood(said, next);
      }
    }
  }

  /** Opening a job on the call just issued keeps the trace well formed. */
  lemma OpenJobKeepsGood(m: Manager, job: Job)
    requires Good(m) && job.index == |m.trace| - 1 && m.trace[job.index] == Issued(job.call)
    requires Stopping(job.call) && (job.next.StartAgain? ==> job.call == TerminateCall(job.next.name))
    requires forall k :: 0 <= k < |m.waiting| ==> m.waiting[k].index < job.index
    ensures Good(m.(waiting := m.waiting + [job]))
  {
    forall i | 0 <= i < |m.trace| ensures m.trace[i] != Completed(job.index) {
      if i == job.index {
        assert m.trace[i].Issued?;
      }
    }
    var r := m.(waiting := m.waiting + [job]);
    forall k | 0 <= k < |r.waiting| ensures JobGood(r.trace, r.waiting[k]) {
      if k < |m.waiting| {
        assert r.waiting[k] == m.waiting[k];
      }
    }
  }

  /** Every action keeps the trace well formed. */
  lemma PerformKeepsGood(m: Manager, action: int, name: string)
    requires Good(m) && Perform(m, action, name).Some?
    ensures Good(Perform(m, action, name).value)
  {
    if action == ActionStart {
      StartKeepsGood(m, name);
    } else if action == ActionRestart {
      StopKeepsGood(m, name, false, StartAgain(name));
    } else if action == ActionStop {
      StopKeepsGood(m, name, true, Done);
    }
  }

  /** Completing an open job keeps the trace well formed. */
  lemma CompleteKeepsGood(m: Manager, k: nat)
    requires Good(m) && k < |m.waiting| && Complete(m, k).Some?
    ensures Good(Complete(m, k).value)
  {
    var job := m.waiting[k];
    var after := if job.call.StopCall? then Stopped else Terminated;
    var runner := if m.runner.Some? then Some(m.runner.value[job.call.name := after]) else None;
    var done := m.(runner := runner,
                   trace := m.trace + [Completed(job.index)],
                   waiting := m.waiting[..k] + m.waiting[k + 1..]);
    assert JobGood(m.trace, job);
    forall l | 0 <= l < |done.waiting| ensures JobGood(done.trace, done.waiting[l]) {
      var other := if l < k then l else l + 1;
      assert done.waiting[l] == m.waiting[other];
      assert JobGood(m.trace, m.waiting[other]);
      assert m.waiting[other].index != job.index;
    }
    forall l, l' | 0 <= l < l' < |done.waiting| ensures done.waiting[l].index != done.waiting[l'].index {
      var o := if l < k then l else l + 1;
      var o' := if l' < k then l' else l' + 1;
      assert done.waiting[l] == m.waiting[o] && done.waiting[l'] == m.waiting[o'];
    }
    assert Good(done);
    ContinueKeepsGood(done, job.next);
  }

  // ---------------------------------------------------------------------------
  // Sequencing of stop, restart and start
  // ---------------------------------------------------------------------------

  /** `_stop` by case: for an installed, running extension it only issues
      the stop (user) or terminate call and leaves the callback for the
      runner's completion; for an installed extension that is not running it
      runs the callback at once; for one that is not installed it issues
      nothing and never runs the callback. */
  lemma StopCases(m: Manager, name: string, user: bool, next: Continuation)
    ensures var said := Say(m, "Terminating process: " + name + "...", false);
            var r := Stop(m, name, user, next);
            && (IsInstalled(m, name) && m.runner.Some? && RunStatus(m.runner.value, name) == Running ==>
                  && r.Some?
                  && r.value.trace == m.trace + [Issued(if user then StopCall(name) else TerminateCall(name))]
                  && r.value.waiting == m.waiting + [Job(|m.trace|, r.value.trace[|m.trace|].call, next)]
                  && r.value.reporter == said.reporter)
            && (IsInstalled(m, name) && (m.runner.None? || RunStatus(m.runner.value, name) != Running) ==>
                  r == Continue(said, next))
            && (!IsInstalled(m, name) ==> r == Some(said) && said.trace == m.trace && said.waiting == m.waiting)
  {
  }

  /** A restart of a running extension issues no start: it issues only the
      terminate call and leaves the start to that call's completion. When the
      runner completes it, the completion is traced and the start follows
      right after it, in the same working directory as any start. */
  lemma RestartDefersStart(m: Manager, name: string)
    requires IsInstalled(m, name) && m.runner.Some? && RunStatus(m.runner.value, name) == Running
    ensures var r := Restart(m, name);
            && r.Some?
            && r.value.trace == m.trace + [Issued(TerminateCall(name))]
            && r.value.waiting == m.waiting + [Job(|m.trace|, TerminateCall(name), StartAgain(name))]
            && var c := Complete(r.value, |m.waiting|);
               && c.Some?
               && c.value.trace == m.trace + [Issued(TerminateCall(name)), Completed(|m.trace|),
                                              Issued(StartCall(name, WorkingDirectory(m, name)))]
               && c.value.waiting == m.waiting
               && c.value.runner == Some(m.runner.value[name := Running])
  {
    RestartRunning(m, name);
    var r := Restart(m, name).value;
    var k := |m.waiting|;
    var start := Issued(StartCall(name, WorkingDirectory(m, name)));
    assert r.waiting[k] == Job(|m.trace|, TerminateCall(name), StartAgain(name));
    assert WorkingDirectory(r, name) == WorkingDirectory(m, name);
    CompletionStarts(r, k);
    var c := Complete(r, k).value;
    assert c.trace == r.trace + [Completed(|m.trace|), start];
    assert r.waiting[..k] + r.waiting[k + 1..] == m.waiting;
    assert m.runner.value[name := Terminated][name := Running] == m.runner.value[name := Running];
    assert r.trace + [Completed(|m.trace|), start]
        == m.trace + [Issued(TerminateCall(name)), Completed(|m.trace|), start];
  }

  /** Restarting a running extension only issues the terminate and opens its job. */
  lemma RestartRunning(m: Manager, name: string)
    requires IsInstalled(m, name) && m.runner.Some? && RunStatus(m.runner.value, name) == Running
    ensures var r := Restart(m, name);
            && r.Some?
            && r.value.trace == m.trace + [Issued(TerminateCall(name))]
            && r.value.waiting == m.waiting + [Job(|m.trace|, TerminateCall(name), StartAgain(name))]
            && r.value.record == m.record && r.value.root == m.root && r.value.runner == m.runner
  {
  }

  /** Completing a job that restarts an installed extension traces the
      completion and then issues the start, and nothing else. */
  lemma CompletionStarts(m: Manager, k: nat)
    requires k < |m.waiting| && m.waiting[k].next.StartAgain?
    requires IsInstalled(m, m.waiting[k].next.name) && m.runner.Some?
    ensures var j := m.waiting[k];
            var name := j.next.name;
            var c := Complete(m, k);
            && c.Some?
            && c.value.trace == m.trace + [Completed(j.index), Issued(StartCall(name, WorkingDirectory(m, name)))]
            && c.value.waiting == m.waiting[..k] + m.waiting[k + 1..]
            && c.value.runner == Some(m.runner.value[j.call.name := if j.call.StopCall? then Stopped else Terminated]
                                                    [name := Running])
  {
    var j := m.waiting[k];
    var after := if j.call.StopCall? then Stopped else Terminated;
    var done := m.(runner := Some(m.runner.value[j.call.name := after]),
                   trace := m.trace + [Completed(j.index)],
                   waiting := m.waiting[..k] + m.waiting[k + 1..]);
    assert Complete(m, k) == Start(done, j.next.name);
    assert IsInstalled(done, j.next.name);
  }

  /** In a well-formed state, a start that an open job will issue is the
      restart of the extension that job terminates: the only way a start
      waits on a call is as the completion of a terminate of that same name. */
  lemma WaitingStartsFollowTerminates(m: Manager, k: nat)
    requires Good(m) && k < |m.waiting| && m.waiting[k].next.StartAgain?
    ensures var j := m.waiting[k];
            && m.trace[j.index] == Issued(TerminateCall(j.next.name))
            && Completed(j.index) !in m.trace
  {
    assert JobGood(m.trace, m.waiting[k]);
  }

  // ---------------------------------------------------------------------------
  // The exit callback of _start
  // ---------------------------------------------------------------------------

  /** How a started process ended: exit code (`null` is `None`), signal, and
      whether a user stop ended it. */
  datatype Termination = Termination(code: Option<int>, signal: Option<string>, user: bool)

  /** The status the exit callback reports, if any: a user stop is reported
      as stopped, an exit code as terminated (an error unless it is 0 or the
      Windows user break), a truthy signal as terminated, and nothing else. */
  function ExitMessage(name: string, t: Termination): (r: Option<Message>)
    ensures r.None? <==> !t.user && t.code.None? && !Truthy(t.signal)
    ensures r.Some? && r.value.isError <==>
              !t.user && t.code.Some? && t.code.value != 0 && t.code.value != WindowsUserBreak
    ensures r.Some? && t.user ==> r.value.text == "Stopped: " + name
    ensures r.Some? && !t.user ==> StartsWith(r.value.text, "Process terminated: " + name + " (")
  {
    if t.user then Some(Message("Stopped: " + name, false))
    else if t.code.Some? then
      Some(Message("Process terminated: " + name + " (" + Decimal(t.code.value) + ")",
                   t.code.value != 0 && t.code.value != WindowsUserBreak))
    else if Truthy(t.signal) then
      Some(Message("Process terminated: " + name + " (" + t.signal.value + ")", false))
    else None
  }

  /** A started extension's process ends: the runner no longer reports it
      running (stopped after a user stop, terminated otherwise) and calls its
      exit callback. Nothing is issued and no job changes. */
  function Exited(m: Manager, name: string, t: Termination): (r: Manager)
    ensures m.runner.Some? ==>
              r.runner == Some(m.runner.value[name := if t.user then Stopped else Terminated])
    ensures m.runner.None? ==> r.runner.None?
    ensures r == m.(runner := r.runner, reporter := r.reporter)
    ensures ExitMessage(name, t).None? ==> r.reporter == m.reporter
    ensures ExitMessage(name, t).Some? ==> r.reporter == SetStatus(m.reporter, ExitMessage(name, t).value)
  {
    var ended := if m.runner.Some? then m.(runner := Some(m.runner.value[name := if t.user then Stopped else Terminated]))
                 else m;
    match ExitMessage(name, t)
    case None => ended
    case Some(msg) => Say(ended, msg.text, msg.isError)
  }

  /** After its process has ended, an installed extension is offered a start
      again, and stopping it issues no call: its callback runs at once. */
  lemma ExitedOffersStart(m: Manager, name: string, t: Termination, user: bool, next: Continuation)
    requires m.runner.Some? && IsInstalled(m, name)
    ensures var r := Exited(m, name, t);
            && GetActions(r.record, r.runner, name) == [ActionPair("Start", 1)]
            && Stop(r, name, user, next) == Continue(Say(r, "Terminating process: " + name + "...", false), next)
  {
    var r := Exited(m, name, t);
    assert RunStatus(r.runner.value, name) != Running;
  }

  // ---------------------------------------------------------------------------
  // Queries, loading and start-up
  // ---------------------------------------------------------------------------

  /** The `_query_installs` callback on the manager: `None` where it throws;
      a failed query reports an error and leaves record and cache alone;
      otherwise the record and cache are replaced. The install root is taken
      from the first line of the listing in every case. */
  function ApplyQuery(m: Manager, q: Query): (r: Option<Manager>)
    requires Resolvable(m.repos)
    ensures r.None? <==> QueryInstalls(m.repos, m.cache, m.record, q).outcome.Crashed?
    ensures r.Some? ==> r.value.trace == m.trace && r.value.waiting == m.waiting && r.value.repos == m.repos
  {
    var res := QueryInstalls(m.repos, m.cache, m.record, q);
    match res.outcome
    case Crashed => None
    case Failed => Some(Say(m.(root := res.root), "Extension query failed", true))
    case Updated(record, _) => Some(m.(root := res.root, record := record, cache := res.cache))
  }

  /** What `_load_repository` hands to the repository callback: the category
      list, or undefined when the catalog is empty. */
  datatype Loaded = Loaded(m: Manager, categories: Option<seq<CategoryChoice>>)

  /** `_load_repository`: the catalog is rebuilt from the file; when it is not
      empty the install record is narrowed to it, "loaded" is reported and a
      fresh runner (knowing no process) replaces the old one; otherwise an
      error is reported. The index cache is kept as it was. */
  function Load(m: Manager, file: Option<seq<Category>>): (r: Loaded)
    requires Resolvable(LoadRepository(file))
    ensures r.m.repos == LoadRepository(file)
    ensures r.categories.Some? <==> |r.m.repos| > 0
    ensures r.m.cache.Keys >= m.cache.Keys
    ensures r.m.trace == m.trace && r.m.waiting == m.waiting
  {
    var repos := LoadRepository(file);
    if |repos| > 0 then
      var narrowed := NpmInstalledExtensions(repos, m.cache, m.record);
      var loaded := m.(repos := repos, record := narrowed.0, cache := narrowed.1, runner := Some(map[]));
      Loaded(Say(loaded, "Extension Repository loaded", false), Some(CategoryChoices(repos, 0)))
    else
      Loaded(Say(m.(repos := repos), "Extension Repository not found", true), None)
  }

  /** The runner's start-up callback: starts every previously running name
      that is installed, in the order given. */
  function Reattach(m: Manager, running: seq<string>): Option<Manager>
    decreases |running|
  {
    if |running| == 0 then Some(m)
    else if IsInstalled(m, running[0]) then
      match Start(m, running[0])
      case None => None
      case Some(m') => Reattach(m', running[1..])
    else Reattach(m, running[1..])
  }

  /** The starts a reattach issues: one per installed name, in order. */
  function StartsFor(m: Manager, running: seq<string>): seq<Event> {
    if |running| == 0 then []
    else (if IsInstalled(m, running[0]) then [Issued(StartCall(running[0], WorkingDirectory(m, running[0])))] else [])
         + StartsFor(m, running[1..])
  }

  /** With a runner, reattaching never throws and issues exactly one start per
      installed name, in order, and nothing else. */
  lemma {:induction false} ReattachStarts(m: Manager, running: seq<string>)
    requires m.runner.Some?
    ensures var r := Reattach(m, running);
            && r.Some?
            && r.value.trace == m.trace + StartsFor(m, running)
            && r.value.waiting == m.waiting
            && r.value.record == m.record
    decreases |running|
  {
    if |running| > 0 {
      var name := running[0];
      if IsInstalled(m, name) {
        var m' := Start(m, name).value;
        var call := Issued(StartCall(name, WorkingDirectory(m, name)));
        assert m'.record == m.record && m'.root == m.root && m'.runner.Some?;
        assert m'.trace == m.trace + [call] && m'.waiting == m.waiting;
        assert StartsFor(m', running[1..]) == StartsFor(m, running[1..]) by {
          SameRecordSameStarts(m, m', running[1..]);
        }
        assert Reattach(m, running) == Reattach(m', running[1..]);
        assert StartsFor(m, running) == [call] + StartsFor(m, running[1..]);
        ReattachStarts(m', running[1..]);
        assert m.trace + [call] + StartsFor(m, running[1..]) == m.trace + StartsFor(m, running);
      } else {
        assert Reattach(m, running) == Reattach(m, running[1..]);
        assert StartsFor(m, running) == StartsFor(m, running[1..]);
        ReattachStarts(m, running[1..]);
      }
    }
  }

  /** The starts depend only on the record and the install root. */
  lemma {:induction false} SameRecordSameStarts(m: Manager, m': Manager, running: seq<string>)
    requires m.record == m'.record && m.root == m'.root
    ensures StartsFor(m, running) == StartsFor(m', running)
    decreases |running|
  {
    if |running| > 0 {
      SameRecordSameStarts(m, m', running[1..]);
    }
  }

  /** The state before anything has happened; the reporter's flag is
      undefined, as the program leaves it. */
  const Initial := Manager([], map[], [], None, "", FreshAsWritten, [], [])

  /** The constructor: a full query; then "Starting Roon Extension Manager..."
      is reported and the catalog is loaded, also after a failed query.
      `None` where the query callback throws. */
  function Startup(stdout: string, err: bool, stderr: string, file: Option<seq<Category>>): Option<Loaded>
    requires Resolvable(LoadRepository(file))
  {
    match ApplyQuery(Initial, Query(None, err, stdout, stderr))
    case None => None
    case Some(m) => Some(Load(Say(m, "Starting Roon Extension Manager...", false), file))
  }

  /** The constructor's query lists everything, so it neither throws nor
      fails: start-up always completes. The status callback receives the
      start-up message and then the outcome of loading; the index cache is
      valid for the loaded catalog; a non-empty catalog brings a runner and
      its category list, and narrows the listing to the catalog's names. */
  lemma StartupLoads(stdout: string, err: bool, stderr: string, file: Option<seq<Category>>)
    requires Resolvable(LoadRepository(file))
    ensures var r := Startup(stdout, err, stderr, file);
            var repos := LoadRepository(file);
            var q := Query(None, err, stdout, stderr);
            && r.Some?
            && r.value.m.repos == repos
            && CacheValid(repos, r.value.m.cache)
            && r.value.m.trace == [] && r.value.m.waiting == []
            && r.value.m.reporter.latch == Unset
            && r.value.m.reporter.shown ==
                 [Message("Starting Roon Extension Manager...", false),
                  if |repos| > 0 then Message("Extension Repository loaded", false)
                  else Message("Extension Repository not found", true)]
            && (|repos| > 0 ==> r.value.categories == Some(CategoryChoices(repos, 0)) && r.value.m.runner == Some(map[]))
            && (|repos| > 0 && (forall e :: e in Unfiltered([], q) ==> e.key != "undefined") ==>
                  r.value.m.record == CatalogOnly(Unfiltered([], q), repos))
  {
    var repos := LoadRepository(file);
    var q := Query(None, err, stdout, stderr);
    assert Diagnosed(q) == Some(Diagnosis(None, false));
    var queried := Initial.(root := Split(stdout, "\n")[0] + "/", record := Unfiltered([], q));
    assert ApplyQuery(Initial, q) == Some(queried);
    var said := Say(queried, "Starting Roon Extension Manager...", false);
    if |repos| > 0 {
      FilterValid(repos, map[], said.record, []);
      if forall e :: e in Unfiltered([], q) ==> e.key != "undefined" {
        AddLinesDistinct([], Split(stdout, "\n")[1..]);
        assert forall i :: 0 <= i < |said.record| ==> said.record[i] in said.record;
        NpmInstalledMatches(repos, map[], said.record);
      }
    }
  }
}
