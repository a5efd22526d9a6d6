/** Editing tasks from several clients: each call saves only if the stored task still equals the snapshot it worked from. */
module TaskEditing {
  import opened Bytes

  type Json = string
  type Time = int
  type Client = nat

  datatype App = App(device: string, package: Option<string>)
  datatype TaskState = Active | Suspended | Cancelled | DependencyMissing

  datatype Task = Task(
    id: string, name: string, app: App, runner: string, entrypoint: string, payload: Json,
    extensions: map<string, Json>, inputs: seq<Json>, concurrency: nat, summary: Option<Json>, schedule: Json,
    state: TaskState, enabled: bool, nextWakeup: Option<Time>, lastResult: Option<string>, lastRun: Option<Time>,
    createdAt: Time, updatedAt: Time, preset: Option<string>, suspendReason: Option<string>)

  /** What the authorisation checks look at. */
  datatype Target = Target(
    id: string, app: App, runner: string, entrypoint: string, payload: Json, inputs: seq<Json>, schedule: Json)

  function TargetOf(t: Task): Target { Target(t.id, t.app, t.runner, t.entrypoint, t.payload, t.inputs, t.schedule) }

  /** Two tasks look the same to them exactly if they have the same identity and would execute the same. */
  lemma SameTarget(s: Task, t: Task)
    ensures TargetOf(s) == TargetOf(t) <==>
              && s.id == t.id && s.app == t.app && s.runner == t.runner && s.entrypoint == t.entrypoint && s.payload == t.payload
              && s.inputs == t.inputs && s.schedule == t.schedule
  {}

  const POLICY_KEY := "execution_policy"
  const MAX_CONCURRENCY := 64

  /** The checks as they stand when a call is computed: scope of the token, execution authority, ownership of the
      entrypoint, the runner knowing it, the schedule provider, structural validity, the run to cancel. */
  datatype Rules = Rules(
    scope: Target -> bool, execute: Target -> bool, entry: Target -> bool, described: Target -> bool,
    probe: Json -> bool, valid: Task -> bool, cancelRun: Target -> bool)

  /** Everything a computation takes from outside: the clock, the policy receipt of the token, the next wakeup (None
      when the provider fails), a fresh id, the application the device resolves to, the checks. */
  datatype Env = Env(now: Time, receipt: Json, wakeup: Option<Option<Time>>, freshId: string, app: Option<App>, rules: Rules)

  datatype Action = RunNow | Enable | Resume | Disable | Suspend | Cancel

  datatype SaveArgs = SaveArgs(
    name: string, runner: string, entrypoint: string, payload: Json, schedule: Json,
    enabled: Option<bool>, inputs: Option<seq<Json>>, concurrency: Option<int>)

  datatype Call =
    | Retarget(id: string, expectedUpdatedAt: Time, expectedEntrypoint: string, entrypoint: string, payload: Option<Json>)
    | Create(args: SaveArgs)
    | Update(id: string, expectedUpdatedAt: Time, args: SaveArgs)
    | Control(id: string, action: Action)

  datatype Computed = Refused | NoWrite | Write(task: Task)

  // ---- The three computations ----

  function WithReceipt(t: Task, env: Env): Task { t.(extensions := t.extensions[POLICY_KEY := env.receipt]) }

  function ComputeRetarget(prior: Task, call: Call, env: Env): Computed
    requires call.Retarget?
  {
    if !env.rules.scope(TargetOf(prior)) then Refused
    else if call.expectedUpdatedAt != prior.updatedAt || call.expectedEntrypoint != prior.entrypoint then Refused
    else
      var moved := prior.(entrypoint := call.entrypoint);
      var task := match call.payload { case Some(p) => moved.(payload := p) case None => moved };
      if !(if task.enabled then env.rules.execute(TargetOf(task)) else env.rules.scope(TargetOf(task))) then Refused
      else if !env.rules.entry(TargetOf(task)) || !env.rules.described(TargetOf(task)) then Refused
      else Write(WithReceipt(task.(updatedAt := env.now), env))
  }

  function Fresh(id: string, app: App, args: SaveArgs, now: Time): Task {
    Task(id, args.name, app, args.runner, args.entrypoint, args.payload, map[], [], 0, None, args.schedule,
         Active, true, None, None, None, now, now, None, None)
  }

  /** The bookkeeping of the previous version is kept. */
  function Inherit(t: Task, prior: Task): Task {
    t.(createdAt := prior.createdAt, lastRun := prior.lastRun, lastResult := prior.lastResult, extensions := prior.extensions,
       preset := prior.preset, inputs := prior.inputs, concurrency := prior.concurrency, summary := prior.summary)
  }

  function ComputeSave(previous: Option<Task>, args: SaveArgs, env: Env): Computed {
    if previous.Some? && !env.rules.scope(TargetOf(previous.value)) then Refused
    else if env.app == None || !env.rules.probe(args.schedule) then Refused
    else
      var id := if previous.Some? then previous.value.id else env.freshId;
      var base := Fresh(id, env.app.value, args, env.now);
      var enabled := if args.enabled.Some? then args.enabled.value else if previous.Some? then previous.value.enabled else false;
      var switched := base.(enabled := enabled, state := if enabled then Active else Suspended,
                            suspendReason := if enabled then None else Some("disabled"));
      var kept := if previous.Some? then Inherit(switched, previous.value) else switched;
      var fed := if args.inputs.Some? then kept.(inputs := args.inputs.value) else kept;
      if !env.rules.valid(base) then Refused
      else if args.concurrency.Some? && !(1 <= args.concurrency.value <= MAX_CONCURRENCY) then Refused
      else
        var task := if args.concurrency.Some? then fed.(concurrency := args.concurrency.value) else fed;
        if !env.rules.valid(task) then Refused
        else if !(if task.enabled then env.rules.execute(TargetOf(task)) else env.rules.scope(TargetOf(task))) then Refused
        else if !env.rules.entry(TargetOf(task)) then Refused
        else Write(WithReceipt(task, env))
  }

  function ComputeControl(prior: Task, action: Action, env: Env): Computed {
    if !env.rules.scope(TargetOf(prior)) then Refused
    else match action
      case RunNow => if env.rules.execute(TargetOf(prior)) then NoWrite else Refused
      case Enable | Resume =>
        if !env.rules.execute(TargetOf(prior)) || prior.state == Cancelled || env.wakeup == None then Refused
        else Write(WithReceipt(prior, env).(nextWakeup := env.wakeup.value, state := Active, enabled := true,
                                          suspendReason := None, updatedAt := env.now))
      case Disable | Suspend =>
        Write(prior.(state := Suspended, enabled := false, nextWakeup := None,
                   suspendReason := Some("disabled_by_external_agent"), updatedAt := env.now))
      case Cancel =>
        if !env.rules.cancelRun(TargetOf(prior)) then Refused
        else Write(prior.(state := Cancelled, enabled := false, nextWakeup := None, suspendReason := None, updatedAt := env.now))
  }

  /** What a call makes of the snapshot it read. */
  function Compute(call: Call, snapshot: Option<Task>, env: Env): Computed {
    match call
    case Create(args) => if snapshot == None then ComputeSave(None, args, env) else Refused
    case Retarget(_, _, _, _, _) => if snapshot == None then Refused else ComputeRetarget(snapshot.value, call, env)
    case Update(_, expectedUpdatedAt, args) =>
      if snapshot == None || expectedUpdatedAt != snapshot.value.updatedAt then Refused
      else ComputeSave(snapshot, args, env)
    case Control(_, action) => if snapshot == None then Refused else ComputeControl(snapshot.value, action, env)
  }

  // ---- The same computations as they update their own copy ----

  method RetargetTask(prior: Task, call: Call, env: Env) returns (r: Computed)
    requires call.Retarget?
    ensures r == ComputeRetarget(prior, call, env)
  {
    if !env.rules.scope(TargetOf(prior)) {
      return Refused;
    }
    if call.expectedUpdatedAt != prior.updatedAt || call.expectedEntrypoint != prior.entrypoint {
      return Refused;
    }
    var task := prior;
    task := task.(entrypoint := call.entrypoint);
    if call.payload.Some? {
      task := task.(payload := call.payload.value);
    }
    var allowed := if task.enabled then env.rules.execute(TargetOf(task)) else env.rules.scope(TargetOf(task));
    if !allowed || !env.rules.entry(TargetOf(task)) || !env.rules.described(TargetOf(task)) {
      return Refused;
    }
    task := task.(updatedAt := env.now);
    task := WithReceipt(task, env);
    return Write(task);
  }

  method SaveTask(previous: Option<Task>, args: SaveArgs, env: Env) returns (r: Computed)
    ensures r == ComputeSave(previous, args, env)
  {
    if previous.Some? && !env.rules.scope(TargetOf(previous.value)) {
      return Refused;
    }
    if env.app == None || !env.rules.probe(args.schedule) {
      return Refused;
    }
    var id := if previous.Some? then previous.value.id else env.freshId;
    var task := Fresh(id, env.app.value, args, env.now);
    if !env.rules.valid(task) {
      return Refused;
    }
    var enabled := previous.Some? && previous.value.enabled;
    if args.enabled.Some? {
      enabled := args.enabled.value;
    }
    task := task.(enabled := enabled);
    task := task.(state := if task.enabled then Active else Suspended);
    task := task.(suspendReason := if task.enabled then None else Some("disabled"));
    if previous.Some? {
      var prior := previous.value;
      task := task.(createdAt := prior.createdAt);
      task := task.(lastRun := prior.lastRun, lastResult := prior.lastResult);
      task := task.(extensions := prior.extensions, preset := prior.preset);
      task := task.(inputs := prior.inputs, concurrency := prior.concurrency, summary := prior.summary);
    }
    if args.inputs.Some? {
      task := task.(inputs := args.inputs.value);
    }
    if args.concurrency.Some? {
      if !(1 <= args.concurrency.value <= MAX_CONCURRENCY) {
        return Refused;
      }
      task := task.(concurrency := args.concurrency.value);
    }
    if !env.rules.valid(task) {
      return Refused;
    }
    var allowed := if task.enabled then env.rules.execute(TargetOf(task)) else env.rules.scope(TargetOf(task));
    if !allowed || !env.rules.entry(TargetOf(task)) {
      return Refused;
    }
    task := WithReceipt(task, env);
    return Write(task);
  }

  method ControlTask(prior: Task, action: Action, env: Env) returns (r: Computed)
    ensures r == ComputeControl(prior, action, env)
  {
    if !env.rules.scope(TargetOf(prior)) {
      return Refused;
    }
    var task := prior;
    if action == RunNow || action == Enable || action == Resume {
      if !env.rules.execute(TargetOf(task)) {
        return Refused;
      }
      task := WithReceipt(task, env);
    }
    if action == RunNow {
      return NoWrite;
    }
    if action == Cancel && !env.rules.cancelRun(TargetOf(task)) {
      return Refused;
    }
    match action {
      case RunNow =>
      case Enable | Resume =>
        if task.state == Cancelled || env.wakeup == None {
          return Refused;
        }
        task := task.(nextWakeup := env.wakeup.value);
        task := task.(state := Active, enabled := true, suspendReason := None);
      case Disable | Suspend =>
        task := task.(state := Suspended, enabled := false, nextWakeup := None);
        task := task.(suspendReason := Some("disabled_by_external_agent"));
      case Cancel =>
        task := task.(state := Cancelled, enabled := false, nextWakeup := None, suspendReason := None);
    }
    task := task.(updatedAt := env.now);
    return Write(task);
  }

  /** The table of stored tasks. */
  class Database {
    var tasks: map<string, Task>

    /** Compares the whole stored task with the snapshot and saves the replacement, in one transaction; None stands
        for a task that must not exist yet. `active` is the admission check of the token. */
    method CompareSave(task: Task, expected: Option<Task>, active: bool) returns (saved: bool)
      modifies this
      ensures saved <==>
                && active && (expected.Some? <==> task.id in old(tasks))
                && (expected.Some? ==> old(tasks)[task.id] == expected.value)
      ensures tasks == if saved then old(tasks)[task.id := task] else old(tasks)
    {
      if !active {
        return false;
      }
      var matches := match (Lookup(tasks, task.id), expected) {
        case (None, None) => true
        case (Some(row), Some(snapshot)) => row == snapshot
        case (_, _) => false
      };
      if !matches {
        return false;
      }
      tasks := tasks[task.id := task];
      return true;
    }
  }

  // ---- What the computations guarantee ----

  /** Retargeting changes the entrypoint, the payload, the timestamp and the policy receipt, and nothing else. */
  lemma RetargetFrame(prior: Task, call: Call, env: Env)
    requires call.Retarget? && Compute(call, Some(prior), env).Write?
    ensures var t := Compute(call, Some(prior), env).task;
            && t == prior.(entrypoint := t.entrypoint, payload := t.payload, updatedAt := t.updatedAt, extensions := t.extensions)
            && (forall k :: k != POLICY_KEY ==> (k in t.extensions <==> k in prior.extensions))
            && (forall k :: k != POLICY_KEY && k in prior.extensions ==> t.extensions[k] == prior.extensions[k])
            && t.entrypoint == call.entrypoint && t.payload == (if call.payload == None then prior.payload else call.payload.value)
            && t.updatedAt == env.now && POLICY_KEY in t.extensions && t.extensions[POLICY_KEY] == env.receipt
  {}

  /** A retarget is written exactly when the task still is what the caller saw, and the token may see it, may run or at
      least see what it becomes, owns the new entrypoint, and the runner knows it. */
  lemma RetargetIff(prior: Task, call: Call, env: Env)
    requires call.Retarget?
    ensures var payload := if call.payload == None then prior.payload else call.payload.value;
            var target := TargetOf(prior).(entrypoint := call.entrypoint, payload := payload);
            Compute(call, Some(prior), env).Write? <==>
              && call.expectedUpdatedAt == prior.updatedAt && call.expectedEntrypoint == prior.entrypoint
              && env.rules.scope(TargetOf(prior))
              && (prior.enabled ==> env.rules.execute(target)) && (!prior.enabled ==> env.rules.scope(target))
              && env.rules.entry(target) && env.rules.described(target)
  {}

  /** What a save writes is what its arguments say, new or over another task. Without a word about it, a new task is
      disabled and another one stays as it is; a disabled task is suspended. */
  lemma SaveGives(previous: Option<Task>, call: Call, env: Env)
    requires (call.Create? && previous == None) || (call.Update? && previous.Some?)
    requires Compute(call, previous, env).Write?
    ensures var t, args := Compute(call, previous, env).task, call.args;
            && t.name == args.name && t.runner == args.runner && t.entrypoint == args.entrypoint && t.payload == args.payload
            && t.schedule == args.schedule && Some(t.app) == env.app && t.nextWakeup == None && t.updatedAt == env.now
            && t.enabled == (if args.enabled.Some? then args.enabled.value else previous.Some? && previous.value.enabled)
            && t.state == (if t.enabled then Active else Suspended)
            && t.suspendReason == (if t.enabled then None else Some("disabled"))
            && (args.inputs.Some? ==> t.inputs == args.inputs.value)
            && (args.concurrency.Some? ==> 1 <= args.concurrency.value <= 64 && t.concurrency == args.concurrency.value)
            && POLICY_KEY in t.extensions && t.extensions[POLICY_KEY] == env.receipt
    ensures previous == None ==>
              var t := Compute(call, previous, env).task;
              && t.id == env.freshId && t.createdAt == env.now && t.lastRun == None && t.lastResult == None && t.preset == None
              && t.summary == None && t.extensions.Keys == {POLICY_KEY}
  {}

  /** The task a save leads to, before the receipt; `first` is the one made from the arguments alone. */
  ghost predicate LeadsTo(previous: Option<Task>, args: SaveArgs, env: Env, first: Task, last: Task)
    requires env.app.Some? && (args.concurrency.Some? ==> 1 <= args.concurrency.value <= 64)
  {
    var enabled := if args.enabled.Some? then args.enabled.value else previous.Some? && previous.value.enabled;
    var switched := first.(enabled := enabled, state := if enabled then Active else Suspended,
                           suspendReason := if enabled then None else Some("disabled"));
    var kept := if previous.Some? then Inherit(switched, previous.value) else switched;
    && first == Fresh(if previous.Some? then previous.value.id else env.freshId, env.app.value, args, env.now)
    && last == kept.(inputs := if args.inputs.Some? then args.inputs.value else kept.inputs,
                     concurrency := if args.concurrency.Some? then args.concurrency.value else kept.concurrency)
  }

  /** A save is written exactly when a task saved over still is what the caller saw and is in the token's scope, the device
      resolves, the schedule is known, the concurrency is from 1 to 64 if given, the task is valid as it comes from the
      arguments and as it will be stored, the token may run it, or see it if it is disabled, and owns its entrypoint. */
  lemma SaveIff(previous: Option<Task>, call: Call, env: Env, first: Task, last: Task)
    requires (call.Create? && previous == None) || (call.Update? && previous.Some?)
    requires env.app.Some? && (call.args.concurrency.Some? ==> 1 <= call.args.concurrency.value <= 64) ==>
               LeadsTo(previous, call.args, env, first, last)
    ensures Compute(call, previous, env).Write? <==>
              && (previous.Some? ==> call.expectedUpdatedAt == previous.value.updatedAt && env.rules.scope(TargetOf(previous.value)))
              && env.app.Some? && env.rules.probe(call.args.schedule)
              && (call.args.concurrency.Some? ==> 1 <= call.args.concurrency.value <= 64)
              && env.rules.valid(first) && env.rules.valid(last)
              && (if last.enabled then env.rules.execute(TargetOf(last)) else env.rules.scope(TargetOf(last)))
              && env.rules.entry(TargetOf(last))
    ensures Compute(call, previous, env).Write? ==>
              Compute(call, previous, env).task == last.(extensions := last.extensions[POLICY_KEY := env.receipt])
  {}

  /** Saving over a task keeps its id, creation time, run history, preset, summary and other extensions. */
  lemma UpdateFrame(prior: Task, call: Call, env: Env)
    requires call.Update? && Compute(call, Some(prior), env).Write?
    ensures var t := Compute(call, Some(prior), env).task;
            && t.id == prior.id && t.createdAt == prior.createdAt && t.lastRun == prior.lastRun && t.lastResult == prior.lastResult
            && t.preset == prior.preset && t.summary == prior.summary
            && (forall k :: k != POLICY_KEY && k in prior.extensions ==> k in t.extensions && t.extensions[k] == prior.extensions[k])
            && (call.args.inputs == None ==> t.inputs == prior.inputs)
            && (call.args.concurrency == None ==> t.concurrency == prior.concurrency)
  {}

  /** Controlling a task never changes what it would execute. */
  lemma ControlFrame(prior: Task, call: Call, env: Env)
    requires call.Control? && Compute(call, Some(prior), env).Write?
    ensures var t := Compute(call, Some(prior), env).task;
            && TargetOf(t) == TargetOf(prior)
            && t == prior.(state := t.state, enabled := t.enabled, nextWakeup := t.nextWakeup, suspendReason := t.suspendReason,
                         updatedAt := t.updatedAt, extensions := t.extensions)
            && (t.enabled <==> call.action == Enable || call.action == Resume)
            && (t.enabled ==> prior.state != Cancelled && t.state == Active && Some(t.nextWakeup) == env.wakeup && t.suspendReason == None)
            && (!t.enabled ==> t.nextWakeup == None)
            && (t.state == Cancelled <==> call.action == Cancel) && (t.state == Suspended <==> call.action == Disable || call.action == Suspend)
            && t.suspendReason == (if t.state == Suspended then Some("disabled_by_external_agent") else None)
            && t.updatedAt == env.now
            && t.extensions == if t.enabled then prior.extensions[POLICY_KEY := env.receipt] else prior.extensions
  {}

  /** Controlling a task in scope is written exactly when: enabling or resuming one that was not cancelled, may be executed
      and has a next wakeup; suspending or disabling it; or cancelling it, with authority over its run. */
  lemma ControlIff(prior: Task, call: Call, env: Env)
    requires call.Control?
    ensures Compute(call, Some(prior), env).Write? <==>
              && env.rules.scope(TargetOf(prior)) && call.action != RunNow
              && (call.action == Enable || call.action == Resume ==>
                    prior.state != Cancelled && env.rules.execute(TargetOf(prior)) && env.wakeup.Some?)
              && (call.action == Cancel ==> env.rules.cancelRun(TargetOf(prior)))
    ensures Compute(call, Some(prior), env).NoWrite? <==>
              call.action == RunNow && env.rules.scope(TargetOf(prior)) && env.rules.execute(TargetOf(prior))
  {}

  /** Whatever is written enabled passed the execution authorisation for exactly the contents written, and carries the
      receipt of the token that wrote it; whatever is written at all was in the token's scope or executable by it. */
  lemma WrittenIsAuthorised(call: Call, snapshot: Option<Task>, env: Env)
    requires Compute(call, snapshot, env).Write?
    ensures var t := Compute(call, snapshot, env).task;
            && (t.enabled ==> env.rules.execute(TargetOf(t)) && POLICY_KEY in t.extensions && t.extensions[POLICY_KEY] == env.receipt)
            && (!t.enabled ==> env.rules.scope(TargetOf(t)))
            && (snapshot.Some? ==> t.id == snapshot.value.id && env.rules.scope(TargetOf(snapshot.value)))
  {}

  // ---- The interleaved protocol ----

  /** A call in progress: between reading and computing, or between computing and saving. */
  datatype Phase = Holding(call: Call, snapshot: Option<Task>) | Ready(call: Call, expected: Option<Task>, env: Env, task: Task)

  /** What happened to the store: a save by a call, or a write by another part of the server. */
  datatype Event = Saved(call: Call, expected: Option<Task>, env: Env, task: Task) | Foreign(id: string, value: Option<Task>)

  datatype State = State(store: map<string, Task>, phases: map<Client, Phase>, log: seq<Event>)

  datatype Step =
    | Begin(client: Client, call: Call)
    | DoCompute(client: Client, env: Env)
    | Save(client: Client, active: bool)
    | Elsewhere(id: string, value: Option<Task>)

  function Lookup(store: map<string, Task>, id: string): Option<Task> { if id in store then Some(store[id]) else None }

  function Put(store: map<string, Task>, id: string, value: Option<Task>): map<string, Task> {
    match value case Some(t) => store[id := t] case None => store - {id}
  }

  function SubjectOf(call: Call): Option<string> {
    match call
    case Create(_) => None
    case Retarget(id, _, _, _, _) => Some(id)
    case Update(id, _, _) => Some(id)
    case Control(id, _) => Some(id)
  }

  /** A step that is not enabled leaves the state as it is. */
  function Next(s: State, step: Step): State {
    match step
    case Begin(client, call) =>
      var snapshot := match SubjectOf(call) { case None => None case Some(id) => Lookup(s.store, id) };
      if client in s.phases then s else s.(phases := s.phases[client := Holding(call, snapshot)])
    case DoCompute(client, env) =>
      if client in s.phases && s.phases[client].Holding? then
        var p := s.phases[client];
        match Compute(p.call, p.snapshot, env)
        case Write(task) => s.(phases := s.phases[client := Ready(p.call, p.snapshot, env, task)])
        case _ => s.(phases := s.phases - {client})
      else s
    case Save(client, active) =>
      if client in s.phases && s.phases[client].Ready? then
        var p := s.phases[client];
        var done := s.(phases := s.phases - {client});
        if active && Lookup(s.store, p.task.id) == p.expected then
          done.(store := s.store[p.task.id := p.task], log := s.log + [Saved(p.call, p.expected, p.env, p.task)])
        else done
      else s
    case Elsewhere(id, value) =>
      if value.Some? && value.value.id != id then s
      else s.(store := Put(s.store, id, value), log := s.log + [Foreign(id, value)])
  }

  /** A call that reads, computes and saves with others in between: it is saved exactly if, when it saves, its token is still
      active and the stored task is the one it read; nothing else of the store changes. */
  lemma SavedIffUnchanged(s: State, client: Client, env: Env, active: bool, t: State)
    requires client in s.phases && s.phases[client].Holding?
    requires Compute(s.phases[client].call, s.phases[client].snapshot, env).Write?
    requires client in t.phases && t.phases[client] == Next(s, DoCompute(client, env)).phases[client]
    ensures var p := s.phases[client];
            var task := Compute(p.call, p.snapshot, env).task;
            var u := Next(t, Save(client, active));
            && client !in u.phases
            && u.store == (if active && Lookup(t.store, task.id) == p.snapshot then t.store[task.id := task] else t.store)
            && (u.log != t.log <==> active && Lookup(t.store, task.id) == p.snapshot)
  {}

  /** What a call reads is the task it is about as it is stored; a call that creates one reads nothing. */
  lemma BeginReads(s: State, client: Client, call: Call)
    requires client !in s.phases
    ensures var t := Next(s, Begin(client, call));
            && t.store == s.store && t.log == s.log && client in t.phases
            && t.phases[client] == Holding(call, if call.Create? || call.id !in s.store then None else Some(s.store[call.id]))
  {}

  /** A client makes one call at a time, and other parts of the server may write or remove any task at any time. */
  lemma OthersWrite(s: State, step: Step)
    ensures step.Begin? && step.client in s.phases ==> Next(s, step) == s
    ensures step.Elsewhere? && step.value == None ==>
              Next(s, step) == s.(store := s.store - {step.id}, log := s.log + [Foreign(step.id, None)])
    ensures step.Elsewhere? && step.value.Some? && step.value.value.id == step.id ==>
              Next(s, step) == s.(store := s.store[step.id := step.value.value], log := s.log + [Foreign(step.id, step.value)])
  {}

  /** Alone, a call that computes a write leaves exactly that task changed. */
  lemma UndisturbedCallSaves(s: State, client: Client, call: Call, env: Env)
    requires client !in s.phases
    requires var snapshot := if call.Create? then None else Lookup(s.store, call.id);
             Compute(call, snapshot, env).Write? && (call.Create? ==> env.freshId !in s.store)
             && (snapshot.Some? ==> snapshot.value.id == call.id)
    ensures var task := Compute(call, if call.Create? then None else Lookup(s.store, call.id), env).task;
            Next(Next(Next(s, Begin(client, call)), DoCompute(client, env)), Save(client, true)).store == s.store[task.id := task]
  {
    var begun := Next(s, Begin(client, call));
    BeginReads(s, client, call);
    WrittenIsAuthorised(call, begun.phases[client].snapshot, env);
    if call.Create? {
      SaveGives(None, call, env);
    }
    SavedIffUnchanged(begun, client, env, true, Next(begun, DoCompute(client, env)));
  }

  function RunSteps(s: State, steps: seq<Step>): State {
    if steps == [] then s else Next(RunSteps(s, steps[..|steps| - 1]), steps[|steps| - 1])
  }

  /** A run goes on from where it has come to. */
  lemma RunGoesOn(s: State, steps: seq<Step>, step: Step)
    ensures RunSteps(s, []) == s && RunSteps(s, steps + [step]) == Next(RunSteps(s, steps), step)
  {
    assert (steps + [step])[..|steps|] == steps;
  }

  function Apply(store: map<string, Task>, e: Event): map<string, Task> {
    match e case Saved(_, _, _, task) => store[task.id := task] case Foreign(id, value) => Put(store, id, value)
  }

  function Replay(store: map<string, Task>, log: seq<Event>): map<string, Task> {
    if log == [] then store else Apply(Replay(store, log[..|log| - 1]), log[|log| - 1])
  }

  /** The event at `i` was computed by its call from a value equal to the one it replaced. */
  ghost predicate Sound(initial: map<string, Task>, log: seq<Event>, i: nat)
    requires i < |log|
  {
    log[i].Saved? ==>
      && Compute(log[i].call, log[i].expected, log[i].env) == Write(log[i].task)
      && Lookup(Replay(initial, log[..i]), log[i].task.id) == log[i].expected
  }

  ghost predicate Inv(initial: map<string, Task>, s: State) {
    && s.store == Replay(initial, s.log)
    && (forall i :: 0 <= i < |s.log| ==> Sound(initial, s.log, i))
    && (forall c :: c in s.phases && s.phases[c].Ready? ==>
          Compute(s.phases[c].call, s.phases[c].expected, s.phases[c].env) == Write(s.phases[c].task))
  }

  lemma LogGrows(initial: map<string, Task>, log: seq<Event>, e: Event)
    requires forall i :: 0 <= i < |log| ==> Sound(initial, log, i)
    requires e.Saved? ==> Compute(e.call, e.expected, e.env) == Write(e.task)
                          && Lookup(Replay(initial, log), e.task.id) == e.expected
    ensures Replay(initial, log + [e]) == Apply(Replay(initial, log), e)
    ensures forall i :: 0 <= i < |log + [e]| ==> Sound(initial, log + [e], i)
  {
    var grown := log + [e];
    assert grown[..|log|] == log;
    forall i | 0 <= i < |grown|
      ensures Sound(initial, grown, i)
    {
      if i < |log| {
        assert grown[..i] == log[..i] && grown[i] == log[i];
        assert Sound(initial, log, i);
      }
    }
  }

  lemma NextKeeps(initial: map<string, Task>, s: State, step: Step)
    requires Inv(initial, s)
    ensures Inv(initial, Next(s, step))
  {
    match step
    case Begin(client, call) =>
    case DoCompute(client, env) =>
    case Save(client, active) =>
      if client in s.phases && s.phases[client].Ready? {
        var p := s.phases[client];
        if active && Lookup(s.store, p.task.id) == p.expected {
          LogGrows(initial, s.log, Saved(p.call, p.expected, p.env, p.task));
        }
      }
    case Elsewhere(id, value) =>
      if !(value.Some? && value.value.id != id) {
        LogGrows(initial, s.log, Foreign(id, value));
      }
  }

  lemma {:induction false} RunKeeps(initial: map<string, Task>, steps: seq<Step>)
    ensures Inv(initial, RunSteps(State(initial, map[], []), steps))
  {
    if steps != [] {
      RunKeeps(initial, steps[..|steps| - 1]);
      NextKeeps(initial, RunSteps(State(initial, map[], []), steps[..|steps| - 1]), steps[|steps| - 1]);
    }
  }

  /** In every interleaving: the store is what the logged writes make of the initial one, each save replaced a value
      equal to the one it was computed from, and each save that leaves a task enabled passed the execution
      authorisation for the saved contents. */
  lemma EverySaveIsSound(initial: map<string, Task>, steps: seq<Step>, i: nat)
    requires i < |RunSteps(State(initial, map[], []), steps).log|
    requires RunSteps(State(initial, map[], []), steps).log[i].Saved?
    ensures var s := RunSteps(State(initial, map[], []), steps);
            var e := s.log[i];
            && s.store == Replay(initial, s.log)
            && Lookup(Replay(initial, s.log[..i]), e.task.id) == e.expected
            && Compute(e.call, e.expected, e.env) == Write(e.task)
            && (e.task.enabled ==> e.env.rules.execute(TargetOf(e.task)))
  {
    RunKeeps(initial, steps);
    var s := RunSteps(State(initial, map[], []), steps);
    assert Sound(initial, s.log, i);
    WrittenIsAuthorised(s.log[i].call, s.log[i].expected, s.log[i].env);
  }
}
