/** The write paths of the host as threads over its three locks: who may write, when, and in which order
    the locks are taken. */
module HostLocks {
  import opened Bytes
  import opened MemoryTransaction

  datatype Mutex = LuaMutex | FrtkMutex | WriteMutex

  function Rank(m: Mutex): nat {
    match m case LuaMutex => 0 case FrtkMutex => 1 case WriteMutex => 2
  }

  /** Steps of the paths. `Gate` is the test of the lockdown flag and of the write environment; `Catalog` any
      catalog operation, revalidation included; `Finalise` the finaliser; `Begin`, `Work` and `End` an engine run, of a
      typed or of a raw request, `Work` being as many of its writes, one a step, as the outside decides; `Note` the
      store of the lockdown flag after an unverified rollback; `Poke` the single byte write. */
  datatype Instruction =
    | Lock(m: Mutex) | Unlock(m: Mutex) | Gate | Catalog | Finalise
    | Begin(typed: bool) | Work(typed: bool) | End(typed: bool) | Note | Poke

  datatype Program = Done | Then(first: Instruction, rest: Program)

  // ----- the paths

  /** Under the write lock: run the engine, note its status, release. */
  function EngineRun(typed: bool, more: Program): Program {
    var release := Then(Unlock(WriteMutex), more);
    var end := Then(End(typed), Then(Note, release));
    Then(Begin(typed), Then(Work(typed), end))
  }

  /** What a script does under the Lua lock. */
  datatype ScriptStep = WriteByte | TouchCatalog | Commit

  function ScriptProgram(step: ScriptStep, more: Program): Program {
    match step
    case WriteByte =>
      var poke := Then(Poke, Then(Unlock(WriteMutex), more));
      Then(Lock(WriteMutex), Then(Gate, poke))
    case TouchCatalog => Then(Lock(FrtkMutex), Then(Catalog, Then(Unlock(FrtkMutex), more)))
    case Commit =>
      var run := EngineRun(true, Then(Unlock(FrtkMutex), more));
      var submit := Then(Lock(WriteMutex), Then(Gate, run));
      Then(Lock(FrtkMutex), Then(Catalog, Then(Finalise, submit)))
  }

  function ScriptPrograms(steps: seq<ScriptStep>, more: Program): Program {
    if steps == [] then more else ScriptProgram(steps[0], ScriptPrograms(steps[1..], more))
  }

  /** What a host thread does: a typed transaction, a raw transaction, a catalog command, or a Lua run. */
  datatype Command = TypedTransaction | RawTransaction | CatalogCommand | LuaRun(steps: seq<ScriptStep>)

  function CommandProgram(command: Command, more: Program): Program {
    match command
    case TypedTransaction =>
      var run := EngineRun(true, Then(Unlock(FrtkMutex), more));
      var plan := Then(Gate, Then(Catalog, Then(Finalise, run)));
      Then(Lock(FrtkMutex), Then(Lock(WriteMutex), plan))
    case RawTransaction => Then(Lock(WriteMutex), Then(Gate, EngineRun(false, more)))
    case CatalogCommand => Then(Lock(FrtkMutex), Then(Catalog, Then(Unlock(FrtkMutex), more)))
    case LuaRun(steps) => Then(Lock(LuaMutex), ScriptPrograms(steps, Then(Unlock(LuaMutex), more)))
  }

  function ThreadProgram(commands: seq<Command>): Program {
    if commands == [] then Done else CommandProgram(commands[0], ThreadProgram(commands[1..]))
  }

  // ----- the system

  /** `gated`: the gate was passed under the write lock and no engine run ended since; `owes`: an engine status not
      yet noted; `checked`: the generation the last catalog step under the held catalog lock left, unless it refused;
      `finalised`: the generation the held finalised request was made under. */
  datatype Thread = Thread(
    rest: Program, held: seq<Mutex>, gated: bool, owes: Option<Status>, checked: Option<nat>, finalised: Option<nat>)

  /** What the log says of a step: the begin of a run, one of its writes, its end, or a byte write. */
  datatype Kind = Began | Wrote | Ended(status: Status) | ByteWrite

  datatype WriteEvent = WriteEvent(
    owner: nat, kind: Kind, holdsWrite: bool, lockedDown: bool, typed: bool, checked: Option<nat>,
    finalised: Option<nat>, generation: nat)

  datatype System = System(threads: seq<Thread>, lockedDown: bool, generation: nat, log: seq<WriteEvent>)

  /** What the outside decides at a step: a refusal, whether a run goes on writing, the engine's status, the
      generation a catalog step leaves. */
  datatype Choice = Choice(refuse: bool, more: bool, status: Status, generation: nat)

  predicate Held(s: System, m: Mutex) {
    exists i :: 0 <= i < |s.threads| && m in s.threads[i].held
  }

  /** An early return unlocks what is held: on to where the innermost lock is released. */
  function AfterRefusal(m: Mutex, p: Program): Program {
    match p
    case Done => Done
    case Then(first, rest) => if first == Unlock(m) then p else AfterRefusal(m, rest)
  }

  function Top(t: Thread): Mutex
    requires t.held != []
  {
    t.held[|t.held| - 1]
  }

  function Refused(t: Thread): Thread
    requires t.held != [] && t.rest.Then?
  {
    t.(rest := AfterRefusal(Top(t), t.rest.rest), gated := false)
  }

  function EventOf(s: System, i: nat, t: Thread, typed: bool, kind: Kind): WriteEvent {
    WriteEvent(i, kind, WriteMutex in t.held, s.lockedDown, typed, t.checked, t.finalised, s.generation)
  }

  function Logged(s: System, e: WriteEvent): System {
    s.(log := s.log + [e])
  }

  /** One step of thread `i`, if it is not waiting for a lock. */
  function StepThread(s: System, i: nat, t: Thread, c: Choice): Option<(Thread, System)> {
    if t.rest.Done? then None
    else
      var next := t.(rest := t.rest.rest);
      match t.rest.first
      case Lock(m) => if Held(s, m) then None else Some((next.(held := t.held + [m]), s))
      case Unlock(m) =>
        if t.held == [] then None
        else Some((next.(held := t.held[..|t.held| - 1],
                         gated := t.gated && m != WriteMutex,
                         checked := if m == FrtkMutex then None else t.checked,
                         finalised := if m == FrtkMutex then None else t.finalised), s))
      case Gate =>
        if t.held == [] then None
        else if s.lockedDown || c.refuse then Some((Refused(t), s))
        else Some((next.(gated := true), s))
      case Catalog =>
        if t.held == [] then None
        else
          var after := s.(generation := c.generation);
          Some((if c.refuse then Refused(t).(checked := None) else next.(checked := Some(c.generation)), after))
      case Finalise =>
        if t.held == [] then None
        else if c.refuse then Some((Refused(t), s))
        else Some((next.(finalised := Some(s.generation)), s))
      case Begin(typed) => Some((next, Logged(s, EventOf(s, i, t, typed, Began))))
      case Work(typed) => Some((if c.more then t else next, Logged(s, EventOf(s, i, t, typed, Wrote))))
      case End(typed) =>
        Some((next.(gated := false, owes := Some(c.status)), Logged(s, EventOf(s, i, t, typed, Ended(c.status)))))
      case Note =>
        Some((next.(owes := None), s.(lockedDown := s.lockedDown || t.owes == Some(RollbackUnverified))))
      case Poke => Some((next, Logged(s, EventOf(s, i, t, false, ByteWrite))))
  }

  function Advance(s: System, i: nat, c: Choice): Option<System>
    requires i < |s.threads|
  {
    var step := StepThread(s, i, s.threads[i], c);
    if step.None? then None else Some(step.value.1.(threads := s.threads[i := step.value.0]))
  }

  /** A schedule: which thread goes next, and what the outside decides. A waiting thread's turn passes. */
  function Run(s: System, schedule: seq<(nat, Choice)>): System {
    if schedule == [] then s
    else
      var before := Run(s, schedule[..|schedule| - 1]);
      var (i, c) := schedule[|schedule| - 1];
      if i >= |before.threads| || Advance(before, i, c).None? then before else Advance(before, i, c).value
  }

  /** A thread between two commands. */
  function Idle(rest: Program): Thread {
    Thread(rest, [], false, None, None, None)
  }

  function Starts(commands: seq<seq<Command>>, generation: nat): System {
    System(seq(|commands|, i requires 0 <= i < |commands| => Idle(ThreadProgram(commands[i]))), false, generation, [])
  }

  // ----- the discipline every path follows

  /** How far a typed request has come: nothing revalidated, revalidated, or finalised. */
  datatype Stage = Unplanned | Checked | Finalised

  predicate RanksBelow(held: seq<Mutex>, m: Mutex) {
    forall k :: 0 <= k < |held| ==> Rank(held[k]) < Rank(m)
  }

  /** The next step belongs to an engine run already begun. */
  predicate InRun(p: Program) {
    p.Then? && (p.first.Work? || p.first.End?)
  }

  /** Locks in rank order and released innermost first; writes only under the write lock and behind the gate, those of
      an engine run between its begin and its end and nothing else there; catalog steps only under the catalog lock
      and never after finalisation; finalisation only after a catalog step, and typed runs only after it; an engine
      status noted at once. */
  predicate Follows(held: seq<Mutex>, gated: bool, owes: bool, stage: Stage, p: Program)
    decreases p, 1
  {
    if p.Done? then held == [] && !owes
    else
      var rest := p.rest;
      match p.first
      case Lock(m) =>
        && !gated && !owes && RanksBelow(held, m) && !InRun(rest)
        && Follows(held + [m], gated, owes, stage, rest)
      case Unlock(m) =>
        && held != [] && held[|held| - 1] == m && !owes && !InRun(rest)
        && Follows(held[..|held| - 1], gated && m != WriteMutex, owes,
                   if m == FrtkMutex then Unplanned else stage, rest)
      case Gate =>
        && held != [] && held[|held| - 1] == WriteMutex && !owes && !InRun(rest)
        && Follows(held, true, owes, stage, rest)
        && RefusalFollows(held, stage, p)
      case Catalog =>
        && held != [] && FrtkMutex in held && !owes && stage != Finalised && !InRun(rest)
        && Follows(held, gated, owes, Checked, rest)
        && RefusalFollows(held, Unplanned, p)
      case Finalise =>
        && held != [] && FrtkMutex in held && !owes && stage == Checked && !InRun(rest)
        && Follows(held, gated, owes, Finalised, rest)
        && RefusalFollows(held, stage, p)
      case Begin(typed) =>
        gated && !owes && (typed ==> stage == Finalised) && InRun(rest) && Follows(held, gated, owes, stage, rest)
      case Work(typed) =>
        gated && !owes && (typed ==> stage == Finalised) && InRun(rest) && Follows(held, gated, owes, stage, rest)
      case End(typed) =>
        gated && !owes && (typed ==> stage == Finalised) && !InRun(rest) && Follows(held, false, true, stage, rest)
      case Note => owes && !InRun(rest) && Follows(held, gated, false, stage, rest)
      case Poke => gated && !owes && !InRun(rest) && Follows(held, gated, owes, stage, rest)
  }

  lemma {:induction false} ShorterAfterRefusal(m: Mutex, p: Program)
    ensures AfterRefusal(m, p) == p || AfterRefusal(m, p) < p
    ensures !InRun(AfterRefusal(m, p))
  {
    match p
    case Done =>
    case Then(first, rest) => ShorterAfterRefusal(m, rest);
  }

  /** The early return from `p` follows the discipline, too. */
  predicate RefusalFollows(held: seq<Mutex>, stage: Stage, p: Program)
    requires held != [] && p.Then?
    decreases p, 0
  {
    ShorterAfterRefusal(held[|held| - 1], p.rest);
    Follows(held, false, false, stage, AfterRefusal(held[|held| - 1], p.rest))
  }

  // ----- every path follows it

  lemma {:induction false} EngineRunFollows(held: seq<Mutex>, typed: bool, stage: Stage, more: Program)
    requires (typed ==> stage == Finalised) && !InRun(more)
    requires Follows(held, false, false, stage, more)
    ensures Follows(held + [WriteMutex], true, false, stage, EngineRun(typed, more))
    ensures Follows(held + [WriteMutex], false, false, stage, Then(Unlock(WriteMutex), more))
  {
    var inner, release := held + [WriteMutex], Then(Unlock(WriteMutex), more);
    assert inner[..|held|] == held && Follows(inner, false, false, stage, release);
    var end := Then(End(typed), Then(Note, release));
    assert Follows(inner, false, true, stage, Then(Note, release)) && Follows(inner, true, false, stage, end);
    assert Follows(inner, true, false, stage, Then(Work(typed), end));
  }

  /** Refused before a run begins, the path goes on where the run would have been over. */
  lemma {:induction false} RunSkipped(m: Mutex, typed: bool, after: Program)
    ensures AfterRefusal(m, Then(Begin(typed), Then(Work(typed), Then(End(typed), Then(Note, after))))) ==
      AfterRefusal(m, after)
  {
    var end := Then(End(typed), Then(Note, after));
    assert AfterRefusal(m, end) == AfterRefusal(m, Then(Note, after)) == AfterRefusal(m, after);
    assert AfterRefusal(m, Then(Work(typed), end)) == AfterRefusal(m, end);
  }

  lemma {:induction false} EngineRunSkipped(typed: bool, more: Program)
    ensures AfterRefusal(WriteMutex, EngineRun(typed, more)) == Then(Unlock(WriteMutex), more)
    ensures AfterRefusal(FrtkMutex, EngineRun(typed, Then(Unlock(FrtkMutex), more))) == Then(Unlock(FrtkMutex), more)
  {
    RunSkipped(WriteMutex, typed, Then(Unlock(WriteMutex), more));
    var both := Then(Unlock(WriteMutex), Then(Unlock(FrtkMutex), more));
    RunSkipped(FrtkMutex, typed, both);
    assert AfterRefusal(FrtkMutex, both) == Then(Unlock(FrtkMutex), more);
  }

  /** The stage a passed test leaves. */
  function After(first: Instruction, stage: Stage): Stage {
    if first.Catalog? then Checked else if first.Finalise? then Finalised else stage
  }

  /** A test that may refuse follows the discipline if going on and returning early both do. */
  lemma {:induction false} TestFollows(
    held: seq<Mutex>, gated: bool, stage: Stage, first: Instruction, rest: Program, release: Program)
    requires first.Gate? || first.Catalog? || first.Finalise?
    requires held != [] && !InRun(rest) && AfterRefusal(held[|held| - 1], rest) == release
    requires Follows(held, false, false, if first.Catalog? then Unplanned else stage, release)
    requires Follows(held, gated || first.Gate?, false, After(first, stage), rest)
    requires if first.Gate? then held[|held| - 1] == WriteMutex else FrtkMutex in held
    requires (first.Catalog? ==> stage != Finalised) && (first.Finalise? ==> stage == Checked)
    ensures Follows(held, gated, false, stage, Then(first, rest))
    ensures AfterRefusal(held[|held| - 1], Then(first, rest)) == release
  {
    assert RefusalFollows(held, if first.Catalog? then Unplanned else stage, Then(first, rest));
  }

  lemma {:induction false} LockFollows(held: seq<Mutex>, inner: seq<Mutex>, stage: Stage, m: Mutex, rest: Program)
    requires inner == held + [m] && RanksBelow(held, m) && !InRun(rest)
    requires Follows(inner, false, false, stage, rest)
    ensures Follows(held, false, false, stage, Then(Lock(m), rest))
  {
  }

  lemma {:induction false} ReleaseFollows(held: seq<Mutex>, inner: seq<Mutex>, stage: Stage, more: Program)
    requires inner == held + [FrtkMutex] && Follows(held, false, false, Unplanned, more) && !InRun(more)
    ensures Follows(inner, false, false, stage, Then(Unlock(FrtkMutex), more))
  {
    assert inner[..|inner| - 1] == held;
  }

  /** A catalog step under the catalog lock. */
  lemma {:induction false} CatalogFollows(held: seq<Mutex>, inner: seq<Mutex>, more: Program)
    requires inner == held + [FrtkMutex] && RanksBelow(held, FrtkMutex)
    requires Follows(held, false, false, Unplanned, more) && !InRun(more)
    ensures Follows(held, false, false, Unplanned,
                    Then(Lock(FrtkMutex), Then(Catalog, Then(Unlock(FrtkMutex), more))))
  {
    var release := Then(Unlock(FrtkMutex), more);
    ReleaseFollows(held, inner, Unplanned, more);
    ReleaseFollows(held, inner, Checked, more);
    TestFollows(inner, false, Unplanned, Catalog, release, release);
    LockFollows(held, inner, Unplanned, FrtkMutex, Then(Catalog, release));
  }

  lemma {:induction false} WriteByteFollows(more: Program)
    requires Follows([LuaMutex], false, false, Unplanned, more)
    ensures Follows([LuaMutex], false, false, Unplanned, ScriptProgram(WriteByte, more))
  {
    var inner := [LuaMutex, WriteMutex];
    assert inner[..1] == [LuaMutex] && [LuaMutex] + [WriteMutex] == inner;
    var release := Then(Unlock(WriteMutex), more);
    assert Follows(inner, false, false, Unplanned, release) && Follows(inner, true, false, Unplanned, release);
    assert Follows(inner, true, false, Unplanned, Then(Poke, release));
    assert AfterRefusal(WriteMutex, Then(Poke, release)) == release;
    assert Follows(inner, false, false, Unplanned, Then(Gate, Then(Poke, release)));
  }

  /** The gated run of a finalised request. */
  lemma {:induction false} SubmitFollows(held: seq<Mutex>, inner: seq<Mutex>, release: Program, run: Program)
    requires Follows(held, false, false, Finalised, release) && !InRun(release) && RanksBelow(held, WriteMutex)
    requires inner == held + [WriteMutex] && run == EngineRun(true, release)
    ensures Follows(held, false, false, Finalised, Then(Lock(WriteMutex), Then(Gate, run)))
  {
    EngineRunFollows(held, true, Finalised, release);
    EngineRunSkipped(true, release);
    TestFollows(inner, false, Finalised, Gate, run, Then(Unlock(WriteMutex), release));
    LockFollows(held, inner, Finalised, WriteMutex, Then(Gate, run));
  }

  lemma {:induction false} SubmitSkipped(more: Program)
    ensures var release := Then(Unlock(FrtkMutex), more);
      AfterRefusal(FrtkMutex, Then(Lock(WriteMutex), Then(Gate, EngineRun(true, release)))) == release
  {
    var release := Then(Unlock(FrtkMutex), more);
    EngineRunSkipped(true, more);
    assert AfterRefusal(FrtkMutex, Then(Gate, EngineRun(true, release))) == release;
  }

  lemma {:induction false} CommitFollows(more: Program)
    requires Follows([LuaMutex], false, false, Unplanned, more)
    ensures Follows([LuaMutex], false, false, Unplanned, ScriptProgram(Commit, more))
  {
    var lua := [LuaMutex];
    var frtk := lua + [FrtkMutex];
    var inner := frtk + [WriteMutex];
    var release := Then(Unlock(FrtkMutex), more);
    ReleaseFollows(lua, frtk, Finalised, more);
    ReleaseFollows(lua, frtk, Checked, more);
    ReleaseFollows(lua, frtk, Unplanned, more);
    var run := EngineRun(true, release);
    var submit := Then(Lock(WriteMutex), Then(Gate, run));
    SubmitFollows(frtk, inner, release, run);
    SubmitSkipped(more);
    TestFollows(frtk, false, Checked, Finalise, submit, release);
    TestFollows(frtk, false, Unplanned, Catalog, Then(Finalise, submit), release);
    LockFollows(lua, frtk, Unplanned, FrtkMutex, Then(Catalog, Then(Finalise, submit)));
  }

  lemma {:induction false} ScriptFollows(step: ScriptStep, more: Program)
    requires Follows([LuaMutex], false, false, Unplanned, more)
    ensures Follows([LuaMutex], false, false, Unplanned, ScriptProgram(step, more))
  {
    match step {
      case WriteByte => WriteByteFollows(more);
      case TouchCatalog =>
        CatalogFollows([LuaMutex], [LuaMutex] + [FrtkMutex], more);
      case Commit => CommitFollows(more);
    }
  }

  lemma {:induction false} ScriptsFollow(steps: seq<ScriptStep>, more: Program)
    requires Follows([LuaMutex], false, false, Unplanned, more)
    ensures Follows([LuaMutex], false, false, Unplanned, ScriptPrograms(steps, more))
  {
    if steps != [] {
      ScriptsFollow(steps[1..], more);
      ScriptFollows(steps[0], ScriptPrograms(steps[1..], more));
    }
  }

  /** The gate, the catalog and the finaliser, all under the write lock. */
  lemma {:induction false} PlanFollows(inner: seq<Mutex>, run: Program, unlock: Program)
    requires inner != [] && inner[|inner| - 1] == WriteMutex && FrtkMutex in inner && !InRun(run)
    requires Follows(inner, true, false, Finalised, run)
    requires Follows(inner, false, false, Checked, unlock) && Follows(inner, false, false, Unplanned, unlock)
    requires AfterRefusal(WriteMutex, run) == unlock
    ensures Follows(inner, false, false, Unplanned, Then(Gate, Then(Catalog, Then(Finalise, run))))
  {
    TestFollows(inner, true, Checked, Finalise, run, unlock);
    TestFollows(inner, true, Unplanned, Catalog, Then(Finalise, run), unlock);
    TestFollows(inner, false, Unplanned, Gate, Then(Catalog, Then(Finalise, run)), unlock);
  }

  lemma {:induction false} TypedUnderLock(held: seq<Mutex>, inner: seq<Mutex>, release: Program)
    requires Follows(held, false, false, Finalised, release) && Follows(held, false, false, Checked, release)
    requires Follows(held, false, false, Unplanned, release)
    requires !InRun(release) && FrtkMutex in held && RanksBelow(held, WriteMutex) && inner == held + [WriteMutex]
    ensures Follows(held, false, false, Unplanned,
                    Then(Lock(WriteMutex), Then(Gate, Then(Catalog, Then(Finalise, EngineRun(true, release))))))
  {
    EngineRunFollows(held, true, Finalised, release);
    EngineRunFollows(held, false, Checked, release);
    EngineRunFollows(held, false, Unplanned, release);
    EngineRunSkipped(true, release);
    var run := EngineRun(true, release);
    PlanFollows(inner, run, Then(Unlock(WriteMutex), release));
    LockFollows(held, inner, Unplanned, WriteMutex, Then(Gate, Then(Catalog, Then(Finalise, run))));
  }

  lemma {:induction false} TypedFollows(more: Program)
    requires Follows([], false, false, Unplanned, more)
    ensures Follows([], false, false, Unplanned, CommandProgram(TypedTransaction, more))
  {
    var frtk, release := [] + [FrtkMutex], Then(Unlock(FrtkMutex), more);
    ReleaseFollows([], frtk, Finalised, more);
    ReleaseFollows([], frtk, Checked, more);
    ReleaseFollows([], frtk, Unplanned, more);
    TypedUnderLock(frtk, frtk + [WriteMutex], release);
    var plan := Then(Gate, Then(Catalog, Then(Finalise, EngineRun(true, release))));
    LockFollows([], frtk, Unplanned, FrtkMutex, Then(Lock(WriteMutex), plan));
  }

  lemma {:induction false} RawFollows(more: Program)
    requires Follows([], false, false, Unplanned, more)
    ensures Follows([], false, false, Unplanned, CommandProgram(RawTransaction, more))
  {
    assert [] + [WriteMutex] == [WriteMutex];
    EngineRunFollows([], false, Unplanned, more);
    var run := EngineRun(false, more);
    EngineRunSkipped(false, more);
    TestFollows([WriteMutex], false, Unplanned, Gate, run, Then(Unlock(WriteMutex), more));
    LockFollows([], [WriteMutex], Unplanned, WriteMutex, Then(Gate, run));
  }

  lemma {:induction false} CommandFollows(command: Command, more: Program)
    requires Follows([], false, false, Unplanned, more)
    ensures Follows([], false, false, Unplanned, CommandProgram(command, more))
  {
    match command {
      case TypedTransaction =>
        TypedFollows(more);
      case RawTransaction =>
        RawFollows(more);
      case CatalogCommand =>
        CatalogFollows([], [] + [FrtkMutex], more);
      case LuaRun(steps) =>
        assert [LuaMutex][..0] == [] && [] + [LuaMutex] == [LuaMutex];
        assert Follows([LuaMutex], false, false, Unplanned, Then(Unlock(LuaMutex), more));
        ScriptsFollow(steps, Then(Unlock(LuaMutex), more));
    }
  }

  /** Every thread, whatever commands it carries out and whatever its scripts do, keeps the discipline. */
  lemma {:induction false} ThreadFollows(commands: seq<Command>)
    ensures Follows([], false, false, Unplanned, ThreadProgram(commands))
  {
    if commands != [] {
      ThreadFollows(commands[1..]);
      CommandFollows(commands[0], ThreadProgram(commands[1..]));
    }
  }

  // ----- what every reachable state keeps

  predicate Ranked(held: seq<Mutex>) {
    forall k, l :: 0 <= k < l < |held| ==> Rank(held[k]) < Rank(held[l])
  }

  function StageOf(t: Thread): Stage {
    if t.finalised.Some? then Finalised else if t.checked.Some? then Checked else Unplanned
  }

  predicate ThreadOk(t: Thread) {
    && Follows(t.held, t.gated, t.owes.Some?, StageOf(t), t.rest) && Ranked(t.held)
    && (t.gated || t.owes.Some? ==> WriteMutex in t.held) && (t.owes.Some? ==> !t.gated)
    && (t.finalised.Some? ==> t.checked.Some?) && (t.checked.Some? ==> FrtkMutex in t.held)
  }

  predicate AllOk(s: System) {
    forall i :: 0 <= i < |s.threads| ==> ThreadOk(s.threads[i])
  }

  /** A lock has one holder. */
  predicate Exclusive(s: System) {
    forall i, j, m :: 0 <= i < |s.threads| && 0 <= j < |s.threads| && i != j && m in s.threads[i].held ==>
      m !in s.threads[j].held
  }

  /** Who passed the gate sees no lockdown; who revalidated or finalised sees the generation it did so under. */
  predicate Agrees(s: System, t: Thread) {
    && (t.gated ==> !s.lockedDown)
    && (t.checked.Some? ==> t.checked.value == s.generation)
    && (t.finalised.Some? ==> t.finalised.value == s.generation)
  }

  predicate AllAgree(s: System) {
    forall i :: 0 <= i < |s.threads| ==> Agrees(s, s.threads[i])
  }

  predicate Unverified(e: WriteEvent) {
    e.kind == Ended(RollbackUnverified)
  }

  /** A run is under way after this event. */
  predicate Opens(e: WriteEvent) {
    e.kind.Began? || e.kind.Wrote?
  }

  /** `f` may follow `e`: while a run is under way, only its own next write or its end; those, only then. */
  predicate MayFollow(e: WriteEvent, f: WriteEvent) {
    && (Opens(e) ==> f.owner == e.owner)
    && (Opens(e) <==> f.kind.Wrote? || f.kind.Ended?)
  }

  /** A write under the write lock with lockdown clear, and, if typed, on the generation that its catalog step left and
      it was finalised under. */
  predicate Justified(e: WriteEvent) {
    e.holdsWrite && !e.lockedDown && (e.typed ==> e.checked == e.finalised == Some(e.generation))
  }

  /** Every write justified, none after an unverified rollback, and every run in one piece. */
  predicate SafeLog(log: seq<WriteEvent>) {
    && (forall k :: 0 <= k < |log| ==> Justified(log[k]))
    && (forall k :: 0 <= k < |log| - 1 ==> !Unverified(log[k]))
    && forall k :: 0 <= k < |log| - 1 ==> MayFollow(log[k], log[k + 1])
  }

  /** The thread in a run is the one the log says is. */
  predicate RunOpen(s: System) {
    && (forall i :: 0 <= i < |s.threads| && InRun(s.threads[i].rest) ==>
      s.log != [] && Opens(s.log[|s.log| - 1]) && s.log[|s.log| - 1].owner == i)
    && (s.log != [] && Opens(s.log[|s.log| - 1]) ==>
      var i := s.log[|s.log| - 1].owner;
      i < |s.threads| && InRun(s.threads[i].rest))
  }

  /** An unverified rollback has locked the session down, or its thread is about to. */
  predicate Shut(s: System) {
    s.log != [] && Unverified(s.log[|s.log| - 1]) ==>
      s.lockedDown || exists i :: 0 <= i < |s.threads| && s.threads[i].owes == Some(RollbackUnverified)
  }

  predicate Inv(s: System) {
    AllOk(s) && Exclusive(s) && AllAgree(s) && SafeLog(s.log) && Shut(s) && RunOpen(s)
  }

  lemma {:induction false} RefusedIsOk(t: Thread)
    requires ThreadOk(t) && t.rest.Then? && (t.rest.first.Gate? || t.rest.first.Catalog? || t.rest.first.Finalise?)
    ensures t.held != [] && ThreadOk(if t.rest.first.Catalog? then Refused(t).(checked := None) else Refused(t))
  {
    ShorterAfterRefusal(Top(t), t.rest.rest);
    var stage := if t.rest.first.Catalog? then Unplanned else StageOf(t);
    assert RefusalFollows(t.held, stage, t.rest);
    assert Follows(t.held, false, false, stage, AfterRefusal(Top(t), t.rest.rest));
  }

  lemma {:induction false} TestKeepsThread(s: System, i: nat, t: Thread, c: Choice)
    requires ThreadOk(t) && StepThread(s, i, t, c).Some?
    requires t.rest.first.Gate? || t.rest.first.Catalog? || t.rest.first.Finalise?
    ensures var after := StepThread(s, i, t, c).value.0; ThreadOk(after) && after.held == t.held
  {
    RefusedIsOk(t);
    assert Top(t) in t.held;
    assert Follows(t.held, t.gated || t.rest.first.Gate?, false, After(t.rest.first, StageOf(t)), t.rest.rest);
  }

  lemma {:induction false} LockKeepsThread(s: System, i: nat, t: Thread, c: Choice)
    requires ThreadOk(t) && StepThread(s, i, t, c).Some? && (t.rest.first.Lock? || t.rest.first.Unlock?)
    ensures var after := StepThread(s, i, t, c).value.0;
      ThreadOk(after) && forall m :: m in after.held ==> m in t.held || !Held(s, m)
  {
    if t.rest.first.Unlock? {
      var held := t.held[..|t.held| - 1];
      assert forall x :: x in t.held && x != t.rest.first.m ==> x in held;
    }
  }

  lemma {:induction false} StepKeepsThread(s: System, i: nat, t: Thread, c: Choice)
    requires ThreadOk(t) && StepThread(s, i, t, c).Some?
    ensures ThreadOk(StepThread(s, i, t, c).value.0)
    ensures var after := StepThread(s, i, t, c).value.0;
      forall m :: m in after.held ==> m in t.held || !Held(s, m)
  {
    if t.rest.first.Lock? || t.rest.first.Unlock? {
      LockKeepsThread(s, i, t, c);
    } else if t.rest.first.Gate? || t.rest.first.Catalog? || t.rest.first.Finalise? {
      TestKeepsThread(s, i, t, c);
    }
  }

  /** The stepping thread agrees with the state it leaves. */
  lemma {:induction false} StepAgrees(s: System, i: nat, t: Thread, c: Choice)
    requires ThreadOk(t) && Agrees(s, t) && StepThread(s, i, t, c).Some?
    ensures Agrees(StepThread(s, i, t, c).value.1, StepThread(s, i, t, c).value.0)
  {
  }

  /** Another thread still agrees: only the holder of the write lock locks the session down, only a holder of
      the catalog lock changes the generation. */
  lemma {:induction false} OthersAgree(s: System, i: nat, c: Choice, j: nat)
    requires Inv(s) && i < |s.threads| && j < |s.threads| && i != j && StepThread(s, i, s.threads[i], c).Some?
    ensures Agrees(StepThread(s, i, s.threads[i], c).value.1, s.threads[j])
  {
  }

  lemma {:induction false} StepKeepsExclusive(s: System, i: nat, c: Choice)
    requires Inv(s) && i < |s.threads| && Advance(s, i, c).Some?
    ensures Exclusive(Advance(s, i, c).value)
  {
    var after := Advance(s, i, c).value;
    StepKeepsThread(s, i, s.threads[i], c);
    forall x, y, m | 0 <= x < |after.threads| && 0 <= y < |after.threads| && x != y && m in after.threads[x].held
      ensures m !in after.threads[y].held
    {
      assert x == i || after.threads[x] == s.threads[x];
      assert y == i || after.threads[y] == s.threads[y];
    }
  }

  /** Whoever is behind the gate is the one in a run, if any is. */
  lemma {:induction false} OnlyRunner(s: System, i: nat)
    requires Inv(s) && i < |s.threads| && s.threads[i].gated
    ensures s.log != [] ==> (Opens(s.log[|s.log| - 1]) <==> InRun(s.threads[i].rest))
    ensures InRun(s.threads[i].rest) ==> s.log != [] && s.log[|s.log| - 1].owner == i
  {
    if s.log != [] && Opens(s.log[|s.log| - 1]) {
      var j := s.log[|s.log| - 1].owner;
      assert ThreadOk(s.threads[i]) && ThreadOk(s.threads[j]);
      assert WriteMutex in s.threads[i].held && WriteMutex in s.threads[j].held;
      assert i == j;
    }
  }

  /** The next step goes on the log. */
  predicate Logs(p: Program) {
    InRun(p) || (p.Then? && (p.first.Begin? || p.first.Poke?))
  }

  /** A write is justified, nothing unverified came before it, and it does not fall inside the run of another. */
  lemma {:induction false} WriteIsSafe(s: System, i: nat, typed: bool, kind: Kind)
    requires Inv(s) && i < |s.threads|
    requires s.threads[i].gated && s.threads[i].owes.None? && (typed ==> s.threads[i].finalised.Some?)
    requires InRun(s.threads[i].rest) <==> kind.Wrote? || kind.Ended?
    ensures SafeLog(Logged(s, EventOf(s, i, s.threads[i], typed, kind)).log)
  {
    var e := EventOf(s, i, s.threads[i], typed, kind);
    OnlyRunner(s, i);
    assert ThreadOk(s.threads[i]) && Agrees(s, s.threads[i]) && Justified(e);
    if s.log != [] {
      var last := s.log[|s.log| - 1];
      assert !Unverified(last) && MayFollow(last, e);
    }
  }

  lemma {:induction false} LoggingKeepsRun(s: System, i: nat, c: Choice)
    requires Inv(s) && i < |s.threads| && Advance(s, i, c).Some? && Logs(s.threads[i].rest)
    ensures RunOpen(Advance(s, i, c).value)
  {
    var t := s.threads[i];
    var after := Advance(s, i, c).value;
    assert ThreadOk(t) && WriteMutex in t.held;
    forall j | 0 <= j < |s.threads| && j != i
      ensures !InRun(after.threads[j].rest)
    {
      assert ThreadOk(s.threads[j]) && after.threads[j] == s.threads[j];
    }
    assert InRun(after.threads[i].rest) <==> Opens(after.log[|after.log| - 1]);
  }

  lemma {:induction false} QuietStep(s: System, i: nat, t: Thread, c: Choice)
    requires ThreadOk(t) && !Logs(t.rest) && StepThread(s, i, t, c).Some?
    ensures !InRun(t.rest) && !InRun(StepThread(s, i, t, c).value.0.rest)
    ensures StepThread(s, i, t, c).value.1.log == s.log
  {
    if t.held != [] {
      ShorterAfterRefusal(Top(t), t.rest.rest);
    }
  }

  lemma {:induction false} StepKeepsRun(s: System, i: nat, c: Choice)
    requires Inv(s) && i < |s.threads| && Advance(s, i, c).Some?
    ensures RunOpen(Advance(s, i, c).value)
  {
    if Logs(s.threads[i].rest) {
      LoggingKeepsRun(s, i, c);
    } else {
      assert ThreadOk(s.threads[i]);
      QuietStep(s, i, s.threads[i], c);
      var after := Advance(s, i, c).value;
      forall j | 0 <= j < |s.threads|
        ensures InRun(after.threads[j].rest) <==> InRun(s.threads[j].rest)
      {
      }
    }
  }

  /** A step that writes nothing leaves an unverified rollback noted or owed. */
  lemma {:induction false} ShutKept(s: System, i: nat, c: Choice)
    requires Inv(s) && i < |s.threads| && Advance(s, i, c).Some? && Advance(s, i, c).value.log == s.log
    requires !s.threads[i].rest.first.End?
    ensures Shut(Advance(s, i, c).value)
  {
    var after := Advance(s, i, c).value;
    if s.log != [] && Unverified(s.log[|s.log| - 1]) && !s.lockedDown {
      var j :| 0 <= j < |s.threads| && s.threads[j].owes == Some(RollbackUnverified);
      if !s.threads[i].rest.first.Note? {
        assert after.threads[j].owes == Some(RollbackUnverified);
      } else {
        assert ThreadOk(s.threads[i]) && ThreadOk(s.threads[j]);
        assert WriteMutex in s.threads[i].held && WriteMutex in s.threads[j].held;
        assert i == j;
      }
    }
  }

  lemma {:induction false} StepKeepsLog(s: System, i: nat, c: Choice)
    requires Inv(s) && i < |s.threads| && Advance(s, i, c).Some?
    ensures SafeLog(Advance(s, i, c).value.log) && Shut(Advance(s, i, c).value)
  {
    var t := s.threads[i];
    var after := Advance(s, i, c).value;
    assert ThreadOk(t);
    match t.rest.first {
      case Begin(typed) =>
        WriteIsSafe(s, i, typed, Began);
      case Work(typed) =>
        WriteIsSafe(s, i, typed, Wrote);
      case End(typed) =>
        WriteIsSafe(s, i, typed, Ended(c.status));
        if c.status == RollbackUnverified {
          assert after.threads[i].owes == Some(RollbackUnverified);
        }
      case Poke =>
        WriteIsSafe(s, i, false, ByteWrite);
      case _ =>
        ShutKept(s, i, c);
    }
  }

  lemma {:induction false} StepKeepsInv(s: System, i: nat, c: Choice)
    requires Inv(s) && i < |s.threads| && Advance(s, i, c).Some?
    ensures Inv(Advance(s, i, c).value)
  {
    var after := Advance(s, i, c).value;
    StepKeepsThread(s, i, s.threads[i], c);
    StepAgrees(s, i, s.threads[i], c);
    forall j | 0 <= j < |after.threads|
      ensures ThreadOk(after.threads[j]) && Agrees(after, after.threads[j])
    {
      if j != i {
        OthersAgree(s, i, c, j);
      }
    }
    StepKeepsExclusive(s, i, c);
    StepKeepsLog(s, i, c);
    StepKeepsRun(s, i, c);
  }

  /** Over every schedule of any threads carrying out any commands: every engine or byte write happens under the
      write lock with lockdown clear, a typed one on the generation its catalog step left and it was finalised under,
      none follows an unverified rollback, and no other thread's write falls inside a run. */
  lemma {:induction false} EveryRunIsSafe(commands: seq<seq<Command>>, generation: nat, schedule: seq<(nat, Choice)>)
    ensures Inv(Run(Starts(commands, generation), schedule))
    ensures SafeLog(Run(Starts(commands, generation), schedule).log)
  {
    var start := Starts(commands, generation);
    if schedule == [] {
      forall i | 0 <= i < |commands|
        ensures ThreadOk(start.threads[i])
      {
        ThreadFollows(commands[i]);
      }
    } else {
      EveryRunIsSafe(commands, generation, schedule[..|schedule| - 1]);
      var before := Run(start, schedule[..|schedule| - 1]);
      var (i, c) := schedule[|schedule| - 1];
      if i < |before.threads| && Advance(before, i, c).Some? {
        StepKeepsInv(before, i, c);
      }
    }
  }

  // ----- no deadlock

  ghost predicate Blocked(s: System, i: nat)
    requires i < |s.threads|
  {
    forall c :: Advance(s, i, c).None?
  }

  lemma {:induction false} BlockedWaits(s: System, i: nat)
    requires Inv(s) && i < |s.threads| && s.threads[i].rest.Then? && Blocked(s, i)
    ensures s.threads[i].rest.first.Lock? && Held(s, s.threads[i].rest.first.m)
    ensures RanksBelow(s.threads[i].held, s.threads[i].rest.first.m)
  {
    assert ThreadOk(s.threads[i]);
    var c := Choice(false, false, Rejected, 0);
    assert Advance(s, i, c).None?;
  }

  /** Some unfinished thread can always go on: waiting only ever points to a higher lock. */
  lemma {:induction false} SomeThreadAdvances(s: System, i: nat) returns (j: nat)
    requires Inv(s) && i < |s.threads| && s.threads[i].rest.Then?
    ensures j < |s.threads| && s.threads[j].rest.Then? && !Blocked(s, j)
    decreases if Blocked(s, i) && s.threads[i].rest.first.Lock? then 3 - Rank(s.threads[i].rest.first.m) else 0
  {
    if !Blocked(s, i) {
      j := i;
    } else {
      BlockedWaits(s, i);
      var m := s.threads[i].rest.first.m;
      var k :| 0 <= k < |s.threads| && m in s.threads[k].held;
      assert ThreadOk(s.threads[k]);
      if Blocked(s, k) {
        BlockedWaits(s, k);
      }
      j := SomeThreadAdvances(s, k);
    }
  }

  lemma {:induction false} ThreadsStay(s: System, schedule: seq<(nat, Choice)>)
    ensures |Run(s, schedule).threads| == |s.threads|
  {
    if schedule != [] {
      ThreadsStay(s, schedule[..|schedule| - 1]);
      var before := Run(s, schedule[..|schedule| - 1]);
      var (i, c) := schedule[|schedule| - 1];
      assert Run(s, schedule) == before || |Run(s, schedule).threads| == |before.threads|;
    }
  }

  /** No reachable state is a deadlock. */
  lemma {:induction false} NoDeadlock(
    commands: seq<seq<Command>>, generation: nat, schedule: seq<(nat, Choice)>, i: nat)
    requires i < |commands|
    ensures var s := Run(Starts(commands, generation), schedule);
      && |s.threads| == |commands|
      && (s.threads[i].rest.Then? ==> exists j: nat :: j < |s.threads| && s.threads[j].rest.Then? && !Blocked(s, j))
  {
    var s := Run(Starts(commands, generation), schedule);
    EveryRunIsSafe(commands, generation, schedule);
    ThreadsStay(Starts(commands, generation), schedule);
    if s.threads[i].rest.Then? {
      var j := SomeThreadAdvances(s, i);
    }
  }

  // ----- what a thread does while the others hold no lock

  /** Thread `i` takes its turn if it is not waiting. */
  function Turned(s: System, i: nat, outside: Instruction -> Choice): System {
    if i >= |s.threads| || s.threads[i].rest.Done? then s
    else
      var after := Advance(s, i, outside(s.threads[i].rest.first));
      if after.None? then s else after.value
  }

  function Repeat<S>(step: S -> S, s: S, times: nat): S {
    if times == 0 then s else step(Repeat(step, s, times - 1))
  }

  lemma {:induction false} RepeatAdds<S>(step: S -> S, s: S, first: nat, second: nat)
    ensures Repeat(step, s, first + second) == Repeat(step, Repeat(step, s, first), second)
  {
    if second > 0 {
      RepeatAdds(step, s, first, second - 1);
      assert first + second - 1 == first + (second - 1);
    }
  }

  /** Thread `i` alone takes some turns; what the outside decides depends on the instruction. */
  function Alone(s: System, i: nat, outside: Instruction -> Choice, turns: nat): System {
    Repeat((before: System) => Turned(before, i, outside), s, turns)
  }

  /** Such turns are one of the schedules. */
  lemma {:induction false} AloneIsARun(s: System, i: nat, outside: Instruction -> Choice, turns: nat)
    returns (schedule: seq<(nat, Choice)>)
    ensures Run(s, schedule) == Alone(s, i, outside, turns)
  {
    if turns == 0 {
      schedule := [];
    } else {
      var start := AloneIsARun(s, i, outside, turns - 1);
      var before := Alone(s, i, outside, turns - 1);
      if i >= |before.threads| || before.threads[i].rest.Done? {
        schedule := start;
      } else {
        schedule := start + [(i, outside(before.threads[i].rest.first))];
        assert schedule[..|schedule| - 1] == start;
      }
    }
  }

  lemma {:induction false} TurnsAdd(s: System, i: nat, outside: Instruction -> Choice, first: nat, second: nat)
    ensures Alone(s, i, outside, first + second) == Alone(Alone(s, i, outside, first), i, outside, second)
  {
    RepeatAdds((before: System) => Turned(before, i, outside), s, first, second);
  }

  function With(s: System, i: nat, t: Thread): System
    requires i < |s.threads|
  {
    s.(threads := s.threads[i := t])
  }

  predicate OthersFree(s: System, i: nat) {
    forall j :: 0 <= j < |s.threads| && j != i ==> s.threads[j].held == []
  }

  lemma {:induction false} Turn(s: System, i: nat, t: Thread, outside: Instruction -> Choice)
    requires i < |s.threads| && t.rest.Then? && !t.rest.first.Lock?
    requires StepThread(s, i, t, outside(t.rest.first)).Some?
    ensures var (u, after) := StepThread(s, i, t, outside(t.rest.first)).value;
      after.threads == s.threads && Alone(With(s, i, t), i, outside, 1) == With(after, i, u)
  {
    var (u, after) := StepThread(s, i, t, outside(t.rest.first)).value;
    var here := With(s, i, t);
    assert Alone(here, i, outside, 0) == here;
    assert here.threads[i := u] == s.threads[i := u];
  }

  lemma {:induction false} LockTurn(s: System, i: nat, t: Thread, outside: Instruction -> Choice)
    requires i < |s.threads| && OthersFree(s, i) && t.rest.Then? && t.rest.first.Lock? && t.rest.first.m !in t.held
    ensures Alone(With(s, i, t), i, outside, 1) ==
      With(s, i, t.(rest := t.rest.rest, held := t.held + [t.rest.first.m]))
  {
    var here, u := With(s, i, t), t.(rest := t.rest.rest, held := t.held + [t.rest.first.m]);
    assert !Held(here, t.rest.first.m) && Alone(here, i, outside, 0) == here;
    assert here.threads[i := u] == s.threads[i := u];
  }

  lemma {:induction false} UnlockTurn(
    s: System, i: nat, t: Thread, held: seq<Mutex>, m: Mutex, outside: Instruction -> Choice)
    requires i < |s.threads| && t.rest.Then? && t.rest.first == Unlock(m) && t.held == held + [m]
    ensures Alone(With(s, i, t), i, outside, 1) ==
      With(s, i, t.(rest := t.rest.rest, held := held, gated := t.gated && m != WriteMutex,
                    checked := if m == FrtkMutex then None else t.checked,
                    finalised := if m == FrtkMutex then None else t.finalised))
  {
    assert t.held[..|t.held| - 1] == held;
    Turn(s, i, t, outside);
  }

  /** What a run of one write leaves on the log. */
  function RunLog(i: nat, typed: bool, plan: Option<nat>, generation: nat, status: Status): seq<WriteEvent> {
    [WriteEvent(i, Began, true, false, typed, plan, plan, generation),
     WriteEvent(i, Wrote, true, false, typed, plan, plan, generation),
     WriteEvent(i, Ended(status), true, false, typed, plan, plan, generation)]
  }

  lemma {:induction false} RunWrites(
    s: System, i: nat, t: Thread, typed: bool, after: Program, outside: Instruction -> Choice)
    requires i < |s.threads| && WriteMutex in t.held && !s.lockedDown && !outside(Work(typed)).more
    requires t.rest == Then(Begin(typed), Then(Work(typed), Then(End(typed), after))) && t.finalised == t.checked
    ensures var status := outside(End(typed)).status;
      Alone(With(s, i, t), i, outside, 3) ==
      With(s.(log := s.log + RunLog(i, typed, t.checked, s.generation, status)),
           i, t.(rest := after, gated := false, owes := Some(status)))
  {
    var status := outside(End(typed)).status;
    var e := RunLog(i, typed, t.checked, s.generation, status);
    var here := With(s, i, t);
    var s1, t1 := Logged(s, e[0]), t.(rest := t.rest.rest);
    Turn(s, i, t, outside);
    var s2, t2 := Logged(s1, e[1]), t.(rest := t1.rest.rest);
    TurnsAdd(here, i, outside, 1, 1);
    Turn(s1, i, t1, outside);
    TurnsAdd(here, i, outside, 2, 1);
    Turn(s2, i, t2, outside);
    assert s.log + [e[0]] + [e[1]] + [e[2]] == s.log + e;
  }

  /** A run that begins writes, ends, is noted and lets go of the write lock. */
  lemma {:induction false} RunAlone(
    s: System, i: nat, t: Thread, held: seq<Mutex>, typed: bool, more: Program, outside: Instruction -> Choice)
    requires i < |s.threads| && !s.lockedDown && !outside(Work(typed)).more
    requires t == Thread(EngineRun(typed, more), held + [WriteMutex], true, None, t.checked, t.checked)
    ensures var status := outside(End(typed)).status;
      Alone(With(s, i, t), i, outside, 5) ==
      With(s.(lockedDown := status == RollbackUnverified,
              log := s.log + RunLog(i, typed, t.checked, s.generation, status)),
           i, Thread(more, held, false, None, t.checked, t.checked))
  {
    var status := outside(End(typed)).status;
    var release := Then(Unlock(WriteMutex), more);
    var here := With(s, i, t);
    RunWrites(s, i, t, typed, Then(Note, release), outside);
    var s3 := s.(log := s.log + RunLog(i, typed, t.checked, s.generation, status));
    TurnsAdd(here, i, outside, 3, 1);
    Turn(s3, i, t.(rest := Then(Note, release), gated := false, owes := Some(status)), outside);
    var s4 := s3.(lockedDown := status == RollbackUnverified);
    TurnsAdd(here, i, outside, 4, 1);
    UnlockTurn(s4, i, t.(rest := release, gated := false), held, WriteMutex, outside);
  }

  /** The state a run that passed every test leaves. */
  function Ran(s: System, i: nat, typed: bool, plan: Option<nat>, status: Status): System {
    s.(lockedDown := status == RollbackUnverified, log := s.log + RunLog(i, typed, plan, s.generation, status))
  }

  /** Refused under both locks, a path lets go of both. */
  lemma {:induction false} BackOut(s: System, i: nat, t: Thread, held: seq<Mutex>, more: Program,
                                   outside: Instruction -> Choice)
    requires i < |s.threads| && t.held == held + [FrtkMutex] + [WriteMutex]
    requires t.rest == Then(Unlock(WriteMutex), Then(Unlock(FrtkMutex), more)) && !t.gated && t.owes.None?
    ensures Alone(With(s, i, t), i, outside, 2) == With(s, i, Thread(more, held, false, None, None, None))
  {
    UnlockTurn(s, i, t, held + [FrtkMutex], WriteMutex, outside);
    TurnsAdd(With(s, i, t), i, outside, 1, 1);
    UnlockTurn(s, i, t.(rest := t.rest.rest, held := held + [FrtkMutex]), held, FrtkMutex, outside);
  }

  /** The run of a finalised request, and the release of both locks. */
  lemma {:induction false} SubmitAlone(s: System, i: nat, t: Thread, held: seq<Mutex>, more: Program,
                                       outside: Instruction -> Choice)
    requires i < |s.threads| && !s.lockedDown && !outside(Work(true)).more
    requires t == Thread(EngineRun(true, Then(Unlock(FrtkMutex), more)), held + [FrtkMutex] + [WriteMutex], true, None,
                         t.checked, t.checked)
    ensures Alone(With(s, i, t), i, outside, 6) ==
      With(Ran(s, i, true, t.checked, outside(End(true)).status), i, Thread(more, held, false, None, None, None))
  {
    var release := Then(Unlock(FrtkMutex), more);
    RunAlone(s, i, t, held + [FrtkMutex], true, release, outside);
    TurnsAdd(With(s, i, t), i, outside, 5, 1);
    UnlockTurn(Ran(s, i, true, t.checked, outside(End(true)).status), i,
               Thread(release, held + [FrtkMutex], false, None, t.checked, t.checked), held, FrtkMutex, outside);
  }

  predicate Closed(s: System, outside: Instruction -> Choice) {
    s.lockedDown || outside(Gate).refuse
  }

  /** What a typed transaction or a commit leaves: revalidated and finalised, it runs; refused anywhere, it writes
      nothing. */
  function Submitted(s: System, i: nat, outside: Instruction -> Choice): System {
    if Closed(s, outside) || outside(Catalog).refuse || outside(Finalise).refuse then s
    else Ran(s, i, true, Some(s.generation), outside(End(true)).status)
  }

  lemma {:induction false} TypedGated(s: System, i: nat, t: Thread, more: Program, outside: Instruction -> Choice)
    returns (turns: nat)
    requires i < |s.threads| && !Closed(s, outside) && !outside(Work(true)).more
    requires var run := EngineRun(true, Then(Unlock(FrtkMutex), more));
      t == Thread(Then(Catalog, Then(Finalise, run)), [] + [FrtkMutex] + [WriteMutex], true, None, None, None)
    ensures Alone(With(s, i, t), i, outside, turns) ==
      With(Submitted(s.(generation := outside(Catalog).generation), i, outside), i, Idle(more))
  {
    var release := Then(Unlock(FrtkMutex), more);
    var run := EngineRun(true, release);
    var back := Then(Unlock(WriteMutex), release);
    var s1 := s.(generation := outside(Catalog).generation);
    EngineRunSkipped(true, release);
    assert AfterRefusal(WriteMutex, Then(Finalise, run)) == back;
    Turn(s, i, t, outside);
    if outside(Catalog).refuse {
      BackOut(s1, i, t.(rest := back, gated := false), [], more, outside);
      TurnsAdd(With(s, i, t), i, outside, 1, 2);
      turns := 3;
    } else {
      var t1 := t.(rest := Then(Finalise, run), checked := Some(s1.generation));
      Turn(s1, i, t1, outside);
      TurnsAdd(With(s, i, t), i, outside, 1, 1);
      if outside(Finalise).refuse {
        BackOut(s1, i, t1.(rest := back, gated := false), [], more, outside);
        TurnsAdd(With(s, i, t), i, outside, 2, 2);
        turns := 4;
      } else {
        SubmitAlone(s1, i, t1.(rest := run, finalised := t1.checked), [], more, outside);
        TurnsAdd(With(s, i, t), i, outside, 2, 6);
        turns := 8;
      }
    }
  }

  /** A typed transaction: behind a closed gate nothing happens; else the catalog is revalidated, and the run follows
      on the generation that leaves unless something refuses. */
  lemma {:induction false} TypedAlone(s: System, i: nat, more: Program, outside: Instruction -> Choice)
    returns (turns: nat)
    requires i < |s.threads| && OthersFree(s, i) && !outside(Work(true)).more
    ensures Alone(With(s, i, Idle(CommandProgram(TypedTransaction, more))), i, outside, turns) ==
      With(if Closed(s, outside) then s else Submitted(s.(generation := outside(Catalog).generation), i, outside),
           i, Idle(more))
  {
    var release := Then(Unlock(FrtkMutex), more);
    var run := EngineRun(true, release);
    var plan := Then(Catalog, Then(Finalise, run));
    var t := Idle(CommandProgram(TypedTransaction, more));
    var here := With(s, i, t);
    LockTurn(s, i, t, outside);
    var t1 := t.(rest := Then(Lock(WriteMutex), Then(Gate, plan)), held := [] + [FrtkMutex]);
    LockTurn(s, i, t1, outside);
    TurnsAdd(here, i, outside, 1, 1);
    var t2 := t1.(rest := Then(Gate, plan), held := [] + [FrtkMutex] + [WriteMutex]);
    Turn(s, i, t2, outside);
    TurnsAdd(here, i, outside, 2, 1);
    if Closed(s, outside) {
      EngineRunSkipped(true, release);
      assert AfterRefusal(WriteMutex, Then(Finalise, run)) == AfterRefusal(WriteMutex, run);
      assert AfterRefusal(WriteMutex, plan) == Then(Unlock(WriteMutex), release);
      BackOut(s, i, t2.(rest := Then(Unlock(WriteMutex), release)), [], more, outside);
      TurnsAdd(here, i, outside, 3, 2);
      turns := 5;
    } else {
      var n := TypedGated(s, i, t2.(rest := plan, gated := true), more, outside);
      TurnsAdd(here, i, outside, 3, n);
      turns := 3 + n;
    }
  }

  /** A raw transaction runs if the gate lets it. */
  lemma {:induction false} RawAlone(s: System, i: nat, more: Program, outside: Instruction -> Choice)
    returns (turns: nat)
    requires i < |s.threads| && OthersFree(s, i) && !outside(Work(false)).more
    ensures Alone(With(s, i, Idle(CommandProgram(RawTransaction, more))), i, outside, turns) ==
      With(if Closed(s, outside) then s else Ran(s, i, false, None, outside(End(false)).status), i, Idle(more))
  {
    var run := EngineRun(false, more);
    var t := Idle(CommandProgram(RawTransaction, more));
    var here := With(s, i, t);
    LockTurn(s, i, t, outside);
    var t1 := t.(rest := Then(Gate, run), held := [] + [WriteMutex]);
    Turn(s, i, t1, outside);
    TurnsAdd(here, i, outside, 1, 1);
    if Closed(s, outside) {
      EngineRunSkipped(false, more);
      UnlockTurn(s, i, t1.(rest := Then(Unlock(WriteMutex), more)), [], WriteMutex, outside);
      TurnsAdd(here, i, outside, 2, 1);
      turns := 3;
    } else {
      RunAlone(s, i, t1.(rest := run, gated := true), [], false, more, outside);
      TurnsAdd(here, i, outside, 2, 5);
      turns := 7;
    }
  }

  /** A catalog step under the catalog lock leaves the generation it decides, refused or not. */
  lemma {:induction false} CatalogAlone(s: System, i: nat, held: seq<Mutex>, more: Program,
                                        outside: Instruction -> Choice)
    requires i < |s.threads| && OthersFree(s, i) && FrtkMutex !in held
    ensures var path := Then(Lock(FrtkMutex), Then(Catalog, Then(Unlock(FrtkMutex), more)));
      Alone(With(s, i, Thread(path, held, false, None, None, None)), i, outside, 3) ==
      With(s.(generation := outside(Catalog).generation), i, Thread(more, held, false, None, None, None))
  {
    var release := Then(Unlock(FrtkMutex), more);
    var t := Thread(Then(Lock(FrtkMutex), Then(Catalog, release)), held, false, None, None, None);
    var here := With(s, i, t);
    LockTurn(s, i, t, outside);
    var t1 := t.(rest := Then(Catalog, release), held := held + [FrtkMutex]);
    Turn(s, i, t1, outside);
    TurnsAdd(here, i, outside, 1, 1);
    var c := outside(Catalog);
    var t2 := t1.(rest := release, checked := if c.refuse then None else Some(c.generation));
    UnlockTurn(s.(generation := c.generation), i, t2, held, FrtkMutex, outside);
    TurnsAdd(here, i, outside, 2, 1);
  }

  /** A thread inside a Lua run. */
  function InScript(rest: Program): Thread {
    Thread(rest, [LuaMutex], false, None, None, None)
  }

  /** What a script step leaves. */
  function Stepped(s: System, i: nat, step: ScriptStep, outside: Instruction -> Choice): System {
    match step
    case WriteByte =>
      if Closed(s, outside) then s
      else s.(log := s.log + [WriteEvent(i, ByteWrite, true, false, false, None, None, s.generation)])
    case TouchCatalog => s.(generation := outside(Catalog).generation)
    case Commit => Submitted(s.(generation := outside(Catalog).generation), i, outside)
  }

  lemma {:induction false} WriteByteAlone(s: System, i: nat, more: Program, outside: Instruction -> Choice)
    returns (turns: nat)
    requires i < |s.threads| && OthersFree(s, i)
    ensures Alone(With(s, i, InScript(ScriptProgram(WriteByte, more))), i, outside, turns) ==
      With(Stepped(s, i, WriteByte, outside), i, InScript(more))
  {
    var release := Then(Unlock(WriteMutex), more);
    var t := InScript(ScriptProgram(WriteByte, more));
    var here := With(s, i, t);
    LockTurn(s, i, t, outside);
    var t1 := t.(rest := Then(Gate, Then(Poke, release)), held := [LuaMutex] + [WriteMutex]);
    Turn(s, i, t1, outside);
    TurnsAdd(here, i, outside, 1, 1);
    if Closed(s, outside) {
      assert AfterRefusal(WriteMutex, Then(Poke, release)) == release;
      UnlockTurn(s, i, t1.(rest := release), [LuaMutex], WriteMutex, outside);
      TurnsAdd(here, i, outside, 2, 1);
      turns := 3;
    } else {
      var t2 := t1.(rest := Then(Poke, release), gated := true);
      Turn(s, i, t2, outside);
      TurnsAdd(here, i, outside, 2, 1);
      UnlockTurn(Stepped(s, i, WriteByte, outside), i, t2.(rest := release), [LuaMutex], WriteMutex, outside);
      TurnsAdd(here, i, outside, 3, 1);
      turns := 4;
    }
  }

  /** From the finalised request on: the write lock, the gate, the run. */
  lemma {:induction false} GateAndSubmit(s: System, i: nat, t: Thread, held: seq<Mutex>, more: Program,
                                         outside: Instruction -> Choice)
    returns (turns: nat)
    requires i < |s.threads| && OthersFree(s, i) && WriteMutex !in held && !outside(Work(true)).more
    requires !outside(Catalog).refuse && !outside(Finalise).refuse
    requires var run := EngineRun(true, Then(Unlock(FrtkMutex), more));
      var checked := Some(s.generation);
      t == Thread(Then(Lock(WriteMutex), Then(Gate, run)), held + [FrtkMutex], false, None, checked, checked)
    ensures Alone(With(s, i, t), i, outside, turns) ==
      With(Submitted(s, i, outside), i, Thread(more, held, false, None, None, None))
  {
    var release := Then(Unlock(FrtkMutex), more);
    var run := EngineRun(true, release);
    LockTurn(s, i, t, outside);
    var t1 := t.(rest := Then(Gate, run), held := held + [FrtkMutex] + [WriteMutex]);
    Turn(s, i, t1, outside);
    TurnsAdd(With(s, i, t), i, outside, 1, 1);
    if Closed(s, outside) {
      EngineRunSkipped(true, release);
      BackOut(s, i, t1.(rest := Then(Unlock(WriteMutex), release)), held, more, outside);
      TurnsAdd(With(s, i, t), i, outside, 2, 2);
      turns := 4;
    } else {
      SubmitAlone(s, i, t1.(rest := run, gated := true), held, more, outside);
      TurnsAdd(With(s, i, t), i, outside, 2, 6);
      turns := 8;
    }
  }

  /** From the revalidated catalog on. */
  lemma {:induction false} PlanAndSubmit(s: System, i: nat, t: Thread, held: seq<Mutex>, more: Program,
                                         outside: Instruction -> Choice)
    returns (turns: nat)
    requires i < |s.threads| && OthersFree(s, i) && WriteMutex !in held && !outside(Work(true)).more
    requires !outside(Catalog).refuse
    requires var submit := Then(Lock(WriteMutex), Then(Gate, EngineRun(true, Then(Unlock(FrtkMutex), more))));
      t == Thread(Then(Finalise, submit), held + [FrtkMutex], false, None, Some(s.generation), None)
    ensures Alone(With(s, i, t), i, outside, turns) ==
      With(Submitted(s, i, outside), i, Thread(more, held, false, None, None, None))
  {
    var release := Then(Unlock(FrtkMutex), more);
    var submit := Then(Lock(WriteMutex), Then(Gate, EngineRun(true, release)));
    SubmitSkipped(more);
    Turn(s, i, t, outside);
    if outside(Finalise).refuse {
      UnlockTurn(s, i, t.(rest := release), held, FrtkMutex, outside);
      TurnsAdd(With(s, i, t), i, outside, 1, 1);
      turns := 2;
    } else {
      var n := GateAndSubmit(s, i, t.(rest := submit, finalised := t.checked), held, more, outside);
      TurnsAdd(With(s, i, t), i, outside, 1, n);
      turns := 1 + n;
    }
  }

  lemma {:induction false} CommitAlone(s: System, i: nat, more: Program, outside: Instruction -> Choice)
    returns (turns: nat)
    requires i < |s.threads| && OthersFree(s, i) && !outside(Work(true)).more
    ensures Alone(With(s, i, InScript(ScriptProgram(Commit, more))), i, outside, turns) ==
      With(Stepped(s, i, Commit, outside), i, InScript(more))
  {
    var release := Then(Unlock(FrtkMutex), more);
    var plan := Then(Finalise, Then(Lock(WriteMutex), Then(Gate, EngineRun(true, release))));
    var t := InScript(ScriptProgram(Commit, more));
    var here, lua := With(s, i, t), [LuaMutex];
    var s1 := s.(generation := outside(Catalog).generation);
    LockTurn(s, i, t, outside);
    var t1 := t.(rest := Then(Catalog, plan), held := lua + [FrtkMutex]);
    Turn(s, i, t1, outside);
    TurnsAdd(here, i, outside, 1, 1);
    if outside(Catalog).refuse {
      SubmitSkipped(more);
      assert AfterRefusal(FrtkMutex, plan) == release;
      UnlockTurn(s1, i, t1.(rest := release), lua, FrtkMutex, outside);
      TurnsAdd(here, i, outside, 2, 1);
      turns := 3;
    } else {
      var n := PlanAndSubmit(s1, i, t1.(rest := plan, checked := Some(s1.generation)), lua, more, outside);
      TurnsAdd(here, i, outside, 2, n);
      turns := 2 + n;
    }
  }

  /** A script step alone does what it stands for: the byte is written, the generation decided, the transaction run. */
  lemma {:induction false} ScriptAlone(s: System, i: nat, step: ScriptStep, more: Program,
                                       outside: Instruction -> Choice)
    returns (turns: nat)
    requires i < |s.threads| && OthersFree(s, i) && !outside(Work(true)).more
    ensures Alone(With(s, i, InScript(ScriptProgram(step, more))), i, outside, turns) ==
      With(Stepped(s, i, step, outside), i, InScript(more))
  {
    match step {
      case WriteByte => turns := WriteByteAlone(s, i, more, outside);
      case TouchCatalog =>
        CatalogAlone(s, i, [LuaMutex], more, outside);
        turns := 3;
      case Commit => turns := CommitAlone(s, i, more, outside);
    }
  }

  function SteppedAll(s: System, i: nat, steps: seq<ScriptStep>, outside: Instruction -> Choice): System
    decreases steps
  {
    if steps == [] then s else SteppedAll(Stepped(s, i, steps[0], outside), i, steps[1..], outside)
  }

  lemma {:induction false} ScriptsAlone(s: System, i: nat, steps: seq<ScriptStep>, more: Program,
                                        outside: Instruction -> Choice)
    returns (turns: nat)
    requires i < |s.threads| && OthersFree(s, i) && !outside(Work(true)).more
    ensures SteppedAll(s, i, steps, outside).threads == s.threads
    ensures Alone(With(s, i, InScript(ScriptPrograms(steps, more))), i, outside, turns) ==
      With(SteppedAll(s, i, steps, outside), i, InScript(more))
    decreases steps
  {
    if steps == [] {
      turns := 0;
    } else {
      var n := ScriptAlone(s, i, steps[0], ScriptPrograms(steps[1..], more), outside);
      var rest := ScriptsAlone(Stepped(s, i, steps[0], outside), i, steps[1..], more, outside);
      TurnsAdd(With(s, i, InScript(ScriptPrograms(steps, more))), i, outside, n, rest);
      turns := n + rest;
    }
  }

  /** What a command leaves. */
  function Commanded(s: System, i: nat, command: Command, outside: Instruction -> Choice): System {
    match command
    case TypedTransaction =>
      if Closed(s, outside) then s else Submitted(s.(generation := outside(Catalog).generation), i, outside)
    case RawTransaction => if Closed(s, outside) then s else Ran(s, i, false, None, outside(End(false)).status)
    case CatalogCommand => s.(generation := outside(Catalog).generation)
    case LuaRun(steps) => SteppedAll(s, i, steps, outside)
  }

  predicate EndsRuns(outside: Instruction -> Choice) {
    !outside(Work(true)).more && !outside(Work(false)).more
  }

  lemma {:induction false} LuaAlone(s: System, i: nat, steps: seq<ScriptStep>, more: Program,
                                    outside: Instruction -> Choice)
    returns (turns: nat)
    requires i < |s.threads| && OthersFree(s, i) && EndsRuns(outside)
    ensures SteppedAll(s, i, steps, outside).threads == s.threads
    ensures Alone(With(s, i, Idle(CommandProgram(LuaRun(steps), more))), i, outside, turns) ==
      With(SteppedAll(s, i, steps, outside), i, Idle(more))
  {
    var release := Then(Unlock(LuaMutex), more);
    var t := Idle(CommandProgram(LuaRun(steps), more));
    var here, after := With(s, i, t), SteppedAll(s, i, steps, outside);
    LockTurn(s, i, t, outside);
    assert [] + [LuaMutex] == [LuaMutex];
    var inside := With(s, i, InScript(ScriptPrograms(steps, release)));
    var n := ScriptsAlone(s, i, steps, release, outside);
    UnlockTurn(after, i, InScript(release), [], LuaMutex, outside);
    TurnsAdd(inside, i, outside, n, 1);
    TurnsAdd(here, i, outside, 1, n + 1);
    turns := 1 + (n + 1);
  }

  /** Whatever the outside decides, a command alone comes to its end, holds nothing then, and has done what it stands
      for. */
  lemma {:induction false} CommandAlone(s: System, i: nat, command: Command, more: Program,
                                        outside: Instruction -> Choice)
    returns (turns: nat)
    requires i < |s.threads| && OthersFree(s, i) && EndsRuns(outside)
    ensures Commanded(s, i, command, outside).threads == s.threads
    ensures Alone(With(s, i, Idle(CommandProgram(command, more))), i, outside, turns) ==
      With(Commanded(s, i, command, outside), i, Idle(more))
  {
    match command {
      case TypedTransaction => turns := TypedAlone(s, i, more, outside);
      case RawTransaction => turns := RawAlone(s, i, more, outside);
      case CatalogCommand =>
        CatalogAlone(s, i, [], more, outside);
        turns := 3;
      case LuaRun(steps) => turns := LuaAlone(s, i, steps, more, outside);
    }
  }

  function CommandedAll(s: System, i: nat, commands: seq<Command>, outside: Instruction -> Choice): System
    decreases commands
  {
    if commands == [] then s else CommandedAll(Commanded(s, i, commands[0], outside), i, commands[1..], outside)
  }

  /** A thread alone carries out all its commands. */
  lemma {:induction false} ThreadAlone(s: System, i: nat, commands: seq<Command>, outside: Instruction -> Choice)
    returns (turns: nat)
    requires i < |s.threads| && OthersFree(s, i) && EndsRuns(outside)
    ensures Alone(With(s, i, Idle(ThreadProgram(commands))), i, outside, turns) ==
      With(CommandedAll(s, i, commands, outside).(threads := s.threads), i, Idle(Done))
    decreases commands
  {
    if commands == [] {
      turns := 0;
    } else {
      var n := CommandAlone(s, i, commands[0], ThreadProgram(commands[1..]), outside);
      var rest := ThreadAlone(Commanded(s, i, commands[0], outside), i, commands[1..], outside);
      TurnsAdd(With(s, i, Idle(ThreadProgram(commands))), i, outside, n, rest);
      turns := n + rest;
    }
  }
}
