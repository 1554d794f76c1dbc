/** Writers that lock, copy and replace a file beside each other (src/file_update.rs): every
    interleaving of their steps, with failures and forced terminations anywhere between them. */
module FileUpdate {
  import opened Bytes
  import opened Seqs

  /** A file, whatever path leads to it: a rename moves it, a handle keeps it. */
  type Id = nat

  /** The target, the lock and the temporary file beside it, each under its one fixed path, and what
      the files hold. */
  datatype Disk = Disk(target: Id, lock: Option<Id>, temp: Option<Id>, data: map<Id, Bytes>, next: Id)

  /** What a caller asks for: the update of a private copy, or of the file itself under the lock. An
      update that returns an error is `None`. */
  datatype Job = Job(direct: bool, update: Bytes -> Option<Bytes>)

  /** Where a writer is; the files named are the ones its handles hold. */
  datatype Phase =
    | Idle
    | Locked(lock: Id, job: Job)
    | Holding(lock: Id, job: Job, file: Id)
    | Copying(lock: Id, job: Job, file: Id, temp: Id)
    | Updating(lock: Id, job: Job, file: Id, temp: Id, given: Bytes)
    | Ready(lock: Id, job: Job, file: Id, temp: Id, given: Bytes)
    | Replaced(lock: Id, temp: Id)
    | Failing(lock: Id, temp: Id)
    | Writing(lock: Id, job: Job, file: Id, given: Bytes)
    | Leaving(lock: Id, ok: bool)

  /** What happened to the target: an update went through, or a direct one ended part way. */
  datatype Event = Commit(who: nat, update: Bytes -> Option<Bytes>) | Damage(left: Bytes)

  /** One thing a writer does. `ok` says whether the operating system lets it. */
  datatype Act =
    | Lock(job: Job)
    | Open(ok: bool)
    | MakeTemp(ok: bool)
    | CopySome(bytes: Bytes)
    | EndCopy
    | UpdateSome(bytes: Bytes)
    | EndUpdate
    | Rename(ok: bool)
    | Fail
    | RemoveTemp(ok: bool)
    | WriteSome(bytes: Bytes)
    | EndWrite
    | Unlock(ok: bool)
    | Crash

  /** One writer and what it shares with the others. */
  datatype View = View(disk: Disk, phase: Phase, history: seq<Event>)

  predicate HasLock(phase: Phase) {
    !phase.Idle?
  }

  predicate HasTemp(phase: Phase) {
    phase.Copying? || phase.Updating? || phase.Ready? || phase.Failing?
  }

  predicate HasFile(phase: Phase) {
    phase.Holding? || phase.Copying? || phase.Updating? || phase.Ready? || phase.Writing?
  }

  // ---------------------------------------------------------------- the steps

  function Put(disk: Disk, id: Id, bytes: Bytes): Disk {
    disk.(data := disk.data[id := bytes])
  }

  /** What a rename leaves: the file under the temporary path becomes the target. */
  function Renamed(disk: Disk): Disk {
    if disk.temp.Some? then disk.(target := disk.temp.value, temp := None) else disk
  }

  /** What writer `who` does next. An act it is not ready for leaves everything as it was. */
  function Move(v: View, who: nat, act: Act): View {
    var disk, phase, history := v.disk, v.phase, v.history;
    match act
    case Lock(job) =>
      if phase.Idle? && disk.lock.None? then
        v.(disk := disk.(lock := Some(disk.next), next := disk.next + 1), phase := Locked(disk.next, job))
      else v
    case Open(ok) =>
      if phase.Locked? then
        v.(phase := if ok then Holding(phase.lock, phase.job, disk.target) else Leaving(phase.lock, false))
      else v
    case MakeTemp(ok) => if phase.Holding? then Begun(v, ok) else v
    case CopySome(bytes) => if phase.Copying? then v.(disk := Put(disk, phase.temp, bytes)) else v
    case EndCopy =>
      if phase.Copying? && phase.file in disk.data then
        var given := disk.data[phase.file];
        View(Put(disk, phase.temp, given), Updating(phase.lock, phase.job, phase.file, phase.temp, given), history)
      else v
    case UpdateSome(bytes) => if phase.Updating? then v.(disk := Put(disk, phase.temp, bytes)) else v
    case EndUpdate => if phase.Updating? then Updated(v) else v
    case Rename(ok) => if phase.Ready? then Published(v, who, ok) else v
    case Fail =>
      if phase.Copying? || phase.Updating? || phase.Ready? then v.(phase := Failing(phase.lock, phase.temp))
      else v
    case RemoveTemp(ok) => if phase.Failing? || phase.Replaced? then TempClosed(v, ok) else v
    case WriteSome(bytes) => if phase.Writing? then v.(disk := Put(disk, phase.file, bytes)) else v
    case EndWrite => if phase.Writing? then WriteEnded(v, who) else v
    case Unlock(ok) =>
      if phase.Leaving? then v.(disk := if ok then disk.(lock := None) else disk, phase := Idle) else v
    case Crash => Crashed(v)
  }

  /** With the target open, a direct update begins at once; any other needs the temporary file, which
      must not be there yet. */
  function Begun(v: View, ok: bool): View
    requires v.phase.Holding?
  {
    var disk, phase := v.disk, v.phase;
    if !ok || phase.file !in disk.data then v.(phase := Leaving(phase.lock, false))
    else if phase.job.direct then v.(phase := Writing(phase.lock, phase.job, phase.file, disk.data[phase.file]))
    else if disk.temp.Some? then v.(phase := Leaving(phase.lock, false))
    else
      var made := Put(disk.(temp := Some(disk.next), next := disk.next + 1), disk.next, []);
      v.(disk := made, phase := Copying(phase.lock, phase.job, phase.file, disk.next))
  }

  /** The callback returned. */
  function Updated(v: View): View
    requires v.phase.Updating?
  {
    var phase := v.phase;
    match phase.job.update(phase.given)
    case None => v.(phase := Failing(phase.lock, phase.temp))
    case Some(bytes) =>
      v.(disk := Put(v.disk, phase.temp, bytes),
         phase := Ready(phase.lock, phase.job, phase.file, phase.temp, phase.given))
  }

  /** The rename is the one step that publishes. */
  function Published(v: View, who: nat, ok: bool): View
    requires v.phase.Ready?
  {
    var phase := v.phase;
    if ok && v.disk.temp.Some? then
      View(Renamed(v.disk), Replaced(phase.lock, phase.temp), v.history + [Commit(who, phase.job.update)])
    else v.(phase := Failing(phase.lock, phase.temp))
  }

  /** Closing the temporary file removes whatever is under its path, after a rename as after a
      failure. */
  function TempClosed(v: View, ok: bool): View
    requires v.phase.Failing? || v.phase.Replaced?
  {
    v.(disk := if ok then v.disk.(temp := None) else v.disk, phase := Leaving(v.phase.lock, v.phase.Replaced?))
  }

  /** A direct update returned: an error leaves what it wrote. */
  function WriteEnded(v: View, who: nat): View
    requires v.phase.Writing?
  {
    var phase := v.phase;
    match phase.job.update(phase.given)
    case Some(bytes) =>
      View(Put(v.disk, phase.file, bytes), Leaving(phase.lock, true), v.history + [Commit(who, phase.job.update)])
    case None => View(v.disk, Leaving(phase.lock, false), v.history + DamageTo(v.disk, phase.file))
  }

  function DamageTo(disk: Disk, file: Id): seq<Event> {
    if file in disk.data then [Damage(disk.data[file])] else []
  }

  /** A forced termination leaves every file where it is. */
  function Crashed(v: View): View {
    View(v.disk, Idle, if v.phase.Writing? then v.history + DamageTo(v.disk, v.phase.file) else v.history)
  }

  // ---------------------------------------------------------------- what one writer keeps

  /** What an event makes of the contents before it. */
  function Outcome(event: Event, before: Bytes): Bytes {
    if event.Damage? then event.left
    else if event.update(before).Some? then event.update(before).value else before
  }

  /** What the events so far make of the contents the file began with. */
  function Replay(began: Bytes, history: seq<Event>): Bytes {
    if history == [] then began
    else Outcome(history[|history| - 1], Replay(began, history[..|history| - 1]))
  }

  /** Every update that was committed accepted what it was given: the whole of what the one before
      left. */
  predicate Applied(began: Bytes, history: seq<Event>) {
    if history == [] then true
    else
      var before, event := history[..|history| - 1], history[|history| - 1];
      Applied(began, before) && (event.Commit? ==> event.update(Replay(began, before)).Some?)
  }

  lemma ReplayOne(began: Bytes, history: seq<Event>, event: Event)
    ensures Replay(began, history + [event]) == Outcome(event, Replay(began, history))
    ensures Applied(began, history + [event])
            <==> Applied(began, history) && (event.Commit? ==> event.update(Replay(began, history)).Some?)
  {
    JoinParts(history, [event]);
  }

  predicate DiskIsSound(disk: Disk) {
    && disk.target < disk.next && disk.target in disk.data
    && (disk.lock.Some? ==> disk.lock.value < disk.next)
    && (disk.temp.Some? ==>
          disk.temp.value < disk.next && disk.temp.value in disk.data && disk.temp.value != disk.target)
    && forall id :: id in disk.data ==> id < disk.next
  }

  /** A writer's handles are to the files under the paths it made or opened them by, and only a direct
      job writes to the target itself. */
  predicate HandlesAgree(disk: Disk, phase: Phase) {
    && (HasLock(phase) ==> disk.lock == Some(phase.lock))
    && (HasTemp(phase) ==> disk.temp == Some(phase.temp))
    && (HasFile(phase) ==> disk.target == phase.file)
    && (phase.Replaced? ==> disk.target == phase.temp && disk.temp == None)
    && (phase.Writing? ==> phase.job.direct)
    && (phase.Copying? || phase.Updating? || phase.Ready? ==> !phase.job.direct)
    && (phase.Updating? || phase.Ready? ==> disk.target in disk.data && disk.data[disk.target] == phase.given)
    && (phase.Ready? ==> phase.temp in disk.data && phase.job.update(phase.given) == Some(disk.data[phase.temp]))
  }

  /** A writer that leaves with a success, or is past its rename, made the last commit. */
  predicate CommitIsLast(phase: Phase, who: nat, history: seq<Event>) {
    phase.Replaced? || (phase.Leaving? && phase.ok) ==>
      history != [] && history[|history| - 1].Commit? && history[|history| - 1].who == who
  }

  /** The target holds what the history made of it, unless a direct update is at work on it. */
  predicate Recorded(began: Bytes, v: View) {
    && Applied(began, v.history)
    && if v.phase.Writing? then v.phase.given == Replay(began, v.history)
    else v.disk.target in v.disk.data && v.disk.data[v.disk.target] == Replay(began, v.history)
  }

  predicate Fine(began: Bytes, v: View, who: nat) {
    DiskIsSound(v.disk) && HandlesAgree(v.disk, v.phase) && CommitIsLast(v.phase, who, v.history) && Recorded(began, v)
  }

  lemma BegunKeeps(began: Bytes, v: View, who: nat, ok: bool)
    requires Fine(began, v, who) && v.phase.Holding?
    ensures Fine(began, Begun(v, ok), who)
  {
  }

  lemma CopyKeeps(began: Bytes, v: View, who: nat, bytes: Bytes)
    requires Fine(began, v, who)
    ensures Fine(began, Move(v, who, CopySome(bytes)), who) && Fine(began, Move(v, who, EndCopy), who)
    ensures Fine(began, Move(v, who, UpdateSome(bytes)), who)
  {
  }

  lemma UpdatedKeeps(began: Bytes, v: View, who: nat)
    requires Fine(began, v, who) && v.phase.Updating?
    ensures Fine(began, Updated(v), who)
  {
  }

  lemma PublishedKeeps(began: Bytes, v: View, who: nat, ok: bool)
    requires Fine(began, v, who) && v.phase.Ready?
    ensures Fine(began, Published(v, who, ok), who)
  {
    ReplayOne(began, v.history, Commit(who, v.phase.job.update));
  }

  lemma WriteEndKeeps(began: Bytes, v: View, who: nat)
    requires Fine(began, v, who) && v.phase.Writing?
    ensures Fine(began, WriteEnded(v, who), who)
  {
    ReplayOne(began, v.history, Commit(who, v.phase.job.update));
    ReplayOne(began, v.history, Damage(v.disk.data[v.phase.file]));
  }

  lemma CrashKeeps(began: Bytes, v: View, who: nat)
    requires Fine(began, v, who)
    ensures Fine(began, Crashed(v), who)
  {
    if v.phase.Writing? { ReplayOne(began, v.history, Damage(v.disk.data[v.phase.file])); }
  }

  lemma EndsKeep(began: Bytes, v: View, who: nat, act: Act)
    requires Fine(began, v, who)
    requires act.Lock? || act.Open? || act.Fail? || act.RemoveTemp? || act.WriteSome? || act.Unlock?
    ensures Fine(began, Move(v, who, act), who)
  {
  }

  /** No step of a writer that is alone breaks any of it. */
  lemma MoveKeeps(began: Bytes, v: View, who: nat, act: Act)
    requires Fine(began, v, who)
    ensures Fine(began, Move(v, who, act), who)
  {
    match act
    case MakeTemp(ok) => if v.phase.Holding? { BegunKeeps(began, v, who, ok); }
    case CopySome(bytes) => CopyKeeps(began, v, who, bytes);
    case EndCopy => CopyKeeps(began, v, who, []);
    case UpdateSome(bytes) => CopyKeeps(began, v, who, bytes);
    case EndUpdate => if v.phase.Updating? { UpdatedKeeps(began, v, who); }
    case Rename(ok) => if v.phase.Ready? { PublishedKeeps(began, v, who, ok); }
    case EndWrite => if v.phase.Writing? { WriteEndKeeps(began, v, who); }
    case Crash => CrashKeeps(began, v, who);
    case _ => EndsKeep(began, v, who, act);
  }

  // ---------------------------------------------------------------- all the writers

  datatype World = World(disk: Disk, writers: seq<Phase>, history: seq<Event>)

  /** A writer's turn, or someone removing what a terminated one left behind: only while no writer is at
      work. */
  datatype Transition = Turn(who: nat, act: Act) | Recover(lock: bool, temp: bool)

  predicate NobodyWorks(writers: seq<Phase>) {
    forall p :: 0 <= p < |writers| ==> !HasLock(writers[p])
  }

  function ViewOf(s: World, p: nat): View
    requires p < |s.writers|
  {
    View(s.disk, s.writers[p], s.history)
  }

  function Next(s: World, step: Transition): World {
    match step
    case Turn(who, act) =>
      if who < |s.writers| then
        var v := Move(ViewOf(s, who), who, act);
        World(v.disk, s.writers[who := v.phase], v.history)
      else s
    case Recover(lock, temp) =>
      if NobodyWorks(s.writers) then
        s.(disk := s.disk.(lock := if lock then None else s.disk.lock, temp := if temp then None else s.disk.temp))
      else s
  }

  function Reach(s: World, steps: seq<Transition>): World {
    if steps == [] then s else Next(Reach(s, steps[..|steps| - 1]), steps[|steps| - 1])
  }

  /** A file that holds `began`, and `n` writers that have not begun. */
  function Start(began: Bytes, n: nat): World {
    World(Disk(0, None, None, map[0 := began], 1), seq(n, _ => Idle), [])
  }

  predicate AtMostOne(writers: seq<Phase>) {
    forall p, q :: 0 <= p < |writers| && 0 <= q < |writers| && HasLock(writers[p]) && HasLock(writers[q]) ==> p == q
  }

  predicate Safe(began: Bytes, s: World) {
    && AtMostOne(s.writers)
    && (forall p :: 0 <= p < |s.writers| && HasLock(s.writers[p]) ==> Fine(began, ViewOf(s, p), p))
    && (NobodyWorks(s.writers) ==> Fine(began, View(s.disk, Idle, s.history), 0))
  }

  /** A writer that has nothing, while another has the lock, changes nothing. */
  lemma IdleWaits(v: View, who: nat, act: Act)
    requires v.phase.Idle? && (act.Lock? ==> v.disk.lock.Some?)
    ensures Move(v, who, act) == v
  {
  }

  lemma MovedIsSafe(began: Bytes, s: World, who: nat, v: View)
    requires who < |s.writers| && Fine(began, v, who)
    requires forall p :: 0 <= p < |s.writers| && p != who ==> !HasLock(s.writers[p])
    ensures Safe(began, World(v.disk, s.writers[who := v.phase], v.history))
  {
    var to := World(v.disk, s.writers[who := v.phase], v.history);
    assert to.writers[who] == v.phase;
    assert forall p :: 0 <= p < |s.writers| && p != who ==> to.writers[p] == s.writers[p];
  }

  lemma NextIsSafe(began: Bytes, s: World, step: Transition)
    requires Safe(began, s)
    ensures Safe(began, Next(s, step))
  {
    match step
    case Turn(who, act) => if who < |s.writers| { TurnIsSafe(began, s, who, act); }
    case Recover(_, _) =>
  }

  lemma TurnIsSafe(began: Bytes, s: World, who: nat, act: Act)
    requires Safe(began, s) && who < |s.writers|
    ensures Safe(began, Next(s, Turn(who, act)))
  {
    var v := ViewOf(s, who);
    if HasLock(v.phase) || NobodyWorks(s.writers) {
      MoveKeeps(began, v, who, act);
      MovedIsSafe(began, s, who, Move(v, who, act));
    } else {
      var p :| 0 <= p < |s.writers| && HasLock(s.writers[p]);
      assert Fine(began, ViewOf(s, p), p);
      IdleWaits(v, who, act);
      assert s.writers[who := v.phase] == s.writers;
    }
  }

  /** Every state every interleaving reaches is safe. */
  lemma {:induction false} RunIsSafe(began: Bytes, n: nat, steps: seq<Transition>)
    ensures Safe(began, Reach(Start(began, n), steps))
  {
    if steps != [] {
      RunIsSafe(began, n, steps[..|steps| - 1]);
      NextIsSafe(began, Reach(Start(began, n), steps[..|steps| - 1]), steps[|steps| - 1]);
    }
  }

  // ---------------------------------------------------------------- what every run keeps

  /** However the steps fall, at most one writer is past the lock. */
  lemma OneWriter(began: Bytes, n: nat, steps: seq<Transition>, p: nat, q: nat)
    requires var s := Reach(Start(began, n), steps);
             p < |s.writers| && q < |s.writers| && HasLock(s.writers[p]) && HasLock(s.writers[q])
    ensures p == q
  {
    RunIsSafe(began, n, steps);
  }

  /** However the steps fall, and whoever was terminated where, the target holds what the events made of
      it, each committed update applied to the whole of what was there before. A direct update at work
      is the one time it may hold something else. */
  lemma TargetIsReplay(began: Bytes, n: nat, steps: seq<Transition>)
    ensures var s := Reach(Start(began, n), steps);
            && Applied(began, s.history) && s.disk.target in s.disk.data
            && ((forall p :: 0 <= p < |s.writers| ==> !s.writers[p].Writing?) ==>
                  s.disk.data[s.disk.target] == Replay(began, s.history))
  {
    RunIsSafe(began, n, steps);
    var s := Reach(Start(began, n), steps);
    if !NobodyWorks(s.writers) {
      var p :| 0 <= p < |s.writers| && HasLock(s.writers[p]);
      assert Fine(began, ViewOf(s, p), p);
    }
  }

  /** What the target holds, whatever file it is. */
  function Content(s: World): Bytes {
    if s.disk.target in s.disk.data then s.disk.data[s.disk.target] else []
  }

  /** An event is added by one step of one writer: a commit by the step that publishes its own update,
      damage by one whose job is direct. */
  lemma EventsAreEarned(began: Bytes, s: World, who: nat, act: Act)
    requires Safe(began, s) && who < |s.writers|
    ensures var phase, later := s.writers[who], Next(s, Turn(who, act)).history;
            || later == s.history
            || ((phase.Ready? || phase.Writing?) && later == s.history + [Commit(who, phase.job.update)])
            || (phase.Writing? && phase.job.direct && later == s.history + [Damage(Content(s))])
  {
    if HasLock(s.writers[who]) {
      assert Fine(began, ViewOf(s, who), who);
    }
  }

  ghost predicate NoDirect(steps: seq<Transition>) {
    forall step :: step in steps && step.Turn? && step.act.Lock? ==> !step.act.job.direct
  }

  /** No job at work is direct. */
  predicate CopiesAtWork(s: World) {
    && (forall p :: 0 <= p < |s.writers| ==> !s.writers[p].Writing?)
    && (forall p :: 0 <= p < |s.writers| && (s.writers[p].Locked? || s.writers[p].Holding?) ==>
          !s.writers[p].job.direct)
  }

  /** Nothing but whole updates happened to the target. */
  predicate AllCommits(history: seq<Event>) {
    forall i :: 0 <= i < |history| ==> history[i].Commit?
  }

  lemma CopiesStay(s: World, step: Transition)
    requires CopiesAtWork(s) && (step.Turn? && step.act.Lock? ==> !step.act.job.direct)
    ensures CopiesAtWork(Next(s, step)) && (AllCommits(s.history) ==> AllCommits(Next(s, step).history))
  {
  }

  lemma {:induction false} CopiesRun(s: World, steps: seq<Transition>)
    requires CopiesAtWork(s) && NoDirect(steps)
    ensures CopiesAtWork(Reach(s, steps)) && (AllCommits(s.history) ==> AllCommits(Reach(s, steps).history))
  {
    if steps != [] {
      var last := |steps| - 1;
      CopiesRun(s, steps[..last]);
      assert steps[last] in steps;
      CopiesStay(Reach(s, steps[..last]), steps[last]);
    }
  }

  /** Over any interleaving of copy-and-replace calls, whoever fails or is terminated where, the target
      holds at every moment the composition of the committed updates, in the order of their commits:
      never a part of one, and nothing else. */
  lemma CopiesCompose(began: Bytes, n: nat, steps: seq<Transition>)
    requires NoDirect(steps)
    ensures var s := Reach(Start(began, n), steps);
            && AllCommits(s.history) && Applied(began, s.history)
            && (forall p :: 0 <= p < |s.writers| ==> !s.writers[p].Writing?)
            && s.disk.target in s.disk.data && s.disk.data[s.disk.target] == Replay(began, s.history)
  {
    CopiesRun(Start(began, n), steps);
    TargetIsReplay(began, n, steps);
  }

  /** The lock and the temporary file are removed by path, and what a writer removes so is its own: it
      takes away no other writer's file, nor one a terminated writer left. */
  lemma RemovesOnlyItsOwn(began: Bytes, s: World, who: nat, act: Act)
    requires Safe(began, s) && who < |s.writers|
    ensures var disk, phase := Next(s, Turn(who, act)).disk, s.writers[who];
            && (s.disk.lock.Some? && disk.lock != s.disk.lock ==> phase.Leaving? && s.disk.lock == Some(phase.lock))
            && (s.disk.temp.Some? && disk.temp != s.disk.temp ==> HasTemp(phase) && s.disk.temp == Some(phase.temp))
  {
    if HasLock(s.writers[who]) {
      assert Fine(began, ViewOf(s, who), who);
    }
  }

  /** What the target holds changes in two ways: at once, by a rename, to what the update makes of the
      whole of it; or by a direct update writing to it. */
  lemma ChangesAtOnce(began: Bytes, s: World, who: nat, act: Act)
    requires Safe(began, s) && who < |s.writers| && !s.writers[who].Writing?
    ensures var phase, after := s.writers[who], Content(Next(s, Turn(who, act)));
            after == Content(s)
            || (act.Rename? && phase.Ready? && phase.job.update(Content(s)) == Some(after))
  {
    if HasLock(s.writers[who]) {
      assert Fine(began, ViewOf(s, who), who);
    } else {
      if NobodyWorks(s.writers) {
        assert Fine(began, View(s.disk, Idle, s.history), 0);
      }
    }
  }

  /** A success is reported only by a writer whose update is the last the history committed, and only
      once its lock is gone. */
  lemma SuccessIsCommitted(began: Bytes, s: World, who: nat, ok: bool)
    requires Safe(began, s) && who < |s.writers| && s.writers[who].Leaving?
    ensures s.writers[who].ok && ok ==>
              && s.history != [] && s.history[|s.history| - 1].Commit? && s.history[|s.history| - 1].who == who
              && Next(s, Turn(who, Unlock(ok))).disk.lock == None
  {
    assert Fine(began, ViewOf(s, who), who);
  }

  // ---------------------------------------------------------------- readers

  /** A file no writer writes to: the target of now or of before, once its writer is past the rename. */
  predicate Unwritten(s: World, file: Id, holds: Bytes) {
    && file in s.disk.data && s.disk.data[file] == holds && s.disk.temp != Some(file)
    && (forall p :: 0 <= p < |s.writers| && HasTemp(s.writers[p]) ==> s.writers[p].temp != file)
  }

  lemma UnwrittenStays(began: Bytes, s: World, step: Transition, file: Id, holds: Bytes)
    requires Safe(began, s) && Unwritten(s, file, holds) && CopiesAtWork(s)
    ensures Unwritten(Next(s, step), file, holds)
  {
    if step.Turn? && step.who < |s.writers| {
      var phase := s.writers[step.who];
      if HasLock(phase) {
        assert Fine(began, ViewOf(s, step.who), step.who);
      } else if NobodyWorks(s.writers) {
        assert Fine(began, View(s.disk, Idle, s.history), 0);
      }
    }
  }

  /** A reader that opened the target keeps the bytes it opened: no run of writers that update copies
      changes them, whatever it renames over the path. */
  lemma {:induction false} ReadersKeepTheirFile(began: Bytes, s: World, steps: seq<Transition>, file: Id, holds: Bytes)
    requires Safe(began, s) && Unwritten(s, file, holds) && CopiesAtWork(s) && NoDirect(steps)
    ensures Safe(began, Reach(s, steps)) && Unwritten(Reach(s, steps), file, holds) && CopiesAtWork(Reach(s, steps))
  {
    if steps != [] {
      var last := |steps| - 1;
      ReadersKeepTheirFile(began, s, steps[..last], file, holds);
      NextIsSafe(began, Reach(s, steps[..last]), steps[last]);
      CopiesRun(s, steps);
      UnwrittenStays(began, Reach(s, steps[..last]), steps[last], file, holds);
    }
  }

  // ---------------------------------------------------------------- after a termination

  /** A lock left behind stops every writer: until someone removes it, no run of turns changes
      anything. */
  lemma {:induction false} StaleLockStops(s: World, steps: seq<Transition>)
    requires NobodyWorks(s.writers) && s.disk.lock.Some?
    requires forall step :: step in steps ==> step.Turn? || (!step.lock && !step.temp)
    ensures Reach(s, steps) == s
  {
    if steps != [] {
      var last := |steps| - 1;
      StaleLockStops(s, steps[..last]);
      if steps[last].Turn? && steps[last].who < |s.writers| {
        IdleWaits(ViewOf(s, steps[last].who), steps[last].who, steps[last].act);
        assert s.writers[steps[last].who := s.writers[steps[last].who]] == s.writers;
      } else {
        assert steps[last] in steps;
      }
    }
  }
}
