// The service updates itself (src/helper/windows/updater.rs): the file swap, and
// the threads that share the ACTIVE counter, the INSTALLED lock and the WAITING
// flag, as a machine whose steps may interleave, fail or be cut off in any way.

module Updater {
  import opened Bytes
  import opened Decimals
  import opened Versions

  // ----- The service's folder -----

  type Image = seq<byte>

  datatype FileName = Exe | New | Old

  /** The files there are, and the name the running image goes by. The system lets
      a running image be renamed, but neither deleted nor overwritten. */
  datatype Folder = Folder(files: map<FileName, Image>, home: FileName) {
    predicate CanWrite(name: FileName) {
      name != home
    }

    predicate CanRemove(name: FileName) {
      name in files && name != home
    }

    predicate CanRename(from: FileName, to: FileName) {
      from in files && from != to && to != home
    }

    function Write(name: FileName, data: Image): Folder
      requires CanWrite(name)
    {
      Folder(files[name := data], home)
    }

    function Remove(name: FileName): Folder
      requires CanRemove(name)
    {
      Folder(files - {name}, home)
    }

    function Rename(from: FileName, to: FileName): Folder
      requires CanRename(from, to)
    {
      Folder((files - {from})[to := files[from]], if home == from then to else home)
    }

    predicate Holds(name: FileName, data: Image) {
      name in files && files[name] == data
    }
  }

  /** The folder as one caller works on it; `refusals` says which of the coming
      operations fail for a reason of the system's own. */
  class Directory {
    var folder: Folder
    var refusals: seq<bool>

    constructor (folder: Folder, refusals: seq<bool>)
      ensures this.folder == folder && this.refusals == refusals
    {
      this.folder, this.refusals := folder, refusals;
    }

    /** What is refused from the n-th coming operation on. */
    function Later(n: nat): seq<bool>
      reads this
    {
      if n <= |refusals| then refusals[n..] else []
    }

    predicate WillRefuse(n: nat)
      reads this
    {
      n < |refusals| && refusals[n]
    }

    method Refused() returns (no: bool)
      modifies this`refusals
      ensures no == old(WillRefuse(0)) && refusals == old(Later(1))
    {
      no := false;
      if refusals != [] {
        no := refusals[0];
        refusals := refusals[1..];
      }
    }

    /** Fails unless the file is gone afterwards. */
    method RemoveIfThere(name: FileName) returns (ok: bool)
      modifies this
      ensures ok ==> name !in folder.files && folder == old(folder).(files := old(folder.files) - {name})
      ensures ok && name in old(folder.files) ==> name != folder.home
      ensures !ok ==> folder == old(folder)
      ensures !ok <==> name in old(folder.files) && (name == old(folder.home) || old(WillRefuse(0)))
      ensures refusals == old(Later(1))
    {
      var no := Refused();
      if name !in folder.files {
        assert folder.files == folder.files - {name};
        return true;
      }
      if no || !folder.CanRemove(name) {
        return false;
      }
      folder := folder.Remove(name);
      return true;
    }

    method Rename(from: FileName, to: FileName) returns (ok: bool)
      modifies this
      ensures ok <==> old(folder).CanRename(from, to) && !old(WillRefuse(0))
      ensures folder == if ok then old(folder).Rename(from, to) else old(folder)
      ensures refusals == old(Later(1))
    {
      var no := Refused();
      if no || !folder.CanRename(from, to) {
        return false;
      }
      folder := folder.Rename(from, to);
      return true;
    }

    /** NEW becomes EXE and EXE becomes OLD; or EXE is what it was; or, only when even
        putting it back was refused, EXE is absent and OLD is what EXE was. With the
        running image aside already, nothing happens. */
    method Swap() returns (ok: bool)
      modifies this
      ensures ok ==> Exe in old(folder.files) && New in old(folder.files) && New !in folder.files
                     && folder.Holds(Exe, old(folder).files[New]) && folder.Holds(Old, old(folder).files[Exe])
      ensures !ok && Exe in old(folder.files) ==>
                || folder.Holds(Exe, old(folder).files[Exe])
                || (Exe !in folder.files && folder.Holds(Old, old(folder).files[Exe]))
      ensures Exe in old(folder.files) && Exe !in folder.files ==> old(WillRefuse(3))
      ensures !ok && Exe !in old(folder.files) ==> Exe !in folder.files
      ensures old(folder.home) == Old && Old in old(folder.files) ==> !ok && folder == old(folder)
      ensures (&& old(folder.home) == Exe && Exe in old(folder.files) && New in old(folder.files)
               && !old(WillRefuse(0)) && !old(WillRefuse(1)) && !old(WillRefuse(2))) ==> ok
    {
      var removed := RemoveIfThere(Old);
      if !removed {
        return false;
      }
      var aside := Rename(Exe, Old);
      if !aside {
        return false;
      }
      var placed := Rename(New, Exe);
      if !placed {
        var _ := Rename(Old, Exe);
        return false;
      }
      return true;
    }

    /** Writes NEW and swaps it in. `part` is how much a failing write leaves. */
    method Install(exe: Image, part: nat) returns (ok: bool)
      modifies this
      ensures ok ==> Exe in old(folder.files) && folder.Holds(Exe, exe) && New !in folder.files
                     && folder.Holds(Old, old(folder).files[Exe])
      ensures !ok && old(folder.home) != New && Exe in old(folder.files) ==>
                || folder.Holds(Exe, old(folder).files[Exe])
                || (Exe !in folder.files && folder.Holds(Old, old(folder).files[Exe]))
      ensures Exe in old(folder.files) && Exe !in folder.files ==> old(WillRefuse(5))
      ensures (&& old(folder.home) == Exe && Exe in old(folder.files)
               && !old(WillRefuse(0)) && !old(WillRefuse(1)) && !old(WillRefuse(2))
               && !old(WillRefuse(3)) && !old(WillRefuse(4))) ==> ok
    {
      var no := Refused();
      if no || !folder.CanWrite(New) {
        return false;
      }
      folder := folder.Write(New, []);
      no := Refused();
      if no {
        folder := folder.Write(New, exe[..Min(part, |exe|)]);
        return false;
      }
      folder := folder.Write(New, exe);
      ok := Swap();
    }
  }

  // ----- The threads -----

  datatype Outcome = Fine(update: Update) | Failed

  /** Where a thread stands. From `Fetching` to `Recording` it holds INSTALLED. */
  datatype At =
    | Sleeping                                // between daily checks
    | Arriving                                // a session before its guard
    | Serving
    | Locking
    | Fetching
    | FetchingExe(sig: string)
    | Creating(exe: Image, version: Version)
    | Writing(exe: Image, version: Version)
    | RemovingOld(exe: Image, version: Version)
    | MovingExe(exe: Image, version: Version)
    | MovingNew(exe: Image, version: Version)
    | PuttingBack(exe: Image, version: Version)
    | Recording(exe: Image, version: Version)
    | Replying(outcome: Outcome)
    | Leaving(updated: bool)                  // about to drop its guard
    | Restarting
    | Waiting
    | Exiting
    | Gone
  {
    predicate HasBuild() {
      Creating? || Writing? || RemovingOld? || MovingExe? || MovingNew? || PuttingBack? || Recording?
    }

    predicate Critical() {
      Fetching? || FetchingExe? || HasBuild()
    }
  }

  datatype Thread = Thread(daily: bool, at: At) {
    /** A session between creating its guard and dropping it. */
    predicate Guarded() {
      !daily && (at.Serving? || at.Locking? || at.Critical() || at.Replying? || at.Leaving?)
    }

    predicate Waits() {
      at.Waiting? || at.Exiting?
    }
  }

  datatype Phase = Down | CleaningOld | CleaningNew | Up

  /** A run of the service: its version and how many swaps succeeded in it. */
  datatype Run = Run(version: Version, swaps: nat)

  datatype State = State(
    phase: Phase,
    image: Image,               // what runs, or ran last
    folder: Folder,
    installed: Option<Version>,
    lock: Option<nat>,
    active: int,
    waiting: bool,
    threads: seq<Thread>,
    swaps: nat,                 // that succeeded in this run
    stranded: bool,             // a failed swap could not put EXE back
    log: seq<Run>)              // earlier runs
  {
    function To(i: nat, at: At): State
      requires i < |threads|
    {
      this.(threads := threads[i := threads[i].(at := at)])
    }

    function Stopped(): State {
      this.(phase := Down, installed := None, lock := None, active := 0, waiting := false, threads := [])
    }

    function History(w: World): seq<Run> {
      log + [Run(w.reports(image), swaps)]
    }
  }

  // ----- Steps -----

  /** What the world decides when a thread runs: whether an operation succeeds (or a
      client asks for an update, or an hour has passed), what a fetch brings, how
      much a failing write leaves. */
  datatype Choice = Choice(ok: bool, sig: Option<string>, exe: Option<Image>, part: nat)

  datatype Event = Kill | Start | Clean(ok: bool) | Connect | Go(thread: nat, choice: Choice)

  /** What a check has done so far. */
  datatype Work = Work(at: At, folder: Folder, swaps: nat, stranded: bool) {
    function Fail(): Work {
      this.(at := Replying(Failed))
    }
  }

  /** One step of a check by the running `image`. */
  function Advance(w: World, image: Image, k: Work, c: Choice): (r: Work)
    requires k.at.Critical()
    ensures r.at.Critical() || r.at.Replying?
  {
    var running := w.reports(image);
    var d := k.folder;
    match k.at
    case Fetching =>
      if c.sig.None? then k.Fail()
      else
        (match Announced(w, c.sig.value)
         case Accepted(v) =>
           k.(at := if running.Less(v) then FetchingExe(c.sig.value) else Replying(Fine(UpToDate(running))))
         case _ => k.Fail())
    case FetchingExe(sig) =>
      if c.exe.None? then k.Fail()
      else
        (match VerifyUpdate(w, c.exe.value, sig, running)
         case Accepted(v) => k.(at := Creating(c.exe.value, v))
         case _ => k.Fail())
    case Creating(exe, v) =>
      if c.ok && d.CanWrite(New) then k.(at := Writing(exe, v), folder := d.Write(New, [])) else k.Fail()
    case Writing(exe, v) =>
      if !d.CanWrite(New) then k.Fail()
      else if c.ok then k.(at := RemovingOld(exe, v), folder := d.Write(New, exe))
      else k.Fail().(folder := d.Write(New, exe[..Min(c.part, |exe|)]))
    case RemovingOld(exe, v) =>
      if Old !in d.files then k.(at := MovingExe(exe, v))
      else if c.ok && d.CanRemove(Old) then k.(at := MovingExe(exe, v), folder := d.Remove(Old))
      else k.Fail()
    case MovingExe(exe, v) =>
      if c.ok && d.CanRename(Exe, Old) then k.(at := MovingNew(exe, v), folder := d.Rename(Exe, Old)) else k.Fail()
    case MovingNew(exe, v) =>
      if c.ok && d.CanRename(New, Exe)
      then Work(Recording(exe, v), d.Rename(New, Exe), k.swaps + 1, k.stranded)
      else k.(at := PuttingBack(exe, v))
    case PuttingBack(_, _) =>
      if c.ok && d.CanRename(Old, Exe) then k.Fail().(folder := d.Rename(Old, Exe)) else k.Fail().(stranded := true)
    case Recording(_, v) => k.(at := Replying(Fine(Installed(v))))
  }

  /** A step of the thread that holds the lock: it records what it installed, and
      gives the lock back with its outcome. */
  function CheckStep(w: World, s: State, i: nat, c: Choice): State
    requires i < |s.threads| && s.threads[i].at.Critical()
  {
    var k := Advance(w, s.image, Work(s.threads[i].at, s.folder, s.swaps, s.stranded), c);
    var done := k.at.Replying?;
    s.To(i, k.at).(folder := k.folder, swaps := k.swaps, stranded := k.stranded,
                   lock := if done then None else s.lock,
                   installed := if done && k.at.outcome.Fine? && k.at.outcome.update.Installed?
                                then Some(k.at.outcome.update.version) else s.installed)
  }

  /** What the threads share, as one of them finds and leaves it, and where it stands. */
  datatype Moved = Moved(at: At, lock: Option<nat>, active: int, waiting: bool)

  /** One step of thread `i` outside the lock. */
  function Move(t: Thread, i: nat, m: Moved, installed: Option<Version>, c: Choice): Moved {
    match t.at
    case Sleeping => m.(at := Locking)
    case Arriving => m.(at := Serving, active := m.active + 1)
    case Serving => m.(at := if c.ok then Locking else Leaving(false))
    case Locking =>
      if m.lock.Some? then m
      else if installed.Some? then m.(at := Replying(Fine(Installed(installed.value))))
      else m.(at := Fetching, lock := Some(i))
    case Replying(o) =>
      var done := o.Fine? && o.update.Installed?;
      if t.daily then m.(at := if done then Restarting else Sleeping)
      else if !c.ok then m.(at := Leaving(false))
      else m.(at := if done then Leaving(true) else Serving)
    case Leaving(updated) => m.(at := if updated then Restarting else Gone, active := m.active - 1)
    case Restarting =>
      if m.waiting then m.(at := if t.daily then Sleeping else Gone) else m.(at := Waiting, waiting := true)
    case Waiting => if m.active > 0 && !c.ok then m else m.(at := Exiting)
    case _ => m
  }

  function MoveOf(s: State, i: nat, c: Choice): Moved
    requires i < |s.threads|
  {
    Move(s.threads[i], i, Moved(s.threads[i].at, s.lock, s.active, s.waiting), s.installed, c)
  }

  function ThreadStep(s: State, i: nat, c: Choice): State
    requires i < |s.threads|
  {
    if s.threads[i].at.Exiting? then s.Stopped() else
      var m := MoveOf(s, i, c);
      s.To(i, m.at).(lock := m.lock, active := m.active, waiting := m.waiting)
  }

  function Step(w: World, s: State, e: Event): State {
    match e
    case Kill => s.Stopped()
    case Start =>
      if s.phase.Down? && Exe in s.folder.files
      then State(CleaningOld, s.folder.files[Exe], s.folder.(home := Exe), None, None, 0, false, [], 0, false,
                 s.History(w))
      else s
    case Clean(ok) =>
      if s.phase.CleaningOld? then
        s.(phase := CleaningNew, folder := if ok && s.folder.CanRemove(Old) then s.folder.Remove(Old) else s.folder)
      else if s.phase.CleaningNew? then
        s.(phase := Up, folder := if ok && s.folder.CanRemove(New) then s.folder.Remove(New) else s.folder,
           threads := [Thread(true, Sleeping)])
      else s
    case Connect => if s.phase.Up? then s.(threads := s.threads + [Thread(false, Arriving)]) else s
    case Go(i, c) =>
      if i >= |s.threads| then s
      else if s.threads[i].at.Critical() then CheckStep(w, s, i, c)
      else ThreadStep(s, i, c)
  }

  function After(w: World, s: State, events: seq<Event>): State
    decreases |events|
  {
    if events == [] then s else After(w, Step(w, s, events[0]), events[1..])
  }

  // ----- What every step keeps -----

  function Count(ts: seq<Thread>, p: Thread -> bool): nat {
    if ts == [] then 0 else Count(ts[1..], p) + if p(ts[0]) then 1 else 0
  }

  lemma {:induction false} CountAppend(ts: seq<Thread>, t: Thread, p: Thread -> bool)
    ensures Count(ts + [t], p) == Count(ts, p) + if p(t) then 1 else 0
  {
    if ts == [] {
      assert ts + [t] == [t] && [t][1..] == [];
    } else {
      assert (ts + [t])[1..] == ts[1..] + [t];
      CountAppend(ts[1..], t, p);
    }
  }

  lemma {:induction false} CountUpdate(ts: seq<Thread>, i: nat, t: Thread, p: Thread -> bool)
    requires i < |ts|
    ensures Count(ts[i := t], p) == Count(ts, p) + (if p(t) then 1 else 0) - (if p(ts[i]) then 1 else 0)
  {
    if i == 0 {
      assert ts[0 := t][1..] == ts[1..];
    } else {
      assert ts[i := t][1..] == ts[1..][i - 1 := t];
      CountUpdate(ts[1..], i - 1, t, p);
    }
  }

  const Guarded := (t: Thread) => t.Guarded()
  const Waits := (t: Thread) => t.Waits()

  /** The key signed these bytes as `v`, which is newer than what runs. */
  ghost predicate Signed(w: World, running: Image, exe: Image, v: Version) {
    exists sig :: VerifyUpdate(w, exe, sig, w.reports(running)) == Accepted(v)
  }

  /** Where the lock's holder stands. */
  function Stage(s: State): At {
    if s.lock.Some? && s.lock.value < |s.threads| then s.threads[s.lock.value].at else Gone
  }

  predicate LockRight(s: State) {
    && (s.lock.Some? ==> s.lock.value < |s.threads| && s.threads[s.lock.value].at.Critical())
    && (forall i :: 0 <= i < |s.threads| ==> s.threads[i].at.Critical() ==> s.lock == Some(i))
  }

  predicate CountersRight(s: State) {
    && s.active == Count(s.threads, Guarded)
    && Count(s.threads, Waits) == if s.waiting then 1 else 0
  }

  /** What a thread knows of an installed update. */
  predicate Knows(t: Thread, installed: Option<Version>) {
    match t.at
    case Replying(Fine(Installed(v))) => installed == Some(v)
    case Leaving(true) => installed.Some?
    case Restarting => installed.Some?
    case Waiting => installed.Some?
    case Exiting => installed.Some?
    case _ => true
  }

  /** The daily thread is no session and no session sleeps. */
  predicate InRole(t: Thread) {
    if t.daily then !t.at.Arriving? && !t.at.Serving? && !t.at.Leaving? else !t.at.Sleeping?
  }

  predicate ThreadsRight(s: State) {
    forall i :: 0 <= i < |s.threads| ==> InRole(s.threads[i]) && Knows(s.threads[i], s.installed)
  }

  /** The running image is in place under its own name. */
  predicate AtHome(d: Folder, image: Image) {
    d.home == Exe && d.Holds(Exe, image)
  }

  predicate Aside(d: Folder, image: Image) {
    d.home == Old && d.Holds(Old, image)
  }

  /** What EXE is, by how far the check has come. */
  ghost predicate ExePlaced(w: World, image: Image, k: Work, installed: Option<Version>) {
    if k.at.MovingNew? || k.at.PuttingBack? then
      Aside(k.folder, image) && Exe !in k.folder.files && k.swaps == 0 && !k.stranded
    else if k.at.Recording? then
      Aside(k.folder, image) && k.folder.Holds(Exe, k.at.exe) && k.swaps == 1 && !k.stranded
    else if installed.Some? then
      Aside(k.folder, image) && Exe in k.folder.files && Signed(w, image, k.folder.files[Exe], installed.value)
      && k.swaps == 1 && !k.stranded
    else
      k.swaps == 0 && if k.stranded then Aside(k.folder, image) && Exe !in k.folder.files else AtHome(k.folder, image)
  }

  /** The folder during a check, and between checks. */
  ghost predicate FolderRight(w: World, image: Image, k: Work, installed: Option<Version>) {
    && (k.at.HasBuild() ==> Signed(w, image, k.at.exe, k.at.version))
    && (k.at.RemovingOld? || k.at.MovingExe? || k.at.MovingNew? ==> k.folder.Holds(New, k.at.exe))
    && (k.at.Critical() ==> installed.None?)
    && ExePlaced(w, image, k, installed)
  }

  /** The check that is under way, if any. */
  function CheckOf(s: State): Work {
    Work(Stage(s), s.folder, s.swaps, s.stranded)
  }

  /** What EXE holds, if it is there: the image that runs, or after the one swap a
      signed newer one. */
  ghost predicate ExeRight(w: World, s: State) {
    && s.swaps <= 1
    && (Exe in s.folder.files ==>
          if s.swaps == 0 then s.folder.files[Exe] == s.image
          else exists v :: Signed(w, s.image, s.folder.files[Exe], v))
  }

  predicate Follows(a: Run, b: Run) {
    a.swaps <= 1 && if a.swaps == 1 then a.version.Less(b.version) else a.version == b.version
  }

  predicate Chain(runs: seq<Run>) {
    forall k {:trigger runs[k]} :: 0 <= k < |runs| - 1 ==> Follows(runs[k], runs[k + 1])
  }

  ghost predicate Inv(w: World, s: State) {
    && (w.Honest() ==> Chain(s.History(w)))
    && ExeRight(w, s)
    && match s.phase
       case Down => s.threads == [] && s.installed.None? && s.lock.None? && s.active == 0 && !s.waiting
       case Up =>
         LockRight(s) && CountersRight(s) && ThreadsRight(s) && FolderRight(w, s.image, CheckOf(s), s.installed)
       case _ => Fresh(s)
  }

  /** A run before its threads start. */
  predicate Fresh(s: State) {
    && s.threads == [] && s.installed.None? && s.lock.None? && s.active == 0 && !s.waiting
    && AtHome(s.folder, s.image) && s.swaps == 0 && !s.stranded
  }

  /** The first run of some image, whatever else the folder holds. */
  predicate Initial(s: State) {
    s.phase == CleaningOld && Fresh(s) && s.log == []
  }

  // ----- Threads and counters -----

  /** A thread moves: the counters follow. */
  lemma ThreadMoves(s: State, s': State, i: nat, at: At)
    requires i < |s.threads| && s'.threads == s.To(i, at).threads
    requires CountersRight(s)
    ensures var t, t' := s.threads[i], s'.threads[i];
            && Count(s'.threads, Guarded) == s.active + (if t'.Guarded() then 1 else 0) - (if t.Guarded() then 1 else 0)
            && Count(s'.threads, Waits)
               == (if s.waiting then 1 else 0) + (if t'.Waits() then 1 else 0) - (if t.Waits() then 1 else 0)
  {
    CountUpdate(s.threads, i, s'.threads[i], Guarded);
    CountUpdate(s.threads, i, s'.threads[i], Waits);
  }

  /** The lock's holder goes on with its check, or gives the lock back. */
  lemma HolderMoves(s: State, s': State, i: nat, at: At)
    requires LockRight(s) && CountersRight(s) && ThreadsRight(s) && s.installed.None?
    requires i < |s.threads| && s.threads[i].at.Critical()
    requires s'.threads == s.To(i, at).threads
    requires s'.active == s.active && s'.waiting == s.waiting
    requires if at.Critical() then s'.lock == s.lock && s'.installed.None?
             else at.Replying? && s'.lock.None? && (Knows(Thread(true, at), s'.installed))
    ensures LockRight(s') && CountersRight(s') && ThreadsRight(s')
  {
    hide Count;
    ThreadMoves(s, s', i, at);
  }

  lemma Holder(s: State, i: nat)
    requires LockRight(s) && i < |s.threads| && s.threads[i].at.Critical()
    ensures s.lock == Some(i) && Stage(s) == s.threads[i].at
  {
  }

  lemma CheckKeepsThreads(w: World, s: State, i: nat, c: Choice)
    requires LockRight(s) && CountersRight(s) && ThreadsRight(s) && s.installed.None?
    requires i < |s.threads| && s.threads[i].at.Critical()
    ensures var s' := CheckStep(w, s, i, c);
            LockRight(s') && CountersRight(s') && ThreadsRight(s')
  {
    hide LockRight;
    hide CountersRight;
    hide ThreadsRight;
    hide Advance;
    var s' := CheckStep(w, s, i, c);
    HolderMoves(s, s', i, s'.threads[i].at);
  }

  // ----- The folder -----

  /** A step of a check keeps the folder right, and records only what is in place. */
  lemma AdvanceKeepsFolder(w: World, image: Image, k: Work, c: Choice)
    requires k.at.Critical() && FolderRight(w, image, k, None)
    ensures var k' := Advance(w, image, k, c);
            if k'.at.Critical() then FolderRight(w, image, k', None)
            else FolderRight(w, image, k'.(at := Gone),
                             if k'.at.outcome.Fine? && k'.at.outcome.update.Installed?
                             then Some(k'.at.outcome.update.version) else None)
  {
    hide VerifyUpdate;
    hide Announced;
    hide Signed;
    if k.at.FetchingExe? && c.exe.Some? {
      BuildIsSigned(w, image, c.exe.value, k.at.sig);
    }
  }

  lemma BuildIsSigned(w: World, image: Image, exe: Image, sig: string)
    ensures VerifyUpdate(w, exe, sig, w.reports(image)).Accepted? ==>
              Signed(w, image, exe, VerifyUpdate(w, exe, sig, w.reports(image)).version)
  {
  }

  lemma FolderMeansExe(w: World, s: State)
    requires FolderRight(w, s.image, CheckOf(s), s.installed)
    ensures ExeRight(w, s)
  {
    hide Signed;
  }

  lemma ChainLast(log: seq<Run>, v: Version, a: nat, b: nat)
    requires Chain(log + [Run(v, a)])
    ensures Chain(log + [Run(v, b)])
  {
    var old', new' := log + [Run(v, a)], log + [Run(v, b)];
    forall k | 0 <= k < |new'| - 1
      ensures Follows(new'[k], new'[k + 1])
    {
      assert Follows(old'[k], old'[k + 1]);
    }
  }

  lemma CheckKeeps(w: World, s: State, i: nat, c: Choice)
    requires Inv(w, s) && s.phase.Up? && i < |s.threads| && s.threads[i].at.Critical()
    ensures Inv(w, CheckStep(w, s, i, c))
  {
    hide CountersRight;
    hide ThreadsRight;
    hide ExePlaced;
    hide ExeRight;
    hide Chain;
    hide Advance;
    var s' := CheckStep(w, s, i, c);
    Holder(s, i);
    CheckKeepsThreads(w, s, i, c);
    AdvanceKeepsFolder(w, s.image, CheckOf(s), c);
    FolderMeansExe(w, s');
    if w.Honest() {
      ChainLast(s.log, w.reports(s.image), s.swaps, s'.swaps);
    }
  }

  // ----- Outside the lock -----

  /** A step outside the lock counts a guard in or out as it is made or dropped, and
      lets one thread wait. */
  lemma MoveCounts(s: State, i: nat, c: Choice)
    requires i < |s.threads| && InRole(s.threads[i])
    requires !s.threads[i].at.Critical() && !s.threads[i].at.Exiting?
    ensures var t, m := s.threads[i], MoveOf(s, i, c);
            var t' := t.(at := m.at);
            && m.active == s.active + (if t'.Guarded() then 1 else 0) - (if t.Guarded() then 1 else 0)
            && (t'.Guarded() <==> t.at.Arriving? || (t.Guarded() && !t.at.Leaving?))
            && (if t'.Waits() then 1 else 0) - (if t.Waits() then 1 else 0)
               == (if m.waiting then 1 else 0) - (if s.waiting then 1 else 0)
            && !t'.at.Arriving?
  {
  }

  lemma ThreadKeepsCounters(s: State, i: nat, c: Choice)
    requires CountersRight(s) && ThreadsRight(s) && i < |s.threads|
    requires !s.threads[i].at.Critical() && !s.threads[i].at.Exiting?
    ensures CountersRight(ThreadStep(s, i, c))
  {
    hide Count;
    hide MoveOf;
    hide Knows;
    assert InRole(s.threads[i]);
    MoveCounts(s, i, c);
    ThreadMoves(s, ThreadStep(s, i, c), i, MoveOf(s, i, c).at);
  }

  /** Outside the lock a thread stays outside, or takes it when it is free. */
  lemma MoveIs(s: State, i: nat, c: Choice)
    requires i < |s.threads| && !s.threads[i].at.Exiting? && !s.threads[i].at.Critical()
    requires InRole(s.threads[i]) && Knows(s.threads[i], s.installed)
    ensures var m := MoveOf(s, i, c);
            var t' := s.threads[i].(at := m.at);
            && InRole(t') && Knows(t', s.installed)
            && (if t'.at.Critical() then s.lock.None? && s.installed.None? && m.lock == Some(i) && t'.at.Fetching?
                else m.lock == s.lock)
  {
  }

  lemma ThreadStepIs(s: State, i: nat, c: Choice)
    requires i < |s.threads| && !s.threads[i].at.Exiting? && !s.threads[i].at.Critical()
    requires InRole(s.threads[i]) && Knows(s.threads[i], s.installed)
    ensures var s' := ThreadStep(s, i, c);
            var t' := s'.threads[i];
            && s'.threads == s.threads[i := t'] && InRole(t') && Knows(t', s.installed)
            && s' == s.(threads := s'.threads, lock := s'.lock, active := s'.active, waiting := s'.waiting)
            && (if t'.at.Critical() then s.lock.None? && s.installed.None? && s'.lock == Some(i) && t'.at.Fetching?
                else s'.lock == s.lock)
  {
    hide MoveOf;
    hide InRole;
    hide Knows;
    MoveIs(s, i, c);
  }

  lemma ThreadKeepsKnowledge(s: State, i: nat, c: Choice)
    requires LockRight(s) && ThreadsRight(s) && i < |s.threads|
    requires !s.threads[i].at.Critical() && !s.threads[i].at.Exiting?
    ensures var s' := ThreadStep(s, i, c);
            && ThreadsRight(s') && LockRight(s')
            && (CheckOf(s') == CheckOf(s)
                || (s.installed.None? && Stage(s).Gone? && CheckOf(s') == CheckOf(s).(at := Fetching)))
  {
    hide ThreadStep;
    hide Knows;
    hide InRole;
    ThreadStepIs(s, i, c);
  }

  lemma CheckStarts(w: World, image: Image, k: Work)
    requires k.at.Gone? && FolderRight(w, image, k, None)
    ensures FolderRight(w, image, k.(at := Fetching), None)
  {
    hide Signed;
  }

  lemma StopKeeps(w: World, s: State)
    requires Inv(w, s)
    ensures Inv(w, s.Stopped())
  {
    hide Chain;
    hide Signed;
    assert s.Stopped().History(w) == s.History(w);
  }

  lemma ThreadKeeps(w: World, s: State, i: nat, c: Choice)
    requires Inv(w, s) && s.phase.Up? && i < |s.threads| && !s.threads[i].at.Critical()
    requires !s.threads[i].at.Exiting?
    ensures Inv(w, ThreadStep(s, i, c))
  {
    hide LockRight;
    hide CountersRight;
    hide ThreadStep;
    hide Chain;
    hide FolderRight;
    hide ExeRight;
    hide Knows;
    hide InRole;
    var s' := ThreadStep(s, i, c);
    assert InRole(s.threads[i]) && Knows(s.threads[i], s.installed);
    ThreadStepIs(s, i, c);
    hide ThreadsRight;
    ThreadKeepsKnowledge(s, i, c);
    ThreadKeepsCounters(s, i, c);
    if CheckOf(s') != CheckOf(s) {
      CheckStarts(w, s.image, CheckOf(s));
    }
    FolderMeansExe(w, s');
    assert s'.History(w) == s.History(w);
  }

  // ----- Starting and stopping -----

  /** The next run is of what EXE holds: the same build, or after a swap a newer one. */
  lemma NextRunFollows(w: World, s: State)
    requires w.Honest() && ExeRight(w, s) && Exe in s.folder.files
    ensures Follows(Run(w.reports(s.image), s.swaps), Run(w.reports(s.folder.files[Exe]), 0))
  {
    if s.swaps == 1 {
      var exe, running := s.folder.files[Exe], w.reports(s.image);
      var v :| Signed(w, s.image, exe, v);
      var sig :| VerifyUpdate(w, exe, sig, running) == Accepted(v);
      AcceptedExactly(w, exe, sig, running, v);
    }
  }

  lemma ChainExtends(runs: seq<Run>, r: Run)
    requires Chain(runs) && runs != [] && Follows(runs[|runs| - 1], r)
    ensures Chain(runs + [r])
  {
    var more := runs + [r];
    forall k | 0 <= k < |more| - 1
      ensures Follows(more[k], more[k + 1])
    {
      if k < |runs| - 1 {
        assert Follows(runs[k], runs[k + 1]);
      }
    }
  }

  lemma StartKeeps(w: World, s: State)
    requires Inv(w, s)
    ensures Inv(w, Step(w, s, Start))
  {
    hide Signed;
    hide Chain;
    if s.phase.Down? && Exe in s.folder.files && w.Honest() {
      NextRunFollows(w, s);
      ChainExtends(s.History(w), Run(w.reports(s.folder.files[Exe]), 0));
    }
  }

  /** The threads of a run that just began. */
  lemma FirstThread(s: State)
    requires s.threads == [Thread(true, Sleeping)] && s.lock.None? && s.active == 0 && !s.waiting
    ensures LockRight(s) && CountersRight(s) && ThreadsRight(s)
  {
    CountAppend([], s.threads[0], Guarded);
    CountAppend([], s.threads[0], Waits);
    assert [] + s.threads == s.threads;
  }

  lemma FreshFolder(w: World, image: Image, k: Work)
    requires k.at.Gone? && AtHome(k.folder, image) && k.swaps == 0 && !k.stranded
    ensures FolderRight(w, image, k, None)
  {
    hide Signed;
  }

  lemma RunBegins(w: World, s: State)
    requires s.phase.CleaningNew? && Inv(w, s)
    ensures Inv(w, s.(phase := Up, threads := [Thread(true, Sleeping)]))
  {
    var s' := s.(phase := Up, threads := [Thread(true, Sleeping)]);
    hide FolderRight;
    hide AtHome;
    hide Chain;
    hide LockRight;
    hide CountersRight;
    hide ThreadsRight;
    hide ExeRight;
    FreshFolder(w, s.image, CheckOf(s'));
    hide CheckOf;
    FirstThread(s');
    assert s'.History(w) == s.History(w);
    FolderMeansExe(w, s');
  }

  /** Removing a leftover does not touch the image that starts. */
  lemma CleaningKeeps(w: World, s: State, name: FileName, phase: Phase)
    requires Inv(w, s) && (s.phase.CleaningOld? || s.phase.CleaningNew?)
    requires s.folder.CanRemove(name) && (phase.CleaningNew? || phase == s.phase)
    ensures Inv(w, s.(phase := phase, folder := s.folder.Remove(name)))
  {
    hide Chain;
    hide Signed;
    var s' := s.(phase := phase, folder := s.folder.Remove(name));
    assert s'.History(w) == s.History(w);
  }

  lemma CleanKeeps(w: World, s: State, ok: bool)
    requires Inv(w, s)
    ensures Inv(w, Step(w, s, Clean(ok)))
  {
    hide Inv;
    if s.phase.CleaningOld? {
      if ok && s.folder.CanRemove(Old) {
        CleaningKeeps(w, s, Old, CleaningNew);
      } else {
        PhaseKeeps(w, s);
      }
    } else if s.phase.CleaningNew? {
      if ok && s.folder.CanRemove(New) {
        CleaningKeeps(w, s, New, CleaningNew);
        RunBegins(w, s.(folder := s.folder.Remove(New)));
      } else {
        RunBegins(w, s);
      }
    }
  }

  lemma PhaseKeeps(w: World, s: State)
    requires Inv(w, s) && s.phase.CleaningOld?
    ensures Inv(w, s.(phase := CleaningNew))
  {
    hide Chain;
    hide Signed;
    assert s.(phase := CleaningNew).History(w) == s.History(w);
  }

  lemma ConnectKeeps(w: World, s: State)
    requires Inv(w, s)
    ensures Inv(w, Step(w, s, Connect))
  {
    hide Chain;
    hide FolderRight;
    hide ExeRight;
    if s.phase.Up? {
      var s' := Step(w, s, Connect);
      SessionArrives(s, s');
      hide LockRight;
      hide CountersRight;
      hide ThreadsRight;
      assert s'.History(w) == s.History(w);
      FolderMeansExe(w, s');
    }
  }

  lemma SessionArrives(s: State, s': State)
    requires LockRight(s) && CountersRight(s) && ThreadsRight(s)
    requires s' == s.(threads := s.threads + [Thread(false, Arriving)])
    ensures LockRight(s') && CountersRight(s') && ThreadsRight(s') && CheckOf(s') == CheckOf(s)
  {
    hide Count;
    CountAppend(s.threads, Thread(false, Arriving), Guarded);
    CountAppend(s.threads, Thread(false, Arriving), Waits);
  }

  lemma ThreadsMeanUp(w: World, s: State)
    requires Inv(w, s) && s.threads != []
    ensures s.phase.Up?
  {
    hide Chain;
    hide ExeRight;
    hide FolderRight;
    hide LockRight;
    hide CountersRight;
    hide ThreadsRight;
  }

  lemma GoKeeps(w: World, s: State, i: nat, c: Choice)
    requires Inv(w, s)
    ensures Inv(w, Step(w, s, Go(i, c)))
  {
    hide Inv;
    hide CheckStep;
    if i < |s.threads| {
      ThreadsMeanUp(w, s);
      if s.threads[i].at.Critical() {
        CheckKeeps(w, s, i, c);
      } else if s.threads[i].at.Exiting? {
        StopKeeps(w, s);
      } else {
        hide ThreadStep;
        ThreadKeeps(w, s, i, c);
      }
    }
  }

  lemma StepKeeps(w: World, s: State, e: Event)
    requires Inv(w, s)
    ensures Inv(w, Step(w, s, e))
  {
    hide Inv;
    match e {
      case Kill => StopKeeps(w, s);
      case Start => StartKeeps(w, s);
      case Clean(ok) => CleanKeeps(w, s, ok);
      case Connect => ConnectKeeps(w, s);
      case Go(i, c) => GoKeeps(w, s, i, c);
    }
  }

  // ----- Over every run -----

  lemma {:induction false} AlwaysInv(w: World, s: State, events: seq<Event>)
    requires Inv(w, s)
    ensures Inv(w, After(w, s, events))
    decreases |events|
  {
    hide Inv;
    hide Step;
    if events != [] {
      StepKeeps(w, s, events[0]);
      AlwaysInv(w, Step(w, s, events[0]), events[1..]);
    }
  }

  lemma Reachable(w: World, s: State, events: seq<Event>)
    requires Initial(s)
    ensures Inv(w, After(w, s, events))
  {
    assert Inv(w, s) by { hide Signed; }
    AlwaysInv(w, s, events);
  }

  /** At most one swap succeeds in a run, whatever interleaves with it. */
  lemma OneSwapPerRun(w: World, s: State, events: seq<Event>)
    requires Initial(s)
    ensures After(w, s, events).swaps <= 1
  {
    hide Initial;
    hide After;
    hide Signed;
    hide Chain;
    Reachable(w, s, events);
  }

  lemma SignedMeans(w: World, running: Image, exe: Image, v: Version)
    requires Signed(w, running, exe, v)
    ensures w.reports(running).Less(v)
    ensures exists sig :: w.verifies(exe, sig) && w.comment(sig) == Some(CommentFor(v))
  {
    var sig :| VerifyUpdate(w, exe, sig, w.reports(running)) == Accepted(v);
    AcceptedExactly(w, exe, sig, w.reports(running), v);
  }

  /** While INSTALLED names a version, it is newer than the one running and EXE holds
      bytes the release key signed as that version. */
  lemma InstalledIsInPlace(w: World, s: State, events: seq<Event>)
    requires Initial(s) && After(w, s, events).installed.Some?
    ensures var t := After(w, s, events);
            var v := t.installed.value;
            && w.reports(t.image).Less(v) && t.swaps == 1 && Exe in t.folder.files
            && exists sig :: w.verifies(t.folder.files[Exe], sig) && w.comment(sig) == Some(CommentFor(v))
  {
    hide Initial;
    hide After;
    hide Chain;
    hide Signed;
    hide CommentFor;
    Reachable(w, s, events);
    var t := After(w, s, events);
    SignedMeans(w, t.image, t.folder.files[Exe], t.installed.value);
  }

  /** The places of the sessions that hold a guard. */
  ghost function Guards(ts: seq<Thread>): set<nat> {
    set i: nat | i < |ts| && ts[i].Guarded()
  }

  lemma {:induction false} CountIsSize(ts: seq<Thread>)
    ensures Count(ts, Guarded) == |Guards(ts)|
  {
    if ts != [] {
      var n := |ts| - 1;
      CountIsSize(ts[..n]);
      CountAppend(ts[..n], ts[n], Guarded);
      assert ts[..n] + [ts[n]] == ts;
      assert Guards(ts) == Guards(ts[..n]) + if ts[n].Guarded() then {n} else {};
    }
  }

  /** ACTIVE is the number of live guards; a thread that waits to restart holds none. */
  lemma ActiveCountsGuards(w: World, s: State, events: seq<Event>)
    requires Initial(s)
    ensures var t := After(w, s, events);
            && t.active == |Guards(t.threads)|
            && forall i :: 0 <= i < |t.threads| && t.threads[i].Waits() ==> i !in Guards(t.threads)
  {
    hide Initial;
    hide After;
    hide Chain;
    hide FolderRight;
    hide ExeRight;
    Reachable(w, s, events);
    CountIsSize(After(w, s, events).threads);
  }

  lemma {:induction false} CountPair(ts: seq<Thread>, i: nat, j: nat, p: Thread -> bool)
    requires i < j < |ts| && p(ts[i]) && p(ts[j])
    ensures Count(ts, p) >= 2
  {
    if i > 0 {
      CountPair(ts[1..], i - 1, j - 1, p);
    } else {
      CountSome(ts[1..], j - 1, p);
    }
  }

  lemma {:induction false} CountSome(ts: seq<Thread>, i: nat, p: Thread -> bool)
    requires i < |ts| && p(ts[i])
    ensures Count(ts, p) >= 1
  {
    if i > 0 {
      CountSome(ts[1..], i - 1, p);
    }
  }

  /** One thread at most waits to end the process, and only once an update is in place;
      one at most is inside a check, and none after the update. */
  lemma OneWaitsOneChecks(w: World, s: State, events: seq<Event>, i: nat, j: nat)
    requires Initial(s) && i < |After(w, s, events).threads| && j < |After(w, s, events).threads|
    ensures var t := After(w, s, events);
            && (t.threads[i].Waits() && t.threads[j].Waits() ==> i == j)
            && (t.threads[i].at.Critical() && t.threads[j].at.Critical() ==> i == j)
            && (t.threads[i].Waits() ==> t.installed.Some?)
            && (t.threads[i].at.Critical() ==> t.installed.None?)
  {
    hide Initial;
    hide After;
    hide Inv;
    Reachable(w, s, events);
    OneAtMost(w, After(w, s, events), i, j);
  }

  lemma OneAtMost(w: World, t: State, i: nat, j: nat)
    requires Inv(w, t) && i < |t.threads| && j < |t.threads|
    ensures t.threads[i].Waits() && t.threads[j].Waits() ==> i == j
    ensures t.threads[i].at.Critical() && t.threads[j].at.Critical() ==> i == j
    ensures t.threads[i].Waits() ==> t.installed.Some?
    ensures t.threads[i].at.Critical() ==> t.installed.None?
  {
    hide Inv;
    hide Count;
    hide CountersRight;
    ThreadsMeanUp(w, t);
    UpMeans(w, t);
    if t.threads[i].at.Critical() {
      CheckMeansNone(w, t, i);
    }
    assert Knows(t.threads[i], t.installed);
    if t.threads[i].Waits() && t.threads[j].Waits() {
      OnlyOneWaits(t, i, j);
    }
  }

  lemma CheckMeansNone(w: World, t: State, i: nat)
    requires Inv(w, t) && t.phase.Up? && i < |t.threads| && t.threads[i].at.Critical()
    ensures t.installed.None?
  {
    hide Chain;
    hide ExePlaced;
    hide ExeRight;
    hide CountersRight;
    hide ThreadsRight;
    Holder(t, i);
  }

  /** The running image is never lost. While the service is up, EXE is absent exactly
      between a check's two renames and after a swap that could not put it back. */
  lemma RunningImageSurvives(w: World, s: State, events: seq<Event>)
    requires Initial(s) && After(w, s, events).phase.Up?
    ensures var t := After(w, s, events);
            && t.folder.Holds(t.folder.home, t.image)
            && (Exe !in t.folder.files <==> t.stranded || Stage(t).MovingNew? || Stage(t).PuttingBack?)
  {
    hide Initial;
    hide After;
    hide Chain;
    hide Signed;
    hide ExeRight;
    hide LockRight;
    hide CountersRight;
    hide ThreadsRight;
    hide Stage;
    Reachable(w, s, events);
    var t := After(w, s, events);
    hide Inv;
    ImageHeld(w, t);
  }

  lemma ImageHeld(w: World, t: State)
    requires t.phase.Up? && FolderRight(w, t.image, CheckOf(t), t.installed)
    ensures t.folder.Holds(t.folder.home, t.image)
    ensures Exe !in t.folder.files <==> t.stranded || Stage(t).MovingNew? || Stage(t).PuttingBack?
  {
    hide Signed;
    hide Stage;
  }

  lemma {:induction false} ChainRises(runs: seq<Run>, i: nat, j: nat)
    requires Chain(runs) && i < j < |runs|
    ensures if exists k :: i <= k < j && runs[k].swaps == 1
            then runs[i].version.Less(runs[j].version) else runs[i].version == runs[j].version
    decreases j - i
  {
    assert Follows(runs[j - 1], runs[j - 1 + 1]);
    if i < j - 1 {
      ChainRises(runs, i, j - 1);
    }
  }

  /** Versions never fall from run to run, and rise exactly when a swap succeeded in
      between, if signed builds report the version they are signed as. */
  lemma VersionsRise(w: World, s: State, events: seq<Event>, i: nat, j: nat)
    requires Initial(s) && w.Honest() && i < j < |After(w, s, events).History(w)|
    ensures var runs := After(w, s, events).History(w);
            if exists k :: i <= k < j && runs[k].swaps == 1
            then runs[i].version.Less(runs[j].version) else runs[i].version == runs[j].version
  {
    hide Initial;
    hide After;
    hide Chain;
    hide ExeRight;
    Reachable(w, s, events);
    ChainRises(After(w, s, events).History(w), i, j);
  }

  // ----- Whom an exit cuts off -----

  /** The session that an event takes past its arrival, and past its end. */
  ghost function Entering(s: State, e: Event): set<nat> {
    if e.Go? && e.thread < |s.threads| && s.threads[e.thread].at.Arriving? then {e.thread} else {}
  }

  ghost function Ending(s: State, e: Event): set<nat> {
    if e.Go? && e.thread < |s.threads| && s.threads[e.thread].at.Leaving? then {e.thread} else {}
  }

  /** The sessions that pass their arrival during a series of events. */
  ghost function Entered(w: World, s: State, events: seq<Event>): set<nat>
    decreases |events|
  {
    if events == [] then {} else Entering(s, events[0]) + Entered(w, Step(w, s, events[0]), events[1..])
  }

  ghost function Left(w: World, s: State, events: seq<Event>): set<nat>
    decreases |events|
  {
    if events == [] then {} else Ending(s, events[0]) + Left(w, Step(w, s, events[0]), events[1..])
  }

  /** Nothing stops the process, and thread i does not run. */
  predicate Undisturbed(events: seq<Event>, i: nat) {
    forall e :: e in events ==> !e.Kill? && !(e.Go? && e.thread == i)
  }

  /** A running process in which thread i is about to exit. */
  predicate AboutToExit(s: State, i: nat) {
    s.phase.Up? && i < |s.threads| && s.threads[i].at.Exiting?
  }

  lemma OnlyOneWaits(s: State, i: nat, j: nat)
    requires CountersRight(s) && i < |s.threads| && j < |s.threads|
    requires s.threads[i].Waits() && s.threads[j].Waits()
    ensures i == j
  {
    if i != j {
      CountPair(s.threads, Min(i, j), Max(i, j), Waits);
    }
  }

  lemma GuardsUpdate(ts: seq<Thread>, k: nat, t: Thread)
    requires k < |ts|
    ensures Guards(ts[k := t]) == if t.Guarded() then Guards(ts) + {k} else Guards(ts) - {k}
  {
  }

  /** While thread i is about to exit, a session's guard lives from its entering to
      its ending, whatever the others do. */
  lemma GuardsStep(w: World, s: State, e: Event, i: nat)
    requires Inv(w, s) && AboutToExit(s, i) && !e.Kill? && !(e.Go? && e.thread == i)
    ensures AboutToExit(Step(w, s, e), i)
    ensures Guards(Step(w, s, e).threads) == Guards(s.threads) + Entering(s, e) - Ending(s, e)
    ensures forall k: nat :: k < |s.threads| && !s.threads[k].at.Arriving? ==>
              k < |Step(w, s, e).threads| && !Step(w, s, e).threads[k].at.Arriving?
  {
    hide Guards;
    hide Inv;
    hide Step;
    match e {
      case Go(k, c) =>
        if k < |s.threads| {
          UpMeans(w, s);
          GoGuards(w, s, k, c, i);
        } else {
          NobodyGoes(w, s, k, c);
        }
      case _ => OthersGuards(w, s, e, i);
    }
  }

  lemma NobodyGoes(w: World, s: State, k: nat, c: Choice)
    requires k >= |s.threads|
    ensures Step(w, s, Go(k, c)) == s
  {
  }

  lemma OthersGuards(w: World, s: State, e: Event, i: nat)
    requires AboutToExit(s, i) && !e.Kill? && !e.Go?
    ensures AboutToExit(Step(w, s, e), i)
    ensures Guards(Step(w, s, e).threads) == Guards(s.threads)
    ensures forall k :: 0 <= k < |s.threads| ==> k < |Step(w, s, e).threads| && Step(w, s, e).threads[k] == s.threads[k]
  {
    hide Guards;
    if e.Connect? {
      ConnectGuards(s);
    }
  }

  lemma UpMeans(w: World, s: State)
    requires Inv(w, s) && s.phase.Up?
    ensures LockRight(s) && CountersRight(s) && ThreadsRight(s)
  {
    hide LockRight;
    hide CountersRight;
    hide ThreadsRight;
    hide FolderRight;
    hide Chain;
    hide ExeRight;
  }

  lemma ConnectGuards(s: State)
    ensures Guards(s.threads + [Thread(false, Arriving)]) == Guards(s.threads)
  {
  }

  lemma GoGuards(w: World, s: State, k: nat, c: Choice, i: nat)
    requires s.phase.Up? && CountersRight(s) && ThreadsRight(s)
    requires AboutToExit(s, i) && k != i && k < |s.threads|
    ensures var s' := Step(w, s, Go(k, c));
            && s'.phase.Up? && |s'.threads| == |s.threads| && s'.threads[i] == s.threads[i]
            && Guards(s'.threads) == Guards(s.threads) + Entering(s, Go(k, c)) - Ending(s, Go(k, c))
            && forall j: nat :: j < |s.threads| && !s.threads[j].at.Arriving? ==> !s'.threads[j].at.Arriving?
  {
    hide Guards;
    hide CheckStep;
    hide ThreadStep;
    hide CountersRight;
    hide Knows;
    if s.threads[k].at.Critical() {
      CheckGuards(w, s, k, c);
    } else {
      assert InRole(s.threads[k]);
      if s.threads[k].at.Exiting? {
        OnlyOneWaits(s, i, k);
      }
      ThreadGuards(s, k, c);
      var t' := ThreadStep(s, k, c).threads[k];
      GuardsUpdate(s.threads, k, t');
      GuardsMember(s.threads, k);
    }
  }

  lemma GuardsMember(ts: seq<Thread>, k: nat)
    requires k < |ts|
    ensures k in Guards(ts) <==> ts[k].Guarded()
  {
  }

  lemma CheckGuards(w: World, s: State, k: nat, c: Choice)
    requires s.phase.Up? && k < |s.threads| && s.threads[k].at.Critical()
    ensures var s' := CheckStep(w, s, k, c);
            && s'.phase.Up? && |s'.threads| == |s.threads| && Guards(s'.threads) == Guards(s.threads)
            && forall j: nat :: j < |s.threads| ==>
                 (j != k ==> s'.threads[j] == s.threads[j]) && !(j == k && s'.threads[j].at.Arriving?)
  {
    hide Advance;
    var s' := CheckStep(w, s, k, c);
    GuardsUpdate(s.threads, k, s'.threads[k]);
  }

  lemma ThreadGuards(s: State, k: nat, c: Choice)
    requires s.phase.Up? && k < |s.threads| && InRole(s.threads[k])
    requires !s.threads[k].at.Critical() && !s.threads[k].at.Exiting?
    ensures var s' := ThreadStep(s, k, c);
            && s'.phase.Up? && |s'.threads| == |s.threads|
            && (s'.threads[k].Guarded() <==>
                  s.threads[k].at.Arriving? || (s.threads[k].Guarded() && !s.threads[k].at.Leaving?))
            && s'.threads == s.threads[k := s'.threads[k]] && !s'.threads[k].at.Arriving?
  {
    hide MoveOf;
    MoveCounts(s, k, c);
  }

  lemma {:induction false} NeverEntersAgain(w: World, s: State, events: seq<Event>, i: nat, k: nat)
    requires Inv(w, s) && AboutToExit(s, i) && Undisturbed(events, i)
    requires k < |s.threads| && !s.threads[k].at.Arriving?
    ensures k !in Entered(w, s, events)
    decreases |events|
  {
    hide Inv;
    hide Step;
    if events != [] {
      assert events[0] in events;
      GuardsStep(w, s, events[0], i);
      StepKeeps(w, s, events[0]);
      NeverEntersAgain(w, Step(w, s, events[0]), events[1..], i, k);
    }
  }

  lemma {:induction false} GuardsThrough(w: World, s: State, events: seq<Event>, i: nat)
    requires Inv(w, s) && AboutToExit(s, i) && Undisturbed(events, i)
    ensures AboutToExit(After(w, s, events), i)
    ensures Guards(After(w, s, events).threads) == Guards(s.threads) + Entered(w, s, events) - Left(w, s, events)
    decreases |events|
  {
    hide Inv;
    hide Step;
    hide Guards;
    if events != [] {
      var e, s' := events[0], Step(w, s, events[0]);
      assert e in events;
      GuardsStep(w, s, e, i);
      StepKeeps(w, s, e);
      GuardsThrough(w, s', events[1..], i);
      forall k | k in Ending(s, e)
        ensures k !in Entered(w, s', events[1..])
      {
        NeverEntersAgain(w, s', events[1..], i, k);
      }
    }
  }

  /** The places of the sessions that have connected and not made their guard yet. */
  ghost function Arrivals(ts: seq<Thread>): set<nat> {
    set i: nat | i < |ts| && ts[i].at.Arriving?
  }

  ghost function Connecting(s: State, e: Event): set<nat> {
    if e.Connect? && s.phase.Up? then {|s.threads|} else {}
  }

  /** The sessions that connect during a series of events. */
  ghost function Connected(w: World, s: State, events: seq<Event>): set<nat>
    decreases |events|
  {
    if events == [] then {} else Connecting(s, events[0]) + Connected(w, Step(w, s, events[0]), events[1..])
  }

  lemma ArrivalsAppend(ts: seq<Thread>)
    ensures Arrivals(ts + [Thread(false, Arriving)]) == Arrivals(ts) + {|ts|}
  {
    var more := ts + [Thread(false, Arriving)];
    forall i: nat
      ensures i in Arrivals(more) <==> i in Arrivals(ts) + {|ts|}
    {
    }
  }

  lemma ArrivalsUpdate(ts: seq<Thread>, ts': seq<Thread>, k: nat)
    requires k < |ts| == |ts'| && !ts'[k].at.Arriving?
    requires forall j: nat :: j < |ts| && j != k ==> ts'[j] == ts[j]
    ensures Arrivals(ts') == Arrivals(ts) - {k}
    ensures k in Arrivals(ts) <==> ts[k].at.Arriving?
  {
  }

  /** While thread i is about to exit, a session arrives by connecting until it enters. */
  lemma ArrivalsStep(w: World, s: State, e: Event, i: nat)
    requires Inv(w, s) && AboutToExit(s, i) && !e.Kill? && !(e.Go? && e.thread == i)
    ensures var s' := Step(w, s, e);
            && |s.threads| + |Connecting(s, e)| <= |s'.threads|
            && Arrivals(s'.threads) == Arrivals(s.threads) + Connecting(s, e) - Entering(s, e)
  {
    hide Arrivals;
    UpMeans(w, s);
    hide Inv;
    hide CountersRight;
    match e {
      case Connect => ArrivalsAppend(s.threads);
      case Go(k, c) =>
        if k < |s.threads| {
          GoMovesOne(w, s, k, c, i);
          ArrivalsUpdate(s.threads, Step(w, s, Go(k, c)).threads, k);
        }
      case _ =>
    }
  }

  lemma GoMovesOne(w: World, s: State, k: nat, c: Choice, i: nat)
    requires s.phase.Up? && CountersRight(s) && ThreadsRight(s)
    requires AboutToExit(s, i) && k != i && k < |s.threads|
    ensures var ts' := Step(w, s, Go(k, c)).threads;
            && |ts'| == |s.threads| && !ts'[k].at.Arriving?
            && forall j: nat :: j < |s.threads| && j != k ==> ts'[j] == s.threads[j]
  {
    hide Guards;
    hide CheckStep;
    hide ThreadStep;
    hide CountersRight;
    hide Knows;
    if s.threads[k].at.Critical() {
      CheckGuards(w, s, k, c);
    } else {
      assert InRole(s.threads[k]);
      if s.threads[k].at.Exiting? {
        OnlyOneWaits(s, i, k);
      }
      ThreadGuards(s, k, c);
    }
  }

  lemma {:induction false} ConnectedLater(w: World, s: State, events: seq<Event>, i: nat)
    requires Inv(w, s) && AboutToExit(s, i) && Undisturbed(events, i)
    ensures forall k :: k in Connected(w, s, events) ==> k >= |s.threads|
    decreases |events|
  {
    hide Inv;
    hide Step;
    hide Arrivals;
    if events != [] {
      assert events[0] in events;
      GuardsStep(w, s, events[0], i);
      ArrivalsStep(w, s, events[0], i);
      StepKeeps(w, s, events[0]);
      ConnectedLater(w, Step(w, s, events[0]), events[1..], i);
    }
  }

  lemma {:induction false} ArrivalsThrough(w: World, s: State, events: seq<Event>, i: nat)
    requires Inv(w, s) && AboutToExit(s, i) && Undisturbed(events, i)
    ensures Arrivals(After(w, s, events).threads)
         == Arrivals(s.threads) + Connected(w, s, events) - Entered(w, s, events)
    decreases |events|
  {
    hide Inv;
    hide Step;
    hide Arrivals;
    hide Guards;
    if events != [] {
      var e, s' := events[0], Step(w, s, events[0]);
      assert e in events;
      GuardsStep(w, s, e, i);
      ArrivalsStep(w, s, e, i);
      StepKeeps(w, s, e);
      ArrivalsThrough(w, s', events[1..], i);
      ConnectedLater(w, s', events[1..], i);
    }
  }

  /** Exactly when an exit cuts a session off. A waiting thread looks at the counter
      and decides to exit, because it saw zero or the hour had passed; other threads
      go on until it does. Cut off are the sessions with a guard, which are those at the
      look and those that entered since, without the ones that ended; and the sessions
      still before their guard. So if it saw zero, no session is cut off if and only if
      every one that was arriving at the look or connected since has entered, and every
      one that entered since has ended; and whoever is cut off with a guard entered
      after the look. */
  lemma CutOffExactly(w: World, s: State, events: seq<Event>, i: nat, c: Choice, since: seq<Event>)
    requires Initial(s) && Undisturbed(since, i)
    requires var t := After(w, s, events);
             i < |t.threads| && t.threads[i].at.Waiting? && (t.active == 0 || c.ok)
    ensures var t := After(w, s, events);
            var looked := Step(w, t, Go(i, c));
            var exit := After(w, looked, since);
            var entered, left := Entered(w, looked, since), Left(w, looked, since);
            var arrived := Arrivals(t.threads) + Connected(w, looked, since);
            var cutOff := Guards(exit.threads) + Arrivals(exit.threads);
            && AboutToExit(exit, i) && Step(w, exit, Go(i, c)).phase.Down?
            && Guards(exit.threads) == Guards(t.threads) + entered - left
            && Arrivals(exit.threads) == arrived - entered
            && (t.active == 0 ==> (cutOff == {} <==> arrived <= entered && entered <= left))
            && (t.active == 0 ==> Guards(exit.threads) <= entered)
  {
    hide Initial;
    hide After;
    hide Guards;
    hide Arrivals;
    hide Entered;
    hide Connected;
    hide Left;
    Reachable(w, s, events);
    var t := After(w, s, events);
    Decided(w, t, i, c);
    hide Inv;
    hide Step;
    var looked := Step(w, t, Go(i, c));
    GuardsThrough(w, looked, since, i);
    ArrivalsThrough(w, looked, since, i);
    ExitEnds(w, After(w, looked, since), i, c);
  }

  lemma Decided(w: World, t: State, i: nat, c: Choice)
    requires Inv(w, t) && i < |t.threads| && t.threads[i].at.Waiting? && (t.active == 0 || c.ok)
    ensures Inv(w, Step(w, t, Go(i, c))) && AboutToExit(Step(w, t, Go(i, c)), i)
    ensures Guards(Step(w, t, Go(i, c)).threads) == Guards(t.threads)
    ensures Arrivals(Step(w, t, Go(i, c)).threads) == Arrivals(t.threads)
    ensures t.active == 0 ==> Guards(t.threads) == {}
  {
    hide Inv;
    hide Step;
    hide Guards;
    hide Arrivals;
    ArrivalsUpdate(t.threads, t.To(i, Exiting).threads, i);
    ThreadsMeanUp(w, t);
    StepKeeps(w, t, Go(i, c));
    DecidingStep(w, t, i, c);
    WaitingHoldsNone(t, i);
    NoneAtZero(w, t);
  }

  lemma WaitingHoldsNone(t: State, i: nat)
    requires i < |t.threads| && t.threads[i].at.Waiting?
    ensures Guards(t.To(i, Exiting).threads) == Guards(t.threads)
  {
    hide Guards;
    GuardsUpdate(t.threads, i, t.threads[i].(at := Exiting));
    GuardsMember(t.threads, i);
  }

  lemma NoneAtZero(w: World, t: State)
    requires Inv(w, t) && t.phase.Up?
    ensures t.active == 0 ==> Guards(t.threads) == {}
  {
    hide Inv;
    hide Count;
    hide Guards;
    ActiveIsCount(w, t);
    CountIsSize(t.threads);
  }

  lemma DecidingStep(w: World, t: State, i: nat, c: Choice)
    requires t.phase.Up? && i < |t.threads| && t.threads[i].at.Waiting? && (t.active == 0 || c.ok)
    ensures Step(w, t, Go(i, c)) == t.To(i, Exiting)
  {
    hide CheckStep;
  }

  lemma ActiveIsCount(w: World, s: State)
    requires Inv(w, s) && s.phase.Up?
    ensures s.active == Count(s.threads, Guarded)
  {
    hide Count;
    hide Chain;
    hide ExeRight;
    hide FolderRight;
  }

  lemma ExitEnds(w: World, s: State, i: nat, c: Choice)
    requires AboutToExit(s, i)
    ensures Step(w, s, Go(i, c)).phase.Down?
  {
    hide CheckStep;
  }

  // ----- Why a thread exits -----

  lemma {:induction false} AfterLast(w: World, s: State, events: seq<Event>)
    requires events != []
    ensures var n := |events| - 1;
            After(w, s, events) == Step(w, After(w, s, events[..n]), events[n])
    decreases |events|
  {
    hide Step;
    var n := |events| - 1;
    if n > 0 {
      assert events[1..][..n - 1] == events[..n][1..];
      AfterLast(w, Step(w, s, events[0]), events[1..]);
    }
  }

  /** The n-th event let thread i exit: it had been waiting, and no session held a guard
      or the hour had passed; from then on it was left alone. */
  ghost predicate LetGo(w: World, s: State, events: seq<Event>, i: nat, n: nat) {
    && n < |events| && events[n].Go? && events[n].thread == i && Undisturbed(events[n + 1..], i)
    && var t := After(w, s, events[..n]);
       && i < |t.threads| && t.threads[i].at.Waiting?
       && (Guards(t.threads) == {} || events[n].choice.ok)
  }

  /** What brought a thread to its exit was a step of its own from its wait, or some
      event after that which left it there. */
  lemma ExitStep(w: World, t: State, e: Event, i: nat)
    requires Inv(w, t) && i < |Step(w, t, e).threads| && Step(w, t, e).threads[i].at.Exiting?
    ensures i < |t.threads|
    ensures if e.Go? && e.thread == i
            then t.threads[i].at.Waiting? && (Guards(t.threads) == {} || e.choice.ok)
            else !e.Kill? && t.threads[i].at.Exiting?
  {
    hide Guards;
    hide Inv;
    match e {
      case Go(k, c) =>
        if k < |t.threads| {
          ThreadsMeanUp(w, t);
          GoExits(w, t, k, c, i);
          if k == i {
            ActiveIsCount(w, t);
            NoneAtZero(w, t);
          }
        }
      case _ =>
    }
  }

  lemma GoExits(w: World, t: State, k: nat, c: Choice, i: nat)
    requires k < |t.threads|
    requires i < |Step(w, t, Go(k, c)).threads| && Step(w, t, Go(k, c)).threads[i].at.Exiting?
    ensures i < |t.threads|
    ensures if k == i then t.threads[i].at.Waiting? && (t.active <= 0 || c.ok) else t.threads[i].at.Exiting?
  {
    hide CheckStep;
    hide ThreadStep;
    if t.threads[k].at.Critical() {
      CheckNeverExits(w, t, k, c);
    } else {
      ThreadExits(t, k, c, i);
    }
  }

  lemma CheckNeverExits(w: World, t: State, k: nat, c: Choice)
    requires k < |t.threads| && t.threads[k].at.Critical()
    ensures var ts := CheckStep(w, t, k, c).threads;
            |ts| == |t.threads| && !ts[k].at.Exiting? && forall j :: 0 <= j < |ts| && j != k ==> ts[j] == t.threads[j]
  {
    hide Advance;
  }

  lemma ThreadExits(t: State, k: nat, c: Choice, i: nat)
    requires k < |t.threads| && !t.threads[k].at.Critical()
    requires i < |ThreadStep(t, k, c).threads| && ThreadStep(t, k, c).threads[i].at.Exiting?
    ensures i < |t.threads|
    ensures if k == i then t.threads[i].at.Waiting? && (t.active <= 0 || c.ok) else t.threads[i].at.Exiting?
  {
  }

  /** A thread exits only when it saw no session with a guard, or waited an hour. */
  lemma {:induction false} ExitWasLet(w: World, s: State, events: seq<Event>, i: nat) returns (n: nat)
    requires Initial(s) && i < |After(w, s, events).threads| && After(w, s, events).threads[i].at.Exiting?
    ensures LetGo(w, s, events, i, n)
    decreases |events|
  {
    hide After;
    hide Step;
    hide LetGo;
    hide Initial;
    hide Inv;
    n := 0;
    if events == [] {
      NoneExitsYet(w, s);
    } else {
      var k := |events| - 1;
      AfterLast(w, s, events);
      Reachable(w, s, events[..k]);
      ExitStep(w, After(w, s, events[..k]), events[k], i);
      if events[k].Go? && events[k].thread == i {
        n := k;
        LetGoNow(w, s, events, i);
      } else {
        n := ExitWasLet(w, s, events[..k], i);
        LetGoLonger(w, s, events, i, n);
      }
    }
  }

  lemma LetGoLonger(w: World, s: State, events: seq<Event>, i: nat, n: nat)
    requires events != [] && LetGo(w, s, events[..|events| - 1], i, n)
    requires !events[|events| - 1].Kill? && !(events[|events| - 1].Go? && events[|events| - 1].thread == i)
    ensures LetGo(w, s, events, i, n)
  {
    hide After;
    hide Guards;
    var k := |events| - 1;
    assert events[..k][..n] == events[..n];
    assert events[n + 1..] == events[..k][n + 1..] + [events[k]];
  }

  lemma LetGoNow(w: World, s: State, events: seq<Event>, i: nat)
    requires events != []
    requires var k := |events| - 1;
             var t := After(w, s, events[..k]);
             && events[k].Go? && events[k].thread == i
             && i < |t.threads| && t.threads[i].at.Waiting?
             && (Guards(t.threads) == {} || events[k].choice.ok)
    ensures LetGo(w, s, events, i, |events| - 1)
  {
    hide After;
    hide Guards;
  }

  lemma NoneExitsYet(w: World, s: State)
    requires Initial(s)
    ensures After(w, s, []).threads == []
  {
  }

  lemma OutcomeTaken(w: World, s: State, i: nat, v: Version, c: Choice)
    requires i < |s.threads| && s.threads[i].at == Replying(Fine(Installed(v))) && c.ok
    ensures Step(w, s, Go(i, c)) == s.To(i, if s.threads[i].daily then Restarting else Leaving(true))
  {
    hide CheckStep;
  }

  lemma GuardDropped(w: World, s: State, i: nat, c: Choice)
    requires i < |s.threads| && s.threads[i].at.Leaving?
    ensures Step(w, s, Go(i, c))
         == s.To(i, if s.threads[i].at.updated then Restarting else Gone).(active := s.active - 1)
  {
    hide CheckStep;
  }

  lemma RestartTurn(w: World, s: State, i: nat, c: Choice)
    requires i < |s.threads| && s.threads[i].at.Restarting?
    ensures Step(w, s, Go(i, c))
         == s.To(i, if !s.waiting then Waiting else if s.threads[i].daily then Sleeping else Gone).(waiting := true)
  {
    hide CheckStep;
  }

  /** Whoever was told of an installed update goes on to wait, unless another does
      already: the daily thread at once, a session when its client took the reply and its
      guard is dropped. */
  lemma RestartFollows(w: World, s: State, i: nat, v: Version, c: Choice)
    requires s.phase.Up? && i < |s.threads| && s.threads[i].at == Replying(Fine(Installed(v))) && c.ok
    ensures var daily := s.threads[i].daily;
            var t := After(w, s, if daily then [Go(i, c), Go(i, c)] else [Go(i, c), Go(i, c), Go(i, c)]);
            && t.waiting && |t.threads| == |s.threads|
            && t.threads[i].at == (if !s.waiting then Waiting else if daily then Sleeping else Gone)
            && t.active == s.active - (if daily then 0 else 1)
            && t == s.(threads := s.threads[i := t.threads[i]], waiting := true, active := t.active)
  {
    hide Step;
    hide After;
    var s1 := Step(w, s, Go(i, c));
    OutcomeTaken(w, s, i, v, c);
    if s.threads[i].daily {
      AfterTwo(w, s, Go(i, c), Go(i, c));
      RestartTurn(w, s1, i, c);
    } else {
      AfterThree(w, s, Go(i, c), Go(i, c), Go(i, c));
      GuardDropped(w, s1, i, c);
      RestartTurn(w, Step(w, s1, Go(i, c)), i, c);
    }
  }

  /** A client that asks for an update gets its check as soon as the lock is free; one
      that leaves, or did not take its reply, restarts nothing, whatever was installed. */
  lemma ClientAsks(w: World, s: State, i: nat, c: Choice)
    requires s.phase.Up? && i < |s.threads| && !s.threads[i].daily
    ensures s.threads[i].at.Serving? && c.ok && s.lock.None? && s.installed.None? ==>
              After(w, s, [Go(i, c), Go(i, c)]) == s.To(i, Fetching).(lock := Some(i))
    ensures (s.threads[i].at.Serving? || s.threads[i].at.Replying?) && !c.ok ==>
              After(w, s, [Go(i, c), Go(i, c)]) == s.To(i, Gone).(active := s.active - 1)
  {
    hide Step;
    hide After;
    AfterTwo(w, s, Go(i, c), Go(i, c));
    var s1 := Step(w, s, Go(i, c));
    if s.threads[i].at.Serving? && c.ok {
      Asks(w, s, i, c);
      TakesLock(w, s1, i, c);
    } else if (s.threads[i].at.Serving? || s.threads[i].at.Replying?) && !c.ok {
      Leaves(w, s, i, c);
      GuardDropped(w, s1, i, c);
    }
  }

  lemma Asks(w: World, s: State, i: nat, c: Choice)
    requires i < |s.threads| && s.threads[i].at.Serving? && c.ok
    ensures Step(w, s, Go(i, c)) == s.To(i, Locking)
  {
    hide CheckStep;
  }

  lemma TakesLock(w: World, s: State, i: nat, c: Choice)
    requires i < |s.threads| && s.threads[i].at.Locking?
    ensures s.lock.None? && s.installed.None? ==> Step(w, s, Go(i, c)) == s.To(i, Fetching).(lock := Some(i))
  {
    hide CheckStep;
  }

  lemma Leaves(w: World, s: State, i: nat, c: Choice)
    requires i < |s.threads| && !s.threads[i].daily && !c.ok
    requires s.threads[i].at.Serving? || s.threads[i].at.Replying?
    ensures Step(w, s, Go(i, c)) == s.To(i, Leaving(false))
  {
    hide CheckStep;
  }

  /** After any other outcome the session serves on and the daily thread sleeps; once an
      update is in place, every check answers with it and leaves the folder alone. */
  lemma OtherwiseServesOn(w: World, s: State, i: nat, c: Choice)
    requires s.phase.Up? && i < |s.threads|
    ensures s.threads[i].at.Replying? && c.ok
            && (s.threads[i].at.outcome.Failed? || s.threads[i].at.outcome.update.UpToDate?) ==>
              Step(w, s, Go(i, c)) == s.To(i, if s.threads[i].daily then Sleeping else Serving)
    ensures s.threads[i].at.Locking? && s.lock.None? && s.installed.Some? ==>
              Step(w, s, Go(i, c)) == s.To(i, Replying(Fine(Installed(s.installed.value))))
  {
    hide CheckStep;
  }

  /** Starting takes away what an update left: OLD first, then NEW, each if the system
      lets it; EXE stays. Then the daily thread alone is there. */
  lemma CleansUp(w: World, s: State, a: bool, b: bool)
    requires s.phase.CleaningOld? && Fresh(s)
    ensures var t := After(w, s, [Clean(a), Clean(b)]);
            && t.phase.Up? && t.threads == [Thread(true, Sleeping)] && t.folder.home == Exe
            && t.folder.Holds(Exe, s.image)
            && t.folder.files == s.folder.files - (if a then {Old} else {}) - (if b then {New} else {})
  {
    hide After;
    AfterTwo(w, s, Clean(a), Clean(b));
    var files := s.folder.files;
    assert Old !in files ==> files - {Old} == files;
    assert New !in files - {Old} ==> files - {Old} - {New} == files - {Old};
    assert New !in files ==> files - {New} == files;
    assert files - {} == files;
  }

  // ----- A check left to itself -----

  /** A check run on until it has an outcome, `n` steps at most. */
  function Checked(w: World, image: Image, k: Work, c: Choice, n: nat): Work
    decreases n
  {
    if n == 0 || !k.at.Critical() then k else Checked(w, image, Advance(w, image, k, c), c, n - 1)
  }

  lemma TwoSteps(w: World, image: Image, a: Work, b: Work, d: Work, c: Choice, n: nat)
    requires a.at.Critical() && Advance(w, image, a, c) == b
    requires b.at.Critical() && Advance(w, image, b, c) == d
    ensures Checked(w, image, a, c, n + 2) == Checked(w, image, d, c, n)
  {
    hide Advance;
    assert Checked(w, image, a, c, n + 2) == Checked(w, image, b, c, n + 1);
  }

  lemma BuildFetched(w: World, image: Image, d: Folder, c: Choice, v: Version)
    requires c.sig.Some? && c.exe.Some?
    requires VerifyUpdate(w, c.exe.value, c.sig.value, w.reports(image)) == Accepted(v)
    ensures Checked(w, image, Work(Fetching, d, 0, false), c, 8)
            == Checked(w, image, Work(Creating(c.exe.value, v), d, 0, false), c, 6)
  {
    hide VerifyUpdate;
    hide Announced;
    hide CommentFor;
    hide Checked;
    AcceptedExactly(w, c.exe.value, c.sig.value, w.reports(image), v);
    var k := Work(Fetching, d, 0, false);
    TwoSteps(w, image, k, k.(at := FetchingExe(c.sig.value)), k.(at := Creating(c.exe.value, v)), c, 6);
  }

  /** With NEW written and OLD gone, nothing refused. */
  lemma BuildSwapped(w: World, image: Image, d: Folder, c: Choice, exe: Image, v: Version)
    requires c.ok && AtHome(d, image) && d.Holds(New, exe) && Old !in d.files
    ensures Checked(w, image, Work(MovingExe(exe, v), d, 0, false), c, 3)
            == Work(Replying(Fine(Installed(v))), Folder(map[Exe := exe, Old := image], Old), 1, false)
  {
    var k := Work(MovingExe(exe, v), d, 0, false);
    var aside := d.Rename(Exe, Old);
    var placed := aside.Rename(New, Exe);
    forall n: FileName
      ensures n in placed.files <==> n in map[Exe := exe, Old := image]
    {
      match n { case Exe => case New => case Old => }
    }
    assert placed.files == map[Exe := exe, Old := image];
    var last := Work(Recording(exe, v), placed, 1, false);
    TwoSteps(w, image, k, k.(at := MovingNew(exe, v), folder := aside), last, c, 1);
    assert Advance(w, image, last, c) == last.(at := Replying(Fine(Installed(v))));
  }

  /** With nothing refused, a check that fetches an acceptable build installs it:
      EXE is the build, OLD what ran, NEW is gone. */
  lemma UpdateGoesThrough(w: World, image: Image, d: Folder, c: Choice, v: Version)
    requires AtHome(d, image) && c.ok && c.sig.Some? && c.exe.Some?
    requires VerifyUpdate(w, c.exe.value, c.sig.value, w.reports(image)) == Accepted(v)
    ensures Checked(w, image, Work(Fetching, d, 0, false), c, 8)
            == Work(Replying(Fine(Installed(v))), Folder(map[Exe := c.exe.value, Old := image], Old), 1, false)
  {
    hide VerifyUpdate;
    hide Announced;
    hide Checked;
    BuildFetched(w, image, d, c, v);
    var exe := c.exe.value;
    var k := Work(Creating(exe, v), d, 0, false);
    var d1 := d.Write(New, []);
    var d2 := d1.Write(New, exe);
    TwoSteps(w, image, k, k.(at := Writing(exe, v), folder := d1), k.(at := RemovingOld(exe, v), folder := d2), c, 4);
    OldRemoved(w, image, d2, c, exe, v);
  }

  lemma OldRemoved(w: World, image: Image, d: Folder, c: Choice, exe: Image, v: Version)
    requires c.ok && AtHome(d, image) && d.Holds(New, exe)
    ensures Checked(w, image, Work(RemovingOld(exe, v), d, 0, false), c, 4)
            == Work(Replying(Fine(Installed(v))), Folder(map[Exe := exe, Old := image], Old), 1, false)
  {
    var k := Work(RemovingOld(exe, v), d, 0, false);
    var gone := if Old in d.files then d.Remove(Old) else d;
    assert Advance(w, image, k, c) == k.(at := MovingExe(exe, v), folder := gone);
    BuildSwapped(w, image, gone, c, exe, v);
  }

  /** What a check leaves that is stopped while it writes or swaps: of a write at most a
      beginning of the build, beside what was there; and EXE is back in its place unless
      putting it back is refused. */
  lemma FailureLeaves(w: World, image: Image, k: Work, c: Choice)
    requires FolderRight(w, image, k, None)
    ensures k.at.Writing? && !c.ok && k.folder.home != New ==>
              var r := Advance(w, image, k, c);
              && r.at == Replying(Failed) && New in r.folder.files && r.folder.files[New] <= k.at.exe
              && |r.folder.files[New]| == Min(c.part, |k.at.exe|)
              && r.folder.files - {New} == k.folder.files - {New}
    ensures k.at.PuttingBack? ==>
              var r := Advance(w, image, k, c);
              && r.at == Replying(Failed) && (r.stranded <==> !c.ok) && (AtHome(r.folder, image) <==> c.ok)
  {
    hide Signed;
  }

  /** The signature's comment names version `v`. */
  predicate Announces(w: World, c: Choice, v: Version) {
    c.sig.Some? && w.comment(c.sig.value) == Some(CommentFor(v)) && v.Fits()
  }

  /** How a check ends when nothing is refused. It installs what the key signed as newer;
      it is up to date when the version announced is not newer, whatever else could be
      fetched; otherwise it fails. But for an installation the folder is as it was. */
  lemma CheckDecides(w: World, image: Image, d: Folder, c: Choice, v: Version)
    requires AtHome(d, image) && c.ok
    ensures var r := Checked(w, image, Work(Fetching, d, 0, false), c, 8);
            var running := w.reports(image);
            && r.at.Replying?
            && (r.at.outcome == Fine(Installed(v)) <==>
                  c.exe.Some? && Announces(w, c, v) && running.Less(v)
                  && w.keyParses && w.verifies(c.exe.value, c.sig.value))
            && (Announces(w, c, v) ==> (r.at.outcome == Fine(UpToDate(running)) <==> !running.Less(v)))
            && (r.at.outcome.Fine? && r.at.outcome.update.UpToDate? ==>
                  r.at.outcome.update.version == running && c.sig.Some? && Announced(w, c.sig.value).Accepted?)
            && (!(r.at.outcome.Fine? && r.at.outcome.update.Installed?) ==> r == Work(r.at, d, 0, false))
  {
    hide VerifyUpdate;
    hide Announced;
    hide Checked;
    hide CommentFor;
    var k := Work(Fetching, d, 0, false);
    var running := w.reports(image);
    if c.sig.Some? {
      AnnouncedExactly(w, c.sig.value, v);
      if c.exe.Some? {
        AcceptedExactly(w, c.exe.value, c.sig.value, running, v);
      }
      var found := Announced(w, c.sig.value);
      if found.Accepted? && running.Less(found.version) {
        var next := k.(at := FetchingExe(c.sig.value));
        if c.exe.Some? && VerifyUpdate(w, c.exe.value, c.sig.value, running).Accepted? {
          UpdateGoesThrough(w, image, d, c, VerifyUpdate(w, c.exe.value, c.sig.value, running).version);
        } else {
          OneStep(w, image, k, c, 7);
          OneStep(w, image, next, c, 6);
          Settled(w, image, next.Fail(), c, 6);
        }
      } else {
        OneStep(w, image, k, c, 7);
        Settled(w, image, Advance(w, image, k, c), c, 7);
        if c.exe.Some? {
          NeverBoth(w, c.exe.value, c.sig.value, running);
        }
      }
    } else {
      OneStep(w, image, k, c, 7);
      Settled(w, image, k.Fail(), c, 7);
    }
  }

  lemma OneStep(w: World, image: Image, k: Work, c: Choice, n: nat)
    requires k.at.Critical()
    ensures Checked(w, image, k, c, n + 1) == Checked(w, image, Advance(w, image, k, c), c, n)
  {
    hide Advance;
  }

  lemma Settled(w: World, image: Image, k: Work, c: Choice, n: nat)
    requires !k.at.Critical()
    ensures Checked(w, image, k, c, n) == k
  {
  }

  lemma AnnouncedExactly(w: World, sig: string, v: Version)
    ensures Announced(w, sig) == Accepted(v) <==> w.comment(sig) == Some(CommentFor(v)) && v.Fits()
  {
    hide CommentVersion;
    hide CommentFor;
    if w.comment(sig).Some? {
      CommentSpelled(w.comment(sig).value, v);
    }
  }

  /** What is accepted was announced as newer. */
  lemma NeverBoth(w: World, exe: Image, sig: string, running: Version)
    ensures VerifyUpdate(w, exe, sig, running).Accepted? ==>
              var v := VerifyUpdate(w, exe, sig, running).version;
              Announced(w, sig) == Accepted(v) && running.Less(v)
  {
    hide CommentVersion;
    hide CommentFor;
    if VerifyUpdate(w, exe, sig, running).Accepted? {
      AcceptedExactly(w, exe, sig, running, VerifyUpdate(w, exe, sig, running).version);
    }
  }

  // ----- A run that cuts a session off -----

  const FIRST_VERSION := Version(0, 0, 1)
  const NEXT_VERSION := Version(0, 0, 2)
  const NEXT_BUILD: Image := [1]

  /** A world in which one build is signed, as the version it reports. */
  const RELEASED := World(
    true,
    sig => Some(CommentFor(NEXT_VERSION)),
    (exe, sig) => exe == NEXT_BUILD,
    exe => if exe == NEXT_BUILD then NEXT_VERSION else FIRST_VERSION)

  const FIRST_RUN := State(CleaningOld, [], Folder(map[Exe := []], Exe), None, None, 0, false, [], 0, false, [])

  /** Every operation succeeds and every fetch brings the release. */
  const SMOOTH := Choice(true, Some(""), Some(NEXT_BUILD), 0)

  /** The hour has not passed. */
  const EARLY := Choice(false, None, None, 0)

  lemma ReleaseAccepted()
    ensures RELEASED.Honest()
    ensures VerifyUpdate(RELEASED, NEXT_BUILD, "", FIRST_VERSION) == Accepted(NEXT_VERSION)
  {
    hide CommentFor;
    SmallFits();
    forall v | CommentFor(NEXT_VERSION) == CommentFor(v) && v.Fits()
      ensures v == NEXT_VERSION
    {
      CommentSpelled(CommentFor(v), v);
      CommentSpelled(CommentFor(v), NEXT_VERSION);
    }
    AcceptedExactly(RELEASED, NEXT_BUILD, "", FIRST_VERSION, NEXT_VERSION);
  }

  lemma SmallFits()
    ensures FIRST_VERSION.Fits() && NEXT_VERSION.Fits()
  {
    assert Pow10(19) == 10 * Pow10(18) && Pow10(18) > 0;
  }

  lemma {:induction false} AfterJoins(w: World, s: State, a: seq<Event>, b: seq<Event>)
    ensures After(w, s, a + b) == After(w, After(w, s, a), b)
    decreases |a|
  {
    hide Step;
    if a == [] {
      assert a + b == b;
    } else {
      assert (a + b)[1..] == a[1..] + b;
      AfterJoins(w, Step(w, s, a[0]), a[1..], b);
    }
  }

  lemma AfterOne(w: World, s: State, e: Event)
    ensures After(w, s, [e]) == Step(w, s, e)
  {
    hide Step;
    assert [e][1..] == [];
  }

  /** A run of which the daily thread is alone, at a check. */
  function Alone(s: State, k: Work): State {
    s.(phase := Up, threads := [Thread(true, k.at)], folder := k.folder, swaps := k.swaps, stranded := k.stranded,
       lock := if k.at.Critical() then Some(0) else None)
  }

  lemma AloneSteps(w: World, s: State, k: Work, c: Choice)
    requires k.at.Critical()
    ensures var k' := Advance(w, s.image, k, c);
            && (k'.at.Critical() ==> Step(w, Alone(s, k), Go(0, c)) == Alone(s, k'))
            && (k'.at == Replying(Fine(Installed(NEXT_VERSION))) ==>
                  Step(w, Alone(s, k), Go(0, c)) == Alone(s, k').(installed := Some(NEXT_VERSION)))
  {
    hide Advance;
    hide ThreadStep;
  }

  /** A check left to itself runs to its end. */
  lemma {:induction false} AloneRuns(w: World, s: State, k: Work, c: Choice, n: nat) returns (events: seq<Event>)
    requires k.at.Critical() && Checked(w, s.image, k, c, n).at == Replying(Fine(Installed(NEXT_VERSION)))
    ensures After(w, Alone(s, k), events) == Alone(s, Checked(w, s.image, k, c, n)).(installed := Some(NEXT_VERSION))
    decreases n
  {
    hide Advance;
    hide Step;
    hide Alone;
    AloneSteps(w, s, k, c);
    AfterOne(w, Alone(s, k), Go(0, c));
    var k' := Advance(w, s.image, k, c);
    if k'.at.Critical() {
      var more := AloneRuns(w, s, k', c, n - 1);
      AfterJoins(w, Alone(s, k), [Go(0, c)], more);
      events := [Go(0, c)] + more;
    } else {
      events := [Go(0, c)];
    }
  }

  lemma BeforeCheck()
    ensures After(RELEASED, FIRST_RUN, [Clean(true), Clean(true), Go(0, SMOOTH), Go(0, SMOOTH)])
            == Alone(FIRST_RUN, Work(Fetching, FIRST_RUN.folder, 0, false))
  {
    hide CheckStep;
    var s1 := Step(RELEASED, FIRST_RUN, Clean(true));
    assert s1 == FIRST_RUN.(phase := CleaningNew);
    var s2 := Step(RELEASED, s1, Clean(true));
    assert s2 == FIRST_RUN.(phase := Up, threads := [Thread(true, Sleeping)]);
    var s3 := Step(RELEASED, s2, Go(0, SMOOTH));
    assert s3 == s2.(threads := [Thread(true, Locking)]);
    var s4 := Step(RELEASED, s3, Go(0, SMOOTH));
    assert s4 == Alone(FIRST_RUN, Work(Fetching, FIRST_RUN.folder, 0, false));
    hide Step;
    AfterFour(RELEASED, FIRST_RUN, Clean(true), Clean(true), Go(0, SMOOTH), Go(0, SMOOTH));
  }

  lemma AfterFour(w: World, s: State, a: Event, b: Event, c: Event, d: Event)
    ensures After(w, s, [a, b, c, d]) == Step(w, Step(w, Step(w, Step(w, s, a), b), c), d)
  {
    hide Step;
    assert [a, b, c, d] == [a] + ([b] + ([c] + [d]));
    AfterJoins(w, s, [a], [b] + ([c] + [d]));
    AfterOne(w, s, a);
    var s1 := Step(w, s, a);
    AfterJoins(w, s1, [b], [c] + [d]);
    AfterOne(w, s1, b);
    var s2 := Step(w, s1, b);
    AfterJoins(w, s2, [c], [d]);
    AfterOne(w, s2, c);
    AfterOne(w, Step(w, s2, c), d);
  }

  /** From a first run, with an honest release: the daily check installs it, its
      thread looks, sees no session and decides to exit; then one connects and enters,
      and the exit cuts it off. */
  lemma CutOffReached() returns (events: seq<Event>, since: seq<Event>)
    ensures Initial(FIRST_RUN) && RELEASED.Honest() && Undisturbed(since, 0)
    ensures var t := After(RELEASED, FIRST_RUN, events);
            && |t.threads| == 1 && t.threads[0].at.Waiting? && t.active == 0
            && var looked := Step(RELEASED, t, Go(0, EARLY));
               var exit := After(RELEASED, looked, since);
               && looked.threads[0].at.Exiting?
               && AboutToExit(exit, 0) && exit.active == 1 && Guards(exit.threads) == {1}
               && Step(RELEASED, exit, Go(0, EARLY)).phase.Down?
  {
    hide CommentFor;
    hide VerifyUpdate;
    hide Guards;
    hide AboutToExit;
    ReleaseAccepted();
    var check, done := CheckInstalls();
    var more := [Go(0, SMOOTH), Go(0, SMOOTH)];
    AfterJoins(RELEASED, FIRST_RUN, check, more);
    events, since := check + more, [Connect, Go(1, EARLY)];
    hide After;
    hide Step;
    LastSteps(done, since);
  }

  lemma CheckInstalls() returns (events: seq<Event>, done: State)
    ensures After(RELEASED, FIRST_RUN, events) == done
    ensures done.phase.Up? && done.threads == [Thread(true, Replying(Fine(Installed(NEXT_VERSION))))]
    ensures !done.waiting && done.active == 0
  {
    hide CommentFor;
    hide VerifyUpdate;
    hide Checked;
    hide After;
    ReleaseAccepted();
    BeforeCheck();
    var start := Work(Fetching, FIRST_RUN.folder, 0, false);
    UpdateGoesThrough(RELEASED, [], FIRST_RUN.folder, SMOOTH, NEXT_VERSION);
    var check := AloneRuns(RELEASED, FIRST_RUN, start, SMOOTH, 8);
    var first := [Clean(true), Clean(true), Go(0, SMOOTH), Go(0, SMOOTH)];
    AfterJoins(RELEASED, FIRST_RUN, first, check);
    events := first + check;
    done := Alone(FIRST_RUN, Checked(RELEASED, [], start, SMOOTH, 8)).(installed := Some(NEXT_VERSION));
  }

  lemma LastSteps(done: State, since: seq<Event>)
    requires done.phase.Up? && done.threads == [Thread(true, Replying(Fine(Installed(NEXT_VERSION))))]
    requires !done.waiting && done.active == 0 && since == [Connect, Go(1, EARLY)]
    ensures var t := After(RELEASED, done, [Go(0, SMOOTH), Go(0, SMOOTH)]);
            && |t.threads| == 1 && t.threads[0].at.Waiting? && t.active == 0
            && var looked := Step(RELEASED, t, Go(0, EARLY));
               var exit := After(RELEASED, looked, since);
               && looked.threads[0].at.Exiting?
               && AboutToExit(exit, 0) && exit.active == 1 && Guards(exit.threads) == {1}
               && Step(RELEASED, exit, Go(0, EARLY)).phase.Down?
  {
    hide Step;
    hide After;
    hide Guards;
    DoneWaits(done);
    MeetsExit(done.(threads := [Thread(true, Waiting)], waiting := true));
  }

  lemma DoneWaits(done: State)
    requires done.phase.Up? && done.threads == [Thread(true, Replying(Fine(Installed(NEXT_VERSION))))] && !done.waiting
    ensures After(RELEASED, done, [Go(0, SMOOTH), Go(0, SMOOTH)])
            == done.(threads := [Thread(true, Waiting)], waiting := true)
  {
    hide CheckStep;
    hide After;
    AfterTwo(RELEASED, done, Go(0, SMOOTH), Go(0, SMOOTH));
    var d1 := Step(RELEASED, done, Go(0, SMOOTH));
    assert d1 == done.(threads := [Thread(true, Restarting)]);
  }

  lemma MeetsExit(t: State)
    requires t.phase.Up? && t.threads == [Thread(true, Waiting)] && t.active == 0
    ensures var looked := Step(RELEASED, t, Go(0, EARLY));
            var exit := After(RELEASED, looked, [Connect, Go(1, EARLY)]);
            && |looked.threads| == 1 && looked.threads[0].at.Exiting?
            && AboutToExit(exit, 0) && exit.active == 1 && Guards(exit.threads) == {1}
            && Step(RELEASED, exit, Go(0, EARLY)).phase.Down?
  {
    hide CheckStep;
    hide After;
    hide Guards;
    var w := RELEASED;
    var looked := Step(w, t, Go(0, EARLY));
    assert looked == t.(threads := [Thread(true, Exiting)]);
    AfterTwo(w, looked, Connect, Go(1, EARLY));
    var met := Step(w, looked, Connect);
    assert met == t.(threads := [Thread(true, Exiting), Thread(false, Arriving)]);
    var exit := Step(w, met, Go(1, EARLY));
    assert exit == t.(threads := [Thread(true, Exiting), Thread(false, Serving)], active := 1);
    SecondIsGuarded(exit.threads);
  }

  lemma SecondIsGuarded(ts: seq<Thread>)
    requires ts == [Thread(true, Exiting), Thread(false, Serving)]
    ensures Guards(ts) == {1}
  {
  }

  lemma AfterThree(w: World, s: State, a: Event, b: Event, c: Event)
    ensures After(w, s, [a, b, c]) == Step(w, Step(w, Step(w, s, a), b), c)
  {
    hide Step;
    assert [a, b, c] == [a] + [b, c];
    AfterJoins(w, s, [a], [b, c]);
    AfterOne(w, s, a);
    AfterTwo(w, Step(w, s, a), b, c);
  }

  lemma AfterTwo(w: World, s: State, a: Event, b: Event)
    ensures After(w, s, [a, b]) == Step(w, Step(w, s, a), b)
  {
    hide Step;
    assert [a, b] == [a] + [b];
    AfterJoins(w, s, [a], [b]);
    AfterOne(w, s, a);
    AfterOne(w, Step(w, s, a), b);
  }
}
