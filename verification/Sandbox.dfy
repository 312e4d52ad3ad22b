/**
 * Throwaway vaults under one temp directory, shared by concurrent invocations:
 * what one hook does to the directory, and every interleaving of the hooks.
 */
module Sandboxes {
  import opened Basics

  type Pid = nat

  /** An entry name, by whether it starts with the sandbox prefix. */
  datatype Name = Name(prefixed: bool, suffix: nat)

  /** An entry of the temp directory. `notes` is whose app wrote `vault/notes.db` in it, if any did. */
  datatype Dir = Dir(mtime: int, notes: Option<Pid>)

  const STALE_AFTER_MS: int := 24 * 60 * 60 * 1000

  // ------------------------------------------------ effects on the entries ---

  predicate IsStale(entries: map<Name, Dir>, n: Name, staleBefore: int) {
    n.prefixed && n in entries && entries[n].mtime < staleBefore
  }

  /** `mkdtemp`, and the session's own directories in it. */
  function WithSandbox(entries: map<Name, Dir>, n: Name, now: int): (e: map<Name, Dir>) {
    entries[n := Dir(now, None)]
  }

  /** `rmSync(dir, { recursive: true, force: true })`: a missing directory is no error. */
  function Without(entries: map<Name, Dir>, n: Name): (e: map<Name, Dir>) {
    entries - {n}
  }

  /** `removeSandbox`: nothing when the vault is kept or none was made. */
  function Removed(entries: map<Name, Dir>, runDir: Option<Name>, keep: bool): (e: map<Name, Dir>) {
    if !keep && runDir.Some? then Without(entries, runDir.value) else entries
  }

  /** The check of the `before` hook. */
  predicate HasNotes(entries: map<Name, Dir>, runDir: Option<Name>) {
    runDir.Some? && runDir.value in entries && entries[runDir.value].notes.Some?
  }

  /** A sweep nobody interferes with, where `denied` are the entries it may not stat or remove. */
  function Swept(entries: map<Name, Dir>, staleBefore: int, denied: set<Name>): (e: map<Name, Dir>) {
    map n | n in entries && (!IsStale(entries, n, staleBefore) || n in denied) :: entries[n]
  }

  class TempDir {
    var entries: map<Name, Dir>

    constructor ()
      ensures entries == map[]
    {
      entries := map[];
    }
  }

  /** The module fields one process has, and the hooks that update them. */
  class Harness {
    var sandboxRunDir: Option<Name>

    constructor ()
      ensures sandboxRunDir == None
    {
      sandboxRunDir := None;
    }

    /** Of a directory that can be read, exactly the prefixed entries more than a day old go, but for those denied. */
    method SweepStaleSandboxes(tmp: TempDir, readable: bool, now: int, denied: set<Name>)
      modifies tmp
      ensures tmp.entries == if readable then Swept(old(tmp.entries), now - STALE_AFTER_MS, denied) else old(tmp.entries)
      ensures forall n <- old(tmp.entries) ::
        n !in tmp.entries <==> readable && n.prefixed && old(tmp.entries)[n].mtime < now - 86_400_000 && n !in denied
      ensures forall n <- tmp.entries :: n in old(tmp.entries) && tmp.entries[n] == old(tmp.entries)[n]
    {
      if !readable { return; }
      var todo := tmp.entries.Keys;
      var staleBefore := now - STALE_AFTER_MS;
      while todo != {}
        invariant todo <= old(tmp.entries).Keys
        invariant tmp.entries == map n | n in old(tmp.entries)
          && (n in todo || !IsStale(old(tmp.entries), n, staleBefore) || n in denied) :: old(tmp.entries)[n]
        decreases todo
      {
        var entry :| entry in todo;
        todo := todo - {entry};
        if entry.prefixed {
          if entry !in denied && entry in tmp.entries && tmp.entries[entry].mtime < staleBefore {
            tmp.entries := Without(tmp.entries, entry);
          }
        }
      }
    }

    /** `mkdtemp` picks `name`, which no entry has. */
    method CreateSandboxEnv(tmp: TempDir, name: Name, now: int)
      requires name.prefixed && name !in tmp.entries
      modifies this, tmp
      ensures sandboxRunDir == Some(name)
      ensures tmp.entries == WithSandbox(old(tmp.entries), name, now) == old(tmp.entries)[name := Dir(now, None)]
    {
      sandboxRunDir := Some(name);
      tmp.entries := WithSandbox(tmp.entries, name, now);
    }

    /** Looks for the database until it is there or the time for looking is up; `looks` is what it sees each time. */
    method Before(looks: seq<map<Name, Dir>>) returns (verified: bool)
      ensures verified <==>
        sandboxRunDir.Some? && exists j :: 0 <= j < |looks| && sandboxRunDir.value in looks[j] && looks[j][sandboxRunDir.value].notes.Some?
    {
      if sandboxRunDir.None? { return false; }
      var vault := sandboxRunDir.value;
      for i := 0 to |looks|
        invariant forall j :: 0 <= j < i ==> !(vault in looks[j] && looks[j][vault].notes.Some?)
      {
        if vault in looks[i] && looks[i][vault].notes.Some? { return true; }
      }
      return false;
    }

    /** Unless it is kept, the recorded sandbox goes, whatever is in it; every other entry is as it was. */
    method RemoveSandbox(tmp: TempDir, keep: bool)
      modifies this, tmp
      ensures tmp.entries == Removed(old(tmp.entries), old(sandboxRunDir), keep)
      ensures forall n :: n in tmp.entries <==> n in old(tmp.entries) && (keep || old(sandboxRunDir) != Some(n))
      ensures forall n <- tmp.entries :: tmp.entries[n] == old(tmp.entries)[n]
      ensures sandboxRunDir == if keep then old(sandboxRunDir) else None
    {
      if keep { return; }
      if sandboxRunDir.Some? {
        tmp.entries := Without(tmp.entries, sandboxRunDir.value);
      }
      sandboxRunDir := None;
    }
  }

  // ---------------------------------------------------------- interleavings ---

  /** Where a sweep stands: `doomed` was found stale and is about to be removed. */
  datatype Sweep = Idle | Sweeping(staleBefore: int, todo: seq<Name>, doomed: Option<Name>)

  /** A launcher or worker process, and the app it had spawned, which can outlive it. */
  datatype Proc = Proc(alive: bool, runDir: Option<Name>, appDir: Option<Name>, sweep: Sweep, verified: bool)

  /** Who made a sandbox, and when. */
  datatype Made = Made(maker: Pid, at: int)

  datatype State = State(now: int, entries: map<Name, Dir>, made: map<Name, Made>, procs: map<Pid, Proc>)

  datatype Step =
    | Tick(ms: nat)
    | Boot(p: Pid)
    | StartSweep(p: Pid, listing: seq<Name>)
    | Examine(p: Pid)
    | Delete(p: Pid)
    | MakeSandbox(p: Pid, name: Name)
    | Touch(p: Pid) // something is made or removed in the run directory itself
    | AppWritesNotes(p: Pid)
    | AppGoesElsewhere(p: Pid)
    | Check(p: Pid)
    | RemoveOwn(p: Pid, keep: bool)
    | Shutdown(p: Pid, keep: bool)
    | Crash(p: Pid)

  ghost predicate Lists(listing: seq<Name>, entries: map<Name, Dir>) {
    forall n :: n in listing <==> n in entries
  }

  predicate Alive(s: State, p: Pid) { p in s.procs && s.procs[p].alive }

  ghost predicate Enabled(s: State, e: Step) {
    match e
    case Tick(_) => true
    case Boot(p) => p !in s.procs
    case StartSweep(p, listing) => Alive(s, p) && s.procs[p].sweep.Idle? && Lists(listing, s.entries)
    case Examine(p) =>
      Alive(s, p) && s.procs[p].sweep.Sweeping? && s.procs[p].sweep.todo != [] && s.procs[p].sweep.doomed.None?
    case Delete(p) => Alive(s, p) && s.procs[p].sweep.Sweeping? && s.procs[p].sweep.doomed.Some?
    case MakeSandbox(p, name) => Alive(s, p) && name.prefixed && name !in s.entries
    case Touch(p) => p in s.procs && s.procs[p].appDir.Some? && s.procs[p].appDir.value in s.entries
    case AppWritesNotes(p) => p in s.procs && s.procs[p].appDir.Some?
    case AppGoesElsewhere(p) => p in s.procs && s.procs[p].appDir.Some?
    case Check(p) => Alive(s, p)
    case RemoveOwn(p, _) => Alive(s, p)
    case Shutdown(p, _) => Alive(s, p)
    case Crash(p) => Alive(s, p)
  }

  /**
   * What an app does to its data directory: at boot it makes what is missing,
   * the vault and in it the database. Only making the vault is a change to the
   * run directory itself; what is written in the vault later leaves its mtime.
   */
  function WithNotes(entries: map<Name, Dir>, n: Name, p: Pid, now: int): (e: map<Name, Dir>) {
    var hasVault := n in entries && entries[n].notes.Some?;
    entries[n := Dir(if hasVault then entries[n].mtime else now, Some(p))]
  }

  function Next(s: State, e: Step): (after: State)
    requires Enabled(s, e)
  {
    match e
    case Tick(ms) => s.(now := s.now + ms)
    case Boot(p) => s.(procs := s.procs[p := Proc(true, None, None, Idle, false)])
    case StartSweep(p, listing) =>
      s.(procs := s.procs[p := s.procs[p].(sweep := Sweeping(s.now - STALE_AFTER_MS, listing, None))])
    case Examine(p) =>
      var sweep := s.procs[p].sweep;
      var n := sweep.todo[0];
      var doomed := if IsStale(s.entries, n, sweep.staleBefore) then Some(n) else None;
      s.(procs := s.procs[p := s.procs[p].(sweep := sweep.(todo := sweep.todo[1..], doomed := doomed))])
    case Delete(p) =>
      var sweep := s.procs[p].sweep;
      s.(entries := Without(s.entries, sweep.doomed.value),
         procs := s.procs[p := s.procs[p].(sweep := sweep.(doomed := None))])
    case MakeSandbox(p, name) =>
      s.(entries := WithSandbox(s.entries, name, s.now), made := s.made[name := Made(p, s.now)],
         procs := s.procs[p := s.procs[p].(runDir := Some(name), appDir := Some(name))])
    case Touch(p) =>
      var n := s.procs[p].appDir.value;
      s.(entries := s.entries[n := s.entries[n].(mtime := s.now)])
    case AppWritesNotes(p) => s.(entries := WithNotes(s.entries, s.procs[p].appDir.value, p, s.now))
    case AppGoesElsewhere(_) => s
    case Check(p) => s.(procs := s.procs[p := s.procs[p].(verified := HasNotes(s.entries, s.procs[p].runDir))])
    case RemoveOwn(p, keep) =>
      s.(entries := Removed(s.entries, s.procs[p].runDir, keep),
         procs := s.procs[p := s.procs[p].(runDir := if keep then s.procs[p].runDir else None)])
    case Shutdown(p, keep) =>
      s.(entries := Removed(s.entries, s.procs[p].runDir, keep),
         procs := s.procs[p := s.procs[p].(alive := false, runDir := if keep then s.procs[p].runDir else None)])
    case Crash(p) => s.(procs := s.procs[p := s.procs[p].(alive := false)])
  }

  /**
   * Process `q` may still act on the name `n`, which `maker` is given: a live
   * sweep is about to remove it, or it is the sandbox or an app's directory of
   * another session. (An app can outlive its session.)
   */
  predicate Threatens(s: State, q: Pid, n: Name, maker: Pid)
    requires q in s.procs
  {
    var proc := s.procs[q];
    || (proc.alive && proc.sweep.Sweeping? && proc.sweep.doomed == Some(n))
    || (q != maker && (proc.appDir == Some(n) || (proc.alive && proc.runDir == Some(n))))
  }

  /** What `mkdtemp`'s random suffix is needed for: nobody may still act on the name it picks. */
  ghost predicate FreeName(s: State, e: Step) {
    e.MakeSandbox? ==> forall q :: q in s.procs ==> !Threatens(s, q, e.name, e.p)
  }

  /** What it gives: no two sandboxes ever get the same name. */
  predicate NewName(s: State, e: Step) {
    e.MakeSandbox? ==> e.name !in s.made
  }

  /** A directory with other runs' litter in it, and no process yet. */
  ghost predicate Init(s: State) {
    s.procs == map[] && EntriesOk(s)
  }

  /** Runs, as their sequence of states. */
  ghost predicate Run(states: seq<State>, steps: seq<Step>) {
    && |states| == |steps| + 1 && Init(states[0])
    && forall i :: 0 <= i < |steps| ==> Enabled(states[i], steps[i]) && states[i + 1] == Next(states[i], steps[i])
  }

  ghost predicate FreeNames(states: seq<State>, steps: seq<Step>)
    requires |states| == |steps| + 1
  {
    forall i :: 0 <= i < |steps| ==> FreeName(states[i], steps[i])
  }

  ghost predicate NewNames(states: seq<State>, steps: seq<Step>)
    requires |states| == |steps| + 1
  {
    forall i :: 0 <= i < |steps| ==> NewName(states[i], steps[i])
  }

  // -------------------------------------------------------------- invariant ---

  ghost predicate EntriesOk(s: State) {
    forall n :: n in s.entries && n.prefixed ==>
      && n in s.made && s.made[n].at <= s.entries[n].mtime <= s.now
      && (s.entries[n].notes.Some? ==> s.entries[n].notes.value == s.made[n].maker)
  }

  ghost predicate IsOwn(s: State, p: Pid, dir: Option<Name>) {
    dir.Some? ==> dir.value.prefixed && dir.value in s.made && s.made[dir.value].maker == p && s.made[dir.value].at <= s.now
  }

  /** What a sweep holds for doomed was made before its cut-off, which is a day ago or more. */
  ghost predicate SweepOk(s: State, sweep: Sweep) {
    sweep.Sweeping? ==>
      && sweep.staleBefore <= s.now - STALE_AFTER_MS
      && (sweep.doomed.Some? ==>
            && sweep.doomed.value.prefixed && sweep.doomed.value in s.made
            && s.made[sweep.doomed.value].at < sweep.staleBefore)
  }

  /** A dead process removes nothing any more, but its app may live on. */
  ghost predicate ProcOk(s: State, p: Pid, proc: Proc) {
    && IsOwn(s, p, proc.appDir)
    && (proc.alive ==> IsOwn(s, p, proc.runDir) && SweepOk(s, proc.sweep))
  }

  ghost predicate Inv(s: State) {
    && EntriesOk(s)
    && forall p :: p in s.procs ==> ProcOk(s, p, s.procs[p])
  }

  /** Time passes; what was made stays made, but for the name a sandbox is made under now. */
  predicate Later(s: State, after: State, given: Option<Name>) {
    && s.now <= after.now
    && forall n :: n in s.made && given != Some(n) ==> n in after.made && after.made[n] == s.made[n]
  }

  function Given(e: Step): (n: Option<Name>) {
    if e.MakeSandbox? then Some(e.name) else None
  }

  lemma EntriesStep(s: State, e: Step, after: State)
    requires Inv(s) && Enabled(s, e) && after == Next(s, e)
    ensures EntriesOk(after)
  {
    if !e.Tick? && e.p in s.procs { assert ProcOk(s, e.p, s.procs[e.p]); }
  }

  lemma OwnProcStep(s: State, e: Step, after: State)
    requires Inv(s) && Enabled(s, e) && FreeName(s, e) && after == Next(s, e)
    requires !e.Tick? && e.p in after.procs
    ensures ProcOk(after, e.p, after.procs[e.p])
  {
    if e.p in s.procs {
      assert ProcOk(s, e.p, s.procs[e.p]);
      assert e.MakeSandbox? ==> !Threatens(s, e.p, e.name, e.p);
    }
  }

  lemma OtherProcStep(s: State, after: State, given: Option<Name>, p: Pid, proc: Proc)
    requires Later(s, after, given) && ProcOk(s, p, proc)
    requires given.Some? ==> proc.appDir != given
    requires given.Some? && proc.alive ==>
      proc.runDir != given && (proc.sweep.Sweeping? ==> proc.sweep.doomed != given)
    ensures ProcOk(after, p, proc)
  {
  }

  lemma InvStep(s: State, e: Step)
    requires Inv(s) && Enabled(s, e) && FreeName(s, e)
    ensures Inv(Next(s, e))
  {
    var after := Next(s, e);
    EntriesStep(s, e, after);
    assert Later(s, after, Given(e));
    forall p | p in after.procs
      ensures ProcOk(after, p, after.procs[p])
    {
      if !e.Tick? && e.p == p {
        OwnProcStep(s, e, after);
      } else {
        assert p in s.procs && after.procs[p] == s.procs[p];
        assert e.MakeSandbox? ==> !Threatens(s, p, e.name, e.p);
        OtherProcStep(s, after, Given(e), p, s.procs[p]);
      }
    }
  }

  lemma {:induction false} InvRun(states: seq<State>, steps: seq<Step>, i: nat)
    requires Run(states, steps) && FreeNames(states, steps) && i < |states|
    ensures Inv(states[i])
  {
    if i > 0 {
      InvRun(states, steps, i - 1);
      assert FreeName(states[i - 1], steps[i - 1]);
      InvStep(states[i - 1], steps[i - 1]);
    }
  }

  /** A name no sandbox ever had is free, so `mkdtemp`'s names are enough. */
  lemma {:induction false} NewNamesAreFree(states: seq<State>, steps: seq<Step>, i: nat)
    requires Run(states, steps) && NewNames(states, steps) && i <= |steps|
    ensures Inv(states[i]) && forall j :: 0 <= j < i ==> FreeName(states[j], steps[j])
  {
    if i > 0 {
      NewNamesAreFree(states, steps, i - 1);
      var s, e := states[i - 1], steps[i - 1];
      assert NewName(s, e);
      forall q | e.MakeSandbox? && q in s.procs
        ensures !Threatens(s, q, e.name, e.p)
      {
        assert ProcOk(s, q, s.procs[q]);
      }
      InvStep(s, e);
    }
  }

  // ----------------------------------------------- what the name has to be ---

  /**
   * Step `h` does harm to the sandbox `n` just made by `maker`: it removes it and
   * is not `maker` doing so, or it puts another session's database into it.
   */
  ghost predicate Harms(s: State, h: Step, n: Name, maker: Pid)
    requires Enabled(s, h)
  {
    var after := Next(s, h);
    || (n !in after.entries && !((h.RemoveOwn? || h.Shutdown?) && h.p == maker))
    || (n in after.entries && after.entries[n].notes.Some? && after.entries[n].notes != Some(maker))
  }

  /**
   * The condition on the name is exact. A sandbox made under a free name cannot
   * be harmed by any next step; made under a name that is not free, it can.
   */
  lemma FreeIsUnharmed(s: State, e: Step)
    requires Enabled(s, e) && e.MakeSandbox?
    ensures FreeName(s, e) <==> forall h :: Enabled(Next(s, e), h) ==> !Harms(Next(s, e), h, e.name, e.p)
  {
    if FreeName(s, e) {
      forall h | Enabled(Next(s, e), h)
        ensures !Harms(Next(s, e), h, e.name, e.p)
      {
        FreeHoldsOff(s, e, h);
      }
    } else {
      var q :| q in s.procs && Threatens(s, q, e.name, e.p);
      var h := HarmBy(s, e, q);
    }
  }

  lemma FreeHoldsOff(s: State, e: Step, h: Step)
    requires Enabled(s, e) && e.MakeSandbox? && FreeName(s, e) && Enabled(Next(s, e), h)
    ensures !Harms(Next(s, e), h, e.name, e.p)
  {
    if !h.Tick? && h.p in s.procs { assert !Threatens(s, h.p, e.name, e.p); }
  }

  lemma HarmBy(s: State, e: Step, q: Pid) returns (h: Step)
    requires Enabled(s, e) && e.MakeSandbox? && q in s.procs && Threatens(s, q, e.name, e.p)
    ensures Enabled(Next(s, e), h) && Harms(Next(s, e), h, e.name, e.p)
  {
    var proc := s.procs[q];
    if proc.alive && proc.sweep.Sweeping? && proc.sweep.doomed == Some(e.name) {
      h := Delete(q);
    } else if proc.appDir == Some(e.name) {
      h := AppWritesNotes(q);
    } else {
      h := RemoveOwn(q, false);
    }
  }

  // ----------------------------------------------------------------- safety ---

  /**
   * Over every interleaving: an entry disappears only when its own session
   * removes it, or when a sweep does and its session began more than a day
   * ago. Entries that are no sandboxes never disappear.
   */
  lemma YoungSandboxesAreSafe(states: seq<State>, steps: seq<Step>, i: nat, n: Name)
    requires Run(states, steps) && FreeNames(states, steps) && i < |steps|
    requires n in states[i].entries && n !in states[i + 1].entries
    ensures n.prefixed && n in states[i].made
    ensures var s, e := states[i], steps[i];
            || ((e.RemoveOwn? || e.Shutdown?) && !e.keep && s.procs[e.p].runDir == Some(n) && s.made[n].maker == e.p)
            || (e.Delete? && s.now - s.made[n].at > STALE_AFTER_MS)
  {
    InvRun(states, steps, i);
    var s, e := states[i], steps[i];
    assert ProcOk(s, e.p, s.procs[e.p]);
  }

  /** A process that made no sandbox, as a launcher, deletes nothing when it removes its sandbox or shuts down. */
  lemma LauncherRemovesNothing(states: seq<State>, steps: seq<Step>, i: nat, p: Pid)
    requires Run(states, steps) && i < |steps|
    requires forall j :: 0 <= j < i ==> !(steps[j].MakeSandbox? && steps[j].p == p)
    requires (steps[i].RemoveOwn? || steps[i].Shutdown?) && steps[i].p == p
    ensures states[i + 1].entries == states[i].entries
  {
    NothingMade(states, steps, i, p);
  }

  lemma {:induction false} NothingMade(states: seq<State>, steps: seq<Step>, i: nat, p: Pid)
    requires Run(states, steps) && i <= |steps|
    requires forall j :: 0 <= j < i ==> !(steps[j].MakeSandbox? && steps[j].p == p)
    ensures p in states[i].procs ==> states[i].procs[p].runDir.None?
  {
    if i > 0 {
      NothingMade(states, steps, i - 1, p);
      assert states[i] == Next(states[i - 1], steps[i - 1]);
    }
  }

  // ------------------------------------------------------ what the steps do ---

  /** A session that ends takes its own sandbox with it, whatever is in it, and nothing else. */
  lemma OwnSandboxGoes(states: seq<State>, steps: seq<Step>, i: nat, p: Pid)
    requires Run(states, steps) && i < |steps| && (steps[i] == RemoveOwn(p, false) || steps[i] == Shutdown(p, false))
    ensures forall n :: n in states[i + 1].entries <==> n in states[i].entries && states[i].procs[p].runDir != Some(n)
    ensures forall n <- states[i + 1].entries :: states[i + 1].entries[n] == states[i].entries[n]
    ensures states[i + 1].procs[p].runDir == None
  {
  }

  /** A kept sandbox stays as it is. */
  lemma KeptSandboxStays(states: seq<State>, steps: seq<Step>, i: nat, p: Pid)
    requires Run(states, steps) && i < |steps| && (steps[i] == RemoveOwn(p, true) || steps[i] == Shutdown(p, true))
    ensures states[i + 1].entries == states[i].entries && states[i + 1].procs[p].runDir == states[i].procs[p].runDir
  {
  }

  /** It is gone for good: its name comes back only if the session's own app has outlived it and writes there again. */
  lemma GoneForGood(states: seq<State>, steps: seq<Step>, i: nat, j: nat, p: Pid, n: Name)
    requires Run(states, steps) && NewNames(states, steps) && i < j <= |steps|
    requires steps[i] == RemoveOwn(p, false) || steps[i] == Shutdown(p, false)
    requires states[i].procs[p].runDir == Some(n)
    ensures n in states[j].entries ==> exists k :: i < k < j && steps[k] == AppWritesNotes(p)
  {
    if forall k :: i < k < j ==> steps[k] != AppWritesNotes(p) {
      StaysAway(states, steps, i, j, p, n);
    }
  }

  /** The sandbox `n` of `p` has been, and is gone. */
  predicate IsAway(s: State, p: Pid, n: Name) {
    n in s.made && s.made[n].maker == p && n !in s.entries
  }

  lemma {:induction false} StaysAway(states: seq<State>, steps: seq<Step>, i: nat, j: nat, p: Pid, n: Name)
    requires Run(states, steps) && NewNames(states, steps) && i < j <= |steps|
    requires steps[i] == RemoveOwn(p, false) || steps[i] == Shutdown(p, false)
    requires states[i].procs[p].runDir == Some(n)
    requires forall k :: i < k < j ==> steps[k] != AppWritesNotes(p)
    ensures IsAway(states[j], p, n)
    decreases j
  {
    if i < j - 1 {
      StaysAway(states, steps, i, j - 1, p, n);
      StaysGone(states, steps, j - 1, n, p);
    } else {
      GoesNow(states, steps, i, n, p);
    }
  }

  lemma GoesNow(states: seq<State>, steps: seq<Step>, i: nat, n: Name, p: Pid)
    requires Run(states, steps) && NewNames(states, steps) && i < |steps|
    requires (steps[i] == RemoveOwn(p, false) || steps[i] == Shutdown(p, false)) && states[i].procs[p].runDir == Some(n)
    ensures IsAway(states[i + 1], p, n)
  {
    NewNamesAreFree(states, steps, i);
    assert ProcOk(states[i], p, states[i].procs[p]);
  }

  lemma StaysGone(states: seq<State>, steps: seq<Step>, i: nat, n: Name, p: Pid)
    requires Run(states, steps) && NewNames(states, steps) && i < |steps|
    requires IsAway(states[i], p, n) && steps[i] != AppWritesNotes(p)
    ensures IsAway(states[i + 1], p, n)
  {
    NewNamesAreFree(states, steps, i);
    var s, e := states[i], steps[i];
    assert NewName(s, e);
    if !e.Tick? && e.p in s.procs { assert ProcOk(s, e.p, s.procs[e.p]); }
  }

  /** The entry a step acts on. */
  function Target(s: State, e: Step): (n: Option<Name>)
    requires Enabled(s, e)
  {
    match e
    case Delete(p) => s.procs[p].sweep.doomed
    case MakeSandbox(_, name) => Some(name)
    case Touch(p) => s.procs[p].appDir
    case AppWritesNotes(p) => s.procs[p].appDir
    case RemoveOwn(p, _) => s.procs[p].runDir
    case Shutdown(p, _) => s.procs[p].runDir
    case _ => None
  }

  /** A step leaves every entry alone but the one it acts on; and what becomes of that one. */
  lemma WhatStepsDo(s: State, e: Step, n: Name)
    requires Enabled(s, e)
    ensures var after := Next(s, e);
            && (Target(s, e) != Some(n) ==> (n in after.entries <==> n in s.entries))
            && (Target(s, e) != Some(n) && n in s.entries ==> after.entries[n] == s.entries[n])
            && (Target(s, e) == Some(n) ==>
                  && (e.Delete? || ((e.RemoveOwn? || e.Shutdown?) && !e.keep) ==> n !in after.entries)
                  && (e.MakeSandbox? ==> n in after.entries && after.entries[n] == Dir(s.now, None))
                  && (e.Touch? ==> n in after.entries && after.entries[n] == Dir(s.now, s.entries[n].notes))
                  && (e.AppWritesNotes? ==> n in after.entries && after.entries[n].notes == Some(e.p))
                  && (e.AppWritesNotes? && n in s.entries && s.entries[n].notes.Some? ==>
                        after.entries[n].mtime == s.entries[n].mtime)
                  && (e.AppWritesNotes? && !(n in s.entries && s.entries[n].notes.Some?) ==> after.entries[n].mtime == s.now))
  {
  }

  /** A live process may check, remove, shut down, crash or make a sandbox under any name that is not there, at any moment. */
  lemma AtAnyMoment(s: State, p: Pid, keep: bool, name: Name)
    requires p in s.procs && s.procs[p].alive && name.prefixed && name !in s.entries
    ensures Enabled(s, Check(p)) && Enabled(s, RemoveOwn(p, keep)) && Enabled(s, Shutdown(p, keep))
    ensures Enabled(s, Crash(p)) && Enabled(s, MakeSandbox(p, name))
  {
  }

  /** A process that has ended, by whatever way, takes no step any more; only its app may. */
  lemma {:induction false} EndedForGood(states: seq<State>, steps: seq<Step>, i: nat, j: nat, p: Pid)
    requires Run(states, steps) && i < j <= |steps|
    requires steps[i] == Crash(p) || (steps[i].Shutdown? && steps[i].p == p)
    ensures p in states[j].procs && !states[j].procs[p].alive
    ensures j < |steps| && !steps[j].Tick? && steps[j].p == p ==>
      steps[j].Touch? || steps[j].AppWritesNotes? || steps[j].AppGoesElsewhere?
    decreases j
  {
    if i < j - 1 { EndedForGood(states, steps, i, j - 1, p); }
    EndedStays(states[j - 1], steps[j - 1], p);
    if j < |steps| { assert Enabled(states[j], steps[j]); }
  }

  lemma EndedStays(s: State, e: Step, p: Pid)
    requires Enabled(s, e)
    requires (p in s.procs && !s.procs[p].alive) || e == Crash(p) || (e.Shutdown? && e.p == p)
    ensures p in Next(s, e).procs && !Next(s, e).procs[p].alive
  {
  }

  /** In step `j` the app of `p` opened its vault in `n`, and the sandbox stayed from then to `i`. */
  ghost predicate WroteAt(states: seq<State>, steps: seq<Step>, i: nat, j: nat, p: Pid, n: Name)
    requires |states| == |steps| + 1 && i <= |steps|
  {
    && j < i && steps[j] == AppWritesNotes(p) && p in states[j].procs && states[j].procs[p].appDir == Some(n)
    && forall k :: j < k <= i ==> n in states[k].entries
  }

  /** Before step `i`, the app of `p` opened its vault in `n`, where it still is. */
  ghost predicate WroteNotes(states: seq<State>, steps: seq<Step>, i: nat, p: Pid, n: Name)
    requires |states| == |steps| + 1 && i <= |steps|
  {
    exists j: nat :: WroteAt(states, steps, i, j, p, n)
  }

  /**
   * A passed check is proof, and an app that did its part passes it. The check
   * passes if and only if this session has a sandbox, and this session's own app
   * opened its vault in it, earlier in the run, and it has stayed since.
   */
  lemma PassedCheckIsProof(states: seq<State>, steps: seq<Step>, i: nat, p: Pid)
    requires Run(states, steps) && FreeNames(states, steps) && i < |steps| && steps[i] == Check(p)
    ensures var dir := states[i].procs[p].runDir;
            states[i + 1].procs[p].verified <==> dir.Some? && WroteNotes(states, steps, i, p, dir.value)
    ensures states[i + 1].procs[p].verified ==>
      var n := states[i].procs[p].runDir.value;
      && n in states[i].made && states[i].made[n].maker == p
      && n in states[i].entries && states[i].entries[n].notes == Some(p)
  {
    InvRun(states, steps, i);
    assert ProcOk(states[i], p, states[i].procs[p]);
    var dir := states[i].procs[p].runDir;
    if states[i + 1].procs[p].verified {
      var j := MadeAt(states, steps, i, p);
      NotesSinceMade(states, steps, j, i, dir.value, p);
    } else if dir.Some? && WroteNotes(states, steps, i, p, dir.value) {
      var j: nat :| WroteAt(states, steps, i, j, p, dir.value);
      NotesStay(states, steps, i, j, p, dir.value);
    }
  }

  /** The step that gave a process its sandbox. */
  lemma {:induction false} MadeAt(states: seq<State>, steps: seq<Step>, i: nat, p: Pid) returns (j: nat)
    requires Run(states, steps) && i <= |steps| && p in states[i].procs && states[i].procs[p].runDir.Some?
    ensures j < i && steps[j] == MakeSandbox(p, states[i].procs[p].runDir.value)
  {
    assert Enabled(states[i - 1], steps[i - 1]) && states[i] == Next(states[i - 1], steps[i - 1]);
    RunDirFrom(states[i - 1], steps[i - 1], p);
    if steps[i - 1] == MakeSandbox(p, states[i].procs[p].runDir.value) {
      j := i - 1;
    } else {
      j := MadeAt(states, steps, i - 1, p);
    }
  }

  lemma RunDirFrom(s: State, e: Step, p: Pid)
    requires Enabled(s, e) && p in Next(s, e).procs && Next(s, e).procs[p].runDir.Some?
    ensures var dir := Next(s, e).procs[p].runDir;
            e == MakeSandbox(p, dir.value) || (p in s.procs && s.procs[p].runDir == dir)
  {
    if e.Tick? || e.p != p {
      assert p in s.procs && Next(s, e).procs[p] == s.procs[p];
    }
  }

  /** A sandbox is made without a database, so the one in it was written since. */
  lemma {:induction false} NotesSinceMade(states: seq<State>, steps: seq<Step>, j: nat, i: nat, n: Name, p: Pid)
    requires Run(states, steps) && j < i <= |steps| && steps[j] == MakeSandbox(p, n)
    requires n in states[i].entries && states[i].entries[n].notes == Some(p)
    ensures WroteNotes(states, steps, i, p, n)
    decreases i
  {
    var s, e := states[i - 1], steps[i - 1];
    assert states[i] == Next(s, e);
    if e == AppWritesNotes(p) && s.procs[p].appDir == Some(n) {
      assert WroteAt(states, steps, i, i - 1, p, n);
    } else {
      assert n in s.entries && s.entries[n].notes == Some(p);
      NotesSinceMade(states, steps, j, i - 1, n, p);
      var k :| WroteAt(states, steps, i - 1, k, p, n);
      assert WroteAt(states, steps, i, k, p, n);
    }
  }

  /** What was written is there as long as the sandbox stays. */
  lemma {:induction false} NotesStay(states: seq<State>, steps: seq<Step>, i: nat, j: nat, p: Pid, n: Name)
    requires Run(states, steps) && i <= |steps| && WroteAt(states, steps, i, j, p, n)
    ensures states[i].entries[n].notes.Some?
    decreases i
  {
    var s, e := states[i - 1], steps[i - 1];
    assert Enabled(s, e) && states[i] == Next(s, e);
    if j < i - 1 {
      assert n in s.entries;
      NotesStay(states, steps, i - 1, j, p, n);
    }
  }

  // ---------------------------------------------------- the limits of safety ---

  /** A sandbox whose own directory is changed at least once a day is removed by no sweep, however long its session lives. */
  lemma TouchedDailyIsSafe(states: seq<State>, steps: seq<Step>, i: nat, n: Name)
    requires Run(states, steps) && FreeNames(states, steps) && i < |steps|
    requires forall j :: 0 <= j <= i && n in states[j].entries ==> states[j].entries[n].mtime >= states[j].now - STALE_AFTER_MS
    requires n in states[i].entries && steps[i].Delete?
    ensures n in states[i + 1].entries
  {
    NeverDoomed(states, steps, i, n, steps[i].p);
  }

  lemma {:induction false} NeverDoomed(states: seq<State>, steps: seq<Step>, i: nat, n: Name, p: Pid)
    requires Run(states, steps) && FreeNames(states, steps) && i <= |steps|
    requires forall j :: 0 <= j <= i && n in states[j].entries ==> states[j].entries[n].mtime >= states[j].now - STALE_AFTER_MS
    ensures p in states[i].procs ==> NotDoomed(states[i].procs[p], n)
  {
    if i > 0 {
      NeverDoomed(states, steps, i - 1, n, p);
      InvRun(states, steps, i - 1);
      var s, e := states[i - 1], steps[i - 1];
      assert Enabled(s, e) && states[i] == Next(s, e);
      if p in states[i].procs { StaysUndoomed(s, e, n, p); }
    }
  }

  /** Step `k` changes the directory `n` itself: it makes it, or something in it. */
  ghost predicate ChangedAt(states: seq<State>, steps: seq<Step>, k: nat, n: Name)
    requires k < |states| && k < |steps|
  {
    || (steps[k].MakeSandbox? && steps[k].name == n)
    || (steps[k].Touch? && steps[k].p in states[k].procs && states[k].procs[steps[k].p].appDir == Some(n))
  }

  /** From a change on, the entry is no older than the change. */
  lemma {:induction false} YoungSinceChange(states: seq<State>, steps: seq<Step>, k: nat, j: nat, n: Name)
    requires Run(states, steps) && k < j <= |steps| && ChangedAt(states, steps, k, n)
    ensures states[k].now <= states[j].now
    ensures n in states[j].entries ==> states[j].entries[n].mtime >= states[k].now
    decreases j
  {
    if k < j - 1 {
      YoungSinceChange(states, steps, k, j - 1, n);
      StaysYoung(states[j - 1], steps[j - 1], n, states[k].now);
    } else {
      ChangedNow(states[k], steps[k], n);
    }
  }

  lemma StaysYoung(s: State, e: Step, n: Name, since: int)
    requires Enabled(s, e) && since <= s.now && (n in s.entries ==> s.entries[n].mtime >= since)
    ensures since <= Next(s, e).now
    ensures n in Next(s, e).entries ==> Next(s, e).entries[n].mtime >= since
  {
  }

  lemma ChangedNow(s: State, e: Step, n: Name)
    requires Enabled(s, e)
    requires (e.MakeSandbox? && e.name == n) || (e.Touch? && s.procs[e.p].appDir == Some(n))
    ensures Next(s, e).now == s.now && n in Next(s, e).entries && Next(s, e).entries[n].mtime == s.now
  {
  }

  /** At every moment the last change to the sandbox was no more than a day ago. */
  ghost predicate ChangedDaily(states: seq<State>, steps: seq<Step>, i: nat, n: Name)
    requires |states| == |steps| + 1 && i <= |steps|
  {
    forall j :: 0 <= j <= i && n in states[j].entries ==>
      exists k :: 0 <= k < j && ChangedAt(states, steps, k, n) && states[j].now - states[k].now <= STALE_AFTER_MS
  }

  /** In steps: a sandbox made in the run and changed at least once a day since is removed by no sweep. */
  lemma ChangedDailyIsSafe(states: seq<State>, steps: seq<Step>, i: nat, n: Name)
    requires Run(states, steps) && FreeNames(states, steps) && i < |steps| && ChangedDaily(states, steps, i, n)
    requires n in states[i].entries && steps[i].Delete?
    ensures n in states[i + 1].entries
  {
    forall j | 0 <= j <= i && n in states[j].entries
      ensures states[j].entries[n].mtime >= states[j].now - STALE_AFTER_MS
    {
      var k :| 0 <= k < j && ChangedAt(states, steps, k, n) && states[j].now - states[k].now <= STALE_AFTER_MS;
      YoungSinceChange(states, steps, k, j, n);
    }
    TouchedDailyIsSafe(states, steps, i, n);
  }

  predicate NotDoomed(proc: Proc, n: Name) { proc.sweep.Sweeping? ==> proc.sweep.doomed != Some(n) }

  lemma StaysUndoomed(s: State, e: Step, n: Name, p: Pid)
    requires Inv(s) && Enabled(s, e) && p in Next(s, e).procs
    requires n in s.entries ==> s.entries[n].mtime >= s.now - STALE_AFTER_MS
    requires p in s.procs ==> NotDoomed(s.procs[p], n)
    ensures NotDoomed(Next(s, e).procs[p], n)
  {
    if p in s.procs { assert ProcOk(s, p, s.procs[p]); }
  }

  lemma Extend(states: seq<State>, steps: seq<Step>, e: Step) returns (states': seq<State>, steps': seq<Step>)
    requires Run(states, steps) && Enabled(states[|steps|], e)
    ensures states' == states + [Next(states[|steps|], e)] && steps' == steps + [e]
    ensures Run(states', steps')
  {
    states', steps' := states + [Next(states[|steps|], e)], steps + [e];
    forall i | 0 <= i < |steps'|
      ensures Enabled(states'[i], steps'[i]) && states'[i + 1] == Next(states'[i], steps'[i])
    {
      if i < |steps| {
        assert Enabled(states[i], steps[i]) && states[i + 1] == Next(states[i], steps[i]);
      }
    }
  }

  /**
   * And the day is exact: from any state of a run in which a sandbox has been
   * left untouched for longer, a sweep that starts now can remove it, whether
   * its session is alive or not.
   */
  lemma UntouchedCanBeSwept(states: seq<State>, steps: seq<Step>, n: Name, p: Pid, listing: seq<Name>)
    returns (states': seq<State>, steps': seq<Step>)
    requires Run(states, steps) && p !in states[|steps|].procs
    requires n.prefixed && n in states[|steps|].entries
    requires states[|steps|].entries[n].mtime < states[|steps|].now - 86_400_000
    requires Lists(listing, states[|steps|].entries) && listing != [] && listing[0] == n
    ensures Run(states', steps') && states <= states'
    ensures steps' == steps + [Boot(p), StartSweep(p, listing), Examine(p), Delete(p)]
    ensures n !in states'[|steps'|].entries
    ensures forall q :: q in states[|steps|].procs ==>
      q in states'[|steps'|].procs && states'[|steps'|].procs[q] == states[|steps|].procs[q]
  {
    SweepOf(states[|steps|], n, p, listing);
    states', steps' := Extend(states, steps, Boot(p));
    states', steps' := Extend(states', steps', StartSweep(p, listing));
    states', steps' := Extend(states', steps', Examine(p));
    states', steps' := Extend(states', steps', Delete(p));
  }

  /** Each step of such a sweep can be taken after the one before it, and the last removes the sandbox. */
  lemma SweepOf(s: State, n: Name, p: Pid, listing: seq<Name>)
    requires p !in s.procs && IsStale(s.entries, n, s.now - STALE_AFTER_MS)
    requires Lists(listing, s.entries) && listing != [] && listing[0] == n
    ensures var booted := Next(s, Boot(p));
            && Enabled(booted, StartSweep(p, listing))
            && var started := Next(booted, StartSweep(p, listing));
            && Enabled(started, Examine(p))
            && var examined := Next(started, Examine(p));
            && Enabled(examined, Delete(p))
            && var after := Next(examined, Delete(p));
            && n !in after.entries
            && forall q :: q in s.procs ==> q in after.procs && after.procs[q] == s.procs[q]
  {
  }

  /** Every live session's sandbox is at most `bound` old. */
  ghost predicate InTime(s: State, bound: int) {
    forall p, n :: Alive(s, p) && s.procs[p].runDir == Some(n) && n in s.made ==> s.now - s.made[n].at <= bound
  }

  /**
   * What the comment on the age rests on: the timeouts. While no live session is
   * older than a day or less, a live session's sandbox disappears only by its own
   * hand, whatever touches it or not.
   */
  lemma TimelySessionsAreSafe(states: seq<State>, steps: seq<Step>, i: nat, n: Name, p: Pid, bound: int)
    requires Run(states, steps) && FreeNames(states, steps) && i < |steps|
    requires bound <= STALE_AFTER_MS && InTime(states[i], bound)
    requires Alive(states[i], p) && states[i].procs[p].runDir == Some(n)
    requires n in states[i].entries && n !in states[i + 1].entries
    ensures steps[i] == RemoveOwn(p, false) || steps[i] == Shutdown(p, false)
  {
    InvRun(states, steps, i);
    assert ProcOk(states[i], p, states[i].procs[p]);
    YoungSandboxesAreSafe(states, steps, i, n);
  }

  const START_MS: int := 2 * 30_000
  const CHECK_MS: int := 120_000
  const TEST_MS: int := 300_000
  const REAP_MS: int := 2_000

  /**
   * How long the timeouts let a session last, on a clock that does not run while
   * the machine sleeps: two tries to start it, the check, its tests and hooks,
   * and the wait for its app.
   */
  function SessionMs(testsAndHooks: nat): (ms: int) {
    START_MS + CHECK_MS + testsAndHooks * TEST_MS + REAP_MS
  }

  /** That is within the day exactly up to 287 tests and hooks in a spec file. */
  lemma TimeoutsFit(testsAndHooks: nat)
    ensures SessionMs(testsAndHooks) == 30_000 + 30_000 + 120_000 + testsAndHooks * 300_000 + 2_000
    ensures SessionMs(testsAndHooks) <= STALE_AFTER_MS <==> testsAndHooks <= 287
  {
  }

  /** From `i` to `j` the sandbox `n` stays, and nothing is made or removed in it directly; in its vault the app may write. */
  ghost predicate OnlyVaultWrites(states: seq<State>, steps: seq<Step>, i: nat, j: nat, n: Name)
    requires |states| == |steps| + 1 && i <= j <= |steps|
  {
    && (forall k :: i <= k <= j ==> n in states[k].entries)
    && forall k :: i <= k < j && steps[k].Touch? && steps[k].p in states[k].procs ==>
         states[k].procs[steps[k].p].appDir != Some(n)
  }

  /** Once the vault is there, its app's writes leave the mtime a sweep looks at. */
  lemma {:induction false} WritesDoNotTouch(states: seq<State>, steps: seq<Step>, i: nat, j: nat, n: Name)
    requires Run(states, steps) && i <= j <= |steps| && OnlyVaultWrites(states, steps, i, j, n)
    requires states[i].entries[n].notes.Some?
    ensures states[j].entries[n].notes.Some? && states[j].entries[n].mtime == states[i].entries[n].mtime
    ensures states[j].now >= states[i].now
    decreases j
  {
    if i < j {
      WritesDoNotTouch(states, steps, i, j - 1, n);
      assert states[j] == Next(states[j - 1], steps[j - 1]);
    }
  }

  /**
   * Past its timeouts a session is not safe, and being busy does not help: a day
   * after its vault was made, its sandbox can be swept, alive as the session is
   * and however much its app has written in the vault.
   */
  lemma BusySessionCanBeSwept(states: seq<State>, steps: seq<Step>, i: nat, n: Name, p: Pid, listing: seq<Name>)
    returns (states': seq<State>, steps': seq<Step>)
    requires Run(states, steps) && FreeNames(states, steps) && p !in states[|steps|].procs
    requires i <= |steps| && n.prefixed && OnlyVaultWrites(states, steps, i, |steps|, n)
    requires states[i].entries[n].notes.Some? && states[|steps|].now - states[i].now > STALE_AFTER_MS
    requires Lists(listing, states[|steps|].entries) && listing != [] && listing[0] == n
    ensures Run(states', steps') && states <= states'
    ensures steps' == steps + [Boot(p), StartSweep(p, listing), Examine(p), Delete(p)]
    ensures n !in states'[|steps'|].entries
    ensures forall q :: q in states[|steps|].procs ==>
      q in states'[|steps'|].procs && states'[|steps'|].procs[q] == states[|steps|].procs[q]
  {
    InvRun(states, steps, i);
    WritesDoNotTouch(states, steps, i, |steps|, n);
    states', steps' := UntouchedCanBeSwept(states, steps, n, p, listing);
  }

  /**
   * A run of that kind, with new names only, as when the machine sleeps for a day
   * in a session: its check has passed, its app writes its database at this very
   * moment, and a sweep removes the sandbox.
   */
  lemma LiveSessionIsSwept() returns (states: seq<State>, steps: seq<Step>, n: Name)
    ensures Run(states, steps) && NewNames(states, steps)
    ensures steps == [Boot(1), MakeSandbox(1, n), AppWritesNotes(1), Check(1), Tick(STALE_AFTER_MS + 1),
                      AppWritesNotes(1), Boot(2), StartSweep(2, [n]), Examine(2), Delete(2)]
    ensures n in states[9].entries && n !in states[10].entries
    ensures Alive(states[10], 1) && states[10].procs[1].runDir == Some(n) && states[10].procs[1].verified
    ensures states[5].now == states[10].now
  {
    n := Name(true, 0);
    states, steps := BusySession(n);
    ghost var before := states;
    states, steps := UntouchedCanBeSwept(states, steps, n, 2, [n]);
    assert forall i :: 0 <= i <= 6 ==> states[i] == before[i];
    SessionIsSwept(states, steps, n);
  }

  /** A sweep moves neither the clock nor another process, and nothing in the directory before its last step. */
  lemma SessionIsSwept(states: seq<State>, steps: seq<Step>, n: Name)
    requires Run(states, steps) && |steps| == 10
    requires steps[6..] == [Boot(2), StartSweep(2, [n]), Examine(2), Delete(2)]
    requires states[6] == Session(n, Some(1), true, STALE_AFTER_MS + 1)
    requires forall i :: 0 <= i < 6 ==> NewName(states[i], steps[i])
    ensures NewNames(states, steps)
    ensures n in states[9].entries && states[10].now == states[6].now
    ensures Alive(states[10], 1) && states[10].procs[1] == states[6].procs[1]
  {
    assert steps[6] == Boot(2) && steps[7] == StartSweep(2, [n]) && steps[8] == Examine(2) && steps[9] == Delete(2);
    StepsOfOther(states[6], steps[6], states[7]);
    StepsOfOther(states[7], steps[7], states[8]);
    StepsOfOther(states[8], steps[8], states[9]);
    StepsOfOther(states[9], steps[9], states[10]);
  }

  lemma StepsOfOther(s: State, e: Step, after: State)
    requires Enabled(s, e) && after == Next(s, e) && (e.Boot? || e.StartSweep? || e.Examine? || e.Delete?)
    requires 1 in s.procs && e.p != 1
    ensures after.now == s.now && 1 in after.procs && after.procs[1] == s.procs[1]
    ensures e.Delete? || after.entries == s.entries
  {
  }

  function Session(n: Name, notes: Option<Pid>, verified: bool, now: int): (s: State) {
    State(now, map[n := Dir(0, notes)], map[n := Made(1, 0)], map[1 := Proc(true, Some(n), Some(n), Idle, verified)])
  }

  lemma BusySession(n: Name) returns (states: seq<State>, steps: seq<Step>)
    requires n.prefixed
    ensures Run(states, steps) && NewNames(states, steps)
    ensures steps == [Boot(1), MakeSandbox(1, n), AppWritesNotes(1), Check(1), Tick(STALE_AFTER_MS + 1), AppWritesNotes(1)]
    ensures states[5] == states[6] == Session(n, Some(1), true, STALE_AFTER_MS + 1)
  {
    states, steps := VerifiedSession(n);
    states, steps := Extend(states, steps, Tick(STALE_AFTER_MS + 1));
    assert states[5] == Session(n, Some(1), true, STALE_AFTER_MS + 1);
    states, steps := Extend(states, steps, AppWritesNotes(1));
    assert states[6].entries == states[5].entries;
    assert NewName(states[1], steps[1]);
  }

  lemma VerifiedSession(n: Name) returns (states: seq<State>, steps: seq<Step>)
    requires n.prefixed
    ensures Run(states, steps) && NewNames(states, steps)
    ensures steps == [Boot(1), MakeSandbox(1, n), AppWritesNotes(1), Check(1)]
    ensures states[4] == Session(n, Some(1), true, 0)
  {
    states, steps := NewSession(n);
    states, steps := Extend(states, steps, AppWritesNotes(1));
    assert states[3] == Session(n, Some(1), false, 0);
    states, steps := Extend(states, steps, Check(1));
    assert NewName(states[1], steps[1]);
  }

  lemma NewSession(n: Name) returns (states: seq<State>, steps: seq<Step>)
    requires n.prefixed
    ensures Run(states, steps) && steps == [Boot(1), MakeSandbox(1, n)] && NewName(states[1], steps[1])
    ensures states[2] == Session(n, None, false, 0)
  {
    states, steps := [State(0, map[], map[], map[])], [];
    states, steps := Extend(states, steps, Boot(1));
    states, steps := Extend(states, steps, MakeSandbox(1, n));
  }

  /**
   * Safety rests on the random suffix. If `mkdtemp` reuses a removed name, a
   * slow sweep removes a sandbox made a moment ago by another live session.
   */
  lemma ReusedNameIsUnsafe() returns (states: seq<State>, steps: seq<Step>, n: Name)
    ensures Run(states, steps) && |steps| > 0
    ensures var s, e := states[|steps| - 1], steps[|steps| - 1];
            && n in s.entries && n !in states[|steps|].entries && n in s.made && s.made[n].at == s.now
            && Alive(s, s.made[n].maker) && s.procs[s.made[n].maker].runDir == Some(n)
            && e.Delete? && e.p != s.made[n].maker
  {
    n := Name(true, 0);
    states, steps := TwoSweepsMeet(n);
    var slow := states[|steps|].procs[1];
    states, steps := Extend(states, steps, Delete(2));
    states, steps := Extend(states, steps, Boot(3));
    assert states[|steps|].procs[1] == slow;
    states, steps := Extend(states, steps, MakeSandbox(3, n));
    assert states[|steps|].procs[1] == slow;
    states, steps := Extend(states, steps, Delete(1));
  }

  /** Two sweeps have both found the same litter stale, and neither has removed it yet. */
  lemma TwoSweepsMeet(n: Name) returns (states: seq<State>, steps: seq<Step>)
    requires n.prefixed
    ensures Run(states, steps)
    ensures var s := states[|steps|];
            && s.entries == map[n := Dir(0, None)] && 3 !in s.procs
            && Alive(s, 1) && Alive(s, 2)
            && s.procs[1].sweep.Sweeping? && s.procs[1].sweep.doomed == Some(n)
            && s.procs[2].sweep.Sweeping? && s.procs[2].sweep.doomed == Some(n)
  {
    states, steps := OneSweepFinds(n);
    var first := states[|steps|].procs[1];
    states, steps := Extend(states, steps, Boot(2));
    assert states[|steps|].procs[1] == first;
    states, steps := Extend(states, steps, StartSweep(2, [n]));
    assert states[|steps|].procs[1] == first;
    states, steps := Extend(states, steps, Examine(2));
  }

  lemma OneSweepFinds(n: Name) returns (states: seq<State>, steps: seq<Step>)
    requires n.prefixed
    ensures Run(states, steps)
    ensures var s := states[|steps|];
            && s.now == STALE_AFTER_MS + 1 && s.entries == map[n := Dir(0, None)] && s.procs.Keys == {1}
            && Alive(s, 1) && s.procs[1].sweep.Sweeping? && s.procs[1].sweep.doomed == Some(n)
  {
    states, steps := [State(STALE_AFTER_MS + 1, map[n := Dir(0, None)], map[n := Made(0, 0)], map[])], [];
    states, steps := Extend(states, steps, Boot(1));
    states, steps := Extend(states, steps, StartSweep(1, [n]));
    states, steps := Extend(states, steps, Examine(1));
  }

  // ------------------------------------------- the steps make up the method ---

  /** The rest of a sweep, when no other step comes between. */
  function SoloSweep(s: State, p: Pid): (after: State)
    requires Alive(s, p) && s.procs[p].sweep.Sweeping? && s.procs[p].sweep.doomed.None?
    decreases |s.procs[p].sweep.todo|
  {
    if s.procs[p].sweep.todo == [] then s
    else
      var examined := Next(s, Examine(p));
      SoloSweep(if examined.procs[p].sweep.doomed.Some? then Next(examined, Delete(p)) else examined, p)
  }

  lemma {:induction false} SoloSweepRemoves(s: State, p: Pid)
    requires Alive(s, p) && s.procs[p].sweep.Sweeping? && s.procs[p].sweep.doomed.None?
    ensures var sweep := s.procs[p].sweep;
            SoloSweep(s, p).entries
            == map n | n in s.entries && !(n in sweep.todo && IsStale(s.entries, n, sweep.staleBefore)) :: s.entries[n]
    decreases |s.procs[p].sweep.todo|
  {
    var sweep := s.procs[p].sweep;
    if sweep.todo != [] {
      var examined := Next(s, Examine(p));
      SoloSweepRemoves(if examined.procs[p].sweep.doomed.Some? then Next(examined, Delete(p)) else examined, p);
      assert sweep.todo == [sweep.todo[0]] + sweep.todo[1..];
    }
  }

  /** Run without interference, the steps of a sweep do what the method does. */
  lemma SoloSweepIsSwept(s: State, p: Pid, listing: seq<Name>)
    requires Enabled(s, StartSweep(p, listing))
    ensures SoloSweep(Next(s, StartSweep(p, listing)), p).entries == Swept(s.entries, s.now - STALE_AFTER_MS, {})
  {
    SoloSweepRemoves(Next(s, StartSweep(p, listing)), p);
  }
}
