/**
 * Rescuing the app's logs into the artifact directory. A process remembers the
 * labels it has completed; the directory is one for all processes, and nothing
 * empties it.
 */
module LogRescues {
  import opened Basics
  import opened LogLabels

  /** What there is to copy when a rescue is called. */
  datatype Vault = NoVault | NoLogDir | LogDir(files: seq<(string, string)>)

  datatype Outcome = AlreadyRescued | NothingRecorded | NoLog | NoLogFile | Rescued(count: nat) | Threw

  type Dir = map<string, string>

  const PREFIX := "agaric.log"

  /** `readdirSync(logDir).filter(name => name.startsWith('agaric.log'))`. */
  function LogFiles(files: seq<(string, string)>): (logs: seq<(string, string)>) {
    if files == [] then []
    else (if PREFIX <= files[0].0 then [files[0]] else []) + LogFiles(files[1..])
  }

  /** A directory after files are copied into it; a name that is there is overwritten. */
  function Copied(dir: Dir, files: seq<(string, string)>): (after: Dir) {
    if files == [] then dir
    else Copied(dir, files[..|files| - 1])[files[|files| - 1].0 := files[|files| - 1].1]
  }

  /** `failsAt` is the copy that throws, if one does. */
  function OutcomeOf(rescued: set<string>, dirName: string, vault: Vault, failsAt: Option<nat>): (o: Outcome) {
    if dirName in rescued then AlreadyRescued
    else match vault
      case NoVault => NothingRecorded
      case NoLogDir => NoLog
      case LogDir(files) =>
        var logs := LogFiles(files);
        if logs == [] then NoLogFile
        else if failsAt.Some? && failsAt.value < |logs| then Threw
        else Rescued(|logs|)
  }

  /** The files a rescue copies, in order; one that throws leaves those copied before. */
  function Writes(rescued: set<string>, dirName: string, vault: Vault, failsAt: Option<nat>): (w: seq<(string, string)>) {
    match OutcomeOf(rescued, dirName, vault, failsAt)
    case Rescued(_) => LogFiles(vault.files)
    case Threw => LogFiles(vault.files)[..failsAt.value]
    case _ => []
  }

  /** `mkdirSync` and the copies; a rescue that comes to neither leaves the directory as it is. */
  function DirAfter(artifacts: map<string, Dir>, dirName: string, o: Outcome, w: seq<(string, string)>): (after: map<string, Dir>) {
    if o.Rescued? || o.Threw? then artifacts[dirName := Copied(DirOf(artifacts, dirName), w)] else artifacts
  }

  function DirOf(artifacts: map<string, Dir>, dirName: string): (dir: Dir) {
    if dirName in artifacts then artifacts[dirName] else map[]
  }

  /** `ARTIFACTS_DIR/app-logs`, on disk. */
  class ArtifactDir {
    var entries: map<string, Dir>

    constructor (entries: map<string, Dir>)
      ensures this.entries == entries
    {
      this.entries := entries;
    }
  }

  /** A process's `rescuedLogLabels`. */
  class LogRescue {
    var rescued: set<string>
    ghost var completed: seq<string>

    constructor ()
      ensures rescued == {} && completed == []
    {
      rescued, completed := {}, [];
    }

    /** The directory, and the logs copied into it one by one. */
    method CopyLogs(disk: ArtifactDir, dirName: string, names: seq<(string, string)>, failsAt: Option<nat>) returns (threw: bool)
      modifies disk
      ensures threw <==> failsAt.Some? && failsAt.value < |names|
      ensures disk.entries == old(disk.entries)[dirName :=
        Copied(DirOf(old(disk.entries), dirName), if threw then names[..failsAt.value] else names)]
    {
      ghost var before, dir := disk.entries, DirOf(disk.entries, dirName);
      disk.entries := disk.entries[dirName := if dirName in disk.entries then disk.entries[dirName] else map[]];
      for i := 0 to |names|
        invariant disk.entries == before[dirName := Copied(dir, names[..i])]
        invariant failsAt.Some? && failsAt.value < |names| ==> i <= failsAt.value
      {
        if failsAt == Some(i) { return true; }
        CopyOne(before, dirName, dir, names, i);
        disk.entries := disk.entries[dirName := disk.entries[dirName][names[i].0 := names[i].1]];
      }
      assert names[..|names|] == names;
      return false;
    }

    /** `rescueAppLogs(label)`. */
    method RescueAppLogs(disk: ArtifactDir, dirName: string, vault: Vault, failsAt: Option<nat>) returns (o: Outcome)
      modifies this, disk
      ensures o == OutcomeOf(old(rescued), dirName, vault, failsAt)
      ensures o.AlreadyRescued? <==> dirName in old(rescued)
      ensures o.NothingRecorded? <==> dirName !in old(rescued) && vault.NoVault?
      ensures o.NoLog? <==> dirName !in old(rescued) && vault.NoLogDir?
      ensures o.NoLogFile? <==> dirName !in old(rescued) && vault.LogDir? && LogFiles(vault.files) == []
      ensures o.Rescued? || o.Threw? ==>
        var logs := LogFiles(vault.files);
        && (o.Threw? <==> failsAt.Some? && failsAt.value < |logs|) && (o.Rescued? ==> o.count == |logs|)
        && disk.entries == old(disk.entries)[dirName :=
             Copied(DirOf(old(disk.entries), dirName), if o.Threw? then logs[..failsAt.value] else logs)]
      ensures !(o.Rescued? || o.Threw?) ==> disk.entries == old(disk.entries)
      ensures disk.entries == DirAfter(old(disk.entries), dirName, o, Writes(old(rescued), dirName, vault, failsAt))
      ensures rescued == old(rescued) + if o.Rescued? then {dirName} else {}
      ensures completed == old(completed) + if o.Rescued? then [dirName] else []
    {
      if dirName in rescued { return AlreadyRescued; }
      if vault.NoVault? { return NothingRecorded; }
      if vault.NoLogDir? { return NoLog; }
      var names := LogFiles(vault.files);
      if |names| == 0 { return NoLogFile; }
      var threw := CopyLogs(disk, dirName, names, failsAt);
      if threw { return Threw; }
      rescued := rescued + {dirName};
      completed := completed + [dirName];
      return Rescued(|names|);
    }
  }

  lemma CopyOne(artifacts: map<string, Dir>, dirName: string, dir: Dir, files: seq<(string, string)>, i: nat)
    requires i < |files|
    ensures var so := artifacts[dirName := Copied(dir, files[..i])];
            so[dirName := so[dirName][files[i].0 := files[i].1]] == artifacts[dirName := Copied(dir, files[..i + 1])]
  {
    var next := files[..i + 1];
    assert next[..|next| - 1] == files[..i];
  }

  /** The logs are the files whose names start so, in the order of the listing. */
  lemma {:induction false} LogFilesSnoc(files: seq<(string, string)>, last: (string, string))
    ensures LogFiles(files + [last]) == LogFiles(files) + if "agaric.log" <= last.0 then [last] else []
  {
    if files == [] {
      assert [] + [last] == [last] && [last][1..] == [];
      assert LogFiles([last]) == (if PREFIX <= last.0 then [last] else []) + LogFiles([last][1..]);
    } else {
      assert (files + [last])[0] == files[0] && (files + [last])[1..] == files[1..] + [last];
      LogFilesSnoc(files[1..], last);
    }
  }

  // -------------------------------------------------------- what copies leave ---

  /** The text written last under a name. */
  function LastText(files: seq<(string, string)>, name: string): (text: Option<string>) {
    if files == [] then None
    else if files[|files| - 1].0 == name then Some(files[|files| - 1].1)
    else LastText(files[..|files| - 1], name)
  }

  /** Under each name a directory holds what was written last, or what it held. */
  lemma {:induction false} CopiedHas(dir: Dir, files: seq<(string, string)>, name: string)
    ensures name in Copied(dir, files) <==> name in dir || LastText(files, name).Some?
    ensures name in Copied(dir, files) ==>
      Copied(dir, files)[name] == if LastText(files, name).Some? then LastText(files, name).value else dir[name]
  {
    if files != [] { CopiedHas(dir, files[..|files| - 1], name); }
  }

  lemma {:induction false} CopiedAppend(dir: Dir, a: seq<(string, string)>, b: seq<(string, string)>)
    ensures Copied(dir, a + b) == Copied(Copied(dir, a), b)
    decreases |b|
  {
    if b == [] {
      assert a + b == a;
    } else {
      CopiedAppend(dir, a, b[..|b| - 1]);
      assert (a + b)[..|a + b| - 1] == a + b[..|b| - 1];
    }
  }

  /** Copying leaves a directory as it is: nothing is written last under a new name or with a different text. */
  ghost predicate Harmless(dir: Dir, files: seq<(string, string)>) {
    forall name :: LastText(files, name).Some? ==> name in dir && dir[name] == LastText(files, name).value
  }

  lemma CopiedIsSame(dir: Dir, files: seq<(string, string)>)
    ensures Copied(dir, files) == dir <==> Harmless(dir, files)
  {
    forall name
      ensures name in Copied(dir, files) <==> name in dir || LastText(files, name).Some?
      ensures name in Copied(dir, files) ==>
        Copied(dir, files)[name] == if LastText(files, name).Some? then LastText(files, name).value else dir[name]
    {
      CopiedHas(dir, files, name);
    }
  }

  /** A directory then holds exactly the files copied if and only if it held no other name. */
  lemma CopiedIsExact(dir: Dir, files: seq<(string, string)>)
    ensures Copied(dir, files) == Copied(map[], files) <==> forall name <- dir :: LastText(files, name).Some?
  {
    var after, exact := Copied(dir, files), Copied(map[], files);
    forall name
      ensures name in after <==> name in dir || LastText(files, name).Some?
      ensures name in exact <==> LastText(files, name).Some?
      ensures name in exact ==> name in after && after[name] == exact[name]
    {
      CopiedHas(dir, files, name);
      CopiedHas(map[], files, name);
    }
    if forall name <- dir :: LastText(files, name).Some? {
      assert after.Keys == exact.Keys;
    }
  }

  // ------------------------------------------------------- all the processes ---

  datatype Event =
    | TestFails(parent: Option<string>, title: Option<string>, vault: Vault, failsAt: Option<nat>)
    | SessionEnds(vault: Vault, failsAt: Option<nat>)

  function LabelOf(e: Event): (dirName: string) {
    match e
    case TestFails(parent, title, _, _) =>
      SanitizeForFilename((if parent.Some? then parent.value else "suite") + "-"
                          + (if title.Some? then title.value else "test"))
    case SessionEnds(_, _) => SESSION_LOG_LABEL
  }

  /** A failing test's label is that of its suite's title and its own, where it has them. */
  lemma TestLabelIs(parent: string, title: string, vault: Vault, failsAt: Option<nat>)
    ensures LabelOf(TestFails(Some(parent), Some(title), vault, failsAt)) == SanitizeForFilename(parent + "-" + title)
    ensures LabelOf(TestFails(Some(parent), None, vault, failsAt)) == SanitizeForFilename(parent + "-test")
    ensures LabelOf(TestFails(None, Some(title), vault, failsAt)) == SanitizeForFilename("suite-" + title)
    ensures LabelOf(SessionEnds(vault, failsAt)) == "session"
  {
    assert parent + "-" + "test" == parent + "-test" && "suite" + "-" + title == "suite-" + title;
  }

  /** A process has an event. Workers of one run and of others may take turns in any order. */
  datatype Call = Call(process: nat, event: Event)

  /** Per process the labels it completed, in order; and the artifact directory they share. */
  datatype State = State(completed: map<nat, seq<string>>, artifacts: map<string, Dir>)

  function CompletedBy(s: State, p: nat): (labels: seq<string>) {
    if p in s.completed then s.completed[p] else []
  }

  function LabelsOf(labels: seq<string>): (known: set<string>) { set l <- labels }

  function OutcomeIn(s: State, c: Call): (o: Outcome) {
    OutcomeOf(LabelsOf(CompletedBy(s, c.process)), LabelOf(c.event), c.event.vault, c.event.failsAt)
  }

  function WritesIn(s: State, c: Call): (w: seq<(string, string)>) {
    Writes(LabelsOf(CompletedBy(s, c.process)), LabelOf(c.event), c.event.vault, c.event.failsAt)
  }

  function After(s: State, c: Call): (after: State) {
    var o := OutcomeIn(s, c);
    State(if o.Rescued? then s.completed[c.process := CompletedBy(s, c.process) + [LabelOf(c.event)]] else s.completed,
          DirAfter(s.artifacts, LabelOf(c.event), o, WritesIn(s, c)))
  }

  /** A run over a directory that holds what earlier runs left; no process has completed a label. */
  function Run(left: map<string, Dir>, calls: seq<Call>): (s: State) {
    if calls == [] then State(map[], left)
    else After(Run(left, calls[..|calls| - 1]), calls[|calls| - 1])
  }

  lemma RunSnoc(left: map<string, Dir>, calls: seq<Call>, c: Call)
    ensures Run(left, calls + [c]) == After(Run(left, calls), c)
  {
    assert (calls + [c])[..|calls + [c]| - 1] == calls;
  }

  // ------------------------------------------------------- the process's own ---

  /** The label is among those the process has completed. */
  ghost predicate HasCompleted(s: State, p: nat, dirName: string) {
    exists i :: 0 <= i < |CompletedBy(s, p)| && CompletedBy(s, p)[i] == dirName
  }

  /** The call is a rescue of `p` under the label that copies every log. */
  ghost predicate Completes(s: State, c: Call, p: nat, dirName: string) {
    exists count :: c.process == p && LabelOf(c.event) == dirName && OutcomeIn(s, c) == Rescued(count)
  }

  /** One of the calls is one. */
  ghost predicate WasRescued(left: map<string, Dir>, calls: seq<Call>, p: nat, dirName: string) {
    calls != []
    && var n := |calls| - 1;
    (WasRescued(left, calls[..n], p, dirName) || Completes(Run(left, calls[..n]), calls[n], p, dirName))
  }

  lemma CompletesAt(s: State, c: Call, after: State, p: nat, dirName: string)
    requires after == After(s, c)
    ensures HasCompleted(after, p, dirName) <==> HasCompleted(s, p, dirName) || Completes(s, c, p, dirName)
  {
    var labels, more := CompletedBy(s, p), CompletedBy(after, p);
    assert OutcomeIn(s, c).Rescued? <==> exists count :: OutcomeIn(s, c) == Rescued(count);
    assert HasCompleted(s, p, dirName) <==> dirName in labels;
    assert HasCompleted(after, p, dirName) <==> dirName in more;
  }

  lemma RunLast(left: map<string, Dir>, calls: seq<Call>)
    requires calls != []
    ensures Run(left, calls) == After(Run(left, calls[..|calls| - 1]), calls[|calls| - 1])
  {
  }

  /**
   * A process has completed a label exactly when a rescue of its own under it
   * has copied every log; one that threw half-way can be made again.
   */
  lemma {:induction false} CompletedIsRescued(left: map<string, Dir>, calls: seq<Call>, p: nat, dirName: string)
    ensures HasCompleted(Run(left, calls), p, dirName) <==> WasRescued(left, calls, p, dirName)
  {
    if calls != [] {
      var n := |calls| - 1;
      CompletedIsRescued(left, calls[..n], p, dirName);
      RunLast(left, calls);
      CompletesAt(Run(left, calls[..n]), calls[n], Run(left, calls), p, dirName);
    }
  }

  /** Each process completes each label at most once. */
  lemma {:induction false} EachLabelOnce(left: map<string, Dir>, calls: seq<Call>, p: nat)
    ensures Distinct(CompletedBy(Run(left, calls), p))
  {
    if calls != [] {
      var c := calls[|calls| - 1];
      EachLabelOnce(left, calls[..|calls| - 1], p);
      OnceMore(Run(left, calls[..|calls| - 1]), c, p);
    }
  }

  lemma OnceMore(s: State, c: Call, p: nat)
    requires Distinct(CompletedBy(s, p))
    ensures Distinct(CompletedBy(After(s, c), p))
  {
    if c.process == p && OutcomeIn(s, c).Rescued? {
      assert LabelOf(c.event) !in CompletedBy(s, p);
    }
  }

  lemma TestLabels(e: Event)
    requires e.TestFails?
    ensures LabelOf(e) != SESSION_LOG_LABEL
  {
    LabelIsSafe((if e.parent.Some? then e.parent.value else "suite") + "-" + (if e.title.Some? then e.title.value else "test"));
  }

  /** Whatever its failing tests are called, a process has not completed the session's label before its session ends. */
  lemma {:induction false} SessionLabelIsFree(left: map<string, Dir>, calls: seq<Call>, p: nat)
    requires forall c <- calls :: c.process == p ==> c.event.TestFails?
    ensures SESSION_LOG_LABEL !in CompletedBy(Run(left, calls), p)
  {
    if calls != [] {
      var c := calls[|calls| - 1];
      assert c in calls;
      SessionLabelIsFree(left, calls[..|calls| - 1], p);
      if c.process == p { TestLabels(c.event); }
    }
  }

  /** And no failing test of any process touches the session's directory. */
  lemma {:induction false} SessionDirectoryIsFree(left: map<string, Dir>, calls: seq<Call>)
    requires forall c <- calls :: c.event.TestFails?
    ensures DirOf(Run(left, calls).artifacts, SESSION_LOG_LABEL) == DirOf(left, SESSION_LOG_LABEL)
  {
    if calls != [] {
      var c := calls[|calls| - 1];
      assert c in calls;
      SessionDirectoryIsFree(left, calls[..|calls| - 1]);
      TestLabels(c.event);
    }
  }

  /**
   * So the rescue at the end of a session is never skipped: it is made whenever
   * there are logs, whatever else the run did. Its directory then holds exactly
   * those logs if and only if it held no other name before.
   */
  lemma SessionRescueHappens(left: map<string, Dir>, calls: seq<Call>, end: Call)
    requires forall c <- calls :: c.process == end.process ==> c.event.TestFails?
    requires end.event.SessionEnds? && end.event.vault.LogDir? && LogFiles(end.event.vault.files) != []
    requires end.event.failsAt.None?
    ensures var logs := LogFiles(end.event.vault.files);
            var before, after := Run(left, calls), Run(left, calls + [end]);
            && OutcomeIn(before, end) == Rescued(|logs|)
            && SESSION_LOG_LABEL in after.artifacts
            && after.artifacts[SESSION_LOG_LABEL] == Copied(DirOf(before.artifacts, SESSION_LOG_LABEL), logs)
            && (after.artifacts[SESSION_LOG_LABEL] == Copied(map[], logs)
                <==> forall name <- DirOf(before.artifacts, SESSION_LOG_LABEL) :: LastText(logs, name).Some?)
  {
    SessionLabelIsFree(left, calls, end.process);
    RunSnoc(left, calls, end);
    CopiedIsExact(DirOf(Run(left, calls).artifacts, SESSION_LOG_LABEL), LogFiles(end.event.vault.files));
  }

  // ------------------------------------------------------- the others' turns ---

  /** What the calls write under a label from `s` on, one after the other. */
  function WritesUnder(s: State, calls: seq<Call>, dirName: string): (w: seq<(string, string)>)
    decreases |calls|
  {
    if calls == [] then []
    else (if LabelOf(calls[0].event) == dirName then WritesIn(s, calls[0]) else [])
         + WritesUnder(After(s, calls[0]), calls[1..], dirName)
  }

  /** The state after more calls. */
  function Then(s: State, calls: seq<Call>): (after: State)
    decreases |calls|
  {
    if calls == [] then s else Then(After(s, calls[0]), calls[1..])
  }

  lemma {:induction false} RunThen(left: map<string, Dir>, calls: seq<Call>, more: seq<Call>, s: State)
    requires s == Run(left, calls)
    ensures Run(left, calls + more) == Then(s, more)
    decreases |more|
  {
    if more == [] {
      assert calls + more == calls;
    } else {
      RunSnoc(left, calls, more[0]);
      RunThen(left, calls + [more[0]], more[1..], After(s, more[0]));
      MoveHead(calls, more);
    }
  }

  /** A label's directory is what all the copies under it leave. */
  lemma {:induction false} DirectoryIsWrites(s: State, calls: seq<Call>, dirName: string)
    ensures DirOf(Then(s, calls).artifacts, dirName) == Copied(DirOf(s.artifacts, dirName), WritesUnder(s, calls, dirName))
    decreases |calls|
  {
    if calls != [] {
      var c := calls[0];
      var own := if LabelOf(c.event) == dirName then WritesIn(s, c) else [];
      DirectoryIsWrites(After(s, c), calls[1..], dirName);
      CopiedAppend(DirOf(s.artifacts, dirName), own, WritesUnder(After(s, c), calls[1..], dirName));
      OneCall(s, c, dirName);
    }
  }

  lemma OneCall(s: State, c: Call, dirName: string)
    ensures DirOf(After(s, c).artifacts, dirName)
         == Copied(DirOf(s.artifacts, dirName), if LabelOf(c.event) == dirName then WritesIn(s, c) else [])
  {
  }

  /** The same, of all processes but `p`. */
  function WritesOfOthers(s: State, calls: seq<Call>, dirName: string, p: nat): (w: seq<(string, string)>)
    decreases |calls|
  {
    if calls == [] then []
    else (if LabelOf(calls[0].event) == dirName && calls[0].process != p then WritesIn(s, calls[0]) else [])
         + WritesOfOthers(After(s, calls[0]), calls[1..], dirName, p)
  }

  /** The process that completed a label writes nothing under it any more. */
  lemma OwnTurnWritesNothing(s: State, c: Call, dirName: string, p: nat)
    requires dirName in CompletedBy(s, p)
    ensures dirName in CompletedBy(After(s, c), p)
    ensures c.process == p && LabelOf(c.event) == dirName ==> WritesIn(s, c) == []
  {
    assert dirName in LabelsOf(CompletedBy(s, p));
  }

  lemma {:induction false} OnlyOthersWrite(s: State, calls: seq<Call>, dirName: string, p: nat)
    requires dirName in CompletedBy(s, p)
    ensures WritesUnder(s, calls, dirName) == WritesOfOthers(s, calls, dirName, p)
    ensures (forall c <- calls :: c.process == p) ==> WritesUnder(s, calls, dirName) == []
    decreases |calls|
  {
    if calls != [] {
      assert calls[0] in calls;
      OwnTurnWritesNothing(s, calls[0], dirName, p);
      OnlyOthersWrite(After(s, calls[0]), calls[1..], dirName, p);
    }
  }

  /**
   * What becomes of a completed copy, exactly. After any more calls it is as it
   * was if and only if the other processes among them wrote nothing last under a
   * new name or with a different text. Its own process never writes to it again.
   */
  lemma CompletedStays(left: map<string, Dir>, calls: seq<Call>, more: seq<Call>, dirName: string, p: nat)
    requires dirName in CompletedBy(Run(left, calls), p)
    ensures var s := Run(left, calls);
            var copy, later := DirOf(s.artifacts, dirName), DirOf(Run(left, calls + more).artifacts, dirName);
            && (later == copy <==> Harmless(copy, WritesOfOthers(s, more, dirName, p)))
            && ((forall c <- more :: c.process == p) ==> later == copy)
  {
    var s := Run(left, calls);
    RunThen(left, calls, more, s);
    DirectoryIsWrites(s, more, dirName);
    OnlyOthersWrite(s, more, dirName, p);
    CopiedIsSame(DirOf(s.artifacts, dirName), WritesUnder(s, more, dirName));
  }

  /** Every rescue, whole or half, that the calls make under the label leaves `copy` alone. */
  ghost predicate AllHarmless(s: State, calls: seq<Call>, dirName: string, copy: Dir)
    decreases |calls|
  {
    calls == []
    || (&& (LabelOf(calls[0].event) == dirName ==> Harmless(copy, WritesIn(s, calls[0])))
        && AllHarmless(After(s, calls[0]), calls[1..], dirName, copy))
  }

  /** The label's directory is `copy` now and after each of the calls. */
  ghost predicate Stands(s: State, calls: seq<Call>, dirName: string, copy: Dir)
    decreases |calls|
  {
    DirOf(s.artifacts, dirName) == copy && (calls == [] || Stands(After(s, calls[0]), calls[1..], dirName, copy))
  }

  /** It is as it was all along if and only if no single rescue wrote a new name or a different text. */
  lemma {:induction false} StandsThroughout(s: State, calls: seq<Call>, dirName: string, copy: Dir)
    requires DirOf(s.artifacts, dirName) == copy
    ensures Stands(s, calls, dirName, copy) <==> AllHarmless(s, calls, dirName, copy)
    decreases |calls|
  {
    if calls != [] {
      var c, next := calls[0], After(s, calls[0]);
      OneCall(s, c, dirName);
      if LabelOf(c.event) == dirName { CopiedIsSame(copy, WritesIn(s, c)); }
      if DirOf(next.artifacts, dirName) == copy {
        StandsThroughout(next, calls[1..], dirName, copy);
      }
    }
  }

  /**
   * The workers of one run do get in each other's way: every one ends its session
   * under the same label. The second overwrites what the first completed, and
   * its own directory holds a log of the first beside its own.
   */
  lemma SecondWorkerOverwrites() returns (calls: seq<Call>)
    ensures |calls| == 2 && calls[0].process != calls[1].process
    ensures forall c <- calls :: c.event.SessionEnds? && c.event.failsAt.None?
    ensures var first, second := Run(map[], calls[..1]), Run(map[], calls);
            && first.artifacts == map[SESSION_LOG_LABEL := map["agaric.log.a" := "first", "agaric.log.b" := "first"]]
            && second.artifacts == map[SESSION_LOG_LABEL := map["agaric.log.a" := "first", "agaric.log.b" := "second"]]
            && CompletedBy(first, calls[0].process) == [SESSION_LOG_LABEL]
            && CompletedBy(second, calls[1].process) == [SESSION_LOG_LABEL]
  {
    var a, b := [("agaric.log.a", "first"), ("agaric.log.b", "first")], [("agaric.log.b", "second")];
    calls := [Call(1, SessionEnds(LogDir(a), None)), Call(2, SessionEnds(LogDir(b), None))];
    TwoLogs(a);
    OneLog(b);
    OneRescue(State(map[], map[]), calls[0], a);
    assert calls[..1] == [] + [calls[0]] && calls == calls[..1] + [calls[1]];
    RunSnoc(map[], [], calls[0]);
    RunSnoc(map[], calls[..1], calls[1]);
    OneRescue(Run(map[], calls[..1]), calls[1], b);
    assert Copied(map["agaric.log.a" := "first", "agaric.log.b" := "first"], b)
        == map["agaric.log.a" := "first", "agaric.log.b" := "second"];
  }

  lemma OneRescue(s: State, c: Call, logs: seq<(string, string)>)
    requires c.event.SessionEnds? && c.event.failsAt.None? && c.event.vault == LogDir(logs)
    requires logs != [] && LogFiles(logs) == logs && c.process !in s.completed
    ensures After(s, c).completed == s.completed[c.process := [SESSION_LOG_LABEL]]
    ensures After(s, c).artifacts == s.artifacts[SESSION_LOG_LABEL := Copied(DirOf(s.artifacts, SESSION_LOG_LABEL), logs)]
  {
    assert LabelsOf([]) == {} && [] + [SESSION_LOG_LABEL] == [SESSION_LOG_LABEL];
    assert CompletedBy(s, c.process) == [];
  }

  lemma OneLog(logs: seq<(string, string)>)
    requires |logs| == 1 && PREFIX <= logs[0].0
    ensures LogFiles(logs) == logs && forall dir :: Copied(dir, logs) == dir[logs[0].0 := logs[0].1]
  {
    assert logs[1..] == [] && logs[..0] == [];
    assert LogFiles(logs) == [logs[0]] + LogFiles(logs[1..]);
  }

  lemma TwoLogs(logs: seq<(string, string)>)
    requires |logs| == 2 && PREFIX <= logs[0].0 && PREFIX <= logs[1].0
    ensures LogFiles(logs) == logs
    ensures Copied(map[], logs) == map[][logs[0].0 := logs[0].1][logs[1].0 := logs[1].1]
  {
    OneLog(logs[1..]);
    OneLog(logs[..1]);
    assert LogFiles(logs) == [logs[0]] + LogFiles(logs[1..]);
  }
}
