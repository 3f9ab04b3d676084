/** The crash-safe file write: several writers over one file system, interleaved effect by effect, any
    of which may fail, and cut off anywhere by a crash. */
module AtomicWrite {
  import opened Bytes
  import Decimal
  import Text

  datatype Path = Path(dir: bytes, name: bytes)

  const DOT: byte := 0x2E
  const TMP: bytes := [DOT, 0x74, 0x6D, 0x70, DOT]

  /** The staging file: beside the target, marked with the process that writes. */
  function TmpPath(p: Path, pid: nat): Path {
    Path(p.dir, p.name + TMP + Decimal.Digits(pid))
  }

  /** Names lead to files, and an open file stays the same file when its name moves. */
  datatype Fs = Fs(names: map<Path, nat>, data: map<nat, bytes>, next: nat)

  predicate ValidFs(fs: Fs) {
    && (forall p :: p in fs.names ==> fs.names[p] in fs.data)
    && (forall p, q :: p in fs.names && q in fs.names && fs.names[p] == fs.names[q] ==> p == q)
    && (forall f :: f in fs.data ==> f < fs.next)
  }

  function Content(fs: Fs, p: Path): Option<bytes> {
    if p in fs.names && fs.names[p] in fs.data then Some(fs.data[fs.names[p]]) else None
  }

  /** One call of `atomic_write`. */
  datatype Job = Job(target: Path, pid: nat, bytes: bytes)

  function Tmp(j: Job): Path {
    TmpPath(j.target, j.pid)
  }

  /** Where the call stands: the staging file is being written up to `done`, is complete, has to be
      removed after a failure; or the call has returned. */
  datatype Phase = Start | Writing(file: nat, done: nat) | Staged | CleanUp | ReturnedOk | ReturnedErr

  datatype State = State(fs: Fs, phases: seq<Phase>)

  /** The next effect of a call: as far as it goes (`amount` bytes of a write), or its failure. */
  datatype Effect = Effect(job: nat, amount: nat, fails: bool)

  /** Bytes put into a file at an offset, with a hole before them when it is shorter. */
  function PutAt(was: bytes, at: nat, b: bytes): bytes {
    if at <= |was| then was[..at] + b + (if at + |b| <= |was| then was[at + |b|..] else [])
    else was + seq(at - |was|, _ => 0) + b
  }

  /** `open` with create and truncate. */
  function OpenFile(fs: Fs, p: Path): (Fs, nat) {
    if p in fs.names then (fs.(data := fs.data[fs.names[p] := []]), fs.names[p])
    else (Fs(fs.names[p := fs.next], fs.data[fs.next := []], fs.next + 1), fs.next)
  }

  function WriteFile(fs: Fs, file: nat, at: nat, b: bytes): Fs {
    fs.(data := fs.data[file := PutAt(if file in fs.data then fs.data[file] else [], at, b)])
  }

  function RenameFile(fs: Fs, from: Path, to: Path): Fs
    requires from in fs.names
  {
    fs.(names := (fs.names - {from})[to := fs.names[from]])
  }

  function RemoveFile(fs: Fs, p: Path): Fs {
    fs.(names := fs.names - {p})
  }

  /** One effect of one call. */
  function Act(j: Job, fs: Fs, phase: Phase, amount: nat, fails: bool): (Fs, Phase) {
    match phase
    case Start =>
      if fails then (fs, CleanUp) else var (fs', file) := OpenFile(fs, Tmp(j)); (fs', Writing(file, 0))
    case Writing(file, done) =>
      if fails then (fs, CleanUp)
      else if done >= |j.bytes| then (fs, Staged)
      else
        var end := if done + amount < |j.bytes| then done + amount else |j.bytes|;
        (WriteFile(fs, file, done, j.bytes[done..end]), Writing(file, end))
    case Staged =>
      if fails || Tmp(j) !in fs.names then (fs, CleanUp)
      else (RenameFile(fs, Tmp(j), j.target), ReturnedOk)
    case CleanUp => (if fails then fs else RemoveFile(fs, Tmp(j)), ReturnedErr)
    case ReturnedOk => (fs, phase)
    case ReturnedErr => (fs, phase)
  }

  function Step(jobs: seq<Job>, s: State, e: Effect): (t: State)
    requires |s.phases| == |jobs|
    ensures |t.phases| == |jobs|
  {
    if e.job >= |jobs| then s
    else
      var (fs, phase) := Act(jobs[e.job], s.fs, s.phases[e.job], e.amount, e.fails);
      State(fs, s.phases[e.job := phase])
  }

  function Initial(jobs: seq<Job>, fs: Fs): (s: State)
    ensures |s.phases| == |jobs|
  {
    State(fs, seq(|jobs|, _ => Start))
  }

  /** A run, cut off after the last of these effects. */
  function Run(jobs: seq<Job>, fs: Fs, run: seq<Effect>): (s: State)
    ensures |s.phases| == |jobs|
  {
    if run == [] then Initial(jobs, fs) else Step(jobs, Run(jobs, fs, run[..|run| - 1]), run[|run| - 1])
  }

  // --- calls that share a staging file ------------------------------------------------------

  /** Two calls by one process on one target, at least one of which has something to write. */
  predicate Clash(j: Job, k: Job) {
    j.target == k.target && j.pid == k.pid && (j.bytes != [] || k.bytes != [])
  }

  /** The call has begun and has not returned. */
  predicate Busy(phase: Phase) {
    phase.Writing? || phase.Staged? || phase.CleanUp?
  }

  predicate NotBoth(jobs: seq<Job>, s: State)
    requires |s.phases| == |jobs|
  {
    forall a, b :: 0 <= a < |jobs| && 0 <= b < |jobs| && a != b && Clash(jobs[a], jobs[b]) ==>
      !(Busy(s.phases[a]) && Busy(s.phases[b]))
  }

  /** At no time in the run are two clashing calls under way: they may well follow each other. */
  ghost predicate InTurn(jobs: seq<Job>, fs: Fs, run: seq<Effect>) {
    forall k :: 0 <= k <= |run| ==> NotBoth(jobs, Run(jobs, fs, run[..k]))
  }

  /** No target is a staging file. */
  predicate Separate(jobs: seq<Job>) {
    forall a, b :: 0 <= a < |jobs| && 0 <= b < |jobs| ==> Tmp(jobs[a]) != jobs[b].target
  }

  lemma TmpSuffix(name: bytes, pid: nat)
    ensures Text.RSplitOnce(name + TMP + Decimal.Digits(pid), DOT) == Some((name + TMP[..4], Decimal.Digits(pid)))
  {
    hide Text.RSplitOnce;
    var d := Decimal.Digits(pid);
    assert DOT !in d;
    assert name + TMP + d == (name + TMP[..4]) + [DOT] + d;
    Text.RSplitOnceOf(name + TMP[..4], DOT, d);
  }

  /** The staging name tells the target and the process, and nothing else. */
  lemma TmpInjective(p: Path, i: nat, q: Path, j: nat)
    ensures TmpPath(p, i) == TmpPath(q, j) <==> p == q && i == j
  {
    hide Text.RSplitOnce;
    if TmpPath(p, i) == TmpPath(q, j) {
      TmpSuffix(p.name, i);
      TmpSuffix(q.name, j);
      assert p.name == (p.name + TMP[..4])[..|p.name + TMP[..4]| - 4];
      assert q.name == (q.name + TMP[..4])[..|q.name + TMP[..4]| - 4];
      Decimal.ValueOfDigits(i);
      Decimal.ValueOfDigits(j);
    }
  }

  lemma TmpIsNotTarget(p: Path, pid: nat)
    ensures TmpPath(p, pid) != p
  {
    assert |TmpPath(p, pid).name| > |p.name|;
  }

  predicate IsTmp(jobs: seq<Job>, p: Path) {
    exists a :: 0 <= a < |jobs| && Tmp(jobs[a]) == p
  }

  /** What a call that is still staging keeps: its staging file holds exactly what it has written. A call
      with nothing to write only needs that the file, if it is still there, is empty. */
  predicate Staging(j: Job, fs: Fs, phase: Phase) {
    if j.bytes == [] then
      phase.Writing? || phase.Staged? ==> Tmp(j) in fs.names ==> Content(fs, Tmp(j)) == Some([])
    else
      match phase
      case Writing(file, done) =>
        done <= |j.bytes| && Tmp(j) in fs.names && fs.names[Tmp(j)] == file && Content(fs, Tmp(j)) == Some(j.bytes[..done])
      case Staged => Content(fs, Tmp(j)) == Some(j.bytes)
      case _ => true
  }

  /** Every name but these two leads to the same file with the same content. */
  ghost predicate SameBut(fs: Fs, t: Fs, p: Path, q: Path) {
    && (forall r :: r != p && r != q ==> Content(t, r) == Content(fs, r))
    && (forall r :: r != p && r != q ==> (r in t.names <==> r in fs.names))
    && (forall r :: r != p && r != q && r in fs.names && r in t.names ==> t.names[r] == fs.names[r])
  }

  lemma OpenFacts(fs: Fs, p: Path)
    requires ValidFs(fs)
    ensures var (t, file) := OpenFile(fs, p);
            && ValidFs(t) && SameBut(fs, t, p, p)
            && Content(t, p) == Some([]) && p in t.names && t.names[p] == file
  {
    hide OpenFile;
    if p in fs.names { TruncateFacts(fs, p); } else { CreateFacts(fs, p); }
  }

  lemma TruncateFacts(fs: Fs, p: Path)
    requires ValidFs(fs) && p in fs.names
    ensures var (t, file) := OpenFile(fs, p);
            && ValidFs(t) && SameBut(fs, t, p, p)
            && Content(t, p) == Some([]) && p in t.names && t.names[p] == file
  {
  }

  lemma CreateFacts(fs: Fs, p: Path)
    requires ValidFs(fs) && p !in fs.names
    ensures var (t, file) := OpenFile(fs, p);
            && ValidFs(t) && SameBut(fs, t, p, p)
            && Content(t, p) == Some([]) && p in t.names && t.names[p] == file
  {
  }

  lemma WriteFacts(fs: Fs, p: Path, at: nat, b: bytes)
    requires ValidFs(fs) && p in fs.names
    ensures var t := WriteFile(fs, fs.names[p], at, b);
            && ValidFs(t) && SameBut(fs, t, p, p) && t.names == fs.names
            && Content(t, p) == Some(PutAt(Content(fs, p).value, at, b))
  {
    hide PutAt;
  }

  lemma RenameFacts(fs: Fs, from: Path, to: Path)
    requires ValidFs(fs) && from in fs.names && from != to
    ensures var t := RenameFile(fs, from, to);
            ValidFs(t) && SameBut(fs, t, from, to) && Content(t, to) == Content(fs, from) && from !in t.names
  {
  }

  lemma RemoveFacts(fs: Fs, p: Path)
    requires ValidFs(fs)
    ensures ValidFs(RemoveFile(fs, p)) && SameBut(fs, RemoveFile(fs, p), p, p) && p !in RemoveFile(fs, p).names
  {
  }

  /** An effect leaves every other name's content alone, and a return tells what became of the target. */
  lemma ActFacts(j: Job, fs: Fs, phase: Phase, amount: nat, fails: bool)
    requires ValidFs(fs) && Staging(j, fs, phase)
    ensures var (t, phase') := Act(j, fs, phase, amount, fails);
            && ValidFs(t) && Staging(j, t, phase') && SameBut(fs, t, Tmp(j), j.target)
            && (if phase.Staged? && phase'.ReturnedOk? then Content(t, j.target) == Some(j.bytes)
                else Content(t, j.target) == Content(fs, j.target) && (phase'.ReturnedOk? <==> phase.ReturnedOk?))
  {
    hide TmpPath, Content, ValidFs, OpenFile, WriteFile, RenameFile, RemoveFile;
    TmpIsNotTarget(j.target, j.pid);
    match phase
    case Start =>
      OpenFacts(fs, Tmp(j));
    case Writing(file, done) =>
      if j.bytes != [] && !fails && done < |j.bytes| {
        var end := if done + amount < |j.bytes| then done + amount else |j.bytes|;
        WriteFacts(fs, Tmp(j), done, j.bytes[done..end]);
        assert PutAt(j.bytes[..done], done, j.bytes[done..end]) == j.bytes[..end];
      } else {
        assert done == |j.bytes| ==> j.bytes[..done] == j.bytes;
      }
    case Staged =>
      if Tmp(j) in fs.names { RenameFacts(fs, Tmp(j), j.target); }
    case CleanUp =>
      RemoveFacts(fs, Tmp(j));
    case _ =>
  }

  /** A call with nothing to write leaves its staging file as it was, empty, or gone. */
  lemma EmptyActs(j: Job, fs: Fs, phase: Phase, amount: nat, fails: bool)
    requires ValidFs(fs) && j.bytes == []
    ensures var t := Act(j, fs, phase, amount, fails).0;
            Tmp(j) in t.names ==> Content(t, Tmp(j)) == Some([]) || (Tmp(j) in fs.names && Content(t, Tmp(j)) == Content(fs, Tmp(j)))
  {
    hide TmpPath, Content, ValidFs, OpenFile, WriteFile, RenameFile, RemoveFile;
    TmpIsNotTarget(j.target, j.pid);
    match phase
    case Start => OpenFacts(fs, Tmp(j));
    case Staged =>
      if Tmp(j) in fs.names { RenameFacts(fs, Tmp(j), j.target); }
    case CleanUp => RemoveFacts(fs, Tmp(j));
    case _ =>
  }

  lemma OthersKept(jobs: seq<Job>, s: State, e: Effect, b: nat)
    requires Separate(jobs) && |s.phases| == |jobs| && ValidFs(s.fs) && e.job < |jobs| && b < |jobs|
    requires NotBoth(jobs, s) && NotBoth(jobs, Step(jobs, s, e))
    requires Staging(jobs[e.job], s.fs, s.phases[e.job]) && Staging(jobs[b], s.fs, s.phases[b])
    ensures Staging(jobs[b], Step(jobs, s, e).fs, Step(jobs, s, e).phases[b])
  {
    hide TmpPath, Content, ValidFs, OpenFile, WriteFile, RenameFile, RemoveFile;
    var a := e.job;
    ActFacts(jobs[a], s.fs, s.phases[a], e.amount, e.fails);
    TmpInjective(jobs[a].target, jobs[a].pid, jobs[b].target, jobs[b].pid);
    if jobs[a].bytes == [] { EmptyActs(jobs[a], s.fs, s.phases[a], e.amount, e.fails); }
    assert a != b && Tmp(jobs[a]) == Tmp(jobs[b]) && jobs[b].bytes != [] ==> Clash(jobs[a], jobs[b]);
  }

  /** What a file has to hold: the bytes of the call that returned success for it last, or what it held
      at first when none has. */
  function Newest(jobs: seq<Job>, fs: Fs, run: seq<Effect>, p: Path): Option<bytes> {
    if run == [] then Content(fs, p)
    else
      var before, e := run[..|run| - 1], run[|run| - 1];
      if Returns(jobs, Run(jobs, fs, before), e, p) then Some(jobs[e.job].bytes) else Newest(jobs, fs, before, p)
  }

  /** With this effect a call returns success for this file. */
  predicate Returns(jobs: seq<Job>, s: State, e: Effect, p: Path)
    requires |s.phases| == |jobs|
  {
    && e.job < |jobs| && jobs[e.job].target == p
    && !s.phases[e.job].ReturnedOk? && Step(jobs, s, e).phases[e.job].ReturnedOk?
  }

  lemma TargetStep(jobs: seq<Job>, s: State, e: Effect, p: Path)
    requires |s.phases| == |jobs| && ValidFs(s.fs) && !IsTmp(jobs, p)
    requires e.job < |jobs| ==> Staging(jobs[e.job], s.fs, s.phases[e.job])
    ensures Content(Step(jobs, s, e).fs, p) == if Returns(jobs, s, e, p) then Some(jobs[e.job].bytes) else Content(s.fs, p)
  {
    hide TmpPath, Content, ValidFs, Staging, Act;
    if e.job < |jobs| {
      ActFacts(jobs[e.job], s.fs, s.phases[e.job], e.amount, e.fails);
      OnlyStagedReturns(jobs[e.job], s.fs, s.phases[e.job], e.amount, e.fails);
      assert Tmp(jobs[e.job]) != p;
    }
  }

  lemma OnlyStagedReturns(j: Job, fs: Fs, phase: Phase, amount: nat, fails: bool)
    ensures Act(j, fs, phase, amount, fails).1.ReturnedOk? ==> phase.Staged? || phase.ReturnedOk?
  {
  }

  ghost predicate Inv(jobs: seq<Job>, s: State) {
    && |s.phases| == |jobs| && ValidFs(s.fs)
    && forall a :: 0 <= a < |jobs| ==> Staging(jobs[a], s.fs, s.phases[a])
  }

  lemma StepKeeps(jobs: seq<Job>, s: State, e: Effect)
    requires Separate(jobs) && Inv(jobs, s) && NotBoth(jobs, s) && NotBoth(jobs, Step(jobs, s, e))
    ensures Inv(jobs, Step(jobs, s, e))
  {
    hide Act, Staging, NotBoth, Separate, ValidFs;
    if e.job < |jobs| {
      ActFacts(jobs[e.job], s.fs, s.phases[e.job], e.amount, e.fails);
      forall b | 0 <= b < |jobs| ensures Staging(jobs[b], Step(jobs, s, e).fs, Step(jobs, s, e).phases[b]) {
        OthersKept(jobs, s, e, b);
      }
    }
  }

  lemma InitialInv(jobs: seq<Job>, fs: Fs)
    requires ValidFs(fs)
    ensures Inv(jobs, Run(jobs, fs, []))
  {
    hide ValidFs;
  }

  lemma InTurnBefore(jobs: seq<Job>, fs: Fs, run: seq<Effect>)
    requires run != [] && InTurn(jobs, fs, run)
    ensures var before := run[..|run| - 1];
            InTurn(jobs, fs, before) && NotBoth(jobs, Run(jobs, fs, before)) && NotBoth(jobs, Run(jobs, fs, run))
  {
    hide NotBoth, Run;
    var before := run[..|run| - 1];
    assert run[..|run|] == run;
    forall k | 0 <= k <= |before| ensures NotBoth(jobs, Run(jobs, fs, before[..k])) {
      assert before[..k] == run[..k];
    }
  }

  lemma LastStep(jobs: seq<Job>, fs: Fs, run: seq<Effect>)
    requires run != []
    ensures Run(jobs, fs, run) == Step(jobs, Run(jobs, fs, run[..|run| - 1]), run[|run| - 1])
  {
  }

  lemma {:induction false} RunKeeps(jobs: seq<Job>, fs: Fs, run: seq<Effect>, p: Path)
    requires Separate(jobs) && ValidFs(fs) && InTurn(jobs, fs, run) && !IsTmp(jobs, p)
    ensures Inv(jobs, Run(jobs, fs, run))
    ensures Content(Run(jobs, fs, run).fs, p) == Newest(jobs, fs, run, p)
  {
    hide Step, Run, Returns, Staging, Separate, IsTmp, InTurn, NotBoth, Content, ValidFs;
    InitialInv(jobs, fs);
    RunOfNothing(jobs, fs);
    if run != [] {
      var before, e := run[..|run| - 1], run[|run| - 1];
      InTurnBefore(jobs, fs, run);
      RunKeeps(jobs, fs, before, p);
      LastStep(jobs, fs, run);
      StepKeeps(jobs, Run(jobs, fs, before), e);
      TargetStep(jobs, Run(jobs, fs, before), e, p);
    }
  }

  /** As long as clashing calls take turns, wherever the run is cut off: every file but the staging ones
      holds the complete bytes of the call that returned success for it last, or, when none has, exactly
      what it held before. */
  lemma NewestIsThere(jobs: seq<Job>, fs: Fs, run: seq<Effect>, p: Path)
    requires Separate(jobs) && ValidFs(fs) && InTurn(jobs, fs, run) && !IsTmp(jobs, p)
    ensures Content(Run(jobs, fs, run).fs, p) == Newest(jobs, fs, run, p)
  {
    hide Run, Newest, Content, Separate, IsTmp, InTurn, ValidFs;
    RunKeeps(jobs, fs, run, p);
  }

  /** These are the bytes of a call that has returned success for the file, or what it held at first when
      none has. */
  predicate ByReturned(jobs: seq<Job>, fs: Fs, s: State, p: Path, held: Option<bytes>)
    requires |s.phases| == |jobs|
  {
    || (held == Content(fs, p) && forall a :: 0 <= a < |jobs| && jobs[a].target == p ==> !s.phases[a].ReturnedOk?)
    || exists a :: 0 <= a < |jobs| && jobs[a].target == p && s.phases[a].ReturnedOk? && held == Some(jobs[a].bytes)
  }

  predicate Kept(jobs: seq<Job>, fs: Fs, s: State, p: Path)
    requires |s.phases| == |jobs|
  {
    ByReturned(jobs, fs, s, p, Content(s.fs, p))
  }

  lemma ReturnedStays(jobs: seq<Job>, s: State, e: Effect, a: nat)
    requires |s.phases| == |jobs| && a < |jobs|
    ensures s.phases[a].ReturnedOk? ==> Step(jobs, s, e).phases[a].ReturnedOk?
    ensures !s.phases[a].ReturnedOk? && Step(jobs, s, e).phases[a].ReturnedOk? ==> e.job == a
  {
  }

  lemma ByReturnedStep(jobs: seq<Job>, fs: Fs, s: State, e: Effect, p: Path, held: Option<bytes>)
    requires |s.phases| == |jobs| && ByReturned(jobs, fs, s, p, held)
    ensures ByReturned(jobs, fs, Step(jobs, s, e), p, if Returns(jobs, s, e, p) then Some(jobs[e.job].bytes) else held)
  {
    hide Step, Content;
    forall a | 0 <= a < |jobs|
      ensures s.phases[a].ReturnedOk? ==> Step(jobs, s, e).phases[a].ReturnedOk?
      ensures !s.phases[a].ReturnedOk? && Step(jobs, s, e).phases[a].ReturnedOk? ==> e.job == a
    {
      ReturnedStays(jobs, s, e, a);
    }
  }

  lemma {:induction false} NewestByReturned(jobs: seq<Job>, fs: Fs, run: seq<Effect>, p: Path)
    ensures ByReturned(jobs, fs, Run(jobs, fs, run), p, Newest(jobs, fs, run, p))
  {
    hide Step, Run, Returns, ByReturned, Content;
    if run == [] {
      RunOfNothing(jobs, fs);
      AtFirst(jobs, fs, p);
    } else {
      var before, e := run[..|run| - 1], run[|run| - 1];
      NewestByReturned(jobs, fs, before, p);
      LastStep(jobs, fs, run);
      ByReturnedStep(jobs, fs, Run(jobs, fs, before), e, p, Newest(jobs, fs, before, p));
    }
  }

  lemma AtFirst(jobs: seq<Job>, fs: Fs, p: Path)
    ensures ByReturned(jobs, fs, Initial(jobs, fs), p, Content(fs, p))
  {
    hide Content;
  }

  /** Hence every such file holds complete bytes: those of a call that returned success, or the old. */
  lemma OldOrNew(jobs: seq<Job>, fs: Fs, run: seq<Effect>, p: Path)
    requires Separate(jobs) && ValidFs(fs) && InTurn(jobs, fs, run) && !IsTmp(jobs, p)
    ensures Kept(jobs, fs, Run(jobs, fs, run), p)
  {
    hide Run, Newest, Content, Separate, IsTmp, InTurn, ValidFs;
    NewestIsThere(jobs, fs, run, p);
    NewestByReturned(jobs, fs, run, p);
  }

  /** For one writer: new exactly when the call returned success, old at any crash before that and after
      every error; and no other file but its staging file is touched. */
  lemma OneWriter(j: Job, fs: Fs, run: seq<Effect>)
    requires ValidFs(fs)
    ensures var s := Run([j], fs, run);
            && Content(s.fs, j.target) == (if s.phases[0].ReturnedOk? then Some(j.bytes) else Content(fs, j.target))
            && forall p :: p != j.target && p != Tmp(j) ==> Content(s.fs, p) == Content(fs, p)
  {
    hide Run, Newest, TmpPath, Content, ValidFs, ByReturned;
    var jobs := [j];
    TmpIsNotTarget(j.target, j.pid);
    var s := Run(jobs, fs, run);
    forall p | p != Tmp(j)
      ensures Content(s.fs, p) == if p == j.target && s.phases[0].ReturnedOk? then Some(j.bytes) else Content(fs, p)
    {
      OldOrNew(jobs, fs, run, p);
      KeptAlone(j, fs, s, p);
    }
  }

  lemma KeptAlone(j: Job, fs: Fs, s: State, p: Path)
    requires |s.phases| == 1 && Kept([j], fs, s, p)
    ensures Content(s.fs, p) == if p == j.target && s.phases[0].ReturnedOk? then Some(j.bytes) else Content(fs, p)
  {
    hide Content;
  }

  // --- exactly when every run is safe -------------------------------------------------------

  lemma RunSnoc(jobs: seq<Job>, fs: Fs, run: seq<Effect>, e: Effect)
    ensures Run(jobs, fs, run + [e]) == Step(jobs, Run(jobs, fs, run), e)
  {
    assert (run + [e])[..|run|] == run;
  }

  lemma {:induction false} Untouched(jobs: seq<Job>, fs: Fs, run: seq<Effect>, more: seq<Effect>, b: nat)
    requires b < |jobs| && forall i :: 0 <= i < |more| ==> more[i].job != b
    ensures Run(jobs, fs, run + more).phases[b] == Run(jobs, fs, run).phases[b]
  {
    hide Run, Act;
    if more == [] {
      assert run + more == run;
    } else {
      var before := more[..|more| - 1];
      Untouched(jobs, fs, run, before, b);
      RunSnoc(jobs, fs, run + before, more[|more| - 1]);
      assert run + more == run + before + [more[|more| - 1]];
    }
  }

  /** One process that saves the same target twice, the second time after the first call has returned, is
      within the rule. */
  lemma OneAfterAnother(j: Job, k: Job, fs: Fs, first: seq<Effect>, second: seq<Effect>)
    requires forall i :: 0 <= i < |first| ==> first[i].job == 0
    requires forall i :: 0 <= i < |second| ==> second[i].job == 1
    requires !Busy(Run([j, k], fs, first).phases[0])
    ensures InTurn([j, k], fs, first + second)
  {
    hide Run, Clash;
    var jobs, run := [j, k], first + second;
    RunOfNothing(jobs, fs);
    forall n | 0 <= n <= |run| ensures NotBoth(jobs, Run(jobs, fs, run[..n])) {
      if n <= |first| {
        assert run[..n] == [] + first[..n];
        Untouched(jobs, fs, [], first[..n], 1);
      } else {
        assert run[..n] == first + second[..n - |first|];
        Untouched(jobs, fs, first, second[..n - |first|], 0);
      }
    }
  }

  /** One call stages all it has: four effects that leave its bytes under the staging name. */
  lemma Stages(jobs: seq<Job>, fs: Fs, a: nat) returns (run: seq<Effect>)
    requires ValidFs(fs) && a < |jobs|
    ensures var s := Run(jobs, fs, run);
            && ValidFs(s.fs) && s.phases == Initial(jobs, fs).phases[a := Staged]
            && Tmp(jobs[a]) in s.fs.names && Content(s.fs, Tmp(jobs[a])) == Some(jobs[a].bytes)
            && SameBut(fs, s.fs, Tmp(jobs[a]), Tmp(jobs[a]))
  {
    hide Run, TmpPath, Content, ValidFs, PutAt, OpenFile, WriteFile, RenameFile, RemoveFile;
    var tmp, n := Tmp(jobs[a]), |jobs[a].bytes|;
    RunOfNothing(jobs, fs);
    OpenFacts(fs, tmp);
    run := Then(jobs, fs, [], Effect(a, 0, false));
    var created := Run(jobs, fs, run).fs;
    if n > 0 {
      WriteFacts(created, tmp, 0, jobs[a].bytes);
      PutAll(jobs[a].bytes);
      assert jobs[a].bytes[0..n] == jobs[a].bytes;
      run := Then(jobs, fs, run, Effect(a, n, false));
    }
    run := Then(jobs, fs, run, Effect(a, 0, false));
  }

  lemma PutAll(b: bytes)
    ensures PutAt([], 0, b) == b
  {
  }

  /** Two clashing calls can meet: the second one's open empties what the first has staged, and the first
      then returns success over an empty target. */
  lemma SharedStagingLoses(jobs: seq<Job>, fs: Fs, a: nat, b: nat)
    requires ValidFs(fs) && a < |jobs| && b < |jobs| && a != b && Tmp(jobs[a]) == Tmp(jobs[b]) && jobs[a].bytes != []
    ensures exists run :: var s := Run(jobs, fs, run); s.phases[a].ReturnedOk? && !Kept(jobs, fs, s, jobs[a].target)
  {
    hide Run, TmpPath, Content, ValidFs, PutAt, OpenFile, WriteFile, RenameFile, RemoveFile;
    var tmp, target := Tmp(jobs[a]), jobs[a].target;
    TmpIsNotTarget(target, jobs[a].pid);
    var r3 := Stages(jobs, fs, a);
    OpenFacts(Run(jobs, fs, r3).fs, tmp);
    var r4 := Then(jobs, fs, r3, Effect(b, 0, false));
    RenameFacts(Run(jobs, fs, r4).fs, tmp, target);
    var r5 := Then(jobs, fs, r4, Effect(a, 0, false));
    var s := Run(jobs, fs, r5);
    assert s.phases[a].ReturnedOk? && Content(s.fs, target) == Some([]);
    assert !Kept(jobs, fs, s, target);
  }

  /** A target that is another call's staging file does not outlive that call, even if its own call is
      never made. */
  lemma StagingOnTargetLoses(jobs: seq<Job>, fs: Fs, a: nat, b: nat)
    requires ValidFs(fs) && a < |jobs| && b < |jobs| && Tmp(jobs[a]) == jobs[b].target
    ensures exists run :: !Kept(jobs, fs, Run(jobs, fs, run), jobs[b].target)
  {
    hide Run, TmpPath, Content, ValidFs, PutAt, OpenFile, WriteFile, RenameFile, RemoveFile;
    var tmp, target := Tmp(jobs[a]), jobs[a].target;
    TmpIsNotTarget(target, jobs[a].pid);
    RunOfNothing(jobs, fs);
    if Content(fs, tmp) != Some([]) {
      OpenFacts(fs, tmp);
      var r1 := Then(jobs, fs, [], Effect(a, 0, false));
      assert !Kept(jobs, fs, Run(jobs, fs, r1), tmp);
    } else {
      var r3 := Stages(jobs, fs, a);
      RenameFacts(Run(jobs, fs, r3).fs, tmp, target);
      var r4 := Then(jobs, fs, r3, Effect(a, 0, false));
      NoName(Run(jobs, fs, r4).fs, tmp);
      assert !Kept(jobs, fs, Run(jobs, fs, r4), tmp);
    }
  }

  lemma NoName(fs: Fs, p: Path)
    requires p !in fs.names
    ensures Content(fs, p) == None
  {
  }

  /** What can be seen before any call is made: no target is a staging file, and no two calls clash. */
  predicate Safe(jobs: seq<Job>) {
    Separate(jobs) && forall a, b :: 0 <= a < |jobs| && 0 <= b < |jobs| && a != b ==> !Clash(jobs[a], jobs[b])
  }

  ghost predicate AlwaysKept(jobs: seq<Job>, fs: Fs) {
    forall run, b :: 0 <= b < |jobs| ==> Kept(jobs, fs, Run(jobs, fs, run), jobs[b].target)
  }

  /** Every target is old or new in every run, whatever the interleaving, the failures and the moment of the
      crash, if and only if the calls are safe. */
  lemma AlwaysKeptExactly(jobs: seq<Job>, fs: Fs)
    requires ValidFs(fs)
    ensures AlwaysKept(jobs, fs) <==> Safe(jobs)
  {
    hide Run, Kept, ValidFs, Clash, TmpPath;
    if Safe(jobs) {
      forall run, b | 0 <= b < |jobs| ensures Kept(jobs, fs, Run(jobs, fs, run), jobs[b].target) {
        SafeInTurn(jobs, fs, run);
        OldOrNew(jobs, fs, run, jobs[b].target);
      }
    } else if !Separate(jobs) {
      var a, b :| 0 <= a < |jobs| && 0 <= b < |jobs| && Tmp(jobs[a]) == jobs[b].target;
      StagingOnTargetLoses(jobs, fs, a, b);
    } else {
      var a, b :| 0 <= a < |jobs| && 0 <= b < |jobs| && a != b && Clash(jobs[a], jobs[b]);
      ClashFacts(jobs[a], jobs[b]);
      if jobs[a].bytes != [] {
        SharedStagingLoses(jobs, fs, a, b);
      } else {
        SharedStagingLoses(jobs, fs, b, a);
      }
    }
  }

  lemma ClashFacts(j: Job, k: Job)
    requires Clash(j, k)
    ensures Tmp(j) == Tmp(k) && (j.bytes != [] || k.bytes != [])
  {
  }

  lemma SafeInTurn(jobs: seq<Job>, fs: Fs, run: seq<Effect>)
    requires Safe(jobs)
    ensures InTurn(jobs, fs, run)
  {
    hide Run, Clash;
  }

  lemma RunOfNothing(jobs: seq<Job>, fs: Fs)
    ensures Run(jobs, fs, []) == Initial(jobs, fs)
  {
  }

  // --- one call, in the order of the code ---------------------------------------------------

  /** What goes wrong: the open, the write after so many bytes, the rename, the removal. */
  datatype Luck = Luck(opens: bool, writes: Option<nat>, renames: bool, removes: bool)

  /** The write gets as far as the last byte. */
  predicate Writes(luck: Luck, j: Job) {
    luck.writes.None? || luck.writes.value >= |j.bytes|
  }

  /** The staging name: the target's, `.tmp.` and the process number. */
  lemma TmpName(p: Path, pid: nat)
    ensures TmpPath(p, pid) == Path(p.dir, p.name + Ascii(".tmp.") + Decimal.Digits(pid))
  {
    assert TMP == Ascii(".tmp.");
  }

  class Disk {
    var fs: Fs

    constructor (fs: Fs)
      ensures this.fs == fs
    {
      this.fs := fs;
    }

    /** `fs::write`. */
    method Write(j: Job, luck: Luck) returns (ok: bool, ghost run: seq<Effect>)
      modifies this
      ensures var s := Run([j], old(fs), run);
              fs == s.fs && s.phases == [if ok then Staged else CleanUp]
      ensures ok <==> luck.opens && Writes(luck, j)
      ensures ok ==> Tmp(j) in fs.names
    {
      ghost var jobs, start := [j], fs;
      run := [];
      run := Then(jobs, start, run, Effect(0, 0, !luck.opens));
      if !luck.opens {
        return false, run;
      }
      var (created, file) := OpenFile(fs, Tmp(j));
      fs := created;
      var n := if luck.writes.Some? && luck.writes.value < |j.bytes| then luck.writes.value else |j.bytes|;
      if j.bytes != [] {
        fs := WriteFile(fs, file, 0, j.bytes[..n]);
        run := Then(jobs, start, run, Effect(0, n, false));
      }
      run := Then(jobs, start, run, Effect(0, 0, n < |j.bytes|));
      ok := n == |j.bytes|;
    }

    /** `atomic_write`. Its effects are a run of the model, so a crash anywhere inside it is a prefix of
        that run. */
    method AtomicWrite(j: Job, luck: Luck) returns (ok: bool, ghost run: seq<Effect>)
      modifies this
      ensures var s := Run([j], old(fs), run);
              fs == s.fs && s.phases == [if ok then ReturnedOk else ReturnedErr]
      ensures ok <==> luck.opens && Writes(luck, j) && luck.renames
      ensures ok || luck.removes ==> Tmp(j) !in fs.names
      ensures ValidFs(old(fs)) ==>
                && Content(fs, j.target) == (if ok then Some(j.bytes) else Content(old(fs), j.target))
                && forall p :: p != j.target && p != Tmp(j) ==> Content(fs, p) == Content(old(fs), p)
    {
      ghost var jobs, start := [j], fs;
      TmpIsNotTarget(j.target, j.pid);
      ok, run := Write(j, luck);
      if ok {
        run := Then(jobs, start, run, Effect(0, 0, !luck.renames));
        ok := luck.renames && Tmp(j) in fs.names;
        if ok {
          fs := RenameFile(fs, Tmp(j), j.target);
        }
      }
      if !ok {
        run := Then(jobs, start, run, Effect(0, 0, !luck.removes));
        if luck.removes {
          fs := RemoveFile(fs, Tmp(j));
        }
      }
      if ValidFs(start) { OneWriter(j, start, run); }
    }

    /** `Prefs::save`: the directories first, then the write. */
    method Save(j: Job, madeDirs: bool, luck: Luck) returns (ok: bool)
      requires ValidFs(fs)
      modifies this
      ensures ok <==> madeDirs && luck.opens && Writes(luck, j) && luck.renames
      ensures Content(fs, j.target) == if ok then Some(j.bytes) else Content(old(fs), j.target)
      ensures forall p :: p != j.target && p != Tmp(j) ==> Content(fs, p) == Content(old(fs), p)
    {
      if !madeDirs {
        return false;
      }
      ghost var run;
      ok, run := AtomicWrite(j, luck);
    }
  }

  ghost function Then(jobs: seq<Job>, fs: Fs, run: seq<Effect>, e: Effect): (r: seq<Effect>)
    ensures r == run + [e] && Run(jobs, fs, r) == Step(jobs, Run(jobs, fs, run), e)
  {
    RunSnoc(jobs, fs, run, e);
    run + [e]
  }
}
