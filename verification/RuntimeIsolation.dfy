/** Setting the root runtime object aside for a benchmark sample and putting it
    back, under any schedule of file-system errors. */
module RuntimeIsolation {
  import opened Options

  type Bytes = string

  datatype Place = Root | Backup | Staging

  /** The three sibling paths of one transaction. */
  type Files = map<Place, Bytes>

  /** An error may strike before or after the operation took effect; a copy may
      also stop half way. */
  datatype Fault = Works | Before | Later | Partial(bytes: Bytes)

  /** The operation took effect, whether or not it reported an error. */
  predicate Lands(f: Fault) { f == Works || f == Later }

  datatype Prepared = Prepared(found: Option<Bytes>, recorded: Bytes)

  datatype Setup = Setup(warm: bool, original: Option<Bytes>, prepared: Option<Prepared>)

  datatype Trouble =
    | NotMaterialized | PreparedReplaced | RestoreFailed | BackupMissing | CleanupFailed | StagingCleanupFailed
    | NotRestored

  datatype Record = Record(original: Option<Bytes>, pre: Option<Bytes>)

  /** How `_begin_runner_runtime_isolation` ends. */
  datatype Begun = Ready(record: Record) | Refused | RolledBack | Unrecovered

  /** What `_finish_runner_runtime_isolation` records. */
  datatype Finished = Finished(restored: bool, backupAfter: bool, stagingAfter: bool, troubles: seq<Trouble>)

  function At(f: Files, p: Place): Option<Bytes> {
    if p in f then Some(f[p]) else None
  }

  /** The original is at one of its two places. */
  predicate Kept(f: Files, original: Option<Bytes>) {
    original.Some? ==> At(f, Root) == original || At(f, Backup) == original
  }

  ghost predicate AlwaysKept(trace: seq<Files>, original: Option<Bytes>) {
    forall i :: 0 <= i < |trace| ==> Kept(trace[i], original)
  }

  function Moved(f: Files, source: Place, target: Place): Files
    requires source in f && source != target
  {
    (f - {source})[target := f[source]]
  }

  /** What a begun transaction leaves at the root path. */
  function Installed(setup: Setup): Option<Bytes> {
    if setup.warm && setup.prepared.Some? then Some(setup.prepared.value.recorded) else None
  }

  lemma SameFiles(f: Files, g: Files)
    requires At(f, Root) == At(g, Root) && At(f, Backup) == At(g, Backup) && At(f, Staging) == At(g, Staging)
    ensures f == g
  {
    forall p: Place ensures At(f, p) == At(g, p) {
      match p case Root => case Backup => case Staging =>
    }
    assert forall p :: p in f <==> At(f, p).Some?;
    assert forall p :: p in g <==> At(g, p).Some?;
  }

  // ---------------------------------------------------------------------
  // What the schedule of errors decides
  // ---------------------------------------------------------------------

  ghost predicate WorksThrough(fault: nat -> Fault, start: nat, steps: nat) {
    forall n {:trigger fault(n)} :: start <= n < start + steps ==> fault(n) == Works
  }

  /** The prepared object still has the bytes recorded for it. */
  predicate PreparedSound(setup: Setup) {
    setup.warm ==> setup.prepared.Some? && setup.prepared.value.found == Some(setup.prepared.value.recorded)
  }

  /** Nothing but an error of the file system can stop the transaction. */
  predicate Startable(f: Files, setup: Setup) {
    Backup !in f && Staging !in f && At(f, Root) == setup.original && PreparedSound(setup)
  }

  /** Operations of a start that meets no error. */
  function InstallSteps(warm: bool, original: Option<Bytes>): nat {
    (if original.Some? then 2 else 0) + (if warm then 4 else 0) + 1
  }

  function BeginSteps(setup: Setup): nat { 1 + InstallSteps(setup.warm, setup.original) }

  /** The step at which a finish that began at `s` reads the root for its
      verdict: after the inspection, the restoration and the cleanup. */
  function LastRead(f: Files, original: Option<Bytes>, s: nat): nat {
    s + 1 + (if original.Some? || Root in f then 1 else 0) + (if Staging in f then 1 else 0)
  }

  /** The reads that the verdict depends on work. */
  predicate Readable(f: Files, original: Option<Bytes>, fault: nat -> Fault, s: nat) {
    (original.Some? && Backup !in f ==> fault(s + 1) == Works) && fault(LastRead(f, original, s)) == Works
  }

  /** The one rename or removal of a finish puts the original back, or it was
      there already. */
  predicate PutBack(f: Files, original: Option<Bytes>, fault: nat -> Fault, s: nat) {
    if original.Some? && Backup in f && Lands(fault(s + 1)) then At(f, Backup) == original
    else At(f, Root) == original || (original.None? && Lands(fault(s + 1)))
  }

  class Disk {
    const fault: nat -> Fault
    var step: nat
    var files: Files
    /** Every state the paths went through, the present one last. */
    ghost var trace: seq<Files>

    constructor (files: Files, fault: nat -> Fault)
      ensures this.files == files && trace == [files] && this.fault == fault && step == 0
    {
      this.files, this.fault, step := files, fault, 0;
      trace := [files];
    }

    ghost predicate Calm() {
      forall n :: fault(n) == Works
    }

    method Next() returns (f: Fault)
      modifies `step
      ensures f == fault(old(step)) && step == old(step) + 1
    {
      f := fault(step);
      step := step + 1;
    }

    method Become(f: Files)
      modifies `files, `trace
      ensures files == f && trace == old(trace) + [f]
    {
      files := f;
      trace := trace + [f];
    }

    /** `_optional_file_state`, which may fail to read. */
    method Read(p: Place) returns (ok: bool, content: Option<Bytes>)
      modifies `step
      ensures content == At(files, p) && step == old(step) + 1
      ensures ok <==> fault(old(step)) == Works
    {
      var f := Next();
      ok, content := f == Works, At(files, p);
    }

    /** `os.replace`. */
    method Replace(source: Place, target: Place) returns (ok: bool)
      requires source != target
      modifies `step, `files, `trace
      ensures step == old(step) + 1
      ensures ok <==> source in old(files) && fault(old(step)) == Works
      ensures if source in old(files) && Lands(fault(old(step))) then
          files == Moved(old(files), source, target) && trace == old(trace) + [files]
        else files == old(files) && trace == old(trace)
    {
      var f := Next();
      if source in files && Lands(f) {
        Become(Moved(files, source, target));
        return f == Works;
      }
      ok := false;
    }

    /** `Path.unlink`. */
    method Unlink(p: Place) returns (ok: bool)
      modifies `step, `files, `trace
      ensures step == old(step) + 1
      ensures ok <==> p in old(files) && fault(old(step)) == Works
      ensures if p in old(files) && Lands(fault(old(step))) then
          files == old(files) - {p} && trace == old(trace) + [files]
        else files == old(files) && trace == old(trace)
    {
      var f := Next();
      if p in files && Lands(f) {
        Become(files - {p});
        return f == Works;
      }
      ok := false;
    }

    /** `shutil.copy2` of the prepared object to the staging path. */
    method Copy(content: Option<Bytes>) returns (ok: bool)
      modifies `step, `files, `trace
      ensures trace == old(trace) + [files] || (trace == old(trace) && files == old(files))
      ensures forall p :: p != Staging ==> At(files, p) == At(old(files), p)
      ensures ok <==> content.Some? && fault(old(step)) == Works
      ensures ok ==> files == old(files)[Staging := content.value] && step == old(step) + 1
    {
      var f := Next();
      if content.Some? && Lands(f) {
        Become(files[Staging := content.value]);
        return f == Works;
      }
      if content.Some? && f.Partial? {
        Become(files[Staging := f.bytes]);
      }
      ok := false;
    }

    // ---------------------------------------------------------------------
    // Begin
    // ---------------------------------------------------------------------

    /** `_begin_runner_runtime_isolation` for a lane that isolates. */
    method Begin(setup: Setup) returns (begun: Begun)
      modifies `step, `files, `trace
      ensures old(trace) <= trace
      ensures AlwaysKept(trace[|old(trace)|..], At(old(files), Root)) && Kept(files, At(old(files), Root))
      ensures begun == Refused || begun == RolledBack ==> files == old(files)
      ensures begun == Refused ==> trace == old(trace)
      ensures Backup in old(files) || Staging in old(files) || setup.original != At(old(files), Root) ==> begun == Refused
      ensures begun.Ready? ==>
        begun.record.original == setup.original == At(old(files), Root) == At(files, Backup) && Staging !in files &&
        begun.record.pre == At(files, Root) == Installed(setup)
      ensures begun.Ready? <==>
        Startable(old(files), setup) && WorksThrough(fault, old(step), BeginSteps(setup))
      ensures begun.Ready? ==> step == old(step) + BeginSteps(setup)
      ensures Calm() ==> begun.Ready? || begun == RolledBack || begun == Refused
    {
      if Backup in files || Staging in files {
        return Refused;
      }
      var ok, original := Read(Root);
      if !ok || original != setup.original {
        return Refused;
      }
      var moved, pre;
      ok, moved, pre := Install(setup, original);
      if ok {
        return Ready(Record(original, pre));
      }
      ok := RollBack(original, moved);
      if ok {
        SameFiles(files, old(files));
      }
      begun := if ok then RolledBack else Unrecovered;
    }

    /** Where a transaction that set out from `original` may be. */
    ghost predicate Underway(original: Option<Bytes>, moved: bool)
      reads this
    {
      if original.Some? && (moved || Root !in files) then At(files, Backup) == original
      else Backup !in files && (original.Some? ==> At(files, Root) == original)
    }

    /** The body of the `try`. */
    method Install(setup: Setup, original: Option<Bytes>) returns (ok: bool, moved: bool, pre: Option<Bytes>)
      requires Backup !in files && Staging !in files && At(files, Root) == original
      modifies `step, `files, `trace
      ensures old(trace) <= trace && AlwaysKept(trace[|old(trace)|..], original)
      ensures Underway(original, moved) && (original.None? ==> !moved)
      ensures ok ==> At(files, Backup) == original && Staging !in files && (original.Some? ==> moved)
      ensures ok ==> pre == At(files, Root) == Installed(setup)
      ensures ok <==> PreparedSound(setup) && WorksThrough(fault, old(step), InstallSteps(setup.warm, original))
      ensures ok ==> step == old(step) + InstallSteps(setup.warm, original)
    {
      ok, moved, pre := false, false, None;
      if original.Some? {
        ok := Replace(Root, Backup);
        if !ok {
          return;
        }
        moved := true;
        var kept;
        ok, kept := Read(Backup);
        ok := ok && kept == original;
        if !ok {
          return;
        }
      }
      if setup.warm {
        ok := InstallPrepared(setup.prepared, original);
        if !ok {
          return;
        }
      }
      ok, pre := Read(Root);
    }

    /** Copy to the sibling, verify, then rename over the root path. */
    method InstallPrepared(prepared: Option<Prepared>, original: Option<Bytes>) returns (ok: bool)
      requires Root !in files && At(files, Backup) == original && Staging !in files
      modifies `step, `files, `trace
      ensures old(trace) <= trace && AlwaysKept(trace[|old(trace)|..], original)
      ensures At(files, Backup) == original
      ensures ok ==> Staging !in files && prepared.Some? && At(files, Root) == Some(prepared.value.recorded)
      ensures ok <==>
        prepared.Some? && prepared.value.found == Some(prepared.value.recorded) && WorksThrough(fault, old(step), 4)
      ensures ok ==> step == old(step) + 4
    {
      if prepared.None? {
        return false;
      }
      ok := Copy(prepared.value.found);
      if !ok {
        return;
      }
      var staged;
      ok, staged := Read(Staging);
      if !ok || staged != Some(prepared.value.recorded) {
        return false;
      }
      ok := Replace(Staging, Root);
      if ok {
        var f := Next();
        ok := f == Works;
      }
    }

    /** The recovery after a failure; nothing is left over when it succeeds. */
    method RollBack(original: Option<Bytes>, moved: bool) returns (ok: bool)
      requires Underway(original, moved) && (original.None? ==> !moved)
      modifies `step, `files, `trace
      ensures old(trace) <= trace && AlwaysKept(trace[|old(trace)|..], original) && Kept(files, original)
      ensures ok ==> At(files, Root) == original && Backup !in files && Staging !in files
      ensures Calm() ==> ok
    {
      ok := true;
      if moved || (original.Some? && Backup in files && Root !in files) {
        ok := Replace(Backup, Root);
      } else if original.None? && Root in files {
        ok := Unlink(Root);
      }
      if Staging in files {
        var cleaned := Unlink(Staging);
        ok := ok && cleaned;
      }
    }

    // ---------------------------------------------------------------------
    // Finish
    // ---------------------------------------------------------------------

    /** `_finish_runner_runtime_isolation`. The verdict is `computed` unless an
        error escapes first; then the record still says `restored`. So the
        record is right exactly if the verdict's reads work or the original is
        back anyway. */
    method Finish(setup: Setup, record: Record) returns (raised: bool, computed: bool, result: Finished)
      modifies `step, `files, `trace
      ensures old(trace) <= trace
      ensures At(old(files), Backup) == record.original ==>
        AlwaysKept(trace[|old(trace)|..], record.original) && Kept(files, record.original)
      ensures computed <==> Readable(old(files), record.original, fault, old(step))
      ensures At(files, Root) == record.original <==> PutBack(old(files), record.original, fault, old(step))
      ensures (result.restored <==> At(files, Root) == record.original) <==>
        Readable(old(files), record.original, fault, old(step)) || PutBack(old(files), record.original, fault, old(step))
      ensures computed ==> result.restored == (At(files, Root) == record.original)
      ensures computed ==> result.backupAfter == (Backup in files) && result.stagingAfter == (Staging in files)
      ensures computed && result.troubles == [] ==> result.restored && Staging !in files
      ensures computed ==> (NotRestored in result.troubles <==> !result.restored)
      ensures raised <==> !computed || fault(old(step)) != Works
      ensures !raised ==> RootTroubles(setup, At(old(files), Root)) <= result.troubles
      ensures !computed ==> result.restored
      ensures Calm() && At(old(files), Backup) == record.original ==>
        !raised && computed && result.restored && Backup !in files && Staging !in files &&
        result.troubles == RootTroubles(setup, At(old(files), Root))
    {
      var ok, post := Read(Root);
      raised := !ok;
      var troubles := if ok then RootTroubles(setup, post) else [];
      var failure;
      ok, failure := PutAway(record.original);
      computed, result := Judge(record.original, ok, troubles + failure);
      raised := raised || !computed;
    }

    /** Restoration, then the cleanup that must not prevent it. */
    method PutAway(original: Option<Bytes>) returns (ok: bool, troubles: seq<Trouble>)
      modifies `step, `files, `trace
      ensures old(trace) <= trace
      ensures At(old(files), Backup) == original ==>
        AlwaysKept(trace[|old(trace)|..], original) && Kept(files, original)
      ensures NotRestored !in troubles && (troubles == [] ==> Staging !in files)
      ensures ok <==> (original.Some? && Backup !in old(files) ==> fault(old(step)) == Works)
      ensures step + 1 == LastRead(old(files), original, old(step))
      ensures At(files, Root) == RootAfter(old(files), original, fault(old(step)))
      ensures Calm() && At(old(files), Backup) == original ==>
        At(files, Root) == original && Backup !in files && Staging !in files && troubles == []
    {
      ok, troubles := Restore(original);
      if Staging in files {
        var cleaned := Unlink(Staging);
        if !cleaned {
          troubles := troubles + [StagingCleanupFailed];
        }
      }
    }

    /** The restoration proper: rename the backup over whatever is there. */
    method Restore(original: Option<Bytes>) returns (ok: bool, troubles: seq<Trouble>)
      modifies `step, `files, `trace
      ensures old(trace) <= trace && At(files, Staging) == At(old(files), Staging)
      ensures At(old(files), Backup) == original ==>
        AlwaysKept(trace[|old(trace)|..], original) && Kept(files, original)
      ensures NotRestored !in troubles
      ensures ok <==> (original.Some? && Backup !in old(files) ==> fault(old(step)) == Works)
      ensures step == old(step) + if original.Some? || Root in old(files) then 1 else 0
      ensures At(files, Root) == RootAfter(old(files), original, fault(old(step)))
      ensures Calm() && At(old(files), Backup) == original ==> Backup !in files && troubles == []
    {
      ok, troubles := true, [];
      if original.Some? && Backup in files {
        var restored := Replace(Backup, Root);
        if !restored {
          troubles := [RestoreFailed];
        }
      } else if original.Some? {
        var current;
        ok, current := Read(Root);
        if ok && current != original {
          troubles := [BackupMissing];
        }
      } else if Root in files {
        var cleaned := Unlink(Root);
        if !cleaned {
          troubles := [CleanupFailed];
        }
      }
    }

    /** The verdict, unless the restoration or this last read raised. */
    method Judge(original: Option<Bytes>, ok: bool, troubles: seq<Trouble>) returns (computed: bool, result: Finished)
      requires NotRestored !in troubles
      modifies `step
      ensures computed <==> ok && fault(old(step)) == Works
      ensures computed ==>
        result.restored == (At(files, Root) == original) &&
        result.backupAfter == (Backup in files) && result.stagingAfter == (Staging in files)
      ensures !computed ==> result.restored
      ensures computed ==> result.troubles == troubles + if result.restored then [] else [NotRestored]
      ensures troubles <= result.troubles
    {
      var readable, current := ok, None;
      if ok {
        readable, current := Read(Root);
      }
      if !readable {
        return false, Finished(true, false, false, troubles);
      }
      computed := true;
      result := Finished(current == original, Backup in files, Staging in files,
        if current == original then troubles else troubles + [NotRestored]);
    }

    /** The measured child: it may write or remove the root object only. */
    method RunChild(writes: seq<Option<Bytes>>, original: Option<Bytes>)
      requires At(files, Backup) == original
      modifies `files, `trace
      ensures old(trace) <= trace && AlwaysKept(trace[|old(trace)|..], original)
      ensures At(files, Backup) == original && At(files, Staging) == At(old(files), Staging)
      ensures At(files, Root) == LastWrite(At(old(files), Root), writes)
    {
      for i := 0 to |writes|
        invariant old(trace) <= trace && AlwaysKept(trace[|old(trace)|..], original)
        invariant At(files, Backup) == original && At(files, Staging) == At(old(files), Staging)
        invariant At(files, Root) == LastWrite(At(old(files), Root), writes[..i])
      {
        if writes[i].Some? {
          Become(files[Root := writes[i].value]);
        } else {
          Become(files - {Root});
        }
      }
    }

    /** A whole sample. At every moment the original is at the root path or at
        the backup path; a verdict tells the truth; a quiet end means that all
        three paths are as they were. */
    method Sample(setup: Setup, writes: seq<Option<Bytes>>)
      returns (begun: Begun, raised: bool, computed: bool, result: Finished)
      modifies `step, `files, `trace
      ensures old(trace) <= trace && AlwaysKept(trace[|old(trace)|..], At(old(files), Root))
      ensures Kept(files, At(old(files), Root))
      ensures begun == Refused || begun == RolledBack ==> files == old(files)
      ensures begun.Ready? <==>
        Startable(old(files), setup) && WorksThrough(fault, old(step), BeginSteps(setup))
      ensures begun.Ready? ==>
        var f, s := AfterChild(setup, writes), old(step) + BeginSteps(setup);
        ((result.restored <==> At(files, Root) == At(old(files), Root)) <==>
          Readable(f, setup.original, fault, s) || PutBack(f, setup.original, fault, s))
      ensures begun.Ready? && Calm() ==> computed && result.restored && files == old(files)
    {
      ghost var original := At(files, Root);
      begun := Begin(setup);
      raised, computed, result := !begun.Ready?, false, Finished(true, false, false, []);
      if begun.Ready? {
        ghost var before := trace;
        RunChild(writes, begun.record.original);
        KeptOn(old(trace), before, trace, original);
        before := trace;
        SameFiles(files, AfterChild(setup, writes));
        raised, computed, result := Finish(setup, begun.record);
        KeptOn(old(trace), before, trace, original);
        if Calm() {
          SameFiles(files, old(files));
        }
      }
    }
  }

  /** The root path after the one step of a restoration. */
  function RootAfter(f: Files, original: Option<Bytes>, step: Fault): Option<Bytes> {
    if !Lands(step) then At(f, Root)
    else if original.Some? && Backup in f then At(f, Backup)
    else if original.None? then None
    else At(f, Root)
  }

  function RootTroubles(setup: Setup, post: Option<Bytes>): seq<Trouble> {
    if post.None? then [NotMaterialized]
    else if setup.warm && post != Installed(setup) then [PreparedReplaced]
    else []
  }

  /** What a child leaves at the root path. */
  function LastWrite(root: Option<Bytes>, writes: seq<Option<Bytes>>): Option<Bytes> {
    if writes == [] then root else writes[|writes| - 1]
  }

  /** The three paths between the child and the finish. */
  function AfterChild(setup: Setup, writes: seq<Option<Bytes>>): Files {
    var root := LastWrite(Installed(setup), writes);
    (if root.Some? then map[Root := root.value] else map[]) +
    (if setup.original.Some? then map[Backup := setup.original.value] else map[])
  }

  lemma KeptOn(a: seq<Files>, b: seq<Files>, c: seq<Files>, original: Option<Bytes>)
    requires a <= b <= c && AlwaysKept(b[|a|..], original) && AlwaysKept(c[|b|..], original)
    ensures AlwaysKept(c[|a|..], original)
  {
    forall i | 0 <= i < |c| - |a| ensures Kept(c[|a|..][i], original) {
      if |a| + i < |b| {
        assert c[|a|..][i] == b[|a|..][i];
      } else {
        assert c[|a|..][i] == c[|b|..][|a| + i - |b|];
      }
    }
  }

  /** Where the record is wrong: the transaction starts well, the child writes,
      and from the finish on every operation fails. The record then claims a
      restoration that never happened. */
  method StaleClaim() returns (disk: Disk, raised: bool, result: Finished)
    ensures raised && result.restored && At(disk.files, Root) != Some("original")
    ensures At(disk.files, Backup) == Some("original")
  {
    disk := new Disk(map[Root := "original"], n => if n < 4 then Works else Before);
    var setup := Setup(false, Some("original"), None);
    var begun := disk.Begin(setup);
    disk.RunChild([Some("generated")], Some("original"));
    var computed;
    raised, computed, result := disk.Finish(setup, begun.record);
  }
}
