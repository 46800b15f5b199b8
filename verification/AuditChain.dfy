/**
 * The audit chain: every event is appended to a rotated log before a
 * checkpoint records the chain's head. Each operation takes a plan saying
 * which disk operations fail and before which one the process dies, so the
 * results hold for every run of appends, failures, rotations and crashes.
 */
module AuditChain {
  import opened Base

  type Digest = Bytes

  const U64_MAX: nat := 0xFFFF_FFFF_FFFF_FFFF

  type u64 = n: nat | n <= U64_MAX
  const ZERO: Digest := [0, 0, 0, 0, 0, 0, 0, 0, 0, 0, 0, 0, 0, 0, 0, 0, 0, 0, 0, 0, 0, 0, 0, 0, 0, 0, 0, 0, 0, 0, 0, 0]

  // ---- entries and chains ---------------------------------------------------

  datatype Entry = Entry(number: u64, prev: Digest, hash: Digest)

  /** A position in the chain: the number and hash of an entry. */
  datatype Head = Head(number: u64, hash: Digest)

  const START: Head := Head(0, ZERO)

  function NextSeq(n: u64): u64 {
    if n == U64_MAX then n else n + 1
  }

  /** The entry continues the chain at the head. */
  predicate Continues(head: Head, entry: Entry) {
    entry.number == NextSeq(head.number) && entry.prev == head.hash
  }

  function HeadOf(log: seq<Entry>): Head {
    if log == [] then START else Head(log[|log| - 1].number, log[|log| - 1].hash)
  }

  /** Each entry continues the one before. */
  predicate Chained(log: seq<Entry>) {
    forall i :: 0 < i < |log| ==> Continues(Head(log[i - 1].number, log[i - 1].hash), log[i])
  }

  /** Strictly, numbers repeat only once the counter is saturated. */
  predicate Below(a: Entry, b: Entry, strict: bool) {
    a.number < b.number || b.number == U64_MAX || (!strict && a.number == b.number)
  }

  /** Numbers go up. */
  predicate Ordered(log: seq<Entry>, strict: bool) {
    forall i, j :: 0 <= i < j < |log| ==> Below(log[i], log[j], strict)
  }

  lemma {:induction false} ChainedOrdered(log: seq<Entry>)
    requires Chained(log)
    ensures Ordered(log, true) && Ordered(log, false)
  {
    if |log| > 1 {
      var n := |log| - 1;
      ChainedOrdered(log[..n]);
      forall i | 0 <= i < n ensures Below(log[i], log[n], true) {
        assert Continues(Head(log[n - 1].number, log[n - 1].hash), log[n]);
        if i < n - 1 { assert log[..n][i] == log[i] && log[..n][n - 1] == log[n - 1]; }
      }
      forall i, j | 0 <= i < j < |log| ensures Below(log[i], log[j], true) {
        if j < n { assert log[..n][i] == log[i] && log[..n][j] == log[j]; }
      }
    }
  }

  /** The entry and head that recording an event on top of `head` would produce. */
  function BuildNext(head: Head, event: Bytes, payload: Bytes, hash: (Digest, Bytes, Bytes) -> Digest)
      : (r: (Entry, Head))
    ensures Continues(head, r.0) && r.1 == Head(r.0.number, r.0.hash) && r.0.hash == hash(head.hash, event, payload)
    ensures r.0.number >= 1
  {
    var next := Head(NextSeq(head.number), hash(head.hash, event, payload));
    (Entry(next.number, head.hash, next.hash), next)
  }

  // ---- log files ------------------------------------------------------------

  datatype File = Missing | Present(entries: seq<Entry>)

  /** The current log and its rotations .1, .2, ..., newest first. */
  type Files = seq<File>

  function Entries(file: File): seq<Entry> {
    if file.Present? then file.entries else []
  }

  /** Everything still on disk, oldest first. */
  function Retained(files: Files): seq<Entry> {
    if files == [] then [] else Retained(files[1..]) + Entries(files[0])
  }

  lemma Regroup(a: seq<Entry>, b: seq<Entry>, c: seq<Entry>, d: seq<Entry>)
    ensures (a + b + c) + d == a + b + (c + d)
  {
  }

  lemma RetainedFirst(files: Files)
    requires files != []
    ensures Retained(files) == Retained(files[1..]) + Entries(files[0])
  {
  }

  lemma {:induction false} RetainedSplit(files: Files, i: nat)
    requires i < |files|
    ensures Retained(files) == Retained(files[i + 1..]) + Entries(files[i]) + Retained(files[..i])
  {
    hide Entries;
    RetainedFirst(files);
    if i == 0 {
      assert files[..0] == [];
      assert Retained(files) == Retained(files[1..]) + Entries(files[0]) + [];
    } else {
      hide Retained;
      RetainedSplit(files[1..], i - 1);
      RetainedFirst(files[..i]);
      assert files[1..][i - 1 + 1..] == files[i + 1..];
      assert files[1..][..i - 1] == files[..i][1..];
      Regroup(Retained(files[i + 1..]), Entries(files[i]), Retained(files[1..][..i - 1]), Entries(files[0]));
    }
  }

  lemma RetainedUpdate(files: Files, i: nat, file: File)
    requires i < |files|
    ensures Retained(files[i := file]) == Retained(files[i + 1..]) + Entries(file) + Retained(files[..i])
  {
    hide Retained, Entries;
    RetainedSplit(files[i := file], i);
    assert files[i := file][i + 1..] == files[i + 1..];
    assert files[i := file][..i] == files[..i];
  }

  lemma EmptyFront(a: seq<Entry>)
    ensures [] + a == a
  {
  }

  lemma RetainedPair(files: Files, i: nat)
    requires 0 < i < |files|
    ensures Retained(files) ==
      Retained(files[i + 1..]) + Entries(files[i]) + (Entries(files[i - 1]) + Retained(files[..i - 1]))
  {
    hide Retained, Entries;
    RetainedSplit(files, i);
    RetainedSplit(files[..i], i - 1);
    NothingRetained();
    EmptyFront(Entries(files[i - 1]));
    assert files[..i][i..] == [] && files[..i][..i - 1] == files[..i - 1];
  }

  lemma NothingRetained()
    ensures Retained([]) == []
  {
  }

  /** Renaming a log to a free name changes nothing about what is retained. */
  lemma RenameKeeps(files: Files, i: nat)
    requires 0 < i < |files| && Entries(files[i]) == []
    ensures Retained(files[i := files[i - 1]][i - 1 := Missing]) == Retained(files)
  {
    var moved := files[i := files[i - 1]][i - 1 := Missing];
    assert Entries(Missing) == [];
    hide Retained, Entries;
    RetainedPair(files, i);
    RetainedPair(moved, i);
    assert moved[i + 1..] == files[i + 1..] && moved[..i - 1] == files[..i - 1];
    MoveAcross(Retained(files[i + 1..]), Entries(files[i - 1]), Retained(files[..i - 1]));
  }

  lemma MoveAcross(a: seq<Entry>, b: seq<Entry>, c: seq<Entry>)
    ensures a + b + ([] + c) == a + [] + (b + c)
  {
  }

  /** The names whose rename or removal fails; either failure is ignored. */
  datatype Faults = Faults(renames: set<nat>, removals: set<nat>)

  /**
   * The files after an uninterrupted rotation of the names up to `idx`. A log whose removal fails is replaced by
   * the rename anyway, or stays when that fails too.
   */
  function Shifted(files: Files, idx: nat, faults: Faults): (r: Files)
    requires idx < |files|
    ensures |r| == |files|
    decreases idx
  {
    if idx == 0 then files
    else if files[idx - 1] == Missing then Shifted(files, idx - 1, faults)
    else if idx !in faults.renames then Shifted(files[idx := files[idx - 1]][idx - 1 := Missing], idx - 1, faults)
    else if idx !in faults.removals then Shifted(files[idx := Missing], idx - 1, faults)
    else Shifted(files, idx - 1, faults)
  }

  lemma ShiftedStep(files: Files, idx: nat, faults: Faults)
    requires 0 < idx < |files|
    ensures files[idx - 1] == Missing ==> Shifted(files, idx, faults) == Shifted(files, idx - 1, faults)
    ensures files[idx - 1] != Missing && idx !in faults.removals ==>
      Shifted(files[idx := Missing], idx, faults) == Shifted(files, idx, faults)
    ensures files[idx - 1] != Missing && (files[idx] == Missing || idx in faults.removals) ==>
      Shifted(files, idx, faults) == if idx in faults.renames then Shifted(files, idx - 1, faults)
        else Shifted(files[idx := files[idx - 1]][idx - 1 := Missing], idx - 1, faults)
  {
    assert files[idx := Missing][idx := files[idx - 1]] == files[idx := files[idx - 1]];
    assert files[idx := Missing][idx := Missing] == files[idx := Missing];
    assert files[idx] == Missing ==> files[idx := Missing] == files;
  }

  // ---- what rotation keeps --------------------------------------------------

  /**
   * `after` still ends where `before` ended and is in order; when no rename failed it is `before` without
   * some of its oldest entries.
   */
  ghost predicate Kept(before: seq<Entry>, after: seq<Entry>, renamed: bool) {
    && (before == [] <==> after == [])
    && HeadOf(after) == HeadOf(before)
    && (forall strict :: Ordered(before, strict) ==> Ordered(after, strict))
    && (forall e :: e in after ==> e in before)
    && (renamed ==> |after| <= |before| && after == before[|before| - |after|..])
  }

  lemma KeptSame(log: seq<Entry>, renamed: bool)
    ensures Kept(log, log, renamed)
  {
  }

  lemma KeptTrans(a: seq<Entry>, b: seq<Entry>, c: seq<Entry>, first: bool, second: bool)
    requires Kept(a, b, first) && Kept(b, c, second)
    ensures Kept(a, c, first && second)
  {
    if first && second {
      assert c == b[|b| - |c|..] == a[|a| - |b|..][|b| - |c|..] == a[|a| - |c|..];
    }
  }

  lemma KeptAppend(before: seq<Entry>, after: seq<Entry>, renamed: bool, entry: Entry)
    requires Kept(before, after, renamed)
    ensures Kept(before + [entry], after + [entry], renamed)
  {
    hide Ordered;
    forall strict | Ordered(before + [entry], strict) ensures Ordered(after + [entry], strict) {
      OrderedAppend(before, entry, strict);
      OrderedAppend(after, entry, strict);
    }
  }

  lemma OrderedAppend(log: seq<Entry>, entry: Entry, strict: bool)
    ensures Ordered(log + [entry], strict) <==> Ordered(log, strict) && forall e :: e in log ==> Below(e, entry, strict)
  {
    var all := log + [entry];
    assert all[|log|] == entry && forall i :: 0 <= i < |log| ==> all[i] == log[i];
    if Ordered(all, strict) {
      forall e | e in log ensures Below(e, entry, strict) {
        var i :| 0 <= i < |log| && log[i] == e;
        assert Below(all[i], all[|log|], strict);
      }
      forall i, j | 0 <= i < j < |log| ensures Below(log[i], log[j], strict) {
        assert Below(all[i], all[j], strict);
      }
    }
  }

  lemma OrderedDrop(front: seq<Entry>, dropped: seq<Entry>, back: seq<Entry>, strict: bool)
    requires Ordered(front + dropped + back, strict)
    ensures Ordered(front + [] + back, strict)
  {
    var before, after := front + dropped + back, front + [] + back;
    forall i, j | 0 <= i < j < |after| ensures Below(after[i], after[j], strict) {
      var i', j' := if i < |front| then i else i + |dropped|, if j < |front| then j else j + |dropped|;
      assert before[i'] == after[i] && before[j'] == after[j];
    }
  }

  lemma DropMembers(front: seq<Entry>, dropped: seq<Entry>, back: seq<Entry>)
    ensures forall e :: e in front + [] + back ==> e in front + dropped + back
    ensures front == [] ==> front + [] + back == (front + dropped + back)[|dropped|..]
    ensures dropped == [] ==> front + [] + back == front + dropped + back
  {
    if front == [] { assert front + dropped + back == dropped + back; }
  }

  /** Dropping a middle part keeps the order and the end; dropping the front is a suffix. */
  lemma KeptDrop(front: seq<Entry>, dropped: seq<Entry>, back: seq<Entry>)
    requires back != []
    ensures Kept(front + dropped + back, front + [] + back, front == [] || dropped == [])
  {
    hide Ordered;
    var before, after := front + dropped + back, front + [] + back;
    forall strict | Ordered(before, strict) ensures Ordered(after, strict) {
      OrderedDrop(front, dropped, back, strict);
    }
    DropMembers(front, dropped, back);
    assert before[|before| - 1] == back[|back| - 1] == after[|after| - 1];
  }

  /** A suffix of a chain is a chain. */
  lemma KeptChained(before: seq<Entry>, after: seq<Entry>)
    requires Kept(before, after, true) && Chained(before)
    ensures Chained(after)
  {
    var k := |before| - |after|;
    forall i | 0 < i < |after| ensures Continues(Head(after[i - 1].number, after[i - 1].hash), after[i]) {
      assert after[i] == before[k + i] && after[i - 1] == before[k + i - 1];
    }
  }

  // ---- reading the log back -------------------------------------------------

  /** The last entry of the first log, newest first, that holds one. */
  method LatestLogState(files: Files) returns (head: Option<Head>)
    ensures head == if Retained(files) == [] then None else Some(HeadOf(Retained(files)))
  {
    hide Retained;
    NothingRetained();
    for i := 0 to |files|
      invariant Retained(files[..i]) == []
    {
      var entries := Entries(files[i]);
      AfterNothing(files, i);
      if entries != [] {
        return Some(Head(entries[|entries| - 1].number, entries[|entries| - 1].hash));
      }
    }
    assert files[..|files|] == files;
    head := None;
  }

  lemma AfterNothing(files: Files, i: nat)
    requires i < |files| && Retained(files[..i]) == []
    ensures Entries(files[i]) != [] ==> Retained(files) != [] && HeadOf(Retained(files)) == HeadOf(Entries(files[i]))
    ensures Entries(files[i]) == [] ==> Retained(files[..i + 1]) == []
  {
    hide Retained, Entries;
    RetainedSplit(files, i);
    RetainedSplit(files[..i + 1], i);
    NothingRetained();
    assert files[..i + 1][i + 1..] == [] && files[..i + 1][..i] == files[..i];
  }

  /** The log wins when it is ahead of the checkpoint, or level with it under another hash. */
  function Resolve(checkpoint: Head, log: Option<Head>): (r: (Head, bool))
    ensures !r.1 ==> r.0 == checkpoint
    ensures r.1 ==> log == Some(r.0)
  {
    if log.None? then (checkpoint, false)
    else if log.value.number > checkpoint.number then (log.value, true)
    else if log.value.number == checkpoint.number && log.value.number > 0 && log.value.hash != checkpoint.hash
    then (log.value, true)
    else (checkpoint, false)
  }

  /** A checkpoint that does not lead the log never hides the log's last entry. */
  lemma ResolveIsLast(checkpoint: Head, log: seq<Entry>)
    requires checkpoint.number <= HeadOf(log).number && (log == [] ==> checkpoint == START)
    requires forall e :: e in log ==> e.number >= 1
    ensures Resolve(checkpoint, if log == [] then None else Some(HeadOf(log))).0 == HeadOf(log)
  {
    if log != [] { assert log[|log| - 1] in log; }
  }

  // ---- the chain on disk and in memory --------------------------------------

  /** The in-memory chain; dirty when its checkpoint could not be confirmed. */
  datatype Chain = Chain(head: Head, dirty: bool)

  /** How writing a checkpoint ends: done, failed before the new file was in place, or failed after. */
  datatype Outcome = Done | FailedBefore | FailedAfter

  /** Which disk operations fail, and how many are carried out before the process dies. */
  datatype Plan = Plan(steps: nat, faults: Faults, full: bool, openFails: bool, appendFails: bool, syncFails: bool,
    checkpoint: Outcome)

  /**
   * The chain in memory is at the last line of the log, or right before it: a line that was written but whose
   * append reported failure does not move the chain.
   */
  predicate Follows(head: Head, history: seq<Entry>) {
    head == HeadOf(history) || (history != [] && Continues(head, history[|history| - 1]))
  }

  /**
   * What holds after every operation of every run. `history` is every line written so far, `renamed` says that no
   * rename has failed, and `straight` that every line was written at the end of the log's chain.
   */
  ghost predicate Safe(files: Files, checkpoint: Head, chain: Option<Chain>, history: seq<Entry>, renamed: bool,
      straight: bool) {
    && LogSafe(files, checkpoint, history, renamed, straight)
    && (chain.Some? ==>
          && Follows(chain.value.head, history)
          && (!chain.value.dirty ==> checkpoint == chain.value.head))
  }

  ghost predicate LogSafe(files: Files, checkpoint: Head, history: seq<Entry>, renamed: bool, straight: bool) {
    && |files| >= 2
    && (straight ==> Unbroken(history))
    && Ordered(history, false)
    && (forall e :: e in history ==> e.number >= 1)
    && Kept(history, Retained(files), renamed)
    && checkpoint.number <= HeadOf(history).number
    && (history == [] ==> checkpoint == START)
  }

  /** A chain from the first entry on. */
  predicate Unbroken(history: seq<Entry>) {
    Chained(history) && (history != [] ==> Continues(START, history[0]))
  }

  class AuditTrail {
    var files: Files
    var checkpoint: Head
    var chain: Option<Chain>
    ghost var history: seq<Entry>
    ghost var renamed: bool
    ghost var straight: bool

    ghost predicate Valid()
      reads this
    {
      Safe(files, checkpoint, chain, history, renamed, straight)
    }

    constructor (maxFiles: nat)
      requires maxFiles >= 1
      ensures Valid() && history == [] && renamed && straight && chain == None && |files| == maxFiles + 1
    {
      hide Safe;
      StartSafe(maxFiles + 1);
      files := seq(maxFiles + 1, _ => Missing);
      checkpoint, chain, history, renamed, straight := START, None, [], true, true;
    }

    /** Shifts every log one name up, oldest first; the oldest is dropped. */
    method Rotate(plan: Plan, budget: nat) returns (left: nat, crashed: bool)
      requires |files| >= 2 && Entries(files[0]) != []
      modifies this`files, this`renamed
      ensures |files| == |old(files)| && left <= budget
      ensures (renamed ==> old(renamed)) && (plan.faults.renames == {} ==> renamed == old(renamed))
      ensures Kept(Retained(old(files)), Retained(files), renamed)
      ensures !crashed ==> files == Shifted(old(files), |files| - 1, plan.faults)
    {
      hide Rotating, Shifted, Retained, Kept;
      left, crashed := budget, false;
      ghost var before := files;
      var idx := |files| - 1;
      RotationStarts(files, renamed);
      while idx > 0
        invariant 0 <= idx < |files| == |before| && left <= budget
        invariant (renamed ==> old(renamed)) && (plan.faults.renames == {} ==> renamed == old(renamed))
        invariant Rotating(before, files, idx, renamed)
        invariant Shifted(files, idx, plan.faults) == Shifted(before, |files| - 1, plan.faults)
      {
        ShiftedStep(files, idx, plan.faults);
        if files[idx - 1] == Missing {
          SkipStep(before, files, idx, renamed);
          idx := idx - 1;
          continue;
        }
        if files[idx] != Missing {
          if left == 0 { break; }
          left := left - 1;
          if idx !in plan.faults.removals {
            RemoveStep(before, files, idx, renamed);
            files := files[idx := Missing];
          }
        }
        if left == 0 { break; }
        left := left - 1;
        ShiftedStep(files, idx, plan.faults);
        if idx in plan.faults.renames {
          FailStep(before, files, idx, renamed);
          renamed := false;
        } else {
          ReplaceStep(before, files, idx, renamed);
          files := files[idx := files[idx - 1]][idx - 1 := Missing];
        }
        idx := idx - 1;
      }
      crashed := idx > 0;
      if idx == 0 { ShiftedDone(files, plan.faults); }
      RotationEnds(before, files, idx, renamed);
    }

    /** Rotates a full log and opens or creates the current one; a failure leaves the log possibly rotated. */
    method Open(plan: Plan) returns (ok: bool, crashed: bool, left: nat)
      requires LogSafe(files, checkpoint, history, renamed, straight)
      modifies this`files, this`renamed
      ensures LogSafe(files, checkpoint, history, renamed, straight) && |files| == |old(files)|
      ensures (renamed ==> old(renamed)) && (plan.faults.renames == {} ==> renamed == old(renamed))
      ensures ok ==> !crashed && files != [] && files[0].Present?
    {
      hide LogSafe, Kept, Entries;
      left, crashed, ok := plan.steps, false, false;
      LogHasFiles(files, checkpoint, history, renamed, straight);
      if HasEntries(files[0]) && plan.full {
        left, crashed := Rotate(plan, left);
        SafeRotate(old(files), files, checkpoint, history, old(renamed), renamed, straight);
      }
      if crashed || left == 0 { return false, true, left; }
      left := left - 1;
      if plan.openFails { return false, false, left; }
      if files[0] == Missing {
        SafeCreate(files, checkpoint, history, renamed, straight);
        files := files[0 := Present([])];
      }
      ok := true;
    }

    /**
     * Opens the current log, writes the entry and syncs. A failure before the line is written leaves the log
     * without the entry; after it the entry is there though the append reports failure.
     */
    method Append(entry: Entry, plan: Plan) returns (ok: bool, crashed: bool, left: nat)
      requires Valid() && chain.Some? && Continues(chain.value.head, entry)
      modifies this`files, this`renamed, this`history, this`straight
      ensures LogSafe(files, checkpoint, history, renamed, straight) && |files| == |old(files)|
      ensures (renamed ==> old(renamed)) && (plan.faults.renames == {} ==> renamed == old(renamed))
      ensures history == old(history) || history == old(history) + [entry]
      ensures ok ==> !crashed && !plan.syncFails && history != old(history)
      ensures !ok && !crashed && history != old(history) ==> plan.syncFails
      ensures straight <==> old(straight) && (history == old(history) || chain.value.head == HeadOf(old(history)))
    {
      hide LogSafe, Continues, HeadOf;
      ok, crashed, left := Open(plan);
      if !ok { return; }
      ok := false;
      if plan.appendFails { return; }
      if left == 0 { return false, true, left; }
      left := left - 1;
      SafeAppend(files, checkpoint, chain.value.head, history, renamed, straight, entry);
      files := files[0 := Present(files[0].entries + [entry])];
      straight := straight && chain.value.head == HeadOf(history);
      history := history + [entry];
      if left == 0 { return false, true, left; }
      left := left - 1;
      ok := !plan.syncFails;
    }

    /** Writes a temporary file, renames it over the checkpoint and syncs the directory. */
    method WriteCheckpoint(head: Head, plan: Plan, left: nat) returns (ok: bool, crashed: bool)
      modifies this`checkpoint
      ensures crashed <==> left == 0 || (left < 3 && plan.checkpoint != FailedBefore)
      ensures ok <==> !crashed && plan.checkpoint == Done
      ensures checkpoint == if left < 2 || plan.checkpoint == FailedBefore then old(checkpoint) else head
    {
      if left == 0 { return false, true; }
      if plan.checkpoint == FailedBefore { return false, false; }
      if left == 1 { return false, true; }
      checkpoint := head;
      if left == 2 { return false, true; }
      ok, crashed := plan.checkpoint == Done, false;
    }

    /**
     * Records one event: log first, checkpoint second. The chain in memory moves with the log, and is clean
     * exactly when the checkpoint did too; an append that fails, even after its line was written, moves neither.
     */
    method Advance(event: Bytes, payload: Bytes, hash: (Digest, Bytes, Bytes) -> Digest, plan: Plan)
        returns (stamp: Entry, crashed: bool)
      requires Valid() && chain.Some?
      modifies this
      ensures Valid() && |files| == |old(files)|
      ensures (renamed ==> old(renamed)) && (plan.faults.renames == {} ==> renamed == old(renamed))
      ensures Continues(old(chain.value.head), stamp) && stamp.hash == hash(old(chain.value.head.hash), event, payload)
      ensures history == old(history) || history == old(history) + [stamp]
      ensures straight <==> old(straight) && (history == old(history) || old(chain.value.head) == HeadOf(old(history)))
      ensures crashed <==> chain == None
      ensures !crashed && (history == old(history) || plan.syncFails) ==> chain == old(chain)
      ensures !crashed && (history == old(history) || plan.syncFails) ==> checkpoint == old(checkpoint)
      ensures !crashed && history != old(history) && !plan.syncFails ==>
        chain == Some(Chain(HeadOf(history), plan.checkpoint != Done))
    {
      hide LogSafe, Continues, BuildNext;
      var (entry, next) := BuildNext(chain.value.head, event, payload, hash);
      stamp := entry;
      ghost var before := history;
      var ok, dead, left := Append(entry, plan);
      crashed := dead;
      if !ok {
        if crashed { chain := None; } else { FollowsStill(chain.value.head, before, history, entry); }
        return;
      }
      SafeCheckpoint(files, checkpoint, next, history, renamed, straight);
      var written, died := WriteCheckpoint(next, plan, left);
      crashed := died;
      chain := if crashed then None else Some(Chain(next, !written));
    }

    /** Starting up: the chain resumes at the last line written, whatever the crash left behind. */
    method Load(plan: Plan) returns (crashed: bool, recovered: bool)
      requires Valid() && chain == None
      modifies this`checkpoint, this`chain
      ensures Valid()
      ensures crashed <==> chain == None
      ensures !crashed ==> chain.value.head == HeadOf(history)
      ensures !crashed && !chain.value.dirty ==> checkpoint == HeadOf(history)
      ensures recovered <==> old(checkpoint) != HeadOf(history)
    {
      hide Retained, Kept;
      var log := LatestLogState(files);
      RecoverLast(files, checkpoint, history, renamed, straight);
      var (head, fromLog) := Resolve(checkpoint, log);
      recovered, crashed := fromLog, false;
      var dirty := false;
      if recovered {
        SafeCheckpoint(files, checkpoint, head, history, renamed, straight);
        var written, died := WriteCheckpoint(head, plan, plan.steps);
        dirty, crashed := !written, died;
      }
      chain := if crashed then None else Some(Chain(head, dirty));
    }

    /** The process dies between operations. */
    method Kill()
      requires Valid()
      modifies this`chain
      ensures Valid() && chain == None
    {
      chain := None;
    }
  }

  datatype Step = Record(event: Bytes, payload: Bytes, plan: Plan) | Start(plan: Plan) | Die(plan: Plan)

  /** The process is restarted right after every append that failed to sync its line. */
  predicate RestartsAfterSyncFailure(steps: seq<Step>) {
    forall k :: 0 < k < |steps| && steps[k - 1].Record? && steps[k - 1].plan.syncFails ==> steps[k].Die?
  }

  /**
   * Any run: the log ends with the last line written and its numbers go up, the checkpoint never leads it, a clean
   * chain in memory is on disk, and a restart resumes at the end of the log. The log is an unbroken chain when no
   * rename failed and the process restarted after every append that failed to sync.
   */
  method RunTrail(maxFiles: nat, hash: (Digest, Bytes, Bytes) -> Digest, steps: seq<Step>) returns (trail: AuditTrail)
    requires maxFiles >= 1
    ensures fresh(trail) && trail.Valid()
    ensures Ordered(Retained(trail.files), false) && HeadOf(Retained(trail.files)) == HeadOf(trail.history)
    ensures RestartsAfterSyncFailure(steps) ==> Ordered(Retained(trail.files), true)
    ensures RestartsAfterSyncFailure(steps) && (forall k :: 0 <= k < |steps| ==> steps[k].plan.faults.renames == {}) ==>
      Chained(Retained(trail.files))
    ensures trail.checkpoint.number <= HeadOf(trail.history).number
    ensures trail.chain.Some? ==> Follows(trail.chain.value.head, trail.history)
    ensures trail.chain.Some? && (forall k :: 0 <= k < |steps| ==> !steps[k].plan.syncFails) ==>
      trail.chain.value.head == HeadOf(trail.history)
    ensures trail.chain.Some? && !trail.chain.value.dirty ==> trail.checkpoint == trail.chain.value.head
  {
    hide Safe, Continues, HeadOf;
    trail := new AuditTrail(maxFiles);
    for k := 0 to |steps|
      invariant fresh(trail) && trail.Valid()
      invariant (forall i :: 0 <= i < k ==> steps[i].plan.faults.renames == {}) ==> trail.renamed
      invariant RestartsAfterSyncFailure(steps) ==> trail.straight
      invariant trail.chain.Some? && trail.chain.value.head != HeadOf(trail.history) ==>
        exists i :: 0 <= i < k && steps[i].plan.syncFails
      invariant RestartsAfterSyncFailure(steps) && trail.chain.Some?
                && trail.chain.value.head != HeadOf(trail.history) ==>
        k > 0 && steps[k - 1].Record? && steps[k - 1].plan.syncFails
    {
      match steps[k] {
        case Record(event, payload, plan) =>
          if trail.chain.Some? { var stamp, crashed := trail.Advance(event, payload, hash, plan); }
        case Start(plan) =>
          if trail.chain == None { var crashed, recovered := trail.Load(plan); }
        case Die(_) =>
          trail.Kill();
      }
    }
    SafeMeans(trail.files, trail.checkpoint, trail.chain, trail.history, trail.renamed, trail.straight);
  }

  lemma SafeMeans(files: Files, checkpoint: Head, chain: Option<Chain>, history: seq<Entry>, renamed: bool,
      straight: bool)
    requires Safe(files, checkpoint, chain, history, renamed, straight)
    ensures Ordered(Retained(files), false) && HeadOf(Retained(files)) == HeadOf(history)
    ensures straight ==> Ordered(Retained(files), true)
    ensures straight && renamed ==> Chained(Retained(files))
    ensures checkpoint.number <= HeadOf(history).number
    ensures chain.Some? ==> Follows(chain.value.head, history) && (!chain.value.dirty ==>
      checkpoint == chain.value.head)
  {
    hide Retained, Continues, Ordered;
    if straight {
      ChainedOrdered(history);
      if renamed { KeptChained(history, Retained(files)); }
    }
  }

  /** An append that reports failure leaves the chain at the last line or right before it. */
  lemma FollowsStill(head: Head, before: seq<Entry>, history: seq<Entry>, entry: Entry)
    requires Follows(head, before) && Continues(head, entry) && (history == before || history == before + [entry])
    ensures Follows(head, history)
  {
    hide Continues;
  }

  lemma SafeCheckpoint(files: Files, checkpoint: Head, head: Head, history: seq<Entry>, renamed: bool, straight: bool)
    requires LogSafe(files, checkpoint, history, renamed, straight) && head == HeadOf(history)
    ensures LogSafe(files, head, history, renamed, straight)
  {
    hide Retained, Kept, Chained, Continues, Ordered;
  }

  lemma RecoverLast(files: Files, checkpoint: Head, history: seq<Entry>, renamed: bool, straight: bool)
    requires LogSafe(files, checkpoint, history, renamed, straight)
    ensures var log := if Retained(files) == [] then None else Some(HeadOf(Retained(files)));
      Resolve(checkpoint, log).0 == HeadOf(history) && (Resolve(checkpoint, log).1 <==> checkpoint != HeadOf(history))
  {
    hide Retained, Chained, Continues, Ordered;
    ResolveIsLast(checkpoint, Retained(files));
  }

  lemma LogHasFiles(files: Files, checkpoint: Head, history: seq<Entry>, renamed: bool, straight: bool)
    requires LogSafe(files, checkpoint, history, renamed, straight)
    ensures |files| >= 2
  {
  }

  lemma SafeRotate(files: Files, rotated: Files, checkpoint: Head, history: seq<Entry>, before: bool, renamed: bool,
      straight: bool)
    requires LogSafe(files, checkpoint, history, before, straight) && |rotated| == |files| && (renamed ==> before)
    requires Kept(Retained(files), Retained(rotated), renamed)
    ensures LogSafe(rotated, checkpoint, history, renamed, straight)
  {
    hide Retained, Kept, Chained, Continues, Ordered;
    KeptTrans(history, Retained(files), Retained(rotated), before, renamed);
    KeptEither(history, Retained(rotated), before, renamed);
  }

  lemma SafeCreate(files: Files, checkpoint: Head, history: seq<Entry>, renamed: bool, straight: bool)
    requires files != [] && LogSafe(files, checkpoint, history, renamed, straight) && files[0] == Missing
    ensures LogSafe(files[0 := Present([])], checkpoint, history, renamed, straight)
  {
    hide Retained, Kept, Chained, Continues, Ordered;
    RetainedCreate(files);
  }

  lemma SafeAppend(files: Files, checkpoint: Head, head: Head, history: seq<Entry>, renamed: bool, straight: bool,
      entry: Entry)
    requires files != [] && LogSafe(files, checkpoint, history, renamed, straight)
    requires files[0].Present? && Follows(head, history) && Continues(head, entry)
    ensures LogSafe(files[0 := Present(files[0].entries + [entry])], checkpoint, history + [entry], renamed,
      straight && head == HeadOf(history))
  {
    HeadBelow(head, history, entry);
    hide Retained, Kept, Chained, Continues, Ordered;
    RetainedAppend(files, entry);
    HistoryRises(history, entry);
    if straight && head == HeadOf(history) { HistoryAppend(history, entry); }
    KeptAppend(history, Retained(files), renamed, entry);
  }

  lemma HeadBelow(head: Head, history: seq<Entry>, entry: Entry)
    requires Follows(head, history) && Continues(head, entry)
    ensures HeadOf(history).number <= entry.number && entry.number >= 1
  {
  }

  lemma HistoryRises(history: seq<Entry>, entry: Entry)
    requires Ordered(history, false) && HeadOf(history).number <= entry.number
    ensures Ordered(history + [entry], false)
  {
    OrderedAppend(history, entry, false);
    forall e | e in history ensures Below(e, entry, false) {
      var i :| 0 <= i < |history| && history[i] == e;
      if i < |history| - 1 { assert Below(history[i], history[|history| - 1], false); }
    }
  }

  predicate HasEntries(file: File)
    ensures HasEntries(file) <==> Entries(file) != []
  {
    file.Present? && file.entries != []
  }

  lemma KeptEither(before: seq<Entry>, after: seq<Entry>, first: bool, second: bool)
    requires Kept(before, after, first && second) && (second ==> first)
    ensures Kept(before, after, second)
  {
  }

  lemma RetainedCreate(files: Files)
    requires files != [] && files[0] == Missing
    ensures Retained(files[0 := Present([])]) == Retained(files)
  {
    assert files[0 := Present([])][1..] == files[1..];
  }

  lemma RetainedAppend(files: Files, entry: Entry)
    requires files != [] && files[0].Present?
    ensures Retained(files[0 := Present(files[0].entries + [entry])]) == Retained(files) + [entry]
  {
    var after := files[0 := Present(files[0].entries + [entry])];
    assert after[1..] == files[1..];
    assert Retained(files[1..]) + (files[0].entries + [entry]) == (Retained(files[1..]) + files[0].entries) + [entry];
  }

  lemma HistoryAppend(history: seq<Entry>, entry: Entry)
    requires Unbroken(history) && Continues(HeadOf(history), entry)
    ensures Unbroken(history + [entry])
  {
  }

  lemma StartSafe(n: nat)
    requires n >= 2
    ensures Safe(seq(n, _ => Missing), START, None, [], true, true)
  {
    AllMissing(n);
    hide Retained;
    KeptSame([], true);
  }

  lemma {:induction false} AllMissing(n: nat)
    ensures Retained(seq(n, _ => Missing)) == []
  {
    if n > 0 {
      AllMissing(n - 1);
      assert seq(n, _ => Missing)[1..] == seq(n - 1, _ => Missing);
    }
  }

  /** A rotation that still has the names below `idx` to shift. */
  ghost predicate Rotating(before: Files, files: Files, idx: nat, renamed: bool) {
    && idx < |files| == |before|
    && Entries(before[0]) != []
    && (idx > 0 ==> files[..idx] == before[..idx])
    && (idx < |files| - 1 && renamed ==> files[idx] == Missing)
    && Kept(Retained(before), Retained(files), renamed)
  }

  lemma ShiftedDone(files: Files, faults: Faults)
    requires files != []
    ensures Shifted(files, 0, faults) == files
  {
  }

  lemma RotationStarts(files: Files, renamed: bool)
    requires |files| >= 2 && Entries(files[0]) != []
    ensures Rotating(files, files, |files| - 1, renamed)
  {
    hide Retained, Kept;
    KeptSame(Retained(files), renamed);
  }

  lemma RotationEnds(before: Files, files: Files, idx: nat, renamed: bool)
    requires Rotating(before, files, idx, renamed)
    ensures Kept(Retained(before), Retained(files), renamed)
  {
    hide Retained, Kept;
  }

  lemma SkipStep(before: Files, files: Files, idx: nat, renamed: bool)
    requires Rotating(before, files, idx, renamed) && idx > 0 && files[idx - 1] == Missing
    ensures Rotating(before, files, idx - 1, renamed)
  {
    hide Retained, Kept;
    assert files[..idx - 1] == files[..idx][..idx - 1] == before[..idx][..idx - 1];
  }

  lemma RemoveStep(before: Files, files: Files, idx: nat, renamed: bool)
    requires Rotating(before, files, idx, renamed) && idx > 0 && files[idx] != Missing
    ensures Rotating(before, files[idx := Missing], idx, renamed)
  {
    hide Retained, Kept;
    RemoveKeeps(before, files, idx, renamed);
    assert files[idx := Missing][..idx] == files[..idx];
  }

  lemma FailStep(before: Files, files: Files, idx: nat, renamed: bool)
    requires Rotating(before, files, idx, renamed) && idx > 0
    ensures Rotating(before, files, idx - 1, false)
  {
    hide Retained, Kept;
    WeakenAny(Retained(before), Retained(files), renamed);
    assert files[..idx - 1] == files[..idx][..idx - 1] == before[..idx][..idx - 1];
  }

  /** A rename onto a name still in use does what removing and renaming would. */
  lemma ReplaceStep(before: Files, files: Files, idx: nat, renamed: bool)
    requires Rotating(before, files, idx, renamed) && idx > 0
    ensures Rotating(before, files[idx := files[idx - 1]][idx - 1 := Missing], idx - 1, renamed)
  {
    hide Rotating;
    assert idx < |files| by { RotatingBounds(before, files, idx, renamed); }
    if files[idx] == Missing {
      RenameStep(before, files, idx, renamed);
    } else {
      RemoveStep(before, files, idx, renamed);
      RenameStep(before, files[idx := Missing], idx, renamed);
      assert files[idx := Missing][idx := files[idx - 1]] == files[idx := files[idx - 1]];
    }
  }

  lemma RotatingBounds(before: Files, files: Files, idx: nat, renamed: bool)
    requires Rotating(before, files, idx, renamed)
    ensures idx < |files| == |before|
  {
    hide Retained, Kept;
  }

  lemma RenameStep(before: Files, files: Files, idx: nat, renamed: bool)
    requires Rotating(before, files, idx, renamed) && idx > 0 && files[idx] == Missing
    ensures Rotating(before, files[idx := files[idx - 1]][idx - 1 := Missing], idx - 1, renamed)
  {
    hide Retained, Kept;
    RenameKeeps(files, idx);
    var after := files[idx := files[idx - 1]][idx - 1 := Missing];
    assert after[..idx - 1] == files[..idx][..idx - 1] == before[..idx][..idx - 1];
  }

  /** Removing the log in the way of a rename drops only entries older than the current log's. */
  lemma RemoveKeeps(before: Files, files: Files, idx: nat, renamed: bool)
    requires Rotating(before, files, idx, renamed) && idx > 0 && files[idx] != Missing
    ensures Kept(Retained(before), Retained(files[idx := Missing]), renamed)
  {
    hide Kept;
    RetainedSplit(files, idx);
    RetainedUpdate(files, idx, Missing);
    var front, dropped, back := Retained(files[idx + 1..]), Entries(files[idx]), Retained(files[..idx]);
    RetainedFirst(files[..idx]);
    assert files[..idx][0] == before[..idx][0] == before[0];
    assert back != [];
    KeptDrop(front, dropped, back);
    if renamed {
      assert files[idx + 1..] == [];
    } else {
      WeakenAny(front + dropped + back, front + [] + back, front == [] || dropped == []);
    }
    KeptTrans(Retained(before), Retained(files), Retained(files[idx := Missing]), renamed, renamed);
  }

  lemma WeakenAny(before: seq<Entry>, after: seq<Entry>, renamed: bool)
    requires Kept(before, after, renamed)
    ensures Kept(before, after, false)
  {
  }
}
