/**
 * Exactly when the audit log is still an unbroken chain after faults outside
 * the atomic append: removals and renames that fail during a rotation, and a
 * line that is written although its append reports failure.
 */
module AuditRotation {
  import opened Base
  import opened AuditChain

  /**
   * Whether the log at `i` outlives a rotation from `idx` down: the oldest, and any other whose own rename failed,
   * is removed or replaced when there is a next newer log, unless removing it and renaming that one both fail.
   */
  predicate Outlives(files: Files, i: nat, idx: nat, faults: Faults)
    requires i < |files|
  {
    || i > idx || i == 0 || files[i - 1] == Missing || (i < idx && i + 1 !in faults.renames)
    || (i in faults.renames && i in faults.removals)
  }

  function Remaining(files: Files, idx: nat, faults: Faults): (r: Files)
    requires idx < |files|
    ensures |r| == |files|
    ensures forall i {:trigger r[i]} :: 0 <= i < |files| ==>
      r[i] == if Outlives(files, i, idx, faults) then files[i] else Missing
  {
    seq(|files|, i requires 0 <= i < |files| => if Outlives(files, i, idx, faults) then files[i] else Missing)
  }

  lemma RemainingSkip(files: Files, idx: nat, faults: Faults)
    requires 0 < idx < |files| && files[idx - 1] == Missing
    ensures Remaining(files, idx - 1, faults) == Remaining(files, idx, faults)
  {
    hide Remaining;
    var a, b := Remaining(files, idx - 1, faults), Remaining(files, idx, faults);
    forall i | 0 <= i < |files| ensures a[i] == b[i] {}
  }

  lemma RemainingFail(files: Files, idx: nat, faults: Faults)
    requires 0 < idx < |files| && files[idx - 1] != Missing && idx in faults.renames
    ensures Remaining(if idx in faults.removals then files else files[idx := Missing], idx - 1, faults)
         == Remaining(files, idx, faults)
  {
    hide Remaining;
    var after := if idx in faults.removals then files else files[idx := Missing];
    var a, b := Remaining(after, idx - 1, faults), Remaining(files, idx, faults);
    forall i | 0 <= i < |files| ensures a[i] == b[i] {}
  }

  lemma RemainingMove(files: Files, idx: nat, faults: Faults)
    requires 0 < idx < |files| && files[idx - 1] != Missing && idx !in faults.renames
    ensures var left := Remaining(files, idx, faults);
      && left[idx] == Missing
      && Remaining(files[idx := files[idx - 1]][idx - 1 := Missing], idx - 1, faults)
         == left[idx := left[idx - 1]][idx - 1 := Missing]
  {
    hide Remaining;
    var left := Remaining(files, idx, faults);
    var a := Remaining(files[idx := files[idx - 1]][idx - 1 := Missing], idx - 1, faults);
    var b := left[idx := left[idx - 1]][idx - 1 := Missing];
    forall i | 0 <= i < |files| ensures a[i] == b[i] {}
  }

  /** Rotation retains exactly the logs that outlive it, whichever names they end up under. */
  lemma {:induction false} ShiftedRetains(files: Files, idx: nat, faults: Faults)
    requires idx < |files|
    ensures Retained(Shifted(files, idx, faults)) == Retained(Remaining(files, idx, faults))
    decreases idx
  {
    assert Entries(Missing) == [];
    hide Retained, Remaining, Entries;
    if idx == 0 {
      assert Remaining(files, 0, faults) == files;
    } else if files[idx - 1] == Missing {
      ShiftedRetains(files, idx - 1, faults);
      RemainingSkip(files, idx, faults);
    } else if idx in faults.renames {
      ShiftedRetains(if idx in faults.removals then files else files[idx := Missing], idx - 1, faults);
      RemainingFail(files, idx, faults);
    } else {
      ShiftedRetains(files[idx := files[idx - 1]][idx - 1 := Missing], idx - 1, faults);
      RemainingMove(files, idx, faults);
      RenameKeeps(Remaining(files, idx, faults), idx);
    }
  }

  // ---- a log as a chain of files --------------------------------------------

  /** Two logs with entries and nothing but empty ones between; `j` is the older. */
  ghost predicate Neighbours(files: Files, i: nat, j: nat)
    requires i < j < |files|
  {
    Entries(files[i]) != [] && Entries(files[j]) != [] && forall k :: i < k < j ==> Entries(files[k]) == []
  }

  predicate Meets(files: Files, i: nat, j: nat)
    requires i < j < |files|
  {
    Entries(files[i]) != [] && Continues(HeadOf(Entries(files[j])), Entries(files[i])[0])
  }

  /** Every log is a chain, and each begins where its older neighbour ends. */
  ghost predicate Linked(files: Files) {
    && (forall k :: 0 <= k < |files| ==> Chained(Entries(files[k])))
    && (forall i, j :: 0 <= i < j < |files| && Neighbours(files, i, j) ==> Meets(files, i, j))
  }

  lemma ChainedJoin(a: seq<Entry>, b: seq<Entry>)
    requires a != [] && b != []
    ensures Chained(a + b) <==> Chained(a) && Chained(b) && Continues(HeadOf(a), b[0])
  {
    var log, n := a + b, |a|;
    if Chained(log) {
      SuffixChained(log, b);
      forall i | 0 < i < n ensures Continues(Head(a[i - 1].number, a[i - 1].hash), a[i]) {
        assert log[i] == a[i] && log[i - 1] == a[i - 1];
      }
      assert log[n] == b[0] && log[n - 1] == a[n - 1];
    }
    if Chained(a) && Chained(b) && Continues(HeadOf(a), b[0]) {
      forall i | 0 < i < |log| ensures Continues(Head(log[i - 1].number, log[i - 1].hash), log[i]) {
        if i > n { assert log[i] == b[i - n] && log[i - 1] == b[i - n - 1]; }
      }
    }
  }

  lemma SuffixChained(log: seq<Entry>, suffix: seq<Entry>)
    requires Chained(log) && |suffix| <= |log| && suffix == log[|log| - |suffix|..]
    ensures Chained(suffix)
  {
    var k := |log| - |suffix|;
    forall i | 0 < i < |suffix| ensures Continues(Head(suffix[i - 1].number, suffix[i - 1].hash), suffix[i]) {
      assert suffix[i] == log[k + i] && suffix[i - 1] == log[k + i - 1];
    }
  }

  lemma LinkedTail(files: Files)
    requires files != []
    ensures Linked(files) <==>
      && Linked(files[1..]) && Chained(Entries(files[0]))
      && (forall j :: 0 < j < |files| && Neighbours(files, 0, j) ==> Meets(files, 0, j))
  {
    hide Chained, Entries, Continues, HeadOf;
    var tail := files[1..];
    assert forall k :: 0 < k < |files| ==> files[k] == tail[k - 1];
    forall i, j | 0 < i < j < |files|
      ensures Neighbours(files, i, j) <==> Neighbours(tail, i - 1, j - 1)
      ensures Meets(files, i, j) <==> Meets(tail, i - 1, j - 1)
    {
      ShiftNeighbours(files, i, j);
    }
    if Linked(files) {
      forall k | 0 <= k < |tail| ensures Chained(Entries(tail[k])) { assert tail[k] == files[k + 1]; }
      forall i, j | 0 <= i < j < |tail| && Neighbours(tail, i, j) ensures Meets(tail, i, j) {
        assert Neighbours(files, i + 1, j + 1) && Meets(files, i + 1, j + 1);
      }
    }
  }

  lemma ShiftNeighbours(files: Files, i: nat, j: nat)
    requires 0 < i < j < |files|
    ensures Neighbours(files, i, j) <==> Neighbours(files[1..], i - 1, j - 1)
    ensures Meets(files, i, j) <==> Meets(files[1..], i - 1, j - 1)
  {
    hide Entries, Continues, HeadOf;
    var tail := files[1..];
    assert forall k :: i <= k <= j ==> files[k] == tail[k - 1];
    if Neighbours(tail, i - 1, j - 1) {
      forall k | i < k < j ensures Entries(files[k]) == [] { assert Entries(tail[k - 1]) == []; }
    }
  }

  /** The newest log with entries, if any, holds the last entry. */
  lemma {:induction false} Newest(files: Files) returns (j: nat)
    ensures j <= |files| && forall k :: 0 <= k < j ==> Entries(files[k]) == []
    ensures j == |files| <==> Retained(files) == []
    ensures j < |files| ==> Entries(files[j]) != [] && HeadOf(Retained(files)) == HeadOf(Entries(files[j]))
  {
    hide Entries;
    if files == [] {
      j := 0;
    } else if Entries(files[0]) != [] {
      j := 0;
    } else {
      var n := Newest(files[1..]);
      assert Retained(files) == Retained(files[1..]);
      assert forall k :: 0 < k < |files| ==> files[k] == files[1..][k - 1];
      j := n + 1;
    }
  }

  lemma {:induction false} ChainedIffLinked(files: Files)
    ensures Chained(Retained(files)) <==> Linked(files)
  {
    if files != [] {
      ChainedIffLinked(files[1..]);
      LinkedTail(files);
      RetainedFirst(files);
      hide Chained, Entries, Continues, Linked, Retained, Meets, HeadOf;
      var older, newer := Retained(files[1..]), Entries(files[0]);
      var n := Newest(files[1..]);
      assert forall k :: 0 < k < |files| ==> files[k] == files[1..][k - 1];
      OnlyNeighbour(files, n + 1);
      if newer == [] {
        assert older + newer == older;
        NothingChained();
      } else if older == [] {
        assert older + newer == newer;
        NothingChained();
      } else {
        ChainedJoin(older, newer);
      }
    }
  }

  lemma NothingChained()
    ensures Chained([])
  {
  }

  /** The newest log has one older neighbour at most. */
  lemma OnlyNeighbour(files: Files, j: nat)
    requires 0 < j <= |files| && (forall k :: 0 < k < j ==> Entries(files[k]) == [])
    requires j < |files| ==> Entries(files[j]) != []
    ensures Entries(files[0]) == [] || j == |files| ==> forall k :: 0 < k < |files| ==> !Neighbours(files, 0, k)
    ensures Entries(files[0]) != [] && j < |files| ==>
      forall k :: 0 < k < |files| ==> (Neighbours(files, 0, k) <==> k == j)
    ensures Entries(files[0]) != [] && j < |files| ==>
      (Meets(files, 0, j) <==> Continues(HeadOf(Entries(files[j])), Entries(files[0])[0]))
  {
    hide Entries, Continues, HeadOf;
  }

  // ---- what a rotation does to the chain ------------------------------------

  predicate Stays(files: Files, i: nat, faults: Faults)
    requires i < |files|
  {
    Entries(files[i]) != [] && Outlives(files, i, |files| - 1, faults)
  }

  /** Two logs with entries stay, nothing between them does, and something between them had entries. */
  ghost predicate Gap(files: Files, i: nat, j: nat, faults: Faults)
    requires i < j < |files|
  {
    && Stays(files, i, faults) && Stays(files, j, faults)
    && (forall k :: i < k < j ==> !Stays(files, k, faults))
    && (exists k :: i < k < j && Entries(files[k]) != [])
  }

  /** No reader can see the gap: the counter is saturated and the lost hash is the one before the gap. */
  predicate Hidden(files: Files, i: nat, j: nat)
    requires i < j < |files|
  {
    && Entries(files[i]) != []
    && HeadOf(Entries(files[j])).number >= U64_MAX - 1
    && Entries(files[i])[0].prev == HeadOf(Entries(files[j])).hash
  }

  predicate Unsaturated(log: seq<Entry>) {
    forall e :: e in log ==> e.number < U64_MAX
  }

  lemma RetainedMember(files: Files, i: nat, e: Entry)
    requires i < |files| && e in Entries(files[i])
    ensures e in Retained(files)
  {
    hide Entries, Retained;
    RetainedSplit(files, i);
  }

  /** An entry of an older log has the lower number, unless the counter is saturated. */
  lemma OlderIsLower(files: Files, i: nat, j: nat, newer: Entry, older: Entry)
    requires i < j < |files| && newer in Entries(files[i]) && older in Entries(files[j])
    requires Ordered(Retained(files), true)
    ensures older.number < newer.number || newer.number == U64_MAX
  {
    hide Entries, Retained;
    RetainedSplit(files, i);
    RetainedMember(files[i + 1..], j - i - 1, older);
    var before, here, after := Retained(files[i + 1..]), Entries(files[i]), Retained(files[..i]);
    var x :| 0 <= x < |before| && before[x] == older;
    var y :| 0 <= y < |here| && here[y] == newer;
    var log := before + here + after;
    assert log[x] == older && log[|before| + y] == newer;
  }

  /** Across a gap the newer log continues the older one exactly when the gap is hidden. */
  lemma AcrossGap(files: Files, i: nat, j: nat, faults: Faults)
    requires i < j < |files| && Gap(files, i, j, faults) && Ordered(Retained(files), true)
    ensures Meets(files, i, j) <==> Hidden(files, i, j)
    ensures Unsaturated(Retained(files)) ==> !Hidden(files, i, j)
  {
    hide Entries, Retained, Ordered, Outlives;
    var k :| i < k < j && Entries(files[k]) != [];
    var older, newer := Entries(files[j]), Entries(files[i]);
    var a, x, b := older[|older| - 1], Entries(files[k])[0], newer[0];
    OlderIsLower(files, k, j, x, a);
    OlderIsLower(files, i, k, b, x);
    RetainedMember(files, k, x);
    RetainedMember(files, i, b);
  }

  lemma LeftNeighbours(files: Files, left: Files, i: nat, j: nat, faults: Faults)
    requires files != [] && left == Remaining(files, |files| - 1, faults) && i < j < |files|
    ensures Neighbours(left, i, j) <==>
      Stays(files, i, faults) && Stays(files, j, faults) && forall k :: i < k < j ==> !Stays(files, k, faults)
    ensures Neighbours(left, i, j) ==> (Meets(left, i, j) <==> Meets(files, i, j))
    ensures Neighbours(left, i, j) ==> Gap(files, i, j, faults) || Neighbours(files, i, j)
    ensures Gap(files, i, j, faults) ==> Neighbours(left, i, j)
  {
    assert Entries(Missing) == [];
    hide Entries, Continues, HeadOf, Outlives;
    forall k | 0 <= k < |files| ensures Entries(left[k]) != [] <==> Stays(files, k, faults) {
      assert left[k] == if Outlives(files, k, |files| - 1, faults) then files[k] else Missing;
    }
  }

  /**
   * An uninterrupted rotation of an unbroken log, whichever removals and renames fail, leaves an unbroken log
   * exactly when every gap it tears is hidden; below the saturation of the counter, exactly when it tears none.
   */
  lemma RotationKeepsChainIff(files: Files, faults: Faults)
    requires files != [] && Chained(Retained(files))
    ensures Chained(Retained(Shifted(files, |files| - 1, faults))) <==>
      forall i, j :: 0 <= i < j < |files| && Gap(files, i, j, faults) ==> Hidden(files, i, j)
    ensures Unsaturated(Retained(files)) ==>
      (Chained(Retained(Shifted(files, |files| - 1, faults))) <==>
        !exists i, j :: 0 <= i < j < |files| && Gap(files, i, j, faults))
  {
    var left := Remaining(files, |files| - 1, faults);
    ShiftedRetains(files, |files| - 1, faults);
    ChainedIffLinked(files);
    ChainedIffLinked(left);
    ChainedOrdered(Retained(files));
    LeftLinked(files, left, faults);
    hide Retained, Entries, Shifted, Gap, Hidden, Linked, Ordered, Unsaturated, Chained;
    forall i, j | 0 <= i < j < |files| && Gap(files, i, j, faults)
      ensures Unsaturated(Retained(files)) ==> !Hidden(files, i, j)
    {
      AcrossGap(files, i, j, faults);
    }
  }

  lemma LeftMeets(files: Files, left: Files, i: nat, j: nat, faults: Faults)
    requires files != [] && left == Remaining(files, |files| - 1, faults) && i < j < |files|
    requires Linked(files) && Ordered(Retained(files), true)
    ensures (Neighbours(left, i, j) ==> Meets(left, i, j)) <==> (Gap(files, i, j, faults) ==> Hidden(files, i, j))
  {
    hide Retained, Entries, Gap, Hidden, Ordered, Chained, Neighbours, Meets, Remaining;
    LeftNeighbours(files, left, i, j, faults);
    if Gap(files, i, j, faults) { AcrossGap(files, i, j, faults); }
  }

  lemma LeftChained(files: Files, left: Files, faults: Faults)
    requires files != [] && left == Remaining(files, |files| - 1, faults)
    requires forall k :: 0 <= k < |files| ==> Chained(Entries(files[k]))
    ensures forall k :: 0 <= k < |left| ==> Chained(Entries(left[k]))
  {
    assert Entries(Missing) == [];
    NothingChained();
    hide Entries, Chained, Outlives, Remaining;
    forall k | 0 <= k < |files| ensures Chained(Entries(left[k])) {
      assert left[k] == if Outlives(files, k, |files| - 1, faults) then files[k] else Missing;
    }
  }

  lemma LeftLinked(files: Files, left: Files, faults: Faults)
    requires files != [] && left == Remaining(files, |files| - 1, faults)
    requires Linked(files) && Ordered(Retained(files), true)
    ensures Linked(left) <==> forall i, j :: 0 <= i < j < |files| && Gap(files, i, j, faults) ==> Hidden(files, i, j)
  {
    hide Retained, Entries, Gap, Hidden, Ordered, Chained, Neighbours, Meets, Remaining;
    LeftChained(files, left, faults);
    if Linked(left) {
      forall i, j | 0 <= i < j < |files| && Gap(files, i, j, faults) ensures Hidden(files, i, j) {
        LeftMeets(files, left, i, j, faults);
      }
    } else {
      var i, j :| 0 <= i < j < |left| && Neighbours(left, i, j) && !Meets(left, i, j);
      LeftMeets(files, left, i, j, faults);
    }
  }

  /** So when every rename succeeds, whatever removals fail, an unbroken log stays unbroken. */
  lemma AllRenamedKeepsChain(files: Files, faults: Faults)
    requires files != [] && faults.renames == {} && Chained(Retained(files))
    ensures Chained(Retained(Shifted(files, |files| - 1, faults)))
  {
    hide Retained, Entries, Shifted, Chained, Hidden;
    RotationKeepsChainIff(files, faults);
    forall i, j | 0 <= i < j < |files| ensures !Gap(files, i, j, faults) {
      forall k | i < k < j && Entries(files[k]) != [] ensures Stays(files, k, faults) {}
    }
  }

  /** And when a log can be neither removed nor replaced nothing of it is lost. */
  lemma StuckLogStays(files: Files, faults: Faults, i: nat)
    requires 0 < i < |files| && i in faults.renames && i in faults.removals
    ensures forall e :: e in Entries(files[i]) ==> e in Retained(Shifted(files, |files| - 1, faults))
  {
    hide Shifted, Entries, Retained;
    ShiftedRetains(files, |files| - 1, faults);
    var left := Remaining(files, |files| - 1, faults);
    assert left[i] == files[i];
    RetainedSplit(left, i);
  }

  /** A rename that fails can cost a log in the middle: entries 2 and 4 stay, entry 3 goes. */
  lemma FailedRenameLeavesGap(e2: Entry, e3: Entry, e4: Entry)
    requires Chained([e2, e3, e4]) && e2.number == 2
    ensures var files := [Present([e4]), Present([e3]), Present([e2]), Missing];
      && Retained(files) == [e2, e3, e4]
      && Retained(Shifted(files, 3, Faults({2}, {}))) == [e2, e4]
      && !Chained([e2, e4])
  {
    var files := [Present([e4]), Present([e3]), Present([e2]), Missing];
    var one := [Present([e4]), Present([e3]), Missing, Present([e2])];
    var three := [Missing, Present([e4]), Missing, Present([e2])];
    assert files[3 := files[2]][2 := Missing] == one;
    assert one[2 := Missing] == one;
    assert one[1 := one[0]][0 := Missing] == three;
    var faults := Faults({2}, {});
    assert Shifted(files, 3, faults) == Shifted(one, 2, faults) == Shifted(one, 1, faults) == Shifted(three, 0, faults);
    RetainedFour(files);
    RetainedFour(three);
    assert Continues(Head([e2, e3, e4][0].number, [e2, e3, e4][0].hash), [e2, e3, e4][1]);
    assert Continues(Head([e2, e3, e4][1].number, [e2, e3, e4][1].hash), [e2, e3, e4][2]);
    assert !Continues(Head([e2, e4][0].number, [e2, e4][0].hash), [e2, e4][1]);
  }

  lemma RetainedFour(files: Files)
    requires |files| == 4
    ensures Retained(files) == Entries(files[3]) + Entries(files[2]) + Entries(files[1]) + Entries(files[0])
  {
    assert files[1..][1..] == files[2..] && files[2..][1..] == files[3..] && files[3..][1..] == [];
    assert Retained(files[3..]) == [] + Entries(files[3]);
    assert Retained(files[2..]) == Retained(files[3..]) + Entries(files[2]);
    assert Retained(files[1..]) == Retained(files[2..]) + Entries(files[1]);
  }

  /**
   * An append that wrote its line but reported failure leaves the head in memory where it was, so the next entry
   * is built on the same head. The log stays a chain exactly when the counter is saturated and the hashes collide.
   */
  lemma UnreportedAppend(log: seq<Entry>, first: (Bytes, Bytes), second: (Bytes, Bytes),
      hash: (Digest, Bytes, Bytes) -> Digest)
    requires Chained(log)
    ensures var written := BuildNext(HeadOf(log), first.0, first.1, hash).0;
      var next := BuildNext(HeadOf(log), second.0, second.1, hash).0;
      Chained(log + [written, next]) <==> written.number == U64_MAX && written.hash == HeadOf(log).hash
  {
    var written := BuildNext(HeadOf(log), first.0, first.1, hash).0;
    var next := BuildNext(HeadOf(log), second.0, second.1, hash).0;
    var all, n := log + [written, next], |log|;
    assert all[n] == written && all[n + 1] == next;
    forall i | 0 < i < n ensures Continues(Head(all[i - 1].number, all[i - 1].hash), all[i]) {
      assert all[i] == log[i] && all[i - 1] == log[i - 1];
    }
    assert n > 0 ==> Continues(Head(all[n - 1].number, all[n - 1].hash), all[n]);
    if Chained(all) { assert Continues(Head(all[n].number, all[n].hash), all[n + 1]); }
  }
}
