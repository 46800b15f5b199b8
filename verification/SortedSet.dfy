/**
 * The dual-index sorted set: entries in score order beside a member-to-score
 * table. The ordered index is the strictly ascending list of its entries.
 */
module SortedSet {
  import opened Base
  import opened Score

  // ---- the ordered index ----------------------------------------------------

  ghost predicate Ascending(s: seq<Entry>) {
    forall i, j :: 0 <= i < j < |s| ==> Less(s[i], s[j])
  }

  function IndexInsert(s: seq<Entry>, e: Entry): seq<Entry> {
    if s == [] then [e]
    else if e == s[0] then s
    else if Less(e, s[0]) then [e] + s
    else [s[0]] + IndexInsert(s[1..], e)
  }

  function IndexRemove(s: seq<Entry>, e: Entry): seq<Entry> {
    if s == [] then []
    else if e == s[0] then s[1..]
    else [s[0]] + IndexRemove(s[1..], e)
  }

  lemma {:induction false} InsertKeepsOrder(s: seq<Entry>, e: Entry)
    requires Ascending(s)
    ensures Ascending(IndexInsert(s, e))
    ensures forall x :: x in IndexInsert(s, e) <==> x == e || x in s
  {
    if s != [] && e != s[0] {
      LessTotal(e, s[0]);
      if Less(e, s[0]) {
        forall j | 0 <= j < |s| ensures Less(e, s[j]) {
          if j > 0 { LessTransitive(e, s[0], s[j]); }
        }
      } else {
        assert Ascending(s[1..]);
        InsertKeepsOrder(s[1..], e);
        var tail := IndexInsert(s[1..], e);
        forall j | 0 <= j < |tail| ensures Less(s[0], tail[j]) {
          assert tail[j] in tail;
        }
      }
    }
  }

  lemma {:induction false} RemoveKeepsOrder(s: seq<Entry>, e: Entry)
    requires Ascending(s)
    ensures Ascending(IndexRemove(s, e))
    ensures forall x :: x in IndexRemove(s, e) <==> x != e && x in s
  {
    if s != [] {
      assert Ascending(s[1..]);
      assert forall x :: x in s <==> x == s[0] || x in s[1..];
      if e == s[0] {
        if e in s[1..] {
          var j :| 0 <= j < |s[1..]| && s[1..][j] == e;
          assert Less(s[0], s[j + 1]);
          LessTotal(e, e);
        }
      } else {
        RemoveKeepsOrder(s[1..], e);
        var tail := IndexRemove(s[1..], e);
        forall j | 0 <= j < |tail| ensures Less(s[0], tail[j]) {
          assert tail[j] in tail;
        }
      }
    }
  }

  /** Two ascending lists of the same entries are the same list. */
  lemma {:induction false} AscendingUnique(s: seq<Entry>, t: seq<Entry>)
    requires Ascending(s) && Ascending(t) && (forall x :: x in s <==> x in t)
    ensures s == t
  {
    assert s != [] ==> s[0] in s;
    assert t != [] ==> t[0] in t;
    if s != [] && t != [] {
      HeadIsLeast(s, t[0]);
      HeadIsLeast(t, s[0]);
      LessTotal(s[0], t[0]);
      assert forall x :: x in s[1..] <==> x in t[1..] by {
        forall x ensures x in s[1..] <==> x in t[1..] { TailMembers(s, x); TailMembers(t, x); }
      }
      AscendingUnique(s[1..], t[1..]);
      assert s == [s[0]] + s[1..] && t == [t[0]] + t[1..];
    }
  }

  lemma HeadIsLeast(s: seq<Entry>, x: Entry)
    requires Ascending(s) && x in s
    ensures x == s[0] || Less(s[0], x)
  {
  }

  lemma TailMembers(s: seq<Entry>, x: Entry)
    requires Ascending(s) && s != []
    ensures x in s[1..] <==> x in s && x != s[0]
  {
    LessTotal(s[0], s[0]);
  }

  // ---- seeks ----------------------------------------------------------------

  datatype Bound = Unbounded | At(entry: Entry)

  predicate Within(e: Entry, lower: Bound, upper: Bound) {
    (lower.At? ==> !Less(e, lower.entry)) && (upper.At? ==> Less(e, upper.entry))
  }

  /** Ordered-map range with an included lower and an excluded upper bound, in ascending order. */
  function IndexRange(s: seq<Entry>, lower: Bound, upper: Bound): seq<Entry>
    requires !Inverted(lower, upper)
  {
    Pick(s, lower, upper)
  }

  function Pick(s: seq<Entry>, lower: Bound, upper: Bound): seq<Entry> {
    if s == [] then []
    else (if Within(s[0], lower, upper) then [s[0]] else []) + Pick(s[1..], lower, upper)
  }

  /** The request an ordered map refuses by panicking. */
  predicate Inverted(lower: Bound, upper: Bound) {
    lower.At? && upper.At? && Less(upper.entry, lower.entry)
  }

  /** The whole set filtered by the exact range test, in order. */
  function FilterRange(s: seq<Entry>, min: ScoreBound, max: ScoreBound): seq<Entry> {
    if s == [] then []
    else (if InRange(s[0].score, min, max) then [s[0]] else []) + FilterRange(s[1..], min, max)
  }

  function Probe(score: Bits): Entry {
    Entry(score, [])
  }

  function LowerSeek(min: ScoreBound): Bound {
    if min.value == NEG_INFINITY then Unbounded
    else At(Probe(if IsZero(min.value) then NEG_ZERO else min.value))
  }

  function UpperSeek(max: ScoreBound): Bound {
    if max.value == INFINITY then Unbounded else At(Probe(NextUp(max.value)))
  }

  lemma SeekKeepsMatches(e: Entry, min: ScoreBound, max: ScoreBound)
    requires InRange(e.score, min, max)
    ensures Within(e, LowerSeek(min), UpperSeek(max))
  {
  }

  lemma {:induction false} FilterOfPick(s: seq<Entry>, min: ScoreBound, max: ScoreBound)
    ensures FilterRange(Pick(s, LowerSeek(min), UpperSeek(max)), min, max) == FilterRange(s, min, max)
  {
    hide InRange, LowerSeek, UpperSeek, Within;
    if s != [] {
      FilterOfPick(s[1..], min, max);
      var tail := Pick(s[1..], LowerSeek(min), UpperSeek(max));
      if Within(s[0], LowerSeek(min), UpperSeek(max)) {
        assert ([s[0]] + tail)[1..] == tail;
      } else {
        if InRange(s[0].score, min, max) { SeekKeepsMatches(s[0], min, max); }
        assert [] + tail == tail;
      }
    }
  }

  /** When the seek bounds cross, nothing is in range. */
  lemma {:induction false} CrossedMeansEmpty(s: seq<Entry>, min: ScoreBound, max: ScoreBound)
    requires LowerSeek(min).At? && UpperSeek(max).At? && !Less(LowerSeek(min).entry, UpperSeek(max).entry)
    ensures FilterRange(s, min, max) == []
  {
    if s != [] {
      CrossedMeansEmpty(s[1..], min, max);
      if InRange(s[0].score, min, max) {
        SeekKeepsMatches(s[0], min, max);
        BytesLessTotal([], []);
      }
    }
  }

  // ---- rank -----------------------------------------------------------------

  function CountBelow(s: seq<Entry>, e: Entry): nat {
    if s == [] then 0 else (if Less(s[0], e) then 1 else 0) + CountBelow(s[1..], e)
  }

  lemma {:induction false} CountBelowIsIndex(s: seq<Entry>, i: nat)
    requires Ascending(s) && i < |s|
    ensures CountBelow(s, s[i]) == i
  {
    LessTotal(s[0], s[i]);
    assert Ascending(s[1..]);
    if i == 0 {
      NoneBelow(s[1..], s[0]);
    } else {
      assert s[i] == s[1..][i - 1];
      CountBelowIsIndex(s[1..], i - 1);
    }
  }

  lemma {:induction false} NoneBelow(s: seq<Entry>, e: Entry)
    requires forall i :: 0 <= i < |s| ==> Less(e, s[i])
    ensures CountBelow(s, e) == 0
  {
    if s != [] {
      LessTotal(e, s[0]);
      NoneBelow(s[1..], e);
    }
  }

  // ---- the set --------------------------------------------------------------

  /** Both indexes describe the same member/score relation. */
  ghost predicate Agree(byScore: seq<Entry>, byMember: map<Bytes, Bits>) {
    && Ascending(byScore)
    && (forall e :: e in byScore <==> e.member in byMember && byMember[e.member] == e.score)
    && (forall m :: m in byMember ==> !IsNan(byMember[m]))
  }

  /** The ordered index is determined by the member table. */
  lemma IndexDetermined(s: seq<Entry>, t: seq<Entry>, byMember: map<Bytes, Bits>)
    requires Agree(s, byMember) && Agree(t, byMember)
    ensures s == t
  {
    assert forall x :: x in s <==> x in t;
    AscendingUnique(s, t);
  }

  ghost function MemberSet(s: seq<Entry>): set<Bytes> {
    set e | e in s :: e.member
  }

  lemma {:induction false} MemberSetSize(s: seq<Entry>)
    requires forall i, j :: 0 <= i < j < |s| ==> s[i].member != s[j].member
    ensures |MemberSet(s)| == |s|
  {
    if s != [] {
      var init, last := s[..|s| - 1], s[|s| - 1];
      MemberSetSize(init);
      assert s == init + [last];
      assert MemberSet(s) == MemberSet(init) + {last.member};
    }
  }

  lemma DistinctEntriesCount(s: seq<Entry>, byMember: map<Bytes, Bits>)
    requires Agree(s, byMember)
    ensures MemberSet(s) == byMember.Keys && |s| == |byMember|
  {
    forall m | m in byMember ensures m in MemberSet(s) {
      assert Entry(byMember[m], m) in s;
    }
    forall i, j | 0 <= i < j < |s| ensures s[i].member != s[j].member {
      assert s[i] in s && s[j] in s;
      LessTotal(s[i], s[i]);
    }
    MemberSetSize(s);
  }

  class ZSet {
    var byScore: seq<Entry>
    var byMember: map<Bytes, Bits>

    ghost predicate Valid()
      reads this
    {
      Agree(byScore, byMember)
    }

    constructor ()
      ensures Valid() && byMember == map[]
    {
      byScore := [];
      byMember := map[];
    }

    method Insert(member: Bytes, score: Bits) returns (isNew: bool)
      requires Valid()
      modifies this
      ensures Valid()
      ensures byMember == if IsNan(score) then old(byMember) else old(byMember)[member := score]
      ensures isNew <==> !IsNan(score) && member !in old(byMember)
    {
      if IsNan(score) { return false; }
      if member in byMember {
        var oldScore := byMember[member];
        if Key(oldScore) == Key(score) {
          OrdersAgree(oldScore, score);
          assert byMember == byMember[member := score];
          return false;
        }
        var stale, fresh' := Entry(oldScore, member), Entry(score, member);
        RemoveKeepsOrder(byScore, stale);
        byScore := IndexRemove(byScore, stale);
        InsertKeepsOrder(byScore, fresh');
        byScore := IndexInsert(byScore, fresh');
        byMember := byMember[member := score];
        isNew := false;
      } else {
        InsertKeepsOrder(byScore, Entry(score, member));
        byMember := byMember[member := score];
        byScore := IndexInsert(byScore, Entry(score, member));
        isNew := true;
      }
    }

    method Remove(member: Bytes) returns (removed: bool)
      requires Valid()
      modifies this
      ensures Valid()
      ensures byMember == old(byMember) - {member}
      ensures removed <==> member in old(byMember)
    {
      if member !in byMember {
        assert byMember == byMember - {member};
        return false;
      }
      var score := byMember[member];
      byMember := byMember - {member};
      RemoveKeepsOrder(byScore, Entry(score, member));
      byScore := IndexRemove(byScore, Entry(score, member));
      removed := true;
    }

    /** A member's rank is its position in score order, so ranks are exactly 0..len, one each. */
    method Rank(member: Bytes) returns (rank: Option<nat>)
      requires Valid()
      ensures rank.None? <==> member !in byMember
      ensures rank.Some? ==> rank.value < |byScore| && byScore[rank.value] == Entry(byMember[member], member)
      ensures |byScore| == |byMember|
    {
      DistinctEntriesCount(byScore, byMember);
      if member !in byMember { return None; }
      var entry := Entry(byMember[member], member);
      assert entry in byScore;
      ghost var i :| 0 <= i < |byScore| && byScore[i] == entry;
      CountBelowIsIndex(byScore, i);
      rank := Some(CountBelow(byScore, entry));
    }

    /** The seeked range is the ordered filter of the whole set, for every pair of bounds. */
    method RangeByScore(min: ScoreBound, max: ScoreBound) returns (range: seq<Entry>)
      ensures range == FilterRange(byScore, min, max)
    {
      hide FilterRange, Pick, InRange, LowerSeek, UpperSeek;
      var lower, upper := LowerSeek(min), UpperSeek(max);
      var empty := lower.At? && upper.At? && !Less(lower.entry, upper.entry);
      if empty {
        CrossedMeansEmpty(byScore, min, max);
        LessTotal(Probe(POS_ZERO), Probe(POS_ZERO));
        var none := IndexRange(byScore, At(Probe(POS_ZERO)), At(Probe(POS_ZERO)));
        NothingBetween(byScore, Probe(POS_ZERO));
        range := none;
      } else {
        if lower.At? && upper.At? { LessTotal(lower.entry, upper.entry); }
        FilterOfPick(byScore, min, max);
        range := FilterRange(IndexRange(byScore, lower, upper), min, max);
      }
    }

    /** Removes what the seek from `min` and the scan up to `max` reach. */
    method RemoveRangeByScore(min: Bits, max: Bits) returns (count: nat)
      requires Valid()
      modifies this
      ensures Valid()
      ensures byMember == old(byMember) - Reached(old(byMember), min, max)
      ensures count == |Reached(old(byMember), min, max)|
    {
      hide Agree, TakeUpTo, Pick;
      var found := TakeUpTo(Pick(byScore, At(Probe(min)), Unbounded), max);
      FoundIsReached(byScore, byMember, min, max);
      ghost var all := byMember;
      count := |found|;
      assert all - MemberSet(found[..0]) == all;
      for i := 0 to |found|
        invariant Valid() && byMember == all - MemberSet(found[..i])
      {
        assert found[..i + 1] == found[..i] + [found[i]];
        assert MemberSet(found[..i + 1]) == MemberSet(found[..i]) + {found[i].member};
        var _ := Remove(found[i].member);
      }
      assert found[..|found|] == found;
    }
  }

  lemma {:induction false} NothingBetween(s: seq<Entry>, e: Entry)
    ensures Pick(s, At(e), At(e)) == []
  {
    if s != [] { NothingBetween(s[1..], e); }
  }

  // ---- range removal --------------------------------------------------------

  /** Leading entries whose score is numerically at most `max`. */
  function TakeUpTo(s: seq<Entry>, max: Bits): seq<Entry> {
    if s == [] || !Le(s[0].score, max) then [] else [s[0]] + TakeUpTo(s[1..], max)
  }

  /** Members at or after the probe for `min` in index order, numerically at most `max`. */
  ghost function Reached(byMember: map<Bytes, Bits>, min: Bits, max: Bits): set<Bytes> {
    set m | m in byMember && Key(byMember[m]) >= Key(min) && Le(byMember[m], max)
  }

  /** Members the documented inclusive range asks for. */
  ghost function Inside(byMember: map<Bytes, Bits>, min: Bits, max: Bits): set<Bytes> {
    set m | m in byMember && Le(min, byMember[m]) && Le(byMember[m], max)
  }

  lemma {:induction false} PickMembers(s: seq<Entry>, lower: Bound, upper: Bound)
    ensures forall e :: e in Pick(s, lower, upper) <==> e in s && Within(e, lower, upper)
    ensures Ascending(s) ==> Ascending(Pick(s, lower, upper))
  {
    hide Within;
    if s != [] {
      PickMembers(s[1..], lower, upper);
      var tail := Pick(s[1..], lower, upper);
      var picked := Pick(s, lower, upper);
      assert forall e :: e in s <==> e == s[0] || e in s[1..];
      assert forall e :: e in picked <==> (Within(s[0], lower, upper) && e == s[0]) || e in tail;
      if Ascending(s) {
        assert Ascending(s[1..]);
        forall j | 0 <= j < |tail| ensures Less(s[0], tail[j]) { assert tail[j] in tail; }
      }
    }
  }

  lemma {:induction false} TakeUpToMembers(s: seq<Entry>, max: Bits)
    requires Ascending(s) && forall e :: e in s ==> !IsNan(e.score)
    ensures forall e :: e in TakeUpTo(s, max) <==> e in s && Le(e.score, max)
    ensures Ascending(TakeUpTo(s, max))
  {
    if s != [] {
      assert forall e :: e in s <==> e == s[0] || e in s[1..];
      assert Ascending(s[1..]);
      if Le(s[0].score, max) {
        TakeUpToMembers(s[1..], max);
        var tail := TakeUpTo(s[1..], max);
        forall j | 0 <= j < |tail| ensures Less(s[0], tail[j]) { assert tail[j] in tail; }
      } else {
        forall e | e in s ensures !Le(e.score, max) {
          HeadIsLeast(s, e);
          if Less(s[0], e) { OrdersAgree(s[0].score, e.score); }
        }
      }
    }
  }

  lemma FoundEntries(byScore: seq<Entry>, byMember: map<Bytes, Bits>, min: Bits, max: Bits)
    requires Agree(byScore, byMember)
    ensures var found := TakeUpTo(Pick(byScore, At(Probe(min)), Unbounded), max);
      && Ascending(found)
      && forall e :: e in found <==> e in byScore && Key(e.score) >= Key(min) && Le(e.score, max)
  {
    var picked := Pick(byScore, At(Probe(min)), Unbounded);
    PickMembers(byScore, At(Probe(min)), Unbounded);
    TakeUpToMembers(picked, max);
  }

  lemma FoundIsReached(byScore: seq<Entry>, byMember: map<Bytes, Bits>, min: Bits, max: Bits)
    requires Agree(byScore, byMember)
    ensures var found := TakeUpTo(Pick(byScore, At(Probe(min)), Unbounded), max);
      MemberSet(found) == Reached(byMember, min, max) && |found| == |Reached(byMember, min, max)|
  {
    hide TakeUpTo, Pick, Ascending, Key, Le;
    var found := TakeUpTo(Pick(byScore, At(Probe(min)), Unbounded), max);
    FoundEntries(byScore, byMember, min, max);
    var reached := Reached(byMember, min, max);
    var kept := map m | m in reached :: byMember[m];
    assert Agree(found, kept);
    DistinctEntriesCount(found, kept);
    assert kept.Keys == reached;
  }

  /**
   * The removal matches the documented inclusive range exactly unless `min` is
   * +0.0 and a stored -0.0 lies below `max`, or `min` is a negative NaN and
   * anything lies below `max`.
   */
  lemma RemovesInclusiveRangeIff(byMember: map<Bytes, Bits>, min: Bits, max: Bits)
    requires forall m :: m in byMember ==> !IsNan(byMember[m])
    ensures Reached(byMember, min, max) == Inside(byMember, min, max)
       <==> !(min == POS_ZERO && Le(POS_ZERO, max) && exists m :: m in byMember && byMember[m] == NEG_ZERO)
            && !(IsNan(min) && min >= SIGN && exists m :: m in byMember && Le(byMember[m], max))
  {
    var reached, inside := Reached(byMember, min, max), Inside(byMember, min, max);
    if min == POS_ZERO && Le(POS_ZERO, max) && exists m :: m in byMember && byMember[m] == NEG_ZERO {
      var m :| m in byMember && byMember[m] == NEG_ZERO;
      assert m in inside && m !in reached;
    } else if IsNan(min) && min >= SIGN && exists m :: m in byMember && Le(byMember[m], max) {
      var m :| m in byMember && Le(byMember[m], max);
      assert m in reached && m !in inside;
    } else {
      forall m | m in byMember ensures m in reached <==> m in inside {
        if !IsNan(min) { OrdersAgree(min, byMember[m]); OrdersAgree(byMember[m], min); }
      }
      assert reached == inside;
    }
  }

  /** The range scan and the range removal differ on one concrete set: only a -0.0 member, range [+0.0, +0.0]. */
  lemma NegativeZeroIsMissed(member: Bytes)
    ensures var set' := map[member := NEG_ZERO as Bits];
      && FilterRange([Entry(NEG_ZERO, member)], Inclusive(POS_ZERO), Inclusive(POS_ZERO)) == [Entry(NEG_ZERO, member)]
      && Reached(set', POS_ZERO, POS_ZERO) == {}
      && Inside(set', POS_ZERO, POS_ZERO) == {member}
  {
    var entries := [Entry(NEG_ZERO, member)];
    assert FilterRange(entries[1..], Inclusive(POS_ZERO), Inclusive(POS_ZERO)) == [];
  }
}
