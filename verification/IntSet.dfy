/**
 * Sets that start as a small sorted list of integers and upgrade to a hash
 * set; both forms behave as one plain set of byte strings.
 */
module IntSet {
  import opened Base
  import opened Decimal
  import opened Values

  const SET_MAX_INTSET_ENTRIES: nat := 512

  datatype SetData = Table(members: set<Bytes>) | Ints(ints: seq<i64>)

  ghost predicate Sorted(s: seq<i64>) {
    forall i, j :: 0 <= i < j < |s| ==> s[i] < s[j]
  }

  ghost predicate WellFormed(d: SetData) {
    d.Ints? ==> Sorted(d.ints) && |d.ints| <= SET_MAX_INTSET_ENTRIES
  }

  /** The byte strings a set stands for. */
  ghost function Members(d: SetData): set<Bytes> {
    match d
    case Table(members) => members
    case Ints(ints) => set n | n in ints :: Print(n)
  }

  lemma PrintInjective(a: i64, b: i64)
    requires Print(a) == Print(b)
    ensures a == b
  {
    PrintParses(a);
    PrintParses(b);
  }

  /** A byte string is in an integer list exactly when it prints one of its integers. */
  lemma IntMembership(ints: seq<i64>, member: Bytes)
    ensures member in Members(Ints(ints)) <==> PrintsBack(member).Some? && PrintsBack(member).value in ints
  {
    RecognisersAgree(member);
    forall n | n in ints && Print(n) == member ensures PrintsBack(member) == Some(n) { }
  }

  lemma {:induction false} MembersSize(ints: seq<i64>)
    requires Sorted(ints)
    ensures |Members(Ints(ints))| == |ints|
  {
    if ints != [] {
      var init, last := ints[..|ints| - 1], ints[|ints| - 1];
      MembersSize(init);
      assert ints == init + [last];
      LastMember(init, last);
      hide Members, Print;
    }
  }

  /** A larger integer adds a member. */
  lemma LastMember(init: seq<i64>, last: i64)
    requires forall i :: 0 <= i < |init| ==> init[i] < last
    ensures Members(Ints(init + [last])) == Members(Ints(init)) + {Print(last)}
    ensures Print(last) !in Members(Ints(init))
  {
    hide Print;
    if Print(last) in Members(Ints(init)) {
      var n :| n in init && Print(n) == Print(last);
      PrintInjective(n, last);
    }
  }

  method BinarySearch(s: seq<i64>, x: i64) returns (found: bool, pos: nat)
    requires Sorted(s)
    ensures pos <= |s|
    ensures found <==> x in s
    ensures found ==> pos < |s| && s[pos] == x
    ensures !found ==> (forall i :: 0 <= i < pos ==> s[i] < x) && (forall i :: pos <= i < |s| ==> x < s[i])
  {
    var lo, hi := 0, |s|;
    while lo < hi
      invariant 0 <= lo <= hi <= |s|
      invariant forall i :: 0 <= i < lo ==> s[i] < x
      invariant forall i :: hi <= i < |s| ==> x < s[i]
    {
      var mid := (lo + hi) / 2;
      if s[mid] < x {
        lo := mid + 1;
      } else if x < s[mid] {
        hi := mid;
      } else {
        return true, mid;
      }
    }
    return false, lo;
  }

  lemma InsertAt(s: seq<i64>, pos: nat, x: i64)
    requires Sorted(s) && pos <= |s|
    requires (forall i :: 0 <= i < pos ==> s[i] < x) && (forall i :: pos <= i < |s| ==> x < s[i])
    ensures Sorted(s[..pos] + [x] + s[pos..])
    ensures Members(Ints(s[..pos] + [x] + s[pos..])) == Members(Ints(s)) + {Print(x)}
  {
    hide Print;
    var t := s[..pos] + [x] + s[pos..];
    forall n ensures n in t <==> n == x || n in s {
      if n in s {
        var i :| 0 <= i < |s| && s[i] == n;
        assert t[if i < pos then i else i + 1] == n;
      }
      assert t[pos] == x;
    }
  }

  lemma RemoveAt(s: seq<i64>, pos: nat)
    requires Sorted(s) && pos < |s|
    ensures Sorted(s[..pos] + s[pos + 1..])
    ensures Members(Ints(s[..pos] + s[pos + 1..])) == Members(Ints(s)) - {Print(s[pos])}
  {
    hide Print;
    var t := s[..pos] + s[pos + 1..];
    forall n: i64 ensures n in t <==> n != s[pos] && n in s {
      if n in s && n != s[pos] {
        var i :| 0 <= i < |s| && s[i] == n;
        assert t[if i < pos then i else i - 1] == n;
      }
    }
    forall n: i64 | Print(n) == Print(s[pos]) ensures n == s[pos] { PrintInjective(n, s[pos]); }
  }

  class StoredSet {
    var data: SetData

    ghost predicate Valid()
      reads this
    {
      WellFormed(data)
    }

    /** Builds the compact form when every member is a printed integer and there are at most 512. */
    constructor (values: set<Bytes>)
      ensures Valid() && Members(data) == values
      ensures data.Ints? <==> |values| <= SET_MAX_INTSET_ENTRIES && forall v :: v in values ==> PrintsBack(v).Some?
    {
      data := Table(values);
      new;
      if |values| <= SET_MAX_INTSET_ENTRIES {
        var ints := Compact(values);
        if ints.Some? {
          MembersSize(ints.value);
          data := Ints(ints.value);
        }
      }
    }

    /** The members as a sorted list of integers, unless one of them is not a printed integer. */
    static method Compact(values: set<Bytes>) returns (r: Option<seq<i64>>)
      ensures r.Some? <==> forall v :: v in values ==> PrintsBack(v).Some?
      ensures r.Some? ==> Sorted(r.value) && Members(Ints(r.value)) == values
    {
      hide Print, PrintsBack, Members;
      var ints: seq<i64> := [];
      var left := values;
      NoMembers();
      while left != {}
        invariant left <= values && Sorted(ints) && Members(Ints(ints)) == values - left
        invariant forall v :: v in values - left ==> PrintsBack(v).Some?
      {
        var v :| v in left;
        var n := PrintsBack(v);
        if n.None? { return None; }
        RecognisersAgree(v);
        IntMembership(ints, v);
        var found, pos := BinarySearch(ints, n.value);
        InsertAt(ints, pos, n.value);
        ints := ints[..pos] + [n.value] + ints[pos..];
        left := left - {v};
      }
      r := Some(ints);
    }

    static lemma NoMembers()
      ensures Members(Ints([])) == {}
    {
    }

    method Len() returns (n: nat)
      requires Valid()
      ensures n == |Members(data)|
    {
      match data
      case Table(members) => n := |members|;
      case Ints(ints) =>
        MembersSize(ints);
        n := |ints|;
    }

    method Contains(member: Bytes) returns (yes: bool)
      requires Valid()
      ensures yes <==> member in Members(data)
    {
      match data
      case Table(members) => yes := member in members;
      case Ints(ints) =>
        IntMembership(ints, member);
        var n := PrintsBack(member);
        if n.None? { return false; }
        var found, _ := BinarySearch(ints, n.value);
        yes := found;
    }

    method Insert(member: Bytes) returns (inserted: bool)
      requires Valid()
      modifies this
      ensures Valid()
      ensures Members(data) == old(Members(data)) + {member}
      ensures inserted <==> member !in old(Members(data))
      ensures old(data).Table? ==> data.Table?
    {
      match data
      case Table(members) =>
        inserted := member !in members;
        data := Table(members + {member});
      case Ints(ints) =>
        IntMembership(ints, member);
        var n := PrintsBack(member);
        if n.None? {
          var upgraded := AsTable(ints);
          inserted := member !in upgraded;
          data := Table(upgraded + {member});
        } else {
          RecognisersAgree(member);
          var found, pos := BinarySearch(ints, n.value);
          if found {
            assert Members(data) + {member} == Members(data);
            inserted := false;
          } else if |ints| >= SET_MAX_INTSET_ENTRIES {
            var upgraded := AsTable(ints);
            inserted := member !in upgraded;
            data := Table(upgraded + {member});
          } else {
            InsertAt(ints, pos, n.value);
            data := Ints(ints[..pos] + [n.value] + ints[pos..]);
            inserted := true;
          }
        }
    }

    method Remove(member: Bytes) returns (removed: bool)
      requires Valid()
      modifies this
      ensures Valid()
      ensures Members(data) == old(Members(data)) - {member}
      ensures removed <==> member in old(Members(data))
    {
      match data
      case Table(members) =>
        removed := member in members;
        data := Table(members - {member});
      case Ints(ints) =>
        IntMembership(ints, member);
        var n := PrintsBack(member);
        if n.None? { return false; }
        RecognisersAgree(member);
        var found, pos := BinarySearch(ints, n.value);
        if found {
          RemoveAt(ints, pos);
          data := Ints(ints[..pos] + ints[pos + 1..]);
        }
        removed := found;
    }

    static method AsTable(ints: seq<i64>) returns (members: set<Bytes>)
      ensures members == Members(Ints(ints))
    {
      members := {};
      for i := 0 to |ints|
        invariant members == Members(Ints(ints[..i]))
      {
        assert ints[..i + 1] == ints[..i] + [ints[i]];
        members := members + {Print(ints[i])};
      }
      assert ints[..|ints|] == ints;
    }
  }
}
