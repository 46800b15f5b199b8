/** Reservoir sampling of map keys, for every outcome of the random choices and of iteration order. */
module Sampling {
  import opened Base

  ghost predicate Distinct<T>(s: seq<T>) {
    forall i, j :: 0 <= i < j < |s| ==> s[i] != s[j]
  }

  ghost predicate Ascending(s: seq<nat>) {
    forall i, j :: 0 <= i < j < |s| ==> s[i] < s[j]
  }

  /** The slots 0..k, later overwritten by a fair choice of the remaining positions. */
  method Reservoir(samples: nat, count: nat) returns (picked: seq<nat>)
    ensures |picked| == if samples < count then samples else count
    ensures Distinct(picked) && forall i :: 0 <= i < |picked| ==> picked[i] < count
  {
    var take := if samples < count then samples else count;
    picked := seq(take, i => i);
    for i := take to count
      invariant |picked| == take && Distinct(picked)
      invariant forall k :: 0 <= k < take ==> picked[k] < i
    {
      var j :| 0 <= j <= i;
      if j < take { picked := picked[j := i]; }
    }
  }

  method InsertSorted(s: seq<nat>, x: nat) returns (t: seq<nat>)
    requires Ascending(s) && x !in s
    ensures Ascending(t) && |t| == |s| + 1 && forall y :: y in t <==> y == x || y in s
  {
    var pos := 0;
    while pos < |s| && s[pos] < x
      invariant 0 <= pos <= |s| && forall i :: 0 <= i < pos ==> s[i] < x
    {
      pos := pos + 1;
    }
    t := s[..pos] + [x] + s[pos..];
    forall y ensures y in t <==> y == x || y in s {
      if y in s {
        var i :| 0 <= i < |s| && s[i] == y;
        assert t[if i < pos then i else i + 1] == y;
      }
      assert t[pos] == x;
    }
    assert forall i :: pos <= i < |s| ==> s[i] != x;
  }

  method Sort(s: seq<nat>) returns (t: seq<nat>)
    requires Distinct(s)
    ensures Ascending(t) && |t| == |s| && forall y :: y in t <==> y in s
  {
    t := [];
    for i := 0 to |s|
      invariant Ascending(t) && |t| == i && forall y :: y in t <==> y in s[..i]
    {
      assert s[..i + 1] == s[..i] + [s[i]];
      assert s[i] !in s[..i];
      t := InsertSorted(t, s[i]);
    }
    assert s[..|s|] == s;
  }

  /** Some listing of a set, as hash iteration gives it. */
  method ListKeys(keys: set<Bytes>) returns (order: seq<Bytes>)
    ensures Distinct(order) && |order| == |keys| && forall k :: k in order <==> k in keys
  {
    order := [];
    var left := keys;
    while left != {}
      invariant left <= keys && Distinct(order) && |order| + |left| == |keys|
      invariant forall k :: k in order <==> k in keys && k !in left
    {
      var k :| k in left;
      order := order + [k];
      left := left - {k};
    }
  }

  /** One pass over the listing, taking the entries at the sorted positions. */
  method TakeAt(order: seq<Bytes>, at: seq<nat>) returns (taken: seq<Bytes>)
    requires Ascending(at) && forall i :: 0 <= i < |at| ==> at[i] < |order|
    ensures |taken| == |at| && forall i :: 0 <= i < |at| ==> taken[i] == order[at[i]]
  {
    taken := [];
    var cursor := 0;
    for idx := 0 to |order|
      invariant 0 <= cursor <= |at| && |taken| == cursor
      invariant forall i :: 0 <= i < cursor ==> taken[i] == order[at[i]]
      invariant forall i :: cursor <= i < |at| ==> idx <= at[i]
    {
      if cursor < |at| && idx == at[cursor] {
        taken := taken + [order[idx]];
        cursor := cursor + 1;
        if cursor >= |at| { break; }
      }
    }
  }

  /**
   * A sample of a set of keys: exactly min(samples, size) different members, all of them when the sample is
   * large enough.
   */
  method SampleKeys(keys: set<Bytes>, samples: nat) returns (sampled: seq<Bytes>)
    ensures |sampled| == if samples < |keys| then samples else |keys|
    ensures Distinct(sampled) && forall i :: 0 <= i < |sampled| ==> sampled[i] in keys
    ensures samples >= |keys| ==> forall k :: k in keys ==> k in sampled
  {
    var picked := Reservoir(samples, |keys|);
    var at := Sort(picked);
    var order := ListKeys(keys);
    forall i | 0 <= i < |at| ensures at[i] < |order| {
      assert at[i] in picked;
    }
    sampled := TakeAt(order, at);
    forall i | 0 <= i < |sampled| ensures sampled[i] in keys {
      assert order[at[i]] in order;
    }
    if samples >= |keys| { AllTaken(order, at, sampled); }
  }

  lemma AllTaken(order: seq<Bytes>, at: seq<nat>, taken: seq<Bytes>)
    requires Ascending(at) && |at| == |order| && forall i :: 0 <= i < |at| ==> at[i] < |order|
    requires |taken| == |at| && forall i :: 0 <= i < |at| ==> taken[i] == order[at[i]]
    ensures taken == order
  {
    forall i | 0 <= i < |at| ensures at[i] == i {
      AtLeast(at, i);
      AtMost(at, i, |order|);
    }
  }

  lemma {:induction false} AtLeast(at: seq<nat>, i: nat)
    requires Ascending(at) && i < |at|
    ensures at[i] >= i
  {
    if i > 0 {
      AtLeast(at, i - 1);
      assert at[i - 1] < at[i];
    }
  }

  lemma {:induction false} AtMost(at: seq<nat>, i: nat, n: nat)
    requires Ascending(at) && i < |at| && |at| == n && forall k :: 0 <= k < n ==> at[k] < n
    ensures at[i] <= i
    decreases n - i
  {
    if i < n - 1 {
      AtMost(at, i + 1, n);
      assert at[i] < at[i + 1];
    }
  }
}
