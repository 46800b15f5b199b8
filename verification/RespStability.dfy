/**
 * Parsing does not depend on how the input is cut: once bytes decide an
 * outcome, further bytes do not change it.
 */
module RespStability {
  import opened Base
  import opened Decimal
  import opened RespFrame
  import opened RespParse

  lemma {:induction false} FindCrlfStable(s: Bytes, t: Bytes)
    requires FindCrlf(s).Some?
    ensures FindCrlf(s + t) == FindCrlf(s)
  {
    if !(s[0] == CR && s[1] == LF) {
      assert (s + t)[1..] == s[1..] + t;
      FindCrlfStable(s[1..], t);
    }
  }

  lemma {:induction false} FindLfStable(s: Bytes, t: Bytes)
    requires FindLf(s).Some?
    ensures FindLf(s + t) == FindLf(s)
  {
    if s[0] != LF {
      assert (s + t)[1..] == s[1..] + t;
      FindLfStable(s[1..], t);
    }
  }

  lemma LineStable(s: Bytes, t: Bytes)
    requires s != [] && LineOf(s).Some?
    ensures LineOf(s + t) == LineOf(s)
  {
    assert (s + t)[1..] == s[1..] + t;
    FindCrlfStable(s[1..], t);
    var i := FindCrlf(s[1..]).value;
    assert (s[1..] + t)[..i] == s[1..][..i];
  }

  /** Outcomes that later input cannot change. */
  predicate Settled<T>(p: Parsed<T>) {
    !p.Incomplete? && p != Bad(InlineTooLong)
  }

  lemma LeavesStable(s: Bytes, t: Bytes)
    requires s != []
    ensures Settled(ParseText(s, false)) ==> ParseText(s + t, false) == ParseText(s, false)
    ensures Settled(ParseText(s, true)) ==> ParseText(s + t, true) == ParseText(s, true)
    ensures Settled(ParseInteger(s)) ==> ParseInteger(s + t) == ParseInteger(s)
    ensures Settled(ParseNull(s)) ==> ParseNull(s + t) == ParseNull(s)
  {
    if LineOf(s).Some? { LineStable(s, t); }
  }

  lemma BulkStable(s: Bytes, t: Bytes)
    requires s != [] && Settled(ParseBulk(s))
    ensures ParseBulk(s + t) == ParseBulk(s)
  {
    LineStable(s, t);
    var line := LineOf(s).value;
    var h := |line| + 3;
    match ParseI64(line)
    case None =>
    case Some(n) =>
      if 0 <= n <= MAX_BULK_LENGTH {
        assert (s + t)[h..h + n] == s[h..h + n];
      }
  }

  lemma InlineStable(s: Bytes, t: Bytes)
    requires Settled(ParseInline(s))
    ensures ParseInline(s + t) == ParseInline(s)
  {
    FindLfStable(s, t);
    var n := FindLf(s).value;
    assert (s + t)[..n] == s[..n];
    if n > 0 { assert (s + t)[..n - 1] == s[..n - 1]; }
  }

  /** A parsed frame, and every error but an overlong inline line, is unchanged by appending bytes. */
  lemma {:induction false} FrameStable(s: Bytes, t: Bytes, depth: nat)
    requires Settled(ParseFrame(s, depth))
    ensures ParseFrame(s + t, depth) == ParseFrame(s, depth)
    decreases MAX_NESTING_DEPTH + 1 - depth, 0
  {
    hide ParseText, ParseInteger, ParseBulk, ParseNull, ParseInline, ParseMany;
    assert (s + t)[0] == s[0];
    var m := s[0];
    if m == DOLLAR {
      BulkStable(s, t);
    } else if m == STAR {
      ArrayStable(s, t, depth);
    } else if m == PERCENT {
      MapStable(s, t, depth);
    } else if m == PLUS || m == MINUS || m == COLON || m == UNDERSCORE {
      LeavesStable(s, t);
    } else if depth == 0 {
      InlineStable(s, t);
    }
  }

  lemma ArrayStable(s: Bytes, t: Bytes, depth: nat)
    requires s != [] && Settled(ParseArray(s, depth))
    ensures ParseArray(s + t, depth) == ParseArray(s, depth)
    decreases MAX_NESTING_DEPTH + 1 - depth, -1
  {
    hide ParseFrame, ParseMany;
    if depth < MAX_NESTING_DEPTH {
      LineStable(s, t);
      var line := LineOf(s).value;
      var h := |line| + 3;
      match ParseI64(line)
      case None =>
      case Some(n) =>
        if 0 <= n <= MAX_ARRAY_ELEMENTS {
          assert (s + t)[h..] == s[h..] + t;
          ManyStable(s[h..], t, n, depth + 1);
        }
    }
  }

  lemma MapStable(s: Bytes, t: Bytes, depth: nat)
    requires s != [] && Settled(ParseMap(s, depth))
    ensures ParseMap(s + t, depth) == ParseMap(s, depth)
    decreases MAX_NESTING_DEPTH + 1 - depth, -1
  {
    hide ParseFrame, ParseMany;
    if depth < MAX_NESTING_DEPTH {
      LineStable(s, t);
      var line := LineOf(s).value;
      var h := |line| + 3;
      match ParseI64(line)
      case None =>
      case Some(n) =>
        if 0 <= n <= MAX_MAP_ENTRIES {
          assert (s + t)[h..] == s[h..] + t;
          ManyStable(s[h..], t, 2 * n, depth + 1);
        }
    }
  }

  lemma {:induction false} ManyStable(s: Bytes, t: Bytes, n: nat, depth: nat)
    requires depth >= 1 && Settled(ParseMany(s, n, depth))
    ensures ParseMany(s + t, n, depth) == ParseMany(s, n, depth)
    decreases MAX_NESTING_DEPTH + 1 - depth, n
  {
    hide ParseFrame;
    if n > 0 {
      FrameStable(s, t, depth);
      var p := ParseFrame(s, depth);
      if p.Done? {
        assert (s + t)[p.consumed..] == s[p.consumed..] + t;
        ManyStable(s[p.consumed..], t, n - 1, depth);
      }
    }
  }

  /** An overlong line stays overlong until an LF arrives, and then stops being one. */
  lemma TooLongUntilLf(s: Bytes, t: Bytes)
    requires ParseFrame(s, 0) == Bad(InlineTooLong)
    ensures ParseFrame(s + t, 0) == Bad(InlineTooLong) <==> LF !in t
  {
    NoLfWhenTooLong(s);
    var u := s + t;
    assert u[0] == s[0];
    assert LF in u <==> LF in t;
    if FindLf(u).Some? {
      assert u[FindLf(u).value] in u;
    }
  }

  lemma NoLfWhenTooLong(s: Bytes)
    requires ParseFrame(s, 0) == Bad(InlineTooLong)
    ensures s != [] && ParseFrame(s, 0) == ParseInline(s) && LF !in s && |s| > MAX_INLINE_LENGTH
    ensures s[0] !in {PLUS, MINUS, COLON, DOLLAR, STAR, PERCENT, UNDERSCORE}
  {
    hide ParseText, ParseInteger, ParseBulk, ParseNull, ParseArray, ParseMap;
    if s != [] {
      LeavesNeverTooLong(s);
      NestedNeverTooLong(s, 0);
    }
  }

  lemma {:induction false} NestedNeverTooLong(s: Bytes, depth: nat)
    requires s != []
    ensures ParseArray(s, depth) != Bad(InlineTooLong) && ParseMap(s, depth) != Bad(InlineTooLong)
    decreases MAX_NESTING_DEPTH + 1 - depth, 0
  {
    hide ParseMany;
    if depth < MAX_NESTING_DEPTH && LineOf(s).Some? {
      var line := LineOf(s).value;
      match ParseI64(line)
      case None =>
      case Some(n) =>
        if 0 <= n <= MAX_ARRAY_ELEMENTS {
          ManyNeverTooLong(s[|line| + 3..], n, depth + 1);
          ManyNeverTooLong(s[|line| + 3..], 2 * n, depth + 1);
        }
    }
  }

  lemma LeavesNeverTooLong(s: Bytes)
    requires s != []
    ensures ParseText(s, false) != Bad(InlineTooLong) && ParseText(s, true) != Bad(InlineTooLong)
    ensures ParseInteger(s) != Bad(InlineTooLong) && ParseBulk(s) != Bad(InlineTooLong)
    ensures ParseNull(s) != Bad(InlineTooLong)
  {
  }

  lemma {:induction false} ManyNeverTooLong(s: Bytes, n: nat, depth: nat)
    requires depth >= 1
    ensures ParseMany(s, n, depth) != Bad(InlineTooLong)
    decreases MAX_NESTING_DEPTH + 1 - depth, n + 1
  {
    hide ParseText, ParseInteger, ParseBulk, ParseNull, ParseArray, ParseMap;
    if n > 0 {
      if s != [] {
        LeavesNeverTooLong(s);
        NestedNeverTooLong(s, depth);
      }
      var p := ParseFrame(s, depth);
      if p.Done? { ManyNeverTooLong(s[p.consumed..], n - 1, depth); }
    }
  }

  /** Exactly when appended bytes can revise a decided outcome. */
  lemma DecidedUnlessLineCompleted(s: Bytes, t: Bytes)
    requires !ParseFrame(s, 0).Incomplete?
    ensures ParseFrame(s + t, 0) == ParseFrame(s, 0)
       <==> !(ParseFrame(s, 0) == Bad(InlineTooLong) && LF in t)
  {
    if ParseFrame(s, 0) == Bad(InlineTooLong) {
      TooLongUntilLf(s, t);
    } else {
      FrameStable(s, t, 0);
    }
  }

  /** Before its last byte a frame is incomplete, or at worst an inline line already too long. */
  lemma ProperPrefixUndecided(s: Bytes, k: nat)
    requires ParseFrame(s, 0).Done? && k < ParseFrame(s, 0).consumed
    ensures ParseFrame(s[..k], 0).Incomplete? || ParseFrame(s[..k], 0) == Bad(InlineTooLong)
  {
    if Settled(ParseFrame(s[..k], 0)) {
      assert s[..k] + s[k..] == s;
      FrameStable(s[..k], s[k..], 0);
    }
  }

  // ---- a frame needs only its own bytes -------------------------------------

  lemma {:induction false} FindCrlfLocal(s: Bytes, m: nat)
    requires FindCrlf(s).Some? && FindCrlf(s).value + 2 <= m <= |s|
    ensures FindCrlf(s[..m]) == FindCrlf(s)
  {
    if !(s[0] == CR && s[1] == LF) {
      assert s[..m][1..] == s[1..][..m - 1];
      FindCrlfLocal(s[1..], m - 1);
    }
  }

  lemma {:induction false} FindLfLocal(s: Bytes, m: nat)
    requires FindLf(s).Some? && FindLf(s).value < m <= |s|
    ensures FindLf(s[..m]) == FindLf(s)
  {
    if s[0] != LF {
      assert s[..m][1..] == s[1..][..m - 1];
      FindLfLocal(s[1..], m - 1);
    }
  }

  lemma LineLocal(s: Bytes, m: nat)
    requires s != [] && LineOf(s).Some? && |LineOf(s).value| + 3 <= m <= |s|
    ensures LineOf(s[..m]) == LineOf(s)
  {
    assert s[..m][1..] == s[1..][..m - 1];
    FindCrlfLocal(s[1..], m - 1);
    var i := FindCrlf(s[1..]).value;
    assert s[1..][..m - 1][..i] == s[1..][..i];
  }

  lemma LeavesLocal(s: Bytes, m: nat)
    requires s != [] && 0 < m <= |s|
    ensures ParseText(s, false).Done? && ParseText(s, false).consumed <= m ==>
      ParseText(s[..m], false) == ParseText(s, false)
    ensures ParseText(s, true).Done? && ParseText(s, true).consumed <= m ==>
      ParseText(s[..m], true) == ParseText(s, true)
    ensures ParseInteger(s).Done? && ParseInteger(s).consumed <= m ==> ParseInteger(s[..m]) == ParseInteger(s)
    ensures ParseNull(s).Done? && ParseNull(s).consumed <= m ==> ParseNull(s[..m]) == ParseNull(s)
  {
    if LineOf(s).Some? && |LineOf(s).value| + 3 <= m { LineLocal(s, m); }
  }

  lemma BulkLocal(s: Bytes, m: nat)
    requires s != [] && ParseBulk(s).Done? && ParseBulk(s).consumed <= m <= |s|
    ensures ParseBulk(s[..m]) == ParseBulk(s)
  {
    LineLocal(s, m);
    var h := |LineOf(s).value| + 3;
    var n := ParseI64(LineOf(s).value).value;
    if n >= 0 { assert s[..m][h..h + n] == s[h..h + n]; }
  }

  lemma InlineLocal(s: Bytes, m: nat)
    requires ParseInline(s).Done? && ParseInline(s).consumed <= m <= |s|
    ensures ParseInline(s[..m]) == ParseInline(s)
  {
    FindLfLocal(s, m);
    var n := FindLf(s).value;
    assert s[..m][..n] == s[..n];
    if n > 0 { assert s[..m][..n - 1] == s[..n - 1]; }
  }

  /** Bytes behind a frame play no part in parsing it. */
  lemma {:induction false} FrameLocal(s: Bytes, m: nat, depth: nat)
    requires ParseFrame(s, depth).Done? && ParseFrame(s, depth).consumed <= m <= |s|
    ensures ParseFrame(s[..m], depth) == ParseFrame(s, depth)
    decreases MAX_NESTING_DEPTH + 1 - depth, 0
  {
    hide ParseText, ParseInteger, ParseBulk, ParseNull, ParseInline, ParseMany;
    assert s[..m][0] == s[0];
    var b := s[0];
    if b == DOLLAR {
      BulkLocal(s, m);
    } else if b == STAR {
      ArrayLocal(s, m, depth);
    } else if b == PERCENT {
      MapLocal(s, m, depth);
    } else if b == PLUS || b == MINUS || b == COLON || b == UNDERSCORE {
      LeavesLocal(s, m);
    } else if depth == 0 {
      InlineLocal(s, m);
    }
  }

  lemma ArrayLocal(s: Bytes, m: nat, depth: nat)
    requires s != [] && ParseArray(s, depth).Done? && ParseArray(s, depth).consumed <= m <= |s|
    ensures ParseArray(s[..m], depth) == ParseArray(s, depth)
    decreases MAX_NESTING_DEPTH + 1 - depth, -1
  {
    hide ParseFrame, ParseMany;
    LineLocal(s, m);
    var h := |LineOf(s).value| + 3;
    var n := ParseI64(LineOf(s).value).value;
    if n >= 0 {
      assert s[..m][h..] == s[h..][..m - h];
      ManyLocal(s[h..], m - h, n, depth + 1);
    }
  }

  lemma MapLocal(s: Bytes, m: nat, depth: nat)
    requires s != [] && ParseMap(s, depth).Done? && ParseMap(s, depth).consumed <= m <= |s|
    ensures ParseMap(s[..m], depth) == ParseMap(s, depth)
    decreases MAX_NESTING_DEPTH + 1 - depth, -1
  {
    hide ParseFrame, ParseMany;
    LineLocal(s, m);
    var h := |LineOf(s).value| + 3;
    var n := ParseI64(LineOf(s).value).value;
    assert s[..m][h..] == s[h..][..m - h];
    ManyLocal(s[h..], m - h, 2 * n, depth + 1);
  }

  lemma {:induction false} ManyLocal(s: Bytes, m: nat, n: nat, depth: nat)
    requires ParseMany(s, n, depth).Done? && ParseMany(s, n, depth).consumed <= m <= |s|
    ensures ParseMany(s[..m], n, depth) == ParseMany(s, n, depth)
    decreases MAX_NESTING_DEPTH + 1 - depth, n
  {
    hide ParseFrame;
    if n > 0 {
      var c := ParseFrame(s, depth).consumed;
      FrameLocal(s, m, depth);
      assert s[..m][c..] == s[c..][..m - c];
      ManyLocal(s[c..], m - c, n - 1, depth);
    }
  }
}
