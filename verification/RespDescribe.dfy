/**
 * The two-phase parser: phase one validates and measures, recording offsets
 * only; phase two cuts the frame out of the consumed bytes.
 */
module RespDescribe {
  import opened Base
  import opened Decimal
  import opened RespFrame
  import opened RespInline
  import opened RespParse

  datatype Desc =
    | TextAt(offset: nat, len: nat)
    | ErrorAt(offset: nat, len: nat)
    | IntegerOf(value: i64)
    | BulkAt(offset: nat, len: nat)
    | NullBulk
    | ArrayOf(descs: seq<Desc>)
    | MapOf(pairs: seq<DescPair>)
    | NullArrayOf
    | NullOf
    | InlineOf(tokens: seq<InlineToken>)

  datatype DescPair = DescPair(key: Desc, val: Desc)

  /** Every offset of a description stays below `n`. */
  ghost predicate Inside(d: Desc, n: nat) {
    match d
    case TextAt(offset, len) => offset + len <= n
    case ErrorAt(offset, len) => offset + len <= n
    case BulkAt(offset, len) => offset + len <= n
    case ArrayOf(ds) => forall i :: 0 <= i < |ds| ==> Inside(ds[i], n)
    case MapOf(ps) => forall i :: 0 <= i < |ps| ==> PairInside(ps[i], n)
    case InlineOf(ts) => forall i :: 0 <= i < |ts| ==> TokenInside(ts[i], 0, n)
    case _ => true
  }

  ghost predicate PairInside(p: DescPair, n: nat) {
    Inside(p.key, n) && Inside(p.val, n)
  }

  function Materialize(frozen: Bytes, d: Desc): Frame
    requires Inside(d, |frozen|)
    decreases d
  {
    match d
    case TextAt(offset, len) => SimpleString(frozen[offset..offset + len])
    case ErrorAt(offset, len) => Error(frozen[offset..offset + len])
    case IntegerOf(n) => Integer(n)
    case BulkAt(offset, len) => Bulk(Some(frozen[offset..offset + len]))
    case NullBulk => Bulk(None)
    case ArrayOf(ds) => Array(seq(|ds|, i requires 0 <= i < |ds| => Materialize(frozen, ds[i])))
    case MapOf(ps) => Map(seq(|ps|, i requires 0 <= i < |ps| => MaterializePair(frozen, ps[i])))
    case NullArrayOf => NullArray
    case NullOf => Null
    case InlineOf(ts) => Array(BulkFrames(TokensBytes(frozen, ts)))
  }

  function MaterializePair(frozen: Bytes, p: DescPair): Entry
    requires PairInside(p, |frozen|)
    decreases p
  {
    Entry(Materialize(frozen, p.key), Materialize(frozen, p.val))
  }

  lemma {:induction false} InsideGrows(d: Desc, n: nat, m: nat)
    requires Inside(d, n) && n <= m
    ensures Inside(d, m)
    decreases d
  {
    match d
    case ArrayOf(ds) =>
      forall i | 0 <= i < |ds| ensures Inside(ds[i], m) { InsideGrows(ds[i], n, m); }
    case MapOf(ps) =>
      forall i | 0 <= i < |ps| ensures PairInside(ps[i], m) {
        InsideGrows(ps[i].key, n, m);
        InsideGrows(ps[i].val, n, m);
      }
    case _ =>
  }

  /** Cutting the frame out of the consumed bytes alone gives the same frame. */
  lemma {:induction false} MaterializePrefix(data: Bytes, n: nat, d: Desc)
    requires n <= |data| && Inside(d, n) && Inside(d, |data|)
    ensures Materialize(data[..n], d) == Materialize(data, d)
    decreases d
  {
    match d
    case ArrayOf(ds) =>
      forall i | 0 <= i < |ds| ensures Materialize(data[..n], ds[i]) == Materialize(data, ds[i]) {
        MaterializePrefix(data, n, ds[i]);
      }
      assert Materialize(data[..n], d).items == Materialize(data, d).items;
    case MapOf(ps) =>
      forall i | 0 <= i < |ps| ensures MaterializePair(data[..n], ps[i]) == MaterializePair(data, ps[i]) {
        assert PairInside(ps[i], n) && PairInside(ps[i], |data|);
        MaterializePrefix(data, n, ps[i].key);
        MaterializePrefix(data, n, ps[i].val);
      }
      assert Materialize(data[..n], d).entries == Materialize(data, d).entries;
    case InlineOf(ts) =>
      forall i | 0 <= i < |ts| ensures TokenBytes(data[..n], ts[i]) == TokenBytes(data, ts[i]) {
        assert TokenInside(ts[i], 0, n);
        if ts[i].Slice? {
          var o, l := ts[i].offset, ts[i].len;
          assert data[..n][o..o + l] == data[o..o + l];
        }
      }
      assert TokensBytes(data[..n], ts) == TokensBytes(data, ts);
    case TextAt(offset, len) => assert data[..n][offset..offset + len] == data[offset..offset + len];
    case ErrorAt(offset, len) => assert data[..n][offset..offset + len] == data[offset..offset + len];
    case BulkAt(offset, len) => assert data[..n][offset..offset + len] == data[offset..offset + len];
    case _ =>
  }

  /** Phase one agrees with the specification about `data` from `idx` on. */
  ghost predicate Describes(data: Bytes, idx: nat, r: Parsed<Desc>, p: Parsed<Frame>) {
    match p
    case Incomplete => r == Incomplete
    case Bad(e) => r == Bad(e)
    case Done(f, c) =>
      && r.Done? && r.consumed == c && idx + c <= |data|
      && Inside(r.value, idx + c) && Inside(r.value, |data|)
      && Materialize(data, r.value) == f
  }

  // ---- lines ----------------------------------------------------------------

  method FindByte(b: byte, data: Bytes, from: nat) returns (r: Option<nat>)
    requires from <= |data|
    ensures r.Some? ==> from <= r.value < |data| && data[r.value] == b
    ensures forall i :: from <= i < (if r.Some? then r.value else |data|) ==> data[i] != b
  {
    for i := from to |data|
      invariant forall k :: from <= k < i ==> data[k] != b
    {
      if data[i] == b { return Some(i); }
    }
    return None;
  }

  /** The CRLF search jumps from CR to CR. */
  method FindCrlfAt(data: Bytes, idx: nat) returns (r: Option<nat>)
    requires idx <= |data|
    ensures r == match FindCrlf(data[idx..]) case None => None case Some(i) => Some(idx + i)
  {
    if idx >= |data| { return None; }
    ghost var s := data[idx..];
    var from := idx;
    while true
      invariant idx <= from <= |data|
      invariant forall i :: 0 <= i < from - idx && i + 1 < |s| ==> !(s[i] == CR && s[i + 1] == LF)
      decreases |data| - from
    {
      var pos := FindByte(CR, data, from);
      if pos.None? || pos.value + 1 >= |data| {
        FindCrlfSkip(s, |s|);
        return None;
      }
      if data[pos.value + 1] == LF {
        FindCrlfSkip(s, pos.value - idx);
        assert s[pos.value - idx..][0] == CR && s[pos.value - idx..][1] == LF;
        return Some(pos.value);
      }
      from := pos.value + 1;
    }
  }

  /** Length of the line after the type byte at `idx`. */
  method LineLen(data: Bytes, idx: nat) returns (len: Option<nat>)
    requires idx < |data|
    ensures len.None? <==> LineOf(data[idx..]).None?
    ensures len.Some? ==>
      idx + len.value + 3 <= |data| && LineOf(data[idx..]) == Some(data[idx + 1..idx + 1 + len.value])
  {
    assert data[idx..][1..] == data[idx + 1..];
    var end := FindCrlfAt(data, idx + 1);
    if end.None? { return None; }
    len := Some(end.value - (idx + 1));
    assert data[idx..][1..][..len.value] == data[idx + 1..idx + 1 + len.value];
  }

  // ---- phase one ------------------------------------------------------------

  method DescribeText(data: Bytes, idx: nat, isError: bool) returns (r: Parsed<Desc>)
    requires idx < |data|
    ensures Describes(data, idx, r, ParseText(data[idx..], isError))
  {
    var len := LineLen(data, idx);
    if len.None? { return Incomplete; }
    if HasBreak(data[idx + 1..idx + 1 + len.value]) { return Bad(InvalidLine); }
    r := Done(if isError then ErrorAt(idx + 1, len.value) else TextAt(idx + 1, len.value), len.value + 3);
  }

  method DescribeInteger(data: Bytes, idx: nat) returns (r: Parsed<Desc>)
    requires idx < |data|
    ensures Describes(data, idx, r, ParseInteger(data[idx..]))
  {
    var len := LineLen(data, idx);
    if len.None? { return Incomplete; }
    var value := ParseI64Loop(data[idx + 1..idx + 1 + len.value]);
    if value.None? { return Bad(InvalidInteger); }
    r := Done(IntegerOf(value.value), len.value + 3);
  }

  method DescribeBulk(data: Bytes, idx: nat) returns (r: Parsed<Desc>)
    requires idx < |data|
    ensures Describes(data, idx, r, ParseBulk(data[idx..]))
  {
    var line := LineLen(data, idx);
    if line.None? { return Incomplete; }
    var len := ParseI64Loop(data[idx + 1..idx + 1 + line.value]);
    if len.None? { return Bad(InvalidBulkLength); }
    var header := line.value + 3;
    if len.value == -1 { return Done(NullBulk, header); }
    if len.value < -1 || len.value > MAX_BULK_LENGTH { return Bad(InvalidBulkLength); }
    var bodyStart := idx + header;
    var bodyEnd := bodyStart + len.value;
    if bodyEnd + 2 > |data| { return Incomplete; }
    if data[bodyEnd] != CR || data[bodyEnd + 1] != LF { return Bad(MissingCrlf); }
    r := Done(BulkAt(bodyStart, len.value), header + len.value + 2);
    assert data[idx..][header..header + len.value] == data[bodyStart..bodyEnd];
  }

  method DescribeNull(data: Bytes, idx: nat) returns (r: Parsed<Desc>)
    requires idx < |data|
    ensures Describes(data, idx, r, ParseNull(data[idx..]))
  {
    if idx + 3 > |data| { return Incomplete; }
    if data[idx + 1] != CR || data[idx + 2] != LF { return Bad(MissingCrlf); }
    r := Done(NullOf, 3);
  }

  method DescribeInline(data: Bytes, idx: nat) returns (r: Parsed<Desc>)
    requires idx < |data|
    ensures Describes(data, idx, r, ParseInline(data[idx..]))
  {
    var newline := FindByte(LF, data, idx);
    ghost var s := data[idx..];
    if newline.None? {
      assert FindLf(s).None?;
      if |data| - idx > MAX_INLINE_LENGTH { return Bad(InlineTooLong); }
      return Incomplete;
    }
    var n := newline.value - idx;
    FirstLf(s, n);
    var end := newline.value;
    if end > idx && data[end - 1] == CR { end := end - 1; }
    assert InlineLine(s, n) == data[idx..end];
    var tokens := SplitInlineArgs(data, idx, end);
    if tokens.None? { return Bad(UnbalancedQuotes); }
    r := Done(InlineOf(tokens.value), n + 1);
    assert forall i :: 0 <= i < |tokens.value| ==> TokenInside(tokens.value[i], idx, end);
  }

  lemma {:induction false} FirstLf(s: Bytes, n: nat)
    requires n < |s| && s[n] == LF && forall i :: 0 <= i < n ==> s[i] != LF
    ensures FindLf(s) == Some(n)
  {
    if n > 0 { FirstLf(s[1..], n - 1); }
  }

  /** The whole answer is the frames described so far followed by the answer for the rest. */
  ghost predicate ManyAhead(goal: Parsed<seq<Frame>>, done: seq<Frame>, used: nat, left: Parsed<seq<Frame>>) {
    match left
    case Incomplete => goal == Incomplete
    case Bad(e) => goal == Bad(e)
    case Done(fs, u) => goal == Done(done + fs, used + u)
  }

  lemma ManyStep(data: Bytes, cur: nat, n: nat, depth: nat, goal: Parsed<seq<Frame>>, done: seq<Frame>, used: nat)
    requires cur <= |data| && n >= 1
    requires ManyAhead(goal, done, used, ParseMany(data[cur..], n, depth))
    ensures var p := ParseFrame(data[cur..], depth);
      && (p.Incomplete? ==> goal == Incomplete)
      && (p.Bad? ==> goal == Bad(p.error))
      && (p.Done? ==> cur + p.consumed <= |data|)
      && (p.Done? ==>
            ManyAhead(goal, done + [p.value], used + p.consumed, ParseMany(data[cur + p.consumed..], n - 1, depth)))
  {
    var p := ParseFrame(data[cur..], depth);
    if p.Done? {
      DropDrop(data, cur, p.consumed);
      var rest := ParseMany(data[cur + p.consumed..], n - 1, depth);
      if rest.Done? { ConcatAssoc(done, [p.value], rest.value); }
    }
  }

  /** The descriptions collected so far, one per frame, all below `cur`. */
  ghost predicate Collected(data: Bytes, cur: nat, ds: seq<Desc>, done: seq<Frame>) {
    |ds| == |done| && cur <= |data|
    && forall i :: 0 <= i < |ds| ==>
         Inside(ds[i], cur) && Inside(ds[i], |data|) && Materialize(data, ds[i]) == done[i]
  }

  lemma CollectOne(data: Bytes, cur: nat, ds: seq<Desc>, done: seq<Frame>, d: Desc, f: Frame, next: nat)
    requires Collected(data, cur, ds, done) && cur <= next <= |data|
    requires Inside(d, next) && Inside(d, |data|) && Materialize(data, d) == f
    ensures Collected(data, next, ds + [d], done + [f])
  {
    forall i | 0 <= i < |ds| ensures Inside(ds[i], next) { InsideGrows(ds[i], cur, next); }
  }

  method DescribeFrameAt(data: Bytes, idx: nat, depth: nat) returns (r: Parsed<Desc>)
    requires idx <= |data|
    ensures Describes(data, idx, r, ParseFrame(data[idx..], depth))
    decreases MAX_NESTING_DEPTH + 1 - depth, 0
  {
    hide Describes, ParseText, ParseInteger, ParseBulk, ParseArray, ParseMap, ParseNull, ParseInline;
    if idx >= |data| {
      assert Describes(data, idx, Incomplete, Incomplete) by { DescribesIncomplete(data, idx); }
      return Incomplete;
    }
    var marker := data[idx];
    if marker == PLUS { r := DescribeText(data, idx, false); }
    else if marker == MINUS { r := DescribeText(data, idx, true); }
    else if marker == COLON { r := DescribeInteger(data, idx); }
    else if marker == DOLLAR { r := DescribeBulk(data, idx); }
    else if marker == STAR { r := DescribeArray(data, idx, depth); }
    else if marker == PERCENT { r := DescribeMap(data, idx, depth); }
    else if marker == UNDERSCORE { r := DescribeNull(data, idx); }
    else if depth == 0 { r := DescribeInline(data, idx); }
    else {
      r := Bad(InvalidFrameType(marker));
      DescribesBad(data, idx, InvalidFrameType(marker));
    }
  }

  lemma DescribesIncomplete(data: Bytes, idx: nat)
    ensures Describes(data, idx, Incomplete, Incomplete)
  {
  }

  lemma DescribesBad(data: Bytes, idx: nat, e: ParseError)
    ensures Describes(data, idx, Bad(e), Bad(e))
  {
  }

  method DescribeArray(data: Bytes, idx: nat, depth: nat) returns (r: Parsed<Desc>)
    requires idx < |data|
    ensures Describes(data, idx, r, ParseArray(data[idx..], depth))
    decreases MAX_NESTING_DEPTH + 1 - depth, -1
  {
    hide ParseMany, ParseFrame, Materialize, Inside, Collected;
    if depth >= MAX_NESTING_DEPTH { return Bad(NestingTooDeep); }
    var line := LineLen(data, idx);
    if line.None? { return Incomplete; }
    var len := ParseI64Loop(data[idx + 1..idx + 1 + line.value]);
    if len.None? { return Bad(InvalidArrayLength); }
    var header := line.value + 3;
    if len.value == -1 {
      NullArrayDescribed(data);
      return Done(NullArrayOf, header);
    }
    if len.value < -1 || len.value > MAX_ARRAY_ELEMENTS { return Bad(InvalidArrayLength); }
    DropDrop(data, idx, header);
    ghost var goal := ParseMany(data[idx + header..], len.value, depth + 1);
    var rest := DescribeItems(data, idx + header, len.value, depth + 1);
    match rest {
      case Incomplete => r := Incomplete;
      case Bad(e) => r := Bad(e);
      case Done(descs, used) =>
        r := Done(ArrayOf(descs), header + used);
        ArrayMaterializes(data, idx + r.consumed, descs, goal.value);
    }
  }

  lemma NullArrayDescribed(data: Bytes)
    ensures forall n :: 0 <= n ==> Inside(NullArrayOf, n)
    ensures Materialize(data, NullArrayOf) == NullArray
  {
  }

  lemma ArrayMaterializes(data: Bytes, cur: nat, ds: seq<Desc>, done: seq<Frame>)
    requires Collected(data, cur, ds, done)
    ensures Inside(ArrayOf(ds), cur) && Inside(ArrayOf(ds), |data|) && Materialize(data, ArrayOf(ds)) == Array(done)
  {
    assert Materialize(data, ArrayOf(ds)).items == done;
  }

  /** The array loop: `n` frames, descriptions pushed as the cursor advances. */
  method DescribeItems(data: Bytes, start: nat, n: nat, depth: nat) returns (r: Parsed<seq<Desc>>)
    requires start <= |data|
    ensures var goal := ParseMany(data[start..], n, depth);
      && (goal.Incomplete? <==> r.Incomplete?)
      && (goal.Bad? ==> r == Bad(goal.error))
      && (r.Bad? ==> goal.Bad?)
      && (r.Done? ==>
        goal.Done? && r.consumed == goal.consumed && Collected(data, start + r.consumed, r.value, goal.value))
    decreases MAX_NESTING_DEPTH + 1 - depth, n + 1
  {
    hide ParseFrame, ParseMany, Materialize, Inside, Collected, ManyAhead;
    ghost var goal := ParseMany(data[start..], n, depth);
    var cur := start;
    var descs: seq<Desc> := [];
    ghost var done: seq<Frame> := [];
    AheadStart(data, start, goal);
    for i := 0 to n
      invariant start <= cur <= |data|
      invariant Collected(data, cur, descs, done)
      invariant ManyAhead(goal, done, cur - start, ParseMany(data[cur..], n - i, depth))
    {
      var item, f := DescribeNext(data, start, cur, n - i, depth, goal, descs, done);
      if item.Incomplete? { return Incomplete; }
      if item.Bad? { return Bad(item.error); }
      cur := cur + item.consumed;
      descs := descs + [item.value];
      done := done + [f];
    }
    AheadEnd(data, cur, depth, goal, done, cur - start);
    return Done(descs, cur - start);
  }

  /** One frame of an aggregate, with what it adds to the frames described so far. */
  method DescribeNext(data: Bytes, ghost start: nat, cur: nat, ghost left: nat, depth: nat,
                      ghost goal: Parsed<seq<Frame>>, ghost ds: seq<Desc>, ghost done: seq<Frame>)
    returns (item: Parsed<Desc>, ghost f: Frame)
    requires start <= cur <= |data| && left >= 1 && Collected(data, cur, ds, done)
    requires ManyAhead(goal, done, cur - start, ParseMany(data[cur..], left, depth))
    ensures item.Incomplete? ==> goal == Incomplete
    ensures item.Bad? ==> goal == Bad(item.error)
    ensures item.Done? ==> cur + item.consumed <= |data|
    ensures item.Done? ==> Collected(data, cur + item.consumed, ds + [item.value], done + [f])
    ensures item.Done? ==>
      ManyAhead(goal, done + [f], cur + item.consumed - start, ParseMany(data[cur + item.consumed..], left - 1, depth))
    decreases MAX_NESTING_DEPTH + 1 - depth, 1
  {
    hide ParseFrame, ParseMany, Materialize, Inside, Collected, ManyAhead;
    ManyStep(data, cur, left, depth, goal, done, cur - start);
    item := DescribeFrameAt(data, cur, depth);
    if item.Done? {
      f := ParseFrame(data[cur..], depth).value;
      CollectOne(data, cur, ds, done, item.value, f, cur + item.consumed);
    } else {
      f := Null;
    }
  }

  lemma AheadStart(data: Bytes, start: nat, goal: Parsed<seq<Frame>>)
    requires start <= |data|
    ensures ManyAhead(goal, [], 0, goal) && Collected(data, start, [], [])
  {
    if goal.Done? { assert [] + goal.value == goal.value; }
  }

  lemma AheadEnd(data: Bytes, cur: nat, depth: nat, goal: Parsed<seq<Frame>>, done: seq<Frame>, used: nat)
    requires cur <= |data| && ManyAhead(goal, done, used, ParseMany(data[cur..], 0, depth))
    ensures goal == Done(done, used)
  {
    assert done + [] == done;
  }

  /** Descriptions in pairs, as the map loop pushes them. */
  function DescPairs(ds: seq<Desc>): (r: seq<DescPair>)
    requires |ds| % 2 == 0
    ensures |r| == |ds| / 2
  {
    seq(|ds| / 2, i requires 0 <= i < |ds| / 2 => DescPair(ds[2 * i], ds[2 * i + 1]))
  }

  lemma MapMaterializes(data: Bytes, cur: nat, ds: seq<Desc>, done: seq<Frame>)
    requires |ds| % 2 == 0 && Collected(data, cur, ds, done)
    ensures var d := MapOf(DescPairs(ds));
      Inside(d, cur) && Inside(d, |data|) && Materialize(data, d) == Map(Pairs(done))
  {
    var ps := DescPairs(ds);
    forall i | 0 <= i < |ps|
      ensures PairInside(ps[i], cur) && PairInside(ps[i], |data|) && MaterializePair(data, ps[i]) == Pairs(done)[i]
    {
      assert Inside(ds[2 * i], cur) && Inside(ds[2 * i + 1], cur);
    }
    assert Materialize(data, MapOf(ps)).entries == Pairs(done);
  }

  method DescribeMap(data: Bytes, idx: nat, depth: nat) returns (r: Parsed<Desc>)
    requires idx < |data|
    ensures Describes(data, idx, r, ParseMap(data[idx..], depth))
    decreases MAX_NESTING_DEPTH + 1 - depth, -1
  {
    hide ParseMany, ParseFrame, Materialize, Inside, Collected;
    if depth >= MAX_NESTING_DEPTH { return Bad(NestingTooDeep); }
    var line := LineLen(data, idx);
    if line.None? { return Incomplete; }
    var len := ParseI64Loop(data[idx + 1..idx + 1 + line.value]);
    if len.None? { return Bad(InvalidMapLength); }
    if len.value < 0 || len.value > MAX_MAP_ENTRIES { return Bad(InvalidMapLength); }
    var header := line.value + 3;
    DropDrop(data, idx, header);
    ghost var goal := ParseMany(data[idx + header..], 2 * len.value, depth + 1);
    var rest, ds := DescribeEntries(data, idx + header, len.value, depth + 1);
    match rest {
      case Incomplete => r := Incomplete;
      case Bad(e) => r := Bad(e);
      case Done(pairs, used) =>
        r := Done(MapOf(pairs), header + used);
        MapMaterializes(data, idx + r.consumed, ds, goal.value);
    }
  }

  /** The map loop: a key, then its value, `n` times. */
  method DescribeEntries(data: Bytes, start: nat, n: nat, depth: nat)
    returns (r: Parsed<seq<DescPair>>, ghost ds: seq<Desc>)
    requires start <= |data|
    ensures var goal := ParseMany(data[start..], 2 * n, depth);
      && (goal.Incomplete? <==> r.Incomplete?)
      && (goal.Bad? ==> r == Bad(goal.error))
      && (r.Bad? ==> goal.Bad?)
      && (r.Done? ==> goal.Done? && r.consumed == goal.consumed && Collected(data, start + r.consumed, ds, goal.value))
      && (r.Done? ==> |ds| == 2 * n && r.value == DescPairs(ds))
    decreases MAX_NESTING_DEPTH + 1 - depth, n + 1
  {
    hide ParseFrame, ParseMany, Materialize, Inside, Collected, ManyAhead, DescPairs;
    ghost var goal := ParseMany(data[start..], 2 * n, depth);
    var cur := start;
    var pairs: seq<DescPair> := [];
    ds := [];
    ghost var done: seq<Frame> := [];
    AheadStart(data, start, goal);
    for i := 0 to n
      invariant start <= cur <= |data| && |ds| == 2 * i && pairs == DescPairs(ds)
      invariant Collected(data, cur, ds, done)
      invariant ManyAhead(goal, done, cur - start, ParseMany(data[cur..], 2 * (n - i), depth))
    {
      var key, f := DescribeNext(data, start, cur, 2 * (n - i), depth, goal, ds, done);
      if key.Incomplete? { return Incomplete, ds; }
      if key.Bad? { return Bad(key.error), ds; }
      cur := cur + key.consumed;
      ghost var half := ds + [key.value];
      done := done + [f];

      var val, g := DescribeNext(data, start, cur, 2 * (n - i) - 1, depth, goal, half, done);
      if val.Incomplete? { return Incomplete, ds; }
      if val.Bad? { return Bad(val.error), ds; }
      cur := cur + val.consumed;

      PairsGrow(ds, key.value, val.value);
      pairs := pairs + [DescPair(key.value, val.value)];
      ds := half + [val.value];
      done := done + [g];
    }
    AheadEnd(data, cur, depth, goal, done, cur - start);
    return Done(pairs, cur - start), ds;
  }

  lemma PairsGrow(ds: seq<Desc>, k: Desc, v: Desc)
    requires |ds| % 2 == 0
    ensures DescPairs(ds + [k] + [v]) == DescPairs(ds) + [DescPair(k, v)]
  {
  }

  // ---- the parser -----------------------------------------------------------

  /** Both phases on a buffer: the frame comes off the front, anything else leaves the buffer alone. */
  method Parse(buf: Bytes) returns (r: Parsed<Frame>, rest: Bytes)
    ensures r == ParseFrame(buf, 0)
    ensures rest == if r.Done? then buf[r.consumed..] else buf
  {
    hide ParseFrame;
    assert buf[0..] == buf;
    var d := DescribeFrameAt(buf, 0, 0);
    match d
    case Incomplete => return Incomplete, buf;
    case Bad(e) => return Bad(e), buf;
    case Done(desc, consumed) =>
      MaterializePrefix(buf, consumed, desc);
      var frozen := buf[..consumed];
      return Done(Materialize(frozen, desc), consumed), buf[consumed..];
  }
}
