/**
 * Encoding and parsing are inverse on exactly the encodable frames, and a
 * byte stream means the same frames however it is delivered.
 */
module RespRoundTrip {
  import opened Base
  import opened Decimal
  import opened RespFrame
  import opened RespInline
  import opened RespParse
  import opened RespDescribe
  import opened RespStability
  import opened RespEncode

  // ---- encode, then parse ---------------------------------------------------

  lemma LineReads(marker: byte, line: Bytes, rest: Bytes)
    requires !HasBreak(line)
    ensures LineOf([marker] + line + CRLF + rest) == Some(line)
  {
    var s := [marker] + line + CRLF + rest;
    var u := line + (CRLF + rest);
    assert s[1..] == u;
    FindCrlfSkip(u, |line|);
    assert u[|line|..] == CRLF + rest;
    assert u[..|line|] == line;
  }

  lemma PrintHasNoBreak(n: int)
    ensures !HasBreak(Print(n))
  {
    PrintIsPlain(n);
  }

  lemma HeaderReads(marker: byte, n: nat, rest: Bytes)
    requires n <= I64_MAX
    ensures var s := Header(marker, n) + rest;
      && LineOf(s) == Some(Digits(n)) && ParseI64(Digits(n)) == Some(n)
      && |Header(marker, n)| == |Digits(n)| + 3 && s[|Digits(n)| + 3..] == rest
  {
    PrintHasNoBreak(n);
    LineReads(marker, Digits(n), rest);
    PrintParses(n);
  }

  /** Parsing what was encoded gives the frame back and leaves the trailing bytes. */
  lemma {:induction false} RoundTrip(f: Frame, depth: nat, rest: Bytes)
    requires Encodable(f, depth)
    ensures ParseFrame(Emit(f, Raw) + rest, depth) == Done(f, |Emit(f, Raw)|)
    decreases f, 1
  {
    hide ParseFrame, ParseMany;
    match f
    case SimpleString(text) => TextRoundTrip(text, depth, rest);
    case Error(text) => TextRoundTrip(text, depth, rest);
    case Integer(n) => IntegerRoundTrip(n, depth, rest);
    case Bulk(None) => NullBulkRoundTrip(depth, rest);
    case Bulk(Some(p)) => BulkRoundTrip(p, depth, rest);
    case NullArray => NullArrayRoundTrip(depth, rest);
    case Null => NullRoundTrip(depth, rest);
    case Array(items) =>
      ManyRoundTrip(items, depth + 1, rest);
      ArrayRoundTrip(items, depth, rest);
    case Map(entries) =>
      EntriesRoundTrip(entries, depth + 1, rest);
      MapRoundTrip(entries, depth, rest);
  }

  lemma TextRoundTrip(text: Bytes, depth: nat, rest: Bytes)
    requires !HasBreak(text)
    ensures var f := SimpleString(text); ParseFrame(Emit(f, Raw) + rest, depth) == Done(f, |Emit(f, Raw)|)
    ensures var f := Error(text); ParseFrame(Emit(f, Raw) + rest, depth) == Done(f, |Emit(f, Raw)|)
  {
    LineReads(PLUS, text, rest);
    LineReads(MINUS, text, rest);
  }

  lemma NullRoundTrip(depth: nat, rest: Bytes)
    ensures ParseFrame(NULL + rest, depth) == Done(Null, 3)
  {
  }

  lemma ArrayRoundTrip(items: seq<Frame>, depth: nat, rest: Bytes)
    requires depth < MAX_NESTING_DEPTH && |items| <= MAX_ARRAY_ELEMENTS
    requires ParseMany(EmitAll(items, Raw) + rest, |items|, depth + 1) == Done(items, |EmitAll(items, Raw)|)
    ensures var f := Array(items); ParseFrame(Emit(f, Raw) + rest, depth) == Done(f, |Emit(f, Raw)|)
  {
    hide ParseMany, Digits, ParseI64, LineOf;
    HeaderReads(STAR, |items|, EmitAll(items, Raw) + rest);
    ConcatAssoc(Header(STAR, |items|), EmitAll(items, Raw), rest);
  }

  lemma MapRoundTrip(entries: seq<Entry>, depth: nat, rest: Bytes)
    requires depth < MAX_NESTING_DEPTH && |entries| <= MAX_MAP_ENTRIES
    requires ParseMany(EmitEntries(entries, Raw) + rest, 2 * |entries|, depth + 1)
          == Done(Flat(entries), |EmitEntries(entries, Raw)|)
    ensures var f := Map(entries); ParseFrame(Emit(f, Raw) + rest, depth) == Done(f, |Emit(f, Raw)|)
  {
    hide ParseMany, Digits, ParseI64, LineOf, Flat, Pairs;
    PairsFlat(entries);
    HeaderReads(PERCENT, |entries|, EmitEntries(entries, Raw) + rest);
    ConcatAssoc(Header(PERCENT, |entries|), EmitEntries(entries, Raw), rest);
  }

  lemma IntegerRoundTrip(n: i64, depth: nat, rest: Bytes)
    ensures ParseFrame(Emit(Integer(n), Raw) + rest, depth) == Done(Integer(n), |Emit(Integer(n), Raw)|)
  {
    PrintHasNoBreak(n);
    PrintParses(n);
    LineReads(COLON, Print(n), rest);
  }

  lemma BulkRoundTrip(p: Bytes, depth: nat, rest: Bytes)
    requires |p| <= MAX_BULK_LENGTH
    ensures var f := Bulk(Some(p)); ParseFrame(Emit(f, Raw) + rest, depth) == Done(f, |Emit(f, Raw)|)
  {
    hide Digits, ParseI64, LineOf;
    var h := Header(DOLLAR, |p|);
    var s := h + p + CRLF + rest;
    HeaderReads(DOLLAR, |p|, p + CRLF + rest);
    BulkBytes(h, p, rest);
  }

  lemma BulkBytes(h: Bytes, p: Bytes, rest: Bytes)
    ensures var s := h + p + CRLF + rest;
      && s == h + (p + CRLF + rest) && s[|h|..|h| + |p|] == p
      && s[|h| + |p|] == CR && s[|h| + |p| + 1] == LF
  {
  }

  lemma MinusOneReads(marker: byte, rest: Bytes)
    ensures LineOf([marker, 45, 49, 13, 10] + rest) == Some([45, 49]) && ParseI64([45, 49]) == Some(-1)
  {
    assert [marker] + [45, 49] + CRLF + rest == [marker, 45, 49, 13, 10] + rest;
    LineReads(marker, [45, 49], rest);
    PrintParses(-1);
    assert Print(-1) == [45, 49];
  }

  lemma NullBulkRoundTrip(depth: nat, rest: Bytes)
    ensures ParseFrame(NULL_BULK + rest, depth) == Done(Bulk(None), 5)
  {
    MinusOneReads(DOLLAR, rest);
  }

  lemma NullArrayRoundTrip(depth: nat, rest: Bytes)
    requires depth < MAX_NESTING_DEPTH
    ensures ParseFrame(NULL_ARRAY + rest, depth) == Done(NullArray, 5)
  {
    MinusOneReads(STAR, rest);
  }

  lemma {:induction false} ManyRoundTrip(items: seq<Frame>, depth: nat, rest: Bytes)
    requires AllEncodable(items, depth)
    ensures ParseMany(EmitAll(items, Raw) + rest, |items|, depth) == Done(items, |EmitAll(items, Raw)|)
    decreases items, 0
  {
    hide ParseFrame, Emit, Encodable;
    if items != [] {
      var head, tail := Emit(items[0], Raw), EmitAll(items[1..], Raw);
      RoundTrip(items[0], depth, tail + rest);
      ConcatAssoc(head, tail, rest);
      assert (head + (tail + rest))[|head|..] == tail + rest;
      ManyRoundTrip(items[1..], depth, rest);
      assert [items[0]] + items[1..] == items;
    }
  }

  /** Map entries as the frames in wire order. */
  function Flat(entries: seq<Entry>): (r: seq<Frame>)
    ensures |r| == 2 * |entries|
  {
    if entries == [] then [] else [entries[0].key] + ([entries[0].val] + Flat(entries[1..]))
  }

  lemma {:induction false} PairsFlat(entries: seq<Entry>)
    ensures Pairs(Flat(entries)) == entries
  {
    if entries != [] {
      PairsFlat(entries[1..]);
      var flat := Flat(entries);
      forall i | 0 <= i < |entries| ensures Pairs(flat)[i] == entries[i] {
        if i > 0 {
          assert Pairs(Flat(entries[1..]))[i - 1] == entries[1..][i - 1];
          assert flat[2 * i] == Flat(entries[1..])[2 * (i - 1)];
        }
      }
    }
  }

  lemma ManyOneMore(s: Bytes, t: Bytes, f: Frame, fs: seq<Frame>, n: nat, depth: nat, used: nat)
    requires ParseFrame(s + t, depth) == Done(f, |s|) && ParseMany(t, n, depth) == Done(fs, used)
    ensures ParseMany(s + t, n + 1, depth) == Done([f] + fs, |s| + used)
  {
    hide ParseFrame;
    assert (s + t)[|s|..] == t;
  }

  lemma {:induction false} EntriesRoundTrip(entries: seq<Entry>, depth: nat, rest: Bytes)
    requires EntriesEncodable(entries, depth)
    ensures ParseMany(EmitEntries(entries, Raw) + rest, 2 * |entries|, depth)
         == Done(Flat(entries), |EmitEntries(entries, Raw)|)
    decreases entries, 0
  {
    hide ParseFrame, Emit, Encodable, ParseMany;
    if entries == [] {
      ManyNone(EmitEntries(entries, Raw) + rest, depth);
    } else {
      assert entries[0].key < entries[0] && entries[0].val < entries[0];
      var k, v := Emit(entries[0].key, Raw), Emit(entries[0].val, Raw);
      var tail := EmitEntries(entries[1..], Raw) + rest;
      EntriesRoundTrip(entries[1..], depth, rest);
      RoundTrip(entries[0].val, depth, tail);
      ManyOneMore(v, tail, entries[0].val, Flat(entries[1..]), 2 * |entries[1..]|, depth,
        |EmitEntries(entries[1..], Raw)|);
      RoundTrip(entries[0].key, depth, v + tail);
      ManyOneMore(k, v + tail, entries[0].key, [entries[0].val] + Flat(entries[1..]), 2 * |entries[1..]| + 1, depth,
                  |v| + |EmitEntries(entries[1..], Raw)|);
      assert k + v + EmitEntries(entries[1..], Raw) + rest == k + (v + tail);
    }
  }

  lemma ManyNone(s: Bytes, depth: nat)
    ensures ParseMany(s, 0, depth) == Done([], 0)
  {
  }

  // ---- parse, then encode ---------------------------------------------------

  predicate IsMarker(b: byte) {
    b == PLUS || b == MINUS || b == COLON || b == DOLLAR || b == STAR || b == PERCENT || b == UNDERSCORE
  }

  /** Everything but an inline command parses to an encodable frame. */
  lemma {:induction false} ParsedIsEncodable(s: Bytes, depth: nat)
    requires s != [] && ParseFrame(s, depth).Done? && (IsMarker(s[0]) || depth > 0)
    ensures Encodable(ParseFrame(s, depth).value, depth)
    decreases MAX_NESTING_DEPTH + 1 - depth, 0
  {
    hide ParseMany, ParseI64, AllEncodable, EntriesEncodable;
    if s[0] == STAR || s[0] == PERCENT {
      var line := LineOf(s).value;
      var n := ParseI64(line).value;
      if n >= 0 {
        var count := if s[0] == STAR then n else 2 * n;
        ManyParsedEncodable(s[|line| + 3..], count, depth + 1);
        if s[0] == PERCENT {
          PairsEncodable(ParseMany(s[|line| + 3..], count, depth + 1).value, depth + 1);
        }
      }
    }
  }

  lemma {:induction false} ManyParsedEncodable(s: Bytes, n: nat, depth: nat)
    requires depth > 0 && ParseMany(s, n, depth).Done?
    ensures AllEncodable(ParseMany(s, n, depth).value, depth)
    decreases MAX_NESTING_DEPTH + 1 - depth, n
  {
    hide ParseFrame, Encodable;
    if n > 0 {
      FrameNeedsInput(s, depth);
      ParsedIsEncodable(s, depth);
      var p := ParseFrame(s, depth);
      ManyParsedEncodable(s[p.consumed..], n - 1, depth);
      var rest := ParseMany(s[p.consumed..], n - 1, depth).value;
      assert ([p.value] + rest)[1..] == rest;
    }
  }

  lemma FrameNeedsInput(s: Bytes, depth: nat)
    requires ParseFrame(s, depth).Done?
    ensures s != []
  {
  }

  lemma {:induction false} PairsEncodable(fs: seq<Frame>, depth: nat)
    requires |fs| % 2 == 0 && AllEncodable(fs, depth)
    ensures EntriesEncodable(Pairs(fs), depth)
  {
    hide Encodable;
    if fs != [] {
      assert fs[1..][0] == fs[1] && fs[1..][1..] == fs[2..];
      PairsEncodable(fs[2..], depth);
      assert Pairs(fs)[1..] == Pairs(fs[2..]);
    }
  }

  /** Frames round-trip through the wire exactly when they are encodable. */
  lemma RoundTripsIffEncodable(f: Frame, rest: Bytes)
    ensures ParseFrame(Emit(f, Raw) + rest, 0) == Done(f, |Emit(f, Raw)|) <==> Encodable(f, 0)
  {
    var s := Emit(f, Raw) + rest;
    if Encodable(f, 0) {
      RoundTrip(f, 0, rest);
    } else if ParseFrame(s, 0) == Done(f, |Emit(f, Raw)|) {
      FrameNeedsInput(s, 0);
      if IsMarker(s[0]) {
        ParsedIsEncodable(s, 0);
      } else {
        InlineGivesArray(s);
        ArrayStartsWithStar(f, rest);
      }
    }
  }

  lemma InlineGivesArray(s: Bytes)
    requires s != [] && !IsMarker(s[0]) && ParseFrame(s, 0).Done?
    ensures ParseFrame(s, 0).value.Array?
    ensures AllBulks(ParseFrame(s, 0).value.items)
    ensures ParseFrame(s, 0) == ParseInline(s)
  {
  }

  lemma ArrayStartsWithStar(f: Frame, rest: Bytes)
    requires f.Array?
    ensures Emit(f, Raw) != [] && (Emit(f, Raw) + rest)[0] == STAR
  {
  }

  predicate AllBulks(items: seq<Frame>) {
    forall i :: 0 <= i < |items| ==> items[i].Bulk? && items[i].payload.Some?
  }

  /** An inline command whose arguments also fit an array of bulk strings. */
  predicate InlineFits(items: seq<Frame>)
    requires AllBulks(items)
  {
    |items| <= MAX_ARRAY_ELEMENTS && forall i :: 0 <= i < |items| ==> |items[i].payload.value| <= MAX_BULK_LENGTH
  }

  lemma {:induction false} BulksEncodable(items: seq<Frame>, depth: nat)
    requires AllBulks(items)
    ensures AllEncodable(items, depth)
       <==> forall i :: 0 <= i < |items| ==> |items[i].payload.value| <= MAX_BULK_LENGTH
  {
    if items != [] {
      assert forall i :: 0 <= i < |items[1..]| ==> items[1..][i] == items[i + 1];
      BulksEncodable(items[1..], depth);
      if forall i :: 0 <= i < |items[1..]| ==> |items[1..][i].payload.value| <= MAX_BULK_LENGTH {
        assert forall i :: 1 <= i < |items| ==> items[i] == items[1..][i - 1];
      }
    }
  }

  /**
   * Re-encoding a parsed frame parses back to it exactly when it did not come
   * from an inline line with more or longer arguments than an array may hold.
   */
  lemma ReencodesIffWithinLimits(s: Bytes)
    requires ParseFrame(s, 0).Done?
    ensures s != []
    ensures !IsMarker(s[0]) ==> ParseFrame(s, 0).value.Array? && AllBulks(ParseFrame(s, 0).value.items)
    ensures var f := ParseFrame(s, 0).value;
      ParseFrame(Emit(f, Raw), 0) == Done(f, |Emit(f, Raw)|)
      <==> (IsMarker(s[0]) || InlineFits(f.items))
  {
    FrameNeedsInput(s, 0);
    var f := ParseFrame(s, 0).value;
    RoundTripsIffEncodable(f, []);
    assert Emit(f, Raw) + [] == Emit(f, Raw);
    if IsMarker(s[0]) {
      ParsedIsEncodable(s, 0);
    } else {
      InlineGivesArray(s);
      BulksEncodable(f.items, 1);
    }
  }

  /** `n` one-byte arguments separated by spaces. */
  function ManyArgs(n: nat): Bytes {
    if n == 0 then [] else [97, 32] + ManyArgs(n - 1)
  }

  function Ones(n: nat): (r: seq<Bytes>)
    ensures |r| == n && forall i :: 0 <= i < n ==> r[i] == [97]
  {
    seq(n, _ => [97])
  }

  lemma {:induction false} ManyArgsSplit(n: nat)
    ensures Split(ManyArgs(n)) == Some(Ones(n))
    ensures LF !in ManyArgs(n) && CR !in ManyArgs(n) && |ManyArgs(n)| == 2 * n
  {
    if n > 0 {
      var s := ManyArgs(n);
      ManyArgsSplit(n - 1);
      var spaced := [32] + ManyArgs(n - 1);
      assert s[1..] == spaced;
      assert spaced[1..] == ManyArgs(n - 1);
      assert SkipSpace(s) == s;
      assert MoveAt(s, Plain) == Go(1, [97], Plain);
      assert MoveAt(spaced, Plain) == Finish(0);
      assert TokenFrom(spaced, [97], Plain) == Token([97], spaced);
      assert [] + [97] == [97];
      assert TokenFrom(s, [], Plain) == TokenFrom(spaced, [97], Plain);
      assert Split(spaced) == Split(ManyArgs(n - 1)) by { assert SkipSpace(spaced) == SkipSpace(ManyArgs(n - 1)); }
      assert [[97]] + Ones(n - 1) == Ones(n);
    }
  }

  /** A valid request the round-trip promise does not cover: one inline line with 1048577 arguments. */
  lemma OversizedInlineDoesNotRoundTrip()
    ensures var s := ManyArgs(MAX_ARRAY_ELEMENTS + 1) + [LF];
      var p := ParseFrame(s, 0);
      && p == Done(Array(BulkFrames(Ones(MAX_ARRAY_ELEMENTS + 1))), |s|)
      && ParseFrame(Emit(p.value, Raw), 0) != Done(p.value, |Emit(p.value, Raw)|)
  {
    hide ManyArgs;
    var n := MAX_ARRAY_ELEMENTS + 1;
    InlineParses(n);
    var s := ManyArgs(n) + [LF];
    ReencodesIffWithinLimits(s);
  }

  lemma InlineParses(n: nat)
    requires n >= 1
    ensures var s := ManyArgs(n) + [LF];
      s[0] == 97 && ParseFrame(s, 0) == Done(Array(BulkFrames(Ones(n))), |s|)
  {
    var args := ManyArgs(n);
    var s := args + [LF];
    assert args[0] == 97;
    LetterIsInline(s);
    ManyArgsSplit(n);
    InlineWholeLine(args);
  }

  /** The one outcome later bytes can revise: the same line is refused when cut before its LF, accepted whole. */
  lemma CutLineIsRevised()
    ensures var s := ManyArgs(MAX_INLINE_LENGTH);
      ParseFrame(s, 0) == Bad(InlineTooLong) && ParseFrame(s + [LF], 0).Done?
  {
    hide ManyArgs;
    InlineParses(MAX_INLINE_LENGTH);
    ManyArgsSplit(MAX_INLINE_LENGTH);
    var s := ManyArgs(MAX_INLINE_LENGTH);
    assert s[0] == (s + [LF])[0];
    LetterIsInline(s);
  }

  lemma LetterIsInline(s: Bytes)
    requires s != [] && s[0] == 97
    ensures ParseFrame(s, 0) == ParseInline(s)
  {
  }

  lemma InlineWholeLine(args: Bytes)
    requires LF !in args && CR !in args && Split(args).Some?
    ensures ParseInline(args + [LF]) == Done(Array(BulkFrames(Split(args).value)), |args| + 1)
  {
    hide Split;
    var s := args + [LF];
    FirstLf(s, |args|);
    if |args| > 0 { assert s[|args| - 1] in args; }
    assert InlineLine(s, |args|) == args;
  }

  // ---- projected replies ----------------------------------------------------

  /** A negotiated reply parses to the projection of the logical reply exactly when that is encodable. */
  lemma ProjectionParses(f: Frame, v: Version, rest: Bytes)
    ensures ParseFrame(Emit(f, v) + rest, 0) == Done(Project(f, v), |Emit(f, v)|) <==> Encodable(Project(f, v), 0)
  {
    hide ParseFrame, Encodable;
    ProjectionKeepsBytes(f, v);
    RoundTripsIffEncodable(Project(f, v), rest);
  }

  /**
   * Replies within the size and nesting limits, seen from level `depth`: any line text, pushes included, but
   * no sequence and no pinned version.
   */
  predicate Presentable(f: Frame, depth: nat)
    decreases f, 1
  {
    match f
    case Bulk(Some(p)) => |p| <= MAX_BULK_LENGTH
    case Array(items) =>
      depth < MAX_NESTING_DEPTH && |items| <= MAX_ARRAY_ELEMENTS && AllPresentable(items, depth + 1)
    case Push(items) =>
      depth < MAX_NESTING_DEPTH && |items| <= MAX_ARRAY_ELEMENTS && AllPresentable(items, depth + 1)
    case Map(entries) =>
      depth < MAX_NESTING_DEPTH && |entries| <= MAX_MAP_ENTRIES && EntriesPresentable(entries, depth + 1)
    case NullArray => depth < MAX_NESTING_DEPTH
    case Sequence(_) => false
    case Versioned(_, _) => false
    case _ => true
  }

  predicate AllPresentable(items: seq<Frame>, depth: nat)
    decreases items, 0
  {
    items == [] || (Presentable(items[0], depth) && AllPresentable(items[1..], depth))
  }

  predicate EntriesPresentable(entries: seq<Entry>, depth: nat)
    decreases entries, 0
  {
    if entries == [] then true
    else
      assert entries[0].key < entries[0] && entries[0].val < entries[0];
      Presentable(entries[0].key, depth) && Presentable(entries[0].val, depth)
      && EntriesPresentable(entries[1..], depth)
  }

  /** Projecting to RESP2 stays within the limits: a flattened map is just small enough for an array. */
  lemma {:induction false} PresentableProjects(f: Frame, depth: nat)
    requires Presentable(f, depth)
    ensures Encodable(Project(f, Resp2), depth)
    decreases f, 1
  {
    match f
    case Array(items) => AllPresentableProject(items, depth + 1);
    case Push(items) => AllPresentableProject(items, depth + 1);
    case Map(entries) => EntriesPresentableProject(entries, depth + 1);
    case _ =>
  }

  lemma {:induction false} AllPresentableProject(items: seq<Frame>, depth: nat)
    requires AllPresentable(items, depth)
    ensures AllEncodable(ProjectAll(items, Resp2), depth)
    decreases items, 0
  {
    if items != [] {
      PresentableProjects(items[0], depth);
      AllPresentableProject(items[1..], depth);
      assert ProjectAll(items, Resp2)[1..] == ProjectAll(items[1..], Resp2);
    }
  }

  lemma {:induction false} EntriesPresentableProject(entries: seq<Entry>, depth: nat)
    requires EntriesPresentable(entries, depth)
    ensures AllEncodable(ProjectFlat(entries, Resp2), depth)
    decreases entries, 0
  {
    if entries != [] {
      assert entries[0].key < entries[0] && entries[0].val < entries[0];
      PresentableProjects(entries[0].key, depth);
      PresentableProjects(entries[0].val, depth);
      EntriesPresentableProject(entries[1..], depth);
      var flat := ProjectFlat(entries, Resp2);
      assert flat[1..][1..] == ProjectFlat(entries[1..], Resp2);
    }
  }

  /** A RESP2 client reads every presentable reply as its projection. */
  lemma Resp2ClientReads(f: Frame, rest: Bytes)
    requires Presentable(f, 0)
    ensures ParseFrame(Emit(f, Resp2) + rest, 0) == Done(Project(f, Resp2), |Emit(f, Resp2)|)
  {
    hide ParseFrame, Encodable;
    PresentableProjects(f, 0);
    ProjectionParses(f, Resp2, rest);
  }

  // ---- streams --------------------------------------------------------------

  /** What draining a buffer yields: whole frames, the undecided rest, and the error that stopped it. */
  datatype Drained = Drained(frames: seq<Frame>, rest: Bytes, error: Option<ParseError>)

  function Drain(s: Bytes): Drained
    decreases |s|
  {
    match ParseFrame(s, 0)
    case Incomplete => Drained([], s, None)
    case Bad(e) => Drained([], s, Some(e))
    case Done(f, c) =>
      var d := Drain(s[c..]);
      Drained([f] + d.frames, d.rest, d.error)
  }

  /** A connection: each chunk is appended to the undecided rest and drained; an error ends it. */
  function Feed(st: Drained, chunks: seq<Bytes>): Drained
    decreases |chunks|
  {
    if chunks == [] || st.error.Some? then st
    else
      var d := Drain(st.rest + chunks[0]);
      Feed(Drained(st.frames + d.frames, d.rest, d.error), chunks[1..])
  }

  /** An inline line whose LF lies beyond the length limit. */
  predicate LongLine(s: Bytes) {
    s != [] && !IsMarker(s[0]) && FindLf(s).Some? && FindLf(s).value > MAX_INLINE_LENGTH
  }

  /** No frame boundary of the stream starts a long line. */
  predicate Calm(s: Bytes)
    decreases |s|
  {
    !LongLine(s) && (ParseFrame(s, 0).Done? ==> Calm(s[ParseFrame(s, 0).consumed..]))
  }

  ghost predicate NoLongCut(s: Bytes) {
    forall k :: 0 <= k <= |s| ==> ParseFrame(s[..k], 0) != Bad(InlineTooLong)
  }

  /** Long lines are exactly the input that is overlong when cut somewhere but not when whole. */
  lemma LongLineIffCut(s: Bytes)
    ensures LongLine(s) <==> ParseFrame(s, 0) != Bad(InlineTooLong) && !NoLongCut(s)
  {
    hide ParseFrame, ParseInline;
    if LongLine(s) {
      var k := FindLf(s).value;
      BeforeLf(s, k);
      if ParseFrame(s, 0) == Bad(InlineTooLong) { NoLfWhenTooLong(s); }
    } else if ParseFrame(s, 0) != Bad(InlineTooLong) {
      forall k | 0 <= k <= |s| ensures ParseFrame(s[..k], 0) != Bad(InlineTooLong) {
        if ParseFrame(s[..k], 0) == Bad(InlineTooLong) { CutIsLong(s, k); }
      }
    }
  }

  lemma CutIsLong(s: Bytes, k: nat)
    requires k <= |s| && ParseFrame(s[..k], 0) == Bad(InlineTooLong)
    ensures LongLine(s) || ParseFrame(s, 0) == Bad(InlineTooLong)
  {
    hide ParseFrame;
    NoLfWhenTooLong(s[..k]);
    assert s[..k][0] == s[0];
    if FindLf(s).None? { NoLfIsTooLong(s); } else { LfBeyond(s, k); }
  }

  lemma BeforeLf(s: Bytes, k: nat)
    requires LongLine(s) && k == FindLf(s).value
    ensures ParseFrame(s[..k], 0) == Bad(InlineTooLong)
  {
    assert s[..k][0] == s[0];
    NoLf(s[..k]);
  }

  lemma {:induction false} NoLf(s: Bytes)
    requires LF !in s
    ensures FindLf(s).None?
  {
    if s != [] {
      assert s[0] in s;
      NoLf(s[1..]);
    }
  }

  lemma NoLfIsTooLong(s: Bytes)
    requires |s| > MAX_INLINE_LENGTH && !IsMarker(s[0]) && FindLf(s).None?
    ensures ParseFrame(s, 0) == Bad(InlineTooLong)
  {
  }

  /** An LF that is not before the cut comes after it. */
  lemma LfBeyond(s: Bytes, k: nat)
    requires k <= |s| && LF !in s[..k] && FindLf(s).Some?
    ensures FindLf(s).value >= k
  {
    forall i | 0 <= i < k ensures s[i] != LF { assert s[..k][i] in s[..k]; }
  }

  /** Draining a prefix first and the remainder later is draining at once. */
  lemma {:induction false} DrainPrefix(s: Bytes, t: Bytes)
    requires Calm(s + t)
    ensures var d, whole := Drain(s), Drain(s + t);
      && (d.error.Some? ==> whole.frames == d.frames && whole.error == d.error)
      && (d.error.None? ==> Calm(d.rest + t))
      && (d.error.None? ==>
            whole == Drained(d.frames + Drain(d.rest + t).frames, Drain(d.rest + t).rest, Drain(d.rest + t).error))
    decreases |s|
  {
    hide ParseFrame, LongLine;
    LongLineIffCut(s + t);
    assert (s + t)[..|s|] == s;
    var p := ParseFrame(s, 0);
    if p.Incomplete? {
      assert [] + Drain(s + t).frames == Drain(s + t).frames;
    } else if p != Bad(InlineTooLong) {
      FrameStable(s, t, 0);
      if p.Done? {
        assert (s + t)[p.consumed..] == s[p.consumed..] + t;
        DrainPrefix(s[p.consumed..], t);
        var d := Drain(s[p.consumed..]);
        if d.error.None? { ConcatAssoc([p.value], d.frames, Drain(d.rest + t).frames); }
      }
    }
  }

  /** A connection that was fed the chunks ends as one that was fed everything at once. */
  ghost predicate SameOutcome(st: Drained, chunks: seq<Bytes>) {
    var fed, whole := Feed(st, chunks), Drain(st.rest + Flatten(chunks));
    && fed.frames == st.frames + whole.frames && fed.error == whole.error
    && (fed.error.None? ==> fed.rest == whole.rest)
  }

  /** Any way of cutting a calm stream into chunks yields the same frames, error and leftover. */
  lemma {:induction false} AnySplitSameFrames(st: Drained, chunks: seq<Bytes>)
    requires st.error.None? && Calm(st.rest + Flatten(chunks)) && Drain(st.rest) == Drained([], st.rest, None)
    ensures SameOutcome(st, chunks)
    decreases |chunks|
  {
    hide Drain, Calm;
    if chunks == [] {
      assert st.rest + [] == st.rest;
      assert st.frames + [] == st.frames;
    } else {
      var x, tail := st.rest + chunks[0], Flatten(chunks[1..]);
      ConcatAssoc(st.rest, chunks[0], tail);
      DrainPrefix(x, tail);
      var d := Drain(x);
      assert Feed(st, chunks) == Feed(Drained(st.frames + d.frames, d.rest, d.error), chunks[1..]);
      if d.error.None? {
        RestIsUndecided(x);
        AnySplitSameFrames(Drained(st.frames + d.frames, d.rest, None), chunks[1..]);
        ConcatAssoc(st.frames, d.frames, Drain(d.rest + tail).frames);
      }
    }
  }

  /** Where a stream that is not calm must be cut to change its outcome. */
  lemma {:induction false} RestlessCut(s: Bytes) returns (k: nat)
    requires !Calm(s)
    ensures k <= |s| && Drain(s[..k]).error == Some(InlineTooLong)
    ensures Drain(s[..k]).frames != Drain(s).frames || Drain(s).error != Some(InlineTooLong)
    decreases |s|
  {
    hide ParseFrame, LongLine;
    LongLineIffCut(s);
    var p := ParseFrame(s, 0);
    if p != Bad(InlineTooLong) && !NoLongCut(s) {
      k :| 0 <= k <= |s| && ParseFrame(s[..k], 0) == Bad(InlineTooLong);
    } else {
      var j := RestlessCut(s[p.consumed..]);
      k := p.consumed + j;
      FrameLocal(s, k, 0);
      assert s[..k][p.consumed..] == s[p.consumed..][..j];
      var cut, rest := Drain(s[p.consumed..][..j]), Drain(s[p.consumed..]);
      assert ([p.value] + cut.frames)[1..] == cut.frames && ([p.value] + rest.frames)[1..] == rest.frames;
    }
  }

  /** The outcome of a stream is the same for every way of cutting it exactly when the stream is calm. */
  lemma SplitIndependentIffCalm(s: Bytes)
    ensures (forall chunks :: Flatten(chunks) == s ==> SameOutcome(Drained([], [], None), chunks)) <==> Calm(s)
  {
    hide ParseFrame, Drain;
    var start := Drained([], [], None);
    assert [] + s == s;
    if Calm(s) {
      assert Drain([]) == start by { EmptyDrains(); }
      forall chunks | Flatten(chunks) == s ensures SameOutcome(start, chunks) {
        AnySplitSameFrames(start, chunks);
      }
    } else {
      var k := RestlessCut(s);
      var chunks := [s[..k], s[k..]];
      FlattenTwo(s[..k], s[k..]);
      assert s[..k] + s[k..] == s;
      var d := Drain(s[..k]);
      assert [] + s[..k] == s[..k] && [] + d.frames == d.frames;
      assert Feed(start, chunks) == Feed(Drained(d.frames, d.rest, d.error), chunks[1..]) == d;
      assert !SameOutcome(start, chunks);
    }
  }

  lemma EmptyDrains()
    ensures Drain([]) == Drained([], [], None)
  {
    EmptyIncomplete();
  }

  lemma FlattenTwo(a: Bytes, b: Bytes)
    ensures Flatten([a, b]) == a + b
  {
    assert [a, b][1..] == [b] && [b][1..] == [];
    assert Flatten([b]) == b + [];
  }

  lemma {:induction false} RestIsUndecided(s: Bytes)
    requires Drain(s).error.None?
    ensures Drain(Drain(s).rest) == Drained([], Drain(s).rest, None)
    decreases |s|
  {
    hide ParseFrame;
    var p := ParseFrame(s, 0);
    if p.Done? { RestIsUndecided(s[p.consumed..]); }
  }

  lemma {:induction false} EncodedStreamDrains(fs: seq<Frame>)
    requires AllEncodable(fs, 0)
    ensures Drain(EmitAll(fs, Raw)) == Drained(fs, [], None) && Calm(EmitAll(fs, Raw))
    decreases |fs|
  {
    hide Emit, Encodable;
    if fs == [] {
      EmptyIncomplete();
    } else {
      var head, tail := Emit(fs[0], Raw), EmitAll(fs[1..], Raw);
      var s := head + tail;
      RoundTrip(fs[0], 0, tail);
      assert s[|head|..] == tail;
      EncodedStreamDrains(fs[1..]);
      assert [fs[0]] + fs[1..] == fs;
      EncodedNeverTooLong(fs[0], tail);
    }
  }

  lemma EmptyIncomplete()
    ensures ParseFrame([], 0) == Incomplete
  {
  }

  lemma EncodedNeverTooLong(f: Frame, tail: Bytes)
    requires Encodable(f, 0)
    ensures forall k :: 0 <= k <= |Emit(f, Raw) + tail| ==>
      ParseFrame((Emit(f, Raw) + tail)[..k], 0) != Bad(InlineTooLong)
  {
    var s := Emit(f, Raw) + tail;
    EncodedStartsWithMarker(f, tail);
    forall k | 0 <= k <= |s| ensures ParseFrame(s[..k], 0) != Bad(InlineTooLong) {
      if ParseFrame(s[..k], 0) == Bad(InlineTooLong) { NoLfWhenTooLong(s[..k]); }
    }
  }

  lemma EncodedStartsWithMarker(f: Frame, tail: Bytes)
    requires Encodable(f, 0)
    ensures Emit(f, Raw) != [] && IsMarker((Emit(f, Raw) + tail)[0])
  {
  }

  /** Every proper prefix of an encoding is still waiting for input. */
  lemma EncodedPrefixIncomplete(f: Frame, k: nat)
    requires Encodable(f, 0) && k < |Emit(f, Raw)|
    ensures ParseFrame(Emit(f, Raw)[..k], 0) == Incomplete
  {
    hide ParseFrame, Encodable, Emit;
    var s := Emit(f, Raw);
    RoundTrip(f, 0, []);
    EncodedNeverTooLong(f, []);
    assert s + [] == s;
    ProperPrefixUndecided(s, k);
  }

  /** Pipelined replies delivered in any pieces arrive as exactly the frames that were sent. */
  lemma PipelineArrives(fs: seq<Frame>, chunks: seq<Bytes>)
    requires AllEncodable(fs, 0) && Flatten(chunks) == EmitAll(fs, Raw)
    ensures Feed(Drained([], [], None), chunks) == Drained(fs, [], None)
  {
    hide ParseFrame;
    EncodedStreamDrains(fs);
    EmptyIncomplete();
    assert [] + Flatten(chunks) == Flatten(chunks);
    AnySplitSameFrames(Drained([], [], None), chunks);
    assert [] + fs == fs;
  }

  /** A parsed frame whose encoding the parser accepts again: not an inline command too large for an array. */
  predicate FrameFits(marker: byte, f: Frame) {
    IsMarker(marker) || (f.Array? && AllBulks(f.items) && InlineFits(f.items))
  }

  predicate AllFit(s: Bytes)
    decreases |s|
  {
    match ParseFrame(s, 0)
    case Done(f, c) => FrameFits(s[0], f) && AllFit(s[c..])
    case _ => true
  }

  /**
   * The fuzzing drain loop: it ends, finds the stream's frames and leaves its undecided rest, each frame taking at
   * least one byte. All its round-trip checks pass exactly when every frame fits.
   */
  method DrainAndRoundtrip(data: Bytes) returns (frames: seq<Frame>, rest: Bytes, passed: bool)
    ensures frames == Drain(data).frames && rest == Drain(data).rest
    ensures |frames| + |rest| <= |data|
    ensures passed <==> AllFit(data)
  {
    hide ParseFrame, Emit, FrameFits;
    frames, rest, passed := [], data, true;
    assert [] + Drain(data).frames == Drain(data).frames;
    while true
      invariant frames + Drain(rest).frames == Drain(data).frames && Drain(rest).rest == Drain(data).rest
      invariant |frames| + |rest| <= |data|
      invariant passed && AllFit(rest) <==> AllFit(data)
      decreases |rest|
    {
      var r, left := Parse(rest);
      if !r.Done? {
        assert frames + [] == frames;
        return;
      }
      ConcatAssoc(frames, [r.value], Drain(left).frames);
      var encoded := EncodeInto(r.value, []);
      assert encoded == Emit(r.value, Raw);
      var again, _ := Parse(encoded);
      FitsIffReparses(rest);
      if !(again.Done? && again.value == r.value) {
        passed := false;
      }
      rest := left;
      frames := frames + [r.value];
    }
  }

  lemma FitsIffReparses(s: Bytes)
    requires ParseFrame(s, 0).Done?
    ensures s != []
    ensures var f := ParseFrame(s, 0).value;
      var again := ParseFrame(Emit(f, Raw), 0);
      again.Done? && again.value == f <==> FrameFits(s[0], f)
  {
    hide ParseFrame;
    ReencodesIffWithinLimits(s);
    var f := ParseFrame(s, 0).value;
    var again := ParseFrame(Emit(f, Raw), 0);
    if again.Done? && again.value == f {
      var e := Emit(f, Raw);
      assert e + [] == e;
      FrameNeedsInput(e, 0);
      if IsMarker(e[0]) {
        ParsedIsEncodable(e, 0);
      } else {
        InlineGivesArray(e);
        ArrayStartsWithStar(f, []);
      }
      RoundTripsIffEncodable(f, []);
    }
  }
}
