/**
 * The incremental RESP parser.
 *
 * `ParseFrame` is the meaning of parsing, on the unread bytes. The two-phase
 * parser (describe offsets, then materialize them) is proved against it.
 */
module RespParse {
  import opened Base
  import opened Decimal
  import opened RespFrame
  import opened RespInline

  datatype ParseError =
    | InvalidInteger
    | InvalidBulkLength
    | InvalidArrayLength
    | InvalidMapLength
    | InvalidFrameType(marker: byte)
    | NestingTooDeep
    | InvalidLine
    | UnbalancedQuotes
    | InlineTooLong
    | MissingCrlf

  /** More input needed, a protocol error, or a value with the number of bytes it took. */
  datatype Parsed<+T> = Incomplete | Bad(error: ParseError) | Done(value: T, consumed: nat)

  // ---- the specification ----------------------------------------------------

  /** Position of the first CRLF. */
  function FindCrlf(s: Bytes): (r: Option<nat>)
    ensures r.Some? ==> r.value + 2 <= |s| && s[r.value] == CR && s[r.value + 1] == LF
  {
    if |s| < 2 then None
    else if s[0] == CR && s[1] == LF then Some(0)
    else match FindCrlf(s[1..]) case None => None case Some(i) => Some(i + 1)
  }

  lemma {:induction false} FindCrlfSkip(s: Bytes, k: nat)
    requires k <= |s|
    requires forall i :: 0 <= i < k && i + 1 < |s| ==> !(s[i] == CR && s[i + 1] == LF)
    ensures FindCrlf(s) == match FindCrlf(s[k..]) case None => None case Some(i) => Some(i + k)
  {
    if k == 0 {
      assert s[0..] == s;
    } else if |s| >= 2 {
      FindCrlfSkip(s[1..], k - 1);
      assert s[1..][k - 1..] == s[k..];
    }
  }

  function FindLf(s: Bytes): (r: Option<nat>)
    ensures r.Some? ==> r.value < |s| && s[r.value] == LF && LF !in s[..r.value]
    ensures r.None? ==> LF !in s
  {
    if s == [] then None
    else if s[0] == LF then Some(0)
    else match FindLf(s[1..]) case None => None case Some(i) => Some(i + 1)
  }

  /** The line after the type byte, without its CRLF. */
  function LineOf(s: Bytes): (r: Option<Bytes>)
    requires s != []
    ensures r.Some? ==> |r.value| + 3 <= |s| && s[1..|r.value| + 1] == r.value
  {
    match FindCrlf(s[1..])
    case None => None
    case Some(i) => Some(s[1..][..i])
  }

  function ParseText(s: Bytes, isError: bool): (r: Parsed<Frame>)
    requires s != []
    ensures r.Done? ==> 1 <= r.consumed <= |s|
  {
    match LineOf(s)
    case None => Incomplete
    case Some(line) =>
      if HasBreak(line) then Bad(InvalidLine)
      else Done(if isError then Error(line) else SimpleString(line), |line| + 3)
  }

  function ParseInteger(s: Bytes): (r: Parsed<Frame>)
    requires s != []
    ensures r.Done? ==> 1 <= r.consumed <= |s|
  {
    match LineOf(s)
    case None => Incomplete
    case Some(line) =>
      match ParseI64(line)
      case None => Bad(InvalidInteger)
      case Some(n) => Done(Integer(n), |line| + 3)
  }

  function ParseBulk(s: Bytes): (r: Parsed<Frame>)
    requires s != []
    ensures r.Done? ==> 1 <= r.consumed <= |s|
  {
    match LineOf(s)
    case None => Incomplete
    case Some(line) =>
      match ParseI64(line)
      case None => Bad(InvalidBulkLength)
      case Some(n) =>
        var h := |line| + 3;
        if n == -1 then Done(Bulk(None), h)
        else if n < -1 || n > MAX_BULK_LENGTH then Bad(InvalidBulkLength)
        else if h + n + 2 > |s| then Incomplete
        else if s[h + n] != CR || s[h + n + 1] != LF then Bad(MissingCrlf)
        else Done(Bulk(Some(s[h..h + n])), h + n + 2)
  }

  function ParseNull(s: Bytes): (r: Parsed<Frame>)
    requires s != []
    ensures r.Done? ==> 1 <= r.consumed <= |s|
  {
    if |s| < 3 then Incomplete
    else if s[1] != CR || s[2] != LF then Bad(MissingCrlf)
    else Done(Null, 3)
  }

  function BulkFrames(args: seq<Bytes>): (r: seq<Frame>)
    ensures |r| == |args| && forall i :: 0 <= i < |args| ==> r[i] == Bulk(Some(args[i]))
  {
    seq(|args|, i requires 0 <= i < |args| => Bulk(Some(args[i])))
  }

  /** An inline line without its LF and one optional CR before it. */
  function InlineLine(s: Bytes, newline: nat): Bytes
    requires newline < |s|
  {
    if newline > 0 && s[newline - 1] == CR then s[..newline - 1] else s[..newline]
  }

  function ParseInline(s: Bytes): (r: Parsed<Frame>)
    ensures r.Done? ==> 1 <= r.consumed <= |s|
  {
    match FindLf(s)
    case None => if |s| > MAX_INLINE_LENGTH then Bad(InlineTooLong) else Incomplete
    case Some(newline) =>
      match Split(InlineLine(s, newline))
      case None => Bad(UnbalancedQuotes)
      case Some(args) => Done(Array(BulkFrames(args)), newline + 1)
  }

  /** Adjacent frames as map entries. */
  function Pairs(fs: seq<Frame>): (r: seq<Entry>)
    requires |fs| % 2 == 0
    ensures |r| == |fs| / 2
  {
    seq(|fs| / 2, i requires 0 <= i < |fs| / 2 => Entry(fs[2 * i], fs[2 * i + 1]))
  }

  function ParseFrame(s: Bytes, depth: nat): (r: Parsed<Frame>)
    ensures r.Done? ==> 1 <= r.consumed <= |s|
    decreases MAX_NESTING_DEPTH + 1 - depth, 0
  {
    if s == [] then Incomplete
    else if s[0] == PLUS then ParseText(s, false)
    else if s[0] == MINUS then ParseText(s, true)
    else if s[0] == COLON then ParseInteger(s)
    else if s[0] == DOLLAR then ParseBulk(s)
    else if s[0] == STAR then ParseArray(s, depth)
    else if s[0] == PERCENT then ParseMap(s, depth)
    else if s[0] == UNDERSCORE then ParseNull(s)
    else if depth == 0 then ParseInline(s)
    else Bad(InvalidFrameType(s[0]))
  }

  function ParseArray(s: Bytes, depth: nat): (r: Parsed<Frame>)
    requires s != []
    ensures r.Done? ==> 1 <= r.consumed <= |s|
    decreases MAX_NESTING_DEPTH + 1 - depth, -1
  {
    if depth >= MAX_NESTING_DEPTH then Bad(NestingTooDeep)
    else
      match LineOf(s)
      case None => Incomplete
      case Some(line) =>
        match ParseI64(line)
        case None => Bad(InvalidArrayLength)
        case Some(n) =>
          var h := |line| + 3;
          if n == -1 then Done(NullArray, h)
          else if n < -1 || n > MAX_ARRAY_ELEMENTS then Bad(InvalidArrayLength)
          else
            match ParseMany(s[h..], n, depth + 1)
            case Incomplete => Incomplete
            case Bad(e) => Bad(e)
            case Done(fs, used) => Done(Array(fs), h + used)
  }

  function ParseMap(s: Bytes, depth: nat): (r: Parsed<Frame>)
    requires s != []
    ensures r.Done? ==> 1 <= r.consumed <= |s|
    decreases MAX_NESTING_DEPTH + 1 - depth, -1
  {
    if depth >= MAX_NESTING_DEPTH then Bad(NestingTooDeep)
    else
      match LineOf(s)
      case None => Incomplete
      case Some(line) =>
        match ParseI64(line)
        case None => Bad(InvalidMapLength)
        case Some(n) =>
          var h := |line| + 3;
          if n < 0 || n > MAX_MAP_ENTRIES then Bad(InvalidMapLength)
          else
            match ParseMany(s[h..], 2 * n, depth + 1)
            case Incomplete => Incomplete
            case Bad(e) => Bad(e)
            case Done(fs, used) => Done(Map(Pairs(fs)), h + used)
  }

  /** `n` frames in a row. */
  function ParseMany(s: Bytes, n: nat, depth: nat): (r: Parsed<seq<Frame>>)
    ensures r.Done? ==> |r.value| == n && r.consumed <= |s|
    decreases MAX_NESTING_DEPTH + 1 - depth, n
  {
    if n == 0 then Done([], 0)
    else
      match ParseFrame(s, depth)
      case Incomplete => Incomplete
      case Bad(e) => Bad(e)
      case Done(f, c) =>
        match ParseMany(s[c..], n - 1, depth)
        case Incomplete => Incomplete
        case Bad(e) => Bad(e)
        case Done(fs, used) => Done([f] + fs, c + used)
  }
}
