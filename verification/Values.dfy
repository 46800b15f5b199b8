/** Stored values, their memory estimate, and the compact encodings of strings and sets. */
module Values {
  import opened Base
  import opened Decimal
  import opened Score

  datatype StreamId = StreamId(ms: int, seq': int)
  datatype StreamEntry = StreamEntry(id: StreamId, fields: seq<(Bytes, Bytes)>)
  datatype Consumer = Consumer(name: Bytes, pending: seq<StreamId>)
  datatype Group = Group(name: Bytes, consumers: seq<Consumer>, pending: seq<Bytes>)

  /** A value's payload; hash tables appear as the list their iteration gives. */
  datatype ValueData =
    | String(bytes: Bytes)
    | StringInt(n: i64)
    | Hash(fields: seq<(Bytes, Bytes)>)
    | List(items: seq<Bytes>)
    | Set(members: seq<Bytes>)
    | SetInt(ints: seq<i64>)
    | SortedSet(entries: seq<Entry>)
    | Stream(log: seq<StreamEntry>, groups: seq<Group>)

  datatype Encoding = RawEncoding | IntEncoding | QuickList | HashTable | IntSet | SkipList | StreamTree

  datatype Stored = Stored(data: ValueData, expireAt: int, encoding: Encoding, lru: nat) {
    /** The deadline, when one is set; zero and negative fields mean none. */
    function Deadline(): Option<int> {
      if expireAt > 0 then Some(expireAt) else None
    }

    predicate IsString() {
      data.String? || data.StringInt?
    }

    predicate ExpiredAt(now: int) {
      Deadline().Some? && expireAt <= now
    }
  }

  // ---- memory estimate ------------------------------------------------------

  function SumLen(items: seq<Bytes>, each: nat): nat {
    if items == [] then 0 else |items[0]| + each + SumLen(items[1..], each)
  }

  function SumPairs(pairs: seq<(Bytes, Bytes)>, each: nat): nat {
    if pairs == [] then 0 else |pairs[0].0| + |pairs[0].1| + each + SumPairs(pairs[1..], each)
  }

  function SumMembers(entries: seq<Entry>): nat {
    if entries == [] then 0 else |entries[0].member| + 128 + SumMembers(entries[1..])
  }

  function SumLog(log: seq<StreamEntry>): nat {
    if log == [] then 0 else 32 + SumPairs(log[0].fields, 48) + SumLog(log[1..])
  }

  function SumConsumers(cs: seq<Consumer>): nat {
    if cs == [] then 0 else 96 + |cs[0].name| + 16 * |cs[0].pending| + SumConsumers(cs[1..])
  }

  function SumGroups(groups: seq<Group>): nat {
    if groups == [] then 0
    else
      256 + |groups[0].name| + SumConsumers(groups[0].consumers) + SumLen(groups[0].pending, 80)
      + SumGroups(groups[1..])
  }

  function ValueSize(data: ValueData): nat {
    match data
    case String(s) => |s|
    case StringInt(_) => 8
    case Hash(fields) => SumPairs(fields, 64)
    case List(items) => SumLen(items, 24)
    case Set(members) => SumLen(members, 48)
    case SetInt(ints) => |ints| * 8
    case SortedSet(entries) => SumMembers(entries)
    case Stream(log, groups) => SumLog(log) + SumGroups(groups)
  }

  const ENTRY_OVERHEAD: nat := 64
  const STORED_SIZE: nat := 24

  function Estimate(key: Bytes, value: Stored): nat {
    ENTRY_OVERHEAD + |key| + ValueSize(value.data) + STORED_SIZE
  }

  // ---- integer-encoded strings ----------------------------------------------

  const MAX_INT_STRING_LEN: nat := 20

  /** The syntactic recogniser: rejects forms that would not print back. */
  function ParseIntString(s: Bytes): Option<int> {
    if s == [] || |s| > MAX_INT_STRING_LEN then None
    else if s[0] == PLUS || (|s| > 1 && s[0] == 48) || (|s| > 1 && s[0] == MINUS && s[1] == 48) then None
    else ParseI64(s)
  }

  /** The print-back recogniser used for set members. */
  function PrintsBack(s: Bytes): Option<int> {
    match ParseI64(s)
    case None => None
    case Some(n) => if Print(n) == s then Some(n) else None
  }

  /** Both recognisers accept exactly the printed forms, with the printed value. */
  lemma RecognisersAgree(s: Bytes)
    ensures ParseIntString(s) == PrintsBack(s)
    ensures forall n: i64 :: PrintsBack(s) == Some(n) <==> s == Print(n)
  {
    forall n: i64 ensures PrintsBack(s) == Some(n) <==> s == Print(n) {
      if s == Print(n) { PrintParses(n); }
    }
    match ParseI64(s) {
      case None =>
      case Some(n) =>
        if Print(n) == s { PrintedIsAccepted(n); } else { UnprintedIsRejected(s); }
    }
  }

  lemma PrintedIsAccepted(n: i64)
    ensures ParseIntString(Print(n)) == Some(n)
  {
    PrintLength(n);
    PrintParses(n);
    var m: int := n;
    var digits := Digits(if m < 0 then -m else m);
    DigitsNoLeadingZero(if m < 0 then -m else m);
    DigitsAreDigits(if m < 0 then -m else m);
    assert IsDigit(digits[0]);
  }

  lemma UnprintedIsRejected(s: Bytes)
    requires ParseI64(s).Some? && Print(ParseI64(s).value) != s
    ensures ParseIntString(s) == None
  {
    if ParseIntString(s).Some? {
      var body := Unsigned(s);
      DigitsUnique(body);
      if s[0] == MINUS {
        assert s == [MINUS] + body;
        DigitsNoLeadingZero(Value(body));
      }
    }
  }

  function StringValue(bytes: Bytes, expireAt: int): Stored {
    match ParseIntString(bytes)
    case Some(n) => Stored(StringInt(n), expireAt, IntEncoding, 0)
    case None => Stored(String(bytes), expireAt, RawEncoding, 0)
  }

  function StringBytes(data: ValueData): Option<Bytes> {
    match data
    case String(bytes) => Some(bytes)
    case StringInt(n) => Some(Print(n))
    case _ => None
  }

  /** Storing any bytes as a string and reading them gives them back. */
  lemma StringReadsBack(bytes: Bytes, expireAt: int)
    ensures StringBytes(StringValue(bytes, expireAt).data) == Some(bytes)
  {
    RecognisersAgree(bytes);
  }
}
