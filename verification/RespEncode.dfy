/** The appending encoders and the length predictor, each proved against `RespFrame.Emit`. */
module RespEncode {
  import opened Base
  import opened Decimal
  import opened RespFrame

  // ---- appending encoders ---------------------------------------------------

  /** Static encodings of the most common replies. */
  function SharedEncoding(f: Frame): Option<Bytes> {
    match f
    case SimpleString(text) =>
      if text == [79, 75] then Some([43, 79, 75, 13, 10])
      else if text == [80, 79, 78, 71] then Some([43, 80, 79, 78, 71, 13, 10])
      else if text == [81, 85, 69, 85, 69, 68] then Some([43, 81, 85, 69, 85, 69, 68, 13, 10])
      else None
    case Bulk(None) => Some(NULL_BULK)
    case Integer(n) =>
      if n == 0 then Some([58, 48, 13, 10])
      else if n == 1 then Some([58, 49, 13, 10])
      else if n == -1 then Some([58, 45, 49, 13, 10])
      else if n == -2 then Some([58, 45, 50, 13, 10])
      else None
    case _ => None
  }

  /** Every shared encoding is the encoding it replaces. */
  lemma SharedEncodingAgrees(f: Frame)
    requires SharedEncoding(f).Some?
    ensures SharedEncoding(f).value == Emit(f, Raw)
  {
    if f.SimpleString? {
      assert !HasBreak(f.text);
      assert CleanLine(f.text) == f.text;
    } else if f.Integer? {
      var n: int := f.value;
      assert Print(n) == if n < 0 then [MINUS, (48 - n) as byte] else [(48 + n) as byte];
    }
  }

  function SatMul(a: nat, b: nat): nat {
    Saturate(a * b)
  }

  lemma SaturatedHeader(marker: byte, n: nat)
    ensures Header(marker, Saturate(n)) == Header(marker, n)
  {
  }

  method WriteHeader(marker: byte, n: nat, out0: Bytes) returns (out: Bytes)
    ensures out == out0 + Header(marker, n)
  {
    out := out0 + [marker];
    out := out + Digits(Saturate(n));
    out := out + CRLF;
  }

  method ExtendLine(out0: Bytes, value: Bytes) returns (out: Bytes)
    ensures out == out0 + CleanLine(value)
  {
    if !HasBreak(value) {
      out := out0 + value;
    } else {
      out := out0 + seq(|value|, i requires 0 <= i < |value| =>
        if value[i] == CR || value[i] == LF then 32 else value[i]);
    }
  }

  method EncodeInto(frame: Frame, out0: Bytes) returns (out: Bytes)
    ensures out == out0 + Emit(frame, Raw)
    decreases frame, 0
  {
    hide Header, CleanLine, Print;
    var shared := SharedEncoding(frame);
    if shared.Some? {
      SharedEncodingAgrees(frame);
      return out0 + shared.value;
    }
    match frame
    case Versioned(v, g) =>
      out := EncodeForVersionInto(g, out0, VersionOf(v));
    case SimpleString(text) =>
      out := ExtendLine(out0 + [PLUS], text);
      out := out + CRLF;
    case Error(text) =>
      out := ExtendLine(out0 + [MINUS], text);
      out := out + CRLF;
    case Integer(n) =>
      out := out0 + [COLON];
      out := out + Print(n);
      out := out + CRLF;
    case Bulk(None) => out := out0 + NULL_BULK;
    case Bulk(Some(p)) =>
      out := WriteHeader(DOLLAR, |p|, out0);
      out := out + p;
      out := out + CRLF;
    case Array(items) =>
      out := WriteHeader(STAR, |items|, out0);
      out := EncodeItems(items, out, Raw);
      ConcatAssoc(out0, Header(STAR, |items|), EmitAll(items, Raw));
    case Push(items) =>
      out := WriteHeader(GREATER, |items|, out0);
      out := EncodeItems(items, out, Raw);
      ConcatAssoc(out0, Header(GREATER, |items|), EmitAll(items, Raw));
    case Map(entries) =>
      out := WriteHeader(PERCENT, |entries|, out0);
      out := EncodePairs(entries, out, Raw);
      ConcatAssoc(out0, Header(PERCENT, |entries|), EmitEntries(entries, Raw));
    case NullArray => out := out0 + NULL_ARRAY;
    case Null => out := out0 + NULL;
    case Sequence(items) => out := EncodeItems(items, out0, Raw);
  }

  method EncodeForVersionInto(frame: Frame, out0: Bytes, version: Version) returns (out: Bytes)
    ensures out == out0 + Emit(frame, version)
    decreases frame, 1
  {
    hide Header;
    match frame
    case Versioned(v, g) => out := EncodeForVersionInto(g, out0, VersionOf(v));
    case SimpleString(_) => out := EncodeInto(frame, out0);
    case Error(_) => out := EncodeInto(frame, out0);
    case Integer(_) => out := EncodeInto(frame, out0);
    case Bulk(Some(_)) => out := EncodeInto(frame, out0);
    case Bulk(None) => out := out0 + (if version == Resp2 then NULL_BULK else NULL);
    case Null => out := out0 + (if version == Resp2 then NULL_BULK else NULL);
    case NullArray => out := out0 + (if version == Resp2 then NULL_ARRAY else NULL);
    case Array(items) =>
      out := WriteHeader(STAR, |items|, out0);
      out := EncodeItems(items, out, version);
      ConcatAssoc(out0, Header(STAR, |items|), EmitAll(items, version));
    case Push(items) =>
      var marker := if version == Resp2 then STAR else GREATER;
      out := WriteHeader(marker, |items|, out0);
      out := EncodeItems(items, out, version);
      ConcatAssoc(out0, Header(marker, |items|), EmitAll(items, version));
    case Map(entries) =>
      if version == Resp3 {
        out := WriteHeader(PERCENT, |entries|, out0);
      } else {
        SaturatedHeader(STAR, |entries| * 2);
        out := WriteHeader(STAR, SatMul(|entries|, 2), out0);
      }
      out := EncodePairs(entries, out, version);
      ConcatAssoc(out0, MapHeader(|entries|, version), EmitEntries(entries, version));
    case Sequence(items) => out := EncodeItems(items, out0, version);
  }

  /** The loop over an aggregate's items, shared by both encoders. */
  method EncodeItems(items: seq<Frame>, out0: Bytes, w: Wire) returns (out: Bytes)
    ensures out == out0 + EmitAll(items, w)
    decreases items, 2
  {
    hide Emit;
    out := out0;
    for i := 0 to |items|
      invariant out == out0 + EmitAll(items[..i], w)
    {
      EmitAllStep(items, i, w);
      ConcatAssoc(out0, EmitAll(items[..i], w), Emit(items[i], w));
      if w == Raw {
        out := EncodeInto(items[i], out);
      } else {
        out := EncodeForVersionInto(items[i], out, w);
      }
    }
    assert items[..|items|] == items;
  }

  method EncodePairs(entries: seq<Entry>, out0: Bytes, w: Wire) returns (out: Bytes)
    ensures out == out0 + EmitEntries(entries, w)
    decreases entries, 2
  {
    hide Emit;
    out := out0;
    for i := 0 to |entries|
      invariant out == out0 + EmitEntries(entries[..i], w)
    {
      EmitEntriesStep(entries, i, w);
      ConcatAssoc(out0, EmitEntries(entries[..i], w), Emit(entries[i].key, w));
      ConcatAssoc(out0, EmitEntries(entries[..i], w) + Emit(entries[i].key, w), Emit(entries[i].val, w));
      assert entries[i].key < entries[i] && entries[i].val < entries[i];
      if w == Raw {
        out := EncodeInto(entries[i].key, out);
        out := EncodeInto(entries[i].val, out);
      } else {
        out := EncodeForVersionInto(entries[i].key, out, w);
        out := EncodeForVersionInto(entries[i].val, out, w);
      }
    }
    assert entries[..|entries|] == entries;
  }

  // ---- length prediction ----------------------------------------------------

  function SatAdd(a: nat, b: nat): nat {
    Saturate(a + b)
  }

  lemma SaturateAdd(a: nat, b: nat)
    ensures SatAdd(Saturate(a), Saturate(b)) == Saturate(a + b)
  {
  }

  lemma SaturateLine(d: nat, n: nat)
    ensures SatAdd(1, d) == Saturate(1 + d) && SatAdd(SatAdd(1, d), 2) == Saturate(3 + d)
    ensures SatAdd(SatAdd(SatAdd(SatAdd(1, d), 2), n), 2) == Saturate(5 + d + n)
  {
  }

  lemma ItemsLenStep(items: seq<Frame>, i: nat, w: Wire)
    requires i < |items|
    ensures |EmitAll(items[..i + 1], w)| == |EmitAll(items[..i], w)| + |Emit(items[i], w)|
  {
    EmitAllStep(items, i, w);
  }

  lemma EntriesLenStep(entries: seq<Entry>, i: nat, w: Wire)
    requires i < |entries|
    ensures |EmitEntries(entries[..i + 1], w)|
         == |EmitEntries(entries[..i], w)| + |Emit(entries[i].key, w)| + |Emit(entries[i].val, w)|
  {
    EmitEntriesStep(entries, i, w);
  }

  method DecimalLen(value: nat) returns (digits: nat)
    ensures digits == |Digits(value)|
  {
    digits := 1;
    var v := value;
    while v >= 10
      invariant digits + |Digits(v)| == |Digits(value)| + 1
    {
      v := v / 10;
      digits := digits + 1;
    }
  }

  method AggregateLen(items: seq<Frame>, w: Wire) returns (total: nat)
    ensures total == Saturate(3 + |Digits(Saturate(|items|))| + |EmitAll(items, w)|)
    decreases items, 2
  {
    hide Emit, Digits;
    var d := DecimalLen(Saturate(|items|));
    total := SatAdd(SatAdd(1, d), 2);
    ghost var exact := 3 + d;
    for i := 0 to |items|
      invariant exact == 3 + d + |EmitAll(items[..i], w)|
      invariant total == Saturate(exact)
    {
      ItemsLenStep(items, i, w);
      var n := LenOf(items[i], w);
      SaturateAdd(exact, |Emit(items[i], w)|);
      exact := exact + |Emit(items[i], w)|;
      total := SatAdd(total, n);
    }
    assert items[..|items|] == items;
  }

  method EntriesLen(entries: seq<Entry>, w: Wire, count: nat) returns (total: nat)
    ensures total == Saturate(3 + |Digits(Saturate(count))| + |EmitEntries(entries, w)|)
    decreases entries, 2
  {
    hide Emit, Digits;
    var d := DecimalLen(Saturate(count));
    total := SatAdd(SatAdd(1, d), 2);
    ghost var exact := 3 + d;
    for i := 0 to |entries|
      invariant exact == 3 + d + |EmitEntries(entries[..i], w)|
      invariant total == Saturate(exact)
    {
      EntriesLenStep(entries, i, w);
      assert entries[i].key < entries[i] && entries[i].val < entries[i];
      var k := LenOf(entries[i].key, w);
      var v := LenOf(entries[i].val, w);
      SaturateAdd(exact, |Emit(entries[i].key, w)|);
      SaturateAdd(exact + |Emit(entries[i].key, w)|, |Emit(entries[i].val, w)|);
      exact := exact + |Emit(entries[i].key, w)| + |Emit(entries[i].val, w)|;
      total := SatAdd(SatAdd(total, k), v);
    }
    assert entries[..|entries|] == entries;
  }

  method SequenceLen(items: seq<Frame>, w: Wire) returns (total: nat)
    ensures total == Saturate(|EmitAll(items, w)|)
    decreases items, 2
  {
    total := 0;
    for i := 0 to |items|
      invariant total == Saturate(|EmitAll(items[..i], w)|)
    {
      ItemsLenStep(items, i, w);
      var n := LenOf(items[i], w);
      SaturateAdd(|EmitAll(items[..i], w)|, |Emit(items[i], w)|);
      total := SatAdd(total, n);
    }
    assert items[..|items|] == items;
  }

  method LenOf(frame: Frame, w: Wire) returns (n: nat)
    ensures n == Saturate(|Emit(frame, w)|)
    decreases frame, 2
  {
    if w == Raw {
      n := EncodedLen(frame);
    } else {
      n := EncodedLenForVersion(frame, w);
    }
  }

  /** The predicted length is the number of bytes written, saturating like the sum itself. */
  method EncodedLen(frame: Frame) returns (n: nat)
    ensures n == Saturate(|Emit(frame, Raw)|)
    decreases frame, 0
  {
    hide CleanLine, HasBreak, Digits, SatAdd;
    var shared := SharedEncoding(frame);
    if shared.Some? {
      SharedEncodingAgrees(frame);
      return |shared.value|;
    }
    match frame
    case Versioned(v, g) => n := EncodedLenForVersion(g, VersionOf(v));
    case SimpleString(text) =>
      SaturateLine(|text|, 0);
      n := SatAdd(SatAdd(1, |text|), 2);
    case Error(text) =>
      SaturateLine(|text|, 0);
      n := SatAdd(SatAdd(1, |text|), 2);
    case Integer(value) =>
      var m: int := value;
      var d;
      if m < 0 {
        d := DecimalLen(-m);
        SaturateLine(d, 0);
        d := SatAdd(1, d);
      } else {
        d := DecimalLen(m);
      }
      SaturateLine(d, 0);
      n := SatAdd(SatAdd(1, d), 2);
    case Bulk(None) =>
      assert false;
    case Bulk(Some(p)) =>
      var d := DecimalLen(Saturate(|p|));
      SaturateLine(d, |p|);
      n := SatAdd(SatAdd(SatAdd(SatAdd(1, d), 2), |p|), 2);
    case Array(items) => n := AggregateLen(items, Raw);
    case Push(items) => n := AggregateLen(items, Raw);
    case Map(entries) => n := EntriesLen(entries, Raw, |entries|);
    case NullArray => n := |NULL_ARRAY|;
    case Null => n := |NULL|;
    case Sequence(items) => n := SequenceLen(items, Raw);
  }

  method EncodedLenForVersion(frame: Frame, version: Version) returns (n: nat)
    ensures n == Saturate(|Emit(frame, version)|)
    decreases frame, 1
  {
    hide CleanLine, HasBreak, Digits;
    match frame
    case Versioned(v, g) => n := EncodedLenForVersion(g, VersionOf(v));
    case SimpleString(_) => n := EncodedLen(frame);
    case Error(_) => n := EncodedLen(frame);
    case Integer(_) => n := EncodedLen(frame);
    case Bulk(Some(_)) => n := EncodedLen(frame);
    case Bulk(None) => n := if version == Resp2 then |NULL_BULK| else |NULL|;
    case Null => n := if version == Resp2 then |NULL_BULK| else |NULL|;
    case NullArray => n := if version == Resp2 then |NULL_ARRAY| else |NULL|;
    case Array(items) => n := AggregateLen(items, version);
    case Push(items) => n := AggregateLen(items, version);
    case Map(entries) =>
      n := EntriesLen(entries, version, if version == Resp3 then |entries| else SatMul(|entries|, 2));
    case Sequence(items) => n := SequenceLen(items, version);
  }
}
