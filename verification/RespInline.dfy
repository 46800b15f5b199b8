/**
 * Arguments of an inline command line.
 *
 * `Split` is the plain splitter: it copies every byte under the quoting and
 * escape rules. `SplitInlineArgs` is the lazy one, which references unquoted
 * arguments in place and copies only once a quote forces a rewrite.
 */
module RespInline {
  import opened Base

  const SPACE: byte := 32
  const TAB: byte := 9
  const DQUOTE: byte := 34
  const SQUOTE: byte := 39
  const BACKSLASH: byte := 92

  /** C `isspace`. */
  predicate IsCSpace(b: byte) {
    9 <= b <= 13 || b == SPACE
  }

  /** The bytes that end an unquoted argument; vertical tab and form feed do not. */
  predicate EndsPlain(b: byte) {
    b == SPACE || b == LF || b == CR || b == TAB
  }

  predicate IsHex(b: byte) {
    48 <= b <= 57 || 97 <= b <= 102 || 65 <= b <= 70
  }

  function HexValue(b: byte): int
    requires IsHex(b)
  {
    if 48 <= b <= 57 then b as int - 48 else if 97 <= b <= 102 then b as int - 87 else b as int - 55
  }

  function Unescape(b: byte): byte {
    if b == 110 then LF else if b == 114 then CR else if b == 116 then TAB
    else if b == 98 then 8 else if b == 97 then 7 else b
  }

  // ---- the plain splitter ---------------------------------------------------

  datatype Mode = Plain | Double | Single

  /** Result of reading one argument: its bytes and what follows it. */
  datatype Token = Unbalanced | Token(arg: Bytes, rest: Bytes)

  function SkipSpace(s: Bytes): (r: Bytes)
    ensures |r| <= |s| && (r == [] || !IsCSpace(r[0]))
  {
    if s != [] && IsCSpace(s[0]) then SkipSpace(s[1..]) else s
  }

  predicate MayFollowQuote(rest: Bytes) {
    rest == [] || IsCSpace(rest[0])
  }

  /** One move of the reader: fail, end the argument, or skip some bytes and add some to it. */
  datatype Move = Fail | Finish(skip: nat) | Go(skip: nat, add: Bytes, mode: Mode)

  function MoveAt(s: Bytes, mode: Mode): (m: Move)
    ensures m.Finish? ==> m.skip <= |s| && (mode != Plain ==> m.skip == 1)
    ensures m.Go? ==> 1 <= m.skip <= |s|
  {
    match mode
    case Plain =>
      if s == [] || EndsPlain(s[0]) then Finish(0)
      else if s[0] == DQUOTE then Go(1, [], Double)
      else if s[0] == SQUOTE then Go(1, [], Single)
      else Go(1, [s[0]], Plain)
    case Double =>
      if s == [] then Fail
      else if |s| >= 4 && s[0] == BACKSLASH && s[1] == 120 && IsHex(s[2]) && IsHex(s[3]) then
        Go(4, [(HexValue(s[2]) * 16 + HexValue(s[3])) as byte], Double)
      else if |s| >= 2 && s[0] == BACKSLASH then Go(2, [Unescape(s[1])], Double)
      else if s[0] == DQUOTE then if MayFollowQuote(s[1..]) then Finish(1) else Fail
      else Go(1, [s[0]], Double)
    case Single =>
      if s == [] then Fail
      else if |s| >= 2 && s[0] == BACKSLASH && s[1] == SQUOTE then Go(2, [SQUOTE], Single)
      else if s[0] == SQUOTE then if MayFollowQuote(s[1..]) then Finish(1) else Fail
      else Go(1, [s[0]], Single)
  }

  function TokenFrom(s: Bytes, acc: Bytes, mode: Mode): (t: Token)
    ensures t.Token? ==> |t.rest| <= |s|
    ensures t.Token? && (mode != Plain || (s != [] && !EndsPlain(s[0]))) ==> |t.rest| < |s|
    decreases |s|
  {
    match MoveAt(s, mode)
    case Fail => Unbalanced
    case Finish(skip) => Token(acc, s[skip..])
    case Go(skip, add, next) => TokenFrom(s[skip..], acc + add, next)
  }

  /** All arguments of a line, or None when a quote is left open or runs into the next argument. */
  function Split(line: Bytes): Option<seq<Bytes>>
    decreases |line|
  {
    var s := SkipSpace(line);
    if s == [] then Some([])
    else
      match TokenFrom(s, [], Plain)
      case Unbalanced => None
      case Token(arg, rest) =>
        match Split(rest)
        case None => None
        case Some(args) => Some([arg] + args)
  }

  // ---- the lazy splitter ----------------------------------------------------

  datatype InlineToken = Slice(offset: nat, len: nat) | Owned(bytes: Bytes)

  predicate TokenInside(t: InlineToken, start: nat, end: nat) {
    t.Slice? ==> start <= t.offset && t.offset + t.len <= end
  }

  function TokenBytes(data: Bytes, t: InlineToken): Bytes
    requires TokenInside(t, 0, |data|)
  {
    match t
    case Slice(offset, len) => data[offset..offset + len]
    case Owned(bytes) => bytes
  }

  function TokensBytes(data: Bytes, ts: seq<InlineToken>): (r: seq<Bytes>)
    requires forall i :: 0 <= i < |ts| ==> TokenInside(ts[i], 0, |data|)
    ensures |r| == |ts| && forall i :: 0 <= i < |ts| ==> r[i] == TokenBytes(data, ts[i])
  {
    seq(|ts|, i requires 0 <= i < |ts| => TokenBytes(data, ts[i]))
  }

  /** The argument read so far: the rewritten copy if there is one, the slice otherwise. */
  ghost function SoFar(data: Bytes, from: nat, pos: nat, owned: Option<Bytes>): Bytes
    requires from <= pos <= |data|
  {
    if owned.Some? then owned.value else data[from..pos]
  }

  lemma Follow(data: Bytes, pos: nat, end: nat, acc: Bytes, mode: Mode)
    requires pos <= end <= |data|
    ensures var m := MoveAt(data[pos..end], mode);
      var t := TokenFrom(data[pos..end], acc, mode);
      && (m.Fail? ==> t == Unbalanced)
      && (m.Finish? ==> t == Token(acc, data[pos + m.skip..end]))
      && (m.Go? ==> t == TokenFrom(data[pos + m.skip..end], acc + m.add, m.mode))
  {
    var m := MoveAt(data[pos..end], mode);
    if !m.Fail? { assert data[pos..end][m.skip..] == data[pos + m.skip..end]; }
  }

  /** The reader's move, decided on the buffer in place. */
  method NextMove(data: Bytes, pos: nat, end: nat, mode: Mode) returns (m: Move)
    requires pos <= end <= |data|
    ensures m == MoveAt(data[pos..end], mode)
    ensures m.Go? && m.mode == Plain ==> m.skip == 1 && m.add == [data[pos]]
    ensures m.Go? && m.mode != Plain && mode == Plain ==> m.add == []
    ensures m.Finish? && mode == Plain ==> m.skip == 0
  {
    match mode
    case Plain =>
      if pos == end || EndsPlain(data[pos]) { return Finish(0); }
      if data[pos] == DQUOTE { return Go(1, [], Double); }
      if data[pos] == SQUOTE { return Go(1, [], Single); }
      return Go(1, [data[pos]], Plain);
    case Double =>
      if pos == end { return Fail; }
      if end - pos >= 4 && data[pos] == BACKSLASH && data[pos + 1] == 120
         && IsHex(data[pos + 2]) && IsHex(data[pos + 3]) {
        return Go(4, [(HexValue(data[pos + 2]) * 16 + HexValue(data[pos + 3])) as byte], Double);
      }
      if end - pos >= 2 && data[pos] == BACKSLASH { return Go(2, [Unescape(data[pos + 1])], Double); }
      if data[pos] == DQUOTE {
        return if pos + 1 < end && !IsCSpace(data[pos + 1]) then Fail else Finish(1);
      }
      return Go(1, [data[pos]], Double);
    case Single =>
      if pos == end { return Fail; }
      if end - pos >= 2 && data[pos] == BACKSLASH && data[pos + 1] == SQUOTE { return Go(2, [SQUOTE], Single); }
      if data[pos] == SQUOTE {
        return if pos + 1 < end && !IsCSpace(data[pos + 1]) then Fail else Finish(1);
      }
      return Go(1, [data[pos]], Single);
  }

  /** What has been read and what is ahead together make up the argument starting at `start`. */
  ghost predicate Reading(data: Bytes, start: nat, end: nat, pos: nat, owned: Option<Bytes>, mode: Mode) {
    && start <= pos <= end <= |data|
    && (mode != Plain ==> owned.Some? && pos > start)
    && TokenFrom(data[pos..end], SoFar(data, start, pos, owned), mode) == TokenFrom(data[start..end], [], Plain)
  }

  lemma ReadStarts(data: Bytes, start: nat, end: nat)
    requires start <= end <= |data|
    ensures Reading(data, start, end, start, None, Plain)
  {
    hide TokenFrom;
    assert SoFar(data, start, start, None) == [];
  }

  lemma ReadFails(data: Bytes, start: nat, end: nat, pos: nat, owned: Option<Bytes>, mode: Mode)
    requires Reading(data, start, end, pos, owned, mode) && MoveAt(data[pos..end], mode).Fail?
    ensures TokenFrom(data[start..end], [], Plain) == Unbalanced
  {
    hide TokenFrom, MoveAt, SoFar;
    Follow(data, pos, end, SoFar(data, start, pos, owned), mode);
  }

  function Finished(start: nat, stop: nat, owned: Option<Bytes>): InlineToken
    requires start <= stop
  {
    if owned.Some? then Owned(owned.value) else Slice(start, stop - start)
  }

  /** A finished argument takes at least one byte, lies inside the line and is the one specified. */
  lemma ReadEnds(data: Bytes, start: nat, end: nat, pos: nat, owned: Option<Bytes>, mode: Mode, skip: nat)
    requires Reading(data, start, end, pos, owned, mode) && MoveAt(data[pos..end], mode) == Finish(skip)
    requires start < end && !IsCSpace(data[start]) && (mode == Plain ==> skip == 0)
    ensures start < pos + skip <= end && TokenInside(Finished(start, pos + skip, owned), start, end)
    ensures TokenFrom(data[start..end], [], Plain)
         == Token(TokenBytes(data, Finished(start, pos + skip, owned)), data[pos + skip..end])
  {
    hide TokenFrom, MoveAt;
    var t := TokenFrom(data[start..end], [], Plain);
    Follow(data, pos, end, SoFar(data, start, pos, owned), mode);
    assert data[start..end][0] == data[start];
    assert |t.rest| < |data[start..end]|;
  }

  lemma ReadGoes(data: Bytes, start: nat, end: nat, pos: nat, owned: Option<Bytes>, mode: Mode, m: Move)
    requires Reading(data, start, end, pos, owned, mode) && m.Go? && MoveAt(data[pos..end], mode) == m
    requires m.mode == Plain ==> m.skip == 1 && m.add == [data[pos]]
    requires m.mode != Plain && mode == Plain ==> m.add == []
    ensures var next := if owned.Some? then Some(owned.value + m.add)
      else if m.mode != Plain then Some(data[start..pos]) else None;
      Reading(data, start, end, pos + m.skip, next, m.mode)
  {
    hide TokenFrom, MoveAt;
    Follow(data, pos, end, SoFar(data, start, pos, owned), mode);
    if owned.None? {
      if m.mode == Plain {
        assert data[start..pos] + [data[pos]] == data[start..pos + 1];
      } else {
        assert data[start..pos] + m.add == data[start..pos];
      }
    }
  }

  method ReadToken(data: Bytes, start: nat, end: nat) returns (token: Option<InlineToken>, next: nat)
    requires start < end <= |data| && !IsCSpace(data[start])
    ensures token.None? <==> TokenFrom(data[start..end], [], Plain).Unbalanced?
    ensures token.Some? ==>
      start < next <= end && TokenInside(token.value, start, end)
      && TokenFrom(data[start..end], [], Plain) == Token(TokenBytes(data, token.value), data[next..end])
  {
    hide TokenFrom, MoveAt, Reading, TokenBytes, SoFar;
    var pos := start;
    var owned: Option<Bytes> := None;
    var mode := Plain;
    ReadStarts(data, start, end);
    while true
      invariant start <= pos <= end && Reading(data, start, end, pos, owned, mode)
      decreases end - pos
    {
      var m := NextMove(data, pos, end, mode);
      if m.Fail? {
        ReadFails(data, start, end, pos, owned, mode);
        return None, pos;
      }
      if m.Finish? {
        ReadEnds(data, start, end, pos, owned, mode, m.skip);
        next := pos + m.skip;
        token := Some(Finished(start, next, owned));
        return;
      }
      ReadGoes(data, start, end, pos, owned, mode, m);
      if owned.Some? {
        owned := Some(owned.value + m.add);
      } else if m.mode != Plain {
        // A quote forces the argument to be rewritten from here on.
        owned := Some(data[start..pos]);
      }
      mode := m.mode;
      pos := pos + m.skip;
    }
  }

  /** The lazy splitter agrees with the plain one, and every slice it keeps lies inside the line. */
  method SplitInlineArgs(data: Bytes, start: nat, end: nat) returns (tokens: Option<seq<InlineToken>>)
    requires start <= end <= |data|
    ensures tokens.None? <==> Split(data[start..end]).None?
    ensures tokens.Some? ==>
      (forall i :: 0 <= i < |tokens.value| ==> TokenInside(tokens.value[i], start, end))
      && Split(data[start..end]) == Some(TokensBytes(data, tokens.value))
  {
    hide TokenFrom, MoveAt;
    var out: seq<InlineToken> := [];
    var pos := start;
    ghost var goal := Split(data[start..end]);
    assert goal.Some? ==> TokensBytes(data, out) + goal.value == goal.value;
    while true
      invariant start <= pos <= end
      invariant forall i :: 0 <= i < |out| ==> TokenInside(out[i], start, end)
      invariant Ahead(goal, TokensBytes(data, out), Split(data[pos..end]))
      decreases end - pos
    {
      while pos < end && IsCSpace(data[pos])
        invariant start <= pos <= end
        invariant Ahead(goal, TokensBytes(data, out), Split(data[pos..end]))
      {
        assert data[pos..end][1..] == data[pos + 1..end];
        assert SkipSpace(data[pos..end]) == SkipSpace(data[pos + 1..end]);
        pos := pos + 1;
      }
      assert SkipSpace(data[pos..end]) == data[pos..end];
      if pos == end {
        assert TokensBytes(data, out) + [] == TokensBytes(data, out);
        return Some(out);
      }
      var token, next := ReadToken(data, pos, end);
      if token.None? { return None; }
      ghost var before := TokensBytes(data, out);
      out := out + [token.value];
      assert TokensBytes(data, out) == before + [TokenBytes(data, token.value)];
      ghost var left := Split(data[next..end]);
      if left.Some? { ConcatAssoc(before, [TokenBytes(data, token.value)], left.value); }
      pos := next;
    }
  }

  /** The whole answer is what has been collected, followed by the answer for what is left. */
  ghost predicate Ahead(goal: Option<seq<Bytes>>, done: seq<Bytes>, left: Option<seq<Bytes>>) {
    match left
    case None => goal == None
    case Some(args) => goal == Some(done + args)
  }
}
