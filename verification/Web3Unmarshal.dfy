/**
 Unmarshal and skipWeb3 of ethereum/eip712/web3.pb.go: what they accept, that they
 stay inside the buffer, and that they undo the encoder.
 */
module Web3Unmarshal {
  import opened Prelude
  import opened Web3Codec

  /** The int64 with the bits of x, for an x below 2^64: int(v) of a uint64, or a sum of two lengths that wraps. */
  function AsInt64(x: nat): int {
    if x < INT64_LIMIT then x else x - UINT64_LIMIT
  }

  /** int32(x) */
  function AsInt32(x: int): int {
    var y := x % 0x1_0000_0000;
    if y < 0x8000_0000 then y else y - 0x1_0000_0000
  }

  // ---------- Specification of the parser ----------

  /** A length at i and the end of the body behind it: (start, end). */
  function Body(s: seq<byte>, i: nat): Result<(nat, nat), Error> {
    match Varint(s, i)
    case Err(e) => Err(e)
    case Ok((v, j)) =>
      var n := AsInt64(v);
      if n < 0 then Err(InvalidLength) else
      var post := AsInt64(j + n);
      if post < 0 then Err(InvalidLength)
      else if post > |s| then Err(UnexpectedEOF)
      else Ok((j, post))
  }

  /** Where the payload of a skipped field ends, given its wire type; group markers have none. */
  function SkipPayload(d: seq<byte>, i: nat, wireType: nat): Result<int, Error> {
    if wireType == 0 then
      match Varint(d, i) case Err(e) => Err(e) case Ok((_, j)) => Ok(j)
    else if wireType == 1 then Ok(AsInt64(i + 8))
    else if wireType == 2 then
      match Varint(d, i)
      case Err(e) => Err(e)
      case Ok((v, j)) => if AsInt64(v) < 0 then Err(InvalidLength) else Ok(AsInt64(j + AsInt64(v)))
    else if wireType == 3 || wireType == 4 then Ok(i)
    else if wireType == 5 then Ok(AsInt64(i + 4))
    else Err(IllegalWireType)
  }

  /** skipWeb3's loop: the length of the field starting at i, closing `depth` open groups. */
  function Skip(d: seq<byte>, i: nat, depth: nat): Result<nat, Error>
    requires Sliceable(|d|)
    decreases |d| - i
  {
    if i >= |d| then Err(UnexpectedEOF) else
    match Varint(d, i)
    case Err(e) => Err(e)
    case Ok((wire, j)) =>
      DecodeMoves(d, i, 0, 0);
      var wireType := wire % 8;
      if wireType == 4 && depth == 0 then Err(UnexpectedEndOfGroup) else
      var depth' := if wireType == 3 then depth + 1 else if wireType == 4 then depth - 1 else depth;
      match SkipPayload(d, j, wireType)
      case Err(e) => Err(e)
      case Ok(k) =>
        if k < 0 then Err(InvalidLength)
        else if depth' == 0 then Ok(k)
        else
          SkipAdvances(d, j, wireType);
          Skip(d, k, depth')
  }

  /** One field of the message starting at `pre`: the message with it, and the next index. */
  function ParseField(s: seq<byte>, pre: nat, m: Web3Tx): Result<(Web3Tx, nat), Error>
    requires pre <= |s| && Sliceable(|s|)
  {
    match Varint(s, pre)
    case Err(e) => Err(e)
    case Ok((wire, i)) =>
      var fieldNum, wireType := AsInt32(wire / 8), wire % 8;
      if wireType == 4 then Err(EndGroup)
      else if fieldNum <= 0 then Err(IllegalTag)
      else if fieldNum == 1 then
        if wireType != 0 then Err(WrongWireType) else
        match Varint(s, i)
        case Err(e) => Err(e)
        case Ok((v, j)) => Ok((m.(typedDataChainID := v), j))
      else if fieldNum == 2 || fieldNum == 3 then
        if wireType != 2 then Err(WrongWireType) else
        match Body(s, i)
        case Err(e) => Err(e)
        case Ok((from, to)) =>
          BodyInside(s, i);
          Ok((if fieldNum == 2 then m.(feePayer := s[from..to]) else m.(feePayerSig := s[from..to]), to))
      else
        match Skipped(s, pre)
        case Err(e) => Err(e)
        case Ok(next) => Ok((m, next))
  }

  /** Where the unknown field at `pre` ends. */
  function Skipped(s: seq<byte>, pre: nat): Result<nat, Error>
    requires pre <= |s| && Sliceable(|s|)
  {
    match Skip(s[pre..], 0, 0)
    case Err(e) => Err(e)
    case Ok(skippy) =>
      var next := AsInt64(pre + skippy);
      if next < 0 then Err(InvalidLength)
      else if next > |s| then Err(UnexpectedEOF)
      else Ok(next)
  }

  lemma SkippedInside(s: seq<byte>, pre: nat)
    requires pre <= |s| && Sliceable(|s|)
    ensures var r := Skipped(s, pre); r.Ok? ==> pre < r.value <= |s| && Skip(s[pre..], 0, 0) == Ok(r.value - pre)
  {
    SkipMoves(s[pre..], 0, 0);
  }

  /** Every field that parses moves the index on, and not beyond the buffer. */
  lemma FieldMoves(s: seq<byte>, pre: nat, m: Web3Tx)
    requires pre <= |s| && Sliceable(|s|)
    ensures var r := ParseField(s, pre, m); r.Ok? ==> pre < r.value.1 <= |s|
  {
    DecodeMoves(s, pre, 0, 0);
    if Varint(s, pre).Ok? {
      var i := Varint(s, pre).value.1;
      DecodeMoves(s, i, 0, 0);
      BodyInside(s, i);
      SkippedInside(s, pre);
    }
  }

  lemma BodyInside(s: seq<byte>, i: nat)
    requires Sliceable(|s|)
    ensures var r := Body(s, i); r.Ok? ==> i < r.value.0 <= r.value.1 <= |s|
  {
    DecodeMoves(s, i, 0, 0);
  }

  lemma SkipAdvances(d: seq<byte>, i: nat, wireType: nat)
    requires i <= |d| && Sliceable(|d|)
    ensures var r := SkipPayload(d, i, wireType); r.Ok? && r.value >= 0 ==> i <= r.value < INT64_LIMIT
  {
    DecodeMoves(d, i, 0, 0);
  }

  lemma {:induction false} SkipMoves(d: seq<byte>, i: nat, depth: nat)
    requires Sliceable(|d|)
    ensures var r := Skip(d, i, depth); r.Ok? ==> i < r.value < INT64_LIMIT
    decreases |d| - i
  {
    DecodeMoves(d, i, 0, 0);
    if i < |d| && Varint(d, i).Ok? {
      var (wire, j) := Varint(d, i).value;
      SkipAdvances(d, j, wire % 8);
      var depth' := if wire % 8 == 3 then depth + 1 else if wire % 8 == 4 then depth - 1 else depth;
      var r := SkipPayload(d, j, wire % 8);
      if r.Ok? && r.value > i && depth' >= 0 {
        SkipMoves(d, r.value, depth');
      }
    }
  }

  function Parse(s: seq<byte>, i: nat, m: Web3Tx): Result<Web3Tx, Error>
    requires i <= |s| && Sliceable(|s|)
    decreases |s| - i
  {
    if i == |s| then Ok(m) else
    match ParseField(s, i, m)
    case Err(e) => Err(e)
    case Ok((m', next)) =>
      FieldMoves(s, i, m);
      Parse(s, next, m')
  }

  // ---------- The implementation ----------

  /** The varint loop that Unmarshal and skipWeb3 repeat. */
  method ReadVarint(s: seq<byte>, start: nat) returns (r: Result<(uint64, nat), Error>)
    ensures r == Varint(s, start)
  {
    var i, k, acc: uint64 := start, 0, 0;
    while true
      invariant DecodeVarint(s, i, k, acc) == Varint(s, start)
      decreases |s| - i
    {
      if k >= 10 {
        return Err(IntOverflow);
      }
      if i >= |s| {
        return Err(UnexpectedEOF);
      }
      var b := s[i];
      i := i + 1;
      acc := OrDigit(acc, b, k);
      if b < 128 {
        return Ok((acc, i));
      }
      k := k + 1;
    }
  }

  method SkipField(d: seq<byte>) returns (r: Result<nat, Error>)
    requires Sliceable(|d|)
    ensures r == Skip(d, 0, 0)
  {
    var i, depth := 0, 0;
    while i < |d|
      invariant Skip(d, i, depth) == Skip(d, 0, 0)
      decreases |d| - i
    {
      var tag := ReadVarint(d, i);
      if tag.Err? {
        return Err(tag.error);
      }
      DecodeMoves(d, i, 0, 0);
      ghost var start := i;
      var wireType := tag.value.0 % 8;
      var at: int := tag.value.1;
      SkipAdvances(d, at, wireType);
      if wireType == 0 {
        var v := ReadVarint(d, at);
        if v.Err? {
          return Err(v.error);
        }
        at := v.value.1;
      } else if wireType == 1 {
        at := AsInt64(at + 8);
      } else if wireType == 2 {
        var v := ReadVarint(d, at);
        if v.Err? {
          return Err(v.error);
        }
        var length := AsInt64(v.value.0);
        if length < 0 {
          return Err(InvalidLength);
        }
        at := AsInt64(v.value.1 + length);
      } else if wireType == 3 {
        depth := depth + 1;
      } else if wireType == 4 {
        if depth == 0 {
          return Err(UnexpectedEndOfGroup);
        }
        depth := depth - 1;
      } else if wireType == 5 {
        at := AsInt64(at + 4);
      } else {
        return Err(IllegalWireType);
      }
      if at < 0 {
        return Err(InvalidLength);
      }
      if depth == 0 {
        return Ok(at);
      }
      i := at;
    }
    return Err(UnexpectedEOF);
  }

  method ReadBody(s: seq<byte>, i: nat) returns (r: Result<(nat, nat), Error>)
    requires Sliceable(|s|)
    ensures r == Body(s, i)
  {
    var v := ReadVarint(s, i);
    if v.Err? {
      return Err(v.error);
    }
    var length := AsInt64(v.value.0);
    if length < 0 {
      return Err(InvalidLength);
    }
    var post := AsInt64(v.value.1 + length);
    if post < 0 {
      return Err(InvalidLength);
    }
    if post > |s| {
      return Err(UnexpectedEOF);
    }
    return Ok((v.value.1, post));
  }

  /**
   Unmarshal into the message m0.  It terminates on every byte string, and every
   index and slice it takes is checked to lie inside the buffer.
   */
  method Unmarshal(s: seq<byte>, m0: Web3Tx) returns (r: Result<Web3Tx, Error>)
    requires Sliceable(|s|)
    ensures r == Parse(s, 0, m0)
  {
    var i, m := 0, m0;
    while i < |s|
      invariant i <= |s| && Parse(s, i, m) == Parse(s, 0, m0)
      decreases |s| - i
    {
      FieldMoves(s, i, m);
      var pre := i;
      var tag := ReadVarint(s, i);
      if tag.Err? {
        return Err(tag.error);
      }
      i := tag.value.1;
      var fieldNum, wireType := AsInt32(tag.value.0 / 8), tag.value.0 % 8;
      if wireType == 4 {
        return Err(EndGroup);
      }
      if fieldNum <= 0 {
        return Err(IllegalTag);
      }
      if fieldNum == 1 {
        if wireType != 0 {
          return Err(WrongWireType);
        }
        var v := ReadVarint(s, i);
        if v.Err? {
          return Err(v.error);
        }
        m := m.(typedDataChainID := v.value.0);
        i := v.value.1;
      } else if fieldNum == 2 || fieldNum == 3 {
        if wireType != 2 {
          return Err(WrongWireType);
        }
        BodyInside(s, i);
        var body := ReadBody(s, i);
        if body.Err? {
          return Err(body.error);
        }
        var bytes := s[body.value.0..body.value.1];
        if fieldNum == 2 {
          m := m.(feePayer := bytes);
        } else {
          m := m.(feePayerSig := bytes);
        }
        i := body.value.1;
      } else {
        var skipped := SkipField(s[pre..]);
        if skipped.Err? {
          return Err(skipped.error);
        }
        var next := AsInt64(pre + skipped.value);
        if next < 0 {
          return Err(InvalidLength);
        }
        if next > |s| {
          return Err(UnexpectedEOF);
        }
        i := next;
      }
    }
    return Ok(m);
  }

  // ---------- Concatenated buffers merge ----------

  lemma {:induction false} VarintExtends(s: seq<byte>, t: seq<byte>, i: nat, k: nat, acc: uint64)
    requires DecodeVarint(s, i, k, acc).Ok?
    ensures DecodeVarint(s + t, i, k, acc) == DecodeVarint(s, i, k, acc)
    decreases |s| - i
  {
    assert (s + t)[i] == s[i];
    if s[i] >= 128 {
      VarintExtends(s, t, i + 1, k + 1, OrDigit(acc, s[i], k));
    }
  }

  lemma {:induction false} VarintShifts(s: seq<byte>, t: seq<byte>, i: nat, k: nat, acc: uint64)
    ensures var r, r' := DecodeVarint(t, i, k, acc), DecodeVarint(s + t, |s| + i, k, acc);
            if r.Ok? then r' == Ok((r.value.0, |s| + r.value.1)) else r' == r
    decreases |t| - i
  {
    if k < 10 && i < |t| {
      assert (s + t)[|s| + i] == t[i];
      if t[i] >= 128 {
        VarintShifts(s, t, i + 1, k + 1, OrDigit(acc, t[i], k));
      }
    }
  }

  lemma BodyExtends(s: seq<byte>, t: seq<byte>, i: nat)
    requires Body(s, i).Ok? && Sliceable(|s|)
    ensures Body(s + t, i) == Body(s, i)
  {
    VarintExtends(s, t, i, 0, 0);
  }

  lemma BodyShifts(s: seq<byte>, t: seq<byte>, i: nat)
    requires Sliceable(|s + t|)
    ensures var r, r' := Body(t, i), Body(s + t, |s| + i);
            && r.Ok? == r'.Ok?
            && (r.Ok? ==> r' == Ok((|s| + r.value.0, |s| + r.value.1)))
            && (r.Ok? && r.value.0 <= r.value.1 <= |t| ==>
                  (s + t)[|s| + r.value.0..|s| + r.value.1] == t[r.value.0..r.value.1])
  {
    VarintShifts(s, t, i, 0, 0);
    DecodeMoves(t, i, 0, 0);
  }

  lemma SkipPayloadExtends(d: seq<byte>, t: seq<byte>, i: nat, wireType: nat)
    requires SkipPayload(d, i, wireType).Ok?
    ensures SkipPayload(d + t, i, wireType) == SkipPayload(d, i, wireType)
  {
    if wireType == 0 || wireType == 2 {
      VarintExtends(d, t, i, 0, 0);
    }
  }

  lemma {:induction false} SkipExtends(d: seq<byte>, t: seq<byte>, i: nat, depth: nat)
    requires Sliceable(|d + t|) && Skip(d, i, depth).Ok?
    ensures Skip(d + t, i, depth) == Skip(d, i, depth)
    decreases |d| - i
  {
    VarintExtends(d, t, i, 0, 0);
    var (wire, j) := Varint(d, i).value;
    SkipPayloadExtends(d, t, j, wire % 8);
    var depth' := if wire % 8 == 3 then depth + 1 else if wire % 8 == 4 then depth - 1 else depth;
    if depth' != 0 {
      DecodeMoves(d, i, 0, 0);
      SkipAdvances(d, j, wire % 8);
      SkipExtends(d, t, SkipPayload(d, j, wire % 8).value, depth');
    }
  }

  lemma SkippedExtends(s: seq<byte>, t: seq<byte>, pre: nat)
    requires pre <= |s| && Sliceable(|s + t|) && Skipped(s, pre).Ok?
    ensures Skipped(s + t, pre) == Skipped(s, pre)
  {
    SkipExtends(s[pre..], t, 0, 0);
    assert (s + t)[pre..] == s[pre..] + t;
  }

  lemma SkippedShifts(s: seq<byte>, t: seq<byte>, pre: nat)
    requires pre <= |t| && Sliceable(|s + t|)
    ensures var r, r' := Skipped(t, pre), Skipped(s + t, |s| + pre);
            r.Ok? == r'.Ok? && (r.Ok? ==> r'.value == |s| + r.value)
  {
    assert (s + t)[|s| + pre..] == t[pre..];
    SkipMoves(t[pre..], 0, 0);
  }

  /** A field that parses also parses in front of more bytes. */
  lemma FieldExtends(s: seq<byte>, t: seq<byte>, pre: nat, m: Web3Tx)
    requires pre <= |s| && Sliceable(|s + t|) && ParseField(s, pre, m).Ok?
    ensures ParseField(s + t, pre, m) == ParseField(s, pre, m)
  {
    VarintExtends(s, t, pre, 0, 0);
    var (wire, i) := Varint(s, pre).value;
    var fieldNum := AsInt32(wire / 8);
    if fieldNum == 1 {
      VarintExtends(s, t, i, 0, 0);
    } else if fieldNum == 2 || fieldNum == 3 {
      BodyExtends(s, t, i);
      BodyInside(s, i);
      var (from, to) := Body(s, i).value;
      assert (s + t)[from..to] == s[from..to];
    } else {
      SkippedExtends(s, t, pre);
    }
  }

  /** A field parses the same behind other bytes. */
  lemma FieldShifts(s: seq<byte>, t: seq<byte>, pre: nat, m: Web3Tx)
    requires pre <= |t| && Sliceable(|s + t|)
    ensures var r, r' := ParseField(t, pre, m), ParseField(s + t, |s| + pre, m);
            && r.Ok? == r'.Ok?
            && (r.Ok? ==> r' == Ok((r.value.0, |s| + r.value.1)))
  {
    hide DecodeVarint, Skip;
    VarintShifts(s, t, pre, 0, 0);
    if Varint(t, pre).Ok? {
      var (wire, i) := Varint(t, pre).value;
      var fieldNum := AsInt32(wire / 8);
      if fieldNum == 1 {
        VarintShifts(s, t, i, 0, 0);
      } else if fieldNum == 2 || fieldNum == 3 {
        BodyShifts(s, t, i);
        BodyInside(t, i);
      } else {
        SkippedShifts(s, t, pre);
      }
    }
  }

  lemma {:induction false} ParseExtends(s: seq<byte>, t: seq<byte>, i: nat, m: Web3Tx)
    requires i <= |s| && Sliceable(|s + t|) && Parse(s, i, m).Ok?
    ensures Parse(s + t, i, m) == Parse(s + t, |s|, Parse(s, i, m).value)
    decreases |s| - i
  {
    if i < |s| {
      FieldMoves(s, i, m);
      FieldExtends(s, t, i, m);
      var (m', next) := ParseField(s, i, m).value;
      ParseExtends(s, t, next, m');
    }
  }

  /** The two parses both fail, or both give the same message. */
  predicate SameOutcome(a: Result<Web3Tx, Error>, b: Result<Web3Tx, Error>) {
    a.Ok? == b.Ok? && (a.Ok? ==> a.value == b.value)
  }

  lemma {:induction false} ParseShifts(s: seq<byte>, t: seq<byte>, i: nat, m: Web3Tx)
    requires i <= |t| && Sliceable(|s + t|)
    ensures SameOutcome(Parse(s + t, |s| + i, m), Parse(t, i, m))
    decreases |t| - i
  {
    if i < |t| {
      FieldShifts(s, t, i, m);
      if ParseField(t, i, m).Ok? {
        FieldMoves(t, i, m);
        var (m', next) := ParseField(t, i, m).value;
        ParseShifts(s, t, next, m');
      }
    }
  }

  /** Parsing two buffers end to end is parsing the second one into the result of the first. */
  lemma ConcatMerges(s: seq<byte>, t: seq<byte>, m: Web3Tx)
    requires Sliceable(|s + t|) && Parse(s, 0, m).Ok?
    ensures SameOutcome(Parse(s + t, 0, m), Parse(t, 0, Parse(s, 0, m).value))
  {
    ParseExtends(s, t, 0, m);
    ParseShifts(s, t, 0, Parse(s, 0, m).value);
  }

  // ---------- Round trip ----------

  lemma OneFieldParses(f: seq<byte>, m: Web3Tx, m': Web3Tx)
    requires Sliceable(|f|) && f != [] && ParseField(f, 0, m) == Ok((m', |f|))
    ensures Parse(f, 0, m) == Ok(m')
  {
  }

  lemma InMiddle(a: seq<byte>, b: seq<byte>, c: seq<byte>)
    ensures At(a + b + c, |a|, b)
    ensures (a + b + c)[|a| + |b|..|a| + |b| + |c|] == c
  {
    assert (a + b + c)[|a|..|a| + |b|] == b;
  }

  /** A varint between other bytes is read whole. */
  lemma VarintReads(a: seq<byte>, v: uint64, c: seq<byte>)
    ensures Varint(a + VarintBytes(v) + c, |a|) == Ok((v, |a| + |VarintBytes(v)|))
  {
    InMiddle(a, VarintBytes(v), c);
    VarintRoundTrip(a + VarintBytes(v) + c, |a|, v);
  }

  lemma TagReads(tag: uint64, rest: seq<byte>)
    ensures Varint(VarintBytes(tag) + rest, 0) == Ok((tag, |VarintBytes(tag)|))
  {
    VarintReads([], tag, rest);
    assert [] + VarintBytes(tag) + rest == VarintBytes(tag) + rest;
  }

  /** A length and its body at the end of a buffer. */
  lemma BodyReads(a: seq<byte>, body: seq<byte>)
    requires Sliceable(|a + VarintBytes(|body|) + body|)
    ensures var f, j := a + VarintBytes(|body|) + body, |a| + |VarintBytes(|body|)|;
            Varint(f, |a|) == Ok((|body|, j)) && Body(f, |a|) == Ok((j, |f|)) && f[j..|f|] == body
  {
    hide DecodeVarint, VarintBytes;
    VarintReads(a, |body|, body);
    InMiddle(a, VarintBytes(|body|), body);
  }

  lemma ChainIdParses(id: uint64, m: Web3Tx)
    ensures Sliceable(|ChainIdField(id)|)
    ensures Parse(ChainIdField(id), 0, m) == Ok(if id == 0 then m else m.(typedDataChainID := id))
  {
    VarintIsShort(id, 10);
    if id != 0 {
      var f := ChainIdField(id);
      assert VarintBytes(8) == [8];
      TagReads(8, VarintBytes(id));
      VarintReads([8], id, []);
      assert [8] + VarintBytes(id) + [] == f;
      hide DecodeVarint, VarintBytes;
      OneFieldParses(f, m, m.(typedDataChainID := id));
    }
  }

  lemma {:induction false} VarintIsShort(v: nat, n: nat)
    requires 1 <= n && v < Shift7(1, n)
    ensures |VarintBytes(v)| <= n
  {
    if v >= 128 {
      VarintIsShort(v / 128, n - 1);
    }
  }

  lemma LengthFieldParses(payer: bool, body: seq<byte>, m: Web3Tx)
    requires Sliceable(|LengthField(if payer then 0x12 else 0x1a, body)|)
    ensures Parse(LengthField(if payer then 0x12 else 0x1a, body), 0, m) ==
            Ok(if body == [] then m else if payer then m.(feePayer := body) else m.(feePayerSig := body))
  {
    if body != [] {
      var tag := if payer then 0x12 else 0x1a;
      var f := LengthField(tag, body);
      assert VarintBytes(tag) == [tag];
      hide DecodeVarint, VarintBytes;
      TagReads(tag, VarintBytes(|body|) + body);
      ConcatAssociates([tag], VarintBytes(|body|), body);
      BodyReads([tag], body);
      assert tag / 8 == (if payer then 2 else 3) && tag % 8 == 2;
      OneFieldParses(f, m, if payer then m.(feePayer := body) else m.(feePayerSig := body));
    }
  }

  /** Unmarshal of Marshal gives the message back. */
  lemma RoundTrip(m: Web3Tx)
    requires Sliceable(Size(m))
    ensures Sliceable(|Encode(m)|) && Parse(Encode(m), 0, EMPTY) == Ok(m)
  {
    SizeIsLength(m);
    var a, b, c := ChainIdField(m.typedDataChainID), LengthField(0x12, m.feePayer), LengthField(0x1a, m.feePayerSig);
    ChainIdParses(m.typedDataChainID, EMPTY);
    var m1 := EMPTY.(typedDataChainID := m.typedDataChainID);
    LengthFieldParses(true, m.feePayer, m1);
    ConcatMerges(a, b, EMPTY);
    var m2 := m1.(feePayer := m.feePayer);
    LengthFieldParses(false, m.feePayerSig, m2);
    ConcatMerges(a + b, c, EMPTY);
  }

  /** Encoding loses nothing. */
  lemma EncodeIsInjective(m: Web3Tx, n: Web3Tx)
    requires Sliceable(Size(m)) && Sliceable(Size(n)) && Encode(m) == Encode(n)
    ensures m == n
  {
    RoundTrip(m);
    RoundTrip(n);
  }

  // ---------- Unknown fields ----------

  datatype Payload =
    | Varint64(v: uint64)
    | Fixed64(bytes: seq<byte>)
    | Delimited(bytes: seq<byte>)
    | Fixed32(bytes: seq<byte>)

  predicate WellFormed(p: Payload) {
    (p.Fixed64? ==> |p.bytes| == 8) && (p.Fixed32? ==> |p.bytes| == 4)
  }

  function WireType(p: Payload): nat {
    match p case Varint64(_) => 0 case Fixed64(_) => 1 case Delimited(_) => 2 case Fixed32(_) => 5
  }

  function PayloadBytes(p: Payload): seq<byte> {
    match p
    case Varint64(v) => VarintBytes(v)
    case Delimited(bytes) => VarintBytes(|bytes|) + bytes
    case _ => p.bytes
  }

  /** A field with any legal number that the message does not have. */
  function UnknownField(number: nat, p: Payload): seq<byte> {
    VarintBytes(number * 8 + WireType(p)) + PayloadBytes(p)
  }

  predicate Unknown(number: nat) {
    4 <= number < 0x2000_0000
  }

  lemma PayloadIsSkipped(a: seq<byte>, p: Payload)
    requires WellFormed(p) && Sliceable(|a + PayloadBytes(p)|)
    ensures SkipPayload(a + PayloadBytes(p), |a|, WireType(p)) == Ok(|a + PayloadBytes(p)|)
  {
    hide DecodeVarint, VarintBytes;
    match p
    case Varint64(v) =>
      VarintReads(a, v, []);
      assert a + VarintBytes(v) + [] == a + VarintBytes(v);
    case Delimited(bytes) =>
      ConcatAssociates(a, VarintBytes(|bytes|), bytes);
      BodyReads(a, bytes);
    case _ =>
  }

  lemma UnknownFieldParses(number: nat, p: Payload, m: Web3Tx)
    requires Unknown(number) && WellFormed(p) && Sliceable(|UnknownField(number, p)|)
    ensures Parse(UnknownField(number, p), 0, m) == Ok(m)
  {
    var f := UnknownField(number, p);
    UnknownFieldSkips(f, number, p);
    assert f[0..] == f;
    OneFieldParses(f, m, m);
  }

  lemma UnknownFieldSkips(f: seq<byte>, number: nat, p: Payload)
    requires Unknown(number) && WellFormed(p) && Sliceable(|f|) && f == UnknownField(number, p)
    ensures f != [] && Skip(f, 0, 0) == Ok(|f|)
    ensures Varint(f, 0).Ok? && AsInt32(Varint(f, 0).value.0 / 8) == number
    ensures Varint(f, 0).value.0 % 8 == WireType(p)
  {
    var tag := number * 8 + WireType(p);
    assert |VarintBytes(tag)| > 0;
    hide DecodeVarint, VarintBytes;
    TagReads(tag, PayloadBytes(p));
    PayloadIsSkipped(VarintBytes(tag), p);
    hide AsInt32, SkipPayload;
    TagSplits(number, WireType(p));
  }

  lemma TagSplits(number: nat, wireType: nat)
    requires Unknown(number) && wireType < 8
    ensures var tag := number * 8 + wireType; AsInt32(tag / 8) == number && tag % 8 == wireType
  {
    var tag := number * 8 + wireType;
    assert tag / 8 == number;
  }

  /**
   Appending a well-formed field with an unknown number to any accepted buffer,
   and hence to any encoding, leaves the decoded message unchanged.
   */
  lemma UnknownFieldIgnored(s: seq<byte>, number: nat, p: Payload, m0: Web3Tx)
    requires Unknown(number) && WellFormed(p) && Sliceable(|s + UnknownField(number, p)|)
    requires Parse(s, 0, m0).Ok?
    ensures Parse(s + UnknownField(number, p), 0, m0) == Parse(s, 0, m0)
  {
    ConcatMerges(s, UnknownField(number, p), m0);
    UnknownFieldParses(number, p, Parse(s, 0, m0).value);
  }

  // ---------- Groups ----------

  /** What a group is made of: fields, and the markers that open and close groups. */
  datatype Token = Scalar(number: nat, payload: Payload) | Open(number: nat) | Close(number: nat)

  predicate Legal(t: Token) {
    t.number < 0x2000_0000 && (t.Scalar? ==> WellFormed(t.payload))
  }

  function TokenTag(t: Token): nat {
    t.number * 8 + match t case Scalar(_, p) => WireType(p) case Open(_) => 3 case Close(_) => 4
  }

  function TokenPayload(t: Token): seq<byte> {
    if t.Scalar? then PayloadBytes(t.payload) else []
  }

  function TokenBytes(t: Token): seq<byte> {
    VarintBytes(TokenTag(t)) + TokenPayload(t)
  }

  function Bytes(ts: seq<Token>): seq<byte> {
    if ts == [] then [] else TokenBytes(ts[0]) + Bytes(ts[1..])
  }

  /** The tokens close the open groups exactly with the last one. */
  predicate Closes(ts: seq<Token>, depth: nat)
    decreases |ts|
  {
    && ts != [] && Legal(ts[0]) && (ts[0].Close? ==> depth > 0)
    && var depth' := if ts[0].Open? then depth + 1 else if ts[0].Close? then depth - 1 else depth;
       if |ts| == 1 then depth' == 0 else depth' > 0 && Closes(ts[1..], depth')
  }

  lemma TokenIsRead(a: seq<byte>, t: Token, rest: seq<byte>)
    requires Legal(t) && Sliceable(|a + TokenBytes(t) + rest|)
    ensures var d, j := a + TokenBytes(t) + rest, |a| + |VarintBytes(TokenTag(t))|;
            && Varint(d, |a|) == Ok((TokenTag(t), j))
            && SkipPayload(d, j, TokenTag(t) % 8) == Ok(|a + TokenBytes(t)|)
  {
    hide DecodeVarint, VarintBytes, Skip;
    var tag, load := VarintBytes(TokenTag(t)), TokenPayload(t);
    ConcatAssociates(tag, load, rest);
    ConcatAssociates(a, tag, load + rest);
    ConcatAssociates(a, tag, load);
    VarintReads(a, TokenTag(t), load + rest);
    var d := a + TokenBytes(t) + rest;
    assert d == a + tag + (load + rest) by { ConcatAssociates(a + tag, load, rest); }
    TagKind(t);
    if t.Scalar? {
      PayloadIsSkipped(a + tag, t.payload);
      hide SkipPayload;
      SkipPayloadExtends(a + tag + load, rest, |a + tag|, WireType(t.payload));
    }
  }

  lemma TagKind(t: Token)
    ensures TokenTag(t) % 8 == match t case Scalar(_, p) => WireType(p) case Open(_) => 3 case Close(_) => 4
  {
  }

  /** Skipping goes from token to token and ends where the groups close. */
  lemma {:induction false} TokensAreSkipped(a: seq<byte>, ts: seq<Token>, depth: nat)
    requires Closes(ts, depth) && Sliceable(|a + Bytes(ts)|)
    ensures Skip(a + Bytes(ts), |a|, depth) == Ok(|a + Bytes(ts)|)
    decreases |ts|
  {
    hide DecodeVarint, SkipPayload, TokenTag;
    var d, t, rest := a + Bytes(ts), ts[0], ts[1..];
    assert Legal(t);
    ConcatAssociates(a, TokenBytes(t), Bytes(rest));
    TokenIsRead(a, t, Bytes(rest));
    TagKind(t);
    TokenIsNotEmpty(t);
    if |ts| > 1 {
      TokensAreSkipped(a + TokenBytes(t), rest, if t.Open? then depth + 1 else if t.Close? then depth - 1 else depth);
    } else {
      assert Bytes(rest) == [] && a + TokenBytes(t) == d;
    }
  }

  lemma TokenIsNotEmpty(t: Token)
    ensures |TokenBytes(t)| > 0
  {
  }

  /**
   Appending a whole group with an unknown number, whatever fields and groups it holds, to
   any readable bytes does not change what is read.
   */
  lemma UnknownGroupIgnored(s: seq<byte>, ts: seq<Token>, m0: Web3Tx)
    requires ts != [] && ts[0].Open? && Unknown(ts[0].number) && Closes(ts, 0)
    requires Sliceable(|s + Bytes(ts)|) && Parse(s, 0, m0).Ok?
    ensures Parse(s + Bytes(ts), 0, m0) == Parse(s, 0, m0)
  {
    ConcatMerges(s, Bytes(ts), m0);
    UnknownGroupParses(ts, Parse(s, 0, m0).value);
  }

  lemma UnknownGroupParses(ts: seq<Token>, m: Web3Tx)
    requires ts != [] && ts[0].Open? && Unknown(ts[0].number) && Closes(ts, 0) && Sliceable(|Bytes(ts)|)
    ensures Parse(Bytes(ts), 0, m) == Ok(m)
  {
    var f := Bytes(ts);
    UnknownGroupSkips(ts);
    assert f[0..] == f;
    OneFieldParses(f, m, m);
  }

  lemma UnknownGroupSkips(ts: seq<Token>)
    requires ts != [] && ts[0].Open? && Unknown(ts[0].number) && Closes(ts, 0) && Sliceable(|Bytes(ts)|)
    ensures var f := Bytes(ts);
            && f != [] && Skip(f, 0, 0) == Ok(|f|)
            && Varint(f, 0).Ok? && AsInt32(Varint(f, 0).value.0 / 8) == ts[0].number && Varint(f, 0).value.0 % 8 == 3
  {
    hide DecodeVarint, VarintBytes, SkipPayload, Skip, AsInt32, TokenBytes, TokenTag;
    var f := Bytes(ts);
    assert [] + f == f && [] + TokenBytes(ts[0]) + Bytes(ts[1..]) == f;
    TokensAreSkipped([], ts, 0);
    TokenIsRead([], ts[0], Bytes(ts[1..]));
    TokenIsNotEmpty(ts[0]);
    OpenTag(ts[0]);
    TagSplits(ts[0].number, 3);
  }

  lemma OpenTag(t: Token)
    requires t.Open?
    ensures TokenTag(t) == t.number * 8 + 3
  {
  }

  // ---------- What is refused ----------

  /** A bad tag is refused whatever follows it: an end-group marker, number zero, or a known field of another wire type. */
  lemma BadTagIsRefused(number: nat, wireType: nat, rest: seq<byte>, m: Web3Tx)
    requires number < 0x2000_0000 && wireType < 8 && Sliceable(|VarintBytes(number * 8 + wireType) + rest|)
    ensures var r := Parse(VarintBytes(number * 8 + wireType) + rest, 0, m);
            && (wireType == 4 ==> r == Err(EndGroup))
            && (wireType != 4 && number == 0 ==> r == Err(IllegalTag))
            && (wireType != 4 && wireType != 0 && number == 1 ==> r == Err(WrongWireType))
            && (wireType != 4 && wireType != 2 && (number == 2 || number == 3) ==> r == Err(WrongWireType))
  {
    assert |VarintBytes(number * 8 + wireType)| > 0;
    hide DecodeVarint, VarintBytes, Body;
    TagReads(number * 8 + wireType, rest);
    NumberReads(number, wireType);
    hide AsInt32;
  }

  lemma NumberReads(number: nat, wireType: nat)
    requires number < 0x2000_0000 && wireType < 8
    ensures AsInt32((number * 8 + wireType) / 8) == number && (number * 8 + wireType) % 8 == wireType
  {
  }

  /** A payer or signature that announces more bytes than there are is refused. */
  lemma TruncatedBodyIsRefused(number: nat, n: nat, body: seq<byte>, m: Web3Tx)
    requires (number == 2 || number == 3) && |body| < n < UINT64_LIMIT
    requires Sliceable(|VarintBytes(number * 8 + 2) + VarintBytes(n) + body|)
    ensures Parse(VarintBytes(number * 8 + 2) + VarintBytes(n) + body, 0, m) ==
            Err(if 1 + |VarintBytes(n)| + n < INT64_LIMIT then UnexpectedEOF else InvalidLength)
  {
    var tag := VarintBytes(number * 8 + 2);
    assert |tag| == 1;
    hide DecodeVarint, VarintBytes;
    ConcatAssociates(tag, VarintBytes(n), body);
    TagReads(number * 8 + 2, VarintBytes(n) + body);
    NumberReads(number, 2);
    VarintReads(tag, n, body);
    hide AsInt32;
  }

  /** Ten bytes that all go on are no varint. */
  lemma {:induction false} EndlessVarintIsRefused(s: seq<byte>, i: nat, k: nat, acc: uint64)
    requires k <= 10 && i + 10 - k <= |s| && forall j | i <= j < i + 10 - k :: s[j] >= 128
    ensures DecodeVarint(s, i, k, acc) == Err(IntOverflow)
    decreases 10 - k
  {
    if k < 10 { EndlessVarintIsRefused(s, i + 1, k + 1, OrDigit(acc, s[i], k)); }
  }

  /** The wire format by example: field numbers 1 to 3, a varint and two byte fields. */
  lemma WireExample()
    ensures VarintBytes(300) == [0xac, 0x02]
    ensures Encode(Web3Tx(300, [0x61], [0x62, 0x63])) == [0x08, 0xac, 0x02, 0x12, 0x01, 0x61, 0x1a, 0x02, 0x62, 0x63]
  {
    assert VarintBytes(300) == [300 % 128 + 128] + VarintBytes(2);
    assert VarintBytes(1) == [1] && VarintBytes(2) == [2];
  }
}
