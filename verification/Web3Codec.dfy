/**
 The wire codec of ExtensionOptionsWeb3Tx in ethereum/eip712/web3.pb.go: a
 printer that fills its buffer from the back, and a parser that skips the fields
 it does not know.

 uint64 values are naturals below 2^64 and Go's 64-bit int is written out with
 `AsInt64`.  Or-ing seven fresh bits in at bit 7*k is adding them, because everything
 accumulated before lies below 2^(7*k), as DecodeKeepsLowBits shows; bits beyond the 64th
 are cut off.
 */
module Web3Codec {
  import opened Prelude

  type byte = x: int | 0 <= x < 256
  type uint64 = x: int | 0 <= x < UINT64_LIMIT

  datatype Web3Tx = Web3Tx(typedDataChainID: uint64, feePayer: seq<byte>, feePayerSig: seq<byte>)

  datatype Error =
    | IntOverflow | UnexpectedEOF | InvalidLength | EndGroup | UnexpectedEndOfGroup
    | IllegalTag | WrongWireType | IllegalWireType

  const EMPTY := Web3Tx(0, [], [])

  /** A Go slice's length is an int. */
  predicate Sliceable(n: nat) {
    n < INT64_LIMIT
  }

  // ---------- Varints ----------

  function VarintBytes(v: nat): seq<byte> {
    if v < 128 then [v] else [v % 128 + 128] + VarintBytes(v / 128)
  }

  /** x << (7 * k), unbounded */
  function Shift7(x: nat, k: nat): nat {
    if k == 0 then x else 128 * Shift7(x, k - 1)
  }

  /** acc | uint64(b & 0x7F) << (7 * k) */
  function OrDigit(acc: uint64, b: byte, k: nat): uint64 {
    (acc + Shift7(b % 128, k) % UINT64_LIMIT) % UINT64_LIMIT
  }

  /** The decoding loop from its k-th byte on: the value and the index behind it. */
  function DecodeVarint(s: seq<byte>, i: nat, k: nat, acc: uint64): Result<(uint64, nat), Error>
    decreases |s| - i
  {
    if k >= 10 then Err(IntOverflow)
    else if i >= |s| then Err(UnexpectedEOF)
    else
      var acc' := OrDigit(acc, s[i], k);
      if s[i] < 128 then Ok((acc', i + 1)) else DecodeVarint(s, i + 1, k + 1, acc')
  }

  function Varint(s: seq<byte>, i: nat): Result<(uint64, nat), Error> {
    DecodeVarint(s, i, 0, 0)
  }

  lemma {:induction false} DecodeMoves(s: seq<byte>, i: nat, k: nat, acc: uint64)
    ensures var r := DecodeVarint(s, i, k, acc); r.Ok? ==> i < r.value.1 <= |s|
    decreases |s| - i
  {
    if k < 10 && i < |s| && s[i] >= 128 {
      DecodeMoves(s, i + 1, k + 1, OrDigit(acc, s[i], k));
    }
  }

  lemma {:induction false} Shift7IsProduct(x: nat, k: nat)
    ensures Shift7(x, k) == x * Shift7(1, k) && Shift7(1, k) > 0
  {
    if k > 0 { Shift7IsProduct(x, k - 1); }
  }

  lemma Shift7Next(k: nat)
    ensures Shift7(1, k + 1) == 128 * Shift7(1, k)
  {
  }

  lemma Shift7Limits(k: nat)
    requires k < 9
    ensures Shift7(1, k + 1) <= Shift7(1, 9) == 0x8000_0000_0000_0000
  {
    assert Shift7(1, 4) == 0x1000_0000 && Shift7(1, 8) == 0x100_0000_0000_0000;
    Shift7Grows(1, k + 1, 9);
  }

  /**
   While the accumulated value lies below 2^(7*k), the next digit's bits lie above it: the
   sum neither carries nor wraps, leaves the bits below as they were, and lies below
   2^(7*(k+1)).
   */
  lemma DigitsDoNotOverlap(acc: uint64, b: byte, k: nat) returns (digit: nat)
    requires k < 10 && acc < Shift7(1, k)
    ensures digit == (if k < 9 then b % 128 else b % 2)
    ensures OrDigit(acc, b, k) == digit * Shift7(1, k) + acc < Shift7(1, k + 1)
  {
    if k < 9 {
      digit := b % 128;
      LowDigit(acc, b, k);
    } else {
      digit := b % 2;
      HighDigit(acc, b);
    }
  }

  lemma OrDigitAdds(acc: uint64, b: byte, k: nat)
    requires acc + Shift7(b % 128, k) < UINT64_LIMIT
    ensures OrDigit(acc, b, k) == acc + Shift7(b % 128, k)
  {
    hide Shift7;
  }

  lemma LowDigit(acc: uint64, b: byte, k: nat)
    requires k < 9 && acc < Shift7(1, k)
    ensures OrDigit(acc, b, k) == b % 128 * Shift7(1, k) + acc < Shift7(1, k + 1)
  {
    hide Shift7, OrDigit;
    var d, p := b % 128, Shift7(1, k);
    Shift7Next(k);
    Shift7IsProduct(d, k);
    Shift7Limits(k);
    DigitIsSmall(d, p, acc);
    OrDigitAdds(acc, b, k);
  }

  lemma HighDigit(acc: uint64, b: byte)
    requires acc < Shift7(1, 9)
    ensures OrDigit(acc, b, 9) == b % 2 * Shift7(1, 9) + acc < Shift7(1, 10)
  {
    hide Shift7;
    Shift7Next(9);
    Shift7IsProduct(b % 128, 9);
    Shift7Limits(0);
    LastDigit(b % 128);
    assert b % 128 % 2 == b % 2;
  }

  lemma DigitIsSmall(d: nat, p: nat, acc: nat)
    requires d < 128 && acc < p
    ensures d * p + acc < 128 * p
  {
    assert d * p + (127 - d) * p == 127 * p;
  }

  lemma LastDigit(d: nat)
    requires d < 128
    ensures d * 0x8000_0000_0000_0000 % UINT64_LIMIT == d % 2 * 0x8000_0000_0000_0000
  {
  }

  /** The bits read first are never changed by what follows. */
  lemma {:induction false} DecodeKeepsLowBits(s: seq<byte>, i: nat, k: nat, acc: uint64) returns (high: nat)
    requires acc < Shift7(1, k)
    ensures var r := DecodeVarint(s, i, k, acc); r.Ok? ==> k < 10 && r.value.0 == high * Shift7(1, k) + acc
    decreases |s| - i
  {
    high := 0;
    if k < 10 && i < |s| {
      var digit := DigitsDoNotOverlap(acc, s[i], k);
      high := digit;
      if s[i] >= 128 {
        hide OrDigit;
        var above := DecodeKeepsLowBits(s, i + 1, k + 1, OrDigit(acc, s[i], k));
        high := 128 * above + digit;
        Regroup(above, digit, Shift7(1, k));
      }
    }
  }

  lemma Regroup(above: nat, digit: nat, p: nat)
    ensures above * (128 * p) + digit * p == (128 * above + digit) * p
  {
  }

  /** `t` stands in `s` at position i. */
  ghost predicate At(s: seq<byte>, i: nat, t: seq<byte>) {
    i + |t| <= |s| && s[i..i + |t|] == t
  }

  lemma AtSplit(s: seq<byte>, i: nat, a: seq<byte>, b: seq<byte>)
    requires At(s, i, a + b)
    ensures At(s, i, a) && At(s, i + |a|, b)
  {
    var t := s[i..i + |a + b|];
    assert t[..|a|] == a && t[|a|..] == b;
    assert s[i..i + |a|] == t[..|a|];
    assert s[i + |a|..i + |a| + |b|] == t[|a|..];
  }

  lemma {:induction false} Shift7Splits(v: nat, k: nat)
    ensures Shift7(v, k) == Shift7(v % 128, k) + Shift7(v / 128, k + 1)
  {
    if k > 0 { Shift7Splits(v, k - 1); }
  }

  lemma {:induction false} Shift7Grows(v: nat, j: nat, k: nat)
    requires v > 0 && j <= k
    ensures Shift7(1, j) <= Shift7(v, k)
  {
    if j < k {
      Shift7Grows(v, j, k - 1);
    } else if k > 0 {
      Shift7Grows(v, j - 1, k - 1);
    }
  }

  /** A uint64 has at most ten groups of seven bits. */
  lemma TenBytesSuffice(v: nat, k: nat)
    requires Shift7(v, k) < UINT64_LIMIT && v > 0
    ensures k < 10
  {
    assert Shift7(1, 4) == 0x1000_0000;
    assert Shift7(1, 8) == 0x100_0000_0000_0000;
    assert Shift7(1, 10) >= UINT64_LIMIT;
    if k >= 10 {
      Shift7Grows(v, 10, k);
    }
  }

  /** The seven bits read at position k, and those still to come, keep the value whole. */
  lemma DigitSplit(acc: nat, v: nat, k: nat)
    requires acc + Shift7(v, k) < UINT64_LIMIT
    ensures OrDigit(acc, v % 128, k) + Shift7(v / 128, k + 1) == acc + Shift7(v, k)
  {
    Shift7Splits(v, k);
    assert v % 128 % 128 == v % 128;
  }

  lemma VarintAt(s: seq<byte>, i: nat, v: nat)
    requires At(s, i, VarintBytes(v))
    ensures i < |s| && s[i] == if v < 128 then v else v % 128 + 128
    ensures v >= 128 ==> At(s, i + 1, VarintBytes(v / 128))
    ensures |VarintBytes(v)| == if v < 128 then 1 else 1 + |VarintBytes(v / 128)|
  {
    assert s[i] == s[i..i + |VarintBytes(v)|][0];
    if v >= 128 {
      AtSplit(s, i, [v % 128 + 128], VarintBytes(v / 128));
    }
  }

  lemma DigitOf(acc: uint64, b: byte, v: nat, k: nat)
    requires b == if v < 128 then v else v % 128 + 128
    ensures OrDigit(acc, b, k) == OrDigit(acc, v % 128, k) && (v < 128 ==> v / 128 == 0)
  {
    assert b % 128 == v % 128 == v % 128 % 128;
  }

  lemma {:induction false} DecodeEncoded(s: seq<byte>, i: nat, k: nat, acc: nat, v: nat)
    requires At(s, i, VarintBytes(v)) && (v > 0 || k == 0)
    requires acc + Shift7(v, k) < UINT64_LIMIT
    ensures DecodeVarint(s, i, k, acc) == Ok((acc + Shift7(v, k), i + |VarintBytes(v)|))
    decreases v
  {
    hide VarintBytes, OrDigit, Shift7, At;
    VarintAt(s, i, v);
    DigitSplit(acc, v, k);
    DigitOf(acc, s[i], v, k);
    if v > 0 { TenBytesSuffice(v, k); }
    if v >= 128 {
      DecodeEncoded(s, i + 1, k + 1, OrDigit(acc, s[i], k), v / 128);
    } else {
      Shift7OfZero(k + 1);
    }
  }

  lemma {:induction false} Shift7OfZero(k: nat)
    ensures Shift7(0, k) == 0
  {
    if k > 0 { Shift7OfZero(k - 1); }
  }

  /** Decoding an encoded uint64 gives it back and stops behind it. */
  lemma VarintRoundTrip(s: seq<byte>, i: nat, v: uint64)
    requires At(s, i, VarintBytes(v))
    ensures Varint(s, i) == Ok((v, i + |VarintBytes(v)|))
  {
    DecodeEncoded(s, i, 0, 0, v);
  }

  // ---------- Sizes ----------

  /** math/bits.Len64 */
  function BitLen(x: nat): nat {
    if x == 0 then 0 else 1 + BitLen(x / 2)
  }

  /** sovWeb3: Len64(x|1), in groups of seven bits. */
  function Sov(x: nat): nat {
    (BitLen(if x % 2 == 0 then x + 1 else x) + 6) / 7
  }

  lemma BitLenBy7(x: nat)
    requires x >= 128
    ensures BitLen(x) == 7 + BitLen(x / 128)
  {
    BitLenBy4(x);
    BitLenBy4(x / 4);
    BitLenBy4(x / 16);
    hide BitLen;
    BitLenBy2(x / 64);
    assert x / 4 / 4 == x / 16 && x / 16 / 4 == x / 64 && x / 64 / 2 == x / 128;
  }

  lemma BitLenBy2(x: nat)
    requires x >= 1
    ensures BitLen(x) == 1 + BitLen(x / 2)
  {
  }

  lemma BitLenBy4(x: nat)
    requires x >= 2
    ensures BitLen(x) == 2 + BitLen(x / 4)
  {
    hide BitLen;
    BitLenBy2(x);
    BitLenBy2(x / 2);
    assert x / 2 / 2 == x / 4;
  }

  lemma {:induction false} SovIsLength(v: nat)
    ensures Sov(v) == |VarintBytes(v)|
  {
    if v < 128 {
      BitLenSmall(if v % 2 == 0 then v + 1 else v);
    } else {
      SovIsLength(v / 128);
      BitLenBy7(v);
      OddSameLength(v);
      OddSameLength(v / 128);
    }
  }

  lemma BitLenSmall(x: nat)
    requires 1 <= x < 128
    ensures 1 <= BitLen(x) <= 7
  {
    assert BitLen(x / 64) <= 1;
    assert BitLen(x / 32) <= 2;
    assert BitLen(x / 16) <= 3;
    assert BitLen(x / 8) <= 4;
    assert BitLen(x / 4) <= 5;
    assert BitLen(x / 2) <= 6;
  }

  lemma OddSameLength(x: nat)
    requires x >= 1
    ensures BitLen(if x % 2 == 0 then x + 1 else x) == BitLen(x)
  {
    assert x % 2 == 0 ==> (x + 1) / 2 == x / 2;
  }

  function Size(m: Web3Tx): nat {
    (if m.typedDataChainID != 0 then 1 + Sov(m.typedDataChainID) else 0)
    + (var l := |m.feePayer|; if l > 0 then 1 + l + Sov(l) else 0)
    + (var l := |m.feePayerSig|; if l > 0 then 1 + l + Sov(l) else 0)
  }

  // ---------- Encoding ----------

  function LengthField(tag: byte, body: seq<byte>): seq<byte> {
    if body == [] then [] else [tag] + VarintBytes(|body|) + body
  }

  function ChainIdField(id: uint64): seq<byte> {
    if id == 0 then [] else [0x8] + VarintBytes(id)
  }

  /** The fields in ascending order, defaults left out. */
  function Encode(m: Web3Tx): seq<byte> {
    ChainIdField(m.typedDataChainID) + LengthField(0x12, m.feePayer) + LengthField(0x1a, m.feePayerSig)
  }

  lemma SizeIsLength(m: Web3Tx)
    ensures Size(m) == |Encode(m)|
    ensures |LengthField(0x12, m.feePayer)| + |LengthField(0x1a, m.feePayerSig)| <= Size(m)
  {
    SovIsLength(m.typedDataChainID);
    SovIsLength(|m.feePayer|);
    SovIsLength(|m.feePayerSig|);
  }

  /** encodeVarintWeb3: reserves the bytes in front of `offset`, then writes forwards into them. */
  method EncodeVarint(a: array<byte>, offset: nat, v: uint64) returns (base: nat)
    requires |VarintBytes(v)| <= offset <= a.Length
    modifies a
    ensures base == offset - |VarintBytes(v)|
    ensures a[base..] == VarintBytes(v) + old(a[offset..])
  {
    SovIsLength(v);
    var at, rest := offset - Sov(v), v;
    base := at;
    ghost var tail := a[offset..];
    while rest >= 128
      invariant base <= at && at + |VarintBytes(rest)| == offset
      invariant a[base..at] + VarintBytes(rest) == VarintBytes(v)
      invariant a[offset..] == tail
      decreases rest
    {
      ghost var written := a[base..at];
      a[at] := rest % 128 + 128;
      assert a[base..at + 1] == written + [rest % 128 + 128];
      assert a[offset..] == tail;
      rest := rest / 128;
      at := at + 1;
    }
    ghost var written := a[base..at];
    a[at] := rest;
    assert a[base..] == written + [rest] + a[offset..];
    assert a[offset..] == tail;
  }

  /** Go's copy. */
  method CopyInto(a: array<byte>, i: nat, body: seq<byte>)
    requires i + |body| <= a.Length
    modifies a
    ensures a[i..] == body + old(a[i + |body|..])
  {
    for k := 0 to |body|
      invariant forall j | 0 <= j < k :: a[i + j] == body[j]
      invariant a[i + |body|..] == old(a[i + |body|..])
    {
      a[i + k] := body[k];
    }
    assert a[i..] == body + a[i + |body|..];
  }

  /** dAtA[i] = b, in front of what is written already. */
  method PutByte(a: array<byte>, i: nat, b: byte)
    requires i < a.Length
    modifies a
    ensures a[i..] == [b] + old(a[i + 1..])
  {
    a[i] := b;
  }

  /** A varint written back from `end`, and the tag in front of it. */
  method WriteTagged(a: array<byte>, end: nat, tag: byte, v: uint64) returns (i: nat)
    requires 1 + |VarintBytes(v)| <= end <= a.Length
    modifies a
    ensures i == end - 1 - |VarintBytes(v)|
    ensures a[i..] == [tag] + VarintBytes(v) + old(a[end..])
  {
    hide VarintBytes;
    ghost var tail, varint := a[end..], VarintBytes(v);
    i := EncodeVarint(a, end, v);
    i := i - 1;
    PutByte(a, i, tag);
    ConcatAssociates([tag], varint, tail);
  }

  /** One length-delimited field written back from `end`: body, its length, its tag. */
  method WriteLengthField(a: array<byte>, end: nat, tag: byte, body: seq<byte>) returns (i: nat)
    requires |LengthField(tag, body)| <= end <= a.Length && Sliceable(|body|)
    modifies a
    ensures i == end - |LengthField(tag, body)|
    ensures a[i..] == LengthField(tag, body) + old(a[end..])
  {
    hide VarintBytes;
    i := end;
    if |body| > 0 {
      ghost var tail, header := a[end..], [tag] + VarintBytes(|body|);
      i := i - |body|;
      CopyInto(a, i, body);
      i := WriteTagged(a, i, tag, |body|);
      ConcatAssociates(header, body, tail);
    }
  }

  /**
   MarshalToSizedBuffer: fills the tail of the buffer with the encoding.  A buffer
   that is too small makes the code panic.
   */
  method MarshalToSizedBuffer(m: Web3Tx, a: array<byte>) returns (n: nat)
    requires Size(m) <= a.Length && Sliceable(a.Length)
    modifies a
    ensures n == Size(m) == |Encode(m)|
    ensures a[a.Length - n..] == Encode(m)
  {
    SizeIsLength(m);
    ghost var payer, sig := LengthField(0x12, m.feePayer), LengthField(0x1a, m.feePayerSig);
    var i := WriteLengthField(a, a.Length, 0x1a, m.feePayerSig);
    assert a[i..] == sig + [] == sig;
    i := WriteLengthField(a, i, 0x12, m.feePayer);
    assert a[i..] == payer + sig;
    if m.typedDataChainID != 0 {
      i := WriteTagged(a, i, 0x8, m.typedDataChainID);
    }
    ConcatAssociates(ChainIdField(m.typedDataChainID), payer, sig);
    n := a.Length - i;
  }

  /** Marshal: the writer ends exactly at offset 0 of a buffer of Size(m) bytes. */
  method Marshal(m: Web3Tx) returns (dAtA: seq<byte>)
    requires Sliceable(Size(m))
    ensures dAtA == Encode(m)
  {
    var a := new byte[Size(m)](_ => 0);
    var n := MarshalToSizedBuffer(m, a);
    dAtA := a[..n];
  }
}
