/** Unsigned LEB128, as the AOT appender writes and reads it. */
module Leb128 {
  import opened Bits

  /** The bytes the encoder emits: seven bits each, low first, the top bit set on
      all but the last. Zero yields no byte at all. */
  function Encode(value: nat): (r: seq<byte>) {
    if value == 0 then []
    else if value < 128 then [value]
    else [128 + value % 128] + Encode(value / 128)
  }

  /** Bytes consumed and value read; `None` on empty input, where the reader has
      no index to report and raises. */
  function Decode(binary: seq<byte>): Option<(nat, nat)> {
    if |binary| == 0 then None
    else if binary[0] < 128 || |binary| == 1 then Some((1, binary[0] % 128))
    else
      var rest := Decode(binary[1..]).value;
      Some((rest.0 + 1, binary[0] % 128 + 128 * rest.1))
  }

  method LowSevenBits(v: nat) returns (low: nat)
    ensures low == v % 128
  {
    LowBits(v);
    low := And(v, 0x7F);
  }

  method OrShifted(result: nat, low: nat, shift: nat) returns (r: nat)
    requires result < Pow2(shift)
    ensures r == result + Shl(low, shift)
  {
    OrDisjoint(result, low, shift);
    r := Or(result, Shl(low, shift));
  }

  method EncodeUint(v: nat) returns (binary: seq<byte>)
    ensures binary == Encode(v)
  {
    var value := v;
    binary := [];
    while value != 0
      invariant binary + Encode(value) == Encode(v)
      decreases value
    {
      var lower7Bits := LowSevenBits(value);
      ghost var before := value;
      value := value / 128;
      var currentByte;
      if value != 0 {
        OrHighBit(lower7Bits);
        currentByte := Or(0x80, lower7Bits);
      } else {
        OrZero(lower7Bits);
        currentByte := Or(0x00, lower7Bits);
      }
      EncodeStep(binary, before, currentByte);
      binary := binary + [currentByte];
    }
  }

  lemma EncodeStep(binary: seq<byte>, value: nat, b: byte)
    requires value > 0 && b == (if value >= 128 then 128 else 0) + value % 128
    ensures binary + Encode(value) == binary + [b] + Encode(value / 128)
  {
    assert Encode(value) == [b] + Encode(value / 128);
  }

  method DecodeUint(binary: seq<byte>) returns (r: Option<(nat, nat)>)
    ensures r == Decode(binary)
  {
    if |binary| == 0 {
      return None;
    }
    var result: nat, shift: nat, i: nat := 0, 0, 0;
    while true
      invariant i < |binary| && result < Pow2(shift)
      invariant Decode(binary) == Resume(i, result, shift, binary[i..])
      decreases |binary| - i
    {
      var b := binary[i];
      var lower7Bits := LowSevenBits(b);
      ReadByte(i, result, shift, binary[i..]);
      assert binary[i..][1..] == binary[i + 1..];
      result := OrShifted(result, lower7Bits, shift);
      if b < 128 || i == |binary| - 1 {
        break;
      }
      shift := shift + 7;
      i := i + 1;
    }
    r := Some((i + 1, result));
  }

  /** What the reader will return when `i` bytes are consumed, `result` is the value
      of their low bits, and `rest` is still to be read. */
  ghost function Resume(i: nat, result: nat, shift: nat, rest: seq<byte>): Option<(nat, nat)>
    requires |rest| > 0
  {
    var r := Decode(rest).value;
    Some((i + r.0, result + Shl(r.1, shift)))
  }

  lemma ReadByte(i: nat, result: nat, shift: nat, rest: seq<byte>)
    requires |rest| > 0 && result < Pow2(shift)
    ensures var next := result + Shl(rest[0] % 128, shift);
            && next < Pow2(shift + 7)
            && Resume(i, result, shift, rest) ==
               if rest[0] < 128 || |rest| == 1 then Some((i + 1, next))
               else Resume(i + 1, next, shift + 7, rest[1..])
  {
    var tail := if |rest| == 1 then 0 else Decode(rest[1..]).value.1;
    ShlAdd(rest[0] % 128, tail, shift);
  }

  lemma LowBits(v: nat)
    ensures And(v, 0x7F) == v % 128
  {
    assert IsPow2(2) && IsPow2(4) && IsPow2(8) && IsPow2(16) && IsPow2(32) && IsPow2(64) && IsPow2(128);
    AndMask(v, 128);
  }

  lemma OrHighBit(low: nat)
    requires low < 128
    ensures Or(0x80, low) == 128 + low
  {
    OrCommutes(0x80, low);
    assert Pow2(3) == 8 && Pow2(5) == 32 && Pow2(7) == 128;
    OrDisjoint(low, 1, 7);
  }

  lemma {:induction false} OrCommutes(a: nat, b: nat)
    ensures Or(a, b) == Or(b, a)
    decreases a + b
  {
    if a + b > 0 { OrCommutes(a / 2, b / 2); }
  }

  /** Decoding undoes encoding whatever bytes follow, for every positive value. */
  lemma {:induction false} DecodeEncode(value: nat, rest: seq<byte>)
    requires value > 0
    ensures |Encode(value)| > 0
    ensures Decode(Encode(value) + rest) == Some((|Encode(value)|, value))
    decreases value
  {
    var all := Encode(value) + rest;
    if value < 128 {
      assert all[0] == value;
    } else {
      var high := value / 128;
      var tail := Encode(high) + rest;
      DecodeEncode(high, rest);
      TailOf(value, high, rest);
      DecodeStep(all, value % 128, tail, |Encode(high)|, high, value);
    }
  }

  lemma TailOf(value: nat, high: nat, rest: seq<byte>)
    requires value >= 128 && high == value / 128
    ensures |Encode(value)| == |Encode(high)| + 1
    ensures (Encode(value) + rest)[0] == 128 + value % 128
    ensures (Encode(value) + rest)[1..] == Encode(high) + rest
  {
  }

  lemma DecodeStep(all: seq<byte>, low: nat, tail: seq<byte>, n: nat, high: nat, value: nat)
    requires low < 128 && |all| > 1 && all[0] == 128 + low && all[1..] == tail
    requires Decode(tail) == Some((n, high)) && value == low + 128 * high
    ensures Decode(all) == Some((n + 1, value))
  {
  }

  /** The round trip holds for a value exactly when it is positive: zero encodes to
      nothing, so a reader can never report having consumed it. */
  lemma RoundTripExact(value: nat)
    ensures value > 0 <==>
            forall rest: seq<byte> :: Decode(Encode(value) + rest) == Some((|Encode(value)|, value))
  {
    if value > 0 {
      forall rest: seq<byte>
        ensures Decode(Encode(value) + rest) == Some((|Encode(value)|, value))
      {
        DecodeEncode(value, rest);
      }
    } else {
      var none: seq<byte> := [];
      assert Encode(0) + none == [];
      assert Decode(Encode(0) + none) == None;
    }
  }

  lemma DivBound(value: nat, p: nat)
    ensures value / 128 < p <==> value < 128 * p
  {
  }

  /** Encoded length is monotone, and it is at most `k` exactly below `128^k`. */
  lemma {:induction false} LengthBound(value: nat, k: nat)
    ensures |Encode(value)| <= k <==> value < Pow2(7 * k)
    decreases k
  {
    if k > 0 {
      Pow2Add(7, 7 * (k - 1));
      assert Pow2(7) == 128;
      DivBound(value, Pow2(7 * (k - 1)));
      if value >= 128 {
        LengthBound(value / 128, k - 1);
      } else {
        assert |Encode(value)| <= 1;
      }
    } else {
      assert value > 0 ==> |Encode(value)| >= 1;
    }
  }

  lemma {:induction false} LengthMonotone(a: nat, b: nat)
    requires a <= b
    ensures |Encode(a)| <= |Encode(b)|
  {
    LengthBound(b, |Encode(b)|);
    LengthBound(a, |Encode(b)|);
  }
}
