/**
 LEB128 and SLEB128 numbers: seven bits to a byte, the lowest first, and the highest bit of
 a byte set if more follow (section 7.6 of DWARF 4).
 */
module Leb {
  import opened Basics
  import opened Numbers

  /** A decoded number and the number of bytes it took. */
  datatype Decoded = Decoded(value: int, size: nat)

  /** The number at the start of some data; None if the data end within it. */
  function Decode(signed: bool, data: seq<Byte>): (r: Option<Decoded>)
    ensures r.Some? ==> 0 < r.value.size <= |data|
  {
    if data == [] then None
    else
      var b: int := data[0];
      if b < 128 then Some(Decoded(if signed && b >= 64 then b - 128 else b, 1))
      else
        match Decode(signed, data[1..])
        case None => None
        case Some(d) => Some(Decoded(b - 128 + 128 * d.value, d.size + 1))
  }

  /** Seven bits are enough for v: what is left says nothing that the seventh does not. */
  predicate Last(signed: bool, v: int) {
    if signed then (v / 128 == 0 && v % 128 < 64) || (v / 128 == -1 && v % 128 >= 64) else v / 128 == 0
  }

  /** The lowest seven bits, marked unless they are the last. */
  function Head(signed: bool, v: int): Byte { if Last(signed, v) then v % 128 else 128 + v % 128 }

  function Size(v: int): nat { if v >= 0 then v else -v }

  function Encode(signed: bool, v: int): (data: seq<Byte>)
    requires signed || v >= 0
    ensures data != []
    decreases Size(v)
  {
    if Last(signed, v) then [Head(signed, v)] else [Head(signed, v)] + Encode(signed, v / 128)
  }

  /** Whatever follows it, an encoded number decodes to itself and takes its own bytes only. */
  lemma {:induction false} RoundTrip(signed: bool, v: int, rest: seq<Byte>)
    requires signed || v >= 0
    ensures Decode(signed, Encode(signed, v) + rest) == Some(Decoded(v, |Encode(signed, v)|))
    decreases Size(v)
  {
    var data := Encode(signed, v) + rest;
    if !Last(signed, v) {
      RoundTrip(signed, v / 128, rest);
      assert data[1..] == Encode(signed, v / 128) + rest;
    }
  }

  /** No shorter data decode to the same number. */
  lemma {:induction false} EncodingIsShortest(signed: bool, data: seq<Byte>)
    requires Decode(signed, data).Some?
    ensures var d := Decode(signed, data).value; (signed || d.value >= 0) && |Encode(signed, d.value)| <= d.size
    decreases |data|
  {
    if data[0] >= 128 {
      var d, d' := Decode(signed, data).value, Decode(signed, data[1..]).value;
      EncodingIsShortest(signed, data[1..]);
      assert d.value / 128 == d'.value;
    }
  }

  /** Data without a last byte, and only they, do not decode. */
  lemma {:induction false} FailsIff(signed: bool, data: seq<Byte>)
    ensures Decode(signed, data) == None <==> forall i :: 0 <= i < |data| ==> data[i] >= 128
    decreases |data|
  {
    if data != [] && data[0] >= 128 {
      FailsIff(signed, data[1..]);
      assert forall i :: 1 <= i < |data| ==> data[i] == data[1..][i - 1];
    }
  }

  // ----- The loops -----

  /** The read position moves past the bytes that were used. */
  method DecodeLoop(signed: bool, data: seq<Byte>, start: nat) returns (r: Option<int>, pos: nat)
    requires start <= |data|
    ensures start <= pos <= |data|
    ensures match Decode(signed, data[start..])
      case None => r == None
      case Some(d) => r == Some(d.value) && pos == start + d.size
  {
    var result, shift := 0, 0;
    pos := start;
    while true
      invariant start <= pos <= |data| && 0 <= shift && 0 <= result < Pow2(shift)
      invariant Continues(Decode(signed, data[start..]), Decode(signed, data[pos..]), result, shift, pos - start)
      decreases |data| - pos
    {
      if pos == |data| {
        return None, pos;
      }
      var b: Byte := data[pos];
      OneMoreByte(signed, data, start, pos, result, shift);
      result := result + b % 128 * Pow2(shift);
      shift := shift + 7;
      pos := pos + 1;
      if b < 128 {
        if signed && b >= 64 {
          result := result - Pow2(shift);
        }
        return Some(result), pos;
      }
    }
  }

  /** The whole number, given the bits of the bytes before and the number made of the rest. */
  ghost predicate Continues(whole: Option<Decoded>, rest: Option<Decoded>, result: int, shift: nat, n: int) {
    if rest.None? then whole.None?
    else n >= 0 && whole == Some(Decoded(result + rest.value.value * Pow2(shift), n + rest.value.size))
  }

  lemma Pow2Seven(shift: nat)
    ensures Pow2(shift + 7) == 128 * Pow2(shift)
  {
    Pow2Add(shift, 7);
    assert Pow2(7) == 128;
  }

  /** Moving seven bits from the rest to the result; p is the weight of the lowest of them. */
  lemma Carry(result: int, b: int, v: int, p: nat)
    ensures result + (b + 128 * v) * p == result + b * p + v * (128 * p)
  {
    MulDistributes(b, 128 * v, p);
    MulAssociates(v, 128, p);
  }

  lemma InRange(result: int, low: int, shift: nat)
    requires 0 <= result < Pow2(shift) && 0 <= low < 128
    ensures 0 <= result + low * Pow2(shift) < Pow2(shift + 7)
  {
    Pow2Seven(shift);
    MulStrict(Pow2(shift), low, 128);
    MulMono(Pow2(shift), 0, low);
  }

  lemma MiddleByte(whole: Option<Decoded>, rest: Option<Decoded>, rest': Option<Decoded>, b: int, result: int,
                   shift: nat, n: nat)
    requires Continues(whole, rest, result, shift, n)
    requires rest == if rest'.None? then None
                     else Some(Decoded(b - 128 + 128 * rest'.value.value, rest'.value.size + 1))
    ensures Continues(whole, rest', result + (b - 128) * Pow2(shift), shift + 7, n + 1)
  {
    if rest'.Some? {
      Pow2Seven(shift);
      Carry(result, b - 128, rest'.value.value, Pow2(shift));
    }
  }

  lemma LastByte(signed: bool, b: int, result: int, shift: nat)
    requires 0 <= b < 128
    ensures result + (if signed && b >= 64 then b - 128 else b) * Pow2(shift)
         == result + b * Pow2(shift) - if signed && b >= 64 then Pow2(shift + 7) else 0
  {
    Pow2Seven(shift);
    Carry(result, b, -1, Pow2(shift));
  }

  lemma OneMoreByte(signed: bool, data: seq<Byte>, start: nat, pos: nat, result: int, shift: nat)
    requires start <= pos < |data| && 0 <= result < Pow2(shift)
    requires Continues(Decode(signed, data[start..]), Decode(signed, data[pos..]), result, shift, pos - start)
    ensures var b, result' := data[pos], result + data[pos] % 128 * Pow2(shift);
      && 0 <= result' < Pow2(shift + 7)
      && (b >= 128 ==>
            Continues(Decode(signed, data[start..]), Decode(signed, data[pos + 1..]), result', shift + 7,
                      pos + 1 - start))
      && (b < 128 ==>
            Decode(signed, data[start..]) ==
              Some(Decoded(if signed && b >= 64 then result' - Pow2(shift + 7) else result', pos + 1 - start)))
  {
    var b: int := data[pos];
    InRange(result, b % 128, shift);
    assert data[pos..][1..] == data[pos + 1..];
    if b < 128 {
      LastByte(signed, b, result, shift);
    } else {
      MiddleByte(Decode(signed, data[start..]), Decode(signed, data[pos..]), Decode(signed, data[pos + 1..]),
                 b, result, shift, pos - start);
    }
  }

  lemma Unfold(signed: bool, v: int)
    requires signed || v >= 0
    ensures Encode(signed, v)[0] == Head(signed, v) && (signed || v / 128 >= 0)
    ensures Encode(signed, v)[1..] == if Last(signed, v) then [] else Encode(signed, v / 128)
  {
  }

  /** encode_iter: None for a negative number that is to be unsigned. */
  method EncodeLoop(signed: bool, value: int) returns (r: Option<seq<Byte>>)
    ensures r == if signed || value >= 0 then Some(Encode(signed, value)) else None
  {
    if value < 0 && !signed {
      return None;
    }
    var v, data: seq<Byte>, last := value, [], false;
    ghost var whole := Encode(signed, value);
    while !last
      invariant last || signed || v >= 0
      invariant |data| <= |whole| && data == whole[..|data|]
      invariant whole[|data|..] == if last then [] else Encode(signed, v)
      decreases |whole| - |data|, !last
    {
      Unfold(signed, v);
      assert whole[|data|..][1..] == whole[|data| + 1..];
      last := Last(signed, v);
      data := data + [Head(signed, v)];
      v := v / 128;
    }
    assert |whole[|data|..]| == 0 && data == whole;
    return Some(data);
  }
}
