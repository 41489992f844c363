/**
 Payloads: named values in one buffer, as the server (in C) and the client (in Python) build
 and read them.
 */
module Payload {
  import opened Basics
  import opened Numbers

  // ----- Little-endian numbers -----

  function Pow256(k: nat): (p: nat)
    ensures p > 0
  {
    if k == 0 then 1 else 256 * Pow256(k - 1)
  }

  function Le(n: nat, k: nat): (s: seq<Byte>)
    ensures |s| == k
  {
    if k == 0 then [] else [n % 256] + Le(n / 256, k - 1)
  }

  function UnLe(s: seq<Byte>): nat { if s == [] then 0 else var b: nat := s[0]; b + 256 * UnLe(s[1..]) }

  lemma {:induction false} LeRoundTrip(n: nat, k: nat)
    requires n < Pow256(k)
    ensures UnLe(Le(n, k)) == n
  {
    if k > 0 {
      LeRoundTrip(n / 256, k - 1);
      assert Le(n, k)[1..] == Le(n / 256, k - 1);
    }
  }

  lemma {:induction false} UnLeRoundTrip(s: seq<Byte>)
    ensures UnLe(s) < Pow256(|s|) && Le(UnLe(s), |s|) == s
  {
    if s != [] {
      UnLeRoundTrip(s[1..]);
      var b: nat := s[0];
      DivUnique(UnLe(s), 256, UnLe(s[1..]), b);
      assert s == [s[0]] + s[1..];
    }
  }

  lemma Powers()
    ensures Pow256(2) == K16 && Pow256(4) == K32 && Pow256(8) == K64
  {
    assert Pow256(2) == 256 * Pow256(1);
    assert Pow256(4) == 256 * Pow256(3);
    assert Pow256(8) == 256 * Pow256(7);
  }

  /** Two's complement of a number in a word with k values. */
  function Wrap(n: int, k: int): nat
    requires -k <= n
  {
    if n < 0 then n + k else n
  }

  function Unwrap(u: nat, k: int): int { if 2 * u < k then u else u - k }

  // ----- Values and elements -----

  datatype Value = U32(n: int) | I32(n: int) | U64(n: int) | I64(n: int) | Str(s: seq<Byte>)

  datatype Field = Field(name: seq<Byte>, value: Value)

  const TERMINATOR: Byte := 0x00
  const TYPE_U32: Byte := 0x10
  const TYPE_I32: Byte := 0x11
  const TYPE_U64: Byte := 0x20
  const TYPE_I64: Byte := 0x21
  const TYPE_STR: Byte := 0x80

  predicate NulFree(s: seq<Byte>) { forall i :: 0 <= i < |s| ==> s[i] != 0 }

  predicate ValidValue(v: Value) {
    match v
    case U32(n) => 0 <= n < K32
    case I32(n) => -K32 <= 2 * n < K32
    case U64(n) => 0 <= n < K64
    case I64(n) => -K64 <= 2 * n < K64
    case Str(s) => NulFree(s)
  }

  predicate ValidName(name: seq<Byte>) { NulFree(name) && |name| + 1 < K16 }

  /** The fields that can be sent: sizes fit their place in the header. */
  predicate ValidField(f: Field) {
    ValidName(f.name) && ValidValue(f.value) && (f.value.Str? ==> |f.name| + |f.value.s| + 2 < K32)
  }

  predicate Valid(fs: seq<Field>) { forall i :: 0 <= i < |fs| ==> ValidField(fs[i]) }

  function TypeCode(v: Value): Byte {
    match v
    case U32(_) => TYPE_U32
    case I32(_) => TYPE_I32
    case U64(_) => TYPE_U64
    case I64(_) => TYPE_I64
    case Str(_) => TYPE_STR
  }

  function Data(v: Value): seq<Byte>
    requires ValidValue(v)
  {
    match v
    case U32(n) => Le(n, 4)
    case I32(n) => Le(Wrap(n, K32), 4)
    case U64(n) => Le(n, 8)
    case I64(n) => Le(Wrap(n, K64), 8)
    case Str(s) => s + [0]
  }

  function Header(code: Byte, reserved: Byte, nameSize: nat, dataSize: nat): (h: seq<Byte>)
    ensures |h| == 8
  {
    [code, reserved] + Le(nameSize, 2) + Le(dataSize, 4)
  }

  /** An element: type, a reserved byte, the two sizes, the name with its NUL, the data. */
  function Element(code: Byte, reserved: Byte, name: seq<Byte>, data: seq<Byte>): seq<Byte> {
    Header(code, reserved, (|name| + 1) % K16, |data| % K32) + (name + [0])[..(|name| + 1) % K16] + data[..|data| % K32]
  }

  datatype Raw = Raw(code: Byte, reserved: Byte, name: seq<Byte>, data: seq<Byte>)

  function Bytes(r: Raw): seq<Byte> { Element(r.code, r.reserved, r.name, r.data) }

  function AllBytes(rs: seq<Raw>): seq<Byte> { if rs == [] then [] else Bytes(rs[0]) + AllBytes(rs[1..]) }

  function RawOf(f: Field): Raw
    requires ValidField(f)
  {
    Raw(TypeCode(f.value), 0, f.name, Data(f.value))
  }

  function Raws(fs: seq<Field>): seq<Raw>
    requires Valid(fs)
  {
    if fs == [] then [Raw(TERMINATOR, 0, [], [])] else [RawOf(fs[0])] + Raws(fs[1..])
  }

  /** The payload of a list of fields. */
  function Serialize(fs: seq<Field>): seq<Byte>
    requires Valid(fs)
  {
    AllBytes(Raws(fs))
  }

  // ----- Reading an element -----

  function NameSize(s: seq<Byte>): nat requires |s| >= 8 { UnLe(s[2..4]) }

  function DataSize(s: seq<Byte>): nat requires |s| >= 8 { UnLe(s[4..8]) }

  /** payload_element_get_size: the two sizes are added in 32 bits. */
  function ElementSize(s: seq<Byte>): nat
    requires |s| >= 8
  {
    (NameSize(s) + DataSize(s)) % K32 + 8
  }

  lemma HeaderReads(code: Byte, reserved: Byte, a: nat, b: nat, rest: seq<Byte>)
    requires a < K16 && b < K32
    ensures var s := Header(code, reserved, a, b) + rest;
      |s| >= 8 && s[0] == code && s[1] == reserved && NameSize(s) == a && DataSize(s) == b && s[8..] == rest
  {
    var s := Header(code, reserved, a, b) + rest;
    assert s[2..4] == Le(a, 2) && s[4..8] == Le(b, 4);
    Powers();
    LeRoundTrip(a, 2);
    LeRoundTrip(b, 4);
  }

  predicate Fits(name: seq<Byte>, data: seq<Byte>) { ValidName(name) && |name| + 1 + |data| < K32 }

  lemma ElementIs(code: Byte, reserved: Byte, name: seq<Byte>, data: seq<Byte>, rest: seq<Byte>)
    requires Fits(name, data)
    ensures Element(code, reserved, name, data) + rest ==
              Header(code, reserved, |name| + 1, |data|) + (name + [0] + data + rest)
  {
    var n, d := |name| + 1, |data|;
    assert n % K16 == n && d % K32 == d;
    assert (name + [0])[..n] == name + [0] && data[..d] == data;
    Associate(Header(code, reserved, |name| + 1, |data|), name + [0], data, rest);
  }

  lemma Associate(a: seq<Byte>, b: seq<Byte>, c: seq<Byte>, d: seq<Byte>)
    ensures a + b + c + d == a + (b + c + d)
  {
  }

  /** An element followed by anything reads back. */
  ghost predicate ReadsBack(s: seq<Byte>, code: Byte, reserved: Byte, name: seq<Byte>, data: seq<Byte>,
                            rest: seq<Byte>) {
    && |s| == 9 + |name| + |data| + |rest| && s[0] == code && s[1] == reserved
    && NameSize(s) == |name| + 1 && DataSize(s) == |data| && ElementSize(s) == 9 + |name| + |data|
    && s[8..8 + |name|] == name && s[8 + |name|] == 0 && s[9 + |name|..9 + |name| + |data|] == data
       && s[9 + |name| + |data|..] == rest
  }

  lemma ElementReads(code: Byte, reserved: Byte, name: seq<Byte>, data: seq<Byte>, rest: seq<Byte>)
    requires Fits(name, data)
    ensures ReadsBack(Element(code, reserved, name, data) + rest, code, reserved, name, data, rest)
  {
    hide Element, Header, Le, UnLe;
    var body := name + [0] + data + rest;
    ElementIs(code, reserved, name, data, rest);
    HeaderReads(code, reserved, |name| + 1, |data|, body);
    BodyReads(Header(code, reserved, |name| + 1, |data|) + body, name, data, rest);
  }

  lemma BodyReads(s: seq<Byte>, name: seq<Byte>, data: seq<Byte>, rest: seq<Byte>)
    requires |s| >= 8 && s[8..] == name + [0] + data + rest
    ensures |s| == 9 + |name| + |data| + |rest| && s[8..8 + |name|] == name && s[8 + |name|] == 0
    ensures s[9 + |name|..9 + |name| + |data|] == data && s[9 + |name| + |data|..] == rest
  {
    var t := s[8..];
    assert t[..|name|] == name && t[|name|] == 0 && t[|name| + 1..|name| + 1 + |data|] == data
           && t[|name| + 1 + |data|..] == rest;
  }

  // ----- payload_check -----

  /** Stray: the check would read outside of the buffer. */
  datatype Verdict = Accept | Reject | Stray

  /** The position of the first NUL, as strlen finds it. */
  function Strlen(s: seq<Byte>): nat { if s == [] || s[0] == 0 then 0 else 1 + Strlen(s[1..]) }

  function CheckElement(s: seq<Byte>): Verdict {
    if |s| < 8 then Reject
    else if |s| < ElementSize(s) then Reject
    else if NameSize(s) == 0 then Reject
    else if 8 + NameSize(s) > |s| then Stray
    else if s[8 + NameSize(s) - 1] != 0 then Reject
    else if Strlen(s[8..]) + 1 != NameSize(s) then Reject
    else CheckData(s)
  }

  function CheckData(s: seq<Byte>): Verdict
    requires |s| >= 8 && NameSize(s) > 0
  {
    match s[0]
    case 0x00 => Fitting(DataSize(s) == 0)
    case 0x10 => Fitting(DataSize(s) == 4)
    case 0x11 => Fitting(DataSize(s) == 4)
    case 0x20 => Fitting(DataSize(s) == 8)
    case 0x21 => Fitting(DataSize(s) == 8)
    case 0x80 =>
      var last := 8 + NameSize(s) + (DataSize(s) - 1) % K32;
      if last >= |s| then Stray else Fitting(s[last] == 0)
    case _ => Reject
  }

  function Fitting(b: bool): Verdict { if b then Accept else Reject }

  function Check(s: seq<Byte>): Verdict
    decreases |s|
  {
    var v := CheckElement(s);
    if v != Accept then v
    else if s[0] == TERMINATOR then Fitting(|s| == ElementSize(s))
    else Check(s[ElementSize(s)..])
  }

  lemma {:induction false} StrlenIs(name: seq<Byte>, s: seq<Byte>)
    requires NulFree(name) && |s| > |name| && s[..|name|] == name && s[|name|] == 0
    ensures Strlen(s) == |name|
    decreases |name|
  {
    if name != [] {
      assert s[0] == name[0] && s[1..][..|name| - 1] == name[1..];
      StrlenIs(name[1..], s[1..]);
    }
  }

  /** What an element of this type can hold. */
  predicate DataOk(code: Byte, data: seq<Byte>) {
    match code
    case 0x00 => data == []
    case 0x10 => |data| == 4
    case 0x11 => |data| == 4
    case 0x20 => |data| == 8
    case 0x21 => |data| == 8
    case 0x80 => data != [] && data[|data| - 1] == 0
    case _ => false
  }

  lemma ElementAccepted(s: seq<Byte>, code: Byte, reserved: Byte, name: seq<Byte>, data: seq<Byte>, rest: seq<Byte>)
    requires ReadsBack(s, code, reserved, name, data, rest) && Fits(name, data) && DataOk(code, data)
    ensures CheckElement(s) == Accept
  {
    assert s[8..][..|name|] == name;
    StrlenIs(name, s[8..]);
    if code == TYPE_STR {
      assert s[9 + |name|..9 + |name| + |data|][|data| - 1] == s[8 + |name| + |data|];
    }
  }

  // ----- What payload_check accepts -----

  predicate RawOk(r: Raw) { Fits(r.name, r.data) && DataOk(r.code, r.data) }

  /** Elements of which the last, and only the last, is a terminator. */
  predicate Complete(rs: seq<Raw>) {
    rs != [] && forall i :: 0 <= i < |rs| ==> RawOk(rs[i]) && (rs[i].code == TERMINATOR <==> i == |rs| - 1)
  }

  lemma FirstReads(rs: seq<Raw>)
    requires rs != [] && Fits(rs[0].name, rs[0].data)
    ensures ReadsBack(AllBytes(rs), rs[0].code, rs[0].reserved, rs[0].name, rs[0].data, AllBytes(rs[1..]))
  {
    ElementReads(rs[0].code, rs[0].reserved, rs[0].name, rs[0].data, AllBytes(rs[1..]));
  }

  lemma {:induction false} CompleteAccepted(rs: seq<Raw>)
    requires Complete(rs)
    ensures Check(AllBytes(rs)) == Accept
    decreases |rs|
  {
    FirstReads(rs);
    ElementAccepted(AllBytes(rs), rs[0].code, rs[0].reserved, rs[0].name, rs[0].data, AllBytes(rs[1..]));
    if |rs| > 1 {
      CompleteAccepted(rs[1..]);
    } else {
      assert AllBytes(rs[1..]) == [];
    }
  }

  /** The sizes fit their places, so their sum wraps around once at most. */
  lemma SizesFit(s: seq<Byte>)
    requires |s| >= 8
    ensures NameSize(s) < K16 && DataSize(s) < K32
    ensures ElementSize(s) == 8 + NameSize(s) + DataSize(s) - if NameSize(s) + DataSize(s) < K32 then 0 else K32
  {
    Powers();
    UnLeRoundTrip(s[2..4]);
    UnLeRoundTrip(s[4..8]);
    WrapsOnce(NameSize(s), DataSize(s));
  }

  lemma WrapsOnce(a: nat, b: nat)
    requires a < K16 && b < K32
    ensures (a + b) % K32 == a + b - if a + b < K32 then 0 else K32
  {
    if a + b < K32 {
      DivUnique(a + b, K32, 0, a + b);
    } else {
      DivUnique(a + b, K32, 1, a + b - K32);
    }
  }

  lemma AcceptedSizes(s: seq<Byte>)
    requires CheckElement(s) == Accept && |s| < K32
    ensures NameSize(s) > 0 && 8 + NameSize(s) + DataSize(s) <= |s| && ElementSize(s) == 8 + NameSize(s) + DataSize(s)
  {
    hide Strlen, NameSize, DataSize, ElementSize;
    SizesFit(s);
    if s[0] == TYPE_STR {
      LastOfString(DataSize(s));
    }
  }

  /** The position before the end of the data: an unsigned subtraction. */
  lemma LastOfString(d: nat)
    requires d < K32
    ensures (d - 1) % K32 == if d == 0 then K32 - 1 else d - 1
  {
    if d == 0 {
      DivUnique(-1, K32, -1, K32 - 1);
    } else {
      DivUnique(d - 1, K32, 0, d - 1);
    }
  }

  /** The element at the start of accepted bytes. */
  function FirstRaw(s: seq<Byte>): Raw
    requires CheckElement(s) == Accept && |s| < K32
  {
    AcceptedSizes(s);
    Raw(s[0], s[1], s[8..7 + NameSize(s)], s[8 + NameSize(s)..8 + NameSize(s) + DataSize(s)])
  }

  lemma {:induction false} BeforeNul(s: seq<Byte>, i: nat)
    requires i < Strlen(s)
    ensures i < |s| && s[i] != 0
  {
    if i > 0 {
      BeforeNul(s[1..], i - 1);
    }
  }

  lemma FirstRawOk(s: seq<Byte>)
    requires CheckElement(s) == Accept && |s| < K32
    ensures RawOk(FirstRaw(s))
  {
    hide Strlen, NameSize, DataSize, ElementSize;
    AcceptedSizes(s);
    SizesFit(s);
    AcceptedData(s);
    var r, n := FirstRaw(s), NameSize(s) - 1;
    forall i | 0 <= i < n
      ensures r.name[i] != 0
    {
      BeforeNul(s[8..], i);
    }
  }

  lemma AcceptedData(s: seq<Byte>)
    requires CheckElement(s) == Accept && |s| < K32
    ensures DataOk(FirstRaw(s).code, FirstRaw(s).data)
  {
    hide Strlen, NameSize, DataSize, ElementSize;
    AcceptedSizes(s);
    var n, m := NameSize(s), DataSize(s);
    var data := s[8 + n..8 + n + m];
    if s[0] == TYPE_STR {
      LastOfString(m);
      assert m > 0 && data[m - 1] == s[8 + n + (m - 1)];
    }
    assert |data| == m;
  }

  lemma HeaderBytes(s: seq<Byte>)
    requires |s| >= 8
    ensures s[..8] == Header(s[0], s[1], NameSize(s), DataSize(s))
  {
    UnLeRoundTrip(s[2..4]);
    UnLeRoundTrip(s[4..8]);
    assert s[..8] == [s[0], s[1]] + s[2..4] + s[4..8];
  }

  lemma BodyBytes(s: seq<Byte>, n: nat, m: nat)
    requires n > 0 && 8 + n + m <= |s| && s[7 + n] == 0
    ensures s == s[..8] + (s[8..7 + n] + [0] + s[8 + n..8 + n + m] + s[8 + n + m..])
  {
  }

  lemma FirstRawBytes(s: seq<Byte>)
    requires CheckElement(s) == Accept && |s| < K32
    ensures s == Bytes(FirstRaw(s)) + s[ElementSize(s)..]
  {
    hide Strlen;
    AcceptedSizes(s);
    FirstRawOk(s);
    var r := FirstRaw(s);
    ElementIs(r.code, r.reserved, r.name, r.data, s[ElementSize(s)..]);
    HeaderBytes(s);
    BodyBytes(s, NameSize(s), DataSize(s));
  }

  /** Reading all of them. */
  function RawsIn(s: seq<Byte>): seq<Raw>
    requires Check(s) == Accept && |s| < K32
    decreases |s|
  {
    [FirstRaw(s)] + if s[0] == TERMINATOR then [] else RawsIn(s[ElementSize(s)..])
  }

  lemma {:induction false} AcceptedIsComplete(s: seq<Byte>)
    requires Check(s) == Accept && |s| < K32
    ensures Complete(RawsIn(s)) && AllBytes(RawsIn(s)) == s
    decreases |s|
  {
    FirstRawOk(s);
    FirstRawBytes(s);
    var rs := RawsIn(s);
    if s[0] == TERMINATOR {
      assert AllBytes(rs[1..]) == [];
    } else {
      AcceptedIsComplete(s[ElementSize(s)..]);
      assert rs[1..] == RawsIn(s[ElementSize(s)..]);
    }
  }

  /** Of all buffers below 4 GB the check accepts exactly those made of well-formed elements up
      to one terminator. */
  lemma CheckAcceptsIff(s: seq<Byte>)
    requires |s| < K32
    ensures Check(s) == Accept <==> exists rs :: Complete(rs) && AllBytes(rs) == s
  {
    if Check(s) == Accept {
      AcceptedIsComplete(s);
    }
    if rs :| Complete(rs) && AllBytes(rs) == s {
      CompleteAccepted(rs);
    }
  }

  /** The check of an element reads outside of the buffer: its name is longer than what is
      left, which takes two sizes whose sum wraps around; or it is a string without data or
      with such sizes, so that the byte that should be its NUL lies elsewhere. */
  ghost predicate Strays(s: seq<Byte>) {
    && |s| >= 8 && ElementSize(s) <= |s| && NameSize(s) > 0
    && (8 + NameSize(s) > |s|
        || (s[7 + NameSize(s)] == 0 && Strlen(s[8..]) + 1 == NameSize(s) && s[0] == TYPE_STR
            && (DataSize(s) == 0 || NameSize(s) + DataSize(s) >= K32)))
  }

  lemma ElementStraysIff(s: seq<Byte>)
    requires |s| < K32
    ensures CheckElement(s) == Stray <==> Strays(s)
    ensures Strays(s) ==> NameSize(s) + DataSize(s) >= K32 || (s[0] == TYPE_STR && DataSize(s) == 0)
  {
    hide Strlen, NameSize, DataSize, ElementSize;
    if |s| >= 8 {
      SizesFit(s);
      LastOfString(DataSize(s));
    }
  }

  /** The check gets to the element at i. */
  ghost predicate Reached(s: seq<Byte>, i: nat)
    decreases i
  {
    i == 0
    || (|s| >= 8 && ElementSize(s) <= i <= |s| && CheckElement(s) == Accept && s[0] != TERMINATOR
        && Reached(s[ElementSize(s)..], i - ElementSize(s)))
  }

  /** So the check reads outside of the buffer exactly if it gets to such an element. */
  lemma {:induction false} CheckStraysIff(s: seq<Byte>)
    requires |s| < K32
    ensures Check(s) == Stray <==> exists i :: 0 <= i <= |s| && Reached(s, i) && Strays(s[i..])
    decreases |s|
  {
    hide Strlen, NameSize, DataSize, Strays;
    ElementStraysIff(s);
    assert s[0..] == s;
    if Strays(s) {
      assert Reached(s, 0);
    } else if CheckElement(s) == Accept && s[0] != TERMINATOR {
      StraysLater(s);
    } else {
      assert forall i: nat :: Reached(s, i) ==> i == 0;
    }
  }

  /** Such a buffer: a string whose sizes, 1 and 0, leave no room for the NUL of its data. */
  lemma StrayInput()
    ensures Check([TYPE_STR, 0, 1, 0, 0, 0, 0, 0, 0]) == Stray
  {
    var s := [TYPE_STR, 0, 1, 0, 0, 0, 0, 0, 0];
    assert s[2..4] == [1, 0] && s[4..8] == [0, 0, 0, 0] && UnLe([0]) == 0 && UnLe([0, 0]) == 0;
    assert [1, 0][1..] == [0] && [0, 0, 0, 0][1..] == [0, 0, 0] && [0, 0, 0][1..] == [0, 0];
    assert NameSize(s) == 1 && DataSize(s) == 0 && ElementSize(s) == 9;
    assert s[8..][0] == 0;
    assert Strays(s);
    ElementStraysIff(s);
  }

  lemma {:induction false} StraysLater(s: seq<Byte>)
    requires |s| < K32 && CheckElement(s) == Accept && s[0] != TERMINATOR && !Strays(s)
    ensures Check(s) == Stray <==> exists i :: 0 <= i <= |s| && Reached(s, i) && Strays(s[i..])
    decreases |s|, 0
  {
    hide Strlen, NameSize, DataSize, ElementSize, CheckElement, Strays, Reached, Check;
    CheckLater(s);
    var n := ElementSize(s);
    var rest := s[n..];
    CheckStraysIff(rest);
    if i :| 0 <= i <= |rest| && Reached(rest, i) && Strays(rest[i..]) {
      assert s[n + i..] == rest[i..];
      ReachedLater(s, n + i);
    }
    if i :| 0 <= i <= |s| && Reached(s, i) && Strays(s[i..]) {
      assert s[0..] == s && i != 0;
      ReachedLater(s, i);
      assert s[i..] == rest[i - n..];
    }
  }

  lemma CheckLater(s: seq<Byte>)
    requires |s| < K32 && CheckElement(s) == Accept && s[0] != TERMINATOR
    ensures |s| >= 8 && 0 < ElementSize(s) <= |s| && Check(s) == Check(s[ElementSize(s)..])
  {
    hide Strlen, NameSize, DataSize, ElementSize;
    AcceptedSizes(s);
  }

  lemma ReachedLater(s: seq<Byte>, i: nat)
    requires |s| >= 8 && CheckElement(s) == Accept && s[0] != TERMINATOR && 0 < ElementSize(s) <= |s| && 0 < i <= |s|
    ensures Reached(s, i) <==> i >= ElementSize(s) && Reached(s[ElementSize(s)..], i - ElementSize(s))
  {
  }

  lemma {:induction false} FieldsComplete(fs: seq<Field>)
    requires Valid(fs)
    ensures Complete(Raws(fs)) && |Raws(fs)| == |fs| + 1 && forall i :: 0 <= i < |fs| ==> Raws(fs)[i] == RawOf(fs[i])
    decreases |fs|
  {
    if fs != [] {
      FieldsComplete(fs[1..]);
    }
  }

  /** A payload that was built passes the check. */
  lemma SerializedAccepted(fs: seq<Field>)
    requires Valid(fs)
    ensures Check(Serialize(fs)) == Accept
  {
    FieldsComplete(fs);
    CompleteAccepted(Raws(fs));
  }

  // ----- payload_find -----

  /** The fields from the first with this name on. */
  function From(fs: seq<Field>, name: seq<Byte>): seq<Field> {
    if fs == [] || fs[0].name == name then fs else From(fs[1..], name)
  }

  lemma {:induction false} FromIsFirst(fs: seq<Field>, name: seq<Byte>)
    ensures |From(fs, name)| <= |fs| && From(fs, name) == fs[|fs| - |From(fs, name)|..]
    ensures forall i :: 0 <= i < |fs| - |From(fs, name)| ==> fs[i].name != name
    ensures From(fs, name) != [] ==> From(fs, name)[0].name == name
  {
    if fs != [] && fs[0].name != name {
      FromIsFirst(fs[1..], name);
      assert forall i :: 1 <= i < |fs| ==> fs[i] == fs[1..][i - 1];
    }
  }

  lemma SerializeReads(fs: seq<Field>)
    requires Valid(fs) && fs != []
    ensures Valid(fs[1..]) && Fits(fs[0].name, Data(fs[0].value)) && TypeCode(fs[0].value) != TERMINATOR
    ensures ReadsBack(Serialize(fs), TypeCode(fs[0].value), 0, fs[0].name, Data(fs[0].value), Serialize(fs[1..]))
  {
    FirstReads(Raws(fs));
    assert Raws(fs)[1..] == Raws(fs[1..]);
  }

  /** The bytes from the element that payload_find returns on. */
  function Find(s: seq<Byte>, name: seq<Byte>): Option<seq<Byte>>
    requires Check(s) == Accept
    decreases |s|
  {
    if s[0] == TERMINATOR then None
    else if name == s[8..8 + Strlen(s[8..])] then Some(s)
    else Find(s[ElementSize(s)..], name)
  }

  /** payload_get_*: the data of the element, if it has the type. */
  function Get(s: seq<Byte>, name: seq<Byte>, code: Byte): Option<seq<Byte>>
    requires Check(s) == Accept && |s| < K32
  {
    match Find(s, name)
    case None => None
    case Some(t) =>
      FoundAccepted(s, name);
      AcceptedSizes(t);
      if t[0] == code then Some(t[8 + NameSize(t)..8 + NameSize(t) + DataSize(t)]) else None
  }

  lemma {:induction false} StrlenWithin(s: seq<Byte>)
    ensures Strlen(s) <= |s|
    decreases |s|
  {
    if s != [] && s[0] != 0 {
      StrlenWithin(s[1..]);
    }
  }

  lemma {:induction false} FoundAccepted(s: seq<Byte>, name: seq<Byte>)
    requires Check(s) == Accept
    ensures match Find(s, name) case None => true case Some(t) => CheckElement(t) == Accept && |t| <= |s|
    decreases |s|
  {
    if s[0] != TERMINATOR {
      FoundAccepted(s[ElementSize(s)..], name);
    }
  }

  lemma NameReads(s: seq<Byte>, code: Byte, name: seq<Byte>, data: seq<Byte>, rest: seq<Byte>)
    requires ReadsBack(s, code, 0, name, data, rest) && ValidName(name)
    ensures 8 + Strlen(s[8..]) <= |s| && s[8..8 + Strlen(s[8..])] == name && s[ElementSize(s)..] == rest
  {
    assert s[8..][..|name|] == name;
    StrlenIs(name, s[8..]);
  }

  lemma FindStep(s: seq<Byte>, code: Byte, name: seq<Byte>, data: seq<Byte>, rest: seq<Byte>, wanted: seq<Byte>)
    requires ReadsBack(s, code, 0, name, data, rest) && ValidName(name) && code != TERMINATOR
    requires Check(s) == Accept && Check(rest) == Accept
    ensures Find(s, wanted) == if wanted == name then Some(s) else Find(rest, wanted)
  {
    NameReads(s, code, name, data, rest);
    assert s[0] == code;
  }

  /** payload_find finds the first field with the name. */
  lemma {:induction false} FindIsFirst(fs: seq<Field>, name: seq<Byte>)
    requires Valid(fs)
    ensures Check(Serialize(fs)) == Accept && Valid(From(fs, name))
    ensures Find(Serialize(fs), name) == if From(fs, name) == [] then None else Some(Serialize(From(fs, name)))
    decreases |fs|
  {
    SerializedAccepted(fs);
    if fs == [] {
      FirstReads(Raws(fs));
    } else {
      SerializeReads(fs);
      SerializedAccepted(fs[1..]);
      FindStep(Serialize(fs), TypeCode(fs[0].value), fs[0].name, Data(fs[0].value), Serialize(fs[1..]), name);
      if fs[0].name != name {
        FindIsFirst(fs[1..], name);
      }
    }
  }

  /** Reading a value by name and type gives what was put first under that name. */
  lemma GetIsLookup(fs: seq<Field>, name: seq<Byte>, code: Byte)
    requires Valid(fs) && |Serialize(fs)| < K32
    ensures Check(Serialize(fs)) == Accept
    ensures var found := From(fs, name);
      Get(Serialize(fs), name, code) == if found != [] && ValidValue(found[0].value)
        && TypeCode(found[0].value) == code then Some(Data(found[0].value)) else None
  {
    FindIsFirst(fs, name);
    FoundAccepted(Serialize(fs), name);
    var found := From(fs, name);
    if found != [] {
      SerializeReads(found);
    }
  }

  // ----- The client -----

  function Typed(code: Byte, data: seq<Byte>): Option<Value> {
    match code
    case 0x10 => if |data| == 4 then Some(U32(UnLe(data))) else None
    case 0x11 => if |data| == 4 then Some(I32(Unwrap(UnLe(data), K32))) else None
    case 0x20 => if |data| == 8 then Some(U64(UnLe(data))) else None
    case 0x21 => if |data| == 8 then Some(I64(Unwrap(UnLe(data), K64))) else None
    case 0x80 => Some(Str(Slice(data, 0, |data| - 1)))
    case _ => None
  }

  /** Data read as their type give back the value. */
  lemma TypedData(v: Value)
    requires ValidValue(v)
    ensures Typed(TypeCode(v), Data(v)) == Some(v)
  {
    Powers();
    match v
    case U32(n) => LeRoundTrip(n, 4);
    case I32(n) => LeRoundTrip(Wrap(n, K32), 4);
    case U64(n) => LeRoundTrip(n, 8);
    case I64(n) => LeRoundTrip(Wrap(n, K64), 8);
    case Str(s) =>
  }

  /** A Python slice: positions past the end are cut off. */
  function Slice(s: seq<Byte>, from: int, to: int): seq<Byte>
    requires 0 <= from
  {
    var end := if to < |s| then to else |s|;
    if from < end then s[from..end] else []
  }

  /** One turn of unpack_from. */
  datatype Unpacked = Broken | End | One(f: Field, size: nat)

  function UnpackOne(s: seq<Byte>): Unpacked {
    if |s| < 8 then Broken
    else
      var name, data := Slice(s, 8, 8 + NameSize(s) - 1), Slice(s, 8 + NameSize(s), 8 + NameSize(s) + DataSize(s));
      if s[0] == TERMINATOR then End
      else
        match Typed(s[0], data)
        case None => Broken
        case Some(v) => One(Field(name, v), 8 + NameSize(s) + DataSize(s))
  }

  function Prepend(fs: seq<Field>, r: Option<seq<Field>>): Option<seq<Field>> {
    match r case None => None case Some(gs) => Some(fs + gs)
  }

  /** Payload.unpack_from: None is an exception. */
  function Unpack(s: seq<Byte>): Option<seq<Field>>
    decreases |s|
  {
    match UnpackOne(s)
    case Broken => None
    case End => Some([])
    case One(f, n) => Prepend([f], Unpack(Slice(s, n, |s|)))
  }

  /** Element.pack: None is an exception of struct.pack. */
  function PackElement(code: Byte, name: seq<Byte>, data: seq<Byte>): Option<seq<Byte>> {
    if |name| + 1 >= K16 || |data| >= K32 then None
    else Some(Header(code, 0, |name| + 1, |data|) + name + [0] + data)
  }

  function BinValue(v: Value): Option<seq<Byte>> {
    if ValidValue(v) || v.Str? then Some(if v.Str? then v.s + [0] else Data(v)) else None
  }

  function PackAll(fs: seq<Field>): Option<seq<Byte>> {
    if fs == [] then PackElement(TERMINATOR, [], [])
    else
      match BinValue(fs[0].value)
      case None => None
      case Some(data) =>
        match (PackElement(TypeCode(fs[0].value), fs[0].name, data), PackAll(fs[1..]))
        case (Some(a), Some(b)) => Some(a + b)
        case _ => None
  }

  lemma SamePacked(code: Byte, name: seq<Byte>, data: seq<Byte>)
    requires Fits(name, data)
    ensures PackElement(code, name, data) == Some(Element(code, 0, name, data))
  {
    ElementIs(code, 0, name, data, []);
    var e := Header(code, 0, |name| + 1, |data|);
    assert Element(code, 0, name, data) + [] == Element(code, 0, name, data);
    assert e + (name + [0] + data + []) == e + name + [0] + data;
  }

  /** Client and server write the same bytes. */
  lemma {:induction false} PacksTheSame(fs: seq<Field>)
    requires Valid(fs)
    ensures PackAll(fs) == Some(Serialize(fs))
  {
    if fs == [] {
      SamePacked(TERMINATOR, [], []);
      assert Raws(fs)[1..] == [];
      assert Serialize(fs) == Bytes(Raws(fs)[0]) + [] == Bytes(Raws(fs)[0]);
    } else {
      SamePacked(TypeCode(fs[0].value), fs[0].name, Data(fs[0].value));
      PacksTheSame(fs[1..]);
      assert Raws(fs)[1..] == Raws(fs[1..]);
    }
  }

  /** The first element, as the client reads it. */
  lemma UnpackOneReads(s: seq<Byte>, code: Byte, name: seq<Byte>, data: seq<Byte>, rest: seq<Byte>, v: Value)
    requires ReadsBack(s, code, 0, name, data, rest) && code != TERMINATOR && Typed(code, data) == Some(v)
    ensures UnpackOne(s) == One(Field(name, v), 9 + |name| + |data|) && Slice(s, 9 + |name| + |data|, |s|) == rest
  {
    assert Slice(s, 8, 8 + NameSize(s) - 1) == name && Slice(s, 8 + NameSize(s), 8 + NameSize(s) + DataSize(s)) == data;
  }

  lemma UnpackStep(s: seq<Byte>, f: Field, n: nat, rest: seq<Byte>, fs: seq<Field>)
    requires UnpackOne(s) == One(f, n) && Slice(s, n, |s|) == rest && Unpack(rest) == Some(fs)
    ensures Unpack(s) == Some([f] + fs)
  {
  }

  /** The first field of a payload. */
  lemma UnpackFirst(fs: seq<Field>) returns (n: nat)
    requires Valid(fs) && fs != []
    ensures Valid(fs[1..]) && UnpackOne(Serialize(fs)) == One(fs[0], n)
    ensures Slice(Serialize(fs), n, |Serialize(fs)|) == Serialize(fs[1..])
  {
    var f := fs[0];
    n := 9 + |f.name| + |Data(f.value)|;
    SerializeReads(fs);
    TypedData(f.value);
    UnpackOneReads(Serialize(fs), TypeCode(f.value), f.name, Data(f.value), Serialize(fs[1..]), f.value);
  }

  lemma UnpackNone()
    ensures Unpack(Serialize([])) == Some([])
  {
    FirstReads(Raws([]));
  }

  /** The client reads the list that was packed, by itself or by the server. */
  lemma {:induction false} UnpackInverts(fs: seq<Field>)
    requires Valid(fs)
    ensures Unpack(Serialize(fs)) == Some(fs)
    decreases |fs|
  {
    hide *;
    if fs == [] {
      UnpackNone();
    } else {
      var n := UnpackFirst(fs);
      UnpackInverts(fs[1..]);
      UnpackStep(Serialize(fs), fs[0], n, Serialize(fs[1..]), fs[1..]);
      assert fs == [fs[0]] + fs[1..];
    }
  }
}
