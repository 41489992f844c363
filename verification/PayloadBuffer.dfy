/**
 The growing buffer that payloads are built in, and the loops that check and read them.
 */
module PayloadBuffer {
  import opened Basics
  import opened Numbers
  import opened Payload

  class Buffer {
    var buf: array<Byte>
    var capacity: nat
    var size: nat

    ghost predicate Ok()
      reads this
    {
      capacity == buf.Length && size <= capacity && capacity > 0
    }

    ghost function Contents(): seq<Byte>
      requires Ok()
      reads this, buf
    {
      buf[..size]
    }

    constructor ()
      ensures Ok() && Contents() == [] && fresh(buf)
    {
      capacity, size := 64, 0;
      buf := new Byte[64](_ => 0);
    }

    /** Room for the given number of bytes; the allocation doubles until they fit. */
    method Reserve(count: nat)
      requires Ok()
      modifies this`buf, this`capacity
      ensures Ok() && Contents() == old(Contents()) && size + count <= capacity
      ensures buf == old(buf) || fresh(buf)
    {
      var wanted := capacity;
      while count + size > wanted
        invariant wanted >= capacity > 0
        decreases count + size - wanted
      {
        wanted := 2 * wanted;
      }
      if wanted != capacity {
        var bigger := new Byte[wanted](_ => 0);
        for i := 0 to size
          invariant Ok() && unchanged(this) && bigger[..i] == buf[..i]
        {
          bigger[i] := buf[i];
        }
        buf, capacity := bigger, wanted;
      }
    }

    method Append(data: seq<Byte>)
      requires Ok()
      modifies this, buf
      ensures Ok() && Contents() == old(Contents()) + data && (buf == old(buf) || fresh(buf))
    {
      Reserve(|data|);
      ghost var before := buf[..size];
      for i := 0 to |data|
        invariant Ok() && size == old(size) && size + |data| <= capacity
        invariant buf == old(buf) || fresh(buf)
        invariant buf[..size + i] == before + data[..i]
      {
        buf[size + i] := data[i];
      }
      size := size + |data|;
    }

    method AddElement(code: Byte, name: seq<Byte>, data: seq<Byte>)
      requires Ok()
      modifies this, buf
      ensures Ok() && Contents() == old(Contents()) + Element(code, 0, name, data) && (buf == old(buf) || fresh(buf))
    {
      var nameSize, dataSize := (|name| + 1) % K16, |data| % K32;
      ghost var before := Contents();
      Append(Header(code, 0, nameSize, dataSize));
      Append((name + [0])[..nameSize]);
      Append(data[..dataSize]);
      Regroup(before, Header(code, 0, nameSize, dataSize), (name + [0])[..nameSize], data[..dataSize]);
    }

    /** payload_put_u32 and its like */
    method Put(f: Field)
      requires Ok() && ValidField(f)
      modifies this, buf
      ensures Ok() && Contents() == old(Contents()) + Bytes(RawOf(f)) && (buf == old(buf) || fresh(buf))
    {
      AddElement(TypeCode(f.value), f.name, Data(f.value));
    }

    method PutTerm()
      requires Ok()
      modifies this, buf
      ensures Ok() && Contents() == old(Contents()) + Element(TERMINATOR, 0, [], []) && (buf == old(buf) || fresh(buf))
    {
      AddElement(TERMINATOR, [], []);
    }
  }

  lemma Regroup(a: seq<Byte>, b: seq<Byte>, c: seq<Byte>, d: seq<Byte>)
    ensures a + b + c + d == a + (b + c + d)
  {
  }

  /** The bytes of the elements put so far. */
  function Prefix(fs: seq<Field>): seq<Byte>
    requires Valid(fs)
  {
    if fs == [] then [] else Prefix(fs[..|fs| - 1]) + Bytes(RawOf(fs[|fs| - 1]))
  }

  /** Element by element from the front, or from the back. */
  lemma {:induction false} PrefixSerializes(fs: seq<Field>, gs: seq<Field>)
    requires Valid(fs) && Valid(gs) && Valid(fs + gs)
    ensures Prefix(fs) + Serialize(gs) == Serialize(fs + gs)
    decreases |fs|
  {
    if fs == [] {
      assert fs + gs == gs;
    } else {
      var n := |fs| - 1;
      var init, last := fs[..n], fs[n];
      assert init + ([last] + gs) == fs + gs;
      PrefixSerializes(init, [last] + gs);
      assert Raws([last] + gs)[1..] == Raws(([last] + gs)[1..]) && ([last] + gs)[1..] == gs;
      assert Serialize([last] + gs) == Bytes(RawOf(last)) + Serialize(gs);
    }
  }

  /** Putting fields one by one and a terminator at the end builds the payload. */
  method Build(fs: seq<Field>) returns (b: Buffer)
    requires Valid(fs)
    ensures fresh(b) && b.Ok() && b.Contents() == Serialize(fs) && Check(b.Contents()) == Accept
  {
    b := new Buffer();
    for i := 0 to |fs|
      invariant fresh(b) && fresh(b.buf) && b.Ok() && b.Contents() == Prefix(fs[..i])
    {
      assert fs[..i + 1][..i] == fs[..i];
      b.Put(fs[i]);
    }
    b.PutTerm();
    assert fs[..|fs|] == fs && fs + [] == fs;
    TerminatorIs();
    PrefixSerializes(fs, []);
    SerializedAccepted(fs);
  }

  lemma TerminatorIs()
    ensures Serialize([]) == Element(TERMINATOR, 0, [], [])
  {
    assert AllBytes(Raws([])) == Bytes(Raws([])[0]) + AllBytes(Raws([])[1..]);
    assert Raws([])[1..] == [];
    assert Element(TERMINATOR, 0, [], []) + [] == Element(TERMINATOR, 0, [], []);
  }

  // ----- Checking and reading -----

  // In these loops rest is the memory from the current element on.

  lemma CheckRest(s: seq<Byte>)
    requires CheckElement(s) == Accept
    ensures 8 <= ElementSize(s) <= |s|
    ensures Check(s) == if s[0] == TERMINATOR then Fitting(|s| == ElementSize(s)) else Check(s[ElementSize(s)..])
  {
  }

  method CheckPayload(buf: seq<Byte>) returns (v: Verdict)
    ensures v == Check(buf)
  {
    var rest := buf;
    while true
      invariant Check(rest) == Check(buf)
      decreases |rest|
    {
      v := CheckElement(rest);
      if v != Accept {
        return;
      }
      CheckRest(rest);
      if rest[0] == TERMINATOR {
        return Fitting(|rest| == ElementSize(rest));
      }
      rest := rest[ElementSize(rest)..];
    }
  }

  lemma FindRest(s: seq<Byte>, name: seq<Byte>)
    requires Check(s) == Accept
    ensures |s| >= 8 && 8 + Strlen(s[8..]) <= |s|
    ensures s[0] != TERMINATOR ==> 8 <= ElementSize(s) <= |s| && Check(s[ElementSize(s)..]) == Accept
    ensures Find(s, name) ==
      if s[0] == TERMINATOR then None
      else if name == s[8..8 + Strlen(s[8..])] then Some(s)
      else Find(s[ElementSize(s)..], name)
  {
    StrlenWithin(s[8..]);
    CheckRest(s);
  }

  /** The memory from the element found on. */
  method FindPayload(buf: seq<Byte>, name: seq<Byte>) returns (r: Option<seq<Byte>>)
    requires Check(buf) == Accept
    ensures r == Find(buf, name)
  {
    var rest := buf;
    FindRest(rest, name);
    while rest[0] != TERMINATOR
      invariant Check(rest) == Accept && Find(rest, name) == Find(buf, name)
      decreases |rest|
    {
      FindRest(rest, name);
      if name == rest[8..8 + Strlen(rest[8..])] {
        return Some(rest);
      }
      rest := rest[ElementSize(rest)..];
    }
    return None;
  }

  /** The fields so far, and those that the rest of the data has. */
  ghost predicate Unpacking(data: seq<Byte>, rest: seq<Byte>, fields: seq<Field>) {
    Unpack(data) == Prepend(fields, Unpack(rest))
  }

  lemma PrependTwice(fs: seq<Field>, f: Field, r: Option<seq<Field>>)
    ensures Prepend(fs, Prepend([f], r)) == Prepend(fs + [f], r)
  {
    if r.Some? {
      assert fs + ([f] + r.value) == fs + [f] + r.value;
    }
  }

  lemma UnpackOn(data: seq<Byte>, rest: seq<Byte>, next: seq<Byte>, fields: seq<Field>, f: Field)
    requires Unpacking(data, rest, fields) && Unpack(rest) == Prepend([f], Unpack(next))
    ensures Unpacking(data, next, fields + [f])
  {
    PrependTwice(fields, f, Unpack(next));
  }

  lemma StartUnpacking(data: seq<Byte>)
    ensures Unpacking(data, data, [])
  {
    if Unpack(data).Some? {
      assert [] + Unpack(data).value == Unpack(data).value;
    }
  }

  /** The body of the loop: one element, and the data after it. */
  method ReadOne(rest: seq<Byte>) returns (u: Unpacked, next: seq<Byte>)
    ensures match u
      case Broken => Unpack(rest) == None
      case End => Unpack(rest) == Some([])
      case One(f, n) => |next| < |rest| && next == Slice(rest, n, |rest|) && Unpack(rest) == Prepend([f], Unpack(next))
  {
    u := UnpackOne(rest);
    next := if u.One? then Slice(rest, u.size, |rest|) else [];
  }

  method UnpackFrom(data: seq<Byte>) returns (r: Option<seq<Field>>)
    ensures r == Unpack(data)
  {
    var rest, fields := data, [];
    StartUnpacking(data);
    while true
      invariant Unpacking(data, rest, fields)
      decreases |rest|
    {
      var u, next := ReadOne(rest);
      if u.Broken? {
        return None;
      }
      if u.End? {
        assert fields + [] == fields;
        return Some(fields);
      }
      UnpackOn(data, rest, next, fields, u.f);
      fields := fields + [u.f];
      rest := next;
    }
  }
}
