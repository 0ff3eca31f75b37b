/** Reading from a byte stream and writing into a buffer step by step, proved against
    the functions of module Wire. */
module CodedStream {
  import opened Wire
  import opened Proto

  /** What follows a non-zero tag, if it is well formed. */
  function FieldBody(tag: uint32, s: Bytes): (r: Read<Record>)
    ensures r.Got? ==> r.size <= |s| && r.value.Tag() == tag
  {
    if tag / 8 == 0 then Fail else ReadBody(tag / 8, tag % 8, s)
  }

  lemma VarintBody(field: nat, s: Bytes)
    requires 0 < field < 16
    ensures FieldBody(8 * field, s) ==
            match ReadVarint64(s)
            case Fail => Fail
            case Got(v, n) => Got(VarintRec(field, v), n)
  {
  }

  lemma BytesBody(field: nat, s: Bytes)
    requires 0 < field < 16
    ensures FieldBody(8 * field + 2, s) ==
            match ReadDelimited(s)
            case Fail => Fail
            case Got(b, n) => Got(LenRec(field, b), n)
  {
  }

  function AddGroup(acc: nat, place: nat, group: nat): nat {
    acc + place * group
  }

  /** A varint whose first `i` bytes are already read: they contributed `acc`, and the
      next seven bits count `place` each. */
  ghost function Continue(r: Read<nat>, acc: nat, place: nat, i: nat): Read<nat> {
    match r
    case Fail => Fail
    case Got(v, n) => Got(acc + place * v, i + n)
  }

  lemma ContinueStart(r: Read<nat>)
    ensures Continue(r, 0, 1, 0) == r
  {
  }

  lemma ContinueStep(s: Bytes, k: nat, acc: nat, place: nat, i: nat)
    ensures s == [] || k == 0 ==> Continue(ReadGroups(s, k), acc, place, i) == Fail
    ensures s != [] && k > 0 ==>
              Continue(ReadGroups(s, k), acc, place, i) ==
              if s[0] < 128 then Got(AddGroup(acc, place, s[0]), i + 1)
              else Continue(ReadGroups(s[1..], k - 1), AddGroup(acc, place, s[0] - 128), place * 128, i + 1)
  {
    if s != [] && k > 0 && s[0] >= 128 {
      match ReadGroups(s[1..], k - 1)
      case Fail =>
      case Got(v, n) =>
        var low := s[0] - 128;
        assert place * (low + 128 * v) == place * low + (place * 128) * v;
    }
  }

  class CodedInputStream {
    const buffer: Bytes
    var pos: nat
    var limit: nat
    /** Set by ReadTag: whether it stopped exactly at the limit. */
    var legitimateEnd: bool

    constructor (buffer: Bytes)
      ensures Valid() && Rest() == buffer
    {
      this.buffer := buffer;
      pos, limit := 0, |buffer|;
      legitimateEnd := false;
      new;
      assert buffer[0..|buffer|] == buffer;
    }

    ghost predicate Valid()
      reads this
    {
      pos <= limit <= |buffer|
    }

    ghost function Rest(): Bytes
      requires Valid()
      reads this
    {
      buffer[pos..limit]
    }

    /** Reads seven-bit groups until a byte without the continuation bit. */
    method ReadVarintFallback() returns (ok: bool, value: nat)
      requires Valid()
      modifies this`pos
      ensures Valid()
      ensures ok <==> ReadGroups(old(Rest()), MAX_VARINT_BYTES).Got?
      ensures ok ==> var r := ReadGroups(old(Rest()), MAX_VARINT_BYTES);
                     value == r.value && Rest() == old(Rest())[r.size..]
    {
      hide ReadGroups, Continue, AddGroup;
      ghost var s := Rest();
      var i: nat, place: nat := 0, 1;
      value := 0;
      ok := false;
      ContinueStart(ReadGroups(s, MAX_VARINT_BYTES));
      while i < MAX_VARINT_BYTES && pos < limit
        invariant Valid() && i <= MAX_VARINT_BYTES && i <= |s|
        invariant Rest() == s[i..]
        invariant ReadGroups(s, MAX_VARINT_BYTES) ==
                  Continue(ReadGroups(Rest(), MAX_VARINT_BYTES - i), value, place, i)
      {
        ContinueStep(Rest(), MAX_VARINT_BYTES - i, value, place, i);
        var b := buffer[pos];
        assert b == Rest()[0] && Rest()[1..] == s[i + 1..];
        pos := pos + 1;
        if b < 128 {
          value := AddGroup(value, place, b);
          ok := true;
          return;
        }
        value, place, i := AddGroup(value, place, b - 128), place * 128, i + 1;
      }
      ContinueStep(Rest(), MAX_VARINT_BYTES - i, value, place, i);
    }

    method ReadVarint64() returns (ok: bool, value: uint64)
      requires Valid()
      modifies this`pos
      ensures Valid()
      ensures ok <==> Wire.ReadVarint64(old(Rest())).Got?
      ensures ok ==> var r := Wire.ReadVarint64(old(Rest()));
                     value == r.value && Rest() == old(Rest())[r.size..]
    {
      var v;
      ok, v := ReadVarintFallback();
      value := v % TWO_64;
    }

    method ReadVarint32() returns (ok: bool, value: uint32)
      requires Valid()
      modifies this`pos
      ensures Valid()
      ensures ok <==> Wire.ReadVarint32(old(Rest())).Got?
      ensures ok ==> var r := Wire.ReadVarint32(old(Rest()));
                     value == r.value && Rest() == old(Rest())[r.size..]
    {
      var v;
      ok, v := ReadVarintFallback();
      value := v % TWO_32;
    }

    /** Zero at the end of the message, and zero for a malformed tag as well; only
        `legitimateEnd` tells them apart. */
    method ReadTag() returns (tag: uint32)
      requires Valid()
      modifies this`pos, this`legitimateEnd
      ensures Valid()
      ensures legitimateEnd <==> old(Rest()) == []
      ensures legitimateEnd ==> tag == 0 && Rest() == []
      ensures !legitimateEnd && tag == 0 ==> ReadRecord(old(Rest())).Fail?
      ensures tag != 0 ==> var r := Wire.ReadVarint32(old(Rest()));
                           r.Got? && tag == r.value && Rest() == old(Rest())[r.size..]
    {
      legitimateEnd := pos == limit;
      if legitimateEnd { return 0; }
      var ok;
      ok, tag := ReadVarint32();
      if !ok { tag := 0; }
    }

    /** A length prefix and that many bytes. */
    method ReadBytes() returns (ok: bool, value: Bytes)
      requires Valid()
      modifies this`pos
      ensures Valid()
      ensures ok <==> ReadDelimited(old(Rest())).Got?
      ensures ok ==> var r := ReadDelimited(old(Rest()));
                     value == r.value && Rest() == old(Rest())[r.size..]
    {
      ghost var s := Rest();
      var len;
      value := [];
      ok, len := ReadVarint32();
      if !ok { return; }
      ghost var n := Wire.ReadVarint32(s).size;
      if len > INT_MAX || len > limit - pos { return false, []; }
      value := buffer[pos..pos + len];
      assert value == Rest()[..len] == s[n..][..len];
      pos := pos + len;
    }

    method SkipBytes(n: nat) returns (ok: bool)
      requires Valid()
      modifies this`pos
      ensures Valid()
      ensures ok <==> n <= |old(Rest())|
      ensures ok ==> Rest() == old(Rest())[n..]
    {
      ok := n <= limit - pos;
      if ok { pos := pos + n; }
    }

    /** Passes over the body of a field the message does not know. */
    method SkipField(tag: uint32) returns (ok: bool)
      requires Valid()
      modifies this`pos
      ensures Valid()
      ensures ok <==> FieldBody(tag, old(Rest())).Got?
      ensures ok ==> Rest() == old(Rest())[FieldBody(tag, old(Rest())).size..]
    {
      if tag / 8 == 0 { return false; }
      var wireType := tag % 8;
      if wireType == 0 {
        var v;
        ok, v := ReadVarint64();
      } else if wireType == 1 {
        ok := SkipBytes(8);
      } else if wireType == 2 {
        var v;
        ok, v := ReadBytes();
      } else if wireType == 5 {
        ok := SkipBytes(4);
      } else {
        ok := false;
      }
    }
  }

  // ------------------------------------------------------------------ writing

  lemma EncodeOne(r: Record)
    ensures EncodeRecords([r]) == Varint(r.Tag()) + r.Body()
  {
    assert EncodeRecords([r][1..]) == [];
  }

  method WriteVarint(n: nat, target: array<byte>, at: nat) returns (end: nat)
    requires at + VarintSize(n) <= target.Length
    modifies target
    ensures end == at + VarintSize(n)
    ensures target[..end] == old(target[..at]) + Varint(n)
    ensures forall j :: end <= j < target.Length ==> target[j] == old(target[j])
  {
    var rest := n;
    end := at;
    while rest >= 128
      invariant at <= end && end + VarintSize(rest) == at + VarintSize(n)
      invariant target[..end] + Varint(rest) == old(target[..at]) + Varint(n)
      invariant forall j :: end <= j < target.Length ==> target[j] == old(target[j])
    {
      ghost var before := target[..end];
      target[end] := rest % 128 + 128;
      assert target[..end + 1] == before + [rest % 128 + 128];
      end, rest := end + 1, rest / 128;
    }
    target[end] := rest;
    end := end + 1;
  }

  method CopyBytes(b: Bytes, target: array<byte>, at: nat) returns (end: nat)
    requires at + |b| <= target.Length
    modifies target
    ensures end == at + |b|
    ensures target[..end] == old(target[..at]) + b
    ensures forall j :: end <= j < target.Length ==> target[j] == old(target[j])
  {
    end := at + |b|;
    for i := 0 to |b|
      invariant target[..at + i] == old(target[..at]) + b[..i]
      invariant forall j :: at + i <= j < target.Length ==> target[j] == old(target[j])
    {
      target[at + i] := b[i];
    }
    assert b[..|b|] == b;
  }

  /** Writes a varint field unless it holds its default. */
  method WriteVarintField(field: nat, x: uint64, target: array<byte>, at: nat) returns (end: nat)
    requires 0 < field < 16
    requires at + VarintFieldSize(x) <= target.Length
    modifies target
    ensures end == at + VarintFieldSize(x)
    ensures target[..end] == old(target[..at]) + EncodeRecords(VarintField(field, x))
    ensures forall j :: end <= j < target.Length ==> target[j] == old(target[j])
  {
    end := at;
    if x != 0 {
      ghost var before := target[..at];
      var r := VarintRec(field, x);
      end := WriteVarint(r.Tag(), target, end);
      end := WriteVarint(x, target, end);
      EncodeOne(r);
      hide Varint, VarintSize;
      assert before + Varint(r.Tag()) + Varint(x) == before + (Varint(r.Tag()) + r.Body());
    }
  }

  method WriteBytesField(field: nat, b: Bytes, target: array<byte>, at: nat) returns (end: nat)
    requires 0 < field < 16
    requires at + BytesFieldSize(b) <= target.Length
    modifies target
    ensures end == at + BytesFieldSize(b)
    ensures target[..end] == old(target[..at]) + EncodeRecords(BytesField(field, b))
    ensures forall j :: end <= j < target.Length ==> target[j] == old(target[j])
  {
    end := at;
    if b != [] {
      ghost var before := target[..at];
      var r := LenRec(field, b);
      end := WriteVarint(r.Tag(), target, end);
      end := WriteVarint(|b|, target, end);
      end := CopyBytes(b, target, end);
      EncodeOne(r);
      hide Varint, VarintSize;
      assert before + Varint(r.Tag()) + Varint(|b|) + b == before + (Varint(r.Tag()) + r.Body());
    }
  }
}
