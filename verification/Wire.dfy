/** The Protocol Buffers wire format (Protocol Buffers Encoding guide): base 128
    varints, tags and records, as functions on byte sequences. */
module Wire {

  type byte = x: int | 0 <= x < 256
  type Bytes = seq<byte>

  const TWO_32: int := 0x1_0000_0000
  const TWO_63: int := 0x8000_0000_0000_0000
  const TWO_64: int := 0x1_0000_0000_0000_0000
  const INT_MAX: int := 0x7FFF_FFFF

  type uint32 = x: int | 0 <= x < 0x1_0000_0000
  type uint64 = x: int | 0 <= x < 0x1_0000_0000_0000_0000
  type int64 = x: int | -0x8000_0000_0000_0000 <= x < 0x8000_0000_0000_0000

  datatype Option<+T> = None | Some(value: T)

  /** The two's complement bit pattern of a signed 64-bit integer, and back. */
  function ToU64(x: int64): uint64 {
    if x < 0 then x + TWO_64 else x
  }

  function ToI64(x: uint64): int64 {
    if x < TWO_63 then x else x - TWO_64
  }

  // ---------------------------------------------------------------- varints

  /** Little-endian groups of seven bits; every byte but the last has bit 7 set. */
  function Varint(n: nat): (s: Bytes)
    ensures s != []
  {
    if n < 128 then [n] else [n % 128 + 128] + Varint(n / 128)
  }

  function VarintSize(n: nat): (k: nat)
    ensures k == |Varint(n)|
  {
    if n < 128 then 1 else 1 + VarintSize(n / 128)
  }

  /** Outcome of reading something off the front of a byte sequence. */
  datatype Read<+T> = Fail | Got(value: T, size: nat)

  /** Reads a varint of at most `limit` bytes; the value is not yet truncated. */
  function ReadGroups(s: Bytes, limit: nat): (r: Read<nat>)
    ensures r.Got? ==> 0 < r.size <= |s| && r.size <= limit
  {
    if s == [] || limit == 0 then Fail
    else if s[0] < 128 then Got(s[0], 1)
    else
      match ReadGroups(s[1..], limit - 1)
      case Fail => Fail
      case Got(v, n) => Got(s[0] - 128 + 128 * v, n + 1)
  }

  const MAX_VARINT_BYTES: nat := 10

  function ReadVarint64(s: Bytes): (r: Read<uint64>)
    ensures r.Got? ==> 0 < r.size <= |s|
  {
    match ReadGroups(s, MAX_VARINT_BYTES)
    case Fail => Fail
    case Got(v, n) => Got(v % TWO_64, n)
  }

  function ReadVarint32(s: Bytes): (r: Read<uint32>)
    ensures r.Got? ==> 0 < r.size <= |s|
  {
    match ReadGroups(s, MAX_VARINT_BYTES)
    case Fail => Fail
    case Got(v, n) => Got(v % TWO_32, n)
  }

  function Pow128(k: nat): (p: nat)
    ensures p > 0
  {
    if k == 0 then 1 else 128 * Pow128(k - 1)
  }

  lemma Pow128Of10()
    ensures Pow128(10) > TWO_64 && Pow128(9) == TWO_63
  {
  }

  lemma {:induction false} VarintLength(n: nat, k: nat)
    requires k > 0
    ensures |Varint(n)| <= k <==> n < Pow128(k)
  {
    if k == 1 {
      assert Pow128(1) == 128 * Pow128(0);
    } else if n >= 128 {
      VarintLength(n / 128, k - 1);
      assert Pow128(k) == 128 * Pow128(k - 1);
    } else {
      assert Pow128(k) == 128 * Pow128(k - 1);
    }
  }

  /** A 64-bit value takes at most ten bytes, one below 2^63 at most nine, and
      the bit pattern of a negative int64 exactly ten. */
  lemma VarintSize64(n: uint64)
    ensures 1 <= VarintSize(n) <= 10
    ensures VarintSize(n) <= 9 <==> n < TWO_63
    ensures VarintSize(n) == 1 <==> n < 128
    ensures VarintSize(n) <= 2 <==> n < 16384
    ensures n < TWO_32 ==> VarintSize(n) <= 5
  {
    Pow128Of10();
    VarintLength(n, 10);
    VarintLength(n, 9);
    VarintLength(n, 5);
    VarintLength(n, 2);
    assert Pow128(2) == 16384;
    assert Pow128(3) == 128 * Pow128(2);
    assert Pow128(4) == 128 * Pow128(3);
    assert Pow128(5) == 128 * Pow128(4);
  }

  lemma {:induction false} ReadGroupsOfVarint(n: nat, limit: nat, rest: Bytes)
    requires 0 < limit && n < Pow128(limit)
    ensures ReadGroups(Varint(n) + rest, limit) == Got(n, |Varint(n)|)
  {
    var s := Varint(n) + rest;
    if n >= 128 {
      assert Pow128(limit) == 128 * Pow128(limit - 1) && Pow128(0) == 1;
      ReadGroupsOfVarint(n / 128, limit - 1, rest);
      assert s[1..] == Varint(n / 128) + rest;
    }
  }

  /** Base 128 varints: reading what was written gives it back, whatever follows. */
  lemma VarintRoundTrip(n: uint64, rest: Bytes)
    ensures ReadVarint64(Varint(n) + rest) == Got(n, |Varint(n)|)
    ensures ReadVarint32(Varint(n) + rest) == Got(n % TWO_32, |Varint(n)|)
  {
    Pow128Of10();
    ReadGroupsOfVarint(n, 10, rest);
  }

  lemma {:induction false} ReadGroupsPrefix(a: Bytes, b: Bytes, limit: nat)
    requires ReadGroups(a, limit).Got?
    ensures ReadGroups(a + b, limit) == ReadGroups(a, limit)
  {
    if a[0] >= 128 {
      ReadGroupsPrefix(a[1..], b, limit - 1);
      assert (a + b)[1..] == a[1..] + b;
    }
  }

  // ---------------------------------------------------------------- records

  /** One record of a message, as the guide's "Message Structure" lists them. */
  datatype Record =
    | VarintRec(field: nat, value: uint64)
    | Fixed64Rec(field: nat, raw: Bytes)
    | LenRec(field: nat, payload: Bytes)
    | Fixed32Rec(field: nat, raw: Bytes)
  {
    function WireType(): (w: nat)
      ensures w < 8
    {
      match this
      case VarintRec(_, _) => 0
      case Fixed64Rec(_, _) => 1
      case LenRec(_, _) => 2
      case Fixed32Rec(_, _) => 5
    }

    function Tag(): nat {
      field * 8 + WireType()
    }

    function Body(): Bytes {
      match this
      case VarintRec(_, v) => Varint(v)
      case Fixed64Rec(_, raw) => raw
      case LenRec(_, p) => Varint(|p|) + p
      case Fixed32Rec(_, raw) => raw
    }

    /** Field numbers fit the 32-bit tag and lengths fit an int. */
    predicate Writable() {
      && 0 < field < 0x2000_0000
      && (LenRec? ==> |payload| <= INT_MAX)
      && (Fixed64Rec? ==> |raw| == 8)
      && (Fixed32Rec? ==> |raw| == 4)
    }
  }

  function EncodeRecord(r: Record): (s: Bytes)
    ensures s != []
  {
    Varint(r.Tag()) + r.Body()
  }

  function EncodeRecords(rs: seq<Record>): Bytes {
    if rs == [] then [] else EncodeRecord(rs[0]) + EncodeRecords(rs[1..])
  }

  /** A length prefix and that many bytes. */
  function ReadDelimited(s: Bytes): (r: Read<Bytes>)
    ensures r.Got? ==> r.size <= |s|
  {
    match ReadVarint32(s)
    case Fail => Fail
    case Got(len, n) =>
      if len > INT_MAX || n + len > |s| then Fail
      else Got(s[n..n + len], n + len)
  }

  function ReadBody(field: nat, wireType: nat, s: Bytes): (r: Read<Record>)
    ensures r.Got? ==> r.size <= |s| && r.value.field == field && r.value.WireType() == wireType
  {
    if wireType == 0 then
      match ReadVarint64(s)
      case Fail => Fail
      case Got(v, n) => Got(VarintRec(field, v), n)
    else if wireType == 1 then
      if |s| < 8 then Fail else Got(Fixed64Rec(field, s[..8]), 8)
    else if wireType == 2 then
      match ReadDelimited(s)
      case Fail => Fail
      case Got(payload, n) => Got(LenRec(field, payload), n)
    else if wireType == 5 then
      if |s| < 4 then Fail else Got(Fixed32Rec(field, s[..4]), 4)
    else Fail
  }

  /** Reads one record. Tag zero, field number zero, the group wire types and the
      unassigned wire types 6 and 7 are malformed. */
  function ReadRecord(s: Bytes): (r: Read<Record>)
    ensures r.Got? ==> 0 < r.size <= |s|
  {
    match ReadVarint32(s)
    case Fail => Fail
    case Got(tag, n) =>
      if tag / 8 == 0 then Fail
      else
        match ReadBody(tag / 8, tag % 8, s[n..])
        case Fail => Fail
        case Got(rec, k) => Got(rec, n + k)
  }

  function Records(s: Bytes): Option<seq<Record>>
    decreases |s|
  {
    if s == [] then Some([])
    else
      match ReadRecord(s)
      case Fail => None
      case Got(rec, n) =>
        match Records(s[n..])
        case None => None
        case Some(rs) => Some([rec] + rs)
  }

  lemma RecordRoundTrip(r: Record, rest: Bytes)
    requires r.Writable()
    ensures ReadRecord(EncodeRecord(r) + rest) == Got(r, |EncodeRecord(r)|)
  {
    hide Varint, ReadVarint32, ReadBody, Record.Body;
    var s := EncodeRecord(r) + rest;
    var t := Varint(r.Tag());
    assert s == t + (r.Body() + rest);
    VarintRoundTrip(r.Tag(), r.Body() + rest);
    assert s[|t|..] == r.Body() + rest;
    BodyRoundTrip(r, rest);
  }

  lemma BodyRoundTrip(r: Record, rest: Bytes)
    requires r.Writable()
    ensures ReadBody(r.field, r.WireType(), r.Body() + rest) == Got(r, |r.Body()|)
  {
    hide Varint, ReadVarint32, ReadVarint64;
    var s := r.Body() + rest;
    match r
    case VarintRec(_, v) =>
      VarintRoundTrip(v, rest);
    case LenRec(_, p) =>
      var n := |Varint(|p|)|;
      assert s == Varint(|p|) + (p + rest);
      VarintRoundTrip(|p|, p + rest);
      assert s[n..n + |p|] == p;
    case Fixed64Rec(_, raw) =>
      assert s[..8] == raw;
    case Fixed32Rec(_, raw) =>
      assert s[..4] == raw;
  }

  predicate AllWritable(rs: seq<Record>) {
    forall i :: 0 <= i < |rs| ==> rs[i].Writable()
  }

  /** Any sequence of records is recovered from its bytes. */
  lemma {:induction false} RecordsRoundTrip(rs: seq<Record>)
    requires AllWritable(rs)
    ensures Records(EncodeRecords(rs)) == Some(rs)
  {
    hide EncodeRecord, ReadRecord;
    if rs != [] {
      var rest := EncodeRecords(rs[1..]);
      RecordRoundTrip(rs[0], rest);
      RecordsRoundTrip(rs[1..]);
      assert EncodeRecords(rs)[|EncodeRecord(rs[0])|..] == rest;
      assert rs == [rs[0]] + rs[1..];
    }
  }

  lemma ReadDelimitedPrefix(a: Bytes, b: Bytes)
    requires ReadDelimited(a).Got?
    ensures ReadDelimited(a + b) == ReadDelimited(a)
  {
    hide ReadGroups;
    ReadGroupsPrefix(a, b, MAX_VARINT_BYTES);
    var Got(len, n) := ReadVarint32(a);
    assert (a + b)[n..n + len] == a[n..n + len];
  }

  lemma ReadBodyPrefix(field: nat, wireType: nat, a: Bytes, b: Bytes)
    requires ReadBody(field, wireType, a).Got?
    ensures ReadBody(field, wireType, a + b) == ReadBody(field, wireType, a)
  {
    hide ReadGroups, ReadDelimited;
    if wireType == 0 {
      ReadGroupsPrefix(a, b, MAX_VARINT_BYTES);
    } else if wireType == 1 {
      assert (a + b)[..8] == a[..8];
    } else if wireType == 2 {
      ReadDelimitedPrefix(a, b);
    } else {
      assert (a + b)[..4] == a[..4];
    }
  }

  lemma ReadRecordPrefix(a: Bytes, b: Bytes)
    requires ReadRecord(a).Got?
    ensures ReadRecord(a + b) == ReadRecord(a)
  {
    hide ReadGroups, ReadBody;
    ReadGroupsPrefix(a, b, MAX_VARINT_BYTES);
    var Got(tag, n) := ReadVarint32(a);
    assert (a + b)[n..] == a[n..] + b;
    ReadBodyPrefix(tag / 8, tag % 8, a[n..], b);
  }

  lemma RecordsStep(s: Bytes, rec: Record, n: nat)
    requires s != [] && ReadRecord(s) == Got(rec, n)
    ensures Records(s) == match Records(s[n..])
                          case None => None
                          case Some(rs) => Some([rec] + rs)
  {
  }

  /** Concatenated messages hold the concatenated records. */
  lemma {:induction false} RecordsConcat(a: Bytes, b: Bytes)
    requires Records(a).Some?
    ensures Records(a + b) ==
            if Records(b).None? then None else Some(Records(a).value + Records(b).value)
    decreases |a|
  {
    hide ReadRecord, Records;
    if a == [] {
      assert a + b == b;
      NoRecords();
      assert Records(b).Some? ==> [] + Records(b).value == Records(b).value;
    } else {
      assert ReadRecord(a).Got? by { RecordsFirst(a); }
      ReadRecordPrefix(a, b);
      var Got(rec, n) := ReadRecord(a);
      RecordsStep(a, rec, n);
      RecordsStep(a + b, rec, n);
      assert (a + b)[n..] == a[n..] + b;
      RecordsConcat(a[n..], b);
      if Records(b).Some? {
        var ra, rb := Records(a[n..]).value, Records(b).value;
        assert [rec] + (ra + rb) == ([rec] + ra) + rb;
      }
    }
  }

  lemma NoRecords()
    ensures Records([]) == Some([])
  {
  }

  lemma RecordsFirst(s: Bytes)
    requires s != [] && Records(s).Some?
    ensures ReadRecord(s).Got?
  {
  }

  lemma {:induction false} EncodeRecordsConcat(a: seq<Record>, b: seq<Record>)
    ensures EncodeRecords(a + b) == EncodeRecords(a) + EncodeRecords(b)
  {
    hide EncodeRecord;
    if a == [] {
      assert a + b == b;
    } else {
      EncodeRecordsConcat(a[1..], b);
      assert (a + b)[1..] == a[1..] + b;
      var x, y, z := EncodeRecord(a[0]), EncodeRecords(a[1..]), EncodeRecords(b);
      assert x + (y + z) == (x + y) + z;
    }
  }

  // ---------------------------------------------------------------- parsing

  /** Applies records one after another; `apply` may reject one. */
  function Fold<M>(apply: (M, Record) -> Option<M>, m: M, rs: seq<Record>): Option<M> {
    if rs == [] then Some(m)
    else
      match apply(m, rs[0])
      case None => None
      case Some(m') => Fold(apply, m', rs[1..])
  }

  lemma {:induction false} FoldConcat<M>(apply: (M, Record) -> Option<M>, m: M, a: seq<Record>, b: seq<Record>)
    ensures Fold(apply, m, a + b) ==
            match Fold(apply, m, a)
            case None => None
            case Some(m') => Fold(apply, m', b)
  {
    if a == [] {
      assert a + b == b;
    } else {
      assert (a + b)[1..] == a[1..] + b;
      match apply(m, a[0])
      case None =>
      case Some(m') => FoldConcat(apply, m', a[1..], b);
    }
  }

  /** What parsing `s` into a message that already holds `m` yields. */
  function ParseInto<M>(apply: (M, Record) -> Option<M>, m: M, s: Bytes): Option<M> {
    match Records(s)
    case None => None
    case Some(rs) => Fold(apply, m, rs)
  }

  /** One turn of a parse loop. */
  lemma ParseStep<M>(apply: (M, Record) -> Option<M>, m: M, s: Bytes)
    requires s != []
    ensures ParseInto(apply, m, s) ==
            match ReadRecord(s)
            case Fail => None
            case Got(rec, n) =>
              match apply(m, rec)
              case None => None
              case Some(m') => ParseInto(apply, m', s[n..])
  {
    match ReadRecord(s)
    case Fail =>
    case Got(rec, n) =>
      match Records(s[n..])
      case None =>
      case Some(rs) =>
        assert ([rec] + rs)[1..] == rs;
  }

  lemma ParseConcat<M>(apply: (M, Record) -> Option<M>, m: M, a: Bytes, b: Bytes)
    requires Records(a).Some?
    ensures ParseInto(apply, m, a + b) ==
            match ParseInto(apply, m, a)
            case None => None
            case Some(m') => ParseInto(apply, m', b)
  {
    RecordsConcat(a, b);
    if Records(b).Some? {
      FoldConcat(apply, m, Records(a).value, Records(b).value);
    }
  }
}
