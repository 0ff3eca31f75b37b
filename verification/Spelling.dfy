/** Which bytes spell a varint or a record: the rules of the Protocol Buffers Encoding
    guide as conditions on single bytes, independent of the functions that read and write,
    and the proof that those read and write exactly by the rules. */
module Spelling {
  import opened Wire

  // ---------------------------------------------------------------- numbers

  /** Signed and unsigned 64-bit numbers with the same bits differ by a multiple of 2^64. */
  lemma TwosComplement(x: int64, u: uint64)
    ensures (ToU64(x) - x) % 0x1_0000_0000_0000_0000 == 0
    ensures (ToI64(u) - u) % 0x1_0000_0000_0000_0000 == 0
    ensures ToI64(ToU64(x)) == x && ToU64(ToI64(u)) == u
  {
  }

  // ---------------------------------------------------------------- varints

  /** The number whose seven-bit groups are the low bits of `s`, least significant first. */
  function GroupSum(s: Bytes): nat {
    if s == [] then 0 else GroupSum(s[..|s| - 1]) + s[|s| - 1] % 128 * Pow128(|s| - 1)
  }

  /** Every byte but the last has its high bit set, and there are at most ten. */
  predicate IsSpelling(s: Bytes) {
    && 1 <= |s| <= 10 && s[|s| - 1] < 128
    && forall i :: 0 <= i < |s| - 1 ==> s[i] >= 128
  }

  lemma {:induction false} GroupSumFront(s: Bytes)
    requires s != []
    ensures GroupSum(s) == s[0] % 128 + 128 * GroupSum(s[1..])
  {
    if |s| == 1 {
      assert s[..0] == [] && s[1..] == [];
      assert GroupSum([]) == 0 && Pow128(0) == 1;
    } else {
      var front, last := s[..|s| - 1], s[|s| - 1] % 128;
      GroupSumFront(front);
      assert front[1..] == s[1..][..|s| - 2];
      assert Pow128(|s| - 1) == 128 * Pow128(|s| - 2);
      ShiftedPlace(last, Pow128(|s| - 2));
    }
  }

  lemma ShiftedPlace(x: nat, p: nat)
    ensures x * (128 * p) == 128 * (x * p)
  {
  }

  /** Byte number `i` of a varint holds group number `i`, and the high bit unless it is
      the last. */
  lemma {:induction false} VarintBytes(n: nat, i: nat)
    requires i < |Varint(n)|
    ensures Varint(n)[i] == n / Pow128(i) % 128 + if i < |Varint(n)| - 1 then 128 else 0
  {
    assert Pow128(0) == 1;
    if n >= 128 && i > 0 {
      VarintBytes(n / 128, i - 1);
      assert Pow128(i) == 128 * Pow128(i - 1);
      DivideTwice(n, Pow128(i - 1));
    }
  }

  lemma DivideTwice(n: nat, p: nat)
    requires p > 0
    ensures n / (128 * p) == n / 128 / p
  {
    var q, r := n / 128, n % 128;
    var a, b := q / p, q % p;
    assert n == 128 * (p * a + b) + r;
    assert 128 * (p * a + b) + r == (128 * p) * a + (128 * b + r);
    assert 128 * b + r < 128 * p;
    QuotientIs(n, 128 * p, a, 128 * b + r);
  }

  lemma QuotientIs(n: nat, d: nat, q: nat, r: nat)
    requires n == d * q + r && r < d
    ensures n / d == q
  {
    var x, r' := q - n / d, n % d;
    assert n == d * (n / d) + r';
    assert d * x == d * q - d * (n / d) == r' - r;
    SmallMultiple(d, x);
  }

  lemma SmallMultiple(d: int, x: int)
    requires 0 <= d && -d < d * x < d
    ensures x == 0
  {
    if x >= 1 {
      AtLeastOnce(d, x - 1);
    } else if x <= -1 {
      AtLeastOnce(d, -x - 1);
    }
  }

  lemma AtLeastOnce(d: int, y: nat)
    requires 0 <= d
    ensures d * (y + 1) >= d
    ensures d * -(y + 1) <= -d
  {
  }

  lemma {:induction false} ReadsSpelling(s: Bytes, limit: nat)
    requires limit <= 10 && ReadGroups(s, limit).Got?
    ensures var Got(v, n) := ReadGroups(s, limit);
            IsSpelling(s[..n]) && v == GroupSum(s[..n])
  {
    var n := ReadGroups(s, limit).size;
    GroupSumFront(s[..n]);
    assert GroupSum([]) == 0;
    if s[0] >= 128 {
      ReadsSpelling(s[1..], limit - 1);
      hide GroupSum;
      assert s[..n][1..] == s[1..][..n - 1];
      SpellingRest(s[..n]);
    }
  }

  lemma {:induction false} SpellingIsRead(s: Bytes, limit: nat, n: nat)
    requires n <= limit && n <= |s| && IsSpelling(s[..n])
    ensures ReadGroups(s, limit) == Got(GroupSum(s[..n]), n)
  {
    GroupSumFront(s[..n]);
    assert GroupSum([]) == 0;
    assert s[..n][0] == s[0];
    if s[0] >= 128 {
      assert s[..n][1..] == s[1..][..n - 1];
      SpellingRest(s[..n]);
      hide GroupSum;
      SpellingIsRead(s[1..], limit - 1, n - 1);
    } else {
      assert n == 1;
    }
  }

  lemma SpellingRest(s: Bytes)
    requires s != [] && s[0] >= 128
    ensures IsSpelling(s) <==> IsSpelling(s[1..]) && |s| <= 10
  {
  }

  /** A varint is read from any bytes exactly when they begin with a spelling of it that is
      no longer than the limit, and then that spelling is what is read. */
  lemma ReadGroupsIff(s: Bytes, limit: nat, v: nat, n: nat)
    requires limit <= 10
    ensures ReadGroups(s, limit) == Got(v, n) <==>
            n <= |s| && n <= limit && IsSpelling(s[..n]) && v == GroupSum(s[..n])
  {
    hide GroupSum, IsSpelling;
    if ReadGroups(s, limit).Got? { ReadsSpelling(s, limit); }
    if n <= |s| && n <= limit && IsSpelling(s[..n]) { SpellingIsRead(s, limit, n); }
  }

  /** A spelling of `v`, of which only the low 64 or 32 bits count. */
  predicate Spells64(s: Bytes, v: uint64) {
    IsSpelling(s) && GroupSum(s) % 0x1_0000_0000_0000_0000 == v
  }

  predicate Spells32(s: Bytes, v: uint32) {
    IsSpelling(s) && GroupSum(s) % 0x1_0000_0000 == v
  }

  lemma ReadVarint64Iff(s: Bytes, v: uint64, n: nat)
    ensures ReadVarint64(s) == Got(v, n) <==> n <= |s| && Spells64(s[..n], v)
  {
    hide GroupSum, IsSpelling, ReadGroups;
    if n <= |s| && IsSpelling(s[..n]) {
      SpellingLength(s[..n]);
      ReadGroupsIff(s, 10, GroupSum(s[..n]), n);
    }
    match ReadGroups(s, 10)
    case Fail =>
    case Got(w, k) => ReadGroupsIff(s, 10, w, k);
  }

  lemma ReadVarint32Iff(s: Bytes, v: uint32, n: nat)
    ensures ReadVarint32(s) == Got(v, n) <==> n <= |s| && Spells32(s[..n], v)
  {
    hide GroupSum, IsSpelling, ReadGroups;
    if n <= |s| && IsSpelling(s[..n]) {
      SpellingLength(s[..n]);
      ReadGroupsIff(s, 10, GroupSum(s[..n]), n);
    }
    match ReadGroups(s, 10)
    case Fail =>
    case Got(w, k) => ReadGroupsIff(s, 10, w, k);
  }

  lemma SpellingLength(s: Bytes)
    requires IsSpelling(s)
    ensures 1 <= |s| <= 10
  {
  }

  // ---------------------------------------------------------------- records

  /** The field number and the wire type. */
  function TagOf(r: Record): nat {
    match r
    case VarintRec(field, _) => 8 * field
    case Fixed64Rec(field, _) => 8 * field + 1
    case LenRec(field, _) => 8 * field + 2
    case Fixed32Rec(field, _) => 8 * field + 5
  }

  ghost predicate SpellsBody(s: Bytes, r: Record) {
    match r
    case VarintRec(_, v) => Spells64(s, v)
    case Fixed64Rec(_, raw) => |raw| == 8 && s == raw
    case LenRec(_, p) =>
      |p| <= 0x7FFF_FFFF && exists j :: 0 <= j <= |s| && Spells32(s[..j], |p|) && s[j..] == p
    case Fixed32Rec(_, raw) => |raw| == 4 && s == raw
  }

  /** A spelling of the tag, whose field number is not zero, and then the body. */
  ghost predicate SpellsRecord(s: Bytes, r: Record) {
    0 < r.field < 0x2000_0000
    && exists k :: 0 <= k <= |s| && Spells32(s[..k], TagOf(r)) && SpellsBody(s[k..], r)
  }

  /** What the writer makes of a record. */
  lemma RecordBytes(r: Record)
    ensures EncodeRecord(r) == Varint(TagOf(r)) +
            match r
            case VarintRec(_, v) => Varint(v)
            case Fixed64Rec(_, raw) => raw
            case LenRec(_, p) => Varint(|p|) + p
            case Fixed32Rec(_, raw) => raw
  {
  }

  lemma ReadsBody(field: nat, wireType: nat, s: Bytes)
    requires ReadBody(field, wireType, s).Got?
    ensures var Got(r, n) := ReadBody(field, wireType, s);
            SpellsBody(s[..n], r) && TagOf(r) == 8 * field + wireType
  {
    hide Spells64, Spells32, ReadVarint64, ReadVarint32;
    var Got(r, n) := ReadBody(field, wireType, s);
    match r
    case VarintRec(_, v) => ReadVarint64Iff(s, v, n);
    case LenRec(_, p) =>
      var j := n - |p|;
      ReadVarint32Iff(s, |p|, j);
      assert s[..n][..j] == s[..j] && s[..n][j..] == p;
    case _ =>
  }

  lemma BodyIsRead(r: Record, s: Bytes, n: nat)
    requires n <= |s| && SpellsBody(s[..n], r)
    ensures ReadBody(r.field, TagOf(r) % 8, s) == Got(r, n)
  {
    hide Spells64, Spells32, ReadVarint64, ReadVarint32;
    match r
    case VarintRec(_, v) => ReadVarint64Iff(s, v, n);
    case LenRec(_, p) =>
      var j :| 0 <= j <= n && Spells32(s[..n][..j], |p|) && s[..n][j..] == p;
      assert s[..n][..j] == s[..j] && s[..n][j..] == s[j..n];
      ReadVarint32Iff(s, |p|, j);
    case _ =>
  }

  /** A record is read from any bytes exactly when they begin with a spelling of it. */
  lemma ReadRecordIff(s: Bytes, r: Record, n: nat)
    ensures ReadRecord(s) == Got(r, n) <==> n <= |s| && SpellsRecord(s[..n], r)
  {
    hide Spells32, SpellsBody, ReadVarint32, ReadBody;
    if ReadRecord(s) == Got(r, n) {
      var Got(tag, k) := ReadVarint32(s);
      ReadVarint32Iff(s, tag, k);
      ReadsBody(tag / 8, tag % 8, s[k..]);
      assert s[..n][..k] == s[..k] && s[..n][k..] == s[k..][..n - k];
    }
    if n <= |s| && SpellsRecord(s[..n], r) {
      var k :| 0 <= k <= n && Spells32(s[..n][..k], TagOf(r)) && SpellsBody(s[..n][k..], r);
      assert s[..n][..k] == s[..k] && s[..n][k..] == s[k..][..n - k];
      ReadVarint32Iff(s, TagOf(r), k);
      BodyIsRead(r, s[k..], n - k);
    }
  }

  /** The bytes are spellings of the records, one after the other. */
  ghost predicate SpellsRecords(s: Bytes, rs: seq<Record>)
    decreases |rs|
  {
    if rs == [] then s == []
    else exists n :: 0 <= n <= |s| && SpellsRecord(s[..n], rs[0]) && SpellsRecords(s[n..], rs[1..])
  }

  /** Bytes parse into records exactly when they spell them; everything else is malformed. */
  lemma {:induction false} RecordsIff(s: Bytes, rs: seq<Record>)
    ensures Records(s) == Some(rs) <==> SpellsRecords(s, rs)
    decreases |rs|
  {
    hide SpellsRecord, ReadRecord;
    if Records(s) == Some(rs) && rs != [] {
      var Got(r, n) := ReadRecord(s);
      ReadRecordIff(s, r, n);
      assert rs[0] == r && rs[1..] == Records(s[n..]).value;
      RecordsIff(s[n..], rs[1..]);
    }
    if SpellsRecords(s, rs) && rs != [] {
      var n :| 0 <= n <= |s| && SpellsRecord(s[..n], rs[0]) && SpellsRecords(s[n..], rs[1..]);
      ReadRecordIff(s, rs[0], n);
      RecordsIff(s[n..], rs[1..]);
      assert rs == [rs[0]] + rs[1..];
    }
  }
}
