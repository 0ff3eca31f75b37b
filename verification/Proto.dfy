/** The generated messages as values: their fields on the wire, what a record does
    to a message, sizes and merging; and what decoding means. */
module Proto {
  import opened Wire

  /** proto3 leaves out a field that holds its default. */
  function VarintField(field: nat, x: uint64): seq<Record> {
    if x == 0 then [] else [VarintRec(field, x)]
  }

  function BytesField(field: nat, b: Bytes): seq<Record> {
    if b == [] then [] else [LenRec(field, b)]
  }

  function BytesSize(b: Bytes): nat {
    VarintSize(|b|) + |b|
  }

  function VarintFieldSize(x: uint64): nat {
    if x == 0 then 0 else 1 + VarintSize(x)
  }

  function BytesFieldSize(b: Bytes): nat {
    if b == [] then 0 else 1 + BytesSize(b)
  }

  lemma FieldSizes(field: nat, x: uint64, b: Bytes)
    requires 0 < field < 16
    ensures |EncodeRecords(VarintField(field, x))| == VarintFieldSize(x)
    ensures |EncodeRecords(BytesField(field, b))| == BytesFieldSize(b)
  {
    assert EncodeRecords([]) == [];
    if x != 0 {
      assert EncodeRecords(VarintField(field, x)) == EncodeRecord(VarintRec(field, x));
    }
    if b != [] {
      assert EncodeRecords(BytesField(field, b)) == EncodeRecord(LenRec(field, b));
    }
  }

  lemma FieldsWritable(field: nat, x: uint64, b: Bytes)
    requires 0 < field < 16
    ensures AllWritable(VarintField(field, x))
    ensures BytesFieldSize(b) <= INT_MAX ==> AllWritable(BytesField(field, b))
  {
  }

  lemma FoldStep<M>(apply: (M, Record) -> Option<M>, m: M, r: Record, rs: seq<Record>)
    ensures Fold(apply, m, [r] + rs) ==
            match apply(m, r)
            case None => None
            case Some(m') => Fold(apply, m', rs)
  {
    assert ([r] + rs)[1..] == rs;
  }

  lemma FoldNothing<M>(apply: (M, Record) -> Option<M>, m: M)
    ensures Fold(apply, m, []) == Some(m)
  {
  }

  lemma FoldVarintField<M>(apply: (M, Record) -> Option<M>, m: M, rs: seq<Record>, field: nat, x: uint64)
    ensures Fold(apply, m, rs + VarintField(field, x)) ==
            match Fold(apply, m, rs)
            case None => None
            case Some(m') => if x == 0 then Some(m') else apply(m', VarintRec(field, x))
  {
    FoldConcat(apply, m, rs, VarintField(field, x));
  }

  lemma FoldBytesField<M>(apply: (M, Record) -> Option<M>, m: M, rs: seq<Record>, field: nat, b: Bytes)
    ensures Fold(apply, m, rs + BytesField(field, b)) ==
            match Fold(apply, m, rs)
            case None => None
            case Some(m') => if b == [] then Some(m') else apply(m', LenRec(field, b))
  {
    FoldConcat(apply, m, rs, BytesField(field, b));
  }

  /** Records written after bytes that already parse are applied to what those gave. */
  lemma ParseThenFields<M>(apply: (M, Record) -> Option<M>, m: M, s: Bytes, a: M, fields: seq<Record>)
    requires ParseInto(apply, m, s) == Some(a)
    requires AllWritable(fields)
    ensures ParseInto(apply, m, s + EncodeRecords(fields)) == Fold(apply, a, fields)
  {
    ParseConcat(apply, m, s, EncodeRecords(fields));
    RecordsRoundTrip(fields);
  }

  lemma ParseFields<M>(apply: (M, Record) -> Option<M>, m: M, fields: seq<Record>)
    requires AllWritable(fields)
    ensures ParseInto(apply, m, EncodeRecords(fields)) == Fold(apply, m, fields)
  {
    RecordsRoundTrip(fields);
  }

  // --------------------------------------------------------- OfflineMessage

  datatype OfflineMessage = OfflineMessage(
    localMsgId: int64, msgId: uint64, frPk: Bytes, toPk: Bytes, content: Bytes, createTime: uint64)
  {
    /** The records the printer writes, in its order. */
    function Fields(): seq<Record> {
      VarintField(1, ToU64(localMsgId)) + VarintField(2, msgId) + BytesField(3, frPk)
      + BytesField(4, toPk) + BytesField(5, content) + VarintField(6, createTime)
    }

    /** The size function's sum, in its own order. */
    function ByteSize(): nat {
      BytesFieldSize(frPk) + BytesFieldSize(toPk) + BytesFieldSize(content)
      + VarintFieldSize(ToU64(localMsgId)) + VarintFieldSize(msgId) + VarintFieldSize(createTime)
    }

    function Merge(from: OfflineMessage): OfflineMessage {
      OfflineMessage(
        if from.localMsgId != 0 then from.localMsgId else localMsgId,
        if from.msgId != 0 then from.msgId else msgId,
        if from.frPk != [] then from.frPk else frPk,
        if from.toPk != [] then from.toPk else toPk,
        if from.content != [] then from.content else content,
        if from.createTime != 0 then from.createTime else createTime)
    }
  }

  const NO_MESSAGE := OfflineMessage(0, 0, [], [], [], 0)

  function ApplyMessage(m: OfflineMessage, r: Record): Option<OfflineMessage> {
    if r.VarintRec? && r.field == 1 then Some(m.(localMsgId := ToI64(r.value)))
    else if r.VarintRec? && r.field == 2 then Some(m.(msgId := r.value))
    else if r.LenRec? && r.field == 3 then Some(m.(frPk := r.payload))
    else if r.LenRec? && r.field == 4 then Some(m.(toPk := r.payload))
    else if r.LenRec? && r.field == 5 then Some(m.(content := r.payload))
    else if r.VarintRec? && r.field == 6 then Some(m.(createTime := r.value))
    else Some(m)
  }

  function EncodeMessage(m: OfflineMessage): Bytes {
    EncodeRecords(m.Fields())
  }

  function ParseMessage(s: Bytes): Option<OfflineMessage> {
    ParseInto(ApplyMessage, NO_MESSAGE, s)
  }

  /** The size function is exact although it sums in another order. */
  lemma MessageSizeExact(m: OfflineMessage)
    ensures |EncodeMessage(m)| == m.ByteSize()
  {
    hide EncodeRecords, VarintField, BytesField, VarintFieldSize, BytesFieldSize;
    EncodeMessageParts(m, []);
    FieldSizes(1, ToU64(m.localMsgId), []);
    FieldSizes(2, m.msgId, []);
    FieldSizes(3, 0, m.frPk);
    FieldSizes(4, 0, m.toPk);
    FieldSizes(5, 0, m.content);
    FieldSizes(6, m.createTime, []);
  }

  lemma EncodeMessageParts(m: OfflineMessage, before: Bytes)
    ensures before + EncodeRecords(VarintField(1, ToU64(m.localMsgId))) + EncodeRecords(VarintField(2, m.msgId))
            + EncodeRecords(BytesField(3, m.frPk)) + EncodeRecords(BytesField(4, m.toPk))
            + EncodeRecords(BytesField(5, m.content)) + EncodeRecords(VarintField(6, m.createTime))
            == before + EncodeMessage(m)
  {
    hide EncodeRecords, VarintField, BytesField;
    var a, b := VarintField(1, ToU64(m.localMsgId)), VarintField(2, m.msgId);
    var c, d, e, f :=
      BytesField(3, m.frPk), BytesField(4, m.toPk), BytesField(5, m.content), VarintField(6, m.createTime);
    EncodeRecordsConcat(a + b + c + d + e, f);
    EncodeRecordsConcat(a + b + c + d, e);
    EncodeRecordsConcat(a + b + c, d);
    EncodeRecordsConcat(a + b, c);
    EncodeRecordsConcat(a, b);
  }

  lemma MessageFieldsMerge(a: OfflineMessage, b: OfflineMessage)
    ensures Fold(ApplyMessage, a, b.Fields()) == Some(a.Merge(b))
  {
    hide Fold, VarintField, BytesField;
    var f1, f2 := VarintField(1, ToU64(b.localMsgId)), VarintField(2, b.msgId);
    var f3, f4, f5 := BytesField(3, b.frPk), BytesField(4, b.toPk), BytesField(5, b.content);
    assert Fold(ApplyMessage, a, []) == Some(a) by { FoldNothing(ApplyMessage, a); }
    assert [] + f1 == f1;
    FoldVarintField(ApplyMessage, a, [], 1, ToU64(b.localMsgId));
    FoldVarintField(ApplyMessage, a, f1, 2, b.msgId);
    FoldBytesField(ApplyMessage, a, f1 + f2, 3, b.frPk);
    FoldBytesField(ApplyMessage, a, f1 + f2 + f3, 4, b.toPk);
    FoldBytesField(ApplyMessage, a, f1 + f2 + f3 + f4, 5, b.content);
    FoldVarintField(ApplyMessage, a, f1 + f2 + f3 + f4 + f5, 6, b.createTime);
  }

  /** Messages are limited to INT_MAX bytes, as the cached sizes are ints. */
  lemma MessageWritable(m: OfflineMessage)
    requires m.ByteSize() <= INT_MAX
    ensures AllWritable(m.Fields())
  {
    hide VarintField, BytesField, VarintFieldSize, BytesFieldSize, Record.Writable;
    FieldsWritable(1, ToU64(m.localMsgId), []);
    FieldsWritable(2, m.msgId, []);
    FieldsWritable(3, 0, m.frPk);
    FieldsWritable(4, 0, m.toPk);
    FieldsWritable(5, 0, m.content);
    FieldsWritable(6, m.createTime, []);
  }

  /** "Last One Wins": bytes followed by an encoded message parse to the merge. */
  lemma MessageConcatIsMerge(s: Bytes, a: OfflineMessage, b: OfflineMessage)
    requires ParseMessage(s) == Some(a)
    requires b.ByteSize() <= INT_MAX
    ensures ParseMessage(s + EncodeMessage(b)) == Some(a.Merge(b))
  {
    MessageWritable(b);
    MessageFieldsMerge(a, b);
    ParseThenFields(ApplyMessage, NO_MESSAGE, s, a, b.Fields());
  }

  lemma MessageRoundTrip(m: OfflineMessage)
    requires m.ByteSize() <= INT_MAX
    ensures ParseMessage(EncodeMessage(m)) == Some(m)
  {
    MessageWritable(m);
    MessageFieldsMerge(NO_MESSAGE, m);
    ParseFields(ApplyMessage, NO_MESSAGE, m.Fields());
  }

  // -------------------------------------- what decoding means, field by field

  predicate IsVarint(r: Record, field: nat) {
    r.VarintRec? && r.field == field
  }

  predicate IsBytes(r: Record, field: nat) {
    r.LenRec? && r.field == field
  }

  /** `v` is the value of the last varint record of the field, or `d` if there is none. */
  ghost predicate LastVarint(rs: seq<Record>, field: nat, d: uint64, v: uint64) {
    || ((forall i :: 0 <= i < |rs| ==> !IsVarint(rs[i], field)) && v == d)
    || (exists i :: 0 <= i < |rs| && IsVarint(rs[i], field) && rs[i].value == v
                    && forall j :: i < j < |rs| ==> !IsVarint(rs[j], field))
  }

  ghost predicate LastBytes(rs: seq<Record>, field: nat, d: Bytes, v: Bytes) {
    || ((forall i :: 0 <= i < |rs| ==> !IsBytes(rs[i], field)) && v == d)
    || (exists i :: 0 <= i < |rs| && IsBytes(rs[i], field) && rs[i].payload == v
                    && forall j :: i < j < |rs| ==> !IsBytes(rs[j], field))
  }

  lemma LastVarintStep(rs: seq<Record>, field: nat, d: uint64, v: uint64)
    requires rs != []
    requires LastVarint(rs[1..], field, if IsVarint(rs[0], field) then rs[0].value else d, v)
    ensures LastVarint(rs, field, d, v)
  {
    var tl := rs[1..];
    assert forall i :: 0 < i < |rs| ==> rs[i] == tl[i - 1];
    if forall i :: 0 <= i < |tl| ==> !IsVarint(tl[i], field) {
      assert IsVarint(rs[0], field) ==> rs[0].value == v;
    } else {
      var i :| 0 <= i < |tl| && IsVarint(tl[i], field) && tl[i].value == v
               && forall j :: i < j < |tl| ==> !IsVarint(tl[j], field);
      assert rs[i + 1] == tl[i];
    }
  }

  lemma LastBytesStep(rs: seq<Record>, field: nat, d: Bytes, v: Bytes)
    requires rs != []
    requires LastBytes(rs[1..], field, if IsBytes(rs[0], field) then rs[0].payload else d, v)
    ensures LastBytes(rs, field, d, v)
  {
    var tl := rs[1..];
    assert forall i :: 0 < i < |rs| ==> rs[i] == tl[i - 1];
    if forall i :: 0 <= i < |tl| ==> !IsBytes(tl[i], field) {
      assert IsBytes(rs[0], field) ==> rs[0].payload == v;
    } else {
      var i :| 0 <= i < |tl| && IsBytes(tl[i], field) && tl[i].payload == v
               && forall j :: i < j < |tl| ==> !IsBytes(tl[j], field);
      assert rs[i + 1] == tl[i];
    }
  }

  ghost predicate LastOfEach(rs: seq<Record>, a: OfflineMessage, m: OfflineMessage) {
    && LastVarint(rs, 1, ToU64(a.localMsgId), ToU64(m.localMsgId))
    && LastVarint(rs, 2, a.msgId, m.msgId)
    && LastBytes(rs, 3, a.frPk, m.frPk)
    && LastBytes(rs, 4, a.toPk, m.toPk)
    && LastBytes(rs, 5, a.content, m.content)
    && LastVarint(rs, 6, a.createTime, m.createTime)
  }

  /** Every field of a decoded message is the last value its field number carries
      with the right wire type, or the default; nothing else matters. */
  lemma {:induction false} LastOneWins(rs: seq<Record>, a: OfflineMessage)
    ensures Fold(ApplyMessage, a, rs).Some?
    ensures LastOfEach(rs, a, Fold(ApplyMessage, a, rs).value)
  {
    if rs == [] {
    } else {
      hide LastVarint, LastBytes;
      var a' := ApplyMessage(a, rs[0]).value;
      LastOneWins(rs[1..], a');
      var m := Fold(ApplyMessage, a', rs[1..]).value;
      LastVarintStep(rs, 1, ToU64(a.localMsgId), ToU64(m.localMsgId));
      LastVarintStep(rs, 2, a.msgId, m.msgId);
      LastBytesStep(rs, 3, a.frPk, m.frPk);
      LastBytesStep(rs, 4, a.toPk, m.toPk);
      LastBytesStep(rs, 5, a.content, m.content);
      LastVarintStep(rs, 6, a.createTime, m.createTime);
    }
  }

  /** The records an OfflineMessage parser does not skip. */
  predicate Known(r: Record) {
    || IsVarint(r, 1) || IsVarint(r, 2) || IsVarint(r, 6)
    || IsBytes(r, 3) || IsBytes(r, 4) || IsBytes(r, 5)
  }

  lemma OnlyVarint(rs: seq<Record>, field: nat, x: uint64, v: uint64)
    requires LastVarint(rs, field, 0, v)
    requires forall r :: IsVarint(r, field) ==> (r in rs <==> x != 0 && r == VarintRec(field, x))
    ensures v == x
  {
    if x != 0 {
      assert IsVarint(VarintRec(field, x), field);
    }
  }

  lemma OnlyBytes(rs: seq<Record>, field: nat, b: Bytes, v: Bytes)
    requires LastBytes(rs, field, [], v)
    requires forall r :: IsBytes(r, field) ==> (r in rs <==> b != [] && r == LenRec(field, b))
    ensures v == b
  {
    if b != [] {
      assert IsBytes(LenRec(field, b), field);
    }
  }

  lemma FieldsMembership(m: OfflineMessage, r: Record)
    ensures r in m.Fields() <==>
            || (m.localMsgId != 0 && r == VarintRec(1, ToU64(m.localMsgId)))
            || (m.msgId != 0 && r == VarintRec(2, m.msgId))
            || (m.frPk != [] && r == LenRec(3, m.frPk))
            || (m.toPk != [] && r == LenRec(4, m.toPk))
            || (m.content != [] && r == LenRec(5, m.content))
            || (m.createTime != 0 && r == VarintRec(6, m.createTime))
  {
    var f1, f2 := VarintField(1, ToU64(m.localMsgId)), VarintField(2, m.msgId);
    var f3, f4, f5, f6 :=
      BytesField(3, m.frPk), BytesField(4, m.toPk), BytesField(5, m.content), VarintField(6, m.createTime);
    assert r in m.Fields() <==> r in f1 || r in f2 || r in f3 || r in f4 || r in f5 || r in f6;
  }

  /** Field order, repetition and unknown fields do not matter: any bytes whose known
      records are those of `m`, in any order, decode to `m`. */
  lemma FieldOrderIndependent(s: Bytes, rs: seq<Record>, m: OfflineMessage)
    requires Records(s) == Some(rs)
    requires forall r :: Known(r) ==> (r in rs <==> r in m.Fields())
    ensures ParseMessage(s) == Some(m)
  {
    hide LastVarint, LastBytes, Fold, OfflineMessage.Fields;
    LastOneWins(rs, NO_MESSAGE);
    var d := Fold(ApplyMessage, NO_MESSAGE, rs).value;
    forall r: Record | Known(r)
      ensures r in rs <==>
              || (m.localMsgId != 0 && r == VarintRec(1, ToU64(m.localMsgId)))
              || (m.msgId != 0 && r == VarintRec(2, m.msgId))
              || (m.frPk != [] && r == LenRec(3, m.frPk))
              || (m.toPk != [] && r == LenRec(4, m.toPk))
              || (m.content != [] && r == LenRec(5, m.content))
              || (m.createTime != 0 && r == VarintRec(6, m.createTime))
    {
      FieldsMembership(m, r);
    }
    OnlyVarint(rs, 1, ToU64(m.localMsgId), ToU64(d.localMsgId));
    OnlyVarint(rs, 2, m.msgId, d.msgId);
    OnlyBytes(rs, 3, m.frPk, d.frPk);
    OnlyBytes(rs, 4, m.toPk, d.toPk);
    OnlyBytes(rs, 5, m.content, d.content);
    OnlyVarint(rs, 6, m.createTime, d.createTime);
  }

  // -------------------------------------------------- OfflineMessagePullRes

  datatype PullRes = PullRes(msgs: seq<OfflineMessage>, leftCount: uint32)
  {
    function Fields(): seq<Record> {
      MessageFields(msgs) + VarintField(2, leftCount)
    }

    function ByteSize(): nat {
      |msgs| + MessagesSize(msgs) + VarintFieldSize(leftCount)
    }

    function Merge(from: PullRes): PullRes {
      PullRes(msgs + from.msgs, if from.leftCount != 0 then from.leftCount else leftCount)
    }
  }

  const NO_PULL_RES := PullRes([], 0)

  function MessageFields(msgs: seq<OfflineMessage>): seq<Record> {
    if msgs == [] then [] else [LenRec(1, EncodeMessage(msgs[0]))] + MessageFields(msgs[1..])
  }

  /** A nested message costs its length prefix and its own bytes. */
  function MessageSize(m: OfflineMessage): nat {
    VarintSize(m.ByteSize()) + m.ByteSize()
  }

  function MessagesSize(msgs: seq<OfflineMessage>): nat {
    if msgs == [] then 0 else MessageSize(msgs[0]) + MessagesSize(msgs[1..])
  }

  function ApplyPullRes(p: PullRes, r: Record): Option<PullRes> {
    if IsBytes(r, 1) then
      match ParseMessage(r.payload)
      case None => None
      case Some(m) => Some(p.(msgs := p.msgs + [m]))
    else if IsVarint(r, 2) then Some(p.(leftCount := r.value % TWO_32))
    else Some(p)
  }

  function EncodePullRes(p: PullRes): Bytes {
    EncodeRecords(p.Fields())
  }

  function ParsePullRes(s: Bytes): Option<PullRes> {
    ParseInto(ApplyPullRes, NO_PULL_RES, s)
  }

  lemma {:induction false} MessageFieldsSize(msgs: seq<OfflineMessage>)
    ensures |EncodeRecords(MessageFields(msgs))| == |msgs| + MessagesSize(msgs)
  {
    if msgs != [] {
      MessageFieldsSize(msgs[1..]);
      MessageSizeExact(msgs[0]);
      var fs := MessageFields(msgs);
      assert fs[1..] == MessageFields(msgs[1..]);
      assert |EncodeRecord(fs[0])| == 1 + MessageSize(msgs[0]);
    }
  }

  lemma MessageFieldsHead(msgs: seq<OfflineMessage>)
    requires msgs != []
    ensures EncodeRecords(MessageFields(msgs)) ==
            EncodeRecord(LenRec(1, EncodeMessage(msgs[0]))) + EncodeRecords(MessageFields(msgs[1..]))
  {
    assert MessageFields(msgs)[1..] == MessageFields(msgs[1..]);
  }

  lemma PullResSizeExact(p: PullRes)
    ensures |EncodePullRes(p)| == p.ByteSize()
  {
    EncodeRecordsConcat(MessageFields(p.msgs), VarintField(2, p.leftCount));
    MessageFieldsSize(p.msgs);
    FieldSizes(2, p.leftCount, []);
  }

  lemma {:induction false} MessageFieldsMergeAll(p: PullRes, msgs: seq<OfflineMessage>)
    requires forall i :: 0 <= i < |msgs| ==> msgs[i].ByteSize() <= INT_MAX
    ensures Fold(ApplyPullRes, p, MessageFields(msgs)) == Some(p.(msgs := p.msgs + msgs))
    decreases |msgs|
  {
    hide EncodeMessage, ParseMessage, Fold, OfflineMessage.ByteSize;
    if msgs == [] {
      FoldNothing(ApplyPullRes, p);
      assert p.msgs + msgs == p.msgs;
    } else {
      MessageRoundTrip(msgs[0]);
      var p' := p.(msgs := p.msgs + [msgs[0]]);
      FoldStep(ApplyPullRes, p, LenRec(1, EncodeMessage(msgs[0])), MessageFields(msgs[1..]));
      MessageFieldsMergeAll(p', msgs[1..]);
      assert p'.msgs + msgs[1..] == p.msgs + msgs;
    }
  }

  lemma {:induction false} MessagesWritable(msgs: seq<OfflineMessage>)
    requires MessagesSize(msgs) <= INT_MAX
    ensures AllWritable(MessageFields(msgs))
    ensures forall i :: 0 <= i < |msgs| ==> msgs[i].ByteSize() <= INT_MAX
  {
    if msgs != [] {
      MessagesWritable(msgs[1..]);
      MessageSizeExact(msgs[0]);
      assert msgs[0].ByteSize() <= INT_MAX;
      assert forall i :: 0 < i < |msgs| ==> msgs[i] == msgs[1..][i - 1];
    }
  }

  lemma PullResFieldsMerge(a: PullRes, b: PullRes)
    requires b.ByteSize() <= INT_MAX
    ensures AllWritable(b.Fields())
    ensures Fold(ApplyPullRes, a, b.Fields()) == Some(a.Merge(b))
  {
    hide MessageFields, MessagesSize, Fold;
    MessagesWritable(b.msgs);
    MessageFieldsMergeAll(a, b.msgs);
    FoldVarintField(ApplyPullRes, a, MessageFields(b.msgs), 2, b.leftCount);
  }

  /** Concatenated responses: lists append, the last non-zero count wins. */
  lemma PullResConcatIsMerge(s: Bytes, a: PullRes, b: PullRes)
    requires ParsePullRes(s) == Some(a)
    requires b.ByteSize() <= INT_MAX
    ensures ParsePullRes(s + EncodePullRes(b)) == Some(a.Merge(b))
  {
    PullResFieldsMerge(a, b);
    ParseThenFields(ApplyPullRes, NO_PULL_RES, s, a, b.Fields());
  }

  lemma PullResRoundTrip(p: PullRes)
    requires p.ByteSize() <= INT_MAX
    ensures ParsePullRes(EncodePullRes(p)) == Some(p)
  {
    PullResFieldsMerge(NO_PULL_RES, p);
    ParseFields(ApplyPullRes, NO_PULL_RES, p.Fields());
    assert [] + p.msgs == p.msgs;
  }
}
