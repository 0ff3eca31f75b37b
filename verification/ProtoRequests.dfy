/** The small messages: requests, replies, delete requests and read notices. */
module ProtoRequests {
  import opened Wire
  import opened Proto

  // ------------------------------------------------------ OfflineMessageReq

  datatype Req = Req(localMsgId: int64, toPk: Bytes, cryptoMessage: Bytes)
  {
    function Fields(): seq<Record> {
      VarintField(1, ToU64(localMsgId)) + BytesField(2, toPk) + BytesField(3, cryptoMessage)
    }

    function ByteSize(): nat {
      BytesFieldSize(toPk) + BytesFieldSize(cryptoMessage) + VarintFieldSize(ToU64(localMsgId))
    }

    function Merge(from: Req): Req {
      Req(if from.localMsgId != 0 then from.localMsgId else localMsgId,
          if from.toPk != [] then from.toPk else toPk,
          if from.cryptoMessage != [] then from.cryptoMessage else cryptoMessage)
    }
  }

  const NO_REQ := Req(0, [], [])

  function ApplyReq(m: Req, r: Record): Option<Req> {
    if IsVarint(r, 1) then Some(m.(localMsgId := ToI64(r.value)))
    else if IsBytes(r, 2) then Some(m.(toPk := r.payload))
    else if IsBytes(r, 3) then Some(m.(cryptoMessage := r.payload))
    else Some(m)
  }

  function EncodeReq(m: Req): Bytes {
    EncodeRecords(m.Fields())
  }

  function ParseReq(s: Bytes): Option<Req> {
    ParseInto(ApplyReq, NO_REQ, s)
  }

  lemma EncodeReqParts(m: Req)
    ensures EncodeReq(m) == EncodeRecords(VarintField(1, ToU64(m.localMsgId)))
                            + EncodeRecords(BytesField(2, m.toPk)) + EncodeRecords(BytesField(3, m.cryptoMessage))
  {
    hide EncodeRecords, VarintField, BytesField;
    var a, b, c := VarintField(1, ToU64(m.localMsgId)), BytesField(2, m.toPk), BytesField(3, m.cryptoMessage);
    EncodeRecordsConcat(a + b, c);
    EncodeRecordsConcat(a, b);
  }

  lemma ReqSizeExact(m: Req)
    ensures |EncodeReq(m)| == m.ByteSize()
  {
    hide EncodeRecords, VarintField, BytesField, VarintFieldSize, BytesFieldSize;
    EncodeReqParts(m);
    FieldSizes(1, ToU64(m.localMsgId), []);
    FieldSizes(2, 0, m.toPk);
    FieldSizes(3, 0, m.cryptoMessage);
  }

  lemma ReqFieldsMerge(a: Req, b: Req)
    requires b.ByteSize() <= INT_MAX
    ensures AllWritable(b.Fields())
    ensures Fold(ApplyReq, a, b.Fields()) == Some(a.Merge(b))
  {
    hide Fold, VarintField, BytesField, Record.Writable, VarintFieldSize, BytesFieldSize;
    var f1, f2 := VarintField(1, ToU64(b.localMsgId)), BytesField(2, b.toPk);
    FieldsWritable(1, ToU64(b.localMsgId), []);
    FieldsWritable(2, 0, b.toPk);
    FieldsWritable(3, 0, b.cryptoMessage);
    FoldNothing(ApplyReq, a);
    assert [] + f1 == f1;
    FoldVarintField(ApplyReq, a, [], 1, ToU64(b.localMsgId));
    FoldBytesField(ApplyReq, a, f1, 2, b.toPk);
    FoldBytesField(ApplyReq, a, f1 + f2, 3, b.cryptoMessage);
  }

  lemma ReqConcatIsMerge(s: Bytes, a: Req, b: Req)
    requires ParseReq(s) == Some(a)
    requires b.ByteSize() <= INT_MAX
    ensures ParseReq(s + EncodeReq(b)) == Some(a.Merge(b))
  {
    ReqFieldsMerge(a, b);
    ParseThenFields(ApplyReq, NO_REQ, s, a, b.Fields());
  }

  lemma ReqRoundTrip(m: Req)
    requires m.ByteSize() <= INT_MAX
    ensures ParseReq(EncodeReq(m)) == Some(m)
  {
    ReqFieldsMerge(NO_REQ, m);
    ParseFields(ApplyReq, NO_REQ, m.Fields());
  }

  // ------------------------------------------------------ OfflineMessageRes

  datatype Res = Res(localMsgId: int64)

  function ApplyRes(m: Res, r: Record): Option<Res> {
    Some(if IsVarint(r, 1) then Res(ToI64(r.value)) else m)
  }

  function EncodeRes(m: Res): Bytes {
    EncodeRecords(VarintField(1, ToU64(m.localMsgId)))
  }

  function ParseRes(s: Bytes): Option<Res> {
    ParseInto(ApplyRes, Res(0), s)
  }

  /** The server answers with an OfflineMessageReq that holds only the id; on the wire
      that is an OfflineMessageRes, and it decodes to the id for every int64. */
  lemma ReplyIsRes(id: int64)
    ensures EncodeReq(Req(id, [], [])) == EncodeRes(Res(id))
    ensures ParseRes(EncodeReq(Req(id, [], []))) == Some(Res(id))
    ensures |EncodeRes(Res(id))| == if id == 0 then 0 else if id < 0 then 11 else 1 + VarintSize(id)
  {
    var f := VarintField(1, ToU64(id));
    assert Req(id, [], []).Fields() == f;
    FieldsWritable(1, ToU64(id), []);
    ParseFields(ApplyRes, Res(0), f);
    FieldSizes(1, ToU64(id), []);
    VarintSize64(ToU64(id));
  }

  // --------------------------------------------------- OfflineMessageDelReq

  datatype DelReq = DelReq(lastMsgId: uint64)

  function ApplyDelReq(m: DelReq, r: Record): Option<DelReq> {
    Some(if IsVarint(r, 2) then DelReq(r.value) else m)
  }

  function EncodeDelReq(m: DelReq): Bytes {
    EncodeRecords(VarintField(2, m.lastMsgId))
  }

  function ParseDelReq(s: Bytes): Option<DelReq> {
    ParseInto(ApplyDelReq, DelReq(0), s)
  }

  lemma DelReqRoundTrip(m: DelReq)
    ensures ParseDelReq(EncodeDelReq(m)) == Some(m)
    ensures |EncodeDelReq(m)| == VarintFieldSize(m.lastMsgId)
  {
    FieldsWritable(2, m.lastMsgId, []);
    ParseFields(ApplyDelReq, DelReq(0), VarintField(2, m.lastMsgId));
    FieldSizes(2, m.lastMsgId, []);
  }

  // ----------------------------------------------- OfflineMessageReadNotice

  datatype ReadNotice = ReadNotice(latestMsgId: uint64)

  function ApplyReadNotice(m: ReadNotice, r: Record): Option<ReadNotice> {
    Some(if IsVarint(r, 1) then ReadNotice(r.value) else m)
  }

  function EncodeReadNotice(m: ReadNotice): Bytes {
    EncodeRecords(VarintField(1, m.latestMsgId))
  }

  function ParseReadNotice(s: Bytes): Option<ReadNotice> {
    ParseInto(ApplyReadNotice, ReadNotice(0), s)
  }

  lemma ReadNoticeRoundTrip(m: ReadNotice)
    ensures ParseReadNotice(EncodeReadNotice(m)) == Some(m)
    ensures |EncodeReadNotice(m)| == VarintFieldSize(m.latestMsgId)
  {
    FieldsWritable(1, m.latestMsgId, []);
    ParseFields(ApplyReadNotice, ReadNotice(0), VarintField(1, m.latestMsgId));
    FieldSizes(1, m.latestMsgId, []);
  }
}
