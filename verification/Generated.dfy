/** The generated message classes: fields updated in place by the parse loops, printers
    that advance through a buffer and size functions that accumulate, each proved
    against the values of modules Proto and ProtoRequests. */
module Generated {
  import opened Wire
  import opened CodedStream
  import P = Proto
  import R = ProtoRequests

  /** One turn of a parse loop. */
  lemma Turn<M>(apply: (M, Record) -> Option<M>, m: M, s: Bytes, tag: uint32)
    requires tag == 0 ==> s == [] || ReadRecord(s).Fail?
    requires tag != 0 ==> s != [] && ReadVarint32(s).Got? && ReadVarint32(s).value == tag
    ensures s == [] ==> ParseInto(apply, m, s) == Some(m)
    ensures s != [] && tag == 0 ==> ParseInto(apply, m, s) == None
    ensures tag != 0 ==>
              var body := s[ReadVarint32(s).size..];
              ParseInto(apply, m, s) ==
              match FieldBody(tag, body)
              case Fail => None
              case Got(rec, k) =>
                match apply(m, rec)
                case None => None
                case Some(m') => ParseInto(apply, m', body[k..])
  {
    hide Fold, ReadBody, ReadVarint32;
    if s == [] {
      assert ParseInto(apply, m, s) == Some(m) by { ParseNothing(apply, m); }
    } else {
      hide ParseInto;
      ParseStep(apply, m, s);
      if tag != 0 && FieldBody(tag, s[ReadVarint32(s).size..]).Got? {
        var n := ReadVarint32(s).size;
        var k := FieldBody(tag, s[n..]).size;
        assert s[n..][k..] == s[n + k..];
      }
    }
  }

  lemma ParseNothing<M>(apply: (M, Record) -> Option<M>, m: M)
    ensures ParseInto(apply, m, []) == Some(m)
  {
  }

  class OfflineMessage {
    var localMsgId: int64
    var msgId: uint64
    var frPk: Bytes
    var toPk: Bytes
    var content: Bytes
    var createTime: uint64

    constructor ()
      ensures Value() == P.NO_MESSAGE
    {
      localMsgId, msgId, createTime := 0, 0, 0;
      frPk, toPk, content := [], [], [];
    }

    constructor Of(m: P.OfflineMessage)
      ensures Value() == m
    {
      localMsgId, msgId, createTime := m.localMsgId, m.msgId, m.createTime;
      frPk, toPk, content := m.frPk, m.toPk, m.content;
    }

    function Value(): P.OfflineMessage
      reads this
    {
      P.OfflineMessage(localMsgId, msgId, frPk, toPk, content, createTime)
    }

    method Clear()
      modifies this
      ensures Value() == P.NO_MESSAGE
    {
      frPk, toPk, content := [], [], [];
      localMsgId, msgId, createTime := 0, 0, 0;
    }

    method MergeFrom(from: OfflineMessage)
      requires from != this
      modifies this
      ensures Value() == old(Value()).Merge(from.Value())
    {
      if |from.frPk| > 0 { frPk := from.frPk; }
      if |from.toPk| > 0 { toPk := from.toPk; }
      if |from.content| > 0 { content := from.content; }
      if from.localMsgId != 0 { localMsgId := from.localMsgId; }
      if from.msgId != 0 { msgId := from.msgId; }
      if from.createTime != 0 { createTime := from.createTime; }
    }

    method CopyFrom(from: OfflineMessage)
      modifies this
      ensures Value() == old(from.Value())
    {
      if from == this { return; }
      Clear();
      MergeFrom(from);
    }

    method ByteSizeLong() returns (totalSize: nat)
      ensures totalSize == |P.EncodeMessage(Value())|
    {
      hide VarintSize, P.EncodeMessage;
      totalSize := 0;
      if |frPk| > 0 { totalSize := totalSize + 1 + P.BytesSize(frPk); }
      if |toPk| > 0 { totalSize := totalSize + 1 + P.BytesSize(toPk); }
      if |content| > 0 { totalSize := totalSize + 1 + P.BytesSize(content); }
      if localMsgId != 0 { totalSize := totalSize + 1 + VarintSize(ToU64(localMsgId)); }
      if msgId != 0 { totalSize := totalSize + 1 + VarintSize(msgId); }
      if createTime != 0 { totalSize := totalSize + 1 + VarintSize(createTime); }
      P.MessageSizeExact(Value());
    }

    /** Writes exactly the bytes the size function announced. */
    method InternalSerializeToArray(target: array<byte>, at: nat) returns (end: nat)
      requires at + Value().ByteSize() <= target.Length
      modifies target
      ensures end == at + Value().ByteSize()
      ensures target[..end] == old(target[..at]) + P.EncodeMessage(Value())
      ensures forall j :: end <= j < target.Length ==> target[j] == old(target[j])
    {
      hide P.VarintFieldSize, P.BytesFieldSize, EncodeRecords;
      end := WriteVarintField(1, ToU64(localMsgId), target, at);
      end := WriteVarintField(2, msgId, target, end);
      end := WriteBytesField(3, frPk, target, end);
      end := WriteBytesField(4, toPk, target, end);
      end := WriteBytesField(5, content, target, end);
      end := WriteVarintField(6, createTime, target, end);
      P.EncodeMessageParts(Value(), old(target[..at]));
    }

    /** The body of the parse loop: what follows a non-zero tag. */
    method ReadField(tag: uint32, input: CodedInputStream) returns (ok: bool)
      requires input.Valid()
      modifies this, input`pos
      ensures input.Valid()
      ensures ok <==> FieldBody(tag, old(input.Rest())).Got?
      ensures ok ==> var r := FieldBody(tag, old(input.Rest()));
                     && input.Rest() == old(input.Rest())[r.size..]
                     && Some(Value()) == P.ApplyMessage(old(Value()), r.value)
    {
      hide Wire.ReadVarint64, ReadDelimited, FieldBody, ReadBody;
      ghost var s := input.Rest();
      if tag == 8 {
        var x: uint64;
        ok, x := input.ReadVarint64();
        if ok { localMsgId := ToI64(x); }
        VarintBody(1, s);
      } else if tag == 16 {
        ok, msgId := input.ReadVarint64();
        VarintBody(2, s);
      } else if tag == 26 {
        ok, frPk := input.ReadBytes();
        BytesBody(3, s);
      } else if tag == 34 {
        ok, toPk := input.ReadBytes();
        BytesBody(4, s);
      } else if tag == 42 {
        ok, content := input.ReadBytes();
        BytesBody(5, s);
      } else if tag == 48 {
        ok, createTime := input.ReadVarint64();
        VarintBody(6, s);
      } else {
        ok := input.SkipField(tag);
      }
    }

    /** True for a malformed tag as well; `input.legitimateEnd` tells. */
    method MergePartialFromCodedStream(input: CodedInputStream) returns (ok: bool)
      requires input.Valid()
      modifies this, input`pos, input`legitimateEnd
      ensures input.Valid()
      ensures ok && input.legitimateEnd <==>
              ParseInto(P.ApplyMessage, old(Value()), old(input.Rest())).Some?
      ensures ok && input.legitimateEnd ==>
              ParseInto(P.ApplyMessage, old(Value()), old(input.Rest())) == Some(Value())
      ensures ok && input.legitimateEnd ==> input.Rest() == []
    {
      hide ParseInto, FieldBody, P.ApplyMessage;
      while true
        invariant input.Valid()
        invariant ParseInto(P.ApplyMessage, old(Value()), old(input.Rest())) ==
                  ParseInto(P.ApplyMessage, Value(), input.Rest())
        decreases |input.Rest()|
      {
        ghost var s, m := input.Rest(), Value();
        var tag := input.ReadTag();
        Turn(P.ApplyMessage, m, s, tag);
        if tag == 0 { return true; }
        ok := ReadField(tag, input);
        if !ok { return; }
      }
    }

    method ParseFromArray(bytes: Bytes) returns (ok: bool)
      modifies this
      ensures ok <==> P.ParseMessage(bytes).Some?
      ensures ok ==> P.ParseMessage(bytes) == Some(Value())
    {
      Clear();
      var input := new CodedInputStream(bytes);
      ok := MergePartialFromCodedStream(input);
      ok := ok && input.legitimateEnd;
    }
  }

  class OfflineMessageReq {
    var localMsgId: int64
    var toPk: Bytes
    var cryptoMessage: Bytes

    constructor ()
      ensures Value() == R.NO_REQ
    {
      localMsgId, toPk, cryptoMessage := 0, [], [];
    }

    function Value(): R.Req
      reads this
    {
      R.Req(localMsgId, toPk, cryptoMessage)
    }

    method MergeFrom(from: OfflineMessageReq)
      requires from != this
      modifies this
      ensures Value() == old(Value()).Merge(from.Value())
    {
      if |from.toPk| > 0 { toPk := from.toPk; }
      if |from.cryptoMessage| > 0 { cryptoMessage := from.cryptoMessage; }
      if from.localMsgId != 0 { localMsgId := from.localMsgId; }
    }

    method ByteSizeLong() returns (totalSize: nat)
      ensures totalSize == |R.EncodeReq(Value())|
    {
      hide VarintSize, R.EncodeReq;
      totalSize := 0;
      if |toPk| > 0 { totalSize := totalSize + 1 + P.BytesSize(toPk); }
      if |cryptoMessage| > 0 { totalSize := totalSize + 1 + P.BytesSize(cryptoMessage); }
      if localMsgId != 0 { totalSize := totalSize + 1 + VarintSize(ToU64(localMsgId)); }
      R.ReqSizeExact(Value());
    }

    method SerializeToArray(target: array<byte>)
      requires target.Length == |R.EncodeReq(Value())|
      modifies target
      ensures target[..] == R.EncodeReq(Value())
    {
      hide P.VarintFieldSize, P.BytesFieldSize, EncodeRecords, R.EncodeReq;
      R.ReqSizeExact(Value());
      var end := WriteVarintField(1, ToU64(localMsgId), target, 0);
      end := WriteBytesField(2, toPk, target, end);
      end := WriteBytesField(3, cryptoMessage, target, end);
      R.EncodeReqParts(Value());
    }

    method ReadField(tag: uint32, input: CodedInputStream) returns (ok: bool)
      requires input.Valid()
      modifies this, input`pos
      ensures input.Valid()
      ensures ok <==> FieldBody(tag, old(input.Rest())).Got?
      ensures ok ==> var r := FieldBody(tag, old(input.Rest()));
                     && input.Rest() == old(input.Rest())[r.size..]
                     && Some(Value()) == R.ApplyReq(old(Value()), r.value)
    {
      hide Wire.ReadVarint64, ReadDelimited, FieldBody, ReadBody;
      ghost var s := input.Rest();
      if tag == 8 {
        var x: uint64;
        ok, x := input.ReadVarint64();
        if ok { localMsgId := ToI64(x); }
        VarintBody(1, s);
      } else if tag == 18 {
        ok, toPk := input.ReadBytes();
        BytesBody(2, s);
      } else if tag == 26 {
        ok, cryptoMessage := input.ReadBytes();
        BytesBody(3, s);
      } else {
        ok := input.SkipField(tag);
      }
    }

    method MergePartialFromCodedStream(input: CodedInputStream) returns (ok: bool)
      requires input.Valid()
      modifies this, input`pos, input`legitimateEnd
      ensures input.Valid()
      ensures ok && input.legitimateEnd <==>
              ParseInto(R.ApplyReq, old(Value()), old(input.Rest())).Some?
      ensures ok && input.legitimateEnd ==>
              ParseInto(R.ApplyReq, old(Value()), old(input.Rest())) == Some(Value())
    {
      hide ParseInto, FieldBody, R.ApplyReq;
      while true
        invariant input.Valid()
        invariant ParseInto(R.ApplyReq, old(Value()), old(input.Rest())) ==
                  ParseInto(R.ApplyReq, Value(), input.Rest())
        decreases |input.Rest()|
      {
        ghost var s, m := input.Rest(), Value();
        var tag := input.ReadTag();
        Turn(R.ApplyReq, m, s, tag);
        if tag == 0 { return true; }
        ok := ReadField(tag, input);
        if !ok { return; }
      }
    }

    method ParseFromArray(bytes: Bytes) returns (ok: bool)
      modifies this
      ensures ok <==> R.ParseReq(bytes).Some?
      ensures ok ==> R.ParseReq(bytes) == Some(Value())
    {
      localMsgId, toPk, cryptoMessage := 0, [], [];
      var input := new CodedInputStream(bytes);
      ok := MergePartialFromCodedStream(input);
      ok := ok && input.legitimateEnd;
    }
  }

  class OfflineMessageDelReq {
    var lastMsgId: uint64

    constructor ()
      ensures Value() == R.DelReq(0)
    {
      lastMsgId := 0;
    }

    function Value(): R.DelReq
      reads this
    {
      R.DelReq(lastMsgId)
    }

    method MergePartialFromCodedStream(input: CodedInputStream) returns (ok: bool)
      requires input.Valid()
      modifies this, input`pos, input`legitimateEnd
      ensures input.Valid()
      ensures ok && input.legitimateEnd <==>
              ParseInto(R.ApplyDelReq, old(Value()), old(input.Rest())).Some?
      ensures ok && input.legitimateEnd ==>
              ParseInto(R.ApplyDelReq, old(Value()), old(input.Rest())) == Some(Value())
    {
      hide ParseInto, FieldBody, Wire.ReadVarint64;
      while true
        invariant input.Valid()
        invariant ParseInto(R.ApplyDelReq, old(Value()), old(input.Rest())) ==
                  ParseInto(R.ApplyDelReq, Value(), input.Rest())
        decreases |input.Rest()|
      {
        ghost var s, m := input.Rest(), Value();
        var tag := input.ReadTag();
        Turn(R.ApplyDelReq, m, s, tag);
        if tag == 0 { return true; }
        if tag == 16 {
          VarintBody(2, input.Rest());
          ok, lastMsgId := input.ReadVarint64();
        } else {
          ok := input.SkipField(tag);
        }
        if !ok { return; }
      }
    }

    method ParseFromArray(bytes: Bytes) returns (ok: bool)
      modifies this
      ensures ok <==> R.ParseDelReq(bytes).Some?
      ensures ok ==> R.ParseDelReq(bytes) == Some(Value())
    {
      lastMsgId := 0;
      var input := new CodedInputStream(bytes);
      ok := MergePartialFromCodedStream(input);
      ok := ok && input.legitimateEnd;
    }
  }

  class OfflineMessageReadNotice {
    var latestMsgId: uint64

    constructor (latestMsgId: uint64)
      ensures Value() == R.ReadNotice(latestMsgId)
    {
      this.latestMsgId := latestMsgId;
    }

    function Value(): R.ReadNotice
      reads this
    {
      R.ReadNotice(latestMsgId)
    }

    method ByteSizeLong() returns (totalSize: nat)
      ensures totalSize == |R.EncodeReadNotice(Value())|
    {
      totalSize := 0;
      if latestMsgId != 0 { totalSize := totalSize + 1 + VarintSize(latestMsgId); }
      R.ReadNoticeRoundTrip(Value());
    }

    method SerializeToArray(target: array<byte>)
      requires target.Length == |R.EncodeReadNotice(Value())|
      modifies target
      ensures target[..] == R.EncodeReadNotice(Value())
    {
      hide VarintSize, EncodeRecords, P.VarintField;
      R.ReadNoticeRoundTrip(Value());
      var end := WriteVarintField(1, latestMsgId, target, 0);
    }
  }

  lemma TruncatedTwice(v: nat)
    ensures (v % TWO_64) % TWO_32 == v % TWO_32
  {
    var q, r := v / TWO_64, v % TWO_64;
    assert v == r + TWO_32 * (TWO_32 * q);
  }

  /** A uint32 field keeps the low 32 bits of its varint. */
  lemma Uint32Body(field: nat, s: Bytes)
    requires 0 < field < 16
    ensures match ReadVarint32(s)
            case Fail => FieldBody(8 * field, s).Fail?
            case Got(v, n) =>
              exists w: uint64 :: FieldBody(8 * field, s) == Got(VarintRec(field, w), n) && w % TWO_32 == v
  {
    VarintBody(field, s);
    match ReadGroups(s, MAX_VARINT_BYTES)
    case Fail =>
    case Got(v, n) =>
      TruncatedTwice(v);
      assert FieldBody(8 * field, s) == Got(VarintRec(field, v % TWO_64), n);
  }

  lemma EncodeNested(payload: Bytes)
    ensures VarintSize(10) == 1
    ensures EncodeRecord(LenRec(1, payload)) == Varint(10) + (Varint(|payload|) + payload)
  {
  }

  lemma Assoc(a: Bytes, b: Bytes, c: Bytes)
    ensures a + (b + c) == (a + b) + c
  {
  }

  /** The repeated field owns its messages, so they are held by value. */
  class OfflineMessagePullRes {
    var msgs: seq<P.OfflineMessage>
    var leftCount: uint32

    constructor ()
      ensures Value() == P.NO_PULL_RES
    {
      msgs, leftCount := [], 0;
    }

    function Value(): P.PullRes
      reads this
    {
      P.PullRes(msgs, leftCount)
    }

    method AddMsg(m: P.OfflineMessage)
      modifies this`msgs
      ensures msgs == old(msgs) + [m]
    {
      msgs := msgs + [m];
    }

    method MergeFrom(from: OfflineMessagePullRes)
      requires from != this
      modifies this
      ensures Value() == old(Value()).Merge(from.Value())
    {
      msgs := msgs + from.msgs;
      if from.leftCount != 0 { leftCount := from.leftCount; }
    }

    method ByteSizeLong() returns (totalSize: nat)
      ensures totalSize == |P.EncodePullRes(Value())|
    {
      hide VarintSize, P.EncodePullRes, P.OfflineMessage.ByteSize;
      totalSize := |msgs|;
      for i := 0 to |msgs|
        invariant totalSize + P.MessagesSize(msgs[i..]) == |msgs| + P.MessagesSize(msgs)
      {
        var msg := new OfflineMessage.Of(msgs[i]);
        var size := msg.ByteSizeLong();
        P.MessageSizeExact(msgs[i]);
        totalSize := totalSize + VarintSize(size) + size;
        assert msgs[i..][1..] == msgs[i + 1..];
      }
      if leftCount != 0 { totalSize := totalSize + 1 + VarintSize(leftCount); }
      P.PullResSizeExact(Value());
    }

    /** Tag, length and bytes of one nested message. */
    static method WriteMessage(m: P.OfflineMessage, target: array<byte>, at: nat) returns (end: nat)
      requires at + 1 + P.MessageSize(m) <= target.Length
      modifies target
      ensures end == at + 1 + P.MessageSize(m)
      ensures target[..end] == old(target[..at]) + EncodeRecord(LenRec(1, P.EncodeMessage(m)))
    {
      hide VarintSize, P.EncodeMessage, Varint, P.OfflineMessage.ByteSize, EncodeRecord;
      ghost var payload := P.EncodeMessage(m);
      P.MessageSizeExact(m);
      EncodeNested(payload);
      ghost var before := target[..at];
      var msg := new OfflineMessage.Of(m);
      end := WriteVarint(10, target, at);
      var size := msg.ByteSizeLong();
      end := WriteVarint(size, target, end);
      end := msg.InternalSerializeToArray(target, end);
      assert before + Varint(10) + Varint(size) + payload == before + (Varint(10) + (Varint(size) + payload));
    }

    method WriteMessages(target: array<byte>) returns (end: nat)
      requires |msgs| + P.MessagesSize(msgs) <= target.Length
      modifies target
      ensures end == |msgs| + P.MessagesSize(msgs)
      ensures target[..end] == EncodeRecords(P.MessageFields(msgs))
    {
      hide P.EncodeMessage, EncodeRecord, EncodeRecords, P.MessageFields, P.OfflineMessage.ByteSize, P.MessageSize;
      end := 0;
      assert msgs[0..] == msgs;
      for i := 0 to |msgs|
        invariant end + (|msgs| - i) + P.MessagesSize(msgs[i..]) == |msgs| + P.MessagesSize(msgs)
        invariant target[..end] + EncodeRecords(P.MessageFields(msgs[i..])) == EncodeRecords(P.MessageFields(msgs))
      {
        ghost var before, rest := target[..end], msgs[i + 1..];
        P.MessageFieldsHead(msgs[i..]);
        assert msgs[i..][1..] == rest;
        end := WriteMessage(msgs[i], target, end);
        Assoc(before, EncodeRecord(LenRec(1, P.EncodeMessage(msgs[i]))), EncodeRecords(P.MessageFields(rest)));
      }
      P.MessageFieldsSize(msgs[|msgs|..]);
    }

    /** Fills a buffer of the announced size exactly. */
    method SerializeToArray(target: array<byte>)
      requires target.Length == |P.EncodePullRes(Value())|
      modifies target
      ensures target[..] == P.EncodePullRes(Value())
    {
      hide EncodeRecords, P.VarintField, P.MessageFields, P.VarintFieldSize;
      P.PullResSizeExact(Value());
      var end := WriteMessages(target);
      end := WriteVarintField(2, leftCount, target, end);
      EncodeRecordsConcat(P.MessageFields(msgs), P.VarintField(2, leftCount));
    }

    /** A length-delimited message: parsed within its own limit, which it must use up. */
    static method ReadMessage(input: CodedInputStream, msg: OfflineMessage) returns (ok: bool)
      requires input.Valid()
      modifies input, msg
      ensures input.Valid() && input.limit == old(input.limit)
      ensures ok <==> var r := ReadDelimited(old(input.Rest()));
                      r.Got? && ParseInto(P.ApplyMessage, old(msg.Value()), r.value).Some?
      ensures ok ==> var r := ReadDelimited(old(input.Rest()));
                     && input.Rest() == old(input.Rest())[r.size..]
                     && ParseInto(P.ApplyMessage, old(msg.Value()), r.value) == Some(msg.Value())
    {
      hide ParseInto, ReadVarint32;
      ghost var s := input.Rest();
      var len;
      ok, len := input.ReadVarint32();
      if !ok { return; }
      ghost var n := Wire.ReadVarint32(s).size;
      if len > INT_MAX || len > input.limit - input.pos { return false; }
      var oldLimit := input.limit;
      ghost var after := input.Rest();
      input.limit := input.pos + len;
      assert input.Rest() == after[..len] == s[n..n + len];
      ok := msg.MergePartialFromCodedStream(input);
      ok := ok && input.legitimateEnd;
      input.limit := oldLimit;
      assert ok ==> input.Rest() == after[len..] == s[n + len..];
    }

    method ReadField(tag: uint32, input: CodedInputStream) returns (ok: bool)
      requires input.Valid()
      modifies this, input
      ensures input.Valid() && input.limit == old(input.limit)
      ensures ok <==> var r := FieldBody(tag, old(input.Rest()));
                      r.Got? && P.ApplyPullRes(old(Value()), r.value).Some?
      ensures ok ==> var r := FieldBody(tag, old(input.Rest()));
                     && input.Rest() == old(input.Rest())[r.size..]
                     && Some(Value()) == P.ApplyPullRes(old(Value()), r.value)
    {
      hide Wire.ReadVarint32, ReadDelimited, FieldBody, ReadBody, ParseInto;
      ghost var s := input.Rest();
      if tag == 10 {
        BytesBody(1, s);
        var msg := new OfflineMessage();
        ok := ReadMessage(input, msg);
        if ok { msgs := msgs + [msg.Value()]; }
      } else if tag == 16 {
        Uint32Body(2, s);
        ok, leftCount := input.ReadVarint32();
      } else {
        ok := input.SkipField(tag);
      }
    }

    method MergePartialFromCodedStream(input: CodedInputStream) returns (ok: bool)
      requires input.Valid()
      modifies this, input
      ensures input.Valid()
      ensures ok && input.legitimateEnd <==>
              ParseInto(P.ApplyPullRes, old(Value()), old(input.Rest())).Some?
      ensures ok && input.legitimateEnd ==>
              ParseInto(P.ApplyPullRes, old(Value()), old(input.Rest())) == Some(Value())
    {
      hide ParseInto, FieldBody, P.ApplyPullRes;
      while true
        invariant input.Valid()
        invariant ParseInto(P.ApplyPullRes, old(Value()), old(input.Rest())) ==
                  ParseInto(P.ApplyPullRes, Value(), input.Rest())
        decreases |input.Rest()|
      {
        ghost var s, m := input.Rest(), Value();
        var tag := input.ReadTag();
        Turn(P.ApplyPullRes, m, s, tag);
        if tag == 0 { return true; }
        ok := ReadField(tag, input);
        if !ok { return; }
      }
    }

    method ParseFromArray(bytes: Bytes) returns (ok: bool)
      modifies this
      ensures ok <==> P.ParsePullRes(bytes).Some?
      ensures ok ==> P.ParsePullRes(bytes) == Some(Value())
    {
      msgs, leftCount := [], 0;
      var input := new CodedInputStream(bytes);
      ok := MergePartialFromCodedStream(input);
      ok := ok && input.legitimateEnd;
    }
  }
}
