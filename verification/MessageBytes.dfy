/** Each message byte by byte: the literal tags its printer writes, and what its parser
    takes from which field number, for every sequence of records. */
module MessageBytes {
  import opened Wire
  import opened Proto
  import opened ProtoRequests

  // ---------------------------------------------------------------- printers

  /** A field with a one-byte tag; a default is not written. */
  function NumberBytes(tag: byte, x: uint64): Bytes {
    if x == 0 then [] else [tag] + Varint(x)
  }

  function StringBytes(tag: byte, b: Bytes): Bytes {
    if b == [] then [] else [tag] + Varint(|b|) + b
  }

  lemma NumberFieldBytes(field: nat, x: uint64)
    requires 0 < field < 16
    ensures EncodeRecords(VarintField(field, x)) == NumberBytes(8 * field, x)
  {
    var r := VarintRec(field, x);
    assert [r][1..] == [];
    assert EncodeRecords([r]) == EncodeRecord(r) + EncodeRecords([]);
    assert Varint(8 * field) == [8 * field];
    assert EncodeRecord(r) + [] == EncodeRecord(r);
  }

  lemma StringFieldBytes(field: nat, b: Bytes)
    requires 0 < field < 16
    ensures EncodeRecords(BytesField(field, b)) == StringBytes(8 * field + 2, b)
  {
    var r := LenRec(field, b);
    assert [r][1..] == [];
    assert EncodeRecords([r]) == EncodeRecord(r) + EncodeRecords([]);
    assert Varint(8 * field + 2) == [8 * field + 2];
    assert EncodeRecord(r) + [] == EncodeRecord(r);
    assert [8 * field + 2] + (Varint(|b|) + b) == [8 * field + 2] + Varint(|b|) + b;
  }

  lemma EncodeMessageBytes(m: OfflineMessage)
    ensures EncodeMessage(m) ==
            NumberBytes(8, ToU64(m.localMsgId)) + NumberBytes(16, m.msgId) + StringBytes(26, m.frPk)
            + StringBytes(34, m.toPk) + StringBytes(42, m.content) + NumberBytes(48, m.createTime)
  {
    NumberFieldBytes(1, ToU64(m.localMsgId));
    NumberFieldBytes(2, m.msgId);
    StringFieldBytes(3, m.frPk);
    StringFieldBytes(4, m.toPk);
    StringFieldBytes(5, m.content);
    NumberFieldBytes(6, m.createTime);
    hide EncodeRecords, VarintField, BytesField, NumberBytes, StringBytes, EncodeMessage;
    EncodeMessageParts(m, []);
    assert [] + EncodeMessage(m) == EncodeMessage(m);
    assert [] + NumberBytes(8, ToU64(m.localMsgId)) == NumberBytes(8, ToU64(m.localMsgId));
  }

  /** Nested messages first, each with its length, and then the count. */
  lemma EncodePullResBytes(p: PullRes)
    ensures EncodePullRes(p) ==
            if p.msgs == [] then NumberBytes(16, p.leftCount)
            else
              [10] + Varint(|EncodeMessage(p.msgs[0])|) + EncodeMessage(p.msgs[0])
              + EncodePullRes(p.(msgs := p.msgs[1..]))
  {
    NumberFieldBytes(2, p.leftCount);
    PullResParts(p);
    if p.msgs == [] {
      assert EncodeRecords([]) == [];
    } else {
      hide EncodeMessage, EncodeRecords, EncodeRecord, MessageFields, VarintField, EncodePullRes, NumberBytes;
      var m, rest := EncodeMessage(p.msgs[0]), p.(msgs := p.msgs[1..]);
      MessageFieldsHead(p.msgs);
      PullResParts(rest);
      NestedBytes(m);
      Regroup([10] + Varint(|m|) + m, EncodeRecords(MessageFields(rest.msgs)), NumberBytes(16, p.leftCount));
    }
  }

  lemma PullResParts(p: PullRes)
    ensures EncodePullRes(p) == EncodeRecords(MessageFields(p.msgs)) + EncodeRecords(VarintField(2, p.leftCount))
  {
    hide EncodeRecords;
    EncodeRecordsConcat(MessageFields(p.msgs), VarintField(2, p.leftCount));
  }

  lemma Regroup(a: Bytes, b: Bytes, c: Bytes)
    ensures (a + b) + c == a + (b + c)
  {
  }

  lemma NestedBytes(m: Bytes)
    ensures EncodeRecord(LenRec(1, m)) == [10] + Varint(|m|) + m
  {
    assert Varint(10) == [10];
    assert [10] + (Varint(|m|) + m) == [10] + Varint(|m|) + m;
  }

  lemma EncodeReqBytes(m: Req)
    ensures EncodeReq(m) ==
            NumberBytes(8, ToU64(m.localMsgId)) + StringBytes(18, m.toPk) + StringBytes(26, m.cryptoMessage)
  {
    EncodeReqParts(m);
    NumberFieldBytes(1, ToU64(m.localMsgId));
    StringFieldBytes(2, m.toPk);
    StringFieldBytes(3, m.cryptoMessage);
  }

  /** The three messages that hold one number. */
  lemma EncodeNumberBytes(id: int64, n: uint64)
    ensures EncodeRes(Res(id)) == NumberBytes(8, ToU64(id))
    ensures EncodeDelReq(DelReq(n)) == NumberBytes(16, n)
    ensures EncodeReadNotice(ReadNotice(n)) == NumberBytes(8, n)
  {
    NumberFieldBytes(1, ToU64(id));
    NumberFieldBytes(2, n);
    NumberFieldBytes(1, n);
  }

  // ----------------------------------------------------------------- parsers

  lemma {:induction false} ReqLastOneWins(rs: seq<Record>, a: Req)
    ensures Fold(ApplyReq, a, rs).Some?
    ensures var m := Fold(ApplyReq, a, rs).value;
            && LastVarint(rs, 1, ToU64(a.localMsgId), ToU64(m.localMsgId))
            && LastBytes(rs, 2, a.toPk, m.toPk)
            && LastBytes(rs, 3, a.cryptoMessage, m.cryptoMessage)
  {
    if rs != [] {
      hide LastVarint, LastBytes;
      var a' := ApplyReq(a, rs[0]).value;
      ReqLastOneWins(rs[1..], a');
      var m := Fold(ApplyReq, a', rs[1..]).value;
      LastVarintStep(rs, 1, ToU64(a.localMsgId), ToU64(m.localMsgId));
      LastBytesStep(rs, 2, a.toPk, m.toPk);
      LastBytesStep(rs, 3, a.cryptoMessage, m.cryptoMessage);
    }
  }

  lemma {:induction false} ResLastOneWins(rs: seq<Record>, a: Res)
    ensures Fold(ApplyRes, a, rs).Some?
    ensures LastVarint(rs, 1, ToU64(a.localMsgId), ToU64(Fold(ApplyRes, a, rs).value.localMsgId))
  {
    if rs != [] {
      hide LastVarint;
      var a' := ApplyRes(a, rs[0]).value;
      ResLastOneWins(rs[1..], a');
      LastVarintStep(rs, 1, ToU64(a.localMsgId), ToU64(Fold(ApplyRes, a', rs[1..]).value.localMsgId));
    }
  }

  lemma {:induction false} DelReqLastOneWins(rs: seq<Record>, a: DelReq)
    ensures Fold(ApplyDelReq, a, rs).Some?
    ensures LastVarint(rs, 2, a.lastMsgId, Fold(ApplyDelReq, a, rs).value.lastMsgId)
  {
    if rs != [] {
      hide LastVarint;
      var a' := ApplyDelReq(a, rs[0]).value;
      DelReqLastOneWins(rs[1..], a');
      LastVarintStep(rs, 2, a.lastMsgId, Fold(ApplyDelReq, a', rs[1..]).value.lastMsgId);
    }
  }

  lemma {:induction false} ReadNoticeLastOneWins(rs: seq<Record>, a: ReadNotice)
    ensures Fold(ApplyReadNotice, a, rs).Some?
    ensures LastVarint(rs, 1, a.latestMsgId, Fold(ApplyReadNotice, a, rs).value.latestMsgId)
  {
    if rs != [] {
      hide LastVarint;
      var a' := ApplyReadNotice(a, rs[0]).value;
      ReadNoticeLastOneWins(rs[1..], a');
      LastVarintStep(rs, 1, a.latestMsgId, Fold(ApplyReadNotice, a', rs[1..]).value.latestMsgId);
    }
  }

  lemma MessageDecodes(s: Bytes)
    ensures ParseMessage(s).Some? <==> Records(s).Some?
    ensures Records(s).Some? ==>
              var rs, m := Records(s).value, ParseMessage(s).value;
              && LastVarint(rs, 1, 0, ToU64(m.localMsgId)) && LastVarint(rs, 2, 0, m.msgId)
              && LastBytes(rs, 3, [], m.frPk) && LastBytes(rs, 4, [], m.toPk) && LastBytes(rs, 5, [], m.content)
              && LastVarint(rs, 6, 0, m.createTime)
  {
    hide LastVarint, LastBytes;
    if Records(s).Some? { LastOneWins(Records(s).value, NO_MESSAGE); }
  }

  /** What the parsers make of any bytes: all that spell records are accepted, and each
      number and string is the last one of its field. */
  lemma RequestsDecode(s: Bytes)
    ensures ParseReq(s).Some? <==> Records(s).Some?
    ensures ParseDelReq(s).Some? <==> Records(s).Some?
    ensures Records(s).Some? ==>
              var rs, req, del := Records(s).value, ParseReq(s).value, ParseDelReq(s).value;
              && LastVarint(rs, 1, 0, ToU64(req.localMsgId))
              && LastBytes(rs, 2, [], req.toPk)
              && LastBytes(rs, 3, [], req.cryptoMessage)
              && LastVarint(rs, 2, 0, del.lastMsgId)
  {
    hide LastVarint, LastBytes;
    if Records(s).Some? {
      ReqLastOneWins(Records(s).value, NO_REQ);
      DelReqLastOneWins(Records(s).value, DelReq(0));
    }
  }

  lemma RepliesDecode(s: Bytes)
    ensures ParseRes(s).Some? <==> Records(s).Some?
    ensures ParseReadNotice(s).Some? <==> Records(s).Some?
    ensures Records(s).Some? ==>
              && LastVarint(Records(s).value, 1, 0, ToU64(ParseRes(s).value.localMsgId))
              && LastVarint(Records(s).value, 1, 0, ParseReadNotice(s).value.latestMsgId)
  {
    hide LastVarint;
    if Records(s).Some? {
      ResLastOneWins(Records(s).value, Res(0));
      ReadNoticeLastOneWins(Records(s).value, ReadNotice(0));
    }
  }

  /** The payloads of field 1, in order. */
  function Payloads(rs: seq<Record>): seq<Bytes> {
    if rs == [] then []
    else (if IsBytes(rs[0], 1) then [rs[0].payload] else []) + Payloads(rs[1..])
  }

  predicate AllParse(payloads: seq<Bytes>) {
    forall i :: 0 <= i < |payloads| ==> ParseMessage(payloads[i]).Some?
  }

  lemma AllParseCons(p: Bytes, rest: seq<Bytes>)
    ensures AllParse([p] + rest) <==> ParseMessage(p).Some? && AllParse(rest)
  {
    hide ParseMessage;
    assert forall i :: 0 <= i < |rest| ==> ([p] + rest)[i + 1] == rest[i];
    assert ([p] + rest)[0] == p;
  }

  /** The messages `a` and then one for each payload. */
  ghost predicate Appended(a: seq<OfflineMessage>, payloads: seq<Bytes>, msgs: seq<OfflineMessage>) {
    && |msgs| == |a| + |payloads| && a <= msgs
    && forall i :: 0 <= i < |payloads| ==> ParseMessage(payloads[i]) == Some(msgs[|a| + i])
  }

  lemma AppendedCons(a: seq<OfflineMessage>, p: Bytes, m: OfflineMessage, rest: seq<Bytes>, msgs: seq<OfflineMessage>)
    requires ParseMessage(p) == Some(m) && Appended(a + [m], rest, msgs)
    ensures Appended(a, [p] + rest, msgs)
  {
    hide ParseMessage;
    var all := [p] + rest;
    assert msgs[|a|] == (a + [m])[|a|] == m;
    forall i | 0 <= i < |all|
      ensures ParseMessage(all[i]) == Some(msgs[|a| + i])
    {
      if i > 0 { assert all[i] == rest[i - 1]; }
    }
    assert a == msgs[..|a|];
  }

  /** A response parses exactly when all its nested messages do; they append in order, and
      the count is the low half of the last one. */
  lemma {:induction false} PullResLastOneWins(rs: seq<Record>, a: PullRes)
    ensures Fold(ApplyPullRes, a, rs).Some? <==> AllParse(Payloads(rs))
    ensures AllParse(Payloads(rs)) ==>
              var p := Fold(ApplyPullRes, a, rs).value;
              && Appended(a.msgs, Payloads(rs), p.msgs)
              && exists v: uint64 :: LastVarint(rs, 2, a.leftCount, v) && p.leftCount == v % 0x1_0000_0000
  {
    hide LastVarint, ParseMessage;
    if rs == [] {
      assert LastVarint([], 2, a.leftCount, a.leftCount) by { NoVarint(2, a.leftCount); }
    } else {
      var rest := rs[1..];
      if IsBytes(rs[0], 1) {
        AllParseCons(rs[0].payload, Payloads(rest));
      } else {
        assert Payloads(rs) == Payloads(rest);
      }
      match ApplyPullRes(a, rs[0])
      case None =>
      case Some(a') =>
        PullResLastOneWins(rest, a');
        if AllParse(Payloads(rest)) {
          var p := Fold(ApplyPullRes, a', rest).value;
          hide AllParse, Appended, Payloads, Fold;
          if IsBytes(rs[0], 1) {
            AppendedCons(a.msgs, rs[0].payload, ParseMessage(rs[0].payload).value, Payloads(rest), p.msgs);
          }
          PullResCount(rs, a.leftCount, a'.leftCount, p.leftCount);
        }
    }
  }

  lemma NoVarint(field: nat, d: uint64)
    ensures LastVarint([], field, d, d)
  {
  }

  lemma PullResCount(rs: seq<Record>, a: uint32, a': uint32, n: uint32)
    requires rs != [] && a' == if IsVarint(rs[0], 2) then rs[0].value % 0x1_0000_0000 else a
    requires exists v: uint64 :: LastVarint(rs[1..], 2, a', v) && n == v % 0x1_0000_0000
    ensures exists v: uint64 :: LastVarint(rs, 2, a, v) && n == v % 0x1_0000_0000
  {
    var v: uint64 :| LastVarint(rs[1..], 2, a', v) && n == v % 0x1_0000_0000;
    if IsVarint(rs[0], 2) {
      if forall i :: 0 <= i < |rs[1..]| ==> !IsVarint(rs[1..][i], 2) {
        assert LastVarint(rs[1..], 2, rs[0].value, rs[0].value);
        hide LastVarint;
        LastVarintStep(rs, 2, a, rs[0].value);
      } else {
        assert LastVarint(rs[1..], 2, rs[0].value, v);
        hide LastVarint;
        LastVarintStep(rs, 2, a, v);
      }
    } else {
      hide LastVarint;
      LastVarintStep(rs, 2, a, v);
    }
  }

  lemma PullResDecodes(s: Bytes)
    ensures ParsePullRes(s).Some? <==> Records(s).Some? && AllParse(Payloads(Records(s).value))
    ensures ParsePullRes(s).Some? ==>
              var rs, p := Records(s).value, ParsePullRes(s).value;
              && Appended([], Payloads(rs), p.msgs)
              && exists v: uint64 :: LastVarint(rs, 2, 0, v) && p.leftCount == v % 0x1_0000_0000
  {
    hide LastVarint, AllParse, Appended, Payloads;
    if Records(s).Some? { PullResLastOneWins(Records(s).value, NO_PULL_RES); }
  }
}
