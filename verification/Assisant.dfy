/** The bot's packet handlers: they change the stored table and send replies. */
module Assisant {
  import opened Wire
  import opened Table
  import opened Batch
  import opened Handlers
  import opened Pool
  import opened Model
  import Generated
  import P = Proto
  import R = ProtoRequests

  class Assisant {
    const model: OfflineMessageModel
    /** Every packet handed to the network, in order; a failed send is only logged. */
    var sent: seq<Packet>

    constructor (model: OfflineMessageModel)
      requires model.Valid()
      ensures this.model == model && sent == []
    {
      this.model := model;
      sent := [];
    }

    ghost predicate Valid()
      reads this, model, model.db
    {
      model.Valid()
    }

    method Send(pk: Key, cmd: Cmd, buffer: array<byte>)
      modifies this
      ensures sent == old(sent) + [Packet(pk, cmd, buffer[..])]
    {
      sent := sent + [Packet(pk, cmd, buffer[..])];
    }

    method MessageOfflineRecv(fr: Key, message: Bytes, env: Env)
      requires Valid()
      modifies this, model, model.db
      ensures Valid() && model.db.held == old(model.db.held)
      ensures model.table == Recv(old(model.table), fr, message, env)
      ensures sent == old(sent) + RecvReply(fr, message)
    {
      hide Insert, R.EncodeReq, ParseInto;
      var req := new Generated.OfflineMessageReq();
      var ret := req.ParseFromArray(message);
      if !ret { return; }
      var added := model.Add(fr, req.toPk, req.cryptoMessage, ToU64(req.localMsgId), env);
      var res := new Generated.OfflineMessageReq();
      res.localMsgId := req.localMsgId;
      var size := res.ByteSizeLong();
      var buffer := new byte[size];
      res.SerializeToArray(buffer);
      Send(fr, SendResponse, buffer);
    }

    method MessageOfflineReadNotice(pk: Key, env: Env)
      requires Valid()
      modifies this, model.db
      ensures Valid() && model.db.held == old(model.db.held)
      ensures sent == old(sent) + NoticeReply(model.table, pk, env)
    {
      var latestId := model.GetLatestId(pk, env);
      if latestId != 0 {
        var notice := new Generated.OfflineMessageReadNotice(latestId);
        var size := notice.ByteSizeLong();
        var buffer := new byte[size];
        notice.SerializeToArray(buffer);
        Send(pk, ReadNoticeCmd, buffer);
      }
    }

    /** The batching loop. The size of a row that is left out still counts, so no later
        row gets in. */
    static method FillResponse(vec: seq<OfflineMessage>, ghost rows: seq<Row>, res: Generated.OfflineMessagePullRes)
      returns (count: uint32)
      requires |vec| == |rows| <= LIST_LIMIT && FullKeys(rows)
      requires forall i :: 0 <= i < |vec| ==> vec[i].Holds(rows[i])
      requires res.msgs == []
      modifies res
      ensures res.msgs == Messages(BatchOf(rows)) && count == |BatchOf(rows)|
      ensures res.leftCount == old(res.leftCount)
    {
      hide RowSize, P.EncodeMessage, TotalSize, BatchOf, Messages, RowMessage;
      BatchStart(rows);
      var totalSize: uint32 := 0;
      count := 0;
      for i := 0 to |vec|
        invariant forall j :: 0 <= j < |vec| ==> vec[j].Holds(rows[j])
        invariant totalSize == TotalSize(rows[..i]) <= 2216 * i
        invariant count == |BatchOf(rows[..i])|
        invariant res.msgs == Messages(BatchOf(rows[..i]))
        invariant res.leftCount == old(res.leftCount)
      {
        var size := vec[i].BytesSize();
        BatchStep(rows, i);
        totalSize := (totalSize + size) % TWO_32;
        if totalSize < MAX_SIZE {
          res.AddMsg(P.OfflineMessage(ToI64(vec[i].localMsgId), vec[i].id, vec[i].frPk,
                                      vec[i].toPk, vec[i].content, vec[i].createTime));
          RowMessageIs(rows[i]);
          count := count + 1;
        }
      }
      assert rows[..|rows|] == rows;
    }

    method MessageOfflinePull(pk: Key, env: Env)
      requires Valid()
      modifies this, model.db
      ensures Valid() && model.db.held == old(model.db.held)
      ensures sent == old(sent) + PullReply(model.table, pk, env)
    {
      hide Listed, BatchOf, P.EncodePullRes, Counted;
      var vec := model.GetList(pk, env);
      var totalCount := model.GetCount(pk, env);
      var res := new Generated.OfflineMessagePullRes();
      ListedFacts(model.table, pk, env);
      var count := FillResponse(vec, Listed(model.table, pk, env), res);
      res.leftCount := (totalCount - count) % TWO_32;
      var size := res.ByteSizeLong();
      var buffer := new byte[size];
      res.SerializeToArray(buffer);
      Send(pk, PullResponse, buffer);
    }

    method MessageOfflineDel(pk: Key, message: Bytes, env: Env)
      requires Valid()
      modifies model, model.db
      ensures Valid() && model.db.held == old(model.db.held)
      ensures model.table == Del(old(model.table), pk, message, env)
    {
      var req := new Generated.OfflineMessageDelReq();
      var ret := req.ParseFromArray(message);
      if !ret { return; }
      var deleted := model.Del(pk, req.lastMsgId, env);
    }

    method FriendMessageOfflineCb(p: Packet, env: Env)
      requires Valid()
      modifies this, model, model.db
      ensures Valid() && model.db.held == old(model.db.held)
      ensures model.table == Handle(old(model.table), p, env).0
      ensures sent == old(sent) + Handle(old(model.table), p, env).1
    {
      match p.cmd
      case SendRequest => MessageOfflineRecv(p.pk, p.bytes, env);
      case PullRequest => MessageOfflinePull(p.pk, env);
      case DelRequest => MessageOfflineDel(p.pk, p.bytes, env);
      case _ =>
    }
  }

  lemma ListedFacts(t: Table, pk: Key, env: Env)
    requires ValidTable(t)
    ensures |Listed(t, pk, env)| <= LIST_LIMIT
    ensures FullKeys(Listed(t, pk, env))
  {
    MailboxFullKeys(t, pk);
  }

  lemma RowMessageIs(r: Row)
    ensures RowMessage(r) == P.OfflineMessage(ToI64(r.localMsgId), r.id, r.frPk, r.toPk, r.content, r.createTime)
  {
  }

  lemma BatchStart(rows: seq<Row>)
    ensures TotalSize(rows[..0]) == 0 && BatchOf(rows[..0]) == [] && Messages([]) == []
  {
  }

  /** One turn of the batching loop. */
  lemma BatchStep(rows: seq<Row>, i: nat)
    requires i < |rows| && FullKeys(rows)
    ensures TotalSize(rows[..i + 1]) == TotalSize(rows[..i]) + RowSize(rows[i])
    ensures RowSize(rows[i]) <= 2216
    ensures |BatchOf(rows[..i])| <= i
    ensures BatchOf(rows[..i + 1]) ==
            if TotalSize(rows[..i + 1]) < MAX_SIZE then BatchOf(rows[..i]) + [rows[i]] else BatchOf(rows[..i])
    ensures Messages(BatchOf(rows[..i]) + [rows[i]]) == Messages(BatchOf(rows[..i])) + [RowMessage(rows[i])]
  {
    hide RowSize;
    var a := rows[..i];
    assert rows[..i + 1] == a + [rows[i]];
    TotalAppend(a, rows[i]);
    RowSizeBounds(rows[i]);
    if TotalSize(a + [rows[i]]) < MAX_SIZE {
      assert a[..i] == a && (a + [rows[i]])[..i + 1] == a + [rows[i]];
      FittingUnique(a, MAX_SIZE, i);
      FittingUnique(a + [rows[i]], MAX_SIZE, i + 1);
    } else {
      FittingSize(a, MAX_SIZE);
      var n := Fitting(a, MAX_SIZE);
      assert (a + [rows[i]])[..n] == a[..n];
      assert (a + [rows[i]])[..n + 1] == if n < i then a[..n + 1] else a + [rows[i]];
      FittingUnique(a + [rows[i]], MAX_SIZE, n);
    }
  }
}
