/** A client that empties its mailbox: pull, decode, delete up to the last id, repeat. */
module Drain {
  import opened Wire
  import opened ProtoRequests
  import opened Table
  import opened Batch
  import opened Handlers
  import opened Assisant
  import Generated
  import P = Proto

  /** The number of leading rows that fit a response on their own. */
  function LeadingFit(rows: seq<Row>): (n: nat)
    ensures n <= |rows|
  {
    if rows == [] || RowSize(rows[0]) >= MAX_SIZE then 0 else 1 + LeadingFit(rows[1..])
  }

  lemma {:induction false} LeadingFitIs(rows: seq<Row>, n: nat)
    requires n <= |rows|
    requires forall i :: 0 <= i < n ==> RowSize(rows[i]) < MAX_SIZE
    requires n < |rows| ==> RowSize(rows[n]) >= MAX_SIZE
    ensures LeadingFit(rows) == n
  {
    hide RowSize;
    if n > 0 {
      assert forall i :: 0 <= i < n - 1 ==> rows[1..][i] == rows[i + 1];
      LeadingFitIs(rows[1..], n - 1);
    }
  }

  lemma {:induction false} AllFitIff(rows: seq<Row>)
    ensures LeadingFit(rows) == |rows| <==> forall i :: 0 <= i < |rows| ==> RowSize(rows[i]) < MAX_SIZE
  {
    hide RowSize;
    if rows != [] {
      AllFitIff(rows[1..]);
      assert forall i :: 0 < i < |rows| ==> rows[i] == rows[1..][i - 1];
    }
  }

  /** Contents of up to 858 bytes leave no row behind. */
  lemma SmallContentsFit(t: Table, pk: Key)
    requires ValidTable(t)
    requires forall r :: r in t.rows && r.toPk == pk ==> |r.content| <= 858
    ensures LeadingFit(Mailbox(t.rows, pk)) == |Mailbox(t.rows, pk)|
  {
    var m := Mailbox(t.rows, pk);
    MailboxFullKeys(t, pk);
    MailboxMembers(t.rows, pk);
    AllFitIff(m);
    hide RowSize;
    forall i | 0 <= i < |m|
      ensures RowSize(m[i]) < MAX_SIZE
    {
      assert m[i] in t.rows;
      RowSizeBounds(m[i]);
    }
  }

  lemma BatchRowsFit(rows: seq<Row>)
    ensures forall i :: 0 <= i < |BatchOf(rows)| ==> RowSize(rows[i]) < MAX_SIZE
  {
    FittingRowsFit(rows, MAX_SIZE);
  }

  lemma {:induction false} FittingRowsFit(rows: seq<Row>, budget: nat)
    ensures forall i :: 0 <= i < Fitting(rows, budget) ==> RowSize(rows[i]) < budget
  {
    hide RowSize;
    if rows != [] && RowSize(rows[0]) < budget {
      FittingRowsFit(rows[1..], budget - RowSize(rows[0]));
      assert forall i :: 0 < i < |rows| ==> rows[i] == rows[1..][i - 1];
    }
  }

  const QUIET := Env(0, false, 0, None, false)

  /** What a delete of the last id of a batch leaves behind. */
  lemma AckedBatch(t: Table, pk: Key, sent: seq<Row>)
    requires ValidTable(t) && sent != [] && sent <= Mailbox(t.rows, pk)
    ensures var last := sent[|sent| - 1].id;
            && Del(t, pk, EncodeDelReq(DelReq(last)), QUIET) == Delete(t, pk, last)
            && sent + Mailbox(Delete(t, pk, last).rows, pk) == Mailbox(t.rows, pk)
            && forall other: Key :: other != pk ==>
                 Mailbox(Delete(t, pk, last).rows, other) == Mailbox(t.rows, other)
  {
    var last := sent[|sent| - 1];
    MailboxMembers(t.rows, pk);
    assert last == Mailbox(t.rows, pk)[|sent| - 1];
    assert last in t.rows && last.Valid();
    DelReqRoundTrip(DelReq(last.id));
    DeletePrefix(t.rows, pk, sent);
    hide Mailbox, Spared;
    forall other: Key | other != pk
      ensures Mailbox(Delete(t, pk, last.id).rows, other) == Mailbox(t.rows, other)
    {
      DeleteSparesOthers(t.rows, pk, last.id, other);
    }
  }

  /** One round: the decoded batch, and whether there was one. */
  method Round(bot: Assisant, pk: Key) returns (msgs: seq<P.OfflineMessage>)
    requires bot.Valid()
    modifies bot, bot.model, bot.model.db
    ensures bot.Valid()
    ensures var batch := BatchOf(old(Mailbox(bot.model.table.rows, pk)));
            && msgs == Messages(batch)
            && batch + Mailbox(bot.model.table.rows, pk) == old(Mailbox(bot.model.table.rows, pk))
    ensures forall other: Key :: other != pk ==>
              Mailbox(bot.model.table.rows, other) == old(Mailbox(bot.model.table.rows, other))
  {
    hide Mailbox, BatchOf, ValidTable, P.EncodePullRes, P.ParsePullRes, EncodeDelReq, ParseDelReq, Listed;
    ghost var t := bot.model.table;
    bot.FriendMessageOfflineCb(Packet(pk, PullRequest, []), QUIET);
    SentIsPrefix(t, pk, QUIET);
    PullResponseDecodes(t, pk, QUIET);
    ghost var batch := Sent(t, pk, QUIET);
    var res := new Generated.OfflineMessagePullRes();
    var ok := res.ParseFromArray(bot.sent[|bot.sent| - 1].bytes);
    msgs := res.msgs;
    assert msgs == Messages(batch);
    if msgs != [] {
      assert msgs[|msgs| - 1] == RowMessage(batch[|batch| - 1]);
      AckedBatch(t, pk, batch);
      var req := EncodeDelReq(DelReq(msgs[|msgs| - 1].msgId));
      bot.FriendMessageOfflineCb(Packet(pk, DelRequest, req), QUIET);
    }
  }

  /** The loop ends; what was delivered is exactly the rows before the first that does not
      fit, once each and in id order, and the mailbox is left from there on. It is empty
      if and only if every row fits. */
  method DrainMailbox(bot: Assisant, pk: Key) returns (delivered: seq<P.OfflineMessage>)
    requires bot.Valid()
    modifies bot, bot.model, bot.model.db
    ensures bot.Valid()
    ensures var mailbox := old(Mailbox(bot.model.table.rows, pk));
            && delivered == Messages(mailbox[..LeadingFit(mailbox)])
            && Mailbox(bot.model.table.rows, pk) == mailbox[LeadingFit(mailbox)..]
    ensures forall other: Key :: other != pk ==>
              Mailbox(bot.model.table.rows, other) == old(Mailbox(bot.model.table.rows, other))
  {
    hide Mailbox, BatchOf, RowSize, ValidTable, LeadingFit;
    ghost var mailbox := Mailbox(bot.model.table.rows, pk);
    ghost var n := 0;
    delivered := [];
    while true
      invariant bot.Valid() && n <= |mailbox|
      invariant Mailbox(bot.model.table.rows, pk) == mailbox[n..]
      invariant delivered == Messages(mailbox[..n])
      invariant forall i :: 0 <= i < n ==> RowSize(mailbox[i]) < MAX_SIZE
      invariant forall other: Key :: other != pk ==>
                  Mailbox(bot.model.table.rows, other) == old(Mailbox(bot.model.table.rows, other))
      decreases |mailbox| - n
    {
      ghost var rest := mailbox[n..];
      ghost var batch := BatchOf(rest);
      var msgs := Round(bot, pk);
      BatchRowsFit(rest);
      Delivered(mailbox, n, batch, Mailbox(bot.model.table.rows, pk));
      if msgs == [] {
        if n < |mailbox| { HeadIsSent(rest); }
        LeadingFitIs(mailbox, n);
        return;
      }
      delivered := delivered + msgs;
      n := n + |batch|;
    }
  }

  lemma Delivered(mailbox: seq<Row>, n: nat, batch: seq<Row>, left: seq<Row>)
    requires n <= |mailbox| && batch + left == mailbox[n..]
    ensures n + |batch| <= |mailbox| && left == mailbox[n + |batch|..]
    ensures forall i :: 0 <= i < |batch| ==> mailbox[n..][i] == mailbox[n + i]
    ensures Messages(mailbox[..n]) + Messages(batch) == Messages(mailbox[..n + |batch|])
  {
    hide RowMessage;
    assert mailbox == mailbox[..n] + (batch + left);
    assert mailbox[..n + |batch|] == mailbox[..n] + batch;
  }
}
