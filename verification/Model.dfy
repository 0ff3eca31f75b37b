/** The table operations, each on a connection it takes from the pool and gives back on
    its normal and on its exception path; and the stored message object they hand out. */
module Model {
  import opened Wire
  import opened Table
  import opened Batch
  import opened Handlers
  import opened Pool
  import Generated
  import P = Proto

  /** A stored message outside the database. */
  class OfflineMessage {
    var frPk: Bytes
    var toPk: Bytes
    var content: Bytes
    var id: uint64
    var localMsgId: uint64
    var createTime: uint64

    constructor ()
      ensures id == localMsgId == createTime == 0
    {
      id, localMsgId, createTime := 0, 0, 0;
      frPk, toPk, content := [], [], [];
    }

    ghost predicate Holds(r: Row)
      reads this
    {
      r == Row(id, localMsgId, frPk, toPk, content, createTime)
    }

    method Clear()
      modifies this
      ensures Holds(Row(0, 0, [], [], [], 0))
    {
      frPk, toPk, content := [], [], [];
      id, localMsgId, createTime := 0, 0, 0;
    }

    /** Fills a wire message field by field and measures it. */
    method BytesSize() returns (size: nat)
      ensures forall r :: Holds(r) ==> size == RowSize(r) == |P.EncodeMessage(RowMessage(r))|
    {
      var msg := new Generated.OfflineMessage();
      msg.localMsgId := ToI64(localMsgId);
      msg.msgId := id;
      msg.frPk := frPk;
      msg.toPk := toPk;
      msg.content := content;
      msg.createTime := createTime;
      size := msg.ByteSizeLong();
      P.MessageSizeExact(msg.Value());
    }
  }

  /** Stepping through the result set goes on exactly while there are rows to list. */
  lemma ListedOn(t: Table, pk: Key, env: Env, n: nat)
    requires n <= |Listed(t, pk, env)|
    ensures Listed(t, pk, env) <= Mailbox(t.rows, pk)
    ensures n < |Listed(t, pk, env)| <==>
            n < |Mailbox(t.rows, pk)| && n < LIST_LIMIT && env.listRaisesAfter != Some(n)
  {
    hide Mailbox;
  }

  class OfflineMessageModel {
    var table: Table
    const db: DBConn

    constructor (db: DBConn)
      ensures this.db == db && table == Table([], 1)
    {
      this.db := db;
      table := Table([], 1);
    }

    ghost predicate Valid()
      reads this, db
    {
      ValidTable(table) && db.Valid()
    }

    /** The number of rows inserted; zero if the statement raised. */
    method Add(frPk: Key, toPk: Bytes, content: Bytes, localMsgId: uint64, env: Env) returns (ret: nat)
      requires Valid()
      modifies this, db
      ensures Valid() && db.held == old(db.held)
      ensures table == if env.raises then old(table)
                       else Insert(old(table), frPk, toPk, content, localMsgId, env.now, env.skip)
      ensures ret == |table.rows| - |old(table).rows|
    {
      var connection := db.Allocate();
      ret := 0;
      if !env.raises {
        InsertValid(table, frPk, toPk, content, localMsgId, env.now, env.skip);
        var before := |table.rows|;
        table := Insert(table, frPk, toPk, content, localMsgId, env.now, env.skip);
        ret := |table.rows| - before;
        db.Release(connection);
      } else {
        db.Release(connection);
      }
    }

    method Del(pk: Key, msgId: uint64, env: Env) returns (ret: nat)
      requires Valid()
      modifies this, db
      ensures Valid() && db.held == old(db.held)
      ensures table == if env.raises then old(table) else Delete(old(table), pk, msgId)
      ensures ret == |old(table).rows| - |table.rows|
    {
      var connection := db.Allocate();
      ret := 0;
      if !env.raises {
        DeleteValid(table, pk, msgId);
        var before := |table.rows|;
        table := Delete(table, pk, msgId);
        ret := before - |table.rows|;
        db.Release(connection);
      } else {
        db.Release(connection);
      }
    }

    method GetLatestId(pk: Key, env: Env) returns (latestId: uint64)
      requires Valid()
      modifies db
      ensures Valid() && db.held == old(db.held)
      ensures latestId == if env.raises then 0 else LatestId(table.rows, pk)
    {
      var connection := db.Allocate();
      latestId := 0;
      if !env.raises {
        latestId := LatestId(table.rows, pk);
      }
      db.Release(connection);
    }

    method GetCount(pk: Key, env: Env) returns (count: uint32)
      requires Valid()
      modifies db
      ensures Valid() && db.held == old(db.held)
      ensures count == Counted(table, pk, env)
    {
      var connection := db.Allocate();
      count := 0;
      if !env.countRaises {
        count := |Mailbox(table.rows, pk)| % TWO_32;
      }
      db.Release(connection);
    }

    /** Steps through the result set; an exception ends the list where it is. */
    method GetList(pk: Key, env: Env) returns (vec: seq<OfflineMessage>)
      requires Valid()
      modifies db
      ensures Valid() && db.held == old(db.held)
      ensures |vec| == |Listed(table, pk, env)|
      ensures forall i :: 0 <= i < |vec| ==> fresh(vec[i]) && vec[i].Holds(Listed(table, pk, env)[i])
    {
      hide Mailbox, Listed, ValidTable;
      var connection := db.Allocate();
      var res := Mailbox(table.rows, pk);
      var limit := LIST_LIMIT;
      vec := [];
      ListedOn(table, pk, env, 0);
      while |vec| < |res| && |vec| < limit && env.listRaisesAfter != Some(|vec|)
        invariant |vec| <= |Listed(table, pk, env)|
        invariant |vec| < |res| && |vec| < limit && env.listRaisesAfter != Some(|vec|) <==>
                  |vec| < |Listed(table, pk, env)|
        invariant forall i :: 0 <= i < |vec| ==> fresh(vec[i]) && vec[i].Holds(res[i])
        decreases |res| - |vec|
        modifies {}
      {
        var row := res[|vec|];
        var msg := new OfflineMessage();
        msg.id := row.id;
        msg.localMsgId := row.localMsgId;
        msg.frPk := row.frPk;
        msg.toPk := row.toPk;
        msg.content := row.content;
        msg.createTime := row.createTime;
        vec := vec + [msg];
        ListedOn(table, pk, env, |vec|);
      }
      db.Release(connection);
    }
  }
}
