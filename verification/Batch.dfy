/** Which rows a pull sends: a size-limited batch off the front of a mailbox. */
module Batch {
  import opened Wire
  import opened Proto
  import opened Table

  const MAX_SIZE: nat := 1024
  const LIST_LIMIT: nat := 10

  /** A stored row as the message that carries it. */
  function RowMessage(r: Row): OfflineMessage {
    OfflineMessage(ToI64(r.localMsgId), r.id, r.frPk, r.toPk, r.content, r.createTime)
  }

  /** No field is lost on the way: different rows make different messages. */
  lemma RowMessageInjective(a: Row, b: Row)
    requires a.Valid() && b.Valid() && RowMessage(a) == RowMessage(b)
    ensures a == b
  {
  }

  function Messages(rows: seq<Row>): (ms: seq<OfflineMessage>)
    ensures |ms| == |rows|
  {
    seq(|rows|, i requires 0 <= i < |rows| => RowMessage(rows[i]))
  }

  function RowSize(r: Row): nat {
    RowMessage(r).ByteSize()
  }

  function TotalSize(rows: seq<Row>): nat {
    if rows == [] then 0 else RowSize(rows[0]) + TotalSize(rows[1..])
  }

  /** How many rows fit when fewer than `budget` bytes may be used. */
  function Fitting(rows: seq<Row>, budget: nat): (n: nat)
    ensures n <= |rows|
  {
    if rows == [] || RowSize(rows[0]) >= budget then 0
    else 1 + Fitting(rows[1..], budget - RowSize(rows[0]))
  }

  function BatchOf(mailbox: seq<Row>): seq<Row> {
    mailbox[..Fitting(mailbox, MAX_SIZE)]
  }

  /** A mailbox of a full key: valid rows whose keys are both 64 bytes long. */
  predicate FullKeys(rows: seq<Row>) {
    forall i :: 0 <= i < |rows| ==> rows[i].Valid() && |rows[i].toPk| == KEY_SIZE
  }

  // ------------------------------------------------------------------- sizes

  lemma VarintFieldBounds(x: uint64)
    ensures VarintFieldSize(x) <= 11
    ensures x < TWO_63 ==> VarintFieldSize(x) <= 10
    ensures x > 0 ==> VarintFieldSize(x) >= 2
  {
    VarintSize64(x);
  }

  lemma BytesFieldBounds(b: Bytes)
    requires |b| <= MAX_CONTENT
    ensures |b| <= BytesFieldSize(b) <= |b| + 3
    ensures |b| == KEY_SIZE ==> BytesFieldSize(b) == 66
    ensures |b| >= 128 ==> BytesFieldSize(b) == |b| + 3
  {
    VarintSize64(|b|);
  }

  /** Keys cost 132 bytes and the id at least two. Content of up to 858 bytes fits a
      response whatever the numbers are; content of 887 bytes or more never fits. */
  lemma RowSizeBounds(r: Row)
    requires r.Valid() && |r.toPk| == KEY_SIZE
    ensures 134 <= RowSize(r) <= 2216
    ensures |r.content| <= 858 ==> RowSize(r) < MAX_SIZE
    ensures |r.content| >= 887 ==> RowSize(r) >= MAX_SIZE
  {
    hide VarintFieldSize, BytesFieldSize;
    var m := RowMessage(r);
    VarintFieldBounds(ToU64(m.localMsgId));
    VarintFieldBounds(m.msgId);
    VarintFieldBounds(m.createTime);
    BytesFieldBounds(m.frPk);
    BytesFieldBounds(m.toPk);
    BytesFieldBounds(m.content);
  }

  /** Both bounds are tight, and between them the numbers decide: some row with 886
      bytes of content fits and some row with 859 does not. */
  lemma ThresholdDependsOnNumbers()
    ensures exists r: Row :: r.Valid() && |r.toPk| == KEY_SIZE && |r.content| == 886 && RowSize(r) < MAX_SIZE
    ensures exists r: Row :: r.Valid() && |r.toPk| == KEY_SIZE && |r.content| == 859 && RowSize(r) >= MAX_SIZE
  {
    var key := seq(64, _ => 65);
    var small := Row(1, 0, key, key, seq(886, _ => 1), 0);
    var top := TWO_63 - 1;
    var large := Row(top, top, key, key, seq(859, _ => 1), top);
    VarintSize64(1);
    VarintSize64(64);
    VarintSize64(886);
    VarintSize64(859);
    Pow128Of10();
    VarintLength(top, 9);
    VarintLength(top, 8);
    assert Pow128(9) == 128 * Pow128(8);
    hide VarintSize;
    assert RowSize(small) == 1023;
    assert RowSize(large) == 1024;
  }

  // ----------------------------------------------------------------- batches

  lemma {:induction false} FittingSize(rows: seq<Row>, budget: nat)
    requires 0 < budget
    ensures TotalSize(rows[..Fitting(rows, budget)]) < budget
    ensures Fitting(rows, budget) < |rows| ==> TotalSize(rows[..Fitting(rows, budget) + 1]) >= budget
  {
    hide RowSize;
    if rows != [] {
      var n, x := Fitting(rows, budget), RowSize(rows[0]);
      assert TotalSize([]) == 0;
      if x < budget {
        FittingSize(rows[1..], budget - x);
        assert rows[..n][1..] == rows[1..][..n - 1];
        if n < |rows| { assert rows[..n + 1][1..] == rows[1..][..n]; }
      } else {
        assert rows[..1][1..] == [];
      }
    }
  }

  /** The number of rows that fit is determined by their sizes alone: it is the longest
      prefix below the budget. */
  lemma {:induction false} FittingUnique(rows: seq<Row>, budget: nat, n: nat)
    requires n <= |rows| && TotalSize(rows[..n]) < budget
    requires n < |rows| ==> TotalSize(rows[..n + 1]) >= budget
    ensures n == Fitting(rows, budget)
  {
    hide RowSize;
    if rows != [] {
      if n > 0 {
        assert rows[..n][1..] == rows[1..][..n - 1];
        if n < |rows| { assert rows[..n + 1][1..] == rows[1..][..n]; }
        FittingUnique(rows[1..], budget - RowSize(rows[0]), n - 1);
      } else {
        assert rows[..1][1..] == [];
        assert TotalSize([]) == 0;
      }
    }
  }

  lemma {:induction false} TotalAtLeast(rows: seq<Row>)
    requires FullKeys(rows)
    ensures 134 * |rows| <= TotalSize(rows) <= 2216 * |rows|
  {
    hide RowSize;
    if rows != [] {
      RowSizeBounds(rows[0]);
      TotalAtLeast(rows[1..]);
    }
  }

  lemma {:induction false} TotalMonotone(rows: seq<Row>, n: nat)
    requires n <= |rows|
    ensures TotalSize(rows[..n]) <= TotalSize(rows)
  {
    hide RowSize;
    if n > 0 {
      TotalMonotone(rows[1..], n - 1);
      assert rows[..n][1..] == rows[1..][..n - 1];
    }
  }

  lemma {:induction false} TotalAppend(a: seq<Row>, r: Row)
    ensures TotalSize(a + [r]) == TotalSize(a) + RowSize(r)
  {
    hide RowSize;
    if a == [] {
      assert a + [r] == [r] && [r][1..] == [];
    } else {
      TotalAppend(a[1..], r);
      assert (a + [r])[1..] == a[1..] + [r];
    }
  }

  /** A batch is the longest prefix of the whole mailbox below 1024 bytes; it has at
      most seven rows, so the query's LIMIT 10 never shows. */
  lemma BatchIsLongestPrefix(mailbox: seq<Row>)
    requires FullKeys(mailbox)
    ensures BatchOf(mailbox) <= mailbox
    ensures TotalSize(BatchOf(mailbox)) < MAX_SIZE
    ensures |BatchOf(mailbox)| <= 7
    ensures forall n :: |BatchOf(mailbox)| < n <= |mailbox| ==> TotalSize(mailbox[..n]) >= MAX_SIZE
  {
    hide RowSize;
    FittingSize(mailbox, MAX_SIZE);
    var b := BatchOf(mailbox);
    TotalAtLeast(b);
    forall n | |b| < n <= |mailbox|
      ensures TotalSize(mailbox[..n]) >= MAX_SIZE
    {
      TotalMonotone(mailbox[..n], |b| + 1);
      assert mailbox[..n][..|b| + 1] == mailbox[..|b| + 1];
    }
  }

  /** The encodings of the rows' messages, one after the other. */
  function Encodings(rows: seq<Row>): Bytes {
    if rows == [] then []
    else
      var r := rows[|rows| - 1];
      Encodings(rows[..|rows| - 1])
      + EncodeMessage(OfflineMessage(ToI64(r.localMsgId), r.id, r.frPk, r.toPk, r.content, r.createTime))
  }

  lemma LastEncoding(rows: seq<Row>)
    requires rows != []
    ensures |Encodings(rows)| == |Encodings(rows[..|rows| - 1])| + RowSize(rows[|rows| - 1])
  {
    hide EncodeMessage, OfflineMessage.ByteSize;
    MessageSizeExact(RowMessage(rows[|rows| - 1]));
  }

  lemma LastTotal(rows: seq<Row>)
    requires rows != []
    ensures TotalSize(rows) == TotalSize(rows[..|rows| - 1]) + RowSize(rows[|rows| - 1])
  {
    hide TotalSize, RowSize;
    assert rows == rows[..|rows| - 1] + [rows[|rows| - 1]];
    TotalAppend(rows[..|rows| - 1], rows[|rows| - 1]);
  }

  lemma NoEncoding()
    ensures Encodings([]) == [] && TotalSize([]) == 0
  {
  }

  lemma {:induction false} EncodingsSize(rows: seq<Row>)
    ensures |Encodings(rows)| == TotalSize(rows)
  {
    hide *;
    NoEncoding();
    if rows != [] {
      EncodingsSize(rows[..|rows| - 1]);
      LastEncoding(rows);
      LastTotal(rows);
    }
  }

  /** A batch is as many rows as encode to fewer than 1024 bytes together, and no row more
      would do. */
  lemma BatchByBytes(mailbox: seq<Row>, n: nat)
    requires n <= |mailbox|
    ensures BatchOf(mailbox) == mailbox[..n] <==>
            && |Encodings(mailbox[..n])| < 1024
            && (n < |mailbox| ==> |Encodings(mailbox[..n + 1])| >= 1024)
  {
    hide RowSize, Encodings, TotalSize, Fitting;
    EncodingsSize(mailbox[..n]);
    if n < |mailbox| { EncodingsSize(mailbox[..n + 1]); }
    var k := Fitting(mailbox, MAX_SIZE);
    FittingSize(mailbox, MAX_SIZE);
    if n == k {
    } else {
      assert |mailbox[..n]| == n && |mailbox[..k]| == k;
      if TotalSize(mailbox[..n]) < MAX_SIZE && (n < |mailbox| ==> TotalSize(mailbox[..n + 1]) >= MAX_SIZE) {
        FittingUnique(mailbox, MAX_SIZE, n);
      }
    }
  }

  /** Cutting the listed rows short, by LIMIT or by an exception half way, cuts the batch
      short at the same place. */
  lemma {:induction false} FittingOfPrefix(rows: seq<Row>, k: nat, budget: nat)
    requires k <= |rows|
    ensures Fitting(rows[..k], budget) == if k < Fitting(rows, budget) then k else Fitting(rows, budget)
  {
    hide RowSize;
    if k > 0 && RowSize(rows[0]) < budget {
      FittingOfPrefix(rows[1..], k - 1, budget - RowSize(rows[0]));
      assert rows[..k][1..] == rows[1..][..k - 1];
    }
  }

  lemma BatchOfPrefix(mailbox: seq<Row>, k: nat)
    requires k <= |mailbox|
    ensures BatchOf(mailbox[..k]) == if k < |BatchOf(mailbox)| then mailbox[..k] else BatchOf(mailbox)
  {
    FittingOfPrefix(mailbox, k, MAX_SIZE);
  }

  /** Re-pull stability: appending rows only ever extends the batch. */
  lemma BatchGrows(before: seq<Row>, after: seq<Row>)
    requires before <= after
    ensures BatchOf(before) <= BatchOf(after)
  {
    assert before == after[..|before|];
    BatchOfPrefix(after, |before|);
  }

  /** Head of line: a row is in the next batch exactly when it and all before it fit. */
  lemma HeadIsSent(mailbox: seq<Row>)
    requires mailbox != []
    ensures BatchOf(mailbox) != [] <==> RowSize(mailbox[0]) < MAX_SIZE
    ensures BatchOf(mailbox) != [] ==> BatchOf(mailbox)[0] == mailbox[0]
  {
  }

  lemma {:induction false} OversizeStops(rows: seq<Row>, budget: nat, i: nat)
    requires i < |rows| && RowSize(rows[i]) >= budget
    ensures Fitting(rows, budget) <= i
    decreases i
  {
    hide RowSize;
    if i > 0 && RowSize(rows[0]) < budget {
      OversizeStops(rows[1..], budget - RowSize(rows[0]), i - 1);
    }
  }

  lemma OversizeNotInBatch(mailbox: seq<Row>, i: nat)
    requires i < |mailbox| && RowSize(mailbox[i]) >= MAX_SIZE
    ensures |BatchOf(mailbox)| <= i
  {
    hide RowSize;
    OversizeStops(mailbox, MAX_SIZE, i);
  }

  // --------------------------------------------------------------- responses

  lemma {:induction false} BatchMessagesSize(rows: seq<Row>)
    requires FullKeys(rows) && TotalSize(rows) < MAX_SIZE
    ensures MessagesSize(Messages(rows)) == TotalSize(rows) + 2 * |rows|
  {
    if rows != [] {
      RowSizeBounds(rows[0]);
      VarintSize64(RowSize(rows[0]));
      hide VarintSize, OfflineMessage.ByteSize;
      BatchMessagesSize(rows[1..]);
      assert Messages(rows)[1..] == Messages(rows[1..]);
    }
  }

  /** Every response fits in 1050 bytes although the loop counts neither the nested
      tags and lengths nor the count field. */
  lemma ResponseSize(rows: seq<Row>, left: uint32)
    requires FullKeys(rows) && TotalSize(rows) < MAX_SIZE
    ensures |EncodePullRes(PullRes(Messages(rows), left))| == PullRes(Messages(rows), left).ByteSize() <= 1050
  {
    hide RowSize, MessagesSize, EncodePullRes, TotalSize, VarintSize;
    BatchMessagesSize(rows);
    TotalAtLeast(rows);
    VarintSize64(left);
    PullResSizeExact(PullRes(Messages(rows), left));
  }
}
