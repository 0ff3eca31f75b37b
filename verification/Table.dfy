/** The table of stored messages and what each SQL statement does to it. */
module Table {
  import opened Wire
  import opened Proto

  const KEY_SIZE: nat := 64
  const MAX_CONTENT: nat := 2048

  /** A public key as the server writes it: 64 upper-case hexadecimal digits. */
  type Key = b: Bytes | |b| == KEY_SIZE witness seq(KEY_SIZE, _ => 48)

  datatype Row = Row(
    id: uint64, localMsgId: uint64, frPk: Bytes, toPk: Bytes, content: Bytes, createTime: uint64)
  {
    /** What the column types allow; the sender's key is always a full key. */
    predicate Valid() {
      && 0 < id < TWO_63 && localMsgId < TWO_63 && createTime < TWO_63
      && |frPk| == KEY_SIZE && |toPk| <= KEY_SIZE && |content| <= MAX_CONTENT
    }
  }

  /** Rows in id order, and the next AUTO_INCREMENT value. */
  datatype Table = Table(rows: seq<Row>, nextId: nat)

  predicate Increasing(rows: seq<Row>) {
    forall i, j :: 0 <= i < j < |rows| ==> rows[i].id < rows[j].id
  }

  predicate DistinctLocalIds(rows: seq<Row>) {
    forall i, j :: 0 <= i < j < |rows| ==> rows[i].localMsgId != rows[j].localMsgId
  }

  predicate ValidTable(t: Table) {
    && 0 < t.nextId
    && (forall i :: 0 <= i < |t.rows| ==> t.rows[i].Valid() && t.rows[i].id < t.nextId)
    && Increasing(t.rows)
    && DistinctLocalIds(t.rows)
  }

  // -------------------------------------------------------------- statements

  predicate LocalIdTaken(t: Table, localMsgId: nat) {
    exists i :: 0 <= i < |t.rows| && t.rows[i].localMsgId == localMsgId
  }

  /** The column constraints, the unique key and the supply of ids; `skip` ids are lost
      to earlier failed statements. Numbers are bound as signed 64-bit integers to
      unsigned columns. */
  predicate Accepts(t: Table, toPk: Bytes, content: Bytes, localMsgId: uint64, createTime: uint64, skip: nat) {
    && |toPk| <= KEY_SIZE && |content| <= MAX_CONTENT
    && localMsgId < TWO_63 && createTime < TWO_63
    && !LocalIdTaken(t, localMsgId)
    && t.nextId + skip < TWO_63
  }

  /** INSERT; a violated constraint raises and stores nothing. */
  function Insert(
    t: Table, frPk: Key, toPk: Bytes, content: Bytes, localMsgId: uint64, createTime: uint64, skip: nat): Table
  {
    if Accepts(t, toPk, content, localMsgId, createTime, skip) then
      var id := t.nextId + skip;
      Table(t.rows + [Row(id, localMsgId, frPk, toPk, content, createTime)], id + 1)
    else t.(nextId := t.nextId + skip)
  }

  /** The rows addressed to `pk`, in id order. */
  function Mailbox(rows: seq<Row>, pk: Bytes): (m: seq<Row>)
    ensures |m| <= |rows|
  {
    if rows == [] then []
    else
      var r := rows[|rows| - 1];
      Mailbox(rows[..|rows| - 1], pk) + if r.toPk == pk then [r] else []
  }

  predicate Doomed(r: Row, pk: Bytes, cut: int) {
    r.toPk == pk && r.id <= cut
  }

  /** What DELETE ... id <= cut AND to_pk = pk leaves. */
  function Spared(rows: seq<Row>, pk: Bytes, cut: int): (s: seq<Row>)
    ensures |s| <= |rows|
  {
    if rows == [] then []
    else
      var r := rows[|rows| - 1];
      Spared(rows[..|rows| - 1], pk, cut) + if Doomed(r, pk, cut) then [] else [r]
  }

  /** The id is bound as a signed integer, so 2^63 and above delete nothing. */
  function Delete(t: Table, pk: Bytes, lastMsgId: uint64): Table {
    t.(rows := Spared(t.rows, pk, ToI64(lastMsgId)))
  }

  /** SELECT id ... ORDER BY id DESC LIMIT 1, zero if there is none. */
  function LatestId(rows: seq<Row>, pk: Bytes): uint64 {
    var m := Mailbox(rows, pk);
    if m == [] then 0 else m[|m| - 1].id
  }

  // -------------------------------------------------------------- properties

  /** Two sequences in id order with the same rows are equal. */
  lemma {:induction false} IncreasingUnique(a: seq<Row>, b: seq<Row>)
    requires Increasing(a) && Increasing(b)
    requires forall r :: r in a <==> r in b
    ensures a == b
    decreases |a|
  {
    hide Increasing;
    assert a == [] <==> b == [] by {
      assert a != [] ==> a[0] in a;
      assert b != [] ==> b[0] in b;
    }
    if a != [] {
      var x, y := a[|a| - 1], b[|b| - 1];
      var a', b' := a[..|a| - 1], b[..|b| - 1];
      LastIsGreatest(a, y);
      LastIsGreatest(b, x);
      assert x == y;
      forall r
        ensures r in a' <==> r in b'
      {
        assert r in a <==> r in a' || r == x;
        assert r in b <==> r in b' || r == y;
      }
      IncreasingUnique(a', b');
    }
  }

  lemma LastIsGreatest(a: seq<Row>, r: Row)
    requires a != [] && Increasing(a)
    ensures a[|a| - 1] in a && a[|a| - 1] !in a[..|a| - 1]
    ensures a == a[..|a| - 1] + [a[|a| - 1]]
    ensures Increasing(a[..|a| - 1])
    ensures r in a ==> r.id <= a[|a| - 1].id
    ensures r in a && r.id == a[|a| - 1].id ==> r == a[|a| - 1]
  {
  }

  lemma {:induction false} MailboxMembers(rows: seq<Row>, pk: Bytes)
    ensures forall r :: r in Mailbox(rows, pk) <==> r in rows && r.toPk == pk
  {
    if rows != [] {
      var front, r := rows[..|rows| - 1], rows[|rows| - 1];
      MailboxMembers(front, pk);
      assert rows == front + [r];
    }
  }

  lemma {:induction false} MailboxIncreasing(rows: seq<Row>, pk: Bytes)
    requires Increasing(rows)
    ensures Increasing(Mailbox(rows, pk))
  {
    if rows != [] {
      var front := rows[..|rows| - 1];
      MailboxIncreasing(front, pk);
      MailboxMembers(front, pk);
      var m := Mailbox(front, pk);
      forall i | 0 <= i < |m|
        ensures m[i].id < rows[|rows| - 1].id
      {
        assert m[i] in front;
      }
    }
  }

  lemma {:induction false} SparedMembers(rows: seq<Row>, pk: Bytes, cut: int)
    ensures forall r :: r in Spared(rows, pk, cut) <==> r in rows && !Doomed(r, pk, cut)
  {
    if rows != [] {
      var front, r := rows[..|rows| - 1], rows[|rows| - 1];
      SparedMembers(front, pk, cut);
      assert rows == front + [r];
    }
  }

  lemma {:induction false} SparedIncreasing(rows: seq<Row>, pk: Bytes, cut: int)
    requires Increasing(rows)
    ensures Increasing(Spared(rows, pk, cut))
  {
    if rows != [] {
      var front := rows[..|rows| - 1];
      SparedIncreasing(front, pk, cut);
      SparedMembers(front, pk, cut);
      var s := Spared(front, pk, cut);
      forall i | 0 <= i < |s|
        ensures s[i].id < rows[|rows| - 1].id
      {
        assert s[i] in front;
      }
    }
  }

  lemma {:induction false} SparedDistinct(rows: seq<Row>, pk: Bytes, cut: int)
    requires DistinctLocalIds(rows)
    ensures DistinctLocalIds(Spared(rows, pk, cut))
  {
    if rows != [] {
      var front := rows[..|rows| - 1];
      SparedDistinct(front, pk, cut);
      SparedMembers(front, pk, cut);
      var s := Spared(front, pk, cut);
      forall i | 0 <= i < |s|
        ensures s[i].localMsgId != rows[|rows| - 1].localMsgId
      {
        assert s[i] in front;
      }
    }
  }

  /** Every statement keeps the table in id order with ids and local ids unique. */
  lemma InsertValid(t: Table, frPk: Key, toPk: Bytes, content: Bytes, localMsgId: uint64, createTime: uint64, skip: nat)
    requires ValidTable(t)
    ensures ValidTable(Insert(t, frPk, toPk, content, localMsgId, createTime, skip))
  {
  }

  /** The table accepts a row exactly when the recipient has at most 64 bytes, the content
      at most 2048, the numbers and the id fit signed 64 bits and no row has the local id. */
  lemma AcceptsExact(t: Table, toPk: Bytes, content: Bytes, localMsgId: uint64, createTime: uint64, skip: nat)
    ensures Accepts(t, toPk, content, localMsgId, createTime, skip) <==>
            && |toPk| <= 64 && |content| <= 2048
            && localMsgId < 0x8000_0000_0000_0000 && createTime < 0x8000_0000_0000_0000
            && t.nextId + skip < 0x8000_0000_0000_0000
            && forall r :: r in t.rows ==> r.localMsgId != localMsgId
  {
    if LocalIdTaken(t, localMsgId) {
      var i :| 0 <= i < |t.rows| && t.rows[i].localMsgId == localMsgId;
      assert t.rows[i] in t.rows;
    }
  }

  /** Then it stores it under the next id that is not lost; otherwise it stores nothing. */
  lemma InsertExact(
    t: Table, frPk: Key, toPk: Bytes, content: Bytes, localMsgId: uint64, createTime: uint64, skip: nat)
    ensures Insert(t, frPk, toPk, content, localMsgId, createTime, skip) ==
            if |toPk| <= 64 && |content| <= 2048
               && localMsgId < 0x8000_0000_0000_0000 && createTime < 0x8000_0000_0000_0000
               && t.nextId + skip < 0x8000_0000_0000_0000
               && forall r :: r in t.rows ==> r.localMsgId != localMsgId
            then Table(t.rows + [Row(t.nextId + skip, localMsgId, frPk, toPk, content, createTime)],
                       t.nextId + skip + 1)
            else Table(t.rows, t.nextId + skip)
  {
    AcceptsExact(t, toPk, content, localMsgId, createTime, skip);
  }

  /** A delete takes exactly the rows of the key up to the id, if that is below 2^63, and
      keeps the others in order. */
  lemma DeleteExact(t: Table, pk: Bytes, lastMsgId: uint64)
    requires ValidTable(t)
    ensures var u := Delete(t, pk, lastMsgId);
            && u.nextId == t.nextId && Increasing(u.rows)
            && forall r :: r in u.rows <==>
                 r in t.rows && !(r.toPk == pk && r.id <= lastMsgId && lastMsgId < 0x8000_0000_0000_0000)
  {
    SparedMembers(t.rows, pk, ToI64(lastMsgId));
    SparedIncreasing(t.rows, pk, ToI64(lastMsgId));
    forall r | r in t.rows
      ensures r.id > 0
    {
      assert r.Valid();
    }
  }

  /** A mailbox holds exactly the rows of its key, in order. */
  lemma MailboxExact(t: Table, pk: Bytes)
    requires ValidTable(t)
    ensures Increasing(Mailbox(t.rows, pk))
    ensures forall r :: r in Mailbox(t.rows, pk) <==> r in t.rows && r.toPk == pk
  {
    MailboxMembers(t.rows, pk);
    MailboxIncreasing(t.rows, pk);
  }

  lemma DeleteValid(t: Table, pk: Bytes, lastMsgId: uint64)
    requires ValidTable(t)
    ensures ValidTable(Delete(t, pk, lastMsgId))
  {
    SparedIncreasing(t.rows, pk, ToI64(lastMsgId));
    SparedDistinct(t.rows, pk, ToI64(lastMsgId));
    SparedMembers(t.rows, pk, ToI64(lastMsgId));
    var s := Spared(t.rows, pk, ToI64(lastMsgId));
    forall i | 0 <= i < |s|
      ensures s[i].Valid() && s[i].id < t.nextId
    {
      assert s[i] in t.rows;
    }
  }

  /** A delete takes a prefix off the mailbox and leaves other mailboxes alone. */
  lemma DeleteTakesPrefix(rows: seq<Row>, pk: Bytes, cut: int, k: nat)
    requires Increasing(rows)
    requires k <= |Mailbox(rows, pk)|
    requires forall i :: 0 <= i < |Mailbox(rows, pk)| ==> (Mailbox(rows, pk)[i].id <= cut <==> i < k)
    ensures Mailbox(Spared(rows, pk, cut), pk) == Mailbox(rows, pk)[k..]
  {
    hide Mailbox, Spared;
    var m, m' := Mailbox(rows, pk), Mailbox(Spared(rows, pk, cut), pk);
    MailboxMembers(rows, pk);
    MailboxIncreasing(rows, pk);
    SparedMembers(rows, pk, cut);
    SparedIncreasing(rows, pk, cut);
    MailboxMembers(Spared(rows, pk, cut), pk);
    MailboxIncreasing(Spared(rows, pk, cut), pk);
    forall r
      ensures r in m' <==> r in m[k..]
    {
      assert r in m' <==> r in m && r.id > cut;
      if r in m {
        var i :| 0 <= i < |m| && m[i] == r;
        if i >= k { assert m[k..][i - k] == r; }
      }
    }
    IncreasingUnique(m', m[k..]);
  }

  /** Deleting up to the last id of a prefix of the mailbox takes exactly that prefix. */
  lemma DeletePrefix(rows: seq<Row>, pk: Bytes, sent: seq<Row>)
    requires Increasing(rows)
    requires sent != [] && sent <= Mailbox(rows, pk)
    ensures sent + Mailbox(Spared(rows, pk, sent[|sent| - 1].id), pk) == Mailbox(rows, pk)
  {
    var m, n := Mailbox(rows, pk), |sent|;
    MailboxIncreasing(rows, pk);
    hide Mailbox, Spared;
    assert sent == m[..n] && sent[n - 1] == m[n - 1];
    DeleteTakesPrefix(rows, pk, sent[n - 1].id, n);
  }

  lemma DeleteSparesOthers(rows: seq<Row>, pk: Bytes, cut: int, other: Bytes)
    requires Increasing(rows) && other != pk
    ensures Mailbox(Spared(rows, pk, cut), other) == Mailbox(rows, other)
  {
    hide Mailbox, Spared;
    MailboxMembers(rows, other);
    MailboxIncreasing(rows, other);
    SparedMembers(rows, pk, cut);
    SparedIncreasing(rows, pk, cut);
    MailboxMembers(Spared(rows, pk, cut), other);
    MailboxIncreasing(Spared(rows, pk, cut), other);
    IncreasingUnique(Mailbox(Spared(rows, pk, cut), other), Mailbox(rows, other));
  }

  lemma MailboxAppend(rows: seq<Row>, r: Row, pk: Bytes)
    ensures Mailbox(rows + [r], pk) == Mailbox(rows, pk) + if r.toPk == pk then [r] else []
  {
    assert (rows + [r])[..|rows|] == rows;
  }

  lemma SparedAppend(rows: seq<Row>, r: Row, pk: Bytes, cut: int)
    ensures Spared(rows + [r], pk, cut) == Spared(rows, pk, cut) + if Doomed(r, pk, cut) then [] else [r]
  {
    assert (rows + [r])[..|rows|] == rows;
  }

  /** The latest id is the greatest of the mailbox, and zero exactly when it is empty. */
  lemma LatestIdIsMax(t: Table, pk: Bytes)
    requires ValidTable(t)
    ensures LatestId(t.rows, pk) == 0 <==> forall r :: r in t.rows ==> r.toPk != pk
    ensures forall r :: r in t.rows && r.toPk == pk ==> r.id <= LatestId(t.rows, pk)
    ensures LatestId(t.rows, pk) != 0 ==> exists r :: r in t.rows && r.toPk == pk && r.id == LatestId(t.rows, pk)
    ensures LatestId(t.rows, pk) < t.nextId
  {
    MailboxMembers(t.rows, pk);
    MailboxIncreasing(t.rows, pk);
    hide Mailbox, DistinctLocalIds;
    var m := Mailbox(t.rows, pk);
    if m != [] {
      var last := m[|m| - 1];
      assert last in m && last in t.rows && last.Valid();
      forall r | r in m
        ensures r.id <= last.id
      {
        LastIsGreatest(m, r);
      }
    }
  }
}
