/** Whole runs: friends, a network that may lose, duplicate and reorder packets in both
    directions, the server, and SQL statements that may raise at any time. */
module Protocol {
  import opened Wire
  import opened ProtoRequests
  import opened Table
  import opened Batch
  import opened Handlers
  import P = Proto

  /** A client remembers the highest message id it accepted, and what it accepted. */
  datatype Client = Client(hwm: uint64, seen: seq<P.OfflineMessage>)

  /** A packet the server sent, with the rows it was built from (history). */
  datatype Response = Response(packet: Packet, rows: seq<Row>)

  /** `log` is every row ever stored (history). Nothing leaves `requests` or `responses`:
      a packet may be taken from them never, once or many times, in any order. */
  datatype State = State(
    table: Table, log: seq<Row>,
    requests: set<Packet>, responses: seq<Response>,
    clients: map<Key, Client>)

  datatype Step =
    | FriendSends(p: Packet)
    | ServerHandles(p: Packet, env: Env)
    | FriendConnects(pk: Key, env: Env)
    | FriendReceives(r: Response)

  function ClientOf(s: State, k: Key): Client {
    if k in s.clients then s.clients[k] else Client(0, [])
  }

  predicate Init(s: State) {
    s == State(Table([], 1), [], {}, [], map[])
  }

  /** A client accepts a message only above its high-water mark. */
  function Absorb(c: Client, ms: seq<P.OfflineMessage>): Client
    decreases |ms|
  {
    if ms == [] then c
    else if ms[0].msgId > c.hwm then Absorb(Client(ms[0].msgId, c.seen + [ms[0]]), ms[1..])
    else Absorb(c, ms[1..])
  }

  function Receive(c: Client, bytes: Bytes): Client {
    match P.ParsePullRes(bytes)
    case None => c
    case Some(res) => Absorb(c, res.msgs)
  }

  /** A delete request that does not reach beyond what the client accepted. */
  predicate DeletesOnlySeen(bytes: Bytes, hwm: uint64) {
    ParseDelReq(bytes).Some? ==> ToI64(ParseDelReq(bytes).value.lastMsgId) <= hwm
  }

  /** Honest friends acknowledge only what they accepted; others send any bytes. */
  predicate Enabled(honest: set<Key>, s: State, step: Step) {
    match step
    case FriendSends(p) =>
      p.pk in honest && p.cmd == DelRequest ==> DeletesOnlySeen(p.bytes, ClientOf(s, p.pk).hwm)
    case ServerHandles(p, _) => p in s.requests
    case FriendConnects(_, _) => true
    case FriendReceives(r) => r in s.responses
  }

  /** The row a handler added, if it added one. */
  function Added(before: Table, after: Table): seq<Row> {
    if |before.rows| < |after.rows| then [after.rows[|after.rows| - 1]] else []
  }

  function SentRows(t: Table, p: Packet, env: Env): seq<Row> {
    if p.cmd == PullRequest then Sent(t, p.pk, env) else []
  }

  function WithRows(out: seq<Packet>, rows: seq<Row>): seq<Response> {
    seq(|out|, i requires 0 <= i < |out| => Response(out[i], rows))
  }

  function Perform(s: State, step: Step): State {
    match step
    case FriendSends(p) => s.(requests := s.requests + {p})
    case ServerHandles(p, env) =>
      var (t, out) := Handle(s.table, p, env);
      s.(table := t, log := s.log + Added(s.table, t),
         responses := s.responses + WithRows(out, SentRows(s.table, p, env)))
    case FriendConnects(pk, env) =>
      s.(responses := s.responses + WithRows(NoticeReply(s.table, pk, env), []))
    case FriendReceives(r) =>
      if r.packet.cmd != PullResponse then s
      else s.(clients := s.clients[r.packet.pk := Receive(ClientOf(s, r.packet.pk), r.packet.bytes)])
  }

  ghost predicate Run(honest: set<Key>, states: seq<State>, steps: seq<Step>) {
    && |states| == |steps| + 1
    && Init(states[0])
    && forall i :: 0 <= i < |steps| ==>
         Enabled(honest, states[i], steps[i]) && states[i + 1] == Perform(states[i], steps[i])
  }

  lemma RunStart(honest: set<Key>, states: seq<State>, steps: seq<Step>)
    requires Run(honest, states, steps)
    ensures |states| == |steps| + 1 && Init(states[0])
  {
  }

  lemma RunAt(honest: set<Key>, states: seq<State>, steps: seq<Step>, i: nat)
    requires Run(honest, states, steps) && i < |steps|
    ensures i + 1 < |states| && states[i + 1] == Perform(states[i], steps[i])
    ensures Enabled(honest, states[i], steps[i])
  {
  }

  // ------------------------------------------------------------- the invariant

  /** How many leading rows have ids up to `h`. */
  function SeenCount(rows: seq<Row>, h: uint64): (n: nat)
    ensures n <= |rows|
  {
    if rows == [] then 0
    else if rows[|rows| - 1].id <= h then |rows|
    else SeenCount(rows[..|rows| - 1], h)
  }

  predicate LogHolds(t: Table, log: seq<Row>) {
    && ValidTable(t)
    && Increasing(log)
    && (forall r :: r in log ==> r.Valid() && r.id < t.nextId)
    && (forall r :: r in t.rows ==> r in log)
  }

  /** What is gone from the table was accepted by its client. */
  ghost predicate GoneIsSeen(t: Table, log: seq<Row>, k: Key, hwm: uint64) {
    forall r :: r in log && r.toPk == k && r !in t.rows ==> r.id <= hwm
  }

  /** Up to its last id a response carries everything its client has not accepted. */
  ghost predicate Complete(log: seq<Row>, rows: seq<Row>, k: Key, hwm: uint64) {
    && Increasing(rows)
    && (forall r :: r in rows ==> r in log && r.toPk == k)
    && (rows != [] ==>
          forall r :: r in log && r.toPk == k && r.id <= rows[|rows| - 1].id ==> r in rows || r.id <= hwm)
  }

  predicate Carries(r: Response) {
    match P.ParsePullRes(r.packet.bytes)
    case None => false
    case Some(res) => res.msgs == Messages(r.rows)
  }

  ghost predicate ResponsesHold(s: State, k: Key) {
    forall r :: r in s.responses && r.packet.pk == k && r.packet.cmd == PullResponse ==>
      Carries(r) && Complete(s.log, r.rows, k, ClientOf(s, k).hwm)
  }

  ghost predicate RequestsHold(s: State, k: Key) {
    forall p :: p in s.requests && p.pk == k && p.cmd == DelRequest ==>
      DeletesOnlySeen(p.bytes, ClientOf(s, k).hwm)
  }

  /** The client's transcript is the part of the log up to its high-water mark. */
  predicate Transcript(log: seq<Row>, k: Key, c: Client) {
    var m := Mailbox(log, k);
    c.seen == Messages(m[..SeenCount(m, c.hwm)])
  }

  ghost predicate Inv(s: State, k: Key) {
    && LogHolds(s.table, s.log)
    && GoneIsSeen(s.table, s.log, k, ClientOf(s, k).hwm)
    && RequestsHold(s, k)
    && ResponsesHold(s, k)
    && Transcript(s.log, k, ClientOf(s, k))
    && ClientOf(s, k).hwm < s.table.nextId
  }

  // --------------------------------------------------------------- small lemmas

  lemma {:induction false} SeenCountSplits(rows: seq<Row>, h: uint64)
    requires Increasing(rows)
    ensures forall i :: 0 <= i < |rows| ==> (rows[i].id <= h <==> i < SeenCount(rows, h))
  {
    if rows != [] && rows[|rows| - 1].id > h {
      var front := rows[..|rows| - 1];
      SeenCountSplits(front, h);
      assert forall i :: 0 <= i < |front| ==> front[i] == rows[i];
    }
  }

  lemma SeenCountIs(rows: seq<Row>, h: uint64, n: nat)
    requires Increasing(rows) && n <= |rows|
    requires n > 0 ==> rows[n - 1].id <= h
    requires n < |rows| ==> rows[n].id > h
    ensures SeenCount(rows, h) == n
  {
    SeenCountSplits(rows, h);
  }

  lemma SeenCountAt(rows: seq<Row>, n: nat)
    requires Increasing(rows) && n < |rows|
    ensures SeenCount(rows, rows[n].id) == n + 1
  {
    hide SeenCount;
    SeenCountIs(rows, rows[n].id, n + 1);
  }

  lemma MessagesAppend(rows: seq<Row>, r: Row)
    ensures Messages(rows + [r]) == Messages(rows) + [RowMessage(r)]
  {
  }

  /** Receiving a complete response moves the transcript along the log. */
  lemma {:induction false} AbsorbComplete(log: seq<Row>, k: Key, rows: seq<Row>, c: Client)
    requires Increasing(log) && Transcript(log, k, c)
    requires Complete(log, rows, k, c.hwm)
    ensures var c' := Absorb(c, Messages(rows));
            && Transcript(log, k, c')
            && c'.hwm == if rows != [] && rows[|rows| - 1].id > c.hwm then rows[|rows| - 1].id else c.hwm
    decreases |rows|
  {
    if rows != [] {
      var b, rest := rows[0], rows[1..];
      assert Messages(rows)[1..] == Messages(rest);
      if b.id > c.hwm {
        NextInLog(log, k, rows, c);
        var c' := Client(b.id, c.seen + [RowMessage(b)]);
        CompleteRest(log, k, rows, c.hwm, b.id);
        AbsorbComplete(log, k, rest, c');
      } else {
        CompleteRest(log, k, rows, c.hwm, c.hwm);
        AbsorbComplete(log, k, rest, c);
      }
    }
  }

  lemma CompleteRest(log: seq<Row>, k: Key, rows: seq<Row>, h: uint64, h': uint64)
    requires Complete(log, rows, k, h) && rows != []
    requires h <= h' && rows[0].id <= h'
    ensures Complete(log, rows[1..], k, h')
  {
    var rest := rows[1..];
    assert forall r :: r in rows <==> r == rows[0] || r in rest;
    assert rest != [] ==> rest[|rest| - 1] == rows[|rows| - 1];
  }

  /** The first new row of a complete response is the next row of the log. */
  lemma NextInLog(log: seq<Row>, k: Key, rows: seq<Row>, c: Client)
    requires Increasing(log) && Transcript(log, k, c)
    requires Complete(log, rows, k, c.hwm) && rows != [] && rows[0].id > c.hwm
    ensures Transcript(log, k, Client(rows[0].id, c.seen + [RowMessage(rows[0])]))
  {
    var m, b, h := Mailbox(log, k), rows[0], c.hwm;
    MailboxMembers(log, k);
    MailboxIncreasing(log, k);
    SeenCountSplits(m, h);
    hide Mailbox, SeenCount, Increasing;
    var n := SeenCount(m, h);
    forall i | 0 <= i < |m|
      ensures m[i].id <= rows[|rows| - 1].id ==> m[i] in rows || m[i].id <= h
    {
      assert m[i] in m;
    }
    assert n < |m| by { var j :| 0 <= j < |m| && m[j] == b; }
    NextRow(m, rows, h, n);
    hide Messages, RowMessage, Complete;
    TranscriptGrows(m, n, b);
  }

  lemma TranscriptGrows(m: seq<Row>, n: nat, b: Row)
    requires Increasing(m) && n < |m| && m[n] == b
    ensures Messages(m[..SeenCount(m, b.id)]) == Messages(m[..n]) + [RowMessage(b)]
  {
    hide *;
    SeenCountAt(m, n);
    assert m[..n + 1] == m[..n] + [b];
    MessagesAppend(m[..n], b);
  }

  lemma NextRow(m: seq<Row>, rows: seq<Row>, h: uint64, n: nat)
    requires Increasing(m) && Increasing(rows)
    requires rows != [] && rows[0].id > h && rows[0] in m && n < |m|
    requires forall i :: 0 <= i < |m| ==> (m[i].id <= h <==> i < n)
    requires forall i :: 0 <= i < |m| && m[i].id <= rows[|rows| - 1].id ==> m[i] in rows || m[i].id <= h
    ensures m[n] == rows[0]
  {
    var j :| 0 <= j < |m| && m[j] == rows[0];
    assert n <= j && m[n] in rows;
  }
}
