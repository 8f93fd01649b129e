/**
 The chat server as a step machine: connects, disconnects and data in chunks
 of any size. Every decoded message is written to every member's connection.
 */
module ChatSpec {
  import opened Bytes
  import opened Framing

  type ConnId = nat

  /** The state of a muduo connection; only a connected one accepts bytes to send. */
  datatype Status = Connected | Disconnecting | Disconnected

  /** A connection as the server sees it: unread input, and every byte ever accepted for sending. */
  datatype Conn = Conn(status: Status, input: seq<Byte>, sent: seq<Byte>)

  /** One broadcast: who the message came from, and its bytes. */
  datatype Entry = Entry(from: ConnId, body: Message)

  /** `members` is the server's connection set; `log` records the broadcasts in order. */
  datatype State = State(members: set<ConnId>, net: map<ConnId, Conn>, log: seq<Entry>)

  datatype Event =
    | Connect(c: ConnId)
    | Data(c: ConnId, chunk: seq<Byte>)
    | Disconnect(c: ConnId)

  const INIT := State({}, map[], [])
  const FRESH := Conn(Connected, [], [])

  function Send(k: Conn, bytes: seq<Byte>): Conn {
    if k.status.Connected? then k.(sent := k.sent + bytes) else k
  }

  function Shutdown(k: Conn): Conn {
    if k.status.Connected? then k.(status := Disconnecting) else k
  }

  function Broadcast(s: State, from: ConnId, m: Message): State {
    State(s.members,
          map k | k in s.net :: if k in s.members then Send(s.net[k], Encode(m)) else s.net[k],
          s.log + [Entry(from, m)])
  }

  function BroadcastAll(s: State, from: ConnId, ms: seq<Message>): State {
    if ms == [] then s
    else Broadcast(BroadcastAll(s, from, ms[..|ms| - 1]), from, ms[|ms| - 1])
  }

  /** The whole effect of one chunk: broadcast what it completes, keep the rest, shut down on a bad header. */
  function Receive(s: State, c: ConnId, chunk: seq<Byte>): (s': State)
    requires c in s.net
  {
    var d := Decode(s.net[c].input + chunk);
    var after := BroadcastAll(s, c, d.messages);
    BroadcastKeeps(s, c, d.messages);
    var k := after.net[c].(input := d.rest);
    after.(net := after.net[c := if d.invalid then Shutdown(k) else k])
  }

  /** Events the network cannot produce (a reused or unknown connection) change nothing. */
  function Step(s: State, e: Event): State {
    match e
    case Connect(c) =>
      if c in s.net then s else State(s.members + {c}, s.net[c := FRESH], s.log)
    case Data(c, chunk) =>
      if c in s.net && !s.net[c].status.Disconnected? then Receive(s, c, chunk) else s
    case Disconnect(c) =>
      if c in s.net then State(s.members - {c}, s.net[c := s.net[c].(status := Disconnected)], s.log) else s
  }

  /** The server after the first j events of a run. */
  function At(t: seq<Event>, j: nat): State
    requires j <= |t|
  {
    if j == 0 then INIT else Step(At(t, j - 1), t[j - 1])
  }

  predicate Live(s: State, c: ConnId) {
    c in s.net && s.net[c].status.Connected?
  }

  function Bodies(log: seq<Entry>): seq<Message> {
    if log == [] then [] else Bodies(log[..|log| - 1]) + [log[|log| - 1].body]
  }

  /** The messages in the log that came from c. */
  function From(log: seq<Entry>, c: ConnId): seq<Message> {
    if log == [] then []
    else From(log[..|log| - 1], c) + if log[|log| - 1].from == c then [log[|log| - 1].body] else []
  }

  function Entries(from: ConnId, ms: seq<Message>): seq<Entry> {
    seq(|ms|, i requires 0 <= i < |ms| => Entry(from, ms[i]))
  }

  // ------------------------------------------------------------- invariant

  /** The connection set is exactly the connections not yet down, and every logged message fits a frame. */
  ghost predicate Inv(s: State) {
    && (forall c :: c in s.members <==> c in s.net && !s.net[c].status.Disconnected?)
    && (forall i :: 0 <= i < |s.log| ==> |s.log[i].body| <= MAX_LENGTH)
  }

  // -------------------------------------------------------- append lemmas

  lemma {:induction false} EncodeAllAppend(a: seq<Message>, b: seq<Message>)
    ensures EncodeAll(a + b) == EncodeAll(a) + EncodeAll(b)
  {
    if a == [] {
      assert a + b == b;
    } else {
      EncodeAllAppend(a[1..], b);
      assert (a + b)[1..] == a[1..] + b;
      Assoc(Encode(a[0]), EncodeAll(a[1..]), EncodeAll(b));
    }
  }

  lemma EncodeAllSnoc(a: seq<Message>, m: Message)
    ensures EncodeAll(a + [m]) == EncodeAll(a) + Encode(m)
  {
    EncodeAllAppend(a, [m]);
    assert [m][1..] == [];
    assert EncodeAll([m]) == Encode(m) + [];
  }

  lemma {:induction false} BodiesAppend(a: seq<Entry>, b: seq<Entry>)
    ensures Bodies(a + b) == Bodies(a) + Bodies(b)
  {
    if b == [] {
      assert a + b == a;
    } else {
      var front := b[..|b| - 1];
      BodiesAppend(a, front);
      assert (a + b)[..|a + b| - 1] == a + front;
      Assoc(Bodies(a), Bodies(front), [b[|b| - 1].body]);
    }
  }

  lemma {:induction false} BodiesAt(log: seq<Entry>)
    ensures |Bodies(log)| == |log|
    ensures forall i :: 0 <= i < |log| ==> Bodies(log)[i] == log[i].body
  {
    if log != [] {
      BodiesAt(log[..|log| - 1]);
    }
  }

  lemma {:induction false} EntriesOf(from: ConnId, ms: seq<Message>, c: ConnId)
    ensures Bodies(Entries(from, ms)) == ms
    ensures From(Entries(from, ms), c) == if c == from then ms else []
  {
    if ms == [] {
    } else {
      var front, e := ms[..|ms| - 1], Entries(from, ms);
      EntriesOf(from, front, c);
      assert e[..|e| - 1] == Entries(from, front);
      assert front + [ms[|ms| - 1]] == ms;
    }
  }

  lemma {:induction false} FromAppend(a: seq<Entry>, b: seq<Entry>, c: ConnId)
    ensures From(a + b, c) == From(a, c) + From(b, c)
  {
    if b == [] {
      assert a + b == a;
    } else {
      var front := b[..|b| - 1];
      FromAppend(a, front, c);
      assert (a + b)[..|a + b| - 1] == a + front;
      var last := if b[|b| - 1].from == c then [b[|b| - 1].body] else [];
      Assoc(From(a, c), From(front, c), last);
    }
  }

  // ------------------------------------------------- one step of the server

  /** A broadcast leaves inputs and statuses alone. */
  lemma {:induction false} BroadcastKeeps(s: State, from: ConnId, ms: seq<Message>)
    ensures var s' := BroadcastAll(s, from, ms);
      && s'.members == s.members
      && s'.net.Keys == s.net.Keys
      && forall k :: k in s.net ==> s'.net[k].status == s.net[k].status && s'.net[k].input == s.net[k].input
  {
    if ms != [] {
      BroadcastKeeps(s, from, ms[..|ms| - 1]);
    }
  }

  /** Exactly the live members receive the encoded messages; the log grows by them, tagged. */
  lemma {:induction false} BroadcastSends(s: State, from: ConnId, ms: seq<Message>)
    requires Inv(s)
    ensures var s' := BroadcastAll(s, from, ms);
      && s'.log == s.log + Entries(from, ms)
      && s'.net.Keys == s.net.Keys
      && forall k :: k in s.net ==> s'.net[k].sent == s.net[k].sent + if Live(s, k) then EncodeAll(ms) else []
  {
    if ms != [] {
      var front, m := ms[..|ms| - 1], ms[|ms| - 1];
      BroadcastSends(s, from, front);
      BroadcastKeeps(s, from, front);
      assert front + [m] == ms;
      EncodeAllSnoc(front, m);
      assert Entries(from, ms) == Entries(from, front) + [Entry(from, m)];
      Assoc(s.log, Entries(from, front), [Entry(from, m)]);
      forall k | k in s.net && Live(s, k)
        ensures BroadcastAll(s, from, ms).net[k].sent == s.net[k].sent + EncodeAll(ms)
      {
        Assoc(s.net[k].sent, EncodeAll(front), Encode(m));
      }
    }
  }

  lemma BroadcastFrom(s: State, from: ConnId, ms: seq<Message>, c: ConnId)
    requires Inv(s)
    ensures From(BroadcastAll(s, from, ms).log, c) == if c == from then From(s.log, c) + ms else From(s.log, c)
  {
    BroadcastSends(s, from, ms);
    FromAppend(s.log, Entries(from, ms), c);
    EntriesOf(from, ms, c);
    assert From(s.log, c) + [] == From(s.log, c);
  }

  lemma StepInv(s: State, e: Event)
    requires Inv(s)
    ensures Inv(Step(s, e))
  {
    if e.Data? && e.c in s.net && !s.net[e.c].status.Disconnected? {
      var d := Decode(s.net[e.c].input + e.chunk);
      DecodeSound(s.net[e.c].input + e.chunk);
      BroadcastKeeps(s, e.c, d.messages);
      BroadcastSends(s, e.c, d.messages);
    }
  }

  lemma {:induction false} RunInv(t: seq<Event>, j: nat)
    requires j <= |t|
    ensures Inv(At(t, j))
  {
    if j > 0 {
      RunInv(t, j - 1);
      StepInv(At(t, j - 1), t[j - 1]);
    }
  }

  /** Between two states the log grew, and c was sent exactly the new broadcasts if it was connected before. */
  ghost predicate Sends(s: State, s': State, c: ConnId) {
    && s.log <= s'.log
    && c in s.net && c in s'.net
    && s'.net[c].sent == s.net[c].sent + (if Live(s, c) then EncodeAll(Bodies(s'.log[|s.log|..])) else [])
    && (Live(s', c) ==> Live(s, c))
  }

  lemma StepSends(s: State, e: Event, c: ConnId)
    requires Inv(s) && c in s.net
    ensures Sends(s, Step(s, e), c)
  {
    var s' := Step(s, e);
    if e.Data? && e.c in s.net && !s.net[e.c].status.Disconnected? {
      var d := Decode(s.net[e.c].input + e.chunk);
      BroadcastKeeps(s, e.c, d.messages);
      BroadcastSends(s, e.c, d.messages);
      EntriesOf(e.c, d.messages, c);
      assert s'.log[|s.log|..] == Entries(e.c, d.messages);
    } else {
      assert s'.log[|s.log|..] == [];
    }
  }
}
