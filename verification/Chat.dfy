/** The chat server and the chat client, updating their state in place as the C++ classes do. */
module Chat {
  import opened Bytes
  import opened Framing
  import opened ChatSpec

  function SetInput(s: State, c: ConnId, b: seq<Byte>): State
    requires c in s.net
  {
    s.(net := s.net[c := s.net[c].(input := b)])
  }

  /** Broadcasting does not look at unread input. */
  lemma {:induction false} BroadcastIgnoresInput(s: State, c: ConnId, b: seq<Byte>, from: ConnId, ms: seq<Message>)
    requires c in s.net
    ensures c in BroadcastAll(s, from, ms).net
    ensures BroadcastAll(SetInput(s, c, b), from, ms) == SetInput(BroadcastAll(s, from, ms), c, b)
  {
    if ms != [] {
      BroadcastIgnoresInput(s, c, b, from, ms[..|ms| - 1]);
    }
  }

  /** Receiving a chunk is appending it to the input and draining that. */
  lemma ReceiveIsDrain(s: State, c: ConnId, chunk: seq<Byte>)
    requires c in s.net
    ensures Receive(SetInput(s, c, s.net[c].input + chunk), c, []) == Receive(s, c, chunk)
  {
    var b := s.net[c].input + chunk;
    assert b + [] == b;
    BroadcastIgnoresInput(s, c, b, c, Decode(b).messages);
  }

  /** Taking one whole frame off the unread bytes is one step of `Decode`. */
  lemma DecodeNext(input: seq<Byte>, done: seq<Message>, unread: seq<Byte>)
    requires Decode(input) == Prepend(done, Decode(unread)) && WholeFrame(unread)
    ensures var end := SignedLength(unread) + HEADER;
      Decode(input) == Prepend(done + [unread[HEADER..end]], Decode(unread[end..]))
  {
    var end := SignedLength(unread) + HEADER;
    Assoc(done, [unread[HEADER..end]], Decode(unread[end..]).messages);
  }

  /** With no whole frame left the loop has delivered everything. */
  lemma DecodeDone(input: seq<Byte>, done: seq<Message>, unread: seq<Byte>)
    requires Decode(input) == Prepend(done, Decode(unread)) && !WholeFrame(unread)
    ensures Decode(input) == Decoded(done, unread, BadHeader(unread))
  {
    assert done + [] == done;
  }

  /** The server has broadcast `done`, taken from the front of c's input, and is otherwise as in s. */
  ghost predicate Draining(s: State, c: ConnId, done: seq<Message>, v: State) {
    && c in s.net && c in v.net && c in BroadcastAll(s, c, done).net
    && v == SetInput(BroadcastAll(s, c, done), c, v.net[c].input)
    && Decode(s.net[c].input) == Prepend(done, Decode(v.net[c].input))
  }

  lemma DrainStart(s: State, c: ConnId)
    requires c in s.net
    ensures Draining(s, c, [], s)
  {
    assert s.net == s.net[c := s.net[c].(input := s.net[c].input)];
    var d := Decode(s.net[c].input);
    assert [] + d.messages == d.messages;
  }

  /** The state after one whole frame: header dropped, message broadcast, body dropped. */
  function FrameDone(v: State, c: ConnId): State
    requires c in v.net && WholeFrame(v.net[c].input)
  {
    var b := v.net[c].input;
    var end := SignedLength(b) + HEADER;
    SetInput(Broadcast(SetInput(v, c, b[HEADER..]), c, b[HEADER..end]), c, b[end..])
  }

  lemma DrainNext(s: State, c: ConnId, done: seq<Message>, v: State)
    requires Draining(s, c, done, v) && WholeFrame(v.net[c].input)
    ensures Draining(s, c, done + [v.net[c].input[HEADER..SignedLength(v.net[c].input) + HEADER]], FrameDone(v, c))
  {
    var b := v.net[c].input;
    var end := SignedLength(b) + HEADER;
    var m := b[HEADER..end];
    BroadcastNext(s, c, done, m, v, b[HEADER..], b[end..]);
    var v' := FrameDone(v, c);
    assert v' == SetInput(BroadcastAll(s, c, done + [m]), c, b[end..]);
    assert v'.net[c].input == b[end..];
    DecodeNext(s.net[c].input, done, b);
  }

  /** Dropping input around a broadcast commutes with it. */
  lemma BroadcastNext(s: State, c: ConnId, done: seq<Message>, m: Message, v: State, b1: seq<Byte>, b2: seq<Byte>)
    requires c in BroadcastAll(s, c, done).net && c in v.net
    requires v == SetInput(BroadcastAll(s, c, done), c, v.net[c].input)
    ensures var v' := SetInput(Broadcast(SetInput(v, c, b1), c, m), c, b2);
      c in BroadcastAll(s, c, done + [m]).net && v' == SetInput(BroadcastAll(s, c, done + [m]), c, b2)
  {
    var u := BroadcastAll(s, c, done);
    assert (done + [m])[..|done|] == done;
    assert BroadcastAll(s, c, done + [m]) == Broadcast(u, c, m);
  }

  lemma DrainEnd(s: State, c: ConnId, done: seq<Message>, v: State)
    requires Draining(s, c, done, v) && !WholeFrame(v.net[c].input)
    ensures Receive(s, c, []) == if BadHeader(v.net[c].input) then v.(net := v.net[c := Shutdown(v.net[c])]) else v
  {
    assert s.net[c].input + [] == s.net[c].input;
    DecodeDone(s.net[c].input, done, v.net[c].input);
  }

  class ChatServer {
    /** `connections_` */
    var connections: set<ConnId>
    /** The connections as muduo keeps them: status, input buffer, and what was accepted for sending. */
    var net: map<ConnId, Conn>
    /** Every call of `send`, with the connection whose data caused it. */
    ghost var log: seq<Entry>

    ghost function View(): State
      reads this
    {
      State(connections, net, log)
    }

    constructor ()
      ensures View() == INIT
    {
      connections, net, log := {}, map[], [];
    }

    /** The connection callback. */
    method OnConnection(c: ConnId)
      requires c in net
      modifies this`connections
      ensures connections == if net[c].status.Connected? then old(connections) + {c} else old(connections) - {c}
    {
      if net[c].status.Connected? {
        connections := connections + {c};
      } else {
        connections := connections - {c};
      }
    }

    /** A new connection comes up. */
    method Up(c: ConnId)
      requires c !in net
      modifies this
      ensures View() == Step(old(View()), Connect(c))
    {
      net := net[c := FRESH];
      OnConnection(c);
    }

    /** A connection goes down. */
    method Down(c: ConnId)
      requires c in net
      modifies this
      ensures View() == Step(old(View()), Disconnect(c))
    {
      net := net[c := net[c].(status := Disconnected)];
      OnConnection(c);
    }

    /** Writes the message, framed anew for each connection, to every connection in the set. */
    method SendAll(ghost from: ConnId, message: Message)
      requires connections <= net.Keys
      modifies this
      ensures View() == Broadcast(old(View()), from, message)
    {
      ghost var before := net;
      var todo := connections;
      while todo != {}
        invariant todo <= connections == old(connections) && log == old(log)
        invariant net.Keys == before.Keys
        invariant forall k :: k in net ==>
          net[k] == if k in connections - todo then ChatSpec.Send(before[k], Encode(message)) else before[k]
        decreases |todo|
      {
        var conn :| conn in todo;
        var buf := Header(|message|);
        buf := buf + message;
        net := net[conn := ChatSpec.Send(net[conn], buf)];
        todo := todo - {conn};
      }
      log := log + [Entry(from, message)];
    }

    method Retrieve(c: ConnId, n: nat)
      requires c in net && n <= |net[c].input|
      modifies this`net
      ensures c in old(net) && View() == SetInput(old(View()), c, old(net[c].input)[n..])
    {
      net := net[c := net[c].(input := net[c].input[n..])];
    }

    /** The branch of the message callback for a whole frame. */
    method DeliverFrame(c: ConnId, len: nat)
      requires c in net && connections <= net.Keys
      requires WholeFrame(net[c].input) && len == SignedLength(net[c].input)
      modifies this
      ensures View() == FrameDone(old(View()), c)
    {
      ghost var b := net[c].input;
      Retrieve(c, HEADER);
      var message := net[c].input[..len];
      SendAll(c, message);
      Retrieve(c, len);
      assert message == b[HEADER..len + HEADER] && b[HEADER..][len..] == b[len + HEADER..];
    }

    /** The message callback: drains whole frames, broadcasting each as it goes. */
    method OnMessage(c: ConnId)
      requires c in net && connections <= net.Keys
      modifies this
      ensures View() == Receive(old(View()), c, [])
    {
      ghost var s0, done := View(), [];
      DrainStart(s0, c);
      while |net[c].input| >= HEADER
        invariant c in net && connections <= net.Keys
        invariant Draining(s0, c, done, View())
        decreases |net[c].input|
      {
        ghost var v, b := View(), net[c].input;
        var len := SignedLength(net[c].input);
        if len > MAX_LENGTH || len < 0 {
          DrainEnd(s0, c, done, v);
          net := net[c := Shutdown(net[c])];
          return;
        } else if |net[c].input| >= len + HEADER {
          DrainNext(s0, c, done, v);
          DeliverFrame(c, len);
          done := done + [b[HEADER..len + HEADER]];
        } else {
          break;
        }
      }
      DrainEnd(s0, c, done, View());
    }

    /** A chunk arrives: muduo appends it to the connection's input buffer and calls back. */
    method DataArrives(c: ConnId, chunk: seq<Byte>)
      requires c in net && connections <= net.Keys && !net[c].status.Disconnected?
      modifies this
      ensures View() == Step(old(View()), Data(c, chunk))
    {
      ReceiveIsDrain(View(), c, chunk);
      net := net[c := net[c].(input := net[c].input + chunk)];
      OnMessage(c);
    }
  }

  class ChatClient {
    /** Whether `connection_` is set. */
    var connection: bool
    /** The client's connection as muduo keeps it. */
    var link: Conn
    /** The messages shown to the user so far. */
    var shown: seq<Message>

    /** The reader's state in the terms of the framing: what was delivered and what waits. */
    ghost function Reader(): Decoded
      reads this
    {
      Decoded(shown, link.input, BadHeader(link.input))
    }

    constructor ()
      ensures !connection && link == FRESH && Reader() == FeedAll([])
    {
      connection, link, shown := false, FRESH, [];
    }

    method OnConnection()
      modifies this`connection
      ensures connection == link.status.Connected?
    {
      connection := link.status.Connected?;
    }

    /** Frames one line of input and hands it to the connection. */
    method Write(msg: Message)
      modifies this`link
      ensures link == if connection then ChatSpec.Send(old(link), Encode(msg)) else old(link)
    {
      if connection {
        var buf := Header(|msg|);
        buf := buf + msg;
        link := ChatSpec.Send(link, buf);
      }
    }

    /** The message callback: shows every whole frame, shuts down on a bad header. */
    method OnMessage()
      modifies this`link, this`shown
      ensures Reader() == Feed(old(Reader()), [])
      ensures link.sent == old(link.sent)
      ensures link.status
           == if Decode(old(link.input)).invalid && old(link.status) == Connected then Disconnecting
              else old(link.status)
    {
      ghost var input, shown0 := link.input, shown;
      ghost var done: seq<Message> := [];
      assert input + [] == input && shown + [] == shown && [] + Decode(input).messages == Decode(input).messages;
      while |link.input| >= HEADER
        invariant shown == shown0 + done && link == old(link).(input := link.input)
        invariant Decode(input) == Prepend(done, Decode(link.input))
        decreases |link.input|
      {
        ghost var unread := link.input;
        var len := SignedLength(link.input);
        if len > MAX_LENGTH || len < 0 {
          DecodeDone(input, done, unread);
          link := Shutdown(link);
          return;
        } else if |link.input| >= len + HEADER {
          link := link.(input := link.input[HEADER..]);
          var message := link.input[..len];
          shown := shown + [message];
          link := link.(input := link.input[len..]);
          assert message == unread[HEADER..HEADER + len] && link.input == unread[HEADER + len..];
          DecodeNext(input, done, unread);
          Assoc(shown0, done, [message]);
          done := done + [message];
        } else {
          break;
        }
      }
      DecodeDone(input, done, link.input);
    }

    /** A chunk arrives from the server. */
    method DataArrives(chunk: seq<Byte>)
      modifies this`link, this`shown
      ensures Reader() == Feed(old(Reader()), chunk) && link.sent == old(link.sent)
      ensures link.status
           == if Decode(old(link.input) + chunk).invalid && old(link.status) == Connected then Disconnecting
              else old(link.status)
    {
      link := link.(input := link.input + chunk);
      assert link.input + [] == link.input;
      OnMessage();
    }
  }
}
