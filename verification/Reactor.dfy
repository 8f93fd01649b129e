/**
 The ccnet reactor: channels, the epoll poller, connections and the server,
 with the echo server's callback. Everything runs on one loop, immediately.
 */
module Reactor {
  import opened Bytes
  import opened Buffer
  import opened Names

  type Mask = bv32

  const IN: Mask := 0x1
  const PRI: Mask := 0x2
  const OUT: Mask := 0x4
  const ERR: Mask := 0x8
  const HUP: Mask := 0x10
  const RDHUP: Mask := 0x2000
  const ET: Mask := 0x8000_0000

  const READING: Mask := 0x8000_0003

  predicate Has(m: Mask, flags: Mask) {
    m & flags != 0
  }

  // ------------------------------------------------------- channel and poller

  class Channel {
    const fd: int
    const poller: EPollPoller
    var events: Mask

    constructor (poller: EPollPoller, fd: int)
      ensures this.poller == poller && this.fd == fd && events == 0
    {
      this.poller, this.fd := poller, fd;
      events := 0;
    }

    method Update()
      modifies poller
      ensures poller.UpdatedFor(this, old(poller.channels), old(poller.interest))
    {
      poller.UpdateChannel(this);
    }

    method EnableConnecting()
      modifies this, poller
      ensures events == old(events) | IN
      ensures poller.UpdatedFor(this, old(poller.channels), old(poller.interest))
    {
      events := events | IN;
      Update();
    }

    method EnableReading()
      modifies this, poller
      ensures events == old(events) | READING
      ensures poller.UpdatedFor(this, old(poller.channels), old(poller.interest))
    {
      events := events | (IN | PRI | ET);
      Update();
    }

    method EnableWriting()
      modifies this, poller
      ensures events == old(events) | OUT
      ensures poller.UpdatedFor(this, old(poller.channels), old(poller.interest))
    {
      events := events | OUT;
      Update();
    }

    method DisableWriting()
      modifies this, poller
      ensures events == old(events) & !OUT
      ensures poller.UpdatedFor(this, old(poller.channels), old(poller.interest))
    {
      events := events & !OUT;
      Update();
    }

    method DisableAll()
      modifies this, poller
      ensures events == 0
      ensures poller.UpdatedFor(this, old(poller.channels), old(poller.interest))
    {
      events := 0;
      Update();
    }
  }

  /** Bytes sent and bytes waiting, before and after n of these are sent. */
  lemma SplitSent(sent: seq<Byte>, data: seq<Byte>, n: nat)
    requires n <= |data|
    ensures sent + data == (sent + data[..n]) + data[n..]
    ensures n == |data| ==> data[n..] == []
  {
    assert data == data[..n] + data[n..];
    Assoc(sent, data[..n], data[n..]);
  }

  lemma HasIsIn(m: Mask)
    ensures Has(m, OUT) ==> m | OUT == m
  {
  }

  lemma WriteBit()
    ensures Has(READING | OUT, OUT) && !Has(READING, OUT) && !Has(0, OUT)
    ensures READING | OUT == 0x8000_0007
  {
  }

  datatype Operation = Add | Modify | Delete

  class EPollPoller {
    /** The poller's own map. */
    var channels: map<int, Channel>
    /** The kernel's interest set: each registered descriptor with its mask. */
    var interest: map<int, Mask>

    constructor ()
      ensures channels == map[] && interest == map[]
    {
      channels, interest := map[], map[];
    }

    /** The state after `UpdateChannel(ch)` as a function of the state before. */
    ghost predicate UpdatedFor(ch: Channel, channels0: map<int, Channel>, interest0: map<int, Mask>)
      reads this, ch
    {
      if ch.fd !in channels0 then
        && channels == channels0[ch.fd := ch]
        && interest == if ch.fd in interest0 then interest0 else interest0[ch.fd := ch.events]
      else if ch.events == 0 then
        channels == channels0 - {ch.fd} && interest == interest0 - {ch.fd}
      else
        && channels == channels0
        && interest == if ch.fd in interest0 then interest0[ch.fd := ch.events] else interest0
    }

    /** `epoll_ctl`: adding a registered descriptor, or changing an unregistered one, fails and does nothing. */
    method Update(operation: Operation, ch: Channel)
      modifies this`interest
      ensures interest == match operation
        case Add => if ch.fd in old(interest) then old(interest) else old(interest)[ch.fd := ch.events]
        case Modify => if ch.fd in old(interest) then old(interest)[ch.fd := ch.events] else old(interest)
        case Delete => old(interest) - {ch.fd}
    {
      match operation
      case Add => if ch.fd !in interest { interest := interest[ch.fd := ch.events]; }
      case Modify => if ch.fd in interest { interest := interest[ch.fd := ch.events]; }
      case Delete => interest := interest - {ch.fd};
    }

    method UpdateChannel(ch: Channel)
      modifies this
      ensures UpdatedFor(ch, old(channels), old(interest))
    {
      if ch.fd in channels {
        if ch.events == 0 {
          Update(Delete, ch);
          RemoveChannel(ch);
        } else {
          Update(Modify, ch);
        }
      } else {
        channels := channels[ch.fd := ch];
        Update(Add, ch);
      }
    }

    method RemoveChannel(ch: Channel)
      modifies this
      ensures channels == old(channels) - {ch.fd} && interest == old(interest) - {ch.fd}
    {
      channels := channels - {ch.fd};
      Update(Delete, ch);
    }
  }

  /** Outside descriptor fd, neither map has changed. */
  ghost predicate OnlyAt(p: EPollPoller, fd: int, channels0: map<int, Channel>, interest0: map<int, Mask>)
    reads p
  {
    p.channels - {fd} == channels0 - {fd} && p.interest - {fd} == interest0 - {fd}
  }

  // ------------------------------------------------------------- connection

  /** The bytes a connection received and sent, how often it asked to send and to receive, and whether it is up. */
  datatype Account = Account(received: nat, sent: nat, offers: nat, asked: nat, up: bool)

  const OPENED := Account(0, 0, 0, 0, true)

  datatype ConnState = Disconnected | Connecting | Connected | Disconnecting

  class TcpConnection {
    const name: string
    const fd: int
    const poller: EPollPoller
    const server: TcpServer
    const channel: Channel
    const sock: Socket
    const input: Buffer
    const output: Buffer
    var state: ConnState

    /** The objects only this connection touches. */
    ghost function Repr(): set<object>
      reads input, output
    {
      {this, channel, sock, input, input.buffer, output, output.buffer}
    }

    /** The parts belong together and are kept apart. */
    ghost predicate Shape()
      reads input, output
    {
      && channel.fd == fd && sock.fd == fd && channel.poller == poller && server.poller == poller
      && input != output && input.buffer != output.buffer
      && input.Valid() && output.Valid()
    }

    /**
     Conservation: while connected, what was received is what was sent followed
     by what waits in the output buffer, and writing is enabled exactly while
     something waits. What was sent is always a prefix of what was received.
     */
    ghost predicate Echoes()
      requires Shape()
      reads input, output, Repr()
    {
      && input.Contents() == []
      && match state
         case Connected =>
           && sock.received == sock.sent + output.Contents()
           && channel.events == (if output.Contents() != [] then READING | OUT else READING)
         case Disconnected =>
           && channel.events == 0
           && sock.sent + output.Contents() <= sock.received
         case _ => false
    }

    /** Nothing about this connection has changed. */
    twostate predicate Same()
      reads input, output, Repr()
    {
      && unchanged(this, channel, sock, input, output)
      && unchanged(input.buffer, output.buffer)
    }

    twostate lemma SameKeeps()
      requires old(Shape()) && Same()
      ensures Shape() && Repr() == old(Repr()) && Echoes() == old(Echoes())
    {
      if old(Shape()) {
        assert input.Contents() == old(input.Contents()) && output.Contents() == old(output.Contents());
      }
    }

    constructor (server: TcpServer, poller: EPollPoller, name: string, sock: Socket)
      requires server.poller == poller && sock.received == [] && sock.sent == []
      ensures this.server == server && this.poller == poller && this.name == name
      ensures this.fd == sock.fd && this.sock == sock
      ensures Shape() && Echoes() && state == Disconnected
      ensures input.WritableBytes() == 1024 && output.WritableBytes() == 1024
      ensures fresh(Repr() - {sock})
    {
      this.server, this.poller, this.name, this.fd, this.sock := server, poller, name, sock.fd, sock;
      var ch := new Channel(poller, sock.fd);
      var input_ := new Buffer(INITIAL_SIZE);
      var output_ := new Buffer(INITIAL_SIZE);
      channel, input, output := ch, input_, output_;
      state := Disconnected;
    }

    /** The poller and the kernel both know the channel, with its present mask. */
    ghost predicate Registered()
      reads channel, poller
    {
      && fd in poller.channels && poller.channels[fd] == channel
      && fd in poller.interest && poller.interest[fd] == channel.events
    }

    ghost predicate Unregistered()
      reads poller
    {
      fd !in poller.channels && fd !in poller.interest
    }

    ghost predicate Consistent()
      reads input, output, Repr(), poller
    {
      Shape() && Echoes() && (if state.Connected? then Registered() else Unregistered())
    }

    method ConnectEstablished()
      requires Consistent() && state.Disconnected?
      requires sock.received == [] && sock.sent == [] && output.Contents() == []
      modifies this`state, channel, poller
      ensures Consistent() && state.Connected?
      ensures poller.channels == old(poller.channels)[fd := channel]
      ensures poller.interest == old(poller.interest)[fd := channel.events]
    {
      state := Connected;
      channel.EnableReading();
    }

    /** Runs last when a connection is taken down; it acts only on one still connected. */
    method ConnectDestroyed()
      modifies this`state, channel, poller
      ensures old(state).Connected? ==>
        && state.Disconnected? && channel.events == 0
        && channel.poller.UpdatedFor(channel, old(channel.poller.channels), old(channel.poller.interest))
      ensures !old(state).Connected? ==>
        && state == old(state) && channel.events == old(channel.events)
        && poller.channels == old(poller.channels) && poller.interest == old(poller.interest)
      requires channel.poller == poller
    {
      if state.Connected? {
        state := Disconnected;
        channel.DisableAll();
      }
    }

    /** Asks the poller for writing unless it was asked already. */
    method AskToWrite()
      requires channel.fd == fd && channel.poller == poller
      requires Registered() && channel.events & READING == READING
      modifies channel, poller
      ensures Registered() && channel.events == old(channel.events) | OUT
      ensures poller.channels == old(poller.channels)
      ensures OnlyAt(poller, fd, old(poller.channels), old(poller.interest))
    {
      HasIsIn(channel.events);
      if !Has(channel.events, OUT) {
        channel.EnableWriting();
      }
    }

    /** `send`, which runs `sendInLoop` at once. */
    method Send(data: seq<Byte>)
      requires Shape() && (state.Connected? ==> Registered() && channel.events & READING == READING)
      modifies channel, poller, output, output.buffer
      ensures Shape() && fresh(Repr() - old(Repr()))
      ensures output.Contents() == if state.Connected? then old(output.Contents()) + data else old(output.Contents())
      ensures channel.events == if state.Connected? then old(channel.events) | OUT else old(channel.events)
      ensures state.Connected? ==> Registered()
      ensures poller.channels == old(poller.channels)
      ensures OnlyAt(poller, fd, old(poller.channels), old(poller.interest))
      ensures !state.Connected? ==> poller.interest == old(poller.interest)
    {
      if state.Connected? {
        output.Append(data);
        AskToWrite();
      }
    }

    /** The echo server's message callback: send everything back, then empty the input. */
    method OnMessage()
      requires Shape() && (state.Connected? ==> Registered() && channel.events & READING == READING)
      modifies channel, poller, input`readIndex, input`writeIndex, output, output.buffer
      ensures Shape() && fresh(Repr() - old(Repr())) && input.Contents() == []
      ensures output.Contents()
           == if state.Connected? then old(output.Contents()) + old(input.Contents()) else old(output.Contents())
      ensures channel.events == if state.Connected? then old(channel.events) | OUT else old(channel.events)
      ensures state.Connected? ==> Registered()
      ensures poller.channels == old(poller.channels)
      ensures OnlyAt(poller, fd, old(poller.channels), old(poller.interest))
      ensures !state.Connected? ==> poller.interest == old(poller.interest)
    {
      var data := input.Peek();
      Send(data);
      input.RetrieveAll();
    }

    /** Takes the connection down; on a channel the poller no longer has, disabling it registers it again. */
    method HandleClose()
      requires channel.fd == fd && channel.poller == poller
      modifies this`state, channel, poller, server`connections
      ensures state.Disconnected? && channel.events == 0
      ensures server.connections == old(server.connections) - {name}
      ensures poller.UpdatedFor(channel, old(poller.channels), old(poller.interest))
    {
      state := Disconnected;
      channel.DisableAll();
      server.RemoveConnection(this);
    }

    /** Reads what there is: data goes to the message callback, none closes the connection. */
    method HandleRead() returns (n: int)
      requires Shape() && Echoes() && (state.Connected? ==> Registered())
      modifies this`state, channel, sock, input, input.buffer, output, output.buffer, poller, server`connections
      ensures Shape() && Echoes() && fresh(Repr() - old(Repr()))
      ensures n == |sock.received| - |old(sock.received)| >= 0
      ensures sock.dry && sock.asked > old(sock.asked)
      ensures sock.offered == old(sock.offered) && sock.sent == old(sock.sent)
      ensures n > 0 ==>
        && state == old(state) && server.connections == old(server.connections)
        && poller.channels == old(poller.channels)
        && OnlyAt(poller, fd, old(poller.channels), old(poller.interest))
        && (state.Connected? ==> Registered())
        && (!state.Connected? ==> poller.interest == old(poller.interest))
      ensures n == 0 ==>
        && state.Disconnected? && server.connections == old(server.connections) - {name}
        && poller.UpdatedFor(channel, old(poller.channels), old(poller.interest))
    {
      ghost var data;
      n, data := input.ReadFd(sock);
      if n > 0 {
        Assoc(sock.sent, output.Contents(), data);
        assert input.Contents() == data;
        OnMessage();
      } else if n == 0 {
        HandleClose();
      }
    }

    /** After n bytes went out. */
    method DropSent(n: nat)
      requires Shape() && state.Connected? && Registered() && channel.events == READING | OUT
      modifies channel, output`readIndex, output`writeIndex, poller
      ensures Shape() && Registered() && poller.channels == old(poller.channels)
      ensures OnlyAt(poller, fd, old(poller.channels), old(poller.interest))
      ensures output.Contents() == if n < |old(output.Contents())| then old(output.Contents())[n..] else []
      ensures channel.events == if output.Contents() != [] then READING | OUT else READING
    {
      output.Retrieve(n);
      if output.ReadableBytes() == 0 {
        channel.DisableWriting();
      }
    }

    /** Writes what the socket takes and stops asking to write once nothing waits. */
    method HandleWrite()
      requires Shape() && Echoes() && (state.Connected? ==> Registered())
      modifies channel, sock, output`readIndex, output`writeIndex, poller
      ensures Shape() && Echoes() && Repr() == old(Repr())
      ensures sock.received == old(sock.received) && sock.asked == old(sock.asked) && sock.dry == old(sock.dry)
      ensures sock.offered
           == old(sock.offered) + if Has(old(channel.events), OUT) then [old(output.Contents())] else []
      ensures poller.channels == old(poller.channels)
      ensures OnlyAt(poller, fd, old(poller.channels), old(poller.interest))
      ensures state.Connected? ==> Registered()
      ensures !state.Connected? ==> poller.interest == old(poller.interest)
    {
      WriteBit();
      if Has(channel.events, OUT) {
        var data := output.Peek();
        var n := sock.Send(data);
        if n > 0 {
          SplitSent(old(sock.sent), data, n);
          DropSent(n);
        }
      }
    }

    /** The mask leads to the close handler. */
    static predicate Closes(revents: Mask) {
      Has(revents, HUP) && !Has(revents, IN)
    }

    static predicate Reads(revents: Mask) {
      Has(revents, IN | PRI | RDHUP)
    }

    /** The two branches, by the numbers of the event bits. */
    static lemma Branches(revents: Mask)
      ensures Closes(revents) <==> revents & 0x11 == 0x10
      ensures Reads(revents) <==> revents & 0x2003 != 0
    {
    }

    /** The close handler runs, and then the read handler finds nothing and runs it again. */
    static predicate ClosesTwice(revents: Mask, n: int) {
      Closes(revents) && Reads(revents) && n == 0
    }

    /** What the kernel may report for a requested mask: its bits, errors and hang-ups. */
    static predicate MayReport(requested: Mask, revents: Mask) {
      revents & !(requested | ERR | HUP) == 0
    }

    /**
     Of the masks that can be reported for a connection, those that lead to both
     handlers are a hang-up with urgent data and without input.
     */
    static lemma BothHandlers(requested: Mask, revents: Mask)
      requires requested == READING || requested == READING | OUT
      requires MayReport(requested, revents)
      ensures Closes(revents) && Reads(revents) <==> Has(revents, HUP) && Has(revents, PRI) && !Has(revents, IN)
    {
      assert revents & RDHUP == 0;
      assert revents & (IN | PRI | RDHUP) == (revents & IN) | (revents & PRI) | (revents & RDHUP);
    }

    /** There is such a mask. */
    static lemma HangUpMayRead()
      ensures MayReport(READING, HUP | PRI) && Closes(HUP | PRI) && Reads(HUP | PRI)
    {
      assert (HUP | PRI) & HUP == HUP && (HUP | PRI) & IN == 0 && (HUP | PRI) & (IN | PRI | RDHUP) == PRI;
    }

    /**
     The effect of an event: n bytes were read; the connection stays up and
     registered, or it is down and off the server's map. Exactly when the close
     handler ran and then the read handler read nothing, its channel is
     registered again.
     */
    twostate predicate AfterEvent(revents: Mask, n: int)
      requires old(Shape()) && Shape()
      reads this, input, output, Repr(), poller, server
    {
      && Echoes() && fresh(Repr() - old(Repr()))
      && n == |sock.received| - |old(sock.received)| >= 0
      && OnlyAt(poller, fd, old(poller.channels), old(poller.interest))
      && (state.Disconnected? <==> Closes(revents) || (Reads(revents) && n == 0))
      && (if state.Connected? then Registered() && server.connections == old(server.connections)
          else
            && server.connections == old(server.connections) - {name}
            && if ClosesTwice(revents, n) then Registered() else Unregistered())
    }

    /** What the handlers asked of the socket: all there is to read, and to send all that waits. */
    twostate predicate Served(revents: Mask)
      reads this, sock
    {
      && (Reads(revents) ==> sock.dry && sock.asked > old(sock.asked))
      && sock.offered == old(sock.offered) +
           if Has(revents, OUT) && state.Connected? && |sock.received| > |old(sock.sent)|
           then [sock.received[|old(sock.sent)|..]] else []
    }

    /**
     An event was handled in which n bytes were read: what became of the
     connection and what was asked of its socket.
     */
    static predicate Handled(before: Account, after: Account, revents: Mask, n: int) {
      && n >= 0 && after.received == before.received + n
      && (after.up <==> before.up && !Closes(revents) && !(Reads(revents) && n == 0))
      && (Reads(revents) ==> after.asked > before.asked)
      && after.offers
           == before.offers + if Has(revents, OUT) && after.up && after.received > before.sent then 1 else 0
    }

    ghost function Books(): Account
      reads this, sock
    {
      Account(|sock.received|, |sock.sent|, |sock.offered|, sock.asked, state.Connected?)
    }

    twostate lemma HandledIs(new revents: Mask, new n: int)
      requires Served(revents) && old(state.Connected?) && n == |sock.received| - |old(sock.received)| >= 0
      requires state.Connected? <==> !Closes(revents) && !(Reads(revents) && n == 0)
      ensures Handled(old(Books()), Books(), revents, n)
    {
    }

    /** The read branch, for a connection up and registered or down and unregistered. */
    method ReadIfAsked(revents: Mask) returns (n: int)
      requires Shape() && Echoes() && (if state.Connected? then Registered() else Unregistered())
      modifies this`state, channel, sock, input, input.buffer, output, output.buffer, poller, server`connections
      ensures Shape() && Echoes() && fresh(Repr() - old(Repr()))
      ensures n == |sock.received| - |old(sock.received)| >= 0
      ensures Reads(revents) ==> sock.dry && sock.asked > old(sock.asked)
      ensures sock.offered == old(sock.offered) && sock.sent == old(sock.sent)
      ensures OnlyAt(poller, fd, old(poller.channels), old(poller.interest))
      ensures if Reads(revents) && n == 0 then
                && state.Disconnected? && server.connections == old(server.connections) - {name}
                && (if old(state).Connected? then Unregistered() else Registered())
              else
                && state == old(state) && server.connections == old(server.connections)
                && (if state.Connected? then Registered() else Unregistered())
    {
      n := 0;
      if Reads(revents) {
        n := HandleRead();
      }
    }

    /** The close branch. */
    method CloseIfHungUp(revents: Mask)
      requires Consistent() && state.Connected?
      modifies this`state, channel, poller, server`connections
      ensures Shape() && Echoes() && OnlyAt(poller, fd, old(poller.channels), old(poller.interest))
      ensures if Closes(revents) then
                state.Disconnected? && Unregistered() && server.connections == old(server.connections) - {name}
              else
                state.Connected? && Registered() && server.connections == old(server.connections)
    {
      if Closes(revents) {
        HandleClose();
      }
    }

    /** The first half of `handleEvent`: the close handler, then the read handler. */
    method HandleInput(revents: Mask) returns (n: int)
      requires Consistent() && state.Connected?
      modifies this`state, channel, sock, input, input.buffer, output, output.buffer, poller, server`connections
      ensures Shape() && AfterEvent(revents, n)
      ensures Reads(revents) ==> sock.dry && sock.asked > old(sock.asked)
      ensures sock.offered == old(sock.offered) && sock.sent == old(sock.sent)
    {
      CloseIfHungUp(revents);
      n := ReadIfAsked(revents);
    }

    /** `Channel::handleEvent` with this connection's callbacks. */
    method HandleEvent(revents: Mask) returns (n: int)
      requires Consistent() && state.Connected?
      modifies this`state, channel, sock, input, input.buffer, output, output.buffer, poller, server`connections
      ensures Shape() && AfterEvent(revents, n) && Served(revents)
    {
      n := HandleInput(revents);
      if Has(revents, OUT) {
        HandleWrite();
      }
    }
  }

  class TcpServer {
    const name: string
    const poller: EPollPoller
    /** The acceptor's channel. */
    const listener: Channel
    var connections: map<string, TcpConnection>
    var nextConnId: nat
    /** Every connection ever accepted, by its number. */
    var made: seq<TcpConnection>
    /** All that belongs to some connection. */
    ghost var repr: set<object>

    /** The objects are wired up and no two connections share any, nor a descriptor. */
    ghost predicate Wired()
      reads this, made, set c | c in made :: c.input, set c | c in made :: c.output
    {
      && listener.poller == poller
      && (forall c :: c in made ==>
            && c.Shape() && c.poller == poller && c.server == this
            && c.fd != listener.fd && listener !in c.Repr() && c.Repr() <= repr)
      && (forall i, j :: 0 <= i < j < |made| ==> made[i].Repr() !! made[j].Repr() && made[i].fd != made[j].fd)
      && |made| == nextConnId
      && (forall i :: 0 <= i < |made| ==> made[i].name == ConnName(name, i))
    }

    /** Every connection, up or down, conserves its bytes. */
    ghost predicate AllEcho()
      requires Wired()
      reads this, made, set c | c in made :: c.input, set c | c in made :: c.output
      reads set c, o | c in made && o in c.Repr() :: o
    {
      forall c :: c in made ==> c.Echoes()
    }

    /** The connection map holds exactly the connected connections, under their names. */
    ghost predicate MapAgrees()
      reads this, made
    {
      && (forall n :: n in connections ==>
            connections[n] in made && connections[n].name == n && connections[n].state.Connected?)
      && (forall c :: c in made && c.state.Connected? ==> c.name in connections && connections[c.name] == c)
    }

    /** The poller's map holds the listener's channel, those of the connected connections, and no foreign one. */
    ghost predicate PollerKnows()
      reads this, poller, made
    {
      && listener.fd in poller.channels && poller.channels[listener.fd] == listener
      && (forall fd :: fd in poller.channels && fd != listener.fd ==> exists c :: c in made && c.fd == fd)
      && (forall c :: c in made && c.fd in poller.channels ==> poller.channels[c.fd] == c.channel)
      && (forall c :: c in made && c.state.Connected? ==> c.fd in poller.channels)
    }

    /** It holds no channel of a connection that is down. */
    ghost predicate NoneAstray()
      reads this, poller, made
    {
      forall c :: c in made && c.fd in poller.channels ==> c.state.Connected?
    }

    /** The kernel's interest set has the same descriptors, each with its channel's mask. */
    ghost predicate KernelAgrees()
      reads this, poller, poller.channels.Values
    {
      && poller.interest.Keys == poller.channels.Keys
      && forall fd :: fd in poller.channels ==> poller.interest[fd] == poller.channels[fd].events
    }

    /** Three-way agreement of connection map, poller map and kernel interest set. */
    ghost predicate Agreement()
      reads this, poller, made, poller.channels.Values
    {
      MapAgrees() && PollerKnows() && NoneAstray() && KernelAgrees()
    }

    /** What every event keeps: all of it but for channels gone astray. */
    ghost predicate Sound()
      reads this, poller, made, poller.channels.Values
      reads set c | c in made :: c.input, set c | c in made :: c.output, set c, o | c in made && o in c.Repr() :: o
    {
      Wired() && AllEcho() && MapAgrees() && PollerKnows() && KernelAgrees()
    }

    ghost predicate Valid()
      reads this, poller, made, poller.channels.Values
      reads set c | c in made :: c.input, set c | c in made :: c.output, set c, o | c in made && o in c.Repr() :: o
    {
      Wired() && AllEcho() && Agreement()
    }

    /** `removeConnection`, which runs `removeConnectionInLoop` at once. */
    method RemoveConnection(conn: TcpConnection)
      requires conn.channel.poller == conn.poller
      requires !conn.state.Connected?
      modifies this`connections, conn`state, conn.channel, conn.poller
      ensures connections == old(connections) - {conn.name}
      ensures conn.state == old(conn.state) && conn.channel.events == old(conn.channel.events)
      ensures conn.poller.channels == old(conn.poller.channels) && conn.poller.interest == old(conn.poller.interest)
    {
      connections := connections - {conn.name};
      conn.ConnectDestroyed();
    }

    constructor (name: string, listenFd: int)
      ensures Valid() && made == [] && this.name == name && listener.fd == listenFd
      ensures listener.events == IN && poller.interest == map[listenFd := IN]
      ensures fresh(poller) && fresh(listener)
    {
      var p := new EPollPoller();
      var l := new Channel(p, listenFd);
      this.name, poller, listener := name, p, l;
      connections, nextConnId, made, repr := map[], 0, [], {};
      new;
      l.EnableConnecting();
    }

    lemma Apart(c: TcpConnection, d: TcpConnection)
      requires Wired() && c in made && d in made && c != d
      ensures c.Repr() !! d.Repr() && c.fd != d.fd && c.name != d.name
    {
      var i :| 0 <= i < |made| && made[i] == c;
      var j :| 0 <= j < |made| && made[j] == d;
      NamesDiffer(name, i, j);
    }

    lemma AllApart(conn: TcpConnection)
      requires Wired() && conn in made
      ensures forall c :: c in made && c != conn ==> c.Repr() !! conn.Repr()
    {
      forall c | c in made && c != conn ensures c.Repr() !! conn.Repr() {
        Apart(c, conn);
      }
    }

    /** The connections other than conn are as before. */
    twostate predicate OthersSame(conn: TcpConnection)
      reads this, made, set c | c in made :: c.input, set c | c in made :: c.output
      reads set c, o | c in made && o in c.Repr() :: o
    {
      forall c :: c in old(made) && c in made && c != conn ==> c.Same()
    }

    twostate lemma WiredStays(conn: TcpConnection)
      requires old(Wired()) && made == old(made) && nextConnId == old(nextConnId) && conn in made
      requires repr == old(repr) + conn.Repr()
      requires OthersSame(conn) && conn.Shape() && fresh(conn.Repr() - old(conn.Repr()))
      ensures Wired()
    {
      forall c | c in made && c != conn ensures c.Shape() && c.Repr() == old(c.Repr()) {
        c.SameKeeps();
      }
    }

    twostate lemma EchoStays(conn: TcpConnection)
      requires old(Wired() && AllEcho()) && made == old(made) && Wired() && conn in made
      requires OthersSame(conn) && conn.Echoes()
      ensures AllEcho()
    {
      forall c | c in made && c != conn ensures c.Echoes() {
        c.SameKeeps();
      }
    }

    /** An event of one connection does not touch the others. */
    method HandleOne(conn: TcpConnection, revents: Mask) returns (n: int)
      requires Wired() && conn in made && conn.Consistent() && conn.state.Connected?
      modifies conn.Repr(), poller, this`connections, this`repr
      ensures made == old(made) && nextConnId == old(nextConnId) && unchanged(listener) && OthersSame(conn)
      ensures repr == old(repr) + conn.Repr()
      ensures conn.Shape() && conn.AfterEvent(revents, n) && conn.Served(revents)
    {
      AllApart(conn);
      n := conn.HandleEvent(revents);
      repr := repr + conn.Repr();
      forall c | c in made && c != conn ensures c.Same() {
        assert old(c.Repr()) !! old(conn.Repr());
      }
    }

    /** What an event of conn did to the maps: it stays connected and registered, or is taken off the connection map. */
    twostate predicate EventOf(conn: TcpConnection)
      reads this, poller, listener, made, conn.poller
      reads set c | c in made :: c.input, set c | c in made :: c.output, set c, o | c in made && o in c.Repr() :: o
    {
      && old(Sound()) && Wired() && made == old(made) && conn in made && old(conn.state).Connected?
      && OthersSame(conn) && unchanged(listener)
      && OnlyAt(poller, conn.fd, old(poller.channels), old(poller.interest)) && repr == old(repr) + conn.Repr()
      && (if conn.state.Connected? then conn.Registered() && connections == old(connections)
          else connections == old(connections) - {conn.name} && (conn.Registered() || conn.Unregistered()))
    }

    /** The connections other than conn have their own descriptors and names, and stand as they did. */
    twostate predicate OthersStand(conn: TcpConnection)
      reads this, made, set c | c in made :: c.channel
    {
      forall c :: c in old(made) && c in made && c != conn ==>
        c.fd != conn.fd && c.name != conn.name && c.state == old(c.state) && c.channel.events == old(c.channel.events)
    }

    twostate lemma OthersDoStand(conn: TcpConnection)
      requires Wired() && made == old(made) && conn in made && OthersSame(conn)
      ensures OthersStand(conn)
    {
      forall c | c in made && c != conn
        ensures c.fd != conn.fd && c.name != conn.name
        ensures c.state == old(c.state) && c.channel.events == old(c.channel.events)
      {
        Apart(c, conn);
        assert c.Same();
      }
    }

    twostate lemma MapStays(conn: TcpConnection)
      requires old(MapAgrees()) && made == old(made) && conn in made && old(conn.state).Connected? && OthersStand(conn)
      requires connections == if conn.state.Connected? then old(connections) else old(connections) - {conn.name}
      ensures MapAgrees()
    {
    }

    twostate lemma PollerStays(conn: TcpConnection)
      requires old(PollerKnows()) && made == old(made) && conn in made && conn.fd != listener.fd && OthersStand(conn)
      requires OnlyAt(poller, conn.fd, old(poller.channels), old(poller.interest))
      requires conn.fd in poller.channels ==> poller.channels[conn.fd] == conn.channel
      requires conn.state.Connected? ==> conn.fd in poller.channels
      ensures PollerKnows()
      ensures forall fd :: fd != conn.fd ==> (fd in poller.channels <==> old(fd in poller.channels))
    {
      var before, now := old(poller.channels) - {conn.fd}, poller.channels - {conn.fd};
      assert forall fd :: fd != conn.fd ==> (fd in now <==> fd in poller.channels);
      assert forall fd :: fd != conn.fd ==> (fd in before <==> fd in old(poller.channels));
      assert before == now;
    }

    twostate lemma KernelStays(conn: TcpConnection)
      requires old(PollerKnows() && KernelAgrees()) && made == old(made) && conn in made && OthersStand(conn)
      requires OnlyAt(poller, conn.fd, old(poller.channels), old(poller.interest)) && unchanged(listener)
      requires conn.poller == poller && (conn.Registered() || conn.Unregistered())
      ensures KernelAgrees()
    {
      var fd := conn.fd;
      assert poller.channels - {fd} == old(poller.channels) - {fd};
      assert poller.interest - {fd} == old(poller.interest) - {fd};
      forall k | k in poller.channels && k != fd
        ensures k in poller.interest && poller.interest[k] == poller.channels[k].events
      {
        assert k in poller.channels - {fd} && k in old(poller.interest) - {fd};
      }
      forall k | k in poller.interest && k != fd ensures k in poller.channels {
        assert k in poller.interest - {fd} && k in old(poller.channels) - {fd};
      }
    }

    /** All but strays agree after an event, and a stray is new only if the event left its channel behind. */
    twostate lemma AgreementStays(conn: TcpConnection)
      requires EventOf(conn)
      ensures MapAgrees() && PollerKnows() && KernelAgrees()
      ensures NoneAstray() <==> old(NoneAstray()) && (conn.state.Connected? || conn.Unregistered())
    {
      OthersDoStand(conn);
      MapStays(conn);
      PollerStays(conn);
      KernelStays(conn);
      AstrayStays(conn);
    }

    twostate lemma AstrayStays(conn: TcpConnection)
      requires made == old(made) && conn in made && OthersStand(conn) && old(conn.state).Connected?
      requires forall fd :: fd != conn.fd ==> (fd in poller.channels <==> old(fd in poller.channels))
      ensures NoneAstray() <==> old(NoneAstray()) && (conn.state.Connected? || conn.fd !in poller.channels)
    {
      if old(NoneAstray()) {
      } else {
        var c :| c in made && old(c.fd in poller.channels && !c.state.Connected?);
        assert c.fd in poller.channels && !c.state.Connected?;
      }
    }

    /** An event of one connection keeps the wiring of all and the conservation of all. */
    method HandleInPlace(conn: TcpConnection, revents: Mask) returns (n: int)
      requires Sound() && conn in made && conn.state.Connected?
      modifies conn.Repr(), poller, this`connections, this`repr
      ensures AllStay(conn, revents, n) && conn.Served(revents)
    {
      n := HandleOne(conn, revents);
      WiredStays(conn);
      EchoStays(conn);
    }

    /** The effect of an event of conn that read n bytes, except for the agreement. */
    twostate predicate AllStay(conn: TcpConnection, revents: Mask, n: int)
      reads this, poller, listener, made, conn.poller
      reads set c | c in made :: c.input, set c | c in made :: c.output, set c, o | c in made && o in c.Repr() :: o
    {
      && EventOf(conn) && AllEcho() && fresh(conn.Repr() - old(conn.Repr()))
      && n == |conn.sock.received| - |old(conn.sock.received)| >= 0
      && (conn.state.Disconnected? <==> TcpConnection.Closes(revents) || (TcpConnection.Reads(revents) && n == 0))
      && (conn.state.Disconnected? || conn.state.Connected?)
      && (conn.state.Disconnected? ==>
            if TcpConnection.ClosesTwice(revents, n) then conn.Registered() else conn.Unregistered())
    }

    /**
     An event of one connection keeps the wiring and the conservation of all;
     it keeps the agreement if and only if it does not close the connection twice.
     */
    method Dispatch(conn: TcpConnection, revents: Mask) returns (n: int)
      requires Sound() && conn in made && conn.state.Connected?
      modifies conn.Repr(), poller, this`connections, this`repr
      ensures Sound() && made == old(made) && OthersSame(conn) && conn.Served(revents)
      ensures fresh(repr - old(repr)) && nextConnId == old(nextConnId)
      ensures n == |conn.sock.received| - |old(conn.sock.received)| >= 0
      ensures conn.state.Disconnected? <==> TcpConnection.Closes(revents) || (TcpConnection.Reads(revents) && n == 0)
      ensures conn.state.Disconnected? || conn.state.Connected?
      ensures Agreement() <==> old(Agreement()) && !TcpConnection.ClosesTwice(revents, n)
    {
      n := HandleInPlace(conn, revents);
      AgreementStays(conn);
    }

    /** What accepting a socket did: one more connection, up, registered and under its own name. */
    twostate predicate Accepted(new conn: TcpConnection)
      reads this, poller, made, conn, conn.input, conn.output, conn.Repr(), conn.poller
    {
      && made == old(made) + [conn] && nextConnId == old(nextConnId) + 1 && repr == old(repr) + conn.Repr()
      && conn.Shape() && conn.Echoes() && conn.state.Connected? && conn.poller == poller && conn.server == this
      && conn.name == ConnName(name, old(nextConnId)) && conn.fd != listener.fd && listener !in conn.Repr()
      && connections == old(connections)[conn.name := conn]
      && poller.channels == old(poller.channels)[conn.fd := conn.channel]
      && poller.interest == old(poller.interest)[conn.fd := conn.channel.events]
    }

    /** The connections there already were are as before and have nothing to do with conn. */
    twostate predicate OldSame(new conn: TcpConnection)
      requires old(Wired())
      reads this, conn, conn.input, conn.output
      reads made, set c | c in made :: c.input, set c | c in made :: c.output
      reads set c, o | c in made && o in c.Repr() :: o
    {
      forall c :: c in old(made) && c in made ==> c.Same() && c.fd != conn.fd && c.Repr() !! conn.Repr()
    }

    twostate lemma OldIsSame(new conn: TcpConnection, sock: Socket)
      requires old(Wired()) && Accepted(conn) && conn.sock == sock
      requires forall o :: o in conn.Repr() && o != sock ==> fresh(o)
      requires forall c :: c in old(made) ==> c.Same() && c.fd != conn.fd && sock !in old(c.Repr())
      ensures OldSame(conn)
    {
      forall c | c in old(made) && c in made ensures c.Same() && c.fd != conn.fd && c.Repr() !! conn.Repr() {
        c.SameKeeps();
      }
    }

    twostate lemma WiredGrows(new conn: TcpConnection)
      requires old(Wired()) && Accepted(conn) && OldSame(conn)
      ensures Wired()
    {
      forall c | c in old(made) ensures c in made && c.Shape() && c.Repr() == old(c.Repr()) {
        c.SameKeeps();
      }
      PairsGrow(conn);
      NamesGrow(conn);
    }

    twostate lemma PairsGrow(new conn: TcpConnection)
      requires old(Wired()) && made == old(made) + [conn]
      requires forall c :: c in old(made) ==> c.Repr() == old(c.Repr()) && c.Repr() !! conn.Repr() && c.fd != conn.fd
      ensures forall i, j :: 0 <= i < j < |made| ==> made[i].Repr() !! made[j].Repr() && made[i].fd != made[j].fd
    {
      forall i, j | 0 <= i < j < |made| ensures made[i].Repr() !! made[j].Repr() && made[i].fd != made[j].fd {
        assert made[i] == old(made)[i];
        assert j < |old(made)| ==> made[j] == old(made)[j];
      }
    }

    twostate lemma NamesGrow(new conn: TcpConnection)
      requires old(Wired()) && made == old(made) + [conn] && conn.name == ConnName(name, old(nextConnId))
      ensures forall i :: 0 <= i < |made| ==> made[i].name == ConnName(name, i)
    {
      forall i | 0 <= i < |made| ensures made[i].name == ConnName(name, i) {
        assert i < |old(made)| ==> made[i] == old(made)[i];
      }
    }

    twostate lemma EchoGrows(new conn: TcpConnection)
      requires old(Wired() && AllEcho()) && Accepted(conn) && OldSame(conn) && Wired()
      ensures AllEcho()
    {
      forall c | c in old(made) ensures c in made && c.Echoes() {
        c.SameKeeps();
      }
    }

    /** The connections there already were have other names and descriptors and stand as they did. */
    twostate predicate OldStand(new conn: TcpConnection)
      reads this, made, set c | c in made :: c.channel, set c | c in made :: c.sock
    {
      forall c :: c in old(made) && c in made ==>
        c.fd != conn.fd && c.name != conn.name && c.state == old(c.state) && c.channel.events == old(c.channel.events)
        && unchanged(c.sock)
    }

    twostate lemma OldDoStand(new conn: TcpConnection)
      requires old(Wired()) && Accepted(conn) && OldSame(conn)
      ensures OldStand(conn)
    {
      forall c | c in old(made) && c in made
        ensures c.fd != conn.fd && c.name != conn.name
        ensures c.state == old(c.state) && c.channel.events == old(c.channel.events)
        && unchanged(c.sock)
      {
        var i :| 0 <= i < |old(made)| && old(made)[i] == c;
        NamesDiffer(name, i, old(nextConnId));
        assert c.Same();
      }
    }

    twostate lemma MapGrows(new conn: TcpConnection)
      requires old(MapAgrees()) && Accepted(conn) && OldStand(conn)
      ensures MapAgrees() && conn.name !in old(connections)
    {
    }

    twostate lemma PollerGrows(new conn: TcpConnection)
      requires old(PollerKnows()) && Accepted(conn) && OldStand(conn)
      ensures PollerKnows() && (NoneAstray() <==> old(NoneAstray()))
    {
      if !old(NoneAstray()) {
        var c :| c in old(made) && old(c.fd in poller.channels && !c.state.Connected?);
        assert c in made && c.fd in poller.channels && !c.state.Connected?;
      }
    }

    twostate lemma KernelGrows(new conn: TcpConnection)
      requires old(PollerKnows() && KernelAgrees()) && Accepted(conn) && OldStand(conn) && unchanged(listener)
      ensures KernelAgrees()
    {
    }

    /**
     A newly accepted socket is nobody else's, its descriptor was never accepted
     before (none is ever closed), and there is a number left for it.
     */
    ghost predicate Acceptable(sock: Socket)
      reads this, made, sock
    {
      && sock.received == [] && sock.sent == [] && sock.offered == [] && sock.asked == 0
      && nextConnId < 0x7FFF_FFFF
      && sock !in repr && Unused(sock.fd)
    }

    /** An accepted socket becomes a connection; its name is new, so no live connection loses its entry. */
    method NewConnection(sock: Socket) returns (conn: TcpConnection)
      requires Sound() && Acceptable(sock)
      modifies this, poller
      ensures Sound() && (Agreement() <==> old(Agreement()))
      ensures made == old(made) + [conn] && conn.sock == sock && conn.state.Connected?
      ensures conn.fd == sock.fd && sock.received == [] && sock.sent == [] && sock.offered == [] && sock.asked == 0
      ensures conn.name !in old(connections) && connections == old(connections)[conn.name := conn]
      ensures fresh(repr - old(repr) - {sock}) && nextConnId == old(nextConnId) + 1 && OldStand(conn)
    {
      UnusedFd(sock.fd);
      conn := Accept(sock);
      forall c | c in old(made) ensures c.Same() {
      }
      OldIsSame(conn, sock);
      WiredGrows(conn);
      EchoGrows(conn);
      OldDoStand(conn);
      MapGrows(conn);
      PollerGrows(conn);
      KernelGrows(conn);
    }

    lemma UnusedFd(fd: int)
      requires PollerKnows() && KernelAgrees() && fd != listener.fd && forall c :: c in made ==> c.fd != fd
      ensures fd !in poller.channels && fd !in poller.interest
    {
    }

    /** Files the new connection under its name and brings it up. */
    method Establish(conn: TcpConnection)
      requires conn.poller == poller && conn.Consistent() && conn.state.Disconnected?
      requires conn.sock.received == [] && conn.sock.sent == []
      modifies this`connections, poller, conn`state, conn.channel
      ensures conn.Shape() && conn.Echoes() && conn.state.Connected?
      ensures connections == old(connections)[conn.name := conn]
      ensures poller.channels == old(poller.channels)[conn.fd := conn.channel]
      ensures poller.interest == old(poller.interest)[conn.fd := conn.channel.events]
    {
      connections := connections[conn.name := conn];
      conn.ConnectEstablished();
    }

    /** The body of `newConnection`. */
    method Accept(sock: Socket) returns (conn: TcpConnection)
      requires sock.received == [] && sock.sent == [] && sock.fd != listener.fd
      requires sock.fd !in poller.channels && sock.fd !in poller.interest
      modifies this, poller
      ensures Accepted(conn) && conn.sock == sock && unchanged(listener)
      ensures fresh(conn.Repr() - {sock})
    {
      var connName := ConnName(name, nextConnId);
      nextConnId := nextConnId + 1;
      conn := new TcpConnection(this, poller, connName, sock);
      Establish(conn);
      made, repr := made + [conn], repr + conn.Repr();
    }

    // ------------------------------------------------------ the event loop

    /** The descriptor is that of a connection that is up. */
    ghost predicate UpAt(fd: int)
      reads this, made
    {
      exists c :: c in made && c.fd == fd && c.state.Connected?
    }

    /** What the agreement is for: the kernel only has descriptors of the listener and of connections that are up. */
    lemma ReportedIsUp(fd: int)
      requires Valid() && fd in poller.interest
      ensures fd == listener.fd || UpAt(fd)
    {
      if fd != listener.fd {
        var c :| c in made && c.fd == fd;
        assert c.state.Connected?;
      }
    }

    /** Of what the kernel can report for a connection, only a hang-up with urgent data and no input can close twice. */
    lemma TwiceNeedsUrgent(fd: int, revents: Mask)
      requires Valid() && fd in poller.interest && fd != listener.fd
      requires TcpConnection.MayReport(poller.interest[fd], revents)
      ensures TcpConnection.Closes(revents) && TcpConnection.Reads(revents)
         <==> Has(revents, HUP) && Has(revents, PRI) && !Has(revents, IN)
    {
      ReportedIsUp(fd);
      var c :| c in made && c.fd == fd && c.state.Connected?;
      assert c.Echoes() && poller.channels[fd] == c.channel;
      TcpConnection.BothHandlers(poller.interest[fd], revents);
    }

    /** Connections with other descriptors that were up still are. */
    twostate predicate UpsStay(fd: int)
      reads this, made
    {
      forall k :: k != fd && old(UpAt(k)) ==> UpAt(k)
    }

    twostate lemma UpsKeep(conn: TcpConnection)
      requires made == old(made) && OthersSame(conn)
      ensures UpsStay(conn.fd)
    {
      forall k | k != conn.fd && old(UpAt(k)) ensures UpAt(k) {
        var c :| c in made && c.fd == k && old(c.state.Connected?);
        assert c.Same();
      }
    }

    /** What each connection has done with its socket, and whether it is up. */
    ghost function Accounts(): map<TcpConnection, Account>
      reads this, made, set c | c in made :: c.sock
    {
      map c | c in made :: c.Books()
    }

    /**
     From `before` to `after` the connection with descriptor fd handled the event,
     reading n bytes, and the others did nothing; a new one is that of `incoming`.
     */
    static ghost predicate Adds(before: map<TcpConnection, Account>, after: map<TcpConnection, Account>,
                                fd: int, revents: Mask, n: int, incoming: Socket?) {
      && before.Keys <= after.Keys
      && (forall c :: c in after && c !in before ==> incoming != null && c.fd == incoming.fd && after[c] == OPENED)
      && forall c :: c in before ==>
           if c.fd == fd then TcpConnection.Handled(before[c], after[c], revents, n) else after[c] == before[c]
    }

    static lemma AddsToo(before: map<TcpConnection, Account>, after: map<TcpConnection, Account>,
                         fd: int, revents: Mask, n: int, incoming: Socket?)
      requires Adds(before, after, fd, revents, n, null)
      ensures Adds(before, after, fd, revents, n, incoming)
    {
    }

    static lemma AddsNothing(accounts: map<TcpConnection, Account>, fd: int, revents: Mask, incoming: Socket?)
      requires forall c :: c in accounts ==> c.fd != fd
      ensures Adds(accounts, accounts, fd, revents, 0, incoming)
    {
    }

    twostate lemma OnlyHandled(conn: TcpConnection, new revents: Mask, new n: int)
      requires old(Wired()) && made == old(made) && conn in made && OthersSame(conn)
      requires conn.Served(revents) && old(conn.state.Connected?)
      requires n == |conn.sock.received| - |old(conn.sock.received)| >= 0
      requires conn.state.Connected?
           <==> !TcpConnection.Closes(revents) && !(TcpConnection.Reads(revents) && n == 0)
      ensures Adds(old(Accounts()), Accounts(), conn.fd, revents, n, null)
    {
      conn.HandledIs(revents, n);
      OthersIdle(conn);
    }

    twostate lemma OthersIdle(conn: TcpConnection)
      requires old(Wired()) && made == old(made) && conn in made && OthersSame(conn)
      ensures forall c :: c in made && c != conn ==> c.fd != conn.fd && old(Accounts())[c] == Accounts()[c]
    {
      forall c | c in made && c != conn
        ensures c.fd != conn.fd && old(Accounts())[c] == Accounts()[c]
      {
        assert c.Same();
        var i :| 0 <= i < |made| && made[i] == c;
        var j :| 0 <= j < |made| && made[j] == conn;
      }
    }

    /** An event reported for a connection. */
    method ConnectionEvent(fd: int, revents: Mask) returns (n: int)
      requires Sound() && UpAt(fd)
      modifies poller, this`connections, this`repr, repr
      ensures Sound() && fresh(repr - old(repr)) && made == old(made) && nextConnId == old(nextConnId)
      ensures NoneAstray() <==> old(NoneAstray()) && !TcpConnection.ClosesTwice(revents, n)
      ensures UpsStay(fd) && Adds(old(Accounts()), Accounts(), fd, revents, n, null)
    {
      var conn :| conn in made && conn.fd == fd && conn.state.Connected?;
      n := Dispatch(conn, revents);
      UpsKeep(conn);
      OnlyHandled(conn, revents, n);
    }

    /** The connections are as before, but for the one of the accepted socket at the end. */
    static ghost predicate Joined(before: seq<TcpConnection>, after: seq<TcpConnection>,
                                  incoming: Socket?, heard: bool) {
      if heard && incoming != null then
        |after| == |before| + 1 && after == before + [after[|before|]] && after[|before|].sock == incoming
      else
        after == before
    }

    /** An event reported for the listening socket, which only has a read handler; it accepts `incoming`, or nothing. */
    method ListenerEvent(revents: Mask, incoming: Socket?)
      requires Sound() && (incoming != null ==> Acceptable(incoming))
      modifies this, poller
      ensures Sound() && fresh(repr - old(repr) - {incoming}) && old(made) <= made
      ensures NoneAstray() <==> old(NoneAstray())
      ensures UpsStay(listener.fd) && Adds(old(Accounts()), Accounts(), listener.fd, revents, 0, incoming)
      ensures Joined(old(made), made, incoming, TcpConnection.Reads(revents))
      ensures TcpConnection.Reads(revents) && incoming != null ==> UpAt(incoming.fd)
    {
      if TcpConnection.Reads(revents) && incoming != null {
        AcceptIncoming(incoming, revents);
      } else {
        NotTheListener();
        AddsNothing(Accounts(), listener.fd, revents, incoming);
      }
    }

    method AcceptIncoming(incoming: Socket, ghost revents: Mask)
      requires Sound() && Acceptable(incoming)
      modifies this, poller
      ensures Sound() && fresh(repr - old(repr) - {incoming}) && old(made) <= made
      ensures NoneAstray() <==> old(NoneAstray())
      ensures UpsStay(listener.fd) && Adds(old(Accounts()), Accounts(), listener.fd, revents, 0, incoming)
      ensures Joined(old(made), made, incoming, true) && UpAt(incoming.fd)
    {
      var conn := NewConnection(incoming);
      NotTheListener();
      UpsGrow(conn);
      AccountsGrow(conn, revents);
    }

    lemma NotTheListener()
      requires Wired()
      ensures forall c :: c in made ==> c.fd != listener.fd
    {
    }

    twostate lemma AccountsGrow(new conn: TcpConnection, new revents: Mask)
      requires made == old(made) + [conn] && OldStand(conn) && conn.state.Connected? && conn.fd == conn.sock.fd
      requires conn.sock.received == [] && conn.sock.sent == [] && conn.sock.offered == [] && conn.sock.asked == 0
      requires forall c :: c in made ==> c.fd != listener.fd
      ensures Adds(old(Accounts()), Accounts(), listener.fd, revents, 0, conn.sock)
    {
    }

    twostate lemma UpsGrow(new conn: TcpConnection)
      requires made == old(made) + [conn] && OldStand(conn)
      ensures UpsStay(listener.fd)
    {
      forall k | old(UpAt(k)) ensures UpAt(k) {
        var c :| c in old(made) && c.fd == k && old(c.state.Connected?);
        assert c in made;
      }
    }

    /** A descriptor of the interest set with what the kernel reports for it, each at most once. */
    predicate Reported(reports: seq<(int, Mask)>)
      reads this, poller
    {
      && (forall i :: 0 <= i < |reports| ==>
            && reports[i].0 in poller.interest
            && TcpConnection.MayReport(poller.interest[reports[i].0], reports[i].1))
      && Distinct(reports)
    }

    static predicate Distinct(reports: seq<(int, Mask)>) {
      forall i, j :: 0 <= i < j < |reports| ==> reports[i].0 != reports[j].0
    }

    /** No connection has this descriptor, nor has the listening socket. */
    predicate Unused(fd: int)
      reads this
    {
      fd != listener.fd && forall c :: c in made ==> c.fd != fd
    }

    /** The socket, if any, that `accept` would return; its peer will send anything. */
    method Incoming() returns (incoming: Socket?)
      requires Valid()
      ensures Valid() && Accounts() == old(Accounts())
      ensures incoming != null ==> fresh(incoming) && incoming.received == [] && incoming.sent == []
      ensures incoming != null ==> incoming.offered == [] && incoming.asked == 0
      ensures incoming != null ==> Unused(incoming.fd)
    {
      var fd: int := *;
      incoming := null;
      if Unused(fd) {
        var bytes: seq<Byte> := *;
        incoming := new Socket(fd, bytes);
      }
    }

    /** What `epoll_wait` reports, and what `accept` would return. */
    method Poll() returns (reports: seq<(int, Mask)>, incoming: Socket?)
      requires Valid() && nextConnId < 0x7FFF_FFFF
      ensures Valid() && Reported(reports) && Accounts() == old(Accounts())
      ensures incoming != null ==> fresh(incoming) && Acceptable(incoming)
    {
      incoming := Incoming();
      reports := *;
      if !Reported(reports) {
        reports := [];
      }
    }

    /** None of the reports for which the number of bytes read is given closed its connection twice. */
    predicate NoneTwice(reports: seq<(int, Mask)>, read: seq<int>)
      requires |read| <= |reports|
    {
      forall i :: 0 <= i < |read| ==> reports[i].0 == listener.fd || !TcpConnection.ClosesTwice(reports[i].1, read[i])
    }

    lemma OneMore(reports: seq<(int, Mask)>, read: seq<int>, n: int)
      requires |read| < |reports|
      ensures NoneTwice(reports, read + [n])
         <==> NoneTwice(reports, read)
              && (reports[|read|].0 == listener.fd || !TcpConnection.ClosesTwice(reports[|read|].1, n))
    {
      var more := read + [n];
      assert forall i :: 0 <= i < |read| ==> more[i] == read[i];
      assert more[|read|] == n;
    }

    /** None of the first k reports is for the descriptor. */
    static predicate Unnamed(reports: seq<(int, Mask)>, k: nat, fd: int)
      requires k <= |reports|
    {
      forall i :: 0 <= i < k ==> reports[i].0 != fd
    }

    /**
     From `before` to `after` each connection handled exactly the report for its
     descriptor, if there is one among those done; new ones have just been opened.
     */
    static ghost predicate Grew(before: map<TcpConnection, Account>, after: map<TcpConnection, Account>,
                                reports: seq<(int, Mask)>, read: seq<int>)
      requires |read| <= |reports|
    {
      && before.Keys <= after.Keys
      && (forall c :: c in after && c !in before ==> after[c] == OPENED && Unnamed(reports, |reports|, c.fd))
      && (forall c, i :: c in before && 0 <= i < |read| && reports[i].0 == c.fd ==>
            TcpConnection.Handled(before[c], after[c], reports[i].1, read[i]))
      && (forall c :: c in before && Unnamed(reports, |read|, c.fd) ==> after[c] == before[c])
    }

    static lemma GrewOn(m0: map<TcpConnection, Account>, m1: map<TcpConnection, Account>,
                        m2: map<TcpConnection, Account>,
                        reports: seq<(int, Mask)>, read: seq<int>, n: int, incoming: Socket?)
      requires |read| < |reports| && Distinct(reports) && Grew(m0, m1, reports, read)
      requires Adds(m1, m2, reports[|read|].0, reports[|read|].1, n, incoming)
      requires incoming != null ==> Unnamed(reports, |reports|, incoming.fd)
      ensures Grew(m0, m2, reports, read + [n])
    {
      var k, more := |read|, read + [n];
      forall c, i | c in m0 && 0 <= i < |more| && reports[i].0 == c.fd
        ensures TcpConnection.Handled(m0[c], m2[c], reports[i].1, more[i])
      {
        if i == k {
          assert Unnamed(reports, k, c.fd);
        } else {
          assert more[i] == read[i];
        }
      }
      forall c | c in m0 && Unnamed(reports, |more|, c.fd) ensures m2[c] == m0[c] {
        assert reports[k].0 != c.fd && Unnamed(reports, k, c.fd);
      }
      forall c | c in m2 && c !in m0 ensures m2[c] == OPENED && Unnamed(reports, |reports|, c.fd) {
        if c in m1 {
          assert reports[k].0 != c.fd;
        }
      }
    }

    /** The report makes the listening socket accept. */
    predicate Accepts(report: (int, Mask)) {
      report.0 == listener.fd && TcpConnection.Reads(report.1)
    }

    /** One of the first k reports does. */
    predicate Heard(reports: seq<(int, Mask)>, k: nat)
      requires k <= |reports|
    {
      exists i :: 0 <= i < k && Accepts(reports[i])
    }

    /** The handlers that one report leads to. */
    method HandleReport(report: (int, Mask), incoming: Socket?) returns (n: int)
      requires Sound()
      requires if report.0 == listener.fd then incoming != null ==> Acceptable(incoming) else UpAt(report.0)
      modifies this, poller, repr
      ensures Sound() && fresh(repr - old(repr) - {incoming}) && old(made) <= made
      ensures NoneAstray()
         <==> old(NoneAstray()) && (report.0 == listener.fd || !TcpConnection.ClosesTwice(report.1, n))
      ensures UpsStay(report.0) && Adds(old(Accounts()), Accounts(), report.0, report.1, n, incoming)
      ensures Joined(old(made), made, incoming, Accepts(report))
      ensures Accepts(report) && incoming != null ==> UpAt(incoming.fd)
      ensures report.0 != listener.fd ==> made == old(made) && nextConnId == old(nextConnId) && fresh(repr - old(repr))
    {
      if report.0 == listener.fd {
        n := 0;
        ListenerEvent(report.1, incoming);
      } else {
        n := ConnectionEvent(report.0, report.1);
        AddsToo(old(Accounts()), Accounts(), report.0, report.1, n, incoming);
      }
    }

    /** From report k on, the descriptors are the listener's or of connections that are up. */
    ghost predicate Pending(reports: seq<(int, Mask)>, k: nat)
      reads this, made
    {
      forall i :: k <= i < |reports| ==> reports[i].0 == listener.fd || UpAt(reports[i].0)
    }

    predicate Listens(reports: seq<(int, Mask)>, k: nat) {
      exists i :: k <= i < |reports| && reports[i].0 == listener.fd
    }

    /** Between two reports of a round, of which those in `read` are done. */
    ghost predicate InRound(reports: seq<(int, Mask)>, read: seq<int>, incoming: Socket?)
      reads this, poller, made, incoming
    {
      && |read| <= |reports| && Pending(reports, |read|)
      && (incoming != null && Listens(reports, |read|) ==> Acceptable(incoming))
      && (incoming != null ==> Unnamed(reports, |reports|, incoming.fd))
      && (incoming != null && Heard(reports, |read|) ==> UpAt(incoming.fd))
      && (NoneAstray() <==> NoneTwice(reports, read))
    }

    lemma StartOfRound(reports: seq<(int, Mask)>, incoming: Socket?)
      requires Valid() && Reported(reports) && (incoming != null ==> Acceptable(incoming))
      ensures Sound() && InRound(reports, [], incoming)
    {
      forall i | 0 <= i < |reports| ensures reports[i].0 == listener.fd || UpAt(reports[i].0) {
        ReportedIsUp(reports[i].0);
      }
    }

    /** The connection is up and in the connection map under its name. */
    predicate Filed(c: TcpConnection)
      reads this, c
    {
      c.state.Connected? && c.name in connections && connections[c.name] == c
    }

    lemma NewestIsFiled(c: TcpConnection)
      requires Sound() && c in made && UpAt(c.sock.fd)
      ensures Filed(c)
    {
      var d :| d in made && d.fd == c.sock.fd && d.state.Connected?;
      assert c.Shape();
      if c != d {
        Apart(c, d);
      }
    }

    lemma EndOfRound()
      requires Sound()
      ensures (Agreement() <==> NoneAstray()) && (NoneAstray() ==> Valid())
    {
    }

    /** A handler leaves the connections of the other reports up, and what is to be accepted acceptable. */
    method HandleNext(reports: seq<(int, Mask)>, k: nat, incoming: Socket?) returns (n: int)
      requires Sound() && k < |reports| && Pending(reports, k) && Distinct(reports)
      requires incoming != null && Listens(reports, k) ==> Acceptable(incoming)
      requires incoming != null ==> Unnamed(reports, |reports|, incoming.fd)
      requires incoming != null && Heard(reports, k) ==> UpAt(incoming.fd)
      modifies this, poller, repr
      ensures Sound() && Pending(reports, k + 1) && fresh(repr - old(repr) - {incoming})
      ensures Joined(old(made), made, incoming, Accepts(reports[k]))
      ensures incoming != null && Heard(reports, k + 1) ==> UpAt(incoming.fd)
      ensures incoming != null && Listens(reports, k + 1) ==> Acceptable(incoming)
      ensures NoneAstray()
         <==> old(NoneAstray()) && (reports[k].0 == listener.fd || !TcpConnection.ClosesTwice(reports[k].1, n))
      ensures Adds(old(Accounts()), Accounts(), reports[k].0, reports[k].1, n, incoming)
    {
      n := HandleReport(reports[k], incoming);
      PendingStays(reports, k);
    }

    twostate lemma PendingStays(reports: seq<(int, Mask)>, new k: nat)
      requires k < |reports| && old(Pending(reports, k)) && Distinct(reports) && UpsStay(reports[k].0)
      ensures Pending(reports, k + 1)
    {
      forall i | k < i < |reports| ensures reports[i].0 == listener.fd || UpAt(reports[i].0) {
        assert reports[i].0 != reports[k].0;
      }
    }

    /** One turn of the loop over the reports, with the bytes counted since `before`. */
    method HandleCounted(reports: seq<(int, Mask)>, read0: seq<int>, incoming: Socket?,
                         ghost before: map<TcpConnection, Account>, ghost there: seq<TcpConnection>)
      returns (read: seq<int>)
      requires Sound() && |read0| < |reports| && InRound(reports, read0, incoming) && Distinct(reports)
      requires Grew(before, Accounts(), reports, read0) && Joined(there, made, incoming, Heard(reports, |read0|))
      modifies this, poller, repr
      ensures Sound() && |read| == |read0| + 1 && InRound(reports, read, incoming)
      ensures (forall o :: o in repr ==> o in old(repr) || o == incoming || fresh(o))
      ensures Grew(before, Accounts(), reports, read) && Joined(there, made, incoming, Heard(reports, |read|))
    {
      ghost var accounts := Accounts();
      var n := HandleNext(reports, |read0|, incoming);
      GrewOn(before, accounts, Accounts(), reports, read0, n, incoming);
      JoinedOn(there, old(made), made, reports, |read0|, incoming);
      StillInRound(reports, read0, n, incoming, old(NoneAstray()));
      read := read0 + [n];
    }

    lemma JoinedOn(m0: seq<TcpConnection>, m1: seq<TcpConnection>, m2: seq<TcpConnection>,
                   reports: seq<(int, Mask)>, k: nat, incoming: Socket?)
      requires k < |reports| && Distinct(reports)
      requires Joined(m0, m1, incoming, Heard(reports, k)) && Joined(m1, m2, incoming, Accepts(reports[k]))
      ensures Joined(m0, m2, incoming, Heard(reports, k + 1))
    {
      assert Heard(reports, k + 1) <==> Heard(reports, k) || Accepts(reports[k]);
    }

    lemma StillInRound(reports: seq<(int, Mask)>, read: seq<int>, n: int, incoming: Socket?, noneBefore: bool)
      requires |read| < |reports| && Pending(reports, |read| + 1)
      requires incoming != null && Listens(reports, |read| + 1) ==> Acceptable(incoming)
      requires incoming != null ==> Unnamed(reports, |reports|, incoming.fd)
      requires incoming != null && Heard(reports, |read| + 1) ==> UpAt(incoming.fd)
      requires noneBefore <==> NoneTwice(reports, read)
      requires NoneAstray()
         <==> noneBefore && (reports[|read|].0 == listener.fd || !TcpConnection.ClosesTwice(reports[|read|].1, n))
      ensures InRound(reports, read + [n], incoming)
    {
      OneMore(reports, read, n);
    }

    /** The loop over the reports. */
    method HandleAll(reports: seq<(int, Mask)>, incoming: Socket?) returns (read: seq<int>)
      requires Sound() && InRound(reports, [], incoming) && Distinct(reports)
      modifies this, poller, repr, incoming
      ensures Sound() && |read| == |reports| && InRound(reports, read, incoming)
      ensures (forall o :: o in repr ==> o in old(repr) || o == incoming || fresh(o))
      ensures Grew(old(Accounts()), Accounts(), reports, read)
      ensures Joined(old(made), made, incoming, Heard(reports, |reports|))
    {
      read := [];
      ghost var before, there := Accounts(), made;
      for k := 0 to |reports|
        invariant Sound() && |read| == k && InRound(reports, read, incoming)
        invariant (forall o :: o in repr ==> o in old(repr) || o == incoming || fresh(o))
        invariant Grew(before, Accounts(), reports, read) && Joined(there, made, incoming, Heard(reports, k))
      {
        read := HandleCounted(reports, read, incoming, before, there);
      }
    }

    /**
     One round of the event loop, for anything the kernel can report. No handler
     takes down a connection whose event is still to come, and afterwards the
     agreement holds if and only if no report closed its connection twice; up to
     that it and the conservation of all bytes hold in any case. `read` has
     the bytes read for each report.
     */
    method RunRound(reports: seq<(int, Mask)>, incoming: Socket?) returns (read: seq<int>, once: bool)
      requires Valid() && Reported(reports) && (incoming != null ==> Acceptable(incoming))
      modifies this, poller, repr, incoming
      ensures Sound() && |read| == |reports|
      ensures forall o :: o in repr ==> o in old(repr) || o == incoming || fresh(o)
      ensures Grew(old(Accounts()), Accounts(), reports, read)
      ensures Joined(old(made), made, incoming, Heard(reports, |reports|))
      ensures incoming != null && Heard(reports, |reports|) ==> Filed(made[|old(made)|])
      ensures (once <==> NoneTwice(reports, read)) && (once <==> Agreement())
    {
      StartOfRound(reports, incoming);
      read := HandleAll(reports, incoming);
      if incoming != null && Heard(reports, |reports|) {
        NewestIsFiled(made[|old(made)|]);
      }
      EndOfRound();
      once := NoneTwice(reports, read);
    }

    /** The body of the loop: wait for events and handle them. */
    method PollAndHandle() returns (once: bool, ghost round: Round)
      requires Valid() && nextConnId < 0x7FFF_FFFF
      modifies this, poller, repr
      ensures Sound() && forall o :: o in repr ==> o in old(repr) || fresh(o)
      ensures round.Complete() && round.after == Accounts()
      ensures Grew(old(Accounts()), round.after, round.reports, round.read)
      ensures (once <==> NoneTwice(round.reports, round.read)) && (once <==> Agreement()) && round.once == once
    {
      var reports, incoming := Poll();
      var read;
      read, once := RunRound(reports, incoming);
      round := Round(reports, read, once, Accounts());
    }

    /** The accounts before round i of a history that started with `start`. */
    static ghost function AccountsBefore(start: map<TcpConnection, Account>, history: seq<Round>, i: nat)
      : map<TcpConnection, Account>
      requires i <= |history|
    {
      if i == 0 then start else history[i - 1].after
    }

    /** In each round each connection handled exactly what was reported for it. */
    ghost predicate Follows(start: map<TcpConnection, Account>, history: seq<Round>) {
      history == [] ||
      (var n := |history| - 1;
       && Follows(start, history[..n]) && history[n].Complete()
       && (history[n].once <==> NoneTwice(history[n].reports, history[n].read))
       && Grew(AccountsBefore(start, history, n), history[n].after, history[n].reports, history[n].read))
    }

    /**
     The loop, for any number of rounds: it is watched until a connection has
     been closed twice, whose channel the poller would go on using, or the
     connection numbers run out. After each round the agreement holds if and
     only if that round did not close a connection twice.
     */
    method Loop(rounds: nat) returns (once: bool, ghost history: seq<Round>)
      requires Valid()
      modifies this, poller, repr
      ensures Sound() && (once <==> Agreement())
      ensures |history| <= rounds && (once && nextConnId < 0x7FFF_FFFF ==> |history| == rounds)
      ensures Follows(old(Accounts()), history) && Accounts() == AccountsBefore(old(Accounts()), history, |history|)
      ensures forall i :: 0 <= i < |history| ==> (history[i].once <==> once || i < |history| - 1)
    {
      once, history := true, [];
      ghost var start := Accounts();
      for k := 0 to rounds
        invariant Sound() && (once <==> Agreement()) && forall o :: o in repr ==> o in old(repr) || fresh(o)
        invariant |history| <= k && (once && nextConnId < 0x7FFF_FFFF ==> |history| == k)
        invariant Follows(start, history) && Accounts() == AccountsBefore(start, history, |history|)
        invariant forall i :: 0 <= i < |history| ==> (history[i].once <==> once || i < |history| - 1)
      {
        if !once || nextConnId >= 0x7FFF_FFFF {
          return;
        }
        once, history := Turn(start, history);
      }
    }

    /** One more round. */
    method Turn(ghost start: map<TcpConnection, Account>, ghost history0: seq<Round>)
      returns (once: bool, ghost history: seq<Round>)
      requires Valid() && nextConnId < 0x7FFF_FFFF
      requires Follows(start, history0) && Accounts() == AccountsBefore(start, history0, |history0|)
      modifies this, poller, repr
      ensures Sound() && (once <==> Agreement()) && forall o :: o in repr ==> o in old(repr) || fresh(o)
      ensures |history| == |history0| + 1 && history0 <= history && history[|history0|].once == once
      ensures Follows(start, history) && Accounts() == AccountsBefore(start, history, |history|)
    {
      ghost var round;
      once, round := PollAndHandle();
      FollowsOn(start, history0, round);
      history := history0 + [round];
    }

    lemma FollowsOn(start: map<TcpConnection, Account>, history: seq<Round>, round: Round)
      requires Follows(start, history) && round.Complete()
      requires round.once <==> NoneTwice(round.reports, round.read)
      requires Grew(AccountsBefore(start, history, |history|), round.after, round.reports, round.read)
      ensures Follows(start, history + [round])
      ensures AccountsBefore(start, history + [round], |history| + 1) == round.after
    {
      var longer := history + [round];
      assert longer[..|history|] == history;
      assert AccountsBefore(start, longer, |history|) == AccountsBefore(start, history, |history|);
    }
  }

  /**
   What happened in one round: the reports, the bytes read for each, whether no
   connection was closed twice, and all accounts afterwards.
   */
  datatype Round =
    Round(reports: seq<(int, Mask)>, read: seq<int>, once: bool, after: map<TcpConnection, Account>)
  {
    predicate Complete() {
      |read| == |reports| && TcpServer.Distinct(reports)
    }
  }
}
