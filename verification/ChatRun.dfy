/** What holds over every run of the chat server, and what its clients therefore see. */
module ChatRun {
  import opened Bytes
  import opened Framing
  import opened ChatSpec

  /** Event i is the connection of c. */
  predicate Joins(t: seq<Event>, i: nat, c: ConnId) {
    i < |t| && t[i] == Connect(c) && c !in At(t, i).net
  }

  /** The time, at most j, after which nothing more is sent to c: its shutdown or disconnect, or else j. */
  function LeaveTime(t: seq<Event>, i: nat, j: nat, c: ConnId): (k: nat)
    requires i < j <= |t|
    ensures i < k <= j
  {
    if j == i + 1 || Live(At(t, j - 1), c) then j else LeaveTime(t, i, j - 1, c)
  }

  /** The broadcasts made while c was connected. */
  function Slice(t: seq<Event>, i: nat, j: nat, c: ConnId): seq<Message>
    requires i < j <= |t|
  {
    LogGrows(t, i, LeaveTime(t, i, j, c));
    LogGrows(t, LeaveTime(t, i, j, c), j);
    Bodies(At(t, j).log[|At(t, i).log|..|At(t, LeaveTime(t, i, j, c)).log|])
  }

  lemma StepLog(s: State, e: Event)
    requires Inv(s)
    ensures s.log <= Step(s, e).log
  {
    if e.Data? && e.c in s.net {
      StepSends(s, e, e.c);
    }
  }

  lemma {:induction false} LogGrows(t: seq<Event>, i: nat, j: nat)
    requires i <= j <= |t|
    ensures At(t, i).log <= At(t, j).log
    decreases j
  {
    if i < j {
      LogGrows(t, i, j - 1);
      RunInv(t, j - 1);
      StepLog(At(t, j - 1), t[j - 1]);
    }
  }

  // --------------------------------------------------- total-order broadcast

  lemma NewEntries(log: seq<Entry>, log': seq<Entry>, lo: nat)
    requires log <= log' && lo <= |log|
    ensures log'[lo..|log'|] == log[lo..|log|] + log'[|log|..]
  {
  }

  lemma SliceExtends(s: State, s': State, c: ConnId, lo: nat, hi: nat)
    requires Sends(s, s', c) && lo <= hi <= |s.log|
    requires s.net[c].sent == EncodeAll(Bodies(s.log[lo..hi]))
    requires Live(s, c) ==> hi == |s.log|
    ensures s'.net[c].sent == EncodeAll(Bodies(s'.log[lo..if Live(s, c) then |s'.log| else hi]))
  {
    if Live(s, c) {
      NewEntries(s.log, s'.log, lo);
      BodiesAppend(s.log[lo..hi], s'.log[hi..]);
      EncodeAllAppend(Bodies(s.log[lo..hi]), Bodies(s'.log[hi..]));
    } else {
      assert s'.log[lo..hi] == s.log[lo..hi];
    }
  }

  /**
   In every run, at every time, the bytes sent to a connection are exactly the
   encoding of the broadcasts made from its join until it left.
   */
  lemma {:induction false} SentIsSlice(t: seq<Event>, i: nat, j: nat, c: ConnId)
    requires Joins(t, i, c) && i < j <= |t|
    ensures c in At(t, j).net
    ensures At(t, j).net[c].sent == EncodeAll(Slice(t, i, j, c))
    ensures Live(At(t, j), c) ==> LeaveTime(t, i, j, c) == j
    decreases j
  {
    if j > i + 1 {
      SentIsSlice(t, i, j - 1, c);
      SentStep(t, i, j, c);
    } else {
      assert At(t, j).log[|At(t, i).log|..|At(t, i).log|] == [];
    }
  }

  lemma SentStep(t: seq<Event>, i: nat, j: nat, c: ConnId)
    requires i + 1 < j <= |t| && c in At(t, j - 1).net
    requires At(t, j - 1).net[c].sent == EncodeAll(Slice(t, i, j - 1, c))
    requires Live(At(t, j - 1), c) ==> LeaveTime(t, i, j - 1, c) == j - 1
    ensures c in At(t, j).net && At(t, j).net[c].sent == EncodeAll(Slice(t, i, j, c))
    ensures Live(At(t, j), c) ==> LeaveTime(t, i, j, c) == j
  {
    RunInv(t, j - 1);
    StepSends(At(t, j - 1), t[j - 1], c);
    var k := LeaveTime(t, i, j - 1, c);
    LogGrows(t, i, k);
    LogGrows(t, k, j - 1);
    SliceExtends(At(t, j - 1), At(t, j), c, |At(t, i).log|, |At(t, k).log|);
  }

  lemma SliceIsShort(t: seq<Event>, i: nat, j: nat, c: ConnId)
    requires i < j <= |t|
    ensures AllShort(Slice(t, i, j, c))
  {
    RunInv(t, j);
    LogGrows(t, i, LeaveTime(t, i, j, c));
    LogGrows(t, LeaveTime(t, i, j, c), j);
    BodiesAt(At(t, j).log[|At(t, i).log|..|At(t, LeaveTime(t, i, j, c)).log|]);
  }

  /**
   End to end: whatever part of its stream a client has received, in whatever
   chunks, it has decoded a prefix of that slice of the log, with no bad
   header; once everything has arrived it has the whole slice.
   */
  lemma ClientSeesSlice(t: seq<Event>, i: nat, j: nat, c: ConnId, chunks: seq<seq<Byte>>)
    requires Joins(t, i, c) && i < j <= |t|
    requires c in At(t, j).net && Concat(chunks) <= At(t, j).net[c].sent
    ensures FeedAll(chunks).messages <= Slice(t, i, j, c) && !FeedAll(chunks).invalid
    ensures Concat(chunks) == At(t, j).net[c].sent ==> FeedAll(chunks) == Decoded(Slice(t, i, j, c), [], false)
  {
    SentIsSlice(t, i, j, c);
    SliceIsShort(t, i, j, c);
    ChunkIndependence(chunks);
    PartialStream(Concat(chunks), Slice(t, i, j, c));
  }

  /**
   Two clients that have received all they were sent agree on every broadcast
   made while both were connected: entry k of the log is what both decoded for it.
   */
  lemma ClientsAgree(t: seq<Event>, j: nat, a: ConnId, ia: nat, b: ConnId, ib: nat, k: nat,
                     chunksA: seq<seq<Byte>>, chunksB: seq<seq<Byte>>)
    requires Joins(t, ia, a) && ia < j <= |t| && Joins(t, ib, b) && ib < j
    requires a in At(t, j).net && Concat(chunksA) == At(t, j).net[a].sent
    requires b in At(t, j).net && Concat(chunksB) == At(t, j).net[b].sent
    requires |At(t, ia).log| <= k < |At(t, LeaveTime(t, ia, j, a)).log|
    requires |At(t, ib).log| <= k < |At(t, LeaveTime(t, ib, j, b)).log|
    ensures var heardA, heardB := FeedAll(chunksA).messages, FeedAll(chunksB).messages;
      && k - |At(t, ia).log| < |heardA|
      && k - |At(t, ib).log| < |heardB|
      && k < |At(t, j).log|
      && heardA[k - |At(t, ia).log|] == At(t, j).log[k].body == heardB[k - |At(t, ib).log|]
  {
    ClientSeesSlice(t, ia, j, a, chunksA);
    ClientSeesSlice(t, ib, j, b, chunksB);
    SliceAt(t, ia, j, a, k);
    SliceAt(t, ib, j, b, k);
  }

  lemma SliceAt(t: seq<Event>, i: nat, j: nat, c: ConnId, k: nat)
    requires i < j <= |t|
    requires |At(t, i).log| <= k < |At(t, LeaveTime(t, i, j, c)).log|
    ensures k < |At(t, j).log| && k - |At(t, i).log| < |Slice(t, i, j, c)|
    ensures Slice(t, i, j, c)[k - |At(t, i).log|] == At(t, j).log[k].body
  {
    LogGrows(t, i, LeaveTime(t, i, j, c));
    LogGrows(t, LeaveTime(t, i, j, c), j);
    BodiesAt(At(t, j).log[|At(t, i).log|..|At(t, LeaveTime(t, i, j, c)).log|]);
  }

  // -------------------------------------------------------- per-sender order

  /** Event e hands the server a chunk from connection c. */
  predicate Reads(s: State, e: Event, c: ConnId) {
    e.Data? && e.c == c && c in s.net && !s.net[c].status.Disconnected?
  }

  /** Every byte the server has read from connection c in the first j events. */
  function Received(t: seq<Event>, j: nat, c: ConnId): seq<Byte>
    requires j <= |t|
  {
    if j == 0 then []
    else Received(t, j - 1, c) + if Reads(At(t, j - 1), t[j - 1], c) then t[j - 1].chunk else []
  }

  lemma StepFrom(s: State, e: Event, c: ConnId)
    requires Inv(s)
    ensures var s' := Step(s, e);
      if Reads(s, e, c) then
        var d := Decode(s.net[c].input + e.chunk);
        c in s'.net && s'.net[c].input == d.rest && From(s'.log, c) == From(s.log, c) + d.messages
      else
        && From(s'.log, c) == From(s.log, c)
        && (c in s.net ==> c in s'.net && s'.net[c].input == s.net[c].input)
        && (c !in s.net && c in s'.net ==> s'.net[c].input == [])
  {
    if e.Data? && Reads(s, e, e.c) {
      var d := Decode(s.net[e.c].input + e.chunk);
      BroadcastKeeps(s, e.c, d.messages);
      BroadcastFrom(s, e.c, d.messages, c);
    }
  }

  /**
   Nothing is invented, dropped, duplicated or reordered on the way in: the
   broadcasts that stem from c are the messages in the bytes read from c.
   */
  lemma {:induction false} BroadcastsFromSender(t: seq<Event>, j: nat, c: ConnId)
    requires j <= |t|
    ensures FromIs(t, j, c)
  {
    if j > 0 {
      BroadcastsFromSender(t, j - 1, c);
      FromStep(t, j, c);
    }
  }

  /** At time j the broadcasts from c are the messages in the bytes read from it, and its unread input is the rest. */
  ghost predicate FromIs(t: seq<Event>, j: nat, c: ConnId)
    requires j <= |t|
  {
    var s, got := At(t, j), Received(t, j, c);
    if c in s.net then Decode(got).messages == From(s.log, c) && Decode(got).rest == s.net[c].input
    else got == [] && From(s.log, c) == []
  }

  lemma FromStep(t: seq<Event>, j: nat, c: ConnId)
    requires 0 < j <= |t| && FromIs(t, j - 1, c)
    ensures FromIs(t, j, c)
  {
    var got := Received(t, j - 1, c);
    RunInv(t, j - 1);
    StepFrom(At(t, j - 1), t[j - 1], c);
    if Reads(At(t, j - 1), t[j - 1], c) {
      DecodeResume(got, t[j - 1].chunk);
    } else {
      assert Received(t, j, c) == got;
    }
  }

  /** A client that wrote `ms` has had a prefix of it broadcast, in order; all of it once its bytes arrived. */
  lemma WrittenIsBroadcast(t: seq<Event>, j: nat, c: ConnId, ms: seq<Message>)
    requires j <= |t| && AllShort(ms) && Received(t, j, c) <= EncodeAll(ms)
    ensures From(At(t, j).log, c) <= ms
    ensures Received(t, j, c) == EncodeAll(ms) && c in At(t, j).net ==> From(At(t, j).log, c) == ms
  {
    BroadcastsFromSender(t, j, c);
    PartialStream(Received(t, j, c), ms);
  }

  // ------------------------------------------------- who is still connected

  /** Between its join and time j the connection went down. */
  predicate WentDown(t: seq<Event>, i: nat, j: nat, c: ConnId)
    requires i < j <= |t|
  {
    exists k :: i < k < j && t[k] == Disconnect(c)
  }

  lemma StepStatus(s: State, e: Event, c: ConnId)
    requires Inv(s) && c in s.net
    ensures c in Step(s, e).net
    ensures var was, now := s.net[c].status, Step(s, e).net[c].status;
      if e == Disconnect(c) then now == Disconnected
      else if Reads(s, e, c) && Decode(s.net[c].input + e.chunk).invalid && was == Connected then
        now == Disconnecting
      else now == was
  {
    if e.Data? && Reads(s, e, e.c) {
      BroadcastKeeps(s, e.c, Decode(s.net[e.c].input + e.chunk).messages);
    }
  }

  /** The fate of a connection from the events and the bytes read from it alone. */
  function Fate(t: seq<Event>, i: nat, j: nat, c: ConnId): Status
    requires i < j <= |t|
  {
    if WentDown(t, i, j, c) then Disconnected
    else if Decode(Received(t, j, c)).invalid then Disconnecting
    else Connected
  }

  /**
   A connection is down once it disconnected, shut down by the server from the
   first bad header on, and otherwise connected.
   */
  lemma {:induction false} StatusIs(t: seq<Event>, i: nat, j: nat, c: ConnId)
    requires Joins(t, i, c) && i < j <= |t|
    ensures c in At(t, j).net && At(t, j).net[c].status == Fate(t, i, j, c)
    decreases j
  {
    if j == i + 1 {
      FateAtJoin(t, i, c);
    } else {
      StatusIs(t, i, j - 1, c);
      FateStep(t, i, j, c);
    }
  }

  lemma FateAtJoin(t: seq<Event>, i: nat, c: ConnId)
    requires Joins(t, i, c)
    ensures c in At(t, i + 1).net && At(t, i + 1).net[c] == FRESH && Fate(t, i, i + 1, c) == Connected
  {
    BroadcastsFromSender(t, i, c);
    assert Received(t, i + 1, c) == [];
  }

  lemma FateStep(t: seq<Event>, i: nat, j: nat, c: ConnId)
    requires i + 1 < j <= |t| && c in At(t, j - 1).net
    requires At(t, j - 1).net[c].status == Fate(t, i, j - 1, c)
    ensures c in At(t, j).net && At(t, j).net[c].status == Fate(t, i, j, c)
  {
    RunInv(t, j - 1);
    StepStatus(At(t, j - 1), t[j - 1], c);
    MoreReceived(t, j, c);
    WentDownStep(t, i, j, c);
  }

  lemma WentDownStep(t: seq<Event>, i: nat, j: nat, c: ConnId)
    requires i + 1 < j <= |t|
    ensures WentDown(t, i, j, c) <==> WentDown(t, i, j - 1, c) || t[j - 1] == Disconnect(c)
  {
  }

  /**
   What one more event does to the bytes read from c: a bad header stays one,
   and the unread input shows a new one.
   */
  lemma MoreReceived(t: seq<Event>, j: nat, c: ConnId)
    requires 0 < j <= |t| && c in At(t, j - 1).net
    ensures var s, e, was, now :=
        At(t, j - 1), t[j - 1], Decode(Received(t, j - 1, c)).invalid, Decode(Received(t, j, c)).invalid;
      if Reads(s, e, c) then (was ==> now) && now == Decode(s.net[c].input + e.chunk).invalid else now == was
  {
    var s, e, got := At(t, j - 1), t[j - 1], Received(t, j - 1, c);
    BroadcastsFromSender(t, j - 1, c);
    if Reads(s, e, c) {
      DecodeResume(got, e.chunk);
      DeliveryIsMonotone(got, e.chunk);
    } else {
      assert Received(t, j, c) == got;
    }
  }

  /** A connection is live from its join until it disconnects or sends a bad header. */
  lemma LiveIff(t: seq<Event>, i: nat, j: nat, c: ConnId)
    requires Joins(t, i, c) && i < j <= |t|
    ensures Live(At(t, j), c) <==> !WentDown(t, i, j, c) && !Decode(Received(t, j, c)).invalid
  {
    StatusIs(t, i, j, c);
  }
}
