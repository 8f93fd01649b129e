/** The connection buffer over a growing array, and the socket it is filled from. */
module Buffer {
  import opened Bytes

  const HEAD: nat := 8
  const INITIAL_SIZE: nat := 1024

  /**
   A connected socket as the kernel offers it. Both calls may transfer less
   than asked for, or nothing; `received` and `sent` record what went through,
   `offered` what each call of `send` was given, `asked` how often `recv` was
   called, and `dry` whether its last call brought nothing.
   */
  class Socket {
    const fd: int
    var incoming: seq<Byte>
    ghost var received: seq<Byte>
    ghost var sent: seq<Byte>
    ghost var offered: seq<seq<Byte>>
    ghost var asked: nat
    ghost var dry: bool

    constructor (fd: int, incoming: seq<Byte>)
      ensures this.fd == fd && this.incoming == incoming && received == [] && sent == []
      ensures offered == [] && asked == 0 && !dry
    {
      this.fd, this.incoming := fd, incoming;
      received, sent, offered, asked, dry := [], [], [], 0, false;
    }

    method Recv(capacity: nat) returns (l: int, data: seq<Byte>)
      modifies this
      ensures l <= capacity && sent == old(sent) && offered == old(offered)
      ensures l > 0 ==> |data| == l
      ensures l <= 0 ==> data == []
      ensures received == old(received) + data && data + incoming == old(incoming)
      ensures asked == old(asked) + 1 && (dry <==> l <= 0)
    {
      var k: nat :| k <= |incoming| && k <= capacity;
      data, incoming := incoming[..k], incoming[k..];
      received := received + data;
      l := k;
      if k == 0 {
        l :| l == 0 || l == -1;
      }
      asked, dry := asked + 1, l <= 0;
    }

    method Send(data: seq<Byte>) returns (n: int)
      modifies this
      ensures n <= |data| && received == old(received) && incoming == old(incoming)
      ensures sent == if n > 0 then old(sent) + data[..n] else old(sent)
      ensures offered == old(offered) + [data] && asked == old(asked) && dry == old(dry)
    {
      n :| -1 <= n <= |data|;
      if n > 0 {
        sent := sent + data[..n];
      }
      offered := offered + [data];
    }
  }

  class Buffer {
    var buffer: array<Byte>
    var readIndex: int
    var writeIndex: int

    ghost predicate Valid()
      reads this
    {
      HEAD <= readIndex <= writeIndex <= buffer.Length
    }

    /** The readable bytes, as a queue. */
    ghost function Contents(): seq<Byte>
      requires Valid()
      reads this, buffer
    {
      buffer[readIndex..writeIndex]
    }

    constructor (initialSize: nat)
      ensures Valid() && fresh(buffer) && Contents() == [] && WritableBytes() == initialSize
    {
      buffer := new Byte[HEAD + initialSize](_ => 0);
      readIndex, writeIndex := HEAD, HEAD;
    }

    function ReadableBytes(): (n: int)
      reads this
      ensures Valid() ==> n >= 0
    {
      writeIndex - readIndex
    }

    function WritableBytes(): (n: int)
      reads this
      ensures Valid() ==> n >= 0
    {
      buffer.Length - writeIndex
    }

    /** Copies out what `peek` points at. */
    method Peek() returns (data: seq<Byte>)
      requires Valid()
      ensures data == Contents()
    {
      data := buffer[readIndex..writeIndex];
    }

    method RetrieveAll()
      requires Valid()
      modifies this`readIndex, this`writeIndex
      ensures Valid() && Contents() == [] && readIndex == 8
    {
      readIndex, writeIndex := HEAD, HEAD;
    }

    method Retrieve(len: nat)
      requires Valid()
      modifies this`readIndex, this`writeIndex
      ensures Valid()
      ensures Contents() == if len < |old(Contents())| then old(Contents())[len..] else []
      ensures len < |old(Contents())| ==> WritableBytes() == old(WritableBytes())
      ensures len >= |old(Contents())| ==> WritableBytes() == buffer.Length - 8
    {
      if len < ReadableBytes() {
        readIndex := readIndex + len;
      } else {
        RetrieveAll();
      }
    }

    /** Grows the array when the bytes do not fit behind the write index; it never moves them to the front. */
    method MakeSpace(len: nat)
      requires Valid()
      modifies this`buffer
      ensures Valid() && Contents() == old(Contents())
      ensures if len > old(WritableBytes()) then fresh(buffer) && WritableBytes() == len else buffer == old(buffer)
    {
      if len > WritableBytes() {
        var old_, size := buffer, writeIndex + len;
        var resized := new Byte[size](_ => 0);
        forall i | 0 <= i < writeIndex {
          resized[i] := old_[i];
        }
        buffer := resized;
        assert buffer[readIndex..writeIndex] == old_[readIndex..writeIndex];
      }
    }

    method Append(data: seq<Byte>)
      requires Valid()
      modifies this, buffer
      ensures Valid() && Contents() == old(Contents()) + data
      ensures if |data| > old(WritableBytes()) then fresh(buffer) && WritableBytes() == 0 else buffer == old(buffer)
    {
      MakeSpace(|data|);
      Fill(data);
    }

    /** Places received bytes, which never exceed the room offered, behind the write index. */
    method Fill(data: seq<Byte>)
      requires Valid() && |data| <= WritableBytes()
      modifies this`writeIndex, buffer
      ensures Valid() && Contents() == old(Contents()) + data && buffer == old(buffer)
    {
      var w, l := writeIndex, |data|;
      forall i | 0 <= i < l {
        buffer[w + i] := data[i];
      }
      writeIndex := w + l;
      assert buffer[w..w + l] == data by {
        assert forall i :: 0 <= i < l ==> buffer[w..w + l][i] == buffer[w + i] == data[i];
      }
      assert buffer[readIndex..w] == old(Contents());
      assert Contents() == buffer[readIndex..w] + buffer[w..w + l];
    }

    /**
     Receives until nothing comes or the room is used up, without growing the
     array. The count is never negative, so the caller's error branch is dead.
     */
    method ReadFd(sock: Socket) returns (n: int, ghost data: seq<Byte>)
      requires Valid()
      modifies this`writeIndex, buffer, sock
      ensures Valid() && buffer == old(buffer) && readIndex == old(readIndex)
      ensures 0 <= n == |data| <= old(WritableBytes())
      ensures sock.received == old(sock.received) + data && sock.sent == old(sock.sent)
      ensures Contents() == old(Contents()) + data
      ensures sock.dry && sock.asked > old(sock.asked) && sock.offered == old(sock.offered)
    {
      n, data := 0, [];
      while true
        invariant Valid() && buffer == old(buffer) && readIndex == old(readIndex)
        invariant 0 <= n == |data| && n + WritableBytes() == old(WritableBytes())
        invariant sock.received == old(sock.received) + data && sock.sent == old(sock.sent)
        invariant Contents() == old(Contents()) + data
        invariant sock.asked >= old(sock.asked) && sock.offered == old(sock.offered)
        decreases WritableBytes()
      {
        var writable := WritableBytes();
        var l, chunk := sock.Recv(writable);
        if l <= 0 {
          break;
        }
        Fill(chunk);
        n, data := n + l, data + chunk;
      }
    }
  }
}
