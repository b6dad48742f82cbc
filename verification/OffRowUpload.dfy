/**
 Sending a large object (dm/zr.go:46-110, dm/a.go:797-818): a binder reads the
 object piece by piece into a queue, and the upload loop sends the queue in
 messages of bounded size.
 */
module OffRowUpload {
  import opened ByteQueue
  import opened Bytes
  import opened Sequences

  /** Dm_build_411: the most a message carries and a binder reads at once. */
  const READ_LEN: nat := 16000
  /** Dm_build_408: objects longer than this are sent off row. */
  const OFF_ROW: nat := 2048

  /** A byte slice is read whole, a blob in pieces. */
  datatype Object = Bytes(data: seq<Byte>) | Blob(data: seq<Byte>)

  /** The binder counts blob positions in an int32. */
  predicate Sized(obj: Object) {
    obj.Blob? ==> |obj.data| <= INT32_MAX
  }

  /** DmBlob.getBytes(pos, length): positions count from one; a request past the
      end is cut short. */
  function GetBytes(data: seq<Byte>, pos: nat, length: nat): seq<Byte>
    requires 1 <= pos <= |data| + 1
  {
    var rest := data[pos - 1..];
    if length > |rest| then rest else rest[..length]
  }

  lemma Whole(data: seq<Byte>)
    ensures data[0..] == data
  {}

  lemma OnePiece(before: seq<Byte>, data: seq<Byte>, start: nat, length: nat)
    requires start + length <= |data|
    ensures before + data[start..start + length] + data[start + length..] == before + data[start..]
  {
    assert data[start..] == data[start..start + length] + data[start + length..];
  }

  class Binder {
    const obj: Object
    var readOver: bool
    var buffer: Queue
    var position: nat
    var offRow: bool

    /** What has not been read from the object yet. */
    ghost function Unread(): seq<Byte>
      reads this
    {
      if readOver then []
      else if obj.Blob? && position <= |obj.data| then obj.data[position..] else obj.data
    }

    ghost predicate Valid()
      reads this, buffer, buffer.chunks
    {
      && buffer.Valid()
      && Sized(obj)
      && (!readOver ==> obj.Blob? && position < |obj.data|)
    }

    /** `newOffRowBytesBinder`, `newOffRowBlobBinder`: the first piece is read at once. */
    constructor (obj: Object)
      requires Sized(obj)
      ensures Valid() && this.obj == obj && fresh(buffer) && fresh(buffer.chunks)
      ensures buffer.Content() + Unread() == obj.data
      ensures offRow <==> |buffer.Content()| > 2048
    {
      this.obj := obj;
      readOver := false;
      buffer := new Queue();
      position := 0;
      offRow := false;
      new;
      ghost var unread := Unread();
      ReadObject(buffer);
      assert [] + unread == obj.data;
      assert buffer.chunks[0..] == buffer.chunks;
      offRow := buffer.size > OFF_ROW;
    }

    /** The reading half of `read`: the next piece of the object goes to `buf`. */
    method ReadObject(buf: Queue)
      requires buf.Valid() && !readOver && Sized(obj)
      requires position <= |obj.data| && (obj.Bytes? ==> position == 0)
      modifies this`readOver, this`position, buf
      ensures buf.Valid() && buf.Content() + Unread() == old(buf.Content()) + old(Unread())
      ensures old(buf.chunks) <= buf.chunks && fresh(buf.chunks[|old(buf.chunks)|..])
      ensures !readOver ==> position < |obj.data| && obj.Blob?
      ensures old(Unread()) != [] ==> |Unread()| < |old(Unread())|
      ensures readOver || |buf.Content()| >= 16000
    {
      hide Concat, Hold;
      match obj
      case Bytes(data) =>
        buf.Append(data, 0, |data|);
        readOver := true;
        assert data[0..0 + |data|] == data;
      case Blob(data) =>
        ghost var before, start := buf.Content(), position;
        assert Unread() == data[start..] by { Whole(data); }
        var bytes := NextPiece(data);
        OnePiece(before, data, start, |bytes|);
        assert bytes[0..0 + |bytes|] == bytes;
        buf.Append(bytes, 0, |bytes|);
    }

    /** The next piece of a blob: READ_LEN bytes, or what is left. */
    method NextPiece(data: seq<Byte>) returns (bytes: seq<Byte>)
      requires obj == Blob(data) && Sized(obj) && !readOver && position <= |data|
      modifies this`readOver, this`position
      ensures position == old(position) + |bytes| <= |data|
      ensures bytes == data[old(position)..position] && Unread() == data[position..]
      ensures readOver <==> position == |data|
      ensures readOver || |bytes| == 16000
    {
      var totalLen := |data|;
      var leaveLen := totalLen - position;
      var readLen := leaveLen;
      if leaveLen > READ_LEN {
        readLen := READ_LEN;
      }
      bytes := GetBytes(data, position + 1, readLen);
      position := position + readLen;
      if position == totalLen {
        readOver := true;
      }
    }

    /** `read`: what was read ahead first, then the object. */
    method Read(buf: Queue)
      requires Valid() && buf.Valid() && buf != buffer
      requires forall c :: c in buf.chunks ==> c !in buffer.chunks
      modifies this`readOver, this`position, buf, buffer
      ensures Valid() && buf.Valid()
      ensures buf.Content() + Unread() == old(buf.Content()) + old(buffer.Content()) + old(Unread())
      ensures old(buf.chunks) <= buf.chunks
      ensures forall c :: c in buf.chunks[|old(buf.chunks)|..] ==> fresh(c) || c in old(buffer.chunks)
      ensures buffer.chunks == []
      ensures old(buffer.Content()) == [] && old(Unread()) != [] ==> |Unread()| < |old(Unread())|
      ensures old(buffer.Content()) == [] && !old(readOver) ==> readOver || |buf.Content()| >= 16000
    {
      hide Concat, Hold;
      ghost var sofar, unread := buf.Content(), Unread();
      assert buffer.size == 0 ==> sofar + buffer.Content() == sofar;
      if buffer.size > 0 {
        buf.MoveAll(buffer);
      } else if !readOver {
        ReadObject(buf);
      }
      buffer.EmptyContent();
    }
  }

  /** The server as the upload sees it: it takes some messages and then may fail. */
  class Server {
    var received: seq<seq<Byte>>
    const accepts: nat

    constructor (accepts: nat)
      ensures received == [] && this.accepts == accepts
    {
      received, this.accepts := [], accepts;
    }

    method Put(message: seq<Byte>) returns (ok: bool)
      modifies this
      ensures ok <==> |old(received)| < accepts
      ensures received == if ok then old(received) + [message] else old(received)
    {
      ok := |received| < accepts;
      if ok {
        received := received + [message];
      }
    }
  }

  /** Every message is full but the last, which is not empty. */
  predicate Cut(messages: seq<seq<Byte>>) {
    && (forall i :: 0 <= i < |messages| - 1 ==> |messages[i]| == 16000)
    && (messages != [] ==> 1 <= |messages[|messages| - 1]| <= 16000)
  }

  /** Read from the binder when there is too little to send (dm/a.go:802-809), then
      take one message from the queue. */
  method NextMessage(binder: Binder, queue: Queue) returns (message: seq<Byte>)
    requires binder.Valid() && queue.Valid() && queue != binder.buffer
    requires !binder.readOver || queue.size > 0
    requires binder.buffer.chunks == []
    modifies binder`readOver, binder`position, binder.buffer, queue, set c | c in queue.chunks
    ensures binder.Valid() && queue.Valid()
    ensures message + queue.Content() + binder.Unread() == old(queue.Content()) + old(binder.Unread())
    ensures 1 <= |message| <= 16000
    ensures |message| < 16000 ==> queue.Content() == [] && binder.Unread() == []
    ensures binder.buffer.chunks == []
    ensures forall c :: c in queue.chunks ==> c in old(queue.chunks) || fresh(c)
  {
    hide Concat, Hold;
    binder.buffer.EmptyContent();
    ghost var before, chunks := queue.Content(), queue.chunks;
    assert before + [] == before;
    if !binder.readOver && queue.size < READ_LEN {
      binder.Read(queue);
    }
    NewOrOld(chunks, queue.chunks);
    ghost var content := queue.Content();
    var n := if queue.size > READ_LEN then READ_LEN else queue.size;
    var buffer := new Buffer();
    var drained := queue.Drain(buffer, n);
    message := buffer.bytes;
    assert message == [] + content[..drained] == content[..drained];
    assert content == content[..drained] + content[drained..];
  }

  lemma NewOrOld(before: seq<Chunk>, now: seq<Chunk>)
    requires before <= now
    ensures forall c :: c in now ==> c in before || c in now[|before|..]
  {
    assert now == before + now[|before|..];
  }

  /** The binder and the queue with what it has read so far. */
  method Start(obj: Object) returns (binder: Binder, queue: Queue)
    requires Sized(obj)
    ensures fresh(binder) && fresh(queue) && fresh(binder.buffer) && queue != binder.buffer
    ensures binder.Valid() && queue.Valid() && binder.buffer.chunks == []
    ensures forall c :: c in queue.chunks ==> fresh(c)
    ensures queue.Content() + binder.Unread() == obj.data
  {
    hide Concat, Hold;
    binder := new Binder(obj);
    queue := new Queue();
    ghost var read := binder.buffer.Content();
    assert queue.Content() + read == read;
    ghost var readAhead := binder.buffer.chunks;
    assert forall c :: c in readAhead ==> fresh(c);
    binder.Read(queue);
    NewOrOld([], queue.chunks);
  }

  /** What was sent and what is left, after one more message was taken. */
  lemma OneMore(sent: seq<Byte>, message: seq<Byte>, queued: seq<Byte>, unread: seq<Byte>, left: seq<Byte>)
    requires message + queued + unread == left
    ensures sent + left == (sent + message) + (queued + unread)
  {}

  /** After a message was accepted, either it was full or it was the last one. */
  predicate MoreOrDone(received: seq<seq<Byte>>, left: nat) {
    received == [] || |received[|received| - 1]| == 16000 || left == 0
  }

  lemma SentMore(received: seq<seq<Byte>>, message: seq<Byte>, left: nat, next: nat)
    requires Cut(received) && MoreOrDone(received, left) && left > 0
    requires 1 <= |message| <= 16000 && (|message| < 16000 ==> next == 0)
    ensures Cut(received + [message]) && MoreOrDone(received + [message], next)
    ensures Concat(received + [message]) == Concat(received) + message
  {
    ConcatAppend(received, [message]);
    ConcatOne(message);
    hide Concat;
  }

  /** `dm_build_253`: for every object, a run the server accepts sends messages of the
      limit, only the last one shorter, whose bytes in order are exactly the object; a
      run the server stops has sent a beginning of it. */
  method Upload(obj: Object, server: Server) returns (ok: bool)
    requires Sized(obj) && server.received == []
    modifies server
    ensures Cut(server.received)
    ensures ok ==> Concat(server.received) == obj.data
    ensures !ok ==> Concat(server.received) <= obj.data && |server.received| == server.accepts
  {
    hide Concat, Hold, Cut, MoreOrDone;
    var binder, queue := Start(obj);
    NothingSent();
    while !binder.readOver || queue.size > 0
      invariant fresh(binder) && fresh(queue) && fresh(binder.buffer) && queue != binder.buffer
      invariant binder.Valid() && queue.Valid() && binder.buffer.chunks == []
      invariant forall c :: c in queue.chunks ==> fresh(c)
      invariant Cut(server.received) && |server.received| <= server.accepts
      invariant MoreOrDone(server.received, |queue.Content()| + |binder.Unread()|)
      invariant Concat(server.received) + (queue.Content() + binder.Unread()) == obj.data
      decreases |queue.Content()| + |binder.Unread()|
    {
      ghost var left, sent := queue.Content() + binder.Unread(), Concat(server.received);
      var message := NextMessage(binder, queue);
      OneMore(sent, message, queue.Content(), binder.Unread(), left);
      SentMore(server.received, message, |left|, |queue.Content()| + |binder.Unread()|);
      var accepted := server.Put(message);
      if !accepted {
        return false;
      }
    }
    ok := true;
  }

  lemma NothingSent()
    ensures Cut([]) && (forall left :: MoreOrDone([], left)) && Concat<Byte>([]) == []
  {}
}
