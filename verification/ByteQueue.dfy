/**
 The chunk queue (dm/d.go): byte slices are queued without copying and drained
 from the front. Whatever the chunk boundaries, it behaves as one first-in
 first-out sequence of bytes.
 */
module ByteQueue {
  import opened Bytes
  import opened Sequences

  lemma ConcatHead(parts: seq<seq<Byte>>, k: nat)
    requires parts != [] && k <= |parts[0]|
    ensures |parts[0]| <= |Concat(parts)|
    ensures Concat(parts)[..k] == parts[0][..k]
    ensures Concat(parts)[k..] == Concat([parts[0][k..]] + parts[1..])
    ensures k == |parts[0]| ==> Concat(parts)[k..] == Concat(parts[1..])
  {
    assert ([parts[0][k..]] + parts[1..])[1..] == parts[1..];
  }

  lemma ConcatUnfold(parts: seq<seq<Byte>>)
    requires parts != []
    ensures Concat(parts) == parts[0] + Concat(parts[1..])
  {}

  lemma ConcatNonEmpty(parts: seq<seq<Byte>>)
    requires forall i :: 0 <= i < |parts| ==> parts[i] != []
    ensures Concat(parts) == [] <==> parts == []
  {}

  /** A slice of bytes and how much of it is left (`dm_build_1278`). */
  class Chunk {
    const data: seq<Byte>
    var offset: nat
    var length: nat

    ghost predicate Is(bytes: seq<Byte>)
      reads this
    {
      offset + length <= |data| && bytes == data[offset..offset + length]
    }

    constructor (data: seq<Byte>, offset: nat, length: nat)
      requires offset + length <= |data|
      ensures Is(data[offset..offset + length]) && this.data == data && this.length == length
    {
      this.data, this.offset, this.length := data, offset, length;
    }

    /** Hands out up to n bytes from the front. */
    method Take(n: nat, ghost all: seq<Byte>) returns (bytes: seq<Byte>)
      requires Is(all)
      modifies this
      ensures bytes == all[..if n < |all| then n else |all|]
      ensures Is(all[|bytes|..]) && length == |all| - |bytes|
    {
      var k := if length <= n then length else n;
      bytes := data[offset..offset + k];
      offset := offset + k;
      length := length - k;
    }
  }

  /** The byte buffer a message is built in. */
  class Buffer {
    var bytes: seq<Byte>

    constructor ()
      ensures bytes == []
    {
      bytes := [];
    }
  }

  lemma TakeNext(all: seq<Byte>, n: nat, bytes: seq<Byte>)
    requires n <= |all| && bytes <= all[n..]
    ensures n + |bytes| <= |all| && all[..n] + bytes == all[..n + |bytes|]
    ensures all[n..][|bytes|..] == all[n + |bytes|..]
  {}

  /** Moving the first of some distinct chunks over. */
  lemma MoveFirst(mine: seq<Chunk>, others: seq<Chunk>)
    requires others != [] && forall c :: c in mine ==> c !in others
    requires forall i, j :: 0 <= i < j < |others| ==> others[i] != others[j]
    ensures mine + [others[0]] + others[1..] == mine + others
    ensures forall c :: c in mine + [others[0]] ==> c !in others[1..]
  {
    assert forall i :: 1 <= i < |others| ==> others[1..][i - 1] == others[i] && others[i] != others[0];
  }

  /** Each chunk holds its part, and no chunk is empty or queued twice. */
  ghost predicate Hold(chunks: seq<Chunk>, parts: seq<seq<Byte>>)
    reads chunks
  {
    && |chunks| == |parts|
    && (forall i :: 0 <= i < |chunks| ==> chunks[i].Is(parts[i]) && parts[i] != [])
    && (forall i, j :: 0 <= i < j < |chunks| ==> chunks[i] != chunks[j])
  }

  lemma HoldRest(chunks: seq<Chunk>, parts: seq<seq<Byte>>)
    requires chunks != [] && Hold(chunks, parts)
    ensures parts != [] && Hold(chunks[1..], parts[1..])
    ensures chunks[0] !in chunks[1..] && chunks[0].Is(parts[0]) && parts[0] != []
  {
    assert forall i :: 1 <= i < |chunks| ==> chunks[i] != chunks[0];
    assert forall i :: 0 <= i < |parts[1..]| ==> chunks[1..][i] == chunks[i + 1] && parts[1..][i] == parts[i + 1];
  }

  lemma HoldMore(chunk: Chunk, part: seq<Byte>, chunks: seq<Chunk>, parts: seq<seq<Byte>>)
    requires Hold(chunks, parts) && chunk.Is(part) && part != [] && chunk !in chunks
    ensures Hold([chunk] + chunks, [part] + parts)
  {}

  /** `Dm_build_1224`: the head chunk, the list of the others, the total size.
      Ghost state: all chunks in order, and what each holds. */
  class Queue {
    var rest: seq<Chunk>
    var head: Chunk?
    var size: int
    ghost var chunks: seq<Chunk>
    ghost var parts: seq<seq<Byte>>

    /** The chunks are in order; the size may be out of date. */
    ghost predicate Linked()
      reads this, chunks
    {
      && (if head == null then chunks == [] && rest == []
          else chunks != [] && chunks[0] == head && chunks[1..] == rest)
      && Hold(chunks, parts)
    }

    ghost predicate Valid()
      reads this, chunks
    {
      Linked() && size == |Content()|
    }

    ghost function Content(): seq<Byte>
      reads this
    {
      Concat(parts)
    }

    /** Nothing but an empty list of chunks has no content. */
    lemma EmptyContent()
      requires Valid()
      ensures Content() == [] <==> chunks == []
    {
      ConcatNonEmpty(parts);
    }

    constructor ()
      ensures Valid() && Content() == [] && chunks == []
    {
      rest, head, size, chunks, parts := [], null, 0, [], [];
    }

    /** `dm_build_1268`: the next chunk becomes the head. */
    method Pop()
      requires chunks != [] && chunks[0] == head && chunks[1..] == rest
      modifies this`head, this`rest, this`chunks
      ensures chunks == old(chunks)[1..]
      ensures if head == null then chunks == [] && rest == []
              else chunks != [] && chunks[0] == head && chunks[1..] == rest
    {
      if rest == [] {
        head := null;
      } else {
        head := rest[0];
        rest := rest[1..];
      }
      chunks := chunks[1..];
    }

    /** `dm_build_1265`: queue a chunk object, unless it is empty. */
    method AddChunk(chunk: Chunk, ghost bytes: seq<Byte>)
      requires Valid() && chunk.Is(bytes) && chunk !in chunks
      modifies this
      ensures Valid() && Content() == old(Content()) + bytes
      ensures parts == if bytes == [] then old(parts) else old(parts) + [bytes]
      ensures chunks == if bytes == [] then old(chunks) else old(chunks) + [chunk]
    {
      hide Concat;
      if chunk.length == 0 {
        assert Content() + bytes == Content();
        return;
      }
      if head == null {
        head := chunk;
      } else {
        rest := rest + [chunk];
      }
      size := size + chunk.length;
      ConcatAppend(parts, [bytes]);
      ConcatOne(bytes);
      parts := parts + [bytes];
      chunks := chunks + [chunk];
    }

    /** `Dm_build_1250`: queue data[offset..offset+length]. */
    method Append(data: seq<Byte>, offset: nat, length: nat)
      requires Valid() && offset + length <= |data|
      modifies this
      ensures Valid() && Content() == old(Content()) + data[offset..offset + length]
      ensures old(chunks) <= chunks && fresh(chunks[|old(chunks)|..])
    {
      if length == 0 {
        assert Content() + data[offset..offset] == Content();
        return;
      }
      var chunk := new Chunk(data, offset, length);
      AddChunk(chunk, data[offset..offset + length]);
    }

    /** `Dm_build_1231`: move up to n bytes from the front into a buffer. */
    method Drain(buffer: Buffer, n: nat) returns (drained: nat)
      requires Valid()
      modifies this, buffer, set c | c in chunks
      ensures Valid() && forall c :: c in chunks ==> c in old(chunks)
      ensures drained == if n < |old(Content())| then n else |old(Content())|
      ensures buffer.bytes == old(buffer.bytes) + old(Content())[..drained]
      ensures Content() == old(Content())[drained..]
    {
      hide Concat, Hold;
      drained := 0;
      ghost var all, sent := Content(), buffer.bytes;
      while drained < n && head != null
        invariant Valid() && drained <= n
        invariant forall c :: c in chunks ==> c in old(chunks)
        invariant drained <= |all| && Content() == all[drained..]
        invariant buffer.bytes == sent + all[..drained]
        decreases n - drained
      {
        assert head in chunks;
        var bytes := TakeFromHead(n - drained);
        buffer.bytes := buffer.bytes + bytes;
        TakeNext(all, drained, bytes);
        Regroup(sent, all[..drained], bytes);
        drained := drained + |bytes|;
      }
      EmptyContent();
    }

    /** One round of the draining loop: part of the head chunk, or all of it. */
    method TakeFromHead(n: nat) returns (bytes: seq<Byte>)
      requires Valid() && head != null && n > 0
      modifies this, head
      ensures Valid() && forall c :: c in chunks ==> c in old(chunks)
      ensures 0 < |bytes| <= n && bytes <= old(Content())
      ensures Content() == old(Content())[|bytes|..]
    {
      hide Concat;
      ghost var now, first, behind := chunks, parts[0], parts[1..];
      HoldRest(now, parts);
      hide Hold;
      bytes := head.Take(n, first);
      ConcatHead(parts, |bytes|);
      if head.length == 0 {
        parts := behind;
        Pop();
      } else {
        HoldMore(head, first[|bytes|..], now[1..], behind);
        assert now == [head] + now[1..];
        parts := [first[|bytes|..]] + behind;
      }
      size := size - |bytes|;
    }

    /** One round of taking over: the other queue's head becomes the last chunk here. */
    method TakeOver(other: Queue)
      requires Valid() && other.Linked() && other != this && other.head != null
      requires forall c :: c in chunks ==> c !in other.chunks
      modifies this, other
      ensures Valid() && other.Linked()
      ensures chunks == old(chunks) + [old(other.chunks[0])]
      ensures other.chunks == old(other.chunks)[1..]
      ensures Content() == old(Content()) + old(other.parts[0])
      ensures other.parts == old(other.parts)[1..]
    {
      hide Concat;
      ghost var all := other.chunks;
      ghost var first, behind := other.parts[0], other.parts[1..];
      AddChunk(other.head, first);
      HoldRest(all, other.parts);
      other.Pop();
      other.parts := behind;
      assert Hold(other.chunks, behind);
    }

    /** `Dm_build_1261`: take over all chunks of another queue. */
    method MoveAll(other: Queue)
      requires Valid() && other.Valid() && other != this
      requires forall c :: c in chunks ==> c !in other.chunks
      modifies this, other
      ensures Valid() && Content() == old(Content()) + old(other.Content())
      ensures chunks == old(chunks) + old(other.chunks)
      ensures other.Valid() && other.Content() == [] && other.chunks == []
    {
      hide Concat;
      ConcatNonEmpty(other.parts);
      if other.size == 0 {
        return;
      }
      ghost var all, content := chunks + other.chunks, Content() + other.Content();
      while other.head != null
        invariant Valid() && other.Linked()
        invariant forall c :: c in chunks ==> c !in other.chunks
        invariant chunks + other.chunks == all && Content() + other.Content() == content
        decreases |other.chunks|
      {
        ghost var mine, others := chunks, other.chunks;
        ConcatUnfold(other.parts);
        Regroup(Content(), other.parts[0], Concat(other.parts[1..]));
        MoveFirst(mine, others);
        TakeOver(other);
      }
      ConcatNonEmpty(other.parts);
      other.size := 0;
    }
  }
}
