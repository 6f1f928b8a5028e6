/** The buffered reader over the record decoder, and the whole path from payloads to bytes read. */
module FramedReader {
  import opened Common
  import opened NoiseCodec

  /** What the stream of decoded chunks has next. */
  datatype Next = Frame(bytes: seq<Byte>) | NotYet | Ended | Broken

  /** The answer to a read: bytes, none of them at the end of the stream; not ready; or an error. */
  datatype Poll = Ready(bytes: seq<Byte>) | Waiting | Failed

  class FramedIo {
    const codec: Codec
    /** The peer will send nothing more. */
    var closed: bool
    /** Bytes received and not yet decoded, and the decoded chunk being read. */
    var buffer: seq<Byte>
    var chunk: Option<seq<Byte>>
    /** Bytes still on their way, and the record chunks not yet decoded. */
    ghost var inFlight: seq<Byte>
    ghost var todo: seq<seq<Byte>>
    /** The nonce after the whole stream. */
    ghost const last: nat

    /** What is buffered and in flight are the records still to come, under the nonces still to come. */
    ghost predicate Valid()
      reads this, codec
    {
      && Sound(codec.cipher) && Sized(todo)
      && codec.nextNonce + |todo| == last <= U64_MAX
      && buffer + inFlight == Records(codec.cipher, codec.nextNonce, todo)
    }

    /** A chunk is held that has not been read to its end. */
    ghost predicate Holding()
      reads this
    {
      chunk.Some? && chunk.value != []
    }

    /** The bytes the reader has not been given yet. */
    ghost function Unread(): seq<Byte>
      reads this
    {
      (if chunk.Some? then chunk.value else []) + Flatten(todo)
    }

    constructor (codec: Codec, ghost chunks: seq<seq<Byte>>)
      requires Sound(codec.cipher) && Sized(chunks) && codec.nextNonce + |chunks| <= U64_MAX
      ensures this.codec == codec && Valid() && Unread() == Flatten(chunks) && last == codec.nextNonce + |chunks|
      ensures buffer == [] && inFlight == Records(codec.cipher, codec.nextNonce, chunks) && todo == chunks && !closed
    {
      this.codec, buffer, chunk, closed := codec, [], None, false;
      inFlight, todo := Records(codec.cipher, codec.nextNonce, chunks), chunks;
      last := codec.nextNonce + |chunks|;
    }

    /** The next bytes of the stream arrive. */
    method Arrive(fragment: seq<Byte>)
      requires Valid() && !closed && fragment <= inFlight
      modifies this`buffer, this`inFlight
      ensures Valid() && inFlight == old(inFlight)[|fragment|..]
      ensures buffer == old(buffer) + fragment && Unread() == old(Unread())
    {
      assert old(buffer) + old(inFlight) == (old(buffer) + fragment) + old(inFlight)[|fragment|..];
      buffer := buffer + fragment;
      inFlight := inFlight[|fragment|..];
    }

    /** The peer closes the stream; what is still in flight is lost. */
    method Close()
      requires Valid()
      modifies this`closed
      ensures Valid() && closed
    {
      closed := true;
    }

    /**
      The next decoded chunk.  An open stream waits for more.  A closed one ends where
      a record ends, and is broken if part of a record is left.
     */
    method PollNext() returns (r: Next)
      requires Valid()
      modifies this`buffer, this`todo, codec
      ensures Valid()
      ensures if r.Frame? then
                old(todo) == [r.bytes] + todo && codec.nextNonce == old(codec.nextNonce) + 1 && |buffer| < |old(buffer)|
              else todo == old(todo) && buffer == old(buffer) && codec.nextNonce == old(codec.nextNonce)
      ensures !r.Frame? ==> r == if !closed then NotYet else if buffer == [] then Ended else Broken
      ensures !r.Frame? ==> !Complete(buffer) && (inFlight == [] ==> todo == [] && buffer == [])
    {
      DecodesStream(codec.cipher, codec.nextNonce, todo, buffer, inFlight);
      var d, rest := DecodeBuffered();
      buffer := rest;
      match d
      case Item(b) =>
        todo := todo[1..];
        r := Frame(b);
      case Pending => r := if !closed then NotYet else if buffer == [] then Ended else Broken;
      case Invalid => r := Broken;
    }

    method DecodeBuffered() returns (r: Decoded, rest: seq<Byte>)
      requires !ShortRecord(buffer) && (Complete(buffer) ==> codec.nextNonce < U64_MAX)
      modifies codec
      ensures Decoding(r, rest, codec.nextNonce) == Decode(codec.cipher, old(codec.nextNonce), buffer)
    {
      r, rest := codec.DecodeNext(buffer);
    }

    /** The unread part of the current chunk, fetching the next non-empty one if need be; empty at the end. */
    method PollFillBuf() returns (r: Poll)
      requires Valid()
      modifies this`buffer, this`todo, this`chunk, codec
      ensures Valid() && Unread() == old(Unread())
      ensures r.Ready? && r.bytes != [] ==> chunk == Some(r.bytes)
      ensures !(r.Ready? && r.bytes != []) ==> Stopped(r)
      ensures if old(Holding()) then r == Ready(old(chunk).value) && todo == old(todo)
              else if Holding() then old(todo) == [r.bytes] + todo else todo == old(todo)
    {
      while true
        invariant Valid() && Unread() == old(Unread())
        invariant (chunk == old(chunk) && todo == old(todo)) ||
                  (!old(Holding()) && Holding() && old(todo) == [chunk.value] + todo)
        decreases |buffer|
      {
        if chunk.Some? && |chunk.value| > 0 { return Ready(chunk.value); }
        var next := Fetch();
        match next
        case Frame(b) =>
        case NotYet => return Waiting;
        case Ended => return Ready([]);
        case Broken => return Failed;
      }
    }

    /** Take the next chunk in place of one that has been read. */
    method Fetch() returns (r: Next)
      requires Valid() && !Holding()
      modifies this`buffer, this`todo, this`chunk, codec
      ensures Valid() && Unread() == old(Unread())
      ensures r.Frame? ==> |buffer| < |old(buffer)| && Holding() && old(todo) == [chunk.value] + todo
      ensures !r.Frame? ==> chunk == old(chunk) && todo == old(todo)
      ensures !r.Frame? ==> r == if !closed then NotYet else if buffer == [] then Ended else Broken
      ensures !r.Frame? ==> !Complete(buffer) && (inFlight == [] ==> todo == [] && buffer == [])
    {
      ghost var unread := Flatten(todo);
      assert Unread() == unread;
      r := PollNext();
      if r.Frame? {
        FlattenFirst(r.bytes, todo);
        chunk := Some(r.bytes);
      }
    }

    /**
      Nothing more to read now, as no complete record is buffered: the stream is open
      and waits, is closed where a record ends, or is closed with part of a record
      left.  With nothing in flight, everything has been read, and it is not an error.
     */
    ghost predicate Stopped(r: Poll)
      reads this
    {
      && !Holding() && !Complete(buffer)
      && r == (if !closed then Waiting else if buffer == [] then Ready([]) else Failed)
      && (inFlight == [] ==> todo == [] && !r.Failed?)
    }

    method Consume(amt: nat)
      requires Valid() && (amt > 0 ==> chunk.Some? && amt <= |chunk.value|)
      modifies this`chunk
      ensures Valid() && (amt == 0 || |old(Unread())| >= amt) && Unread() == old(Unread())[amt..]
      ensures chunk == if amt > 0 then Some(old(chunk).value[amt..]) else old(chunk)
    {
      if amt > 0 {
        assert old(Unread())[amt..] == chunk.value[amt..] + Flatten(todo);
        chunk := Some(chunk.value[amt..]);
      }
    }

    lemma AllRead(r: Poll)
      requires Valid() && Stopped(r) && inFlight == []
      ensures Unread() == [] && codec.nextNonce == last
    {
    }

    /**
      Read into a buffer with room for `room` bytes: as much of the current chunk as
      fits, taking the next one if there is none, or nothing when the reader has
      stopped.
     */
    method PollRead(room: nat) returns (r: Poll)
      requires Valid()
      modifies this`buffer, this`todo, this`chunk, codec
      ensures Valid()
      ensures r.Ready? ==> |r.bytes| <= room && old(Unread()) == r.bytes + Unread()
      ensures !r.Ready? ==> Unread() == old(Unread())
      ensures room > 0 && !(r.Ready? && r.bytes != []) ==> Stopped(r)
      ensures r.Ready? && r.bytes != [] ==> |r.bytes| == room || chunk == Some([])
      ensures old(Holding()) && room > 0 ==>
                var have := old(chunk).value;
                r == Ready(if |have| < room then have else have[..room])
      ensures !old(Holding()) && r.Ready? && r.bytes != [] ==>
                && old(todo) != []
                && r.bytes == if |old(todo)[0]| < room then old(todo)[0] else old(todo)[0][..room]
    {
      if room == 0 { return Ready([]); }
      var data := PollFillBuf();
      if !data.Ready? || data.bytes == [] { return data; }
      var len := if |data.bytes| < room then |data.bytes| else room;
      r := Ready(data.bytes[..len]);
      ghost var before := Unread();
      assert before[..len] == r.bytes && before == before[..len] + before[len..];
      Consume(len);
    }
  }

  lemma FlattenFirst(b: seq<Byte>, chunks: seq<seq<Byte>>)
    ensures Flatten([b] + chunks) == b + Flatten(chunks)
  {
    assert ([b] + chunks)[1..] == chunks;
  }

  /** The chunks of several payloads, in order. */
  function AllChunks(payloads: seq<seq<Byte>>): seq<seq<Byte>>
    decreases |payloads|
  {
    if payloads == [] then [] else AllChunks(payloads[..|payloads| - 1]) + Chunks(payloads[|payloads| - 1])
  }

  lemma {:induction false} AllChunksFlatten(payloads: seq<seq<Byte>>)
    ensures Flatten(AllChunks(payloads)) == Flatten(payloads) && Sized(AllChunks(payloads))
    decreases |payloads|
  {
    if payloads != [] {
      var init, last := payloads[..|payloads| - 1], payloads[|payloads| - 1];
      AllChunksFlatten(init);
      ChunksFlatten(last);
      FlattenConcat(AllChunks(init), Chunks(last));
      FlattenConcat(init, [last]);
      assert payloads == init + [last];
      assert Flatten([last]) == last;
    }
  }

  /** Encode payloads one after the other. */
  method SendAll(tx: Codec, payloads: seq<seq<Byte>>) returns (wire: seq<Byte>)
    requires tx.nextNonce + |AllChunks(payloads)| <= U64_MAX
    modifies tx
    ensures wire == Records(tx.cipher, old(tx.nextNonce), AllChunks(payloads))
    ensures tx.nextNonce == old(tx.nextNonce) + |AllChunks(payloads)|
  {
    wire := [];
    for i := 0 to |payloads|
      invariant wire == Records(tx.cipher, old(tx.nextNonce), AllChunks(payloads[..i]))
      invariant tx.nextNonce == old(tx.nextNonce) + |AllChunks(payloads[..i])|
    {
      AllChunksPrefix(payloads, i);
      RecordsConcat(tx.cipher, old(tx.nextNonce), AllChunks(payloads[..i]), Chunks(payloads[i]));
      wire := tx.Encode(payloads[i], wire);
    }
    assert payloads[..|payloads|] == payloads;
  }

  lemma {:induction false} AllChunksPrefix(payloads: seq<seq<Byte>>, i: nat)
    requires i < |payloads|
    ensures AllChunks(payloads[..i + 1]) == AllChunks(payloads[..i]) + Chunks(payloads[i])
    ensures |AllChunks(payloads[..i + 1])| <= |AllChunks(payloads)|
    decreases |payloads|
  {
    assert payloads[..i + 1][..i] == payloads[..i];
    if i + 1 < |payloads| {
      var init := payloads[..|payloads| - 1];
      AllChunksPrefix(init, i);
      assert init[..i + 1] == payloads[..i + 1];
    } else {
      assert payloads[..i + 1] == payloads;
    }
  }

  /** The network delivers some bytes, the reader offers a buffer, or the peer closes the stream. */
  datatype Event = Receive(n: nat) | Read(room: nat) | Hangup

  /** Run the receiving end over any order of events; what arrives after a hangup is lost. */
  method Serve(io: FramedIo, wire: seq<Byte>, events: seq<Event>) returns (rest: seq<Byte>, out: seq<Byte>)
    requires io.Valid() && io.inFlight == wire && !io.closed
    modifies io, io.codec
    ensures io.Valid() && io.inFlight == rest && old(io.Unread()) == out + io.Unread()
    ensures io.closed <==> Hangup in events
  {
    rest, out := wire, [];
    for i := 0 to |events|
      invariant io.Valid() && io.inFlight == rest && old(io.Unread()) == out + io.Unread()
      invariant io.closed <==> Hangup in events[..i]
    {
      assert events[..i + 1] == events[..i] + [events[i]];
      var bytes;
      rest, bytes := Handle(io, rest, events[i]);
      out := out + bytes;
    }
    assert events[..|events|] == events;
  }

  method Handle(io: FramedIo, wire: seq<Byte>, event: Event) returns (rest: seq<Byte>, bytes: seq<Byte>)
    requires io.Valid() && io.inFlight == wire
    modifies io, io.codec
    ensures io.Valid() && io.inFlight == rest && old(io.Unread()) == bytes + io.Unread()
    ensures io.closed <==> old(io.closed) || event == Hangup
  {
    rest, bytes := wire, [];
    match event
    case Receive(n) =>
      if !io.closed {
        var k := if n < |rest| then n else |rest|;
        io.Arrive(rest[..k]);
        rest := rest[k..];
      }
    case Read(room) =>
      var r := io.PollRead(room);
      if r.Ready? {
        bytes := r.bytes;
      }
    case Hangup => io.Close();
  }

  method ReadOnce(io: FramedIo, room: nat) returns (r: Poll)
    requires io.Valid() && room > 0
    modifies io`buffer, io`todo, io`chunk, io.codec
    ensures io.Valid()
    ensures if r.Ready? && r.bytes != [] then old(io.Unread()) == r.bytes + io.Unread()
            else io.Unread() == old(io.Unread()) && io.Stopped(r)
  {
    r := io.PollRead(room);
  }

  /** Read until the reader stops. */
  method Drain(io: FramedIo, room: nat) returns (out: seq<Byte>, end: Poll)
    requires io.Valid() && room > 0
    modifies io, io.codec
    ensures io.Valid() && old(io.Unread()) == out + io.Unread() && io.Stopped(end)
    ensures io.inFlight == old(io.inFlight) && io.closed == old(io.closed)
  {
    out := [];
    while true
      invariant io.Valid() && old(io.Unread()) == out + io.Unread()
      invariant io.inFlight == old(io.inFlight) && io.closed == old(io.closed)
      decreases |io.Unread()|
    {
      end := ReadOnce(io, room);
      if !end.Ready? || end.bytes == [] { return; }
      out := out + end.bytes;
    }
  }

  /** The receiving end: any events, then whatever is left and a hangup, then reading to the end. */
  method Receiving(io: FramedIo, wire: seq<Byte>, events: seq<Event>, room: nat)
    returns (partial: seq<Byte>, out: seq<Byte>, end: Poll)
    requires io.Valid() && io.inFlight == wire && !io.closed && room > 0
    modifies io, io.codec
    ensures io.Valid() && old(io.Unread()) == out + io.Unread() && partial <= out
    ensures Hangup !in events ==> io.Unread() == [] && io.codec.nextNonce == io.last && end == Ready([])
  {
    var rest, more;
    rest, partial := Serve(io, wire, events);
    more, end := Finish(io, rest, room);
    out := partial + more;
    Regroup(partial, more, io.Unread());
  }

  /** Everything that is not lost arrives, the peer hangs up, and the reader reads to the end. */
  method Finish(io: FramedIo, rest: seq<Byte>, room: nat) returns (out: seq<Byte>, end: Poll)
    requires io.Valid() && io.inFlight == rest && room > 0
    modifies io, io.codec
    ensures io.Valid() && old(io.Unread()) == out + io.Unread()
    ensures !old(io.closed) ==> io.Unread() == [] && io.codec.nextNonce == io.last && end == Ready([])
  {
    if !io.closed {
      io.Arrive(rest);
      io.Close();
    }
    out, end := Drain(io, room);
    if io.inFlight == [] { io.AllRead(end); }
  }

  /**
    The stream round trip: for any payloads, any fragmentation of the encoded
    bytes and any read sizes, what has been read is always a prefix of the
    concatenated payloads.  It is all of them, with both ends at the same nonce and a
    clean end of stream, if the peer hangs up only after everything has arrived.
   */
  method Transfer(c: Cipher, nonce: nat, payloads: seq<seq<Byte>>, events: seq<Event>, room: nat)
    returns (partial: seq<Byte>, out: seq<Byte>, end: Poll, sent: nat, received: nat)
    requires Sound(c) && nonce + |AllChunks(payloads)| <= U64_MAX && room > 0
    ensures partial <= out <= Flatten(payloads)
    ensures sent == nonce + |AllChunks(payloads)|
    ensures Hangup !in events ==> out == Flatten(payloads) && received == sent && end == Ready([])
  {
    var tx := new Codec(c, nonce);
    var wire := SendAll(tx, payloads);
    sent := tx.nextNonce;
    AllChunksFlatten(payloads);
    var rx := new Codec(c, nonce);
    var io := new FramedIo(rx, AllChunks(payloads));
    partial, out, end := Receiving(io, wire, events, room);
    received := rx.nextNonce;
  }
}
