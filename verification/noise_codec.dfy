/** The record codec of the control protocol: chunks, headers, nonces and an abstract cipher. */
module NoiseCodec {
  import opened Common

  type Byte = n: nat | n < 256

  const MAX_MESSAGE_SIZE: nat := 4096
  const HEADER_SIZE: nat := 3
  const AEAD_OVERHEAD: nat := 16
  const MAX_CHUNK_SIZE: nat := MAX_MESSAGE_SIZE - HEADER_SIZE - AEAD_OVERHEAD
  const U64_MAX: nat := 0xFFFF_FFFF_FFFF_FFFF

  /** Authenticated encryption with a detached tag, keyed once and for all. */
  datatype Cipher = Cipher(
    encrypt: (seq<Byte>, seq<Byte>) -> (seq<Byte>, seq<Byte>),
    decrypt: (seq<Byte>, seq<Byte>, seq<Byte>) -> Option<seq<Byte>>)

  /** Decryption under the same nonce undoes encryption, and only the tag adds length. */
  ghost predicate Sound(c: Cipher) {
    forall nonce, plain ::
      var (body, tag) := c.encrypt(nonce, plain);
      |body| == |plain| && |tag| == AEAD_OVERHEAD && c.decrypt(nonce, body, tag) == Some(plain)
  }

  /** The `k` low bytes of `n`, most significant first. */
  function BigEndian(n: nat, k: nat): (r: seq<Byte>)
    ensures |r| == k
  {
    if k == 0 then [] else BigEndian(n / 256, k - 1) + [n % 256]
  }

  function FromBigEndian(s: seq<Byte>): nat {
    if s == [] then 0 else FromBigEndian(s[..|s| - 1]) * 256 + s[|s| - 1]
  }

  function Pow256(k: nat): nat {
    if k == 0 then 1 else 256 * Pow256(k - 1)
  }

  lemma {:induction false} BigEndianRoundTrip(n: nat, k: nat)
    requires n < Pow256(k)
    ensures FromBigEndian(BigEndian(n, k)) == n
  {
    if k > 0 {
      BigEndianRoundTrip(n / 256, k - 1);
      assert BigEndian(n, k)[..k - 1] == BigEndian(n / 256, k - 1);
    }
  }

  /** The first byte counts most: the byte order, from the other end. */
  lemma {:induction false} FirstByte(x: Byte, s: seq<Byte>)
    ensures FromBigEndian([x] + s) == x * Pow256(|s|) + FromBigEndian(s)
  {
    if s == [] {
      assert FromBigEndian([]) == 0;
    } else {
      var init, last := s[..|s| - 1], s[|s| - 1];
      FirstByte(x, init);
      assert ([x] + s)[..|s|] == [x] + init;
      assert x * Pow256(|s|) == x * Pow256(|init|) * 256;
    }
  }

  lemma TwoBytes(s: seq<Byte>)
    requires |s| == 2
    ensures FromBigEndian(s) == s[0] as nat * 256 + s[1]
  {
    FirstByte(s[0], s[1..]);
    FirstByte(s[1], []);
    assert s == [s[0]] + s[1..] && s[1..] == [s[1]] + [] && Pow256(1) == 256;
  }

  /** The nonce of the `n`-th record. */
  function NonceBytes(n: nat): seq<Byte> {
    [0, 0, 0, 0] + BigEndian(n, 8)
  }

  /** Four zero bytes and then the counter, most significant byte first. */
  lemma NonceLayout(n: nat)
    requires n <= U64_MAX
    ensures |NonceBytes(n)| == 12 && NonceBytes(n)[..4] == [0, 0, 0, 0] && FromBigEndian(NonceBytes(n)[4..]) == n
  {
    assert Pow256(8) == U64_MAX + 1 by {
      assert Pow256(1) == 256 && Pow256(2) == 65536 && Pow256(3) == 0x100_0000 && Pow256(4) == 0x1_0000_0000;
      assert Pow256(5) == 0x100_0000_0000 && Pow256(6) == 0x1_0000_0000_0000 && Pow256(7) == 0x100_0000_0000_0000;
    }
    assert NonceBytes(n)[4..] == BigEndian(n, 8);
    BigEndianRoundTrip(n, 8);
  }

  /** No two records of a session share a nonce. */
  lemma NoncesDistinct(m: nat, n: nat)
    requires m <= U64_MAX && n <= U64_MAX && NonceBytes(m) == NonceBytes(n)
    ensures m == n
  {
    NonceLayout(m);
    NonceLayout(n);
  }

  const RECORD: Byte := 4
  const ERROR: Byte := 3

  /** One record on the wire: type, length of body and tag, body, tag. */
  function Record(c: Cipher, nonce: nat, chunk: seq<Byte>): seq<Byte> {
    var (body, tag) := c.encrypt(NonceBytes(nonce), chunk);
    [RECORD] + BigEndian(|chunk| + AEAD_OVERHEAD, 2) + body + tag
  }

  /** Consecutive records, one nonce each. */
  function Records(c: Cipher, nonce: nat, chunks: seq<seq<Byte>>): seq<Byte>
    decreases |chunks|
  {
    if chunks == [] then [] else Record(c, nonce, chunks[0]) + Records(c, nonce + 1, chunks[1..])
  }

  /** A payload cut into pieces of the maximum size, the last one possibly shorter. */
  function Chunks(b: seq<Byte>): seq<seq<Byte>>
    decreases |b|
  {
    if b == [] then []
    else if |b| <= MAX_CHUNK_SIZE then [b]
    else [b[..MAX_CHUNK_SIZE]] + Chunks(b[MAX_CHUNK_SIZE..])
  }

  function Flatten(chunks: seq<seq<Byte>>): seq<Byte>
    decreases |chunks|
  {
    if chunks == [] then [] else chunks[0] + Flatten(chunks[1..])
  }

  predicate Sized(chunks: seq<seq<Byte>>) {
    forall i :: 0 <= i < |chunks| ==> 0 < |chunks[i]| <= MAX_CHUNK_SIZE
  }

  /** Chunking loses nothing, and every chunk but the last fills a message of 4096 bytes with its header and tag. */
  lemma {:induction false} ChunksFlatten(b: seq<Byte>)
    ensures Flatten(Chunks(b)) == b && Sized(Chunks(b))
    ensures forall i :: 0 <= i < |Chunks(b)| ==> |Chunks(b)[i]| + 3 + 16 <= 4096
    ensures forall i :: 0 <= i < |Chunks(b)| - 1 ==> |Chunks(b)[i]| + 3 + 16 == 4096
    decreases |b|
  {
    if 0 < |b| <= MAX_CHUNK_SIZE {
      assert Chunks(b)[1..] == [];
    } else if b != [] {
      var rest := b[MAX_CHUNK_SIZE..];
      ChunksFlatten(rest);
      assert Chunks(b)[1..] == Chunks(rest);
    }
  }

  lemma {:induction false} RecordsConcat(c: Cipher, nonce: nat, a: seq<seq<Byte>>, b: seq<seq<Byte>>)
    ensures Records(c, nonce, a + b) == Records(c, nonce, a) + Records(c, nonce + |a|, b)
    decreases |a|
  {
    if a == [] {
      assert a + b == b;
    } else {
      assert (a + b)[1..] == a[1..] + b;
      RecordsConcat(c, nonce + 1, a[1..], b);
    }
  }

  lemma Regroup(a: seq<Byte>, b: seq<Byte>, c: seq<Byte>)
    ensures a + b + c == a + (b + c) && a <= a + b
  {
  }

  lemma RecordsSnoc(c: Cipher, nonce: nat, done: seq<seq<Byte>>, chunk: seq<Byte>)
    ensures Records(c, nonce, done + [chunk]) == Records(c, nonce, done) + Record(c, nonce + |done|, chunk)
  {
    RecordsConcat(c, nonce, done, [chunk]);
    assert Records(c, nonce + |done|, [chunk]) == Record(c, nonce + |done|, chunk) + [];
  }

  /**
    The wire, byte by byte: the record of each chunk is the type 4, the length of
    body and tag in two bytes, and what the cipher makes of the chunk under the next
    nonce.
   */
  lemma RecordsAt(c: Cipher, nonce: nat, chunks: seq<seq<Byte>>, i: nat)
    requires i < |chunks| && |chunks[i]| + 3 + 16 <= 4096
    ensures var (body, tag) := c.encrypt(NonceBytes(nonce + i), chunks[i]);
            exists hi: Byte, lo: Byte ::
              && hi * 256 + lo == |chunks[i]| + 16
              && Records(c, nonce, chunks) ==
                 Records(c, nonce, chunks[..i])
                 + ([4, hi, lo] + body + tag)
                 + Records(c, nonce + i + 1, chunks[i + 1..])
  {
    RecordsConcat(c, nonce, chunks[..i], chunks[i..]);
    assert chunks == chunks[..i] + chunks[i..] && chunks[i..][1..] == chunks[i + 1..];
    var len := |chunks[i]| + 16;
    var bytes := BigEndian(len, 2);
    assert Pow256(1) == 256 && Pow256(2) == 65536;
    BigEndianRoundTrip(len, 2);
    TwoBytes(bytes);
    var (body, tag) := c.encrypt(NonceBytes(nonce + i), chunks[i]);
    assert bytes == [bytes[0], bytes[1]];
    assert Record(c, nonce + i, chunks[i]) == [4, bytes[0], bytes[1]] + body + tag;
    Regroup(Records(c, nonce, chunks[..i]), Record(c, nonce + i, chunks[i]),
            Records(c, nonce + i + 1, chunks[i + 1..]));
  }

  /** Cutting one more chunk off the rest. */
  lemma NextChunk(all: seq<seq<Byte>>, done: seq<seq<Byte>>, rest: seq<Byte>, size: nat)
    requires rest != [] && all == done + Chunks(rest)
    requires size == if |rest| < MAX_CHUNK_SIZE then |rest| else MAX_CHUNK_SIZE
    ensures all == done + [rest[..size]] + Chunks(rest[size..])
  {
    ChunksHead(rest, size);
  }

  lemma {:induction false} FlattenConcat(a: seq<seq<Byte>>, b: seq<seq<Byte>>)
    ensures Flatten(a + b) == Flatten(a) + Flatten(b)
    decreases |a|
  {
    if a == [] {
      assert a + b == b;
    } else {
      assert (a + b)[1..] == a[1..] + b;
      FlattenConcat(a[1..], b);
    }
  }

  /** One direction of a session; a sender only encodes and a receiver only decodes. */
  class Codec {
    const cipher: Cipher
    var nextNonce: nat

    constructor (cipher: Cipher, nonce: nat)
      ensures this.cipher == cipher && nextNonce == nonce
    {
      this.cipher, nextNonce := cipher, nonce;
    }

    method NextNonce() returns (nonce: seq<Byte>)
      requires nextNonce < U64_MAX
      modifies this
      ensures nonce == NonceBytes(old(nextNonce)) && nextNonce == old(nextNonce) + 1
      ensures |nonce| == 12 && nonce[..4] == [0, 0, 0, 0] && FromBigEndian(nonce[4..]) == old(nextNonce)
    {
      NonceLayout(nextNonce);
      nonce := NonceBytes(nextNonce);
      nextNonce := nextNonce + 1;
    }

    /** Append the records of a payload to the buffer. */
    method Encode(b: seq<Byte>, dst: seq<Byte>) returns (out: seq<Byte>)
      requires nextNonce + |Chunks(b)| <= U64_MAX
      modifies this
      ensures out == dst + Records(cipher, old(nextNonce), Chunks(b))
      ensures nextNonce == old(nextNonce) + |Chunks(b)|
    {
      var rest := b;
      out := dst;
      ghost var all, done: seq<seq<Byte>> := Chunks(b), [];
      while rest != []
        invariant all == done + Chunks(rest)
        invariant nextNonce == old(nextNonce) + |done|
        invariant out == dst + Records(cipher, old(nextNonce), done)
        decreases |rest|
      {
        var size := if |rest| < MAX_CHUNK_SIZE then |rest| else MAX_CHUNK_SIZE;
        NextChunk(all, done, rest, size);
        out := EncodeNext(rest[..size], out, dst, done, old(nextNonce));
        done := done + [rest[..size]];
        rest := rest[size..];
      }
      assert all == done;
    }

    method EncodeNext(chunk: seq<Byte>, buf: seq<Byte>, ghost dst: seq<Byte>, ghost done: seq<seq<Byte>>,
                      ghost first: nat)
      returns (out: seq<Byte>)
      requires nextNonce == first + |done| < U64_MAX && buf == dst + Records(cipher, first, done)
      modifies this
      ensures out == dst + Records(cipher, first, done + [chunk]) && nextNonce == old(nextNonce) + 1
    {
      RecordsSnoc(cipher, first, done, chunk);
      var frame := EncodeChunk(chunk);
      Regroup(dst, Records(cipher, first, done), frame);
      out := buf + frame;
    }

    /** Take the next frame off the front of the buffer, if it is all there. */
    method DecodeNext(src: seq<Byte>) returns (r: Decoded, rest: seq<Byte>)
      requires !ShortRecord(src) && (Complete(src) && src[0] == RECORD ==> nextNonce < U64_MAX)
      modifies this
      ensures Decoding(r, rest, nextNonce) == Decode(cipher, old(nextNonce), src)
      ensures |src| < 3 ==> r == Pending && rest == src && nextNonce == old(nextNonce)
      ensures |src| >= 3 && src[0] !in {1, 2, 3, 4} ==> r == Invalid && rest == src && nextNonce == old(nextNonce)
      ensures |src| >= 3 && src[0] in {1, 2, 3, 4} ==>
                var len := src[1] as nat * 256 + src[2];
                if |src| < 3 + len then r == Pending && rest == src && nextNonce == old(nextNonce)
                else
                  && rest == src[3 + len..]
                  && nextNonce == old(nextNonce) + (if src[0] == 4 then 1 else 0)
                  && (src[0] == 3 ==> r == Pending)
                  && (src[0] in {1, 2} ==> r == Invalid)
                  && (src[0] == 4 ==>
                        && len >= 16
                        && var tagAt := 3 + len - 16;
                           match cipher.decrypt(NonceBytes(old(nextNonce)), src[3..tagAt], src[tagAt..3 + len])
                           case Some(plain) => r == Item(plain)
                           case None => r == Invalid)
    {
      DecodeSpelled(cipher, nextNonce, src);
      if |src| < HEADER_SIZE { return Pending, src; }
      if !(1 <= src[0] <= 4) { return Invalid, src; }
      var len := FromBigEndian(src[1..3]);
      if |src| - HEADER_SIZE < len { return Pending, src; }
      rest := src[HEADER_SIZE..];
      var body := rest[..len];
      rest := rest[len..];
      if src[0] == RECORD {
        var nonce := NextNonce();
        var plain := cipher.decrypt(nonce, body[..len - AEAD_OVERHEAD], body[len - AEAD_OVERHEAD..]);
        r := if plain.Some? then Item(plain.value) else Invalid;
      } else if src[0] == ERROR {
        r := Pending;
      } else {
        r := Invalid;
      }
    }

    method EncodeChunk(chunk: seq<Byte>) returns (frame: seq<Byte>)
      requires nextNonce < U64_MAX
      modifies this
      ensures frame == Record(cipher, old(nextNonce), chunk) && nextNonce == old(nextNonce) + 1
    {
      frame := [RECORD] + BigEndian(|chunk| + AEAD_OVERHEAD, 2);
      var nonce := NextNonce();
      var (body, tag) := cipher.encrypt(nonce, chunk);
      frame := frame + body + tag;
    }
  }

  datatype Decoded = Pending | Item(bytes: seq<Byte>) | Invalid

  /** What one call of the decoder returns, leaves in the buffer, and takes as its next nonce. */
  datatype Decoding = Decoding(result: Decoded, rest: seq<Byte>, nonce: nat)

  predicate Complete(src: seq<Byte>) {
    |src| >= HEADER_SIZE && |src| - HEADER_SIZE >= FromBigEndian(src[1..3])
  }

  /** A complete record too short to hold a tag; the decoder panics on it. */
  predicate ShortRecord(src: seq<Byte>) {
    Complete(src) && src[0] == RECORD && FromBigEndian(src[1..3]) < AEAD_OVERHEAD
  }

  function Decode(c: Cipher, nonce: nat, src: seq<Byte>): Decoding
    requires !ShortRecord(src)
  {
    if |src| < HEADER_SIZE then Decoding(Pending, src, nonce)
    else if !(1 <= src[0] <= 4) then Decoding(Invalid, src, nonce)
    else if !Complete(src) then Decoding(Pending, src, nonce)
    else
      var len := FromBigEndian(src[1..3]);
      var body, rest := src[HEADER_SIZE..][..len], src[HEADER_SIZE..][len..];
      if src[0] == RECORD then
        var plain := c.decrypt(NonceBytes(nonce), body[..len - AEAD_OVERHEAD], body[len - AEAD_OVERHEAD..]);
        Decoding(if plain.Some? then Item(plain.value) else Invalid, rest, nonce + 1)
      else if src[0] == ERROR then Decoding(Pending, rest, nonce)
      else Decoding(Invalid, rest, nonce)
  }

  /** Decoding, down to the bytes: what the header says, what the cipher answers, and what is left. */
  lemma DecodeSpelled(c: Cipher, nonce: nat, src: seq<Byte>)
    requires !ShortRecord(src)
    ensures |src| < 3 ==> Decode(c, nonce, src) == Decoding(Pending, src, nonce)
    ensures |src| >= 3 && src[0] !in {1, 2, 3, 4} ==> Decode(c, nonce, src) == Decoding(Invalid, src, nonce)
    ensures |src| >= 3 && src[0] in {1, 2, 3, 4} ==>
              var len, d := src[1] as nat * 256 + src[2], Decode(c, nonce, src);
              if |src| < 3 + len then d == Decoding(Pending, src, nonce)
              else
                && d.rest == src[3 + len..]
                && d.nonce == nonce + (if src[0] == 4 then 1 else 0)
                && (src[0] == 3 ==> d.result == Pending)
                && (src[0] in {1, 2} ==> d.result == Invalid)
                && (src[0] == 4 ==>
                      && len >= 16
                      && var tagAt := 3 + len - 16;
                         match c.decrypt(NonceBytes(nonce), src[3..tagAt], src[tagAt..3 + len])
                         case Some(plain) => d.result == Item(plain)
                         case None => d.result == Invalid)
  {
    if |src| >= 3 {
      TwoBytes(src[1..3]);
      var len := src[1] as nat * 256 + src[2];
      if |src| >= 3 + len && len >= 16 {
        var body := src[3..][..len];
        assert body[..len - 16] == src[3..3 + len - 16] && body[len - 16..] == src[3 + len - 16..3 + len];
      }
    }
  }

  lemma RecordParts(c: Cipher, nonce: nat, chunk: seq<Byte>)
    requires Sound(c) && |chunk| <= MAX_CHUNK_SIZE
    ensures var r := Record(c, nonce, chunk);
            var (body, tag) := c.encrypt(NonceBytes(nonce), chunk);
            && |r| == HEADER_SIZE + |chunk| + AEAD_OVERHEAD && r[0] == RECORD
            && FromBigEndian(r[1..3]) == |chunk| + AEAD_OVERHEAD
            && r[HEADER_SIZE..] == body + tag && |body| == |chunk|
  {
    var len := |chunk| + AEAD_OVERHEAD;
    assert Pow256(1) == 256 && Pow256(2) == 65536;
    BigEndianRoundTrip(len, 2);
    assert Record(c, nonce, chunk)[1..3] == BigEndian(len, 2);
  }

  /**
    Decoding any prefix of a stream of records: an incomplete first record leaves
    bytes and nonce alone, a complete one yields its chunk and one nonce passes.
   */
  lemma DecodesFirst(c: Cipher, nonce: nat, chunk: seq<Byte>, more: seq<Byte>, src: seq<Byte>)
    requires Sound(c) && 0 < |chunk| <= MAX_CHUNK_SIZE
    requires src <= Record(c, nonce, chunk) + more
    ensures !ShortRecord(src)
    ensures Decode(c, nonce, src) ==
            if |src| < |Record(c, nonce, chunk)| then Decoding(Pending, src, nonce)
            else Decoding(Item(chunk), src[|Record(c, nonce, chunk)|..], nonce + 1)
  {
    RecordParts(c, nonce, chunk);
    var r := Record(c, nonce, chunk);
    var all := r + more;
    if |src| >= HEADER_SIZE {
      assert src[0] == all[0] == r[0];
      assert src[1..3] == all[1..3] == r[1..3];
    }
    if |src| >= |r| {
      var (body, tag) := c.encrypt(NonceBytes(nonce), chunk);
      var len := |chunk| + AEAD_OVERHEAD;
      assert src[..|r|] == all[..|r|] == r;
      assert src[HEADER_SIZE..][..len] == r[HEADER_SIZE..] == body + tag;
      assert (body + tag)[..|chunk|] == body && (body + tag)[|chunk|..] == tag;
      assert src[HEADER_SIZE..][len..] == src[|r|..];
    }
  }

  /** Decoding whatever part of a record stream has arrived. */
  lemma DecodesStream(c: Cipher, nonce: nat, chunks: seq<seq<Byte>>, src: seq<Byte>, tail: seq<Byte>)
    requires Sound(c) && Sized(chunks) && src + tail == Records(c, nonce, chunks)
    ensures !ShortRecord(src) && (Complete(src) ==> chunks != [])
    ensures var d := Decode(c, nonce, src);
            if d.result.Item? then
              && chunks != [] && d.result.bytes == chunks[0] && d.nonce == nonce + 1 && |d.rest| < |src|
              && d.rest + tail == Records(c, nonce + 1, chunks[1..])
            else d == Decoding(Pending, src, nonce) && !Complete(src) && (tail == [] ==> chunks == [])
  {
    if chunks != [] {
      var r, more := Record(c, nonce, chunks[0]), Records(c, nonce + 1, chunks[1..]);
      assert src + tail == r + more;
      assert src == (r + more)[..|src|];
      RecordParts(c, nonce, chunks[0]);
      DecodesFirst(c, nonce, chunks[0], more, src);
      if |src| >= |r| {
        assert src[|r|..] + tail == (src + tail)[|r|..] == more;
      }
    }
  }

  lemma ChunksHead(b: seq<Byte>, size: nat)
    requires b != [] && size == if |b| < MAX_CHUNK_SIZE then |b| else MAX_CHUNK_SIZE
    ensures Chunks(b) == [b[..size]] + Chunks(b[size..])
  {
    if |b| <= MAX_CHUNK_SIZE {
      assert b[..size] == b && b[size..] == [];
    }
  }
}
