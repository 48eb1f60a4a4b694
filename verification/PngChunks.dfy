/** Reading and extending a chunked image file: length, kind, body and checksum (section 3.2 of RFC 2083). The
    checksum is any function to 32-bit values. A new chunk goes in before the end chunk, which is empty. */
module PngChunks {
  import opened Wrappers
  import opened Cfg

  type Bytes = seq<Byte>

  datatype AnyChunk = Chunk(kind: Bytes, body: Bytes)

  /** A four-byte kind, and a body whose length fits the length field. */
  type Chunk = c: AnyChunk | |c.kind| == 4 && |c.body| < LIMIT witness AnyChunk.Chunk([0, 0, 0, 0], [])

  const SIGNATURE: Bytes := [0x89, 0x50, 0x4E, 0x47, 0x0D, 0x0A, 0x1A, 0x0A]

  const LIMIT: nat := 0x1_0000_0000

  type Word = n: nat | n < LIMIT

  type Checksum = Bytes -> Word

  /** A 32-bit value in network byte order. */
  function Pack(n: Word): (b: Bytes)
    ensures |b| == 4
  {
    [n / 0x100_0000, n / 0x1_0000 % 256, n / 256 % 256, n % 256]
  }

  function Unpack(b: Bytes): Word
    requires |b| == 4
  {
    var b0: int, b1: int, b2: int, b3: int := b[0], b[1], b[2], b[3];
    b0 * 0x100_0000 + b1 * 0x1_0000 + b2 * 256 + b3
  }

  lemma Digits(n: int)
    requires 0 <= n
    ensures n == n / 0x100_0000 * 0x100_0000 + n / 0x1_0000 % 256 * 0x1_0000 + n / 256 % 256 * 256 + n % 256
  {
    var a := n / 256;
    var b := a / 256;
    assert n / 0x1_0000 == b && n / 0x100_0000 == b / 256;
  }

  lemma PackUnpack(n: Word)
    ensures Unpack(Pack(n)) == n
  {
    Digits(n);
  }

  lemma UnpackPack(b: Bytes)
    requires |b| == 4
    ensures Pack(Unpack(b)) == b
  {
    var b0: int, b1: int, b2: int := b[0], b[1], b[2];
    var n := Unpack(b);
    assert n / 256 == b0 * 0x1_0000 + b1 * 256 + b2;
    assert n / 0x1_0000 == b0 * 256 + b1;
    assert n / 0x100_0000 == b0;
  }

  function Encode(crc: Checksum, c: Chunk): (data: Bytes)
    ensures |data| == 12 + |c.body|
  {
    Pack(|c.body|) + c.kind + c.body + Pack(crc(c.kind + c.body))
  }

  type Encoder = Chunk -> Bytes

  function Join(encode: Encoder, chunks: seq<Chunk>): Bytes {
    if chunks == [] then [] else encode(chunks[0]) + Join(encode, chunks[1..])
  }

  function EncoderOf(crc: Checksum): Encoder {
    (c: Chunk) => Encode(crc, c)
  }

  function EncodeAll(crc: Checksum, chunks: seq<Chunk>): Bytes {
    Join(EncoderOf(crc), chunks)
  }

  function File(crc: Checksum, chunks: seq<Chunk>): Bytes {
    SIGNATURE + EncodeAll(crc, chunks)
  }

  // ----- Reading one chunk -----

  /** A slice as the source language takes it: clipped to the data. */
  function Slice(data: Bytes, from: nat, to: nat): Bytes
    requires from <= to
  {
    if from >= |data| then [] else if to > |data| then data[from..] else data[from..to]
  }

  /** The chunk at `pos`, or nothing where unpacking a short slice fails or the checksum is wrong. */
  function ReadChunk(crc: Checksum, data: Bytes, pos: nat): Option<Chunk>
    requires pos <= |data|
  {
    var sizeBytes := Slice(data, pos, pos + 4);
    if |sizeBytes| != 4 then None
    else
      var size := Unpack(sizeBytes);
      var kind, body := Slice(data, pos + 4, pos + 8), Slice(data, pos + 8, pos + 8 + size);
      var crcBytes := Slice(data, pos + 8 + size, pos + 12 + size);
      if |crcBytes| != 4 || crc(kind + body) != Unpack(crcBytes) then None else Some(AnyChunk.Chunk(kind, body))
  }

  lemma Cut(data: Bytes, from: nat, mid: nat, to: nat)
    requires from <= mid <= to <= |data|
    ensures data[from..to] == data[from..mid] + data[mid..to]
  {
  }

  /** A chunk that reads is encoded right there; the two directions of one fact. */
  lemma ReadIsEncoded(crc: Checksum, data: Bytes, pos: nat)
    requires pos <= |data| && ReadChunk(crc, data, pos).Some?
    ensures var c := ReadChunk(crc, data, pos).value;
            pos + 12 + |c.body| <= |data| && data[pos..pos + 12 + |c.body|] == Encode(crc, c)
  {
    var c := ReadChunk(crc, data, pos).value;
    var sizeBytes := Slice(data, pos, pos + 4);
    var size := Unpack(sizeBytes);
    var crcBytes := Slice(data, pos + 8 + size, pos + 12 + size);
    UnpackPack(sizeBytes);
    UnpackPack(crcBytes);
    assert |c.body| == size && |c.kind| == 4;
    assert c.kind == data[pos + 4..pos + 8] && c.body == data[pos + 8..pos + 8 + size];
    assert sizeBytes == data[pos..pos + 4] && crcBytes == data[pos + 8 + size..pos + 12 + size];
    Cut(data, pos, pos + 4, pos + 8);
    Cut(data, pos, pos + 8, pos + 8 + size);
    Cut(data, pos, pos + 8 + size, pos + 12 + size);
  }

  lemma EncodedReads(crc: Checksum, data: Bytes, pos: nat, c: Chunk)
    requires pos <= |data|
    requires Encode(crc, c) <= data[pos..]
    ensures ReadChunk(crc, data, pos) == Some(c)
  {
    var e := Encode(crc, c);
    var size := |c.body|;
    PackUnpack(size);
    PackUnpack(crc(c.kind + c.body));
    assert |e| == 12 + size;
    forall i | 0 <= i < |e| ensures data[pos + i] == e[i] { assert data[pos..][i] == e[i]; }
    assert data[pos..pos + 4] == Pack(size);
    assert data[pos + 4..pos + 8] == c.kind;
    assert data[pos + 8..pos + 8 + size] == c.body;
    assert data[pos + 8 + size..pos + 12 + size] == Pack(crc(c.kind + c.body));
  }

  // ----- The layout, byte by byte -----

  /** The number in the four bytes from `pos`, most significant first. */
  ghost function BigEndian(data: Bytes, pos: nat): int
    requires pos + 4 <= |data|
  {
    var b0: int, b1: int, b2: int, b3: int := data[pos], data[pos + 1], data[pos + 2], data[pos + 3];
    ((b0 * 256 + b1) * 256 + b2) * 256 + b3
  }

  /** At `pos`: the length of the body, the kind, the body, and the checksum of kind and body together. */
  ghost predicate ChunkAt(crc: Checksum, data: Bytes, pos: nat, c: Chunk) {
    var end := pos + 8 + |c.body|;
    && end + 4 <= |data| && BigEndian(data, pos) == |c.body|
    && data[pos + 4..pos + 8] == c.kind && data[pos + 8..end] == c.body
    && BigEndian(data, end) == crc(c.kind + c.body)
  }

  /** One chunk after the other, and nothing behind the last. */
  ghost predicate ChunksFrom(crc: Checksum, data: Bytes, pos: nat, chunks: seq<Chunk>)
    decreases |chunks|
  {
    if chunks == [] then pos == |data|
    else ChunkAt(crc, data, pos, chunks[0]) && ChunksFrom(crc, data, pos + 12 + |chunks[0].body|, chunks[1..])
  }

  /** The signature, then the chunks. */
  ghost predicate IsFileOf(crc: Checksum, data: Bytes, chunks: seq<Chunk>) {
    |data| >= 8 && data[..8] == [0x89, 0x50, 0x4E, 0x47, 0x0D, 0x0A, 0x1A, 0x0A] && ChunksFrom(crc, data, 8, chunks)
  }

  lemma BigEndianIsUnpack(data: Bytes, pos: nat)
    requires pos + 4 <= |data|
    ensures BigEndian(data, pos) == Unpack(data[pos..pos + 4])
  {
  }

  lemma ChunkAtReads(crc: Checksum, data: Bytes, pos: nat, c: Chunk)
    requires pos <= |data|
    ensures ChunkAt(crc, data, pos, c) <==> Encode(crc, c) <= data[pos..]
  {
    var end := pos + 8 + |c.body|;
    if end + 4 <= |data| {
      BigEndianIsUnpack(data, pos);
      BigEndianIsUnpack(data, end);
    }
    if ChunkAt(crc, data, pos, c) {
      assert ReadChunk(crc, data, pos) == Some(c);
      ReadIsEncoded(crc, data, pos);
      assert data[pos..][..12 + |c.body|] == data[pos..pos + 12 + |c.body|];
    }
    if Encode(crc, c) <= data[pos..] {
      EncodedReads(crc, data, pos, c);
    }
  }

  lemma {:induction false} LayoutIsEncoding(crc: Checksum, data: Bytes, pos: nat, chunks: seq<Chunk>)
    requires pos <= |data|
    ensures ChunksFrom(crc, data, pos, chunks) <==> data[pos..] == EncodeAll(crc, chunks)
    decreases |chunks|
  {
    if chunks != [] {
      ChunkAtReads(crc, data, pos, chunks[0]);
      var e := Encode(crc, chunks[0]);
      if e <= data[pos..] {
        var next := pos + |e|;
        LayoutIsEncoding(crc, data, next, chunks[1..]);
        assert data[pos..] == e + data[next..];
        assert data[pos..][|e|..] == data[next..];
      }
    }
  }

  /** The files that chunk lists encode are those with this layout. */
  lemma FileLayout(crc: Checksum, data: Bytes, chunks: seq<Chunk>)
    ensures data == File(crc, chunks) <==> IsFileOf(crc, data, chunks)
  {
    if |data| >= 8 {
      LayoutIsEncoding(crc, data, 8, chunks);
      assert data == data[..8] + data[8..];
      assert data == File(crc, chunks) ==> data[..8] == SIGNATURE && data[8..] == EncodeAll(crc, chunks);
    }
  }

  // ----- Reading the file -----

  /** Some list of chunks is encoded by `data`. */
  ghost predicate Encodes(crc: Checksum, data: Bytes, chunks: seq<Chunk>) {
    data == EncodeAll(crc, chunks)
  }

  lemma {:induction false} JoinSnoc(encode: Encoder, a: seq<Chunk>, c: Chunk)
    ensures Join(encode, a + [c]) == Join(encode, a) + encode(c)
    decreases |a|
  {
    if a == [] {
      var one := [c];
      assert a + one == one && one[1..] == [];
    } else {
      JoinSnoc(encode, a[1..], c);
      assert (a + [c])[1..] == a[1..] + [c];
    }
  }

  lemma EncodeAllSnoc(crc: Checksum, a: seq<Chunk>, c: Chunk)
    ensures EncodeAll(crc, a + [c]) == EncodeAll(crc, a) + Encode(crc, c)
  {
    JoinSnoc(EncoderOf(crc), a, c);
  }

  /** What is left to read decides the first chunk and leaves the encoding of the others. */
  lemma FirstChunk(crc: Checksum, data: Bytes, pos: nat, rest: seq<Chunk>)
    requires pos < |data| && Encodes(crc, data[pos..], rest)
    ensures rest != [] && ReadChunk(crc, data, pos) == Some(rest[0])
    ensures pos + 12 + |rest[0].body| <= |data| && Encodes(crc, data[pos + 12 + |rest[0].body|..], rest[1..])
  {
    EncodedReads(crc, data, pos, rest[0]);
    var n := 12 + |rest[0].body|;
    assert data[pos..][n..] == data[pos + n..];
  }

  /** Everything up to `pos` is read as `chunks`. */
  ghost predicate ReadAs(crc: Checksum, data: Bytes, pos: nat, chunks: seq<Chunk>) {
    8 <= pos <= |data| && data[..8] == SIGNATURE && data[8..pos] == EncodeAll(crc, chunks)
  }

  lemma BeginReading(crc: Checksum, data: Bytes)
    requires Slice(data, 0, 8) == SIGNATURE
    ensures ReadAs(crc, data, 8, [])
  {
    assert data[8..8] == EncodeAll(crc, []);
  }

  lemma ReadOneMore(crc: Checksum, data: Bytes, pos: nat, chunks: seq<Chunk>, c: Chunk)
    requires ReadAs(crc, data, pos, chunks) && ReadChunk(crc, data, pos) == Some(c)
    ensures ReadAs(crc, data, pos + 12 + |c.body|, chunks + [c])
  {
    ReadIsEncoded(crc, data, pos);
    EncodeAllSnoc(crc, chunks, c);
    Cut(data, 8, pos, pos + 12 + |c.body|);
  }

  lemma ReadToTheEnd(crc: Checksum, data: Bytes, chunks: seq<Chunk>)
    requires ReadAs(crc, data, |data|, chunks)
    ensures data == File(crc, chunks)
  {
    assert data == data[..8] + data[8..|data|];
  }

  lemma NotAFile(crc: Checksum, data: Bytes)
    requires Slice(data, 0, 8) != SIGNATURE
    ensures forall all :: data != File(crc, all)
  {
    forall all ensures data != File(crc, all) {
      assert Slice(File(crc, all), 0, 8) == SIGNATURE;
    }
  }

  /** Chunks read so far begin every list that the data encodes: the others encode what is left. */
  lemma {:induction false} RestIsEncoded(crc: Checksum, data: Bytes, from: nat, to: nat, chunks: seq<Chunk>, all: seq<Chunk>) returns (rest: seq<Chunk>)
    requires from <= to <= |data| && data[from..to] == EncodeAll(crc, chunks) && Encodes(crc, data[from..], all)
    ensures Encodes(crc, data[to..], rest)
    decreases |chunks|
  {
    if chunks == [] {
      rest := all;
    } else {
      var size := 12 + |chunks[0].body|;
      assert data[from..to][..size] == Encode(crc, chunks[0]);
      assert data[from..][..size] == data[from..to][..size];
      EncodedReads(crc, data, from, chunks[0]);
      FirstChunk(crc, data, from, all);
      assert data[from + size..to] == data[from..to][size..];
      rest := RestIsEncoded(crc, data, from + size, to, chunks[1..], all[1..]);
    }
  }

  /** Where no chunk reads, the data is no file: a file's chunks would go on from there. */
  lemma Unreadable(crc: Checksum, data: Bytes, pos: nat, chunks: seq<Chunk>)
    requires ReadAs(crc, data, pos, chunks) && pos < |data| && ReadChunk(crc, data, pos).None?
    ensures forall all :: data != File(crc, all)
  {
    forall all ensures data != File(crc, all) {
      if data == File(crc, all) {
        assert data[8..] == EncodeAll(crc, all);
        var rest := RestIsEncoded(crc, data, 8, pos, chunks, all);
        FirstChunk(crc, data, pos, rest);
      }
    }
  }

  /** All chunks of a file, or nothing where the source stops with an error. A success consumed the whole file. */
  method ReadChunks(crc: Checksum, data: Bytes) returns (r: Option<seq<Chunk>>)
    ensures r.Some? ==> data == File(crc, r.value) && IsFileOf(crc, data, r.value)
    ensures r.None? ==> forall chunks :: !IsFileOf(crc, data, chunks)
  {
    forall chunks ensures data == File(crc, chunks) <==> IsFileOf(crc, data, chunks) {
      FileLayout(crc, data, chunks);
    }
    if Slice(data, 0, 8) != SIGNATURE {
      NotAFile(crc, data);
      return None;
    }
    var pos := 8;
    var chunks: seq<Chunk> := [];
    BeginReading(crc, data);
    while pos < |data|
      invariant ReadAs(crc, data, pos, chunks)
      decreases |data| - pos
    {
      var chunk := ReadChunk(crc, data, pos);
      if chunk.None? {
        Unreadable(crc, data, pos, chunks);
        return None;
      }
      var c: Chunk := chunk.value;
      ReadOneMore(crc, data, pos, chunks, c);
      pos, chunks := pos + 12 + |c.body|, chunks + [c];
    }
    ReadToTheEnd(crc, data, chunks);
    r := Some(chunks);
  }

  /** No two chunk lists make the same file, so reading a written file returns what was written. */
  lemma {:induction false} FilesAreUnambiguous(crc: Checksum, a: seq<Chunk>, b: seq<Chunk>)
    requires EncodeAll(crc, a) == EncodeAll(crc, b)
    ensures a == b
    decreases |a|
  {
    if a != [] && b != [] {
      var data := EncodeAll(crc, a);
      assert data[0..] == data;
      FirstChunk(crc, data, 0, a);
      FirstChunk(crc, data, 0, b);
      FilesAreUnambiguous(crc, a[1..], b[1..]);
    }
  }

  // ----- Inserting the text chunk -----

  const END: Chunk := AnyChunk.Chunk([0x49, 0x45, 0x4E, 0x44], [])

  /** `png[:-12] + chunk + png[-12:]` */
  function InsertBeforeEnd(png: Bytes, chunk: Bytes): Bytes {
    var cut := if |png| < 12 then 0 else |png| - 12;
    png[..cut] + chunk + png[cut..]
  }

  /** Reading the extended file gives the same chunks with the text chunk immediately before the end chunk. */
  method RenderAndRead(crc: Checksum, chunks: seq<Chunk>, text: Chunk) returns (r: Option<seq<Chunk>>)
    ensures r == Some(chunks + [text, END])
  {
    var original := File(crc, chunks + [END]);
    var extended := InsertBeforeEnd(original, Encode(crc, text));
    InsertionAddsChunk(crc, chunks, text);
    var expected := chunks + [text, END];
    FileLayout(crc, extended, expected);
    r := ReadChunks(crc, extended);
    assert File(crc, r.value)[8..] == EncodeAll(crc, r.value) && File(crc, expected)[8..] == EncodeAll(crc, expected);
    FilesAreUnambiguous(crc, r.value, expected);
  }

  /** Cutting twelve bytes before the end of a file that ends in an empty end chunk cuts exactly before that chunk. */
  lemma InsertionAddsChunk(crc: Checksum, chunks: seq<Chunk>, text: Chunk)
    ensures InsertBeforeEnd(File(crc, chunks + [END]), Encode(crc, text)) == File(crc, chunks + [text, END])
  {
    EncodeAllSnoc(crc, chunks, END);
    EncodeAllSnoc(crc, chunks, text);
    EncodeAllSnoc(crc, chunks + [text], END);
    assert chunks + [text] + [END] == chunks + [text, END];
    var png, cut := File(crc, chunks + [END]), |File(crc, chunks)|;
    assert png == File(crc, chunks) + Encode(crc, END);
    assert png[..cut] == File(crc, chunks) && png[cut..] == Encode(crc, END);
  }
}
