/**
 The data blob of a collection: documents one after the other, each carrying its length in its
 first four bytes, with no end marker. Reading survives short reads, and a cut blob yields
 exactly the documents that are whole.
 */
module Blob {
  import opened Wrappers
  import opened ByteStrings

  /** The document codec, a library: only its framing matters here. */
  datatype Codec<!D> = Codec(encode: D -> Bytes, decode: Bytes -> Result<D, string>)

  const MAX_DOCUMENT_SIZE := 64 * 1024 * 1024

  /** The first four bytes, little-endian, as a signed 32-bit integer. */
  function LengthPrefix(b: Bytes): int
    requires |b| >= 4
  {
    var u: int := b[0] as int + 0x100 * b[1] as int + 0x1_0000 * b[2] as int + 0x100_0000 * b[3] as int;
    if u >= 0x8000_0000 then u - 0x1_0000_0000 else u
  }

  predicate PlausibleLength(len: int) {
    5 <= len <= MAX_DOCUMENT_SIZE
  }

  /** The codec frames this document: its prefix is its length, in bounds, and it decodes to itself. */
  ghost predicate Framed<D(!new)>(codec: Codec<D>, d: D) {
    var b := codec.encode(d);
    PlausibleLength(|b|) && LengthPrefix(b) == |b| && codec.decode(b) == Success(d)
  }

  /**
   The format as the BSON Specification 1.1 has it: a document is framed when it decodes from what it
   encodes to, 5 bytes to 64 MiB of which the first four spell their number, the lowest byte first.
   */
  lemma FramedMeans<D(!new)>(codec: Codec<D>, d: D)
    ensures Framed(codec, d) <==>
              var b := codec.encode(d);
              5 <= |b| <= 67_108_864 && codec.decode(b) == Success(d) &&
              b[0] as int + 256 * b[1] as int + 65_536 * b[2] as int + 16_777_216 * b[3] as int == |b|
  {
  }

  datatype Next<D> = End | Doc(doc: D, rest: Bytes) | Corrupt

  /** What stands at the front of the remaining bytes. */
  function NextDoc<D>(codec: Codec<D>, data: Bytes): (r: Next<D>)
    ensures r.Doc? ==> |r.rest| < |data|
  {
    if data == [] then End
    else if |data| < 4 then Corrupt
    else
      var len := LengthPrefix(data);
      if !PlausibleLength(len) || |data| < len then Corrupt
      else
        match codec.decode(data[..len])
        case Success(d) => Doc(d, data[len..])
        case Failure(_) => Corrupt
  }

  /** A source of bytes that returns as few as it likes per read, and none only at its end. */
  class ByteStream {
    var rest: Bytes

    constructor (data: Bytes)
      ensures rest == data
    {
      rest := data;
    }

    method Read(max: nat) returns (chunk: Bytes)
      requires max > 0
      modifies this
      ensures chunk + rest == old(rest) && |chunk| <= max
      ensures chunk == [] <==> old(rest) == []
    {
      if rest == [] {
        return [];
      }
      var n :| 1 <= n <= |rest| && n <= max;
      chunk, rest := rest[..n], rest[n..];
    }
  }

  class DocumentReader<!D> {
    const codec: Codec<D>
    const inner: ByteStream

    constructor (codec: Codec<D>, inner: ByteStream)
      ensures this.codec == codec && this.inner == inner
    {
      this.codec, this.inner := codec, inner;
    }

    /** `read_exact`: keep reading until `n` bytes are there or the stream ends. */
    method ReadExact(n: nat) returns (r: Option<Bytes>)
      modifies inner
      ensures if |old(inner.rest)| >= n then r == Some(old(inner.rest)[..n]) && inner.rest == old(inner.rest)[n..]
              else r == None
    {
      var buf: Bytes := [];
      while |buf| < n
        invariant |buf| <= n && buf + inner.rest == old(inner.rest)
        decreases n - |buf|
      {
        var chunk := inner.Read(n - |buf|);
        if chunk == [] {
          return None;
        }
        buf := buf + chunk;
      }
      r := Some(buf);
    }

    /** The next document, `None` at a clean end, or an error where the bytes stop inside a document. */
    method NextDocument() returns (r: Result<Option<D>, string>)
      modifies inner
      ensures match NextDoc(codec, old(inner.rest))
              case End => r == Success(None) && inner.rest == []
              case Doc(d, rest) => r == Success(Some(d)) && inner.rest == rest
              case Corrupt => r.Failure?
    {
      var lenBuf: Bytes := [];
      while |lenBuf| < 4
        invariant |lenBuf| <= 4 && lenBuf + inner.rest == old(inner.rest)
        decreases 4 - |lenBuf|
      {
        var chunk := inner.Read(4 - |lenBuf|);
        if chunk == [] {
          if lenBuf == [] {
            return Success(None);
          }
          return Failure("corrupt dump: truncated document length");
        }
        lenBuf := lenBuf + chunk;
      }
      ghost var data := old(inner.rest);
      assert lenBuf == data[..4] && inner.rest == data[4..];
      var len := LengthPrefix(lenBuf);
      if !PlausibleLength(len) {
        return Failure("corrupt dump: invalid document length");
      }
      var body := ReadExact(len - 4);
      match body {
        case None => return Failure("corrupt dump");
        case Some(tail) =>
          assert lenBuf + tail == data[..len];
          match codec.decode(lenBuf + tail) {
            case Success(d) => return Success(Some(d));
            case Failure(e) => return Failure(e);
          }
      }
    }

    /** Up to `n` documents (at least one is asked for); an empty batch means the end of the stream. */
    method NextBatch(n: nat) returns (r: Result<seq<D>, string>)
      modifies inner
      ensures match BatchOf(codec, old(inner.rest), AtLeastOne(n))
              case Success((docs, rest)) => r == Success(docs) && inner.rest == rest
              case Failure(_) => r.Failure?
    {
      hide NextDoc;
      var out: seq<D> := [];
      ghost var want := AtLeastOne(n);
      BehindNothing(BatchOf(codec, inner.rest, want));
      while |out| < AtLeastOne(n)
        invariant |out| <= want
        invariant BatchOf(codec, old(inner.rest), want) == Behind(out, BatchOf(codec, inner.rest, want - |out|))
        decreases want - |out|
      {
        ghost var data := inner.rest;
        var next := NextDocument();
        match next {
          case Failure(e) => return Failure(e);
          case Success(None) =>
            assert out + [] == out;
            return Success(out);
          case Success(Some(d)) =>
            BehindTwice(out, [d], BatchOf(codec, inner.rest, want - |out| - 1));
            out := out + [d];
        }
      }
      assert out + [] == out;
      r := Success(out);
    }
  }

  function AtLeastOne(n: nat): (m: nat)
    ensures m >= 1 && m >= n && (m == 1 || m == n)
  {
    if n < 1 then 1 else n
  }

  type Batch<D> = Result<(seq<D>, Bytes), string>

  function Behind<D>(docs: seq<D>, b: Batch<D>): Batch<D> {
    match b
    case Success((more, rest)) => Success((docs + more, rest))
    case Failure(e) => Failure(e)
  }

  lemma BehindNothing<D>(x: Batch<D>)
    ensures Behind([], x) == x
  {
    if x.Success? {
      assert [] + x.value.0 == x.value.0;
    }
  }

  lemma BehindTwice<D>(a: seq<D>, b: seq<D>, x: Batch<D>)
    ensures Behind(a, Behind(b, x)) == Behind(a + b, x)
  {
    if x.Success? {
      assert a + (b + x.value.0) == (a + b) + x.value.0;
    }
  }

  /** A batch of at most `n` documents; one that runs into corruption is lost as a whole. */
  function BatchOf<D>(codec: Codec<D>, data: Bytes, n: nat): Batch<D>
    decreases n
  {
    if n == 0 then Success(([], data))
    else
      match NextDoc(codec, data)
      case End => Success(([], []))
      case Corrupt => Failure("corrupt dump")
      case Doc(d, rest) => Behind([d], BatchOf(codec, rest, n - 1))
  }

  // Whole blobs.

  /** All documents that can be read, and whether the blob then ends cleanly. */
  function ReadAll<D>(codec: Codec<D>, data: Bytes): (seq<D>, bool)
    decreases |data|
  {
    match NextDoc(codec, data)
    case End => ([], true)
    case Corrupt => ([], false)
    case Doc(d, rest) => var (docs, clean) := ReadAll(codec, rest); ([d] + docs, clean)
  }

  function Frames<D>(codec: Codec<D>, docs: seq<D>): Bytes {
    if docs == [] then [] else codec.encode(docs[0]) + Frames(codec, docs[1..])
  }

  ghost predicate AllFramed<D(!new)>(codec: Codec<D>, docs: seq<D>) {
    forall i | 0 <= i < |docs| :: Framed(codec, docs[i])
  }

  lemma {:induction false} FramesConcat<D>(codec: Codec<D>, a: seq<D>, b: seq<D>)
    ensures Frames(codec, a + b) == Frames(codec, a) + Frames(codec, b)
  {
    if a == [] {
      assert a + b == b;
    } else {
      assert (a + b)[1..] == a[1..] + b;
      FramesConcat(codec, a[1..], b);
    }
  }

  /** Bytes whose first four spell less than 5, more than 64 MiB or more than there are, are corrupt. */
  lemma ImplausibleIsCorrupt<D>(codec: Codec<D>, data: Bytes)
    requires data != []
    requires |data| >= 4 ==>
               var low: int := data[0] as int + 256 * data[1] as int;
               var n := low + 65_536 * data[2] as int + 16_777_216 * data[3] as int;
               n < 5 || n > 67_108_864 || n > |data|
    ensures NextDoc(codec, data) == Corrupt
  {
  }

  /** A whole frame at the front is read as its document. */
  lemma FrameIsRead<D(!new)>(codec: Codec<D>, d: D, rest: Bytes)
    requires Framed(codec, d)
    ensures NextDoc(codec, codec.encode(d) + rest) == Doc(d, rest)
  {
    var b := codec.encode(d);
    var data := b + rest;
    assert data[..|b|] == b && data[|b|..] == rest;
    assert LengthPrefix(data) == LengthPrefix(b);
  }

  lemma FrameNotEmpty<D(!new)>(codec: Codec<D>, d: D)
    requires Framed(codec, d)
    ensures |codec.encode(d)| > 0
  {
  }

  /** A frame that is cut short, but not to nothing, is an error. */
  lemma CutFrameIsCorrupt<D(!new)>(codec: Codec<D>, d: D, n: nat)
    requires Framed(codec, d) && 0 < n < |codec.encode(d)|
    ensures NextDoc(codec, codec.encode(d)[..n]) == Corrupt
  {
    var b := codec.encode(d);
    if n >= 4 {
      assert LengthPrefix(b[..n]) == LengthPrefix(b);
    }
  }

  /** How many of the frames end at or before the cut. */
  function WholeFrames<D>(codec: Codec<D>, docs: seq<D>, cut: nat): (k: nat)
    ensures k <= |docs|
  {
    if docs == [] || |codec.encode(docs[0])| > cut then 0
    else 1 + WholeFrames(codec, docs[1..], cut - |codec.encode(docs[0])|)
  }

  lemma {:induction false} WholeFramesMeans<D>(codec: Codec<D>, docs: seq<D>, cut: nat)
    ensures var k := WholeFrames(codec, docs, cut);
            |Frames(codec, docs[..k])| <= cut && (k < |docs| ==> cut < |Frames(codec, docs[..k + 1])|)
    decreases |docs|
  {
    var k := WholeFrames(codec, docs, cut);
    if k > 0 {
      var later := docs[1..];
      WholeFramesMeans(codec, later, cut - |codec.encode(docs[0])|);
      assert docs[..k][1..] == later[..k - 1];
      if k < |docs| {
        assert docs[..k + 1][1..] == later[..k];
      }
    } else if docs != [] {
      assert docs[..1][1..] == [];
    }
  }

  /**
   A blob cut anywhere yields exactly the documents whose frames end before the cut; it then ends
   cleanly if and only if the cut falls on a frame boundary.
   */
  lemma {:induction false} CutBlob<D(!new)>(codec: Codec<D>, docs: seq<D>, cut: nat)
    requires AllFramed(codec, docs) && cut <= |Frames(codec, docs)|
    ensures var k := WholeFrames(codec, docs, cut);
            ReadAll(codec, Frames(codec, docs)[..cut]) == (docs[..k], |Frames(codec, docs[..k])| == cut)
    decreases |docs|
  {
    hide NextDoc, Framed;
    var k := WholeFrames(codec, docs, cut);
    var data := Frames(codec, docs)[..cut];
    if docs != [] {
      assert |codec.encode(docs[0])| > 0 by {
        FrameNotEmpty(codec, docs[0]);
      }
    }
    if docs == [] || cut == 0 {
      assert data == [] && docs[..k] == [];
      NothingLeft(codec);
    } else {
      var b, later := codec.encode(docs[0]), docs[1..];
      assert forall i | 0 <= i < |later| :: later[i] == docs[i + 1];
      assert Framed(codec, docs[0]);
      if |b| > cut {
        assert data == b[..cut];
        CutFrameIsCorrupt(codec, docs[0], cut);
      } else {
        var tail := Frames(codec, later)[..cut - |b|];
        assert data == b + tail;
        FrameIsRead(codec, docs[0], tail);
        CutBlob(codec, later, cut - |b|);
        assert docs[..k][1..] == later[..k - 1] && docs[..k] == [docs[0]] + later[..k - 1];
      }
    }
  }

  lemma NothingLeft<D>(codec: Codec<D>)
    ensures NextDoc(codec, []) == End
  {
  }

  /** Reading back what was written returns the documents, in order, and a clean end. */
  lemma BlobReadsBack<D(!new)>(codec: Codec<D>, docs: seq<D>)
    requires AllFramed(codec, docs)
    ensures ReadAll(codec, Frames(codec, docs)) == (docs, true)
  {
    var blob := Frames(codec, docs);
    assert blob[..|blob|] == blob;
    CutBlob(codec, docs, |blob|);
    WholeFramesMeans(codec, docs, |blob|);
    var k := WholeFrames(codec, docs, |blob|);
    PrefixFits(codec, docs, if k < |docs| then k + 1 else k);
    assert docs[..|docs|] == docs;
  }

  /** All frames are whole in the whole blob. */
  lemma AllFramesWhole<D(!new)>(codec: Codec<D>, docs: seq<D>)
    requires AllFramed(codec, docs)
    ensures WholeFrames(codec, docs, |Frames(codec, docs)|) == |docs|
  {
    var blob := Frames(codec, docs);
    assert blob[..|blob|] == blob;
    CutBlob(codec, docs, |blob|);
    BlobReadsBack(codec, docs);
  }

  lemma PrefixFits<D>(codec: Codec<D>, docs: seq<D>, j: nat)
    requires j <= |docs|
    ensures |Frames(codec, docs[..j])| <= |Frames(codec, docs)|
  {
    assert docs == docs[..j] + docs[j..];
    FramesConcat(codec, docs[..j], docs[j..]);
  }

  /** A strict prefix of a blob never reads as the whole: documents are missing or the end is not clean. */
  lemma TruncationIsShort<D(!new)>(codec: Codec<D>, docs: seq<D>, cut: nat)
    requires AllFramed(codec, docs) && cut < |Frames(codec, docs)|
    ensures var (read, clean) := ReadAll(codec, Frames(codec, docs)[..cut]);
            |read| < |docs| && read == docs[..|read|]
  {
    CutBlob(codec, docs, cut);
    WholeFramesMeans(codec, docs, cut);
    assert docs[..|docs|] == docs;
  }

  // Batches.

  /** The batches a caller gets by asking for `n` until an empty one or an error, and whether the end was clean. */
  function Batches<D>(codec: Codec<D>, data: Bytes, n: nat): (seq<seq<D>>, bool)
    requires n > 0
    decreases |data|
  {
    match BatchOf(codec, data, n)
    case Failure(_) => ([], false)
    case Success((docs, rest)) =>
      BatchProgress(codec, data, n);
      if docs == [] then ([], true)
      else var (more, clean) := Batches(codec, rest, n); ([docs] + more, clean)
  }

  lemma {:induction false} BatchProgress<D>(codec: Codec<D>, data: Bytes, n: nat)
    ensures match BatchOf(codec, data, n)
            case Success((docs, rest)) => |rest| <= |data| && (docs != [] ==> |rest| < |data|)
            case Failure(_) => true
    decreases n
  {
    if n > 0 && NextDoc(codec, data).Doc? {
      BatchProgress(codec, NextDoc(codec, data).rest, n - 1);
    }
  }

  function Flatten<D>(batches: seq<seq<D>>): seq<D> {
    if batches == [] then [] else batches[0] + Flatten(batches[1..])
  }

  /** One batch takes the next `n` readable documents, or all of them at a clean end. */
  lemma {:induction false} BatchTakes<D>(codec: Codec<D>, data: Bytes, n: nat)
    ensures var (all, clean) := ReadAll(codec, data);
            match BatchOf(codec, data, n)
            case Failure(_) => !clean && |all| < n
            case Success((docs, rest)) =>
              |docs| == (if |all| < n then |all| else n) && docs == all[..|docs|] &&
              ReadAll(codec, rest) == (all[|docs|..], clean) && (|all| < n ==> clean)
    decreases n
  {
    hide NextDoc;
    if n > 0 {
      match NextDoc(codec, data)
      case Doc(d, rest) =>
        BatchTakes(codec, rest, n - 1);
        var all, later := ReadAll(codec, data).0, ReadAll(codec, rest).0;
        assert forall m: nat | m <= |later| :: all[..m + 1] == [d] + later[..m] && all[m + 1..] == later[m..];
      case End =>
        NothingLeft(codec);
      case Corrupt =>
    }
  }

  /** Every batch but the last is full, and none is empty. */
  predicate FullBatches<D>(batches: seq<seq<D>>, n: nat) {
    (forall i | 0 <= i < |batches| :: 0 < |batches[i]| <= n) &&
    (forall i | 0 <= i < |batches| - 1 :: |batches[i]| == n)
  }

  /**
   Batched reading returns the readable documents: all of them at a clean end; before corruption,
   the documents of full batches, so that fewer than a batch are withheld.
   */
  lemma {:induction false} BatchesCover<D>(codec: Codec<D>, data: Bytes, n: nat)
    requires n > 0
    ensures var (all, clean) := ReadAll(codec, data);
            var (batches, ended) := Batches(codec, data, n);
            ended == clean && FullBatches(batches, n) && Flatten(batches) <= all &&
            (clean ==> Flatten(batches) == all) &&
            (!clean ==> |all| - n < |Flatten(batches)| && forall i | 0 <= i < |batches| :: |batches[i]| == n)
    decreases |data|
  {
    hide BatchOf, ReadAll;
    BatchTakes(codec, data, n);
    match BatchOf(codec, data, n)
    case Failure(_) =>
    case Success((docs, rest)) =>
      BatchProgress(codec, data, n);
      if docs != [] {
        BatchesCover(codec, rest, n);
        var all := ReadAll(codec, data).0;
        var more := Batches(codec, rest, n).0;
        assert ([docs] + more)[1..] == more;
        assert all == docs + all[|docs|..];
        if |docs| < n {
          assert all[|docs|..] == [];
        }
      }
  }

  // Writing.

  /** The streaming writer of one collection's blob. */
  class CollectionDataWriter<!D(!new)> {
    const codec: Codec<D>
    var sink: Bytes
    var count: nat
    ghost var docs: seq<D>

    ghost predicate Valid()
      reads this
    {
      sink == Frames(codec, docs) && count == |docs|
    }

    lemma ValidMeans()
      requires Valid()
      ensures sink == Frames(codec, docs) && count == |docs|
    {
    }

    constructor (codec: Codec<D>)
      ensures Valid() && docs == [] && this.codec == codec
    {
      this.codec := codec;
      sink, count, docs := [], 0, [];
    }

    method WriteDocument(d: D)
      requires Valid()
      modifies this
      ensures Valid() && docs == old(docs) + [d]
    {
      FramesConcat(codec, docs, [d]);
      assert Frames(codec, [d]) == codec.encode(d) + Frames(codec, []);
      sink := sink + codec.encode(d);
      count := count + 1;
      docs := docs + [d];
    }
  }
}
