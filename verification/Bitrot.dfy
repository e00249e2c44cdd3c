/**
 * The bitrot shard format: a shard file is a sequence of frames, each the
 * checksum of a chunk followed by the chunk, and every chunk but the last has
 * the shard size. Covers the position arithmetic of the reader and the writer,
 * the writer, the reader and the verifier.
 */
module Bitrot {
  import opened Prelude
  import opened Arith

  newtype Byte = b: int | 0 <= b < 256

  type Hash = seq<Byte> -> seq<Byte>

  datatype Error = InvalidInput | InvalidData | UnexpectedEof | SizeMismatch | Underflow

  /** Every digest of the algorithm has its announced size. */
  ghost predicate Sized(hash: Hash, h: nat) {
    forall x :: |hash(x)| == h
  }

  function CeilDiv(n: nat, s: nat): (q: nat)
    requires s > 0
  {
    if n % s == 0 then n / s else n / s + 1
  }

  /** The size on disk of `n` logical bytes, and the position of logical byte `n`. */
  function Physical(n: nat, s: nat, h: nat): (p: nat)
    requires s > 0
  {
    CeilDiv(n, s) * h + n
  }

  function Chunk(n: nat, s: nat): (k: nat) {
    if n < s then n else s
  }

  /** A chunk on disk: its checksum, then its bytes. */
  function Frame(chunk: seq<Byte>, hash: Hash): (frame: seq<Byte>) {
    hash(chunk) + chunk
  }

  /** The shard file that holds `data`. */
  function Encode(data: seq<Byte>, s: nat, hash: Hash): (file: seq<Byte>)
    requires s > 0
    decreases |data|
  {
    if data == [] then [] else
      var k := Chunk(|data|, s);
      Frame(data[..k], hash) + Encode(data[k..], s, hash)
  }

  /** A stream that starts with a frame falls into its checksum, its chunk and what follows. */
  lemma FrameCut(chunk: seq<Byte>, rest: seq<Byte>, file: seq<Byte>, h: nat, hash: Hash)
    requires |hash(chunk)| == h && file == Frame(chunk, hash) + rest
    ensures |file| == h + |chunk| + |rest|
    ensures file[..h] == hash(chunk) && file[h..][..|chunk|] == chunk && file[h..][|chunk|..] == rest
  {
    assert file[h..] == chunk + rest;
  }

  /** A number of bytes that fills whole chunks. */
  predicate Whole(n: nat, s: nat)
    requires s > 0
  {
    n == 0 || (s <= n && Whole(n - s, s))
  }

  lemma {:induction false} WholeIff(n: nat, s: nat)
    requires s > 0
    ensures Whole(n, s) <==> n % s == 0
  {
    if n == 0 {
      DivModUnique(0, s, 0, 0);
    } else if n < s {
      DivModUnique(n, s, 0, n);
    } else {
      WholeIff(n - s, s);
      DivModShift(s, 1, n - s);
    }
  }

  // ----- position arithmetic -----

  lemma CeilDivStep(n: nat, s: nat)
    requires s > 0 && n > 0
    ensures CeilDiv(n, s) == 1 + CeilDiv(n - Chunk(n, s), s)
  {
    if n < s {
      DivModUnique(n, s, 0, n);
      DivModUnique(0, s, 0, 0);
    } else {
      DivModShift(s, 1, n - s);
    }
  }

  /** A shard file starts with one frame, and the rest is the file of the other bytes. */
  lemma PhysicalStep(n: nat, s: nat, h: nat)
    requires s > 0 && n > 0
    ensures Physical(n, s, h) == h + Chunk(n, s) + Physical(n - Chunk(n, s), s, h)
  {
    CeilDivStep(n, s);
    var q := CeilDiv(n - Chunk(n, s), s);
    assert (1 + q) * h == h + q * h;
  }

  lemma PhysicalZero(s: nat, h: nat)
    requires s > 0
    ensures Physical(0, s, h) == 0
  {
    DivModUnique(0, s, 0, 0);
  }

  lemma PhysicalIncreasing(m: nat, n: nat, s: nat, h: nat)
    requires s > 0 && m < n
    ensures Physical(m, s, h) < Physical(n, s, h)
  {
    assert m == s * (m / s) + m % s && n == s * (n / s) + n % s;
    DivMonotone(m, n, s);
    assert CeilDiv(m, s) <= CeilDiv(n, s);
    assert (CeilDiv(n, s) - CeilDiv(m, s)) * h >= 0;
    assert CeilDiv(n, s) * h == CeilDiv(m, s) * h + (CeilDiv(n, s) - CeilDiv(m, s)) * h;
  }

  /** The range the reader asks of the disk; `None` where its subtraction underflows. */
  function ReadRange(offset: nat, length: nat, s: nat, h: nat): (range: Option<(nat, nat)>)
    requires s > 0
  {
    var to := Physical(length, s, h);
    var from := Physical(offset, s, h);
    if from <= to then Some((from, to - from)) else None
  }

  /** What the writer reserves on disk for a file of the given expected length. */
  function Reserve(length: int, s: nat, h: nat): (size: nat)
    requires s > 0
    ensures length <= 0 ==> size == 0
  {
    if length > 0 then Physical(length, s, h) else 0
  }

  lemma ReadRangeDefinedIff(offset: nat, length: nat, s: nat, h: nat)
    requires s > 0
    ensures ReadRange(offset, length, s, h).Some? <==> offset <= length
  {
    if offset < length {
      PhysicalIncreasing(offset, length, s, h);
    } else if length < offset {
      PhysicalIncreasing(length, offset, s, h);
    }
  }

  /**
   * Frames take `s + h` bytes, so the physical position lies in frame `n / s`:
   * at its very start for an aligned byte, and past its checksum otherwise.
   */
  lemma FramePosition(n: nat, s: nat, h: nat)
    requires s > 0
    ensures Physical(n, s, h) / (s + h) == n / s
    ensures Physical(n, s, h) % (s + h) == if n % s == 0 then 0 else h + n % s
  {
    var q, r := n / s, n % s;
    assert n == s * q + r;
    assert (q + 1) * h == q * h + h;
    assert (s + h) * q == s * q + h * q;
    DivModUnique(Physical(n, s, h), s + h, q, if r == 0 then 0 else h + r);
  }

  lemma CeilDivAligned(off: nat, n: nat, s: nat)
    requires s > 0 && off % s == 0
    ensures CeilDiv(off + n, s) == off / s + CeilDiv(n, s)
  {
    assert off == s * (off / s);
    DivModShift(s, off / s, n);
  }

  lemma PhysicalAligned(off: nat, n: nat, s: nat, h: nat)
    requires s > 0 && off % s == 0
    ensures Physical(off + n, s, h) == Physical(off, s, h) + Physical(n, s, h)
  {
    CeilDivAligned(off, n, s);
    assert (off / s + CeilDiv(n, s)) * h == off / s * h + CeilDiv(n, s) * h;
  }

  /** From an aligned offset the reader asks for exactly what a writer of the remaining bytes reserves. */
  lemma AlignedRange(offset: nat, length: nat, s: nat, h: nat)
    requires s > 0 && offset <= length && offset % s == 0
    ensures ReadRange(offset, length, s, h)
         == Some((offset / s * (s + h), Reserve(length - offset, s, h)))
  {
    PhysicalAligned(offset, length - offset, s, h);
    PhysicalZero(s, h);
    assert offset == s * (offset / s);
    assert offset / s * (s + h) == offset / s * s + offset / s * h;
  }

  // ----- the file -----

  lemma {:induction false} EncodedLength(data: seq<Byte>, s: nat, h: nat, hash: Hash)
    requires s > 0 && Sized(hash, h)
    ensures |Encode(data, s, hash)| == Physical(|data|, s, h) == Reserve(|data|, s, h)
    decreases |data|
  {
    if data == [] {
      PhysicalZero(s, h);
    } else {
      var k := Chunk(|data|, s);
      EncodedLength(data[k..], s, h, hash);
      PhysicalStep(|data|, s, h);
    }
  }

  /** Appending after whole chunks appends the file of the new bytes. */
  lemma {:induction false} EncodeConcat(a: seq<Byte>, b: seq<Byte>, s: nat, hash: Hash)
    requires s > 0 && Whole(|a|, s)
    ensures Encode(a + b, s, hash) == Encode(a, s, hash) + Encode(b, s, hash)
    decreases |a|
  {
    if a == [] {
      assert a + b == b;
    } else {
      EncodeConcat(a[s..], b, s, hash);
      FirstFrameOf(a, b, s, hash);
      Regroup(Frame(a[..s], hash), Encode(a[s..], s, hash), Encode(b, s, hash));
    }
  }

  lemma Regroup(x: seq<Byte>, y: seq<Byte>, z: seq<Byte>)
    ensures x + (y + z) == x + y + z
  {
  }

  lemma FirstFrameOf(a: seq<Byte>, b: seq<Byte>, s: nat, hash: Hash)
    requires 0 < s <= |a|
    ensures Encode(a, s, hash) == Frame(a[..s], hash) + Encode(a[s..], s, hash)
    ensures Encode(a + b, s, hash) == Frame(a[..s], hash) + Encode(a[s..] + b, s, hash)
  {
    EncodeFirst(a, s, hash);
    EncodeFirst(a + b, s, hash);
    assert (a + b)[..s] == a[..s] && (a + b)[s..] == a[s..] + b;
  }

  lemma EncodeFirst(data: seq<Byte>, s: nat, hash: Hash)
    requires 0 < s <= |data|
    ensures Encode(data, s, hash) == Frame(data[..s], hash) + Encode(data[s..], s, hash)
  {
  }

  lemma EncodeOne(chunk: seq<Byte>, s: nat, hash: Hash)
    requires 0 < |chunk| <= s
    ensures Encode(chunk, s, hash) == Frame(chunk, hash)
  {
    assert chunk[..|chunk|] == chunk;
  }

  /** An aligned offset splits the file into the files of the two parts. */
  lemma EncodeAligned(data: seq<Byte>, off: nat, s: nat, h: nat, hash: Hash)
    requires s > 0 && Sized(hash, h)
    requires off <= |data| && Whole(off, s)
    ensures Physical(off, s, h) <= |Encode(data, s, hash)|
    ensures Encode(data, s, hash)[..Physical(off, s, h)] == Encode(data[..off], s, hash)
    ensures Encode(data, s, hash)[Physical(off, s, h)..] == Encode(data[off..], s, hash)
  {
    assert data == data[..off] + data[off..];
    EncodeConcat(data[..off], data[off..], s, hash);
    EncodedLength(data[..off], s, h, hash);
  }

  /** At an offset inside a chunk the physical position holds that very byte. */
  lemma UnalignedByte(data: seq<Byte>, off: nat, s: nat, h: nat, hash: Hash)
    requires s > 0 && Sized(hash, h)
    requires off < |data| && off % s != 0
    ensures Physical(off, s, h) < |Encode(data, s, hash)|
    ensures Encode(data, s, hash)[Physical(off, s, h)] == data[off]
  {
    var start, r := UnalignedPosition(off, s, h);
    ByteOfChunk(data, start, r, s, h, hash);
  }

  lemma UnalignedPosition(off: nat, s: nat, h: nat) returns (start: nat, r: nat)
    requires s > 0 && off % s != 0
    ensures off == start + r && r < s && Whole(start, s)
    ensures Physical(off, s, h) == Physical(start, s, h) + h + r
  {
    r := off % s;
    assert off == s * (off / s) + r;
    start := off - r;
    DivModUnique(start, s, off / s, 0);
    WholeIff(start, s);
    PhysicalAligned(start, r, s, h);
    DivModUnique(r, s, 0, r);
  }

  lemma ByteOfChunk(data: seq<Byte>, start: nat, r: nat, s: nat, h: nat, hash: Hash)
    requires s > 0 && Sized(hash, h) && r < s && start + r < |data| && Whole(start, s)
    ensures Physical(start, s, h) + h + r < |Encode(data, s, hash)|
    ensures Encode(data, s, hash)[Physical(start, s, h) + h + r] == data[start + r]
  {
    EncodeAligned(data, start, s, h, hash);
    FirstFrame(data[start..], r, s, h, hash);
    ByteInTail(Encode(data, s, hash), Physical(start, s, h), Encode(data[start..], s, hash), h + r);
  }

  lemma ByteInTail(file: seq<Byte>, p: nat, tail: seq<Byte>, i: nat)
    requires p <= |file| && file[p..] == tail && i < |tail|
    ensures p + i < |file| && file[p + i] == tail[i]
  {
  }

  lemma FirstFrame(data: seq<Byte>, r: nat, s: nat, h: nat, hash: Hash)
    requires r < |data| && r < s && Sized(hash, h)
    ensures h + r < |Encode(data, s, hash)|
    ensures Encode(data, s, hash)[h + r] == data[r]
  {
    var k := Chunk(|data|, s);
    FrameCut(data[..k], Encode(data[k..], s, hash), Encode(data, s, hash), h, hash);
  }

  // ----- writer -----

  class BitrotWriter {
    const shardSize: nat
    const hashSize: nat
    const hash: Hash
    var inner: seq<Byte>
    var finished: bool
    /** The logical bytes written so far. */
    ghost var written: seq<Byte>

    ghost predicate Valid()
      reads this
    {
      && shardSize > 0
      && Sized(hash, hashSize)
      && inner == Encode(written, shardSize, hash)
      && finished == (|written| % shardSize != 0)
    }

    constructor (s: nat, h: nat, hash: Hash)
      requires s > 0 && Sized(hash, h)
      ensures Valid() && written == []
      ensures shardSize == s && hashSize == h && this.hash == hash
    {
      shardSize, hashSize, this.hash := s, h, hash;
      inner, finished, written := [], false, [];
      new;
      DivModUnique(0, s, 0, 0);
    }

    method Write(buf: seq<Byte>) returns (r: Result<nat, Error>)
      requires Valid()
      modifies this
      ensures Valid()
      ensures r.Ok? <==> buf == [] || (|old(written)| % shardSize == 0 && |buf| <= shardSize)
      ensures r.Ok? ==> r.value == |buf| && written == old(written) + buf
      ensures r.Ok? ==> inner == old(inner) + if buf == [] then [] else hash(buf) + buf
      ensures r.Err? ==> r.error == InvalidInput && written == old(written) && inner == old(inner)
    {
      if buf == [] {
        assert written + buf == written;
        return Ok(0);
      }
      if finished || |buf| > shardSize {
        return Err(InvalidInput);
      }
      AppendFrame(written, buf, shardSize, hash);
      if |buf| < shardSize {
        finished := true;
      }
      var sum := if hashSize > 0 then hash(buf) else [];
      assert sum == hash(buf);
      inner := inner + (sum + buf);
      written := written + buf;
      return Ok(|buf|);
    }
  }

  lemma AppendFrame(written: seq<Byte>, buf: seq<Byte>, s: nat, hash: Hash)
    requires 0 < |buf| <= s && |written| % s == 0
    ensures Encode(written + buf, s, hash) == Encode(written, s, hash) + Frame(buf, hash)
    ensures |written + buf| % s == 0 <==> |buf| == s
  {
    WholeIff(|written|, s);
    EncodeConcat(written, buf, s, hash);
    EncodeOne(buf, s, hash);
    WholeOrShort(|written|, |buf|, s);
  }

  lemma WholeOrShort(n: nat, k: nat, s: nat)
    requires 0 < k <= s && n % s == 0
    ensures (n + k) % s == 0 <==> k == s
  {
    assert n == s * (n / s);
    DivModShift(s, n / s, k);
    if k < s {
      DivModUnique(k, s, 0, k);
    } else {
      DivModUnique(k, s, 1, 0);
    }
  }

  // ----- reader -----

  /** What a read of `want` bytes gives, and what is left of the stream after it. */
  function ReadFrame(unread: seq<Byte>, want: nat, s: nat, h: nat, hash: Hash)
    : (r: (Result<seq<Byte>, Error>, seq<Byte>))
  {
    if want > s then (Err(InvalidInput), unread)
    else if h > |unread| then (Err(UnexpectedEof), [])
    else
      var data := unread[h..];
      var k := Chunk(|data|, want);
      (if h > 0 && hash(data[..k]) != unread[..h] then Err(InvalidData) else Ok(data[..k]), data[k..])
  }

  class BitrotReader {
    const inner: seq<Byte>
    const shardSize: nat
    const hashSize: nat
    const hash: Hash
    var pos: nat

    constructor (inner: seq<Byte>, at: nat, s: nat, h: nat, hash: Hash)
      requires at <= |inner|
      ensures this.inner == inner && pos == at && shardSize == s && hashSize == h && this.hash == hash
    {
      this.inner, pos, shardSize, hashSize, this.hash := inner, at, s, h, hash;
    }

    /**
     * Reads a checksum, then `want` bytes or what is left of the stream, and compares. The stream
     * may hand out any non-empty part of what is left, as `grants` says.
     */
    method Read(want: nat, grants: nat -> nat) returns (r: Result<seq<Byte>, Error>)
      requires pos <= |inner|
      requires forall n: nat :: n > 0 ==> 0 < grants(n) <= n
      modifies this
      ensures want > shardSize ==> r == Err(InvalidInput) && pos == old(pos)
      ensures want <= shardSize && |inner| < old(pos) + hashSize ==> r == Err(UnexpectedEof) && pos == |inner|
      ensures want <= shardSize && old(pos) + hashSize <= |inner| ==>
                var start := old(pos) + hashSize;
                && pos == (if start + want <= |inner| then start + want else |inner|)
                && r == (if hashSize == 0 || hash(inner[start..pos]) == inner[old(pos)..start]
                         then Ok(inner[start..pos]) else Err(InvalidData))
      ensures pos <= |inner|
      ensures (r, inner[pos..]) == ReadFrame(inner[old(pos)..], want, shardSize, hashSize, hash)
    {
      if want > shardSize {
        return Err(InvalidInput);
      }
      var hashBuf: seq<Byte> := [];
      if hashSize > 0 {
        if pos + hashSize > |inner| {
          pos := |inner|;
          assert inner[pos..] == [];
          return Err(UnexpectedEof);
        }
        hashBuf := inner[pos..pos + hashSize];
        pos := pos + hashSize;
      }
      var out := ReadData(want, grants);
      UnreadCut(inner, old(pos), old(pos) + hashSize, pos);
      if hashSize > 0 && hash(out) != hashBuf {
        return Err(InvalidData);
      }
      return Ok(out);
    }

    /** Takes what the stream grants until enough has come or nothing is left. */
    method ReadData(want: nat, grants: nat -> nat) returns (out: seq<Byte>)
      requires pos <= |inner|
      requires forall n: nat :: n > 0 ==> 0 < grants(n) <= n
      modifies this
      ensures pos == if old(pos) + want <= |inner| then old(pos) + want else |inner|
      ensures out == inner[old(pos)..pos]
    {
      out := [];
      while |out| < want && pos < |inner|
        invariant pos <= |inner| && |out| <= want && pos == old(pos) + |out|
        invariant out == inner[old(pos)..pos]
        decreases |inner| - pos
      {
        var left: nat := if want - |out| < |inner| - pos then want - |out| else |inner| - pos;
        var n := grants(left);
        SlicesJoin(inner, old(pos), pos, pos + n);
        out := out + inner[pos..pos + n];
        pos := pos + n;
      }
    }
  }

  /** What is unread at a, cut at b and c. */
  lemma UnreadCut(stream: seq<Byte>, a: nat, b: nat, c: nat)
    requires a <= b <= c <= |stream|
    ensures stream[a..][..b - a] == stream[a..b] && stream[a..][b - a..] == stream[b..]
    ensures stream[b..][..c - b] == stream[b..c] && stream[b..][c - b..] == stream[c..]
  {
  }

  lemma SlicesJoin(s: seq<Byte>, a: nat, b: nat, c: nat)
    requires a <= b <= c <= |s|
    ensures s[a..b] + s[b..c] == s[a..c]
  {
  }

  /** Reads of at most a shard each, until `n` bytes have come back. */
  function ReadAll(unread: seq<Byte>, n: nat, s: nat, h: nat, hash: Hash): (r: Result<seq<Byte>, Error>)
    requires s > 0
    decreases n
  {
    if n == 0 then Ok([]) else
      var k := Chunk(n, s);
      var (first, next) := ReadFrame(unread, k, s, h, hash);
      if first.Err? then first else
        var rest := ReadAll(next, n - k, s, h, hash);
        if rest.Err? then rest else Ok(first.value + rest.value)
  }

  /** One read at a frame start of a written file returns the chunk and stops at the next frame. */
  lemma ReadFrameBack(data: seq<Byte>, k: nat, s: nat, h: nat, hash: Hash)
    requires s > 0 && Sized(hash, h) && data != [] && k == Chunk(|data|, s)
    ensures ReadFrame(Encode(data, s, hash), k, s, h, hash) == (Ok(data[..k]), Encode(data[k..], s, hash))
  {
    FrameCut(data[..k], Encode(data[k..], s, hash), Encode(data, s, hash), h, hash);
  }

  type Reading = (seq<Byte>, nat) -> Result<seq<Byte>, Error>

  /** The outcome of reading further, put behind what came first. */
  function After(first: seq<Byte>, rest: Result<seq<Byte>, Error>): Result<seq<Byte>, Error> {
    if rest.Ok? then Ok(first + rest.value) else rest
  }

  /** Reading on takes sound frames one by one. */
  ghost predicate TakesFrames(read: Reading, s: nat, hash: Hash) {
    && (forall stream :: read(stream, 0) == Ok([]))
    && (forall chunk, next, n: nat :: 0 < |chunk| == Chunk(n, s) ==>
          read(Frame(chunk, hash) + next, n) == After(chunk, read(next, n - |chunk|)))
  }

  lemma ReadAllTakesFrames(s: nat, h: nat, hash: Hash) returns (read: Reading)
    requires s > 0 && Sized(hash, h)
    ensures forall stream, n: nat {:trigger ReadAll(stream, n, s, h, hash)} :: read(stream, n) == ReadAll(stream, n, s, h, hash)
    ensures TakesFrames(read, s, hash)
  {
    read := (stream: seq<Byte>, n: nat) => ReadAll(stream, n, s, h, hash);
    forall chunk, next, n: nat | 0 < |chunk| == Chunk(n, s)
      ensures ReadAll(Frame(chunk, hash) + next, n, s, h, hash)
           == After(chunk, ReadAll(next, n - |chunk|, s, h, hash))
    {
      ReadAllOne(chunk, next, n, s, h, hash);
    }
  }

  lemma ReadAllOne(chunk: seq<Byte>, next: seq<Byte>, n: nat, s: nat, h: nat, hash: Hash)
    requires Sized(hash, h) && 0 < |chunk| == Chunk(n, s)
    ensures ReadAll(Frame(chunk, hash) + next, n, s, h, hash) == After(chunk, ReadAll(next, n - |chunk|, s, h, hash))
  {
    ReadOneFrame(chunk, next, s, h, hash);
  }

  lemma ReadOneFrame(chunk: seq<Byte>, next: seq<Byte>, s: nat, h: nat, hash: Hash)
    requires Sized(hash, h) && |chunk| <= s
    ensures ReadFrame(Frame(chunk, hash) + next, |chunk|, s, h, hash) == (Ok(chunk), next)
  {
    FrameCut(chunk, next, Frame(chunk, hash) + next, h, hash);
  }

  lemma TakeInTwo(data: seq<Byte>, k: nat, n: nat)
    requires k <= n <= |data|
    ensures data[..k] + data[k..][..n - k] == data[..n]
  {
  }

  /** So many of the bytes can be read: all of them, or whole chunks. */
  predicate EndsWell(n: nat, total: nat, s: nat)
    requires s > 0
  {
    n == total || (n <= total && Whole(n, s))
  }

  lemma NextChunk(n: nat, total: nat, s: nat, k: nat)
    requires s > 0 && 0 < n && EndsWell(n, total, s) && k == Chunk(n, s)
    ensures 0 < k <= n <= total && k == Chunk(total, s) && EndsWell(n - k, total - k, s)
  {
  }

  lemma {:induction false} FramesBack(data: seq<Byte>, n: nat, read: Reading, s: nat, hash: Hash)
    requires s > 0 && EndsWell(n, |data|, s) && TakesFrames(read, s, hash)
    ensures n <= |data| && read(Encode(data, s, hash), n) == Ok(data[..n])
    decreases n
  {
    if n > 0 {
      var k := Chunk(n, s);
      NextChunk(n, |data|, s, k);
      FramesBack(data[k..], n - k, read, s, hash);
      TakeInTwo(data, k, n);
    }
  }

  lemma ReadAllBack(data: seq<Byte>, n: nat, s: nat, h: nat, hash: Hash)
    requires s > 0 && Sized(hash, h) && EndsWell(n, |data|, s)
    ensures n <= |data| && ReadAll(Encode(data, s, hash), n, s, h, hash) == Ok(data[..n])
  {
    var read := ReadAllTakesFrames(s, h, hash);
    FramesBack(data, n, read, s, hash);
  }

  /**
   * Round trip: on the file of `data`, reading from the position computed for
   * an aligned offset, up to a chunk boundary or the end, returns those bytes.
   */
  lemma ReadBack(data: seq<Byte>, off: nat, n: nat, s: nat, h: nat, hash: Hash)
    requires s > 0 && Sized(hash, h)
    requires off % s == 0 && off + n <= |data|
    requires off + n == |data| || n % s == 0
    ensures Physical(off, s, h) <= |Encode(data, s, hash)|
    ensures ReadAll(Encode(data, s, hash)[Physical(off, s, h)..], n, s, h, hash) == Ok(data[off..off + n])
  {
    WholeIff(off, s);
    WholeIff(n, s);
    EncodeAligned(data, off, s, h, hash);
    ReadAllBack(data[off..], n, s, h, hash);
    assert data[off..][..n] == data[off..off + n];
  }

  // ----- damaged files -----

  lemma AfterTwice(a: seq<Byte>, k: nat, rest: Result<seq<Byte>, Error>)
    requires k <= |a|
    ensures After([], rest) == rest && After(a[..k], After(a[k..], rest)) == After(a, rest)
  {
    if rest.Ok? {
      assert [] + rest.value == rest.value;
      assert a[..k] + (a[k..] + rest.value) == a + rest.value;
    }
  }

  /** A stream of whole chunks and more starts with a frame. */
  lemma FirstOfMore(a: seq<Byte>, more: seq<Byte>, s: nat, hash: Hash)
    requires 0 < s <= |a|
    ensures Encode(a, s, hash) + more == Frame(a[..s], hash) + (Encode(a[s..], s, hash) + more)
  {
    EncodeFirst(a, s, hash);
    Regroup(Frame(a[..s], hash), Encode(a[s..], s, hash), more);
  }

  /** Reading whole chunks and further is reading what follows them, behind those bytes. */
  lemma {:induction false} ReadPast(stream: seq<Byte>, a: seq<Byte>, more: seq<Byte>,
    n: nat, rest: Result<seq<Byte>, Error>, read: Reading, s: nat, hash: Hash)
    requires s > 0 && Whole(|a|, s) && |a| <= n && TakesFrames(read, s, hash)
    requires stream == Encode(a, s, hash) + more && rest == read(more, n - |a|)
    ensures read(stream, n) == After(a, rest)
    decreases |a|
  {
    if a == [] {
      assert stream == more;
      AfterTwice(a, 0, rest);
    } else {
      var next := Encode(a[s..], s, hash) + more;
      FirstOfMore(a, more, s, hash);
      ReadPast(next, a[s..], more, n - s, rest, read, s, hash);
      ReadPastOne(a, next, n, rest, read, s, hash);
    }
  }

  lemma ReadPastOne(
    a: seq<Byte>, next: seq<Byte>, n: nat, rest: Result<seq<Byte>, Error>, read: Reading, s: nat, hash: Hash)
    requires 0 < s <= |a| <= n && TakesFrames(read, s, hash) && read(next, n - s) == After(a[s..], rest)
    ensures read(Frame(a[..s], hash) + next, n) == After(a, rest)
  {
    var chunk := a[..s];
    assert |chunk| == Chunk(n, s);
    assert read(Frame(chunk, hash) + next, n) == After(chunk, read(next, n - |chunk|));
    AfterTwice(a, s, rest);
  }

  lemma ReadAllPast(a: seq<Byte>, more: seq<Byte>, n: nat, s: nat, h: nat, hash: Hash)
    requires s > 0 && Sized(hash, h) && Whole(|a|, s) && |a| <= n
    ensures ReadAll(Encode(a, s, hash) + more, n, s, h, hash) == After(a, ReadAll(more, n - |a|, s, h, hash))
  {
    var read := ReadAllTakesFrames(s, h, hash);
    ReadPast(Encode(a, s, hash) + more, a, more, n, ReadAll(more, n - |a|, s, h, hash), read, s, hash);
  }

  /** The file is that of the data with the frame at off replaced by another checksum and other bytes. */
  ghost predicate Damaged(
    file: seq<Byte>, data: seq<Byte>, off: nat, sum: seq<Byte>, bad: seq<Byte>, s: nat, h: nat, hash: Hash)
    requires s > 0
  {
    var sound, p := Encode(data, s, hash), Physical(off, s, h);
    && |sum| == h && p + h + |bad| <= |sound|
    && file == sound[..p] + (sum + bad) + sound[p + h + |bad|..]
  }

  /** The bytes are not under their checksum, and take the place of a whole chunk of the data. */
  ghost predicate BadChunk(data: seq<Byte>, off: nat, sum: seq<Byte>, bad: seq<Byte>, s: nat, h: nat, hash: Hash)
    requires s > 0
  {
    && off % s == 0 && off < |data|
    && h > 0 && |bad| == Chunk(|data| - off, s) && hash(bad) != sum
  }

  lemma DamagedParts(
    file: seq<Byte>, data: seq<Byte>, off: nat, sum: seq<Byte>, bad: seq<Byte>, s: nat, h: nat, hash: Hash)
    returns (after: seq<Byte>)
    requires s > 0 && Sized(hash, h) && BadChunk(data, off, sum, bad, s, h, hash)
    requires Damaged(file, data, off, sum, bad, s, h, hash)
    ensures Whole(off, s) && |Encode(data[..off], s, hash)| == Physical(off, s, h) <= |file|
    ensures file == Encode(data[..off], s, hash) + (sum + bad + after)
    ensures file[Physical(off, s, h)..] == sum + bad + after
    ensures |bad| == s || after == []
  {
    WholeIff(off, s);
    EncodeAligned(data, off, s, h, hash);
    EncodedLength(data[..off], s, h, hash);
    FirstFrameEnds(data[off..], s, h, hash);
    after := Encode(data, s, hash)[Physical(off, s, h) + h + |bad|..];
    Regroup(Encode(data[..off], s, hash), sum + bad, after);
  }

  lemma FirstFrameEnds(data: seq<Byte>, s: nat, h: nat, hash: Hash)
    requires s > 0 && Sized(hash, h) && data != []
    ensures h + Chunk(|data|, s) <= |Encode(data, s, hash)|
    ensures |data| < s ==> |Encode(data, s, hash)| == h + Chunk(|data|, s)
  {
    var k := Chunk(|data|, s);
    FrameCut(data[..k], Encode(data[k..], s, hash), Encode(data, s, hash), h, hash);
  }

  lemma ReadBadFrame(sum: seq<Byte>, bad: seq<Byte>, after: seq<Byte>, s: nat, h: nat, hash: Hash)
    requires h > 0 && |sum| == h && |bad| <= s && hash(bad) != sum
    ensures ReadFrame(sum + bad + after, |bad|, s, h, hash).0 == Err(InvalidData)
  {
    var file := sum + bad + after;
    assert file[..h] == sum && file[h..] == bad + after && file[h..][..|bad|] == bad;
  }

  lemma ReadAllBad(sum: seq<Byte>, bad: seq<Byte>, after: seq<Byte>, m: nat, s: nat, h: nat, hash: Hash)
    requires s > 0 && h > 0 && |sum| == h && hash(bad) != sum && m > 0 && |bad| == Chunk(m, s)
    ensures ReadAll(sum + bad + after, m, s, h, hash) == Err(InvalidData)
  {
    ReadBadFrame(sum, bad, after, s, h, hash);
  }

  /**
   * Damage law: with one frame replaced by bytes that are not under their checksum, the read of
   * that frame is invalid data. Whole chunks before it still come back, and every longer read is
   * invalid data.
   */
  lemma DamageIsSeen(
    file: seq<Byte>, data: seq<Byte>, off: nat, sum: seq<Byte>, bad: seq<Byte>, n: nat, s: nat, h: nat, hash: Hash)
    requires s > 0 && Sized(hash, h) && BadChunk(data, off, sum, bad, s, h, hash)
    requires Damaged(file, data, off, sum, bad, s, h, hash)
    requires n == |data| || (n <= |data| && n % s == 0)
    ensures Physical(off, s, h) <= |file|
    ensures ReadFrame(file[Physical(off, s, h)..], |bad|, s, h, hash).0 == Err(InvalidData)
    ensures ReadAll(file, n, s, h, hash) == if n <= off then Ok(data[..n]) else Err(InvalidData)
  {
    var after := DamagedParts(file, data, off, sum, bad, s, h, hash);
    ReadBadFrame(sum, bad, after, s, h, hash);
    WholeIff(n, s);
    if n <= off {
      ReadBeforeDamage(data[..off], n, sum + bad + after, s, h, hash);
      assert data[..off][..n] == data[..n];
    } else {
      DamageReached(off, n, |data|, s, |bad|);
      ReadIntoDamage(data[..off], n, sum, bad, after, s, h, hash);
    }
  }

  lemma ReadIntoDamage(a: seq<Byte>, n: nat, sum: seq<Byte>, bad: seq<Byte>, after: seq<Byte>, s: nat, h: nat, hash: Hash)
    requires s > 0 && h > 0 && Sized(hash, h) && Whole(|a|, s)
    requires |sum| == h && hash(bad) != sum && |a| < n && |bad| == Chunk(n - |a|, s)
    ensures ReadAll(Encode(a, s, hash) + (sum + bad + after), n, s, h, hash) == Err(InvalidData)
  {
    ReadAllBad(sum, bad, after, n - |a|, s, h, hash);
    ReadAllPast(a, sum + bad + after, n, s, h, hash);
  }

  /** Past a chunk boundary, a read to another boundary takes the chunk that starts there. */
  lemma {:induction false} DamageReached(off: nat, n: nat, total: nat, s: nat, k: nat)
    requires s > 0 && Whole(off, s) && off < n && EndsWell(n, total, s) && k == Chunk(total - off, s)
    ensures k == Chunk(n - off, s)
    decreases off
  {
    if off > 0 {
      NextChunk(n, total, s, s);
      DamageReached(off - s, n - s, total - s, s, k);
    }
  }

  lemma ReadBeforeDamage(a: seq<Byte>, n: nat, more: seq<Byte>, s: nat, h: nat, hash: Hash)
    requires s > 0 && Sized(hash, h) && n <= |a| && Whole(n, s)
    ensures ReadAll(Encode(a, s, hash) + more, n, s, h, hash) == Ok(a[..n])
  {
    var b, c := a[..n], a[n..];
    assert a == b + c;
    EncodeConcat(b, c, s, hash);
    Regroup(Encode(b, s, hash), Encode(c, s, hash), more);
    ReadAllPast(b, Encode(c, s, hash) + more, n, s, h, hash);
    assert b + [] == b;
  }

  // ----- verifier -----

  /** The size the verifier expects of a file; only the streaming algorithm counts its checksums. */
  function FileSize(n: nat, s: nat, h: nat, streaming: bool): (size: nat)
    requires s > 0
  {
    if streaming then Physical(n, s, h) else n
  }

  predicate FrameSound(stream: seq<Byte>, k: nat, h: nat, hash: Hash) {
    h + k <= |stream| && hash(stream[h..][..k]) == stream[..h]
  }

  /** The next `left` bytes of the stream are sound frames. */
  predicate Frames(stream: seq<Byte>, left: nat, s: nat, h: nat, hash: Hash)
    requires s > 0
    decreases left
  {
    left == 0 ||
    (h <= left
     && var k := Chunk(left - h, s);
        FrameSound(stream, k, h, hash) && Frames(stream[h..][k..], left - h - k, s, h, hash))
  }

  /** What the writer leaves for the data; `trailing` adds the checksum of an empty chunk. */
  function FileOf(data: seq<Byte>, trailing: bool, s: nat, hash: Hash): (file: seq<Byte>)
    requires s > 0
  {
    Encode(data, s, hash) + if trailing then hash([]) else []
  }

  ghost predicate IsFileOf(file: seq<Byte>, data: seq<Byte>, trailing: bool, s: nat, hash: Hash)
    requires s > 0
  {
    file == FileOf(data, trailing, s, hash) && (trailing ==> Whole(|data|, s))
  }

  /** A written file, after whole chunks possibly followed by the checksum of an empty one. */
  ghost predicate Written(file: seq<Byte>, s: nat, hash: Hash)
    requires s > 0
  {
    exists data, trailing :: IsFileOf(file, data, trailing, s, hash)
  }

  /** A file that the writer leaves for n bytes. */
  ghost predicate Holds(file: seq<Byte>, n: nat, s: nat, hash: Hash)
    requires s > 0
  {
    exists data :: |data| == n && file == Encode(data, s, hash)
  }

  /** A file is its first frame and the file of the rest. */
  lemma FileOfStep(data: seq<Byte>, trailing: bool, s: nat, hash: Hash)
    requires s > 0 && data != []
    ensures FileOf(data, trailing, s, hash)
         == Frame(data[..Chunk(|data|, s)], hash) + FileOf(data[Chunk(|data|, s)..], trailing, s, hash)
  {
    var k := Chunk(|data|, s);
    Regroup(Frame(data[..k], hash), Encode(data[k..], s, hash), if trailing then hash([]) else []);
  }

  lemma FrameOnto(file: seq<Byte>, chunk: seq<Byte>, rest: seq<Byte>, s: nat, h: nat, hash: Hash)
    requires s > 0 && Sized(hash, h) && |chunk| <= s && (|chunk| == s || rest == [])
    requires chunk != [] || (h > 0 && rest == [])
    requires file == Frame(chunk, hash) + rest && Frames(rest, |rest|, s, h, hash)
    ensures Frames(file, |file|, s, h, hash)
  {
    FrameCut(chunk, rest, file, h, hash);
    assert Chunk(|chunk| + |rest|, s) == |chunk|;
  }

  lemma {:induction false} WrittenIsSound(file: seq<Byte>, data: seq<Byte>, trailing: bool, s: nat, h: nat, hash: Hash)
    requires s > 0 && Sized(hash, h) && IsFileOf(file, data, trailing, s, hash)
    ensures Frames(file, |file|, s, h, hash)
    decreases |data|
  {
    if data == [] {
      if trailing && h > 0 {
        assert Frame([], hash) + [] == file;
        FrameOnto(file, [], [], s, h, hash);
      }
    } else {
      var k := Chunk(|data|, s);
      FileOfStep(data, trailing, s, hash);
      var rest := FileOf(data[k..], trailing, s, hash);
      WrittenIsSound(rest, data[k..], trailing, s, h, hash);
      FrameOnto(file, data[..k], rest, s, h, hash);
    }
  }

  lemma {:induction false} SoundIsWritten(file: seq<Byte>, s: nat, h: nat, hash: Hash)
    returns (data: seq<Byte>, trailing: bool)
    requires s > 0 && Sized(hash, h) && Frames(file, |file|, s, h, hash)
    ensures IsFileOf(file, data, trailing, s, hash)
    decreases |file|
  {
    if file == [] {
      return [], false;
    }
    var chunk, tail := FirstSound(file, s, h, hash);
    if chunk == [] {
      return [], true;
    }
    var rest, more := SoundIsWritten(tail, s, h, hash);
    data, trailing := OneMoreChunk(file, chunk, tail, rest, more, s, hash);
  }

  lemma FirstSound(file: seq<Byte>, s: nat, h: nat, hash: Hash) returns (chunk: seq<Byte>, tail: seq<Byte>)
    requires s > 0 && file != [] && Frames(file, |file|, s, h, hash)
    ensures file == Frame(chunk, hash) + tail && Frames(tail, |tail|, s, h, hash)
    ensures |chunk| == s || (|chunk| < s && tail == [])
  {
    var k := Chunk(|file| - h, s);
    chunk, tail := file[h..][..k], file[h..][k..];
  }

  lemma OneMoreChunk(file: seq<Byte>, chunk: seq<Byte>, tail: seq<Byte>, rest: seq<Byte>, more: bool, s: nat, hash: Hash)
    returns (data: seq<Byte>, trailing: bool)
    requires 0 < |chunk| <= s && (|chunk| == s || tail == [])
    requires file == Frame(chunk, hash) + tail && IsFileOf(tail, rest, more, s, hash)
    ensures IsFileOf(file, data, trailing, s, hash)
  {
    if tail == [] {
      data, trailing := chunk, false;
      EncodeOne(chunk, s, hash);
    } else {
      data, trailing := chunk + rest, more;
      assert data[..s] == chunk && data[s..] == rest;
      FileOfStep(data, trailing, s, hash);
    }
  }

  /** Sound frames are exactly what the writer leaves, with or without a trailing checksum. */
  lemma FramesIff(file: seq<Byte>, s: nat, h: nat, hash: Hash)
    requires s > 0 && Sized(hash, h)
    ensures Frames(file, |file|, s, h, hash) <==> Written(file, s, hash)
  {
    if Frames(file, |file|, s, h, hash) {
      var data, trailing := SoundIsWritten(file, s, h, hash);
    }
    if Written(file, s, hash) {
      var data, trailing :| IsFileOf(file, data, trailing, s, hash);
      WrittenIsSound(file, data, trailing, s, h, hash);
    }
  }

  /** No file of a written size ends in a checksum of nothing. */
  lemma NoTrailing(m: nat, n: nat, s: nat, h: nat)
    requires s > 0 && h > 0 && m % s == 0
    ensures Physical(m, s, h) + h != Physical(n, s, h)
  {
    FramePosition(m, s, h);
    FramePosition(n, s, h);
    var q := m / s;
    assert Physical(m, s, h) == (s + h) * q;
    DivModUnique(Physical(m, s, h) + h, s + h, q, h);
  }

  lemma SizeTellsLength(m: nat, n: nat, s: nat, h: nat)
    requires s > 0 && Physical(m, s, h) == Physical(n, s, h)
    ensures m == n
  {
    if m < n {
      PhysicalIncreasing(m, n, s, h);
    } else if n < m {
      PhysicalIncreasing(n, m, s, h);
    }
  }

  /** Of the size of a file for n bytes, the verifier accepts just those. */
  lemma WrittenOfSize(file: seq<Byte>, n: nat, s: nat, h: nat, hash: Hash)
    requires s > 0 && Sized(hash, h) && |file| == Physical(n, s, h)
    ensures Written(file, s, hash) <==> Holds(file, n, s, hash)
  {
    if Written(file, s, hash) {
      var data, trailing :| IsFileOf(file, data, trailing, s, hash);
      EncodedLength(data, s, h, hash);
      WholeIff(|data|, s);
      if trailing && h > 0 {
        NoTrailing(|data|, n, s, h);
      }
      SizeTellsLength(|data|, n, s, h);
    }
    if Holds(file, n, s, hash) {
      var data :| |data| == n && file == Encode(data, s, hash);
      assert IsFileOf(file, data, false, s, hash);
    }
  }

  /** Sound frames after whole chunks are sound frames. */
  lemma {:induction false} FramesPast(stream: seq<Byte>, a: seq<Byte>, more: seq<Byte>, s: nat, h: nat, hash: Hash)
    requires s > 0 && Sized(hash, h) && Whole(|a|, s) && stream == Encode(a, s, hash) + more
    ensures Frames(stream, |stream|, s, h, hash) <==> Frames(more, |more|, s, h, hash)
    decreases |a|
  {
    if a == [] {
      assert stream == more;
    } else {
      var next := Encode(a[s..], s, hash) + more;
      FirstOfMore(a, more, s, hash);
      FramesPast(next, a[s..], more, s, h, hash);
      FramesOn(stream, a[..s], next, s, h, hash);
    }
  }

  lemma FramesOn(stream: seq<Byte>, chunk: seq<Byte>, next: seq<Byte>, s: nat, h: nat, hash: Hash)
    requires s > 0 && |chunk| == s && |hash(chunk)| == h && stream == Frame(chunk, hash) + next
    ensures Frames(stream, |stream|, s, h, hash) <==> Frames(next, |next|, s, h, hash)
  {
    FrameCut(chunk, next, stream, h, hash);
  }

  /** The verifier refuses a file with one frame replaced by bytes that are not under their checksum. */
  lemma DamageIsRefused(file: seq<Byte>, data: seq<Byte>, off: nat, sum: seq<Byte>, bad: seq<Byte>, s: nat, h: nat, hash: Hash)
    requires s > 0 && Sized(hash, h) && BadChunk(data, off, sum, bad, s, h, hash)
    requires Damaged(file, data, off, sum, bad, s, h, hash)
    ensures |file| == Physical(|data|, s, h) && !Written(file, s, hash)
  {
    EncodedLength(data, s, h, hash);
    var after := DamagedParts(file, data, off, sum, bad, s, h, hash);
    BadFrameUnsound(sum, bad, after, s, h, hash);
    FramesPast(file, data[..off], sum + bad + after, s, h, hash);
    FramesIff(file, s, h, hash);
  }

  lemma BadFrameUnsound(sum: seq<Byte>, bad: seq<Byte>, after: seq<Byte>, s: nat, h: nat, hash: Hash)
    requires s > 0 && |sum| == h && 0 < |bad| <= s && (|bad| == s || after == []) && hash(bad) != sum
    ensures !Frames(sum + bad + after, |sum + bad + after|, s, h, hash)
  {
    var file := sum + bad + after;
    assert file[..h] == sum && file[h..] == bad + after && file[h..][..|bad|] == bad;
    assert Chunk(|file| - h, s) == |bad|;
  }

  /** The verifier's size rule fits the writer's files just for these algorithms and sizes. */
  lemma FileSizeFitsIff(n: nat, s: nat, h: nat, streaming: bool)
    requires s > 0
    ensures FileSize(n, s, h, streaming) == Physical(n, s, h) <==> streaming || h == 0 || n == 0
  {
    if n == 0 {
      PhysicalZero(s, h);
    } else {
      CeilDivStep(n, s);
      assert h > 0 ==> CeilDiv(n, s) * h > 0;
    }
  }

  /** One byte in shards of one byte under a checksum of 32: the file has 33 bytes, and the
      verifier expects one unless the algorithm is the streaming one. */
  lemma OneByteMisfit()
    ensures FileSize(1, 1, 32, false) == 1 && Physical(1, 1, 32) == 33 && FileSize(1, 1, 32, true) == 33
  {
    assert CeilDiv(1, 1) == 1;
  }

  lemma {:induction false} FramesPrefix(stream: seq<Byte>, left: nat, s: nat, h: nat, hash: Hash)
    requires s > 0
    ensures Frames(stream, left, s, h, hash) <==> left <= |stream| && Frames(stream[..left], left, s, h, hash)
    decreases left
  {
    if 0 < left && h <= left {
      var k := Chunk(left - h, s);
      if left <= |stream| {
        FramePrefix(stream, left, k, h, hash);
        FramesPrefix(stream[h..][k..], left - h - k, s, h, hash);
        FirstThenRest(stream, left, k, stream[h..][k..], s, h, hash);
        FirstThenRest(stream[..left], left, k, stream[h..][k..][..left - h - k], s, h, hash);
      } else if h + k <= |stream| {
        FramesPrefix(stream[h..][k..], left - h - k, s, h, hash);
      }
    }
  }

  lemma FirstThenRest(stream: seq<Byte>, left: nat, k: nat, rest: seq<Byte>, s: nat, h: nat, hash: Hash)
    requires s > 0 && 0 < left <= |stream| && h <= left && k == Chunk(left - h, s) && rest == stream[h..][k..]
    ensures Frames(stream, left, s, h, hash)
       <==> FrameSound(stream, k, h, hash) && Frames(rest, left - h - k, s, h, hash)
  {
  }

  lemma FramePrefix(stream: seq<Byte>, left: nat, k: nat, h: nat, hash: Hash)
    requires h + k <= left <= |stream|
    ensures FrameSound(stream[..left], k, h, hash) <==> FrameSound(stream, k, h, hash)
    ensures stream[..left][h..][k..] == stream[h..][k..][..left - h - k]
  {
    assert stream[..left][..h] == stream[..h];
    assert stream[..left][h..][..k] == stream[h..][..k];
  }

  /**
   * The verifier accepts exactly the streams that start with a written file of the size it
   * expects. Where that size fits the writer's files, this is the file of `partSize` bytes, and
   * the count of bytes left never goes below zero.
   */
  method Verify(stream: seq<Byte>, wantSize: nat, partSize: nat, s: nat, h: nat, hash: Hash, streaming: bool)
    returns (r: Result<(), Error>)
    requires s > 0 && Sized(hash, h)
    ensures r == Err(SizeMismatch) <==> wantSize != FileSize(partSize, s, h, streaming)
    ensures r.Ok? <==> wantSize == FileSize(partSize, s, h, streaming) && wantSize <= |stream|
                       && Written(stream[..wantSize], s, hash)
    ensures streaming || h == 0 || partSize == 0 ==> r != Err(Underflow)
    ensures streaming || h == 0 || partSize == 0 ==>
      (r.Ok? <==> wantSize == Physical(partSize, s, h) && wantSize <= |stream|
                  && Holds(stream[..wantSize], partSize, s, hash))
  {
    FileSizeFitsIff(partSize, s, h, streaming);
    if wantSize != FileSize(partSize, s, h, streaming) {
      return Err(SizeMismatch);
    }
    r := VerifyFrames(stream, wantSize, s, h, hash);
    WrittenSizeDivisible(partSize, s, h);
    FramesPrefix(stream, wantSize, s, h, hash);
    if wantSize <= |stream| {
      FramesIff(stream[..wantSize], s, h, hash);
      if wantSize == Physical(partSize, s, h) {
        WrittenOfSize(stream[..wantSize], partSize, s, h, hash);
      }
    }
  }

  /** One turn of the verifier's loop: the rest of the stream, the bytes left and the shard size,
      which shrinks to what is left of the last frame. */
  method VerifyFrame(unread: seq<Byte>, left: nat, s: nat, h: nat, hash: Hash)
    returns (r: Result<(), Error>, rest: seq<Byte>, now: nat, shard: nat)
    requires s > 0 && left > 0
    ensures r.Ok? <==> h <= left && FrameSound(unread, Chunk(left - h, s), h, hash)
    ensures r.Ok? ==> now < left && (shard == s || now == 0)
    ensures r.Ok? ==> Frames(unread, left, s, h, hash) == Frames(rest, now, s, h, hash)
    ensures r.Err? ==> !Frames(unread, left, s, h, hash)
    ensures r == Err(UnexpectedEof) <==> |unread| < h || (h <= left && |unread| < h + Chunk(left - h, s))
    ensures r == Err(Underflow) <==> left < h <= |unread|
    ensures r == Err(InvalidData) <==>
      (h <= left && h + Chunk(left - h, s) <= |unread| && !FrameSound(unread, Chunk(left - h, s), h, hash))
    ensures r.Ok? && Divisible(left, s, h) ==> Divisible(now, s, h)
    ensures r != Err(SizeMismatch) && (Divisible(left, s, h) ==> r != Err(Underflow))
  {
    rest, now, shard := unread, left, s;
    if h > |unread| {
      return Err(UnexpectedEof), rest, now, shard;
    }
    if h > left {
      return Err(Underflow), rest, now, shard;
    }
    now := left - h;
    if now < shard {
      shard := now;
    }
    if h + shard > |unread| {
      return Err(UnexpectedEof), rest, now, shard;
    }
    if hash(unread[h..][..shard]) != unread[..h] {
      return Err(InvalidData), rest, now, shard;
    }
    rest, now := unread[h..][shard..], now - shard;
    r := Ok(());
  }

  method VerifyFrames(stream: seq<Byte>, wantSize: nat, s: nat, h: nat, hash: Hash)
    returns (r: Result<(), Error>)
    requires s > 0
    ensures r != Err(SizeMismatch) && (r.Ok? <==> Frames(stream, wantSize, s, h, hash))
    ensures Divisible(wantSize, s, h) ==> r != Err(Underflow)
  {
    var left, shard, unread := wantSize, s, stream;
    while left > 0
      invariant shard == s || left == 0
      invariant Frames(stream, wantSize, s, h, hash) == Frames(unread, left, s, h, hash)
      invariant Divisible(wantSize, s, h) ==> Divisible(left, s, h)
      decreases left
    {
      r, unread, left, shard := VerifyFrame(unread, left, shard, h, hash);
      if r.Err? {
        return;
      }
    }
    return Ok(());
  }

  /** The bytes can be cut into frames, with no part of a checksum left over. */
  predicate Divisible(left: nat, s: nat, h: nat)
    requires s > 0
    decreases left
  {
    left == 0 || (h <= left && Divisible(left - h - Chunk(left - h, s), s, h))
  }

  lemma {:induction false} WrittenSizeDivisible(n: nat, s: nat, h: nat)
    requires s > 0
    ensures Divisible(Physical(n, s, h), s, h)
  {
    if n == 0 {
      PhysicalZero(s, h);
    } else {
      PhysicalStep(n, s, h);
      WrittenSizeDivisible(n - Chunk(n, s), s, h);
      PhysicalZero(s, h);
    }
  }
}
