/** The firmware image as `ota_begin` pulls it (src/lib.rs:59-94).

    The source is a pull-based stream: each read hands out between one byte
    and as many as fit, and an empty read marks the end of the stream. A
    stream that fails does so after delivering some prefix of its bytes, so
    it is modelled as the bytes it still holds plus the error it reports
    once they are exhausted.

    Whatever the sizes of the individual reads, the copy loop writes the
    image in fixed chunks: every chunk but the last fills a whole sector,
    and the last holds the remainder (empty when the image ends on a sector
    boundary). `Chunk`, `Progress` and `Joined` describe those chunks. */
module ImageStream {
  import opened OtaErrors
  import opened Flash
  import opened OtaDataStore

  /** A stream of image bytes; `failure` is the error it reports once
      `remaining` is exhausted, or None when it ends cleanly. */
  class ImageSource<E> {
    var remaining: seq<byte>
    const failure: Option<E>

    constructor (image: seq<byte>, failure: Option<E>)
      ensures remaining == image && this.failure == failure
    {
      remaining := image;
      this.failure := failure;
    }

    /** `Read::read` into `buf[from..]`: any number of bytes from one up to
        what fits, 0 at the end of a clean stream, the error at the end of a
        failing one. */
    method Read(buf: array<byte>, from: nat) returns (r: Result<nat, E>)
      requires from < buf.Length
      modifies this`remaining, buf
      ensures r.Err? <==> old(remaining) == [] && failure.Some?
      ensures r.Err? ==> r.error == failure.value && remaining == old(remaining) && buf[..] == old(buf[..])
      ensures r.Ok? ==>
                && r.value <= buf.Length - from && r.value <= |old(remaining)|
                && (r.value == 0 <==> old(remaining) == [])
                && buf[..from] == old(buf[..from])
                && buf[from..from + r.value] == old(remaining)[..r.value]
                && remaining == old(remaining)[r.value..]
    {
      if remaining == [] {
        if failure.Some? {
          return Err(failure.value);
        }
        return Ok(0);
      }
      var n :| 1 <= n <= buf.Length - from && n <= |remaining|;
      var i := 0;
      while i < n
        invariant 0 <= i <= n
        invariant remaining == old(remaining)
        invariant forall k :: 0 <= k < from ==> buf[k] == old(buf[k])
        invariant forall k :: from <= k < from + i ==> buf[k] == remaining[k - from]
      {
        buf[from + i] := remaining[i];
        i := i + 1;
      }
      assert buf[from..from + n] == old(remaining)[..n];
      remaining := remaining[n..];
      return Ok(n);
    }
  }

  /** How many chunks the copy loop writes for an image of `len` bytes. */
  function ChunkCount(len: nat): (n: nat)
    ensures n >= 1 && SECTOR_SIZE * (n - 1) <= len < SECTOR_SIZE * n
  {
    len / SECTOR_SIZE + 1
  }

  /** The running total after chunk j: the end of chunk j in the image. */
  function ChunkEnd(len: nat, j: nat): (e: nat)
    ensures e <= len
  {
    if SECTOR_SIZE * (j + 1) <= len then SECTOR_SIZE * (j + 1) else len
  }

  /** Chunk j of the image: the bytes from sector j's start to its end or
      the image's end. */
  function Chunk(image: seq<byte>, j: nat): (c: seq<byte>)
    requires j < ChunkCount(|image|)
    ensures |c| <= SECTOR_SIZE
    ensures SECTOR_SIZE * j + |c| == ChunkEnd(|image|, j)
  {
    image[SECTOR_SIZE * j..ChunkEnd(|image|, j)]
  }

  /** The values handed to the progress callback after the first w chunks. */
  function Progress(image: seq<byte>, w: nat): (p: seq<nat>)
    requires w <= ChunkCount(|image|)
    ensures |p| == w
  {
    if w == 0 then [] else Progress(image, w - 1) + [ChunkEnd(|image|, w - 1)]
  }

  /** The first w chunks, concatenated. */
  function Joined(image: seq<byte>, w: nat): seq<byte>
    requires w <= ChunkCount(|image|)
  {
    if w == 0 then [] else Joined(image, w - 1) + Chunk(image, w - 1)
  }

  /** Bytes covered by the first w chunks. */
  function Covered(len: nat, w: nat): nat
  {
    if w == 0 then 0 else ChunkEnd(len, w - 1)
  }

  /** Every chunk but the last is exactly one sector; the last is shorter. */
  lemma ChunkSizes(image: seq<byte>, j: nat)
    requires j < ChunkCount(|image|)
    ensures j < ChunkCount(|image|) - 1 ==> |Chunk(image, j)| == SECTOR_SIZE
    ensures j == ChunkCount(|image|) - 1 ==> |Chunk(image, j)| < SECTOR_SIZE
  {
  }

  /** Chunk j starts where the chunks before it end. */
  lemma ChunkStart(len: nat, j: nat)
    requires j < ChunkCount(len)
    ensures Covered(len, j) == SECTOR_SIZE * j
  {
  }

  /** The chunks written so far are the image's prefix of the same length;
      all of them together are the whole image. */
  lemma {:induction false} JoinedIsPrefix(image: seq<byte>, w: nat)
    requires w <= ChunkCount(|image|)
    ensures Covered(|image|, w) <= |image|
    ensures Joined(image, w) == image[..Covered(|image|, w)]
    ensures w == ChunkCount(|image|) ==> Joined(image, w) == image
    decreases w
  {
    if w > 0 {
      JoinedIsPrefix(image, w - 1);
      ChunkStart(|image|, w - 1);
      assert image[..Covered(|image|, w - 1)] + Chunk(image, w - 1) == image[..Covered(|image|, w)];
    }
  }

  /** Progress value i is the running total after chunk i. */
  lemma {:induction false} ProgressAt(image: seq<byte>, w: nat, i: nat)
    requires w <= ChunkCount(|image|) && i < w
    ensures Progress(image, w)[i] == ChunkEnd(|image|, i)
    decreases w
  {
    if i < w - 1 {
      ProgressAt(image, w - 1, i);
    }
  }

  /** The progress values never decrease, and after the last chunk the
      total is the image length. */
  lemma ProgressMonotone(image: seq<byte>, w: nat, i: nat, j: nat)
    requires w <= ChunkCount(|image|) && i <= j < w
    ensures Progress(image, w)[i] <= Progress(image, w)[j] <= |image|
    ensures w == ChunkCount(|image|) ==> Progress(image, w)[w - 1] == |image|
  {
    ProgressAt(image, w, i);
    ProgressAt(image, w, j);
    ProgressAt(image, w, w - 1);
  }

  /** An image that ends on a sector boundary gets a trailing empty chunk, so
      the callback sees the final total twice. */
  lemma ProgressRepeatsAtBoundary(image: seq<byte>)
    requires |image| > 0 && |image| % SECTOR_SIZE == 0
    ensures var n := ChunkCount(|image|);
            n >= 2 && |Chunk(image, n - 1)| == 0 &&
            Progress(image, n)[n - 2] == Progress(image, n)[n - 1] == |image|
  {
    var n := ChunkCount(|image|);
    ProgressAt(image, n, n - 2);
    ProgressAt(image, n, n - 1);
  }
}
