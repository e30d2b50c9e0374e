/**
 The byte-level view of a checkpoint file descriptor: a sink that
 `write(2)` appends to, a source with a cursor that `read(2)` consumes,
 and the in-memory images of fixed-width values such as `size_t`.
 */
module ByteStream {
  import opened Arith

  /** An octet, as `char` is on the targets the checkpoint is written on. */
  newtype Byte = b: int | 0 <= b < 256

  type Bytes = seq<Byte>

  /** `sizeof(size_t)` on the 64-bit targets the checkpoint is written on. */
  const SizeTWidth: nat := 8

  function Pow256(e: nat): (r: nat)
    ensures r >= 1
  {
    if e == 0 then 1 else 256 * Pow256(e - 1)
  }

  /** One more than the largest `size_t`. */
  const SizeTLimit: nat := 0x1_0000_0000_0000_0000

  lemma SizeTLimitIsPower()
    ensures SizeTLimit == Pow256(SizeTWidth)
  {
  }

  /**
   `static_cast<size_t>` of what `write(2)` or `read(2)` returned: a
   count is kept and the error result -1 becomes the largest `size_t`.
   */
  function ToSizeT(x: int): (r: nat)
    requires -1 <= x < SizeTLimit
    ensures r < SizeTLimit
  {
    if x < 0 then SizeTLimit - 1 else x
  }

  /** `a += b` on `size_t` values: addition modulo 2^64. */
  function AddSizeT(a: nat, b: nat): (r: nat)
    requires a < SizeTLimit && b < SizeTLimit
    ensures r < SizeTLimit
  {
    if a + b < SizeTLimit then a + b else a + b - SizeTLimit
  }

  /** A count reduced modulo 2^64, the way a `size_t` total holds it. */
  function WrapSizeT(x: int): (r: nat)
    ensures r < SizeTLimit
  {
    x % SizeTLimit
  }

  /** A count below 2^64 is its own `size_t` value. */
  lemma WrapBelow(x: nat)
    requires x < SizeTLimit
    ensures WrapSizeT(x) == x
  {
    DivModUnique(x, SizeTLimit, 0, x);
  }

  /** Adding two `size_t` values is adding the counts and wrapping. */
  lemma AddSizeTWraps(a: nat, b: nat)
    requires a < SizeTLimit && b < SizeTLimit
    ensures AddSizeT(a, b) == WrapSizeT(a + b)
  {
    if a + b >= SizeTLimit {
      DivModUnique(a + b, SizeTLimit, 1, a + b - SizeTLimit);
    } else {
      DivModUnique(a + b, SizeTLimit, 0, a + b);
    }
  }

  function Zeros(n: nat): (z: Bytes)
    ensures |z| == n
    ensures forall i :: 0 <= i < n ==> z[i] == 0
  {
    seq(n, _ => 0)
  }

  /** The `width`-byte little-endian image of `n` modulo 256^width. */
  function LittleEndian(n: nat, width: nat): (b: Bytes)
    ensures |b| == width
    decreases width
  {
    if width == 0 then [] else [(n % 256) as Byte] + LittleEndian(n / 256, width - 1)
  }

  /** The number whose little-endian image is `b`. */
  function FromLittleEndian(b: Bytes): (n: nat)
    ensures n < Pow256(|b|)
  {
    if |b| == 0 then 0
    else
      var rest := FromLittleEndian(b[1..]);
      DigitBelow(b[0] as int, rest, 256, Pow256(|b| - 1));
      assert rest * 256 == 256 * rest;
      b[0] as int + 256 * rest
  }

  lemma {:induction false} LittleEndianRoundTrip(n: nat, width: nat)
    requires n < Pow256(width)
    ensures FromLittleEndian(LittleEndian(n, width)) == n
  {
    if width > 0 {
      var b := LittleEndian(n, width);
      var q := n / 256;
      assert b[1..] == LittleEndian(q, width - 1);
      assert b[0] as int == n % 256;
      assert n < Pow256(width - 1) * 256;
      DivBelow(n, 256, Pow256(width - 1));
      LittleEndianRoundTrip(q, width - 1);
      assert FromLittleEndian(b) == n % 256 + 256 * q;
    }
  }

  /** The in-memory image of a `size_t` holding `n`. */
  function SizeTImage(n: nat): (b: Bytes)
    requires n < SizeTLimit
    ensures |b| == SizeTWidth
  {
    LittleEndian(n, SizeTWidth)
  }

  /** A `size_t` image decodes back to the number it holds. */
  lemma SizeTImageValue(n: nat)
    requires n < SizeTLimit
    ensures FromLittleEndian(SizeTImage(n)) == n
  {
    LittleEndianRoundTrip(n, SizeTWidth);
  }

  /**
   A file open for appending: the bytes written so far and the number of
   bytes the device still accepts.
   */
  datatype Sink = Sink(data: Bytes, room: nat)

  /**
   `write(2)` of `buf`: an empty write succeeds with 0, a full device
   fails with -1, and otherwise as many bytes as fit are appended.
   */
  function PosixWrite(s: Sink, buf: Bytes): (r: (Sink, int))
    ensures -1 <= r.1 <= |buf|
    ensures r.1 == -1 <==> |buf| > 0 && s.room == 0
    ensures r.1 == |buf| <==> |buf| <= s.room
    ensures var n := if r.1 < 0 then 0 else r.1;
            r.0.data == s.data + buf[..n] && r.0.room == s.room - n
  {
    if |buf| == 0 then (s, 0)
    else if s.room == 0 then (s, -1)
    else
      var n := if |buf| <= s.room then |buf| else s.room;
      (Sink(s.data + buf[..n], s.room - n), n)
  }

  /** The device after as much of `b` as it has room for is appended to it. */
  function Filled(s: Sink, b: Bytes): (r: Sink)
    ensures s.data <= r.data && |r.data| + r.room == |s.data| + s.room
  {
    var m := if |b| <= s.room then |b| else s.room;
    Sink(s.data + b[..m], s.room - m)
  }

  /** `write(2)` fills the device with the longest prefix of the buffer that fits. */
  lemma PosixWriteFills(s: Sink, buf: Bytes)
    ensures PosixWrite(s, buf).0 == Filled(s, buf)
  {
  }

  /** Filling with `a` and then with `b` is filling with `a + b`. */
  lemma FilledConcat(s: Sink, a: Bytes, b: Bytes)
    ensures Filled(Filled(s, a), b) == Filled(s, a + b)
  {
    if |a| <= s.room {
      var m := if |b| <= s.room - |a| then |b| else s.room - |a|;
      assert (a + b)[..|a| + m] == a + b[..m];
      AppendTwice(s.data, a, b[..m]);
    } else {
      assert (a + b)[..s.room] == a[..s.room];
      assert s.data + a[..s.room] + b[..0] == s.data + a[..s.room];
    }
  }

  /** Filling with nothing leaves the device as it was. */
  lemma FilledEmpty(s: Sink)
    ensures Filled(s, []) == s
  {
    assert s.data + [] == s.data;
  }

  /** A full device takes nothing more. */
  lemma FilledFull(s: Sink, b: Bytes)
    requires s.room == 0
    ensures Filled(s, b) == s
  {
    assert s.data + b[..0] == s.data;
  }

  /** Appending two pieces one after the other appends their concatenation. */
  lemma AppendTwice(a: Bytes, b: Bytes, c: Bytes)
    ensures a + b + c == a + (b + c)
  {
  }

  /** A file open for reading and the offset of its cursor. */
  datatype Source = Source(data: Bytes, pos: nat)

  function Remaining(src: Source): (rest: Bytes)
    ensures src.pos <= |src.data| ==> src.data == src.data[..src.pos] + rest
    ensures src.pos >= |src.data| ==> rest == []
  {
    if src.pos <= |src.data| then src.data[src.pos..] else []
  }

  /** Advancing the cursor by `k` drops the first `k` remaining bytes. */
  lemma RemainingAdvance(src: Source, k: nat)
    requires k <= |Remaining(src)|
    ensures Remaining(src.(pos := src.pos + k)) == Remaining(src)[k..]
  {
  }

  /** `read(2)` of up to `n` bytes: whatever is left before end of file, never more than `n`. */
  function PosixRead(src: Source, n: nat): (r: (Source, Bytes))
    ensures r.1 <= Remaining(src)
    ensures |r.1| == n || r.1 == Remaining(src)
    ensures |r.1| <= n
    ensures r.0 == src.(pos := src.pos + |r.1|)
  {
    var rest := Remaining(src);
    var got := if n <= |rest| then rest[..n] else rest;
    (src.(pos := src.pos + |got|), got)
  }

  /**
   Reading a fixed-width value into an object whose image is `image`:
   the bytes read overwrite the front of the image and the rest keep
   their old value. The count of bytes read is returned with it.
   */
  function ReadFixed(src: Source, image: Bytes): (r: (Source, Bytes, nat))
    ensures |r.1| == |image|
    ensures r.2 <= |image| && r.0.pos == src.pos + r.2
    ensures r.1[r.2..] == image[r.2..]
    ensures r.1[..r.2] <= Remaining(src)
    ensures r.2 == |image| || r.1[..r.2] == Remaining(src)
  {
    var (src', got) := PosixRead(src, |image|);
    (src', got + image[|got|..], |got|)
  }

  /** Writing a fixed-width value: one `write(2)` of its image, the result cast to `size_t`. */
  function WriteFixed(s: Sink, image: Bytes): (r: (Sink, nat))
    requires |image| < SizeTLimit
    ensures |image| <= s.room ==> r == (Sink(s.data + image, s.room - |image|), |image|)
    ensures |image| > 0 && s.room == 0 ==> r == (s, SizeTLimit - 1)
  {
    assert image[..|image|] == image;
    var (s', res) := PosixWrite(s, image);
    (s', ToSizeT(res))
  }

  /** `b` occurs in `data` at offset `k`. */
  predicate At(data: Bytes, k: nat, b: Bytes) {
    k + |b| <= |data| && forall i :: 0 <= i < |b| ==> data[k + i] == b[i]
  }

  lemma AtSplit(data: Bytes, k: nat, a: Bytes, b: Bytes)
    requires At(data, k, a + b)
    ensures At(data, k, a) && At(data, k + |a|, b)
  {
    forall i | 0 <= i < |a| ensures data[k + i] == a[i] {
      assert (a + b)[i] == a[i];
    }
    forall i | 0 <= i < |b| ensures data[k + |a| + i] == b[i] {
      assert (a + b)[|a| + i] == b[i];
    }
  }

  /** The bytes at the offset are a slice of `data`. */
  lemma AtSlice(data: Bytes, k: nat, b: Bytes)
    requires At(data, k, b)
    ensures data[k..k + |b|] == b
  {
  }

  /** Reading where `b` sits yields exactly `b`. */
  lemma ReadExact(data: Bytes, k: nat, b: Bytes)
    requires At(data, k, b)
    ensures PosixRead(Source(data, k), |b|) == (Source(data, k + |b|), b)
  {
    AtSlice(data, k, b);
    assert Remaining(Source(data, k))[..|b|] == b;
  }

  /** Reading a fixed-width image where it sits restores it whatever the old image was. */
  lemma ReadFixedExact(data: Bytes, k: nat, b: Bytes, image: Bytes)
    requires At(data, k, b) && |image| == |b|
    ensures ReadFixed(Source(data, k), image) == (Source(data, k + |b|), b, |b|)
  {
    ReadExact(data, k, b);
    assert image[|b|..] == [];
    assert b + [] == b;
  }
}
