/**
 The checkpoint's encoding of a `std::string`: the string's size as a
 `size_t` image followed by its characters. Reading it back goes through
 a zero-filled C buffer, so the decoded string ends at the first NUL.
 */
module StringCodec {
  import opened Results
  import opened Arith
  import opened ByteStream

  /**
   `checkpoint_write_failure`: the size prefix could not be written in
   full. The bytes written before it stay in the file, so the error carries
   the device as the failed write left it.
   */
  datatype WriteError = WriteFailure(written: Sink)

  /** The device a write leaves behind, whether it succeeded or failed. */
  function Device(r: Result<(Sink, nat), WriteError>): Sink {
    if r.Ok? then r.value.0 else r.error.written
  }

  /** The bytes a string occupies in the checkpoint. */
  function Encoded(str: Bytes): (b: Bytes)
    requires |str| < SizeTLimit
    ensures |b| == SizeTWidth + |str|
    ensures b[SizeTWidth..] == str
  {
    SizeTImage(|str|) + str
  }

  /** The size prefix of an encoded string decodes to the string's length. */
  lemma EncodedLength(str: Bytes)
    requires |str| < SizeTLimit
    ensures Encoded(str)[..SizeTWidth] == SizeTImage(|str|)
    ensures FromLittleEndian(Encoded(str)[..SizeTWidth]) == |str|
  {
    assert Encoded(str)[..SizeTWidth] == SizeTImage(|str|);
    SizeTImageValue(|str|);
  }

  /**
   Writes the size prefix and then the characters. A short write of the
   prefix is an error; a short or failed write of the characters is not,
   and its result is added to the total as a `size_t`.
   */
  function WriteString(s: Sink, str: Bytes): (r: Result<(Sink, nat), WriteError>)
    requires |str| < SizeTLimit
    ensures r.Err? <==> s.room < SizeTWidth
    ensures r.Ok? ==> s.data <= r.value.0.data
    ensures r.Err? ==> r.error.written == Sink(s.data + Encoded(str)[..s.room], 0)
  {
    var (s1, res) := PosixWrite(s, SizeTImage(|str|));
    if res < SizeTWidth as int then
      assert Encoded(str)[..s.room] == SizeTImage(|str|)[..s.room];
      Err(WriteFailure(s1))
    else
      var (s2, res2) := PosixWrite(s1, str);
      Ok((s2, AddSizeT(ToSizeT(res), ToSizeT(res2))))
  }

  /**
   A successful string write appends the size prefix and as many of the
   characters as the device has room for.
   */
  lemma WriteStringAppends(s: Sink, str: Bytes)
    requires |str| < SizeTLimit && SizeTWidth <= s.room
    ensures var n := if |str| <= s.room - SizeTWidth then |str| else s.room - SizeTWidth;
            WriteString(s, str).value.0 == Sink(s.data + Encoded(str)[..SizeTWidth + n], s.room - SizeTWidth - n)
  {
    var s1 := WriteStringPrefix(s, str);
    var n := if |str| <= s1.room then |str| else s1.room;
    EncodedPrefix(str, n);
    AppendTwice(s.data, SizeTImage(|str|), str[..n]);
  }

  /** With room for the prefix, the characters are written to the device holding it. */
  lemma WriteStringPrefix(s: Sink, str: Bytes) returns (s1: Sink)
    requires |str| < SizeTLimit && SizeTWidth <= s.room
    ensures s1 == Sink(s.data + SizeTImage(|str|), s.room - SizeTWidth)
    ensures WriteString(s, str).Ok? && WriteString(s, str).value.0 == PosixWrite(s1, str).0
  {
    var prefix := SizeTImage(|str|);
    assert prefix[..SizeTWidth] == prefix;
    s1 := PosixWrite(s, prefix).0;
  }

  /**
   Whether the write succeeds or fails, the device ends up holding the
   longest prefix of the string's encoding it has room for.
   */
  lemma WriteStringFills(s: Sink, str: Bytes)
    requires |str| < SizeTLimit
    ensures Device(WriteString(s, str)) == Filled(s, Encoded(str))
  {
    if SizeTWidth <= s.room {
      WriteStringAppends(s, str);
    }
  }

  /** The size prefix followed by the first `n` characters starts the encoding. */
  lemma EncodedPrefix(str: Bytes, n: nat)
    requires |str| < SizeTLimit && n <= |str|
    ensures SizeTImage(|str|) + str[..n] == Encoded(str)[..SizeTWidth + n]
  {
  }

  /**
   When the device fills up exactly after the size prefix, the failed
   write of the characters returns -1, which as a `size_t` wraps the
   total round to one less than the prefix width.
   */
  lemma WriteStringFullAfterPrefix(s: Sink, str: Bytes)
    requires 0 < |str| < SizeTLimit && s.room == SizeTWidth
    ensures WriteString(s, str) == Ok((Sink(s.data + SizeTImage(|str|), 0), SizeTWidth - 1))
  {
    var (s1, res) := PosixWrite(s, SizeTImage(|str|));
    assert res == SizeTWidth;
    assert SizeTImage(|str|)[..SizeTWidth] == SizeTImage(|str|);
    assert PosixWrite(s1, str).1 == -1;
  }

  /** The bytes of `b` before its first NUL, or all of `b` when it has none. */
  function UpToNul(b: Bytes): (r: Bytes)
    ensures r <= b
    ensures forall i :: 0 <= i < |r| ==> r[i] != 0
    ensures |r| < |b| ==> b[|r|] == 0
  {
    if |b| == 0 || b[0] == 0 then [] else [b[0]] + UpToNul(b[1..])
  }

  predicate HasNul(b: Bytes) {
    exists i :: 0 <= i < |b| && b[i] == 0
  }

  /**
   Reads a size prefix into a zero `size_t` and, unless it is zero, that
   many characters (or what is left of the file), keeping those before
   the first NUL as the new value of `dst`. A zero size leaves `dst` as
   it was. Returns the cursor after the read, the string and the count
   of bytes consumed.
   */
  function ReadString(src: Source, dst: Bytes): (r: (Source, Bytes, nat))
    ensures r.0.data == src.data && src.pos <= r.0.pos
    ensures r.0.pos - src.pos <= |Remaining(src)|
    ensures r.1 == dst || forall i :: 0 <= i < |r.1| ==> r.1[i] != 0
  {
    var (src1, image, n) := ReadFixed(src, Zeros(SizeTWidth));
    var size := FromLittleEndian(image);
    if size == 0 then (src1, dst, n)
    else
      RemainingAdvance(src, n);
      SizeTLimitIsPower();
      var (src2, got) := PosixRead(src1, size);
      (src2, UpToNul(got), AddSizeT(n, |got|))
  }

  /** The count a string read returns is the number of bytes it consumed, as a `size_t`. */
  lemma ReadStringCount(src: Source, dst: Bytes)
    ensures var r := ReadString(src, dst);
            r.2 == WrapSizeT(r.0.pos - src.pos)
  {
    var (src1, image, n) := ReadFixed(src, Zeros(SizeTWidth));
    ReadStringSteps(src, dst, src1, image, n);
    var used := ReadString(src, dst).0.pos - src.pos;
    if FromLittleEndian(image) == 0 {
      assert used == n;
      WrapBelow(n);
    } else {
      var (src2, got) := PosixRead(src1, FromLittleEndian(image));
      assert used == n + |got|;
      AddSizeTWraps(n, |got|);
    }
  }

  /**
   A string written at the cursor reads back as its part before the first
   NUL (a zero length keeps `dst`), and exactly its encoding is consumed.
   */
  lemma ReadWrittenString(data: Bytes, k: nat, str: Bytes, dst: Bytes)
    requires |str| < SizeTLimit && At(data, k, Encoded(str))
    ensures var r := ReadString(Source(data, k), dst);
            r.0.pos == k + |Encoded(str)| &&
            r.1 == (if |str| == 0 then dst else UpToNul(str)) &&
            r.2 == AddSizeT(SizeTWidth, |str|)
  {
    var prefix := SizeTImage(|str|);
    SizeTImageValue(|str|);
    AtSplit(data, k, prefix, str);
    ReadFixedExact(data, k, prefix, Zeros(SizeTWidth));
    ReadStringSteps(Source(data, k), dst, Source(data, k + SizeTWidth), prefix, SizeTWidth);
    if |str| > 0 {
      ReadExact(data, k + SizeTWidth, str);
    }
  }

  /** `ReadString` in terms of its two reads. */
  lemma ReadStringSteps(src: Source, dst: Bytes, src1: Source, image: Bytes, n: nat)
    requires ReadFixed(src, Zeros(SizeTWidth)) == (src1, image, n)
    ensures n <= SizeTWidth
    ensures FromLittleEndian(image) == 0 ==> ReadString(src, dst) == (src1, dst, n)
    ensures FromLittleEndian(image) != 0 ==>
              var (src2, got) := PosixRead(src1, FromLittleEndian(image));
              n < SizeTLimit && |got| < SizeTLimit &&
              ReadString(src, dst) == (src2, UpToNul(got), AddSizeT(n, |got|))
  {
    SizeTLimitIsPower();
  }

  /** A string without NUL bytes and with at least one character reads back unchanged. */
  lemma ReadWrittenStringWithoutNul(data: Bytes, k: nat, str: Bytes, dst: Bytes)
    requires 0 < |str| < SizeTLimit && !HasNul(str) && At(data, k, Encoded(str))
    ensures ReadString(Source(data, k), dst).1 == str
  {
    ReadWrittenString(data, k, str, dst);
    UpToNulWithoutNul(str);
  }

  lemma {:induction false} UpToNulWithoutNul(b: Bytes)
    requires !HasNul(b)
    ensures UpToNul(b) == b
  {
    if |b| > 0 {
      assert b[0] != 0;
      assert forall i :: 0 <= i < |b| - 1 ==> b[1..][i] == b[i + 1];
      UpToNulWithoutNul(b[1..]);
    }
  }

  /** With an embedded NUL only the characters before it survive, so the string comes back shorter. */
  lemma ReadWrittenStringWithNul(data: Bytes, k: nat, str: Bytes, dst: Bytes, i: nat)
    requires |str| < SizeTLimit && i < |str| && str[i] == 0 && At(data, k, Encoded(str))
    ensures var r := ReadString(Source(data, k), dst).1;
            r <= str[..i] && |r| < |str|
  {
    ReadWrittenString(data, k, str, dst);
    UpToNulStopsAtNul(str, i);
  }

  lemma UpToNulStopsAtNul(b: Bytes, i: nat)
    requires i < |b| && b[i] == 0
    ensures UpToNul(b) <= b[..i]
  {
    var r := UpToNul(b);
    assert forall j :: 0 <= j < |r| ==> r[j] == b[j];
    assert |r| <= i;
  }

  /** Writing to a device with room for the whole encoding appends exactly that encoding. */
  lemma WriteStringWithRoom(s: Sink, str: Bytes)
    requires |str| < SizeTLimit
    ensures SizeTWidth + |str| <= s.room ==>
            WriteString(s, str) == Ok((Sink(s.data + Encoded(str), s.room - |Encoded(str)|), AddSizeT(SizeTWidth, |str|)))
  {
    if SizeTWidth + |str| <= s.room {
      WriteStringAppends(s, str);
      assert Encoded(str)[..SizeTWidth + |str|] == Encoded(str);
      var (s1, res) := PosixWrite(s, SizeTImage(|str|));
      assert res == SizeTWidth;
      assert PosixWrite(s1, str).1 == |str|;
    }
  }
}
