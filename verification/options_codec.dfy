/**
 The checkpoint's encoding of the command-line options record: its
 persisted fields one after another in a fixed order, strings with the
 string codec and every other field as the raw bytes of its value. The
 `states` field is not persisted.
 */
module OptionsCodec {
  import opened Results
  import opened Arith
  import opened ByteStream
  import opened StringCodec

  /** The `std::string` fields. */
  datatype TextField =
    | MsaFilename | TreeFilename | Prefix | ModelFilename | FreqsFilename
    | PartitionFilename | ModelString

  /** The two enumerations. */
  datatype EnumField = DataType | RateCategoryTypes

  /** The boolean flags. */
  datatype FlagField = Silent | Exhaustive | Echo | InvariantSites | EarlyStop

  /** The counts, seeds and doubles, each as wide as a `size_t`. */
  datatype WordField =
    | RateCats | Seed | MinRoots | Threads | RootRatio | AbsTolerance | Factor
    | BrTolerance | BfgsTol | States

  /** A field of `cli_options_t`, grouped by how it is stored. */
  datatype Field = Text(TextField) | Enum(EnumField) | Flag(FlagField) | Word(WordField)

  /** The number of states, the one field the checkpoint leaves out. */
  const StatesField: Field := Word(States)

  /** The fields written and read, in file order. */
  const PersistedFields: seq<Field> := [
    Text(MsaFilename), Text(TreeFilename), Text(Prefix), Text(ModelFilename),
    Text(FreqsFilename), Text(PartitionFilename), Enum(DataType), Text(ModelString),
    Word(RateCats), Enum(RateCategoryTypes), Word(Seed), Word(MinRoots),
    Word(Threads), Word(RootRatio), Word(AbsTolerance), Word(Factor),
    Word(BrTolerance), Word(BfgsTol), Flag(Silent), Flag(Exhaustive), Flag(Echo),
    Flag(InvariantSites), Flag(EarlyStop)
  ]

  /** Every field but `states` is persisted. */
  lemma PersistedFieldsExact()
    ensures forall f :: f in PersistedFields <==> f != StatesField
  {
    StatesNotListed();
    OthersListed();
  }

  lemma StatesNotListed()
    ensures StatesField !in PersistedFields
  {
    assert forall i :: 0 <= i < |PersistedFields| ==> PersistedFields[i] != StatesField;
  }

  lemma OthersListed()
    ensures forall f :: f != StatesField ==> f in PersistedFields
  {
    forall f | f != StatesField
      ensures f in PersistedFields
    {
      match f
      case Text(t) =>
        match t {
        case MsaFilename => assert PersistedFields[0] == f;
        case TreeFilename => assert PersistedFields[1] == f;
        case Prefix => assert PersistedFields[2] == f;
        case ModelFilename => assert PersistedFields[3] == f;
        case FreqsFilename => assert PersistedFields[4] == f;
        case PartitionFilename => assert PersistedFields[5] == f;
        case ModelString => assert PersistedFields[7] == f;
        }
      case Enum(e) =>
        match e {
        case DataType => assert PersistedFields[6] == f;
        case RateCategoryTypes => assert PersistedFields[9] == f;
        }
      case Word(w) =>
        match w {
        case RateCats => assert PersistedFields[8] == f;
        case Seed => assert PersistedFields[10] == f;
        case MinRoots => assert PersistedFields[11] == f;
        case Threads => assert PersistedFields[12] == f;
        case RootRatio => assert PersistedFields[13] == f;
        case AbsTolerance => assert PersistedFields[14] == f;
        case Factor => assert PersistedFields[15] == f;
        case BrTolerance => assert PersistedFields[16] == f;
        case BfgsTol => assert PersistedFields[17] == f;
        }
      case Flag(g) =>
        match g {
        case Silent => assert PersistedFields[18] == f;
        case Exhaustive => assert PersistedFields[19] == f;
        case Echo => assert PersistedFields[20] == f;
        case InvariantSites => assert PersistedFields[21] == f;
        case EarlyStop => assert PersistedFields[22] == f;
        }
    }
  }

  predicate IsText(f: Field) {
    f.Text?
  }

  /**
   The in-memory width of a fixed-width field: 4 for the enumerations,
   1 for the flags and 8 for the rest.
   */
  function Width(f: Field): (w: nat)
    ensures w > 0
  {
    match f
    case Enum(_) => 4
    case Flag(_) => 1
    case _ => 8
  }

  /** An options record: the bytes of every field's value. */
  type CliOptions = map<Field, Bytes>

  ghost predicate WellFormed(o: CliOptions) {
    forall f: Field :: f in o && Fits(f, o[f])
  }

  /** `v` is a value field `f` can hold. */
  predicate Fits(f: Field, v: Bytes) {
    (IsText(f) ==> |v| < SizeTLimit) && (!IsText(f) ==> |v| == Width(f))
  }

  lemma UpdateWellFormed(o: CliOptions, f: Field, v: Bytes)
    requires WellFormed(o) && Fits(f, v)
    ensures WellFormed(o[f := v])
  {
    var o' := o[f := v];
    forall g: Field
      ensures g in o' && Fits(g, o'[g])
    {
      assert Fits(g, o[g]);
    }
  }

  function EncodeField(o: CliOptions, f: Field): (b: Bytes)
    requires WellFormed(o)
    ensures IsText(f) ==> b == Encoded(o[f])
    ensures !IsText(f) ==> b == o[f]
  {
    if IsText(f) then Encoded(o[f]) else o[f]
  }

  function EncodeFields(o: CliOptions, fs: seq<Field>): (b: Bytes)
    requires WellFormed(o)
  {
    if |fs| == 0 then [] else EncodeField(o, fs[0]) + EncodeFields(o, fs[1..])
  }

  /** The bytes an options record occupies in the checkpoint. */
  function EncodeOptions(o: CliOptions): (b: Bytes)
    requires WellFormed(o)
  {
    EncodeFields(o, PersistedFields)
  }

  /** Writes one field, returning the device and the field's byte count. */
  function WriteField(s: Sink, o: CliOptions, f: Field): (r: Result<(Sink, nat), WriteError>)
    requires WellFormed(o)
    ensures !IsText(f) ==> r.Ok?
    ensures r.Ok? ==> r.value.1 < SizeTLimit && s.data <= r.value.0.data
    ensures r.Err? ==> s.data <= r.error.written.data
    ensures |EncodeField(o, f)| <= s.room ==>
              r.Ok? && r.value.0 == Sink(s.data + EncodeField(o, f), s.room - |EncodeField(o, f)|)
  {
    if IsText(f) then
      WriteStringWithRoom(s, o[f]);
      WriteString(s, o[f])
    else Ok(WriteFixed(s, o[f]))
  }

  /**
   Writes the fields `fs` in order, adding their byte counts to `total`
   as `size_t` values; the first failed string write ends the record.
   */
  function WriteFields(s: Sink, o: CliOptions, fs: seq<Field>, total: nat): (r: Result<(Sink, nat), WriteError>)
    requires WellFormed(o) && total < SizeTLimit
    ensures r.Ok? ==> s.data <= r.value.0.data
    ensures r.Err? ==> s.data <= r.error.written.data
    decreases |fs|, s.room
  {
    if |fs| == 0 then Ok((s, total))
    else
      var (s1, n) :- WriteField(s, o, fs[0]);
      WriteFields(s1, o, fs[1..], AddSizeT(total, n))
  }

  /** With room for a field's encoding, its write counts exactly that many bytes. */
  lemma WriteFieldCount(s: Sink, o: CliOptions, f: Field)
    requires WellFormed(o) && |EncodeField(o, f)| <= s.room && |EncodeField(o, f)| < SizeTLimit
    ensures WriteField(s, o, f).value.1 == |EncodeField(o, f)|
  {
    if IsText(f) {
      WriteStringWithRoom(s, o[f]);
    }
  }

  function WriteOptions(s: Sink, o: CliOptions): (r: Result<(Sink, nat), WriteError>)
    requires WellFormed(o)
    ensures r.Ok? ==> s.data <= r.value.0.data
    ensures r.Err? ==> s.data <= r.error.written.data
  {
    WriteFields(s, o, PersistedFields, 0)
  }

  /** Reads one field into `dst`, returning the cursor, the record and the field's byte count. */
  function ReadField(src: Source, dst: CliOptions, f: Field): (r: (Source, CliOptions, nat))
    requires WellFormed(dst)
    ensures WellFormed(r.1)
    ensures r.0.data == src.data && src.pos <= r.0.pos
    ensures r.2 < SizeTLimit
  {
    if IsText(f) then
      var (src', str, n) := ReadString(src, dst[f]);
      StringBound(src, dst[f]);
      UpdateWellFormed(dst, f, str);
      (src', dst[f := str], n)
    else
      var (src', image, n) := ReadFixed(src, dst[f]);
      UpdateWellFormed(dst, f, image);
      (src', dst[f := image], n)
  }

  /** The count a field read returns is the number of bytes it consumed, whenever that fits a `size_t`. */
  lemma ReadFieldCount(src: Source, dst: CliOptions, f: Field)
    requires WellFormed(dst)
    ensures var r := ReadField(src, dst, f);
            r.0.pos - src.pos < SizeTLimit ==> r.2 == r.0.pos - src.pos
  {
    if IsText(f) {
      var x := ReadString(src, dst[f]);
      assert ReadField(src, dst, f).0 == x.0 && ReadField(src, dst, f).2 == x.2;
      ReadStringCount(src, dst[f]);
    } else {
      var x := ReadFixed(src, dst[f]);
      assert ReadField(src, dst, f).0 == x.0 && ReadField(src, dst, f).2 == x.2;
    }
  }

  /** A decoded string is never longer than a `size_t` can count. */
  lemma StringBound(src: Source, dst: Bytes)
    requires |dst| < SizeTLimit
    ensures |ReadString(src, dst).1| < SizeTLimit
  {
    var (src1, image, n) := ReadFixed(src, Zeros(SizeTWidth));
    var size := FromLittleEndian(image);
    SizeTLimitIsPower();
    if size != 0 {
      var (src2, got) := PosixRead(src1, size);
      assert |UpToNul(got)| <= |got| <= size;
    }
  }

  function ReadFields(src: Source, dst: CliOptions, fs: seq<Field>, total: nat): (r: (Source, CliOptions, nat))
    requires WellFormed(dst) && total < SizeTLimit
    ensures WellFormed(r.1)
    ensures r.0.data == src.data && src.pos <= r.0.pos
    decreases |fs|, src.pos
  {
    if |fs| == 0 then (src, dst, total)
    else
      var (src1, dst1, n) := ReadField(src, dst, fs[0]);
      ReadFields(src1, dst1, fs[1..], AddSizeT(total, n))
  }

  lemma ReadFieldsStep(src: Source, dst: CliOptions, fs: seq<Field>, total: nat)
    requires WellFormed(dst) && |fs| > 0 && total < SizeTLimit
    ensures var r := ReadField(src, dst, fs[0]);
            ReadFields(src, dst, fs, total) == ReadFields(r.0, r.1, fs[1..], AddSizeT(total, r.2))
  {
  }

  /** Reads the persisted fields into `dst`, field by field in write order. */
  function ReadOptions(src: Source, dst: CliOptions): (r: (Source, CliOptions, nat))
    requires WellFormed(dst)
    ensures WellFormed(r.1)
    ensures r.0.data == src.data
  {
    ReadFields(src, dst, PersistedFields, 0)
  }

  /**
   What a field holds after its encoding in `o` is read into `dst`: an
   empty string keeps the old value, any other string keeps its part
   before the first NUL, and a fixed-width field is restored exactly.
   */
  function Decoded(o: CliOptions, dst: CliOptions, f: Field): Bytes
    requires WellFormed(o) && WellFormed(dst)
  {
    if IsText(f) then (if |o[f]| == 0 then dst[f] else UpToNul(o[f])) else o[f]
  }

  /** `dst` with the fields `fs` decoded from `o`, one after another. */
  function DecodeInto(o: CliOptions, dst: CliOptions, fs: seq<Field>): (d: CliOptions)
    requires WellFormed(o) && WellFormed(dst)
    ensures WellFormed(d)
    decreases |fs|
  {
    if |fs| == 0 then dst
    else DecodeInto(o, dst[fs[0] := Decoded(o, dst, fs[0])], fs[1..])
  }

  /**
   Decoding the fields `fs` gives each of them its `Decoded` value and
   leaves every other field alone.
   */
  lemma {:induction false} DecodeIntoValues(o: CliOptions, dst: CliOptions, fs: seq<Field>)
    requires WellFormed(o) && WellFormed(dst)
    ensures forall f :: f in fs ==> DecodeInto(o, dst, fs)[f] == Decoded(o, dst, f)
    ensures forall f :: f !in fs ==> DecodeInto(o, dst, fs)[f] == dst[f]
    decreases |fs|
  {
    if |fs| > 0 {
      var f := fs[0];
      var dst1 := dst[f := Decoded(o, dst, f)];
      DecodeIntoValues(o, dst1, fs[1..]);
      forall g | g in fs
        ensures DecodeInto(o, dst, fs)[g] == Decoded(o, dst, g)
      {
        if g != f {
          assert g in fs[1..];
        }
      }
    }
  }

  lemma ReadWrittenField(data: Bytes, k: nat, o: CliOptions, f: Field, dst: CliOptions)
    requires WellFormed(o) && WellFormed(dst) && At(data, k, EncodeField(o, f))
    ensures var r := ReadField(Source(data, k), dst, f);
            r.0 == Source(data, k + |EncodeField(o, f)|) && r.1 == dst[f := Decoded(o, dst, f)]
  {
    if IsText(f) {
      ReadWrittenString(data, k, o[f], dst[f]);
    } else {
      ReadFixedExact(data, k, o[f], dst[f]);
    }
  }

  /**
   The fields `fs` of `o` are written at offset `k` of `data`, to be read
   into `dst` with the running total at `total`.
   */
  ghost predicate WrittenAt(data: Bytes, k: nat, o: CliOptions, fs: seq<Field>, dst: CliOptions, total: nat) {
    WellFormed(o) && WellFormed(dst) && total < SizeTLimit && At(data, k, EncodeFields(o, fs))
  }

  /**
   Reading back the fields `fs` written at the cursor consumes exactly
   their encoding and decodes each of them in turn, whatever the running
   total.
   */
  lemma {:induction false} ReadWrittenFields(data: Bytes, k: nat, o: CliOptions, fs: seq<Field>, dst: CliOptions, total: nat)
    requires WrittenAt(data, k, o, fs, dst, total)
    ensures var r := ReadFields(Source(data, k), dst, fs, total);
            r.0 == Source(data, k + |EncodeFields(o, fs)|) && r.1 == DecodeInto(o, dst, fs)
    decreases |fs|
  {
    if |fs| > 0 {
      var k1, dst1, t1 := ReadWrittenHead(data, k, o, fs, dst, total);
      ReadWrittenFields(data, k1, o, fs[1..], dst1, t1);
    } else {
      ReadNoFields(data, k, o, dst, total);
    }
  }

  /**
   The first of the fields written at the cursor reads back, leaving the
   rest written at the new cursor, to be read into the record with the
   first one decoded.
   */
  lemma ReadWrittenHead(data: Bytes, k: nat, o: CliOptions, fs: seq<Field>, dst: CliOptions, total: nat)
    returns (k1: nat, dst1: CliOptions, t1: nat)
    requires WrittenAt(data, k, o, fs, dst, total) && |fs| > 0
    ensures WrittenAt(data, k1, o, fs[1..], dst1, t1)
    ensures k1 + |EncodeFields(o, fs[1..])| == k + |EncodeFields(o, fs)|
    ensures DecodeInto(o, dst1, fs[1..]) == DecodeInto(o, dst, fs)
    ensures ReadFields(Source(data, k), dst, fs, total) == ReadFields(Source(data, k1), dst1, fs[1..], t1)
  {
    k1 := AtFields(data, k, o, fs);
    dst1, t1 := ReadHeadField(data, k, k1, o, fs, dst, total);
    DecodeIntoStep(o, dst, fs);
  }

  lemma DecodeIntoStep(o: CliOptions, dst: CliOptions, fs: seq<Field>)
    requires WellFormed(o) && WellFormed(dst) && |fs| > 0
    ensures DecodeInto(o, dst, fs) == DecodeInto(o, dst[fs[0] := Decoded(o, dst, fs[0])], fs[1..])
  {
  }

  lemma ReadNoFields(data: Bytes, k: nat, o: CliOptions, dst: CliOptions, total: nat)
    requires WellFormed(o) && WellFormed(dst) && total < SizeTLimit
    ensures ReadFields(Source(data, k), dst, [], total) == (Source(data, k + |EncodeFields(o, [])|), DecodeInto(o, dst, []), total)
  {
  }

  /** The encoding of the fields at the cursor is the first field's followed by the rest's. */
  lemma AtFields(data: Bytes, k: nat, o: CliOptions, fs: seq<Field>) returns (k1: nat)
    requires WellFormed(o) && |fs| > 0 && At(data, k, EncodeFields(o, fs))
    ensures k1 == k + |EncodeField(o, fs[0])|
    ensures At(data, k, EncodeField(o, fs[0])) && At(data, k1, EncodeFields(o, fs[1..]))
    ensures |EncodeFields(o, fs)| == |EncodeField(o, fs[0])| + |EncodeFields(o, fs[1..])|
  {
    var head, tail := EncodeField(o, fs[0]), EncodeFields(o, fs[1..]);
    assert EncodeFields(o, fs) == head + tail;
    AtSplit(data, k, head, tail);
    k1 := k + |head|;
  }

  /** The step of `ReadFields` over a first field written at the cursor. */
  lemma ReadHeadField(data: Bytes, k: nat, k1: nat, o: CliOptions, fs: seq<Field>, dst: CliOptions, total: nat)
    returns (dst1: CliOptions, t1: nat)
    requires WellFormed(o) && WellFormed(dst) && total < SizeTLimit && |fs| > 0
    requires At(data, k, EncodeField(o, fs[0])) && k1 == k + |EncodeField(o, fs[0])|
    ensures dst1 == dst[fs[0] := Decoded(o, dst, fs[0])]
    ensures WellFormed(dst1) && t1 < SizeTLimit
    ensures ReadFields(Source(data, k), dst, fs, total) == ReadFields(Source(data, k1), dst1, fs[1..], t1)
  {
    var r := ReadField(Source(data, k), dst, fs[0]);
    ReadWrittenField(data, k, o, fs[0], dst);
    dst1, t1 := dst[fs[0] := Decoded(o, dst, fs[0])], AddSizeT(total, r.2);
    assert r.0 == Source(data, k1) && r.1 == dst1;
    calc {
      ReadFields(Source(data, k), dst, fs, total);
    ==  { ReadFieldsStep(Source(data, k), dst, fs, total); }
      ReadFields(r.0, r.1, fs[1..], t1);
    ==
      ReadFields(Source(data, k1), dst1, fs[1..], t1);
    }
  }

  /**
   The total returned is the running total plus the bytes consumed, for
   as long as that sum fits in a `size_t`.
   */
  lemma {:induction false} ReadFieldsCount(src: Source, dst: CliOptions, fs: seq<Field>, total: nat)
    requires WellFormed(dst) && total < SizeTLimit
    ensures var r := ReadFields(src, dst, fs, total);
            total + (r.0.pos - src.pos) < SizeTLimit ==> r.2 == total + (r.0.pos - src.pos)
    decreases |fs|
  {
    if |fs| > 0 {
      var r := ReadField(src, dst, fs[0]);
      ReadFieldsStep(src, dst, fs, total);
      ReadFieldCount(src, dst, fs[0]);
      ReadFieldsCount(r.0, r.1, fs[1..], AddSizeT(total, r.2));
    }
  }

  /** Writing to a device with room for the whole encoding appends exactly that encoding. */
  lemma {:induction false} WriteFieldsWithRoom(s: Sink, o: CliOptions, fs: seq<Field>, total: nat)
    requires WellFormed(o) && |EncodeFields(o, fs)| <= s.room && total < SizeTLimit
    ensures var r := WriteFields(s, o, fs, total);
            r.Ok? && r.value.0 == Sink(s.data + EncodeFields(o, fs), s.room - |EncodeFields(o, fs)|)
    decreases |fs|
  {
    if |fs| > 0 {
      var s1, t1 := WriteFieldsHead(s, o, fs, total);
      WriteFieldsWithRoom(s1, o, fs[1..], t1);
      WriteFieldsAppend(s, o, fs, s1);
    } else {
      assert s.data + [] == s.data;
    }
  }

  /** Appending the first field's encoding and then the rest's appends the encoding of all of them. */
  lemma WriteFieldsAppend(s: Sink, o: CliOptions, fs: seq<Field>, s1: Sink)
    requires WellFormed(o) && |fs| > 0 && |EncodeFields(o, fs)| <= s.room
    requires |EncodeFields(o, fs)| == |EncodeField(o, fs[0])| + |EncodeFields(o, fs[1..])|
    requires s1 == Sink(s.data + EncodeField(o, fs[0]), s.room - |EncodeField(o, fs[0])|)
    ensures Sink(s1.data + EncodeFields(o, fs[1..]), s1.room - |EncodeFields(o, fs[1..])|)
            == Sink(s.data + EncodeFields(o, fs), s.room - |EncodeFields(o, fs)|)
  {
    var head, tail := EncodeField(o, fs[0]), EncodeFields(o, fs[1..]);
    assert EncodeFields(o, fs) == head + tail;
    AppendTwice(s.data, head, tail);
  }

  /**
   With room for all the fields, the write of the first one appends its
   encoding and the rest of the fields are written from there, with room
   for them, and the running total grows by the first field's length.
   */
  lemma WriteFieldsHead(s: Sink, o: CliOptions, fs: seq<Field>, total: nat) returns (s1: Sink, t1: nat)
    requires WellFormed(o) && total < SizeTLimit && |fs| > 0 && |EncodeFields(o, fs)| <= s.room
    ensures |EncodeFields(o, fs)| == |EncodeField(o, fs[0])| + |EncodeFields(o, fs[1..])|
    ensures s1 == Sink(s.data + EncodeField(o, fs[0]), s.room - |EncodeField(o, fs[0])|)
    ensures t1 < SizeTLimit && |EncodeFields(o, fs[1..])| <= s1.room
    ensures total + |EncodeFields(o, fs)| < SizeTLimit ==> t1 + |EncodeFields(o, fs[1..])| == total + |EncodeFields(o, fs)|
    ensures WriteFields(s, o, fs, total) == WriteFields(s1, o, fs[1..], t1)
  {
    var w := WriteField(s, o, fs[0]);
    var head := EncodeField(o, fs[0]);
    s1 := Sink(s.data + head, s.room - |head|);
    assert |EncodeFields(o, fs)| == |head| + |EncodeFields(o, fs[1..])|;
    assert w.Ok? && w.value.0 == s1;
    t1 := AddSizeT(total, w.value.1);
    if total + |EncodeFields(o, fs)| < SizeTLimit {
      WriteFieldCount(s, o, fs[0]);
    }
    calc {
      WriteFields(s, o, fs, total);
    ==  { WriteFieldsStep(s, o, fs, total); }
      WriteFields(w.value.0, o, fs[1..], t1);
    ==
      WriteFields(s1, o, fs[1..], t1);
    }
  }

  /**
   With room for the whole encoding, the running total grows by the
   encoding's length, for as long as that fits a `size_t`.
   */
  lemma {:induction false} WriteFieldsCount(s: Sink, o: CliOptions, fs: seq<Field>, total: nat)
    requires WellFormed(o) && |EncodeFields(o, fs)| <= s.room && total < SizeTLimit
    ensures var r := WriteFields(s, o, fs, total);
            r.Ok? && (total + |EncodeFields(o, fs)| < SizeTLimit ==> r.value.1 == total + |EncodeFields(o, fs)|)
    decreases |fs|
  {
    if |fs| > 0 {
      var s1, t1 := WriteFieldsHead(s, o, fs, total);
      WriteFieldsCount(s1, o, fs[1..], t1);
    }
  }

  /**
   Whether it succeeds or fails, a field write leaves the device holding
   the longest prefix of the field's encoding it has room for; it fails
   only when the encoding does not fit.
   */
  lemma WriteFieldFills(s: Sink, o: CliOptions, f: Field)
    requires WellFormed(o)
    ensures Device(WriteField(s, o, f)) == Filled(s, EncodeField(o, f))
    ensures WriteField(s, o, f).Err? ==> s.room < |EncodeField(o, f)|
  {
    if IsText(f) {
      WriteStringFills(s, o[f]);
    } else {
      PosixWriteFills(s, o[f]);
    }
  }

  /**
   Whether the record is written in full or a string write fails part way,
   the device ends up holding the longest prefix of the fields' encoding
   it has room for.
   */
  lemma {:induction false} WriteFieldsFills(s: Sink, o: CliOptions, fs: seq<Field>, total: nat)
    requires WellFormed(o) && total < SizeTLimit
    ensures Device(WriteFields(s, o, fs, total)) == Filled(s, EncodeFields(o, fs))
    decreases |fs|
  {
    if |fs| == 0 {
      FilledEmpty(s);
    } else {
      var head, tail := EncodeField(o, fs[0]), EncodeFields(o, fs[1..]);
      assert EncodeFields(o, fs) == head + tail;
      WriteFieldFills(s, o, fs[0]);
      FilledConcat(s, head, tail);
      var w := WriteField(s, o, fs[0]);
      if w.Ok? {
        WriteFieldsStep(s, o, fs, total);
        WriteFieldsFills(w.value.0, o, fs[1..], AddSizeT(total, w.value.1));
      } else {
        FilledFull(Filled(s, head), tail);
      }
    }
  }

  /** A successful first field write hands the rest of the fields the new device and total. */
  lemma WriteFieldsStep(s: Sink, o: CliOptions, fs: seq<Field>, total: nat)
    requires WellFormed(o) && total < SizeTLimit && |fs| > 0 && WriteField(s, o, fs[0]).Ok?
    ensures var w := WriteField(s, o, fs[0]).value;
            WriteFields(s, o, fs, total) == WriteFields(w.0, o, fs[1..], AddSizeT(total, w.1))
  {
  }

  /** `dst` with every persisted field decoded from `o`. */
  function DecodeOptions(o: CliOptions, dst: CliOptions): (d: CliOptions)
    requires WellFormed(o) && WellFormed(dst)
    ensures WellFormed(d)
  {
    DecodeInto(o, dst, PersistedFields)
  }

  /**
   Decoding a record gives every persisted field its `Decoded` value,
   and `states` keeps the reader's value.
   */
  lemma DecodeOptionsValues(o: CliOptions, dst: CliOptions)
    requires WellFormed(o) && WellFormed(dst)
    ensures forall f :: f != StatesField ==> DecodeOptions(o, dst)[f] == Decoded(o, dst, f)
    ensures DecodeOptions(o, dst)[StatesField] == dst[StatesField]
  {
    DecodeIntoValues(o, dst, PersistedFields);
    PersistedFieldsExact();
    forall f | f != StatesField
      ensures DecodeOptions(o, dst)[f] == Decoded(o, dst, f)
    {
      assert f in PersistedFields;
    }
  }

  /**
   The options round trip: reading a record written at the cursor
   decodes it into `dst` and consumes exactly its encoding.
   */
  lemma ReadWrittenOptions(data: Bytes, k: nat, o: CliOptions, dst: CliOptions)
    requires WellFormed(o) && WellFormed(dst) && At(data, k, EncodeOptions(o))
    ensures var r := ReadOptions(Source(data, k), dst);
            r.0 == Source(data, k + |EncodeOptions(o)|) && r.1 == DecodeOptions(o, dst)
  {
    ReadWrittenFields(data, k, o, PersistedFields, dst, 0);
  }

  /** Reading the options back from the start of their own encoding decodes them. */
  lemma ReadEncodedOptions(o: CliOptions, dst: CliOptions)
    requires WellFormed(o) && WellFormed(dst)
    ensures ReadOptions(Source(EncodeOptions(o), 0), dst).1 == DecodeOptions(o, dst)
  {
    ReadWrittenOptions(EncodeOptions(o), 0, o, dst);
  }

  /** Whatever the file holds, the count an options read returns is the number of bytes it consumed, whenever that fits a `size_t`. */
  lemma ReadOptionsCount(src: Source, dst: CliOptions)
    requires WellFormed(dst)
    ensures var r := ReadOptions(src, dst);
            r.0.pos - src.pos < SizeTLimit ==> r.2 == r.0.pos - src.pos
  {
    ReadFieldsCount(src, dst, PersistedFields, 0);
  }

  /** Writing the record to a device with room for it appends exactly its encoding. */
  lemma WriteOptionsWithRoom(s: Sink, o: CliOptions)
    requires WellFormed(o) && |EncodeOptions(o)| <= s.room && |EncodeOptions(o)| < SizeTLimit
    ensures WriteOptions(s, o)
            == Ok((Sink(s.data + EncodeOptions(o), s.room - |EncodeOptions(o)|), |EncodeOptions(o)|))
  {
    WriteFieldsWithRoom(s, o, PersistedFields, 0);
    WriteFieldsCount(s, o, PersistedFields, 0);
  }

  /**
   Whether it succeeds or fails, writing the record leaves the device
   holding the longest prefix of its encoding that fits, and it fails only
   when the encoding does not fit.
   */
  lemma WriteOptionsFills(s: Sink, o: CliOptions)
    requires WellFormed(o)
    ensures Device(WriteOptions(s, o)) == Filled(s, EncodeOptions(o))
    ensures WriteOptions(s, o).Err? ==> s.room < |EncodeOptions(o)|
  {
    WriteFieldsFills(s, o, PersistedFields, 0);
    if WriteOptions(s, o).Err? && |EncodeOptions(o)| <= s.room {
      WriteFieldsWithRoom(s, o, PersistedFields, 0);
    }
  }

  /** The `states` field has no bearing on the encoding. */
  lemma StatesNotPersisted(o: CliOptions, v: Bytes)
    requires WellFormed(o) && |v| == Width(StatesField)
    ensures WellFormed(o[StatesField := v])
    ensures EncodeOptions(o[StatesField := v]) == EncodeOptions(o)
  {
    PersistedFieldsExact();
    EncodeFieldsIgnoresOthers(o, o[StatesField := v], PersistedFields);
  }

  lemma {:induction false} EncodeFieldsIgnoresOthers(o: CliOptions, o': CliOptions, fs: seq<Field>)
    requires WellFormed(o) && WellFormed(o')
    requires forall f :: f in fs ==> o[f] == o'[f]
    ensures EncodeFields(o, fs) == EncodeFields(o', fs)
    decreases |fs|
  {
    if |fs| > 0 {
      assert fs[0] in fs;
      assert forall f :: f in fs[1..] ==> f in fs;
      EncodeFieldsIgnoresOthers(o, o', fs[1..]);
    }
  }
}
