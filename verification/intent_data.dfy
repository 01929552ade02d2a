/**
 * IntentData: the payload block attached to every intent record.
 *
 * Wire layout (all ints big-endian): the flags word, the six field sizes in
 * the order action, data, category, type, clip data, extras, then the six
 * bodies in the same order, a body only for a positive size.
 *
 * `getSize` counts the fixed part as `32 * 7 = 224` bytes although only
 * `4 * 7 = 28` are written, and the encoder allocates `getSize()` bytes, so
 * every encoding ends in zero padding that the decoder does not consume.
 * The model keeps both numbers, as the code does.
 */
module IntentData {
  import opened Wrappers
  import opened ByteOrder
  import opened Fields

  datatype Payload = Payload(
    flags: Int32,
    action: Field,
    data: Field,
    category: Field,
    mimeType: Field,
    clipData: Field,
    extras: Field)

  /** The bytes of fixed part that the encoder writes and the decoder reads: seven ints. */
  const FIXED_BYTES: nat := 4 * 7
  /** The fixed part as `getSize` counts it. */
  const DECLARED_FIXED_BYTES: nat := 32 * 7
  /** The zero bytes every well-formed encoding ends in. */
  const PADDING: nat := DECLARED_FIXED_BYTES - FIXED_BYTES

  /** The six length-prefixed fields in wire order. */
  function FieldList(d: Payload): (fs: seq<Field>)
    ensures |fs| == 6
  {
    [d.action, d.data, d.category, d.mimeType, d.clipData, d.extras]
  }

  function FromFields(flags: Int32, fs: seq<Field>): (d: Payload)
    requires |fs| == 6
    ensures d.flags == flags && FieldList(d) == fs
  {
    Payload(flags, fs[0], fs[1], fs[2], fs[3], fs[4], fs[5])
  }

  /** The default constructor: flags 0, every field null with size 0, so `getSize` counts only the fixed part. */
  function Blank(): (d: Payload)
    ensures d.flags == 0 && forall i :: 0 <= i < 6 ==> FieldList(d)[i].body.None?
    ensures WellFormed(d) && GetSize(d) == DECLARED_FIXED_BYTES
  {
    var d := Payload(0, Absent, Absent, Absent, Absent, Absent, Absent);
    assert Bodies(FieldList(d)) == [] by {
      assert FieldList(d)[1..][1..][1..][1..][1..][1..] == [];
    }
    d
  }

  /**
   * `getSize()`: the declared fixed part plus the six declared sizes, in Java
   * `int` arithmetic. For a payload the setters build it is 224 plus the
   * bytes of the six bodies.
   */
  function GetSize(d: Payload): (r: Int32)
    ensures WellFormed(d) ==> r == DECLARED_FIXED_BYTES + |Bodies(FieldList(d))|
  {
    assert WellFormed(d) ==> SizeSum(Sizes(FieldList(d))) == |Bodies(FieldList(d))| by {
      if WellFormed(d) {
        SizeSumOfNonNegative(FieldList(d));
      }
    }
    Wrap32(DECLARED_FIXED_BYTES + SizeSum(Sizes(FieldList(d))))
  }

  /** The seven ints of the fixed part: flags, then the six sizes. */
  function FixedPart(d: Payload): (b: Bytes)
    ensures |b| == FIXED_BYTES
  {
    Int32sBytes([d.flags] + Sizes(FieldList(d)))
  }

  lemma FixedPartSplit(d: Payload)
    ensures FixedPart(d) == Int32Bytes(d.flags) + Int32sBytes(Sizes(FieldList(d)))
  {
    assert ([d.flags] + Sizes(FieldList(d)))[1..] == Sizes(FieldList(d));
  }

  /**
   * `toByteBuffer()`: allocates `getSize()` bytes, puts the fixed part, then
   * each body with a positive size. It fails when the declared size is too
   * small for what is put, which only negative sizes (read from a wire) cause.
   */
  function Encode(d: Payload): (r: Result<Bytes>)
    ensures r.Success? <==> FIXED_BYTES + |Bodies(FieldList(d))| <= GetSize(d)
    ensures r.Failure? ==> r.error == IllegalArgument || r.error == BufferOverflow
    ensures r.Success? ==>
      var e := r.value;
      && |e| == GetSize(d)
      && At(e, 0, Int32Bytes(d.flags))
      && At(e, 4, Int32sBytes(Sizes(FieldList(d))))
      && At(e, FIXED_BYTES, Bodies(FieldList(d)))
      && forall i :: FIXED_BYTES + |Bodies(FieldList(d))| <= i < |e| ==> e[i] == 0
  {
    var written := FixedPart(d) + Bodies(FieldList(d));
    var r := Allocate(GetSize(d), written);
    if r.Success? then
      FixedPartSplit(d);
      AtConcat(r.value, 0, FixedPart(d), Bodies(FieldList(d)));
      AtConcat(r.value, 0, Int32Bytes(d.flags), Int32sBytes(Sizes(FieldList(d))));
      r
    else r
  }

  /** The six sizes the decoder reads from the fixed part at `pos`. */
  function DeclaredSizes(s: Bytes, pos: nat): (sizes: seq<Int32>)
    requires pos + FIXED_BYTES <= |s|
    ensures |sizes| == 6 && At(s, pos + 4, Int32sBytes(sizes))
  {
    Int32sAtBytes(s, pos + 4, 6);
    Int32sAt(s, pos + 4, 6)
  }

  /** Every field with a non-positive size has a null body, as the decoder leaves it. */
  predicate IsNormalPayload(d: Payload) {
    AllNormal(FieldList(d))
  }

  /** What decoding an encoding rebuilds: the fields with size 0 or less lose their body. */
  function Normalize(d: Payload): (n: Payload)
    ensures n.flags == d.flags && FieldList(n) == NormalizeAll(FieldList(d))
  {
    FromFields(d.flags, NormalizeAll(FieldList(d)))
  }

  /**
   * `IntentData(ByteBuffer)`: reads seven ints, then for each positive size
   * exactly that many bytes. It underflows when fewer than 28 bytes remain or
   * fewer bytes remain than the positive sizes demand; it consumes only the 28
   * fixed bytes and the bodies.
   */
  function Decode(s: Bytes, pos: nat): (r: Result<(Payload, nat)>)
    requires pos <= |s|
    ensures r.Failure? ==> r.error == BufferUnderflow
    ensures r.Success? <==>
      pos + FIXED_BYTES <= |s| && pos + FIXED_BYTES + PositiveTotal(DeclaredSizes(s, pos)) <= |s|
    ensures r.Success? ==>
      var (d, next) := r.value;
      && At(s, pos, FixedPart(d))
      && At(s, pos + FIXED_BYTES, Bodies(FieldList(d)))
      && IsNormalPayload(d)
      && next == pos + FIXED_BYTES + |Bodies(FieldList(d))|
  {
    var fixed :- ReadInt32s(s, pos, 7);
    assert fixed.0 == [fixed.0[0]] + fixed.0[1..];
    assert fixed.0[1..] == DeclaredSizes(s, pos) by {
      AtConcat(s, pos, Int32Bytes(fixed.0[0]), Int32sBytes(fixed.0[1..]));
      Int32sBytesInjective(fixed.0[1..], DeclaredSizes(s, pos));
    }
    var bodies :- ReadFields(s, fixed.1, fixed.0[1..]);
    Success((FromFields(fixed.0[0], bodies.0), bodies.1))
  }

  // ---------------------------------------------------------------------------
  // Setters: each stores its value, pairs the size with it, and leaves every
  // other field as it was.
  // ---------------------------------------------------------------------------

  function SetFlags(d: Payload, flags: Int32): (r: Payload)
    ensures r.flags == flags && r.(flags := d.flags) == d
  {
    d.(flags := flags)
  }

  function SetAction(d: Payload, action: Option<Bytes>): (r: Payload)
    requires action.Some? ==> |action.value| < TWO_31
    ensures r.action.body == action && (action.None? ==> r.action.size == 0)
    ensures r.(action := d.action) == d
  {
    d.(action := FromString(action))
  }

  function SetData(d: Payload, data: Option<Bytes>): (r: Payload)
    requires data.Some? ==> |data.value| < TWO_31
    ensures r.data.body == data && (data.None? ==> r.data.size == 0)
    ensures r.(data := d.data) == d
  {
    d.(data := FromString(data))
  }

  function SetCategory(d: Payload, category: Option<Bytes>): (r: Payload)
    requires category.Some? ==> |category.value| < TWO_31
    ensures r.category.body == category && (category.None? ==> r.category.size == 0)
    ensures r.(category := d.category) == d
  {
    d.(category := FromString(category))
  }

  function SetType(d: Payload, mimeType: Option<Bytes>): (r: Payload)
    requires mimeType.Some? ==> |mimeType.value| < TWO_31
    ensures r.mimeType.body == mimeType && (mimeType.None? ==> r.mimeType.size == 0)
    ensures r.(mimeType := d.mimeType) == d
  {
    d.(mimeType := FromString(mimeType))
  }

  /** `setClipData(byte[])`: a null array is dereferenced for its length and throws. */
  function SetClipData(d: Payload, clipData: Option<Bytes>): (r: Result<Payload>)
    requires clipData.Some? ==> |clipData.value| < TWO_31
    ensures r.Success? <==> clipData.Some?
    ensures r.Failure? ==> r.error == NullPointer
    ensures r.Success? ==> r.value.clipData.body == clipData && r.value.(clipData := d.clipData) == d
  {
    var f :- FromBlob(clipData);
    Success(d.(clipData := f))
  }

  /** `setExtras(byte[])`: a null array is dereferenced for its length and throws. */
  function SetExtras(d: Payload, extras: Option<Bytes>): (r: Result<Payload>)
    requires extras.Some? ==> |extras.value| < TWO_31
    ensures r.Success? <==> extras.Some?
    ensures r.Failure? ==> r.error == NullPointer
    ensures r.Success? ==> r.value.extras.body == extras && r.value.(extras := d.extras) == d
  {
    var f :- FromBlob(extras);
    Success(d.(extras := f))
  }

  // ---------------------------------------------------------------------------
  // Properties
  // ---------------------------------------------------------------------------

  /** A payload built by the setters: no negative size, and `getSize` does not overflow. */
  predicate WellFormed(d: Payload) {
    && (forall i :: 0 <= i < 6 ==> FieldList(d)[i].size >= 0)
    && DECLARED_FIXED_BYTES + |Bodies(FieldList(d))| < TWO_31
  }

  /** A well-formed payload always encodes, to exactly `getSize` bytes ending in 196 zeros. */
  lemma WellFormedEncoding(d: Payload)
    requires WellFormed(d)
    ensures Encode(d).Success?
    ensures |Encode(d).value| == FIXED_BYTES + |Bodies(FieldList(d))| + PADDING
    ensures forall i :: |Encode(d).value| - PADDING <= i < |Encode(d).value| ==> Encode(d).value[i] == 0
  {
    assert GetSize(d) == DECLARED_FIXED_BYTES + |Bodies(FieldList(d))|;
  }

  /** The payload the setters leave after setting the flags and all six fields, in the order of the parsing test. */
  function SetAll(d: Payload, flags: Int32, action: Bytes, data: Bytes, category: Bytes,
                  mimeType: Bytes, clipData: Bytes, extras: Bytes): (r: Payload)
    requires |action| < TWO_31 && |data| < TWO_31 && |category| < TWO_31
    requires |mimeType| < TWO_31 && |clipData| < TWO_31 && |extras| < TWO_31
    ensures r.flags == flags
  {
    var strings := SetType(SetCategory(SetData(SetAction(SetFlags(d, flags), Some(action)), Some(data)), Some(category)), Some(mimeType));
    SetExtras(SetClipData(strings, Some(clipData)).value, Some(extras)).value
  }

  /**
   * After the six field setters, `getSize()` is 224 plus the lengths set, in
   * Java `int` arithmetic, whatever the payload held before.
   */
  lemma SizeAfterSetters(d: Payload, flags: Int32, action: Bytes, data: Bytes, category: Bytes,
                         mimeType: Bytes, clipData: Bytes, extras: Bytes)
    requires |action| < TWO_31 && |data| < TWO_31 && |category| < TWO_31
    requires |mimeType| < TWO_31 && |clipData| < TWO_31 && |extras| < TWO_31
    ensures GetSize(SetAll(d, flags, action, data, category, mimeType, clipData, extras))
      == Wrap32(DECLARED_FIXED_BYTES + |action| + |data| + |category| + |mimeType| + |clipData| + |extras|)
  {
    GetSizeFormula(SetAll(d, flags, action, data, category, mimeType, clipData, extras));
  }

  /** `IntentDataTest.testGetSize`: strings of 35, 23, 35 and 10 characters and two 100-byte arrays give 527. */
  lemma TestSize(d: Payload, action: Bytes, data: Bytes, category: Bytes,
                 mimeType: Bytes, clipData: Bytes, extras: Bytes)
    requires |action| == 35 && |data| == 23 && |category| == 35
    requires |mimeType| == 10 && |clipData| == 100 && |extras| == 100
    ensures GetSize(SetAll(d, 0, action, data, category, mimeType, clipData, extras)) == 527
  {
    SizeAfterSetters(d, 0, action, data, category, mimeType, clipData, extras);
  }

  /** The blank payload encodes to 224 zero bytes. */
  lemma BlankEncodesToZeros()
    ensures Encode(Blank()) == Success(Zeros(DECLARED_FIXED_BYTES))
  {
    var b := Blank();
    var fs := FieldList(b);
    var e := Encode(b).value;
    assert FixedPart(b) == Int32sBytes(seq(7, _ => 0)) by {
      assert Sizes(fs) == [0, 0, 0, 0, 0, 0];
      assert [b.flags] + Sizes(fs) == seq(7, _ => 0);
    }
    forall i | 0 <= i < |e|
      ensures e[i] == 0
    {
      if i < FIXED_BYTES {
        ZeroInts(7, i);
      }
    }
    assert e == Zeros(DECLARED_FIXED_BYTES);
  }

  /** Reading back the fixed part and bodies of a payload written at `pos`. */
  lemma DecodeOf(d: Payload, s: Bytes, pos: nat)
    requires At(s, pos, FixedPart(d)) && At(s, pos + FIXED_BYTES, Bodies(FieldList(d)))
    ensures Decode(s, pos) == Success((Normalize(d), pos + FIXED_BYTES + |Bodies(FieldList(d))|))
  {
    DeclaredSizesOf(d, s, pos);
    var r := Decode(s, pos);
    assert r.Success?;
    var (e, next) := r.value;
    SameLayout(d, e, s, pos);
    assert next == pos + FIXED_BYTES + |Bodies(FieldList(d))|;
    assert r == Success((Normalize(d), next));
  }

  /** The sizes declared at `pos` are those of the payload whose fixed part is written there. */
  lemma DeclaredSizesOf(d: Payload, s: Bytes, pos: nat)
    requires At(s, pos, FixedPart(d)) && At(s, pos + FIXED_BYTES, Bodies(FieldList(d)))
    ensures pos + FIXED_BYTES <= |s| && DeclaredSizes(s, pos) == Sizes(FieldList(d))
    ensures pos + FIXED_BYTES + PositiveTotal(Sizes(FieldList(d))) <= |s|
  {
    FixedPartSplit(d);
    AtConcat(s, pos, Int32Bytes(d.flags), Int32sBytes(Sizes(FieldList(d))));
    var sizes := DeclaredSizes(s, pos);
    AtUnique(s, pos + 4, Int32sBytes(sizes), Int32sBytes(Sizes(FieldList(d))));
    Int32sBytesInjective(sizes, Sizes(FieldList(d)));
    BodiesLength(FieldList(d));
  }

  /**
   * Two payloads laid out at the same position, the second normal, agree up
   * to normalization: the fixed part fixes the flags and sizes, and then the
   * bodies are fixed too.
   */
  lemma SameLayout(d: Payload, e: Payload, s: Bytes, pos: nat)
    requires At(s, pos, FixedPart(d)) && At(s, pos + FIXED_BYTES, Bodies(FieldList(d)))
    requires At(s, pos, FixedPart(e)) && At(s, pos + FIXED_BYTES, Bodies(FieldList(e)))
    requires IsNormalPayload(e)
    ensures e == Normalize(d) && |Bodies(FieldList(e))| == |Bodies(FieldList(d))|
  {
    AtUnique(s, pos, FixedPart(e), FixedPart(d));
    Int32sBytesInjective([e.flags] + Sizes(FieldList(e)), [d.flags] + Sizes(FieldList(d)));
    assert ([e.flags] + Sizes(FieldList(e)))[1..] == Sizes(FieldList(e));
    assert ([d.flags] + Sizes(FieldList(d)))[1..] == Sizes(FieldList(d));
    BodiesLength(FieldList(e));
    BodiesLength(FieldList(d));
    AtUnique(s, pos + FIXED_BYTES, Bodies(FieldList(e)), Bodies(FieldList(d)));
    FieldsDetermined(FieldList(e), FieldList(d));
    PayloadOfFields(e, Normalize(d));
  }

  /** A payload is its flags and its six fields. */
  lemma PayloadOfFields(d: Payload, e: Payload)
    requires d.flags == e.flags && FieldList(d) == FieldList(e)
    ensures d == e
  {
    assert FieldList(d)[0] == FieldList(e)[0];
    assert FieldList(d)[5] == FieldList(e)[5];
  }

  /** Where an encoding sits in a buffer, its fixed part and its bodies sit. */
  lemma EncodingAt(d: Payload, s: Bytes, pos: nat)
    requires Encode(d).Success? && At(s, pos, Encode(d).value)
    ensures At(s, pos, FixedPart(d)) && At(s, pos + FIXED_BYTES, Bodies(FieldList(d)))
  {
    var e := Encode(d).value;
    FixedPartSplit(d);
    AtConcat(e, 0, Int32Bytes(d.flags), Int32sBytes(Sizes(FieldList(d))));
    AtWithin(s, pos, e, 0, FixedPart(d));
    AtWithin(s, pos, e, FIXED_BYTES, Bodies(FieldList(d)));
  }

  /** Dropping the bodies of fields with size 0 or less changes neither `getSize` nor the encoding. */
  lemma NormalizeKeepsEncoding(d: Payload)
    ensures GetSize(Normalize(d)) == GetSize(d)
    ensures Encode(Normalize(d)) == Encode(d)
  {
    BodiesOfNormalized(FieldList(d));
  }

  /**
   * Round trip: decoding an encoding at any position restores the flags and the
   * six fields (up to null versus empty), consumes only the 28 fixed bytes and
   * the bodies, and the decoded payload has the same `getSize` and re-encodes
   * byte for byte.
   */
  lemma RoundTrip(d: Payload, s: Bytes, pos: nat)
    requires Encode(d).Success? && At(s, pos, Encode(d).value)
    ensures Decode(s, pos) == Success((Normalize(d), pos + FIXED_BYTES + |Bodies(FieldList(d))|))
    ensures GetSize(Normalize(d)) == |Encode(d).value|
    ensures Encode(Normalize(d)) == Encode(d)
  {
    EncodingAt(d, s, pos);
    DecodeOf(d, s, pos);
    NormalizeKeepsEncoding(d);
  }

  /**
   * The padding and consumption disagree: a well-formed payload decoded from
   * its own encoding leaves the cursor 196 bytes before the end.
   */
  lemma DecodeStopsBeforePadding(d: Payload)
    requires WellFormed(d)
    ensures Encode(d).Success?
    ensures Decode(Encode(d).value, 0) == Success((Normalize(d), |Encode(d).value| - PADDING))
  {
    WellFormedEncoding(d);
    AtSelf(Encode(d).value);
    RoundTrip(d, Encode(d).value, 0);
  }

  /** Decoding fails when the input is too short for the fixed part. */
  lemma DecodeRejectsShortInput(s: Bytes, pos: nat)
    requires pos <= |s| < pos + FIXED_BYTES
    ensures Decode(s, pos) == Failure(BufferUnderflow)
  {
  }

  /** `getSize()` as written: 224 plus the six declared sizes, as an `int`. */
  lemma GetSizeFormula(d: Payload)
    ensures GetSize(d) == Wrap32(DECLARED_FIXED_BYTES + d.action.size + d.data.size + d.category.size
      + d.mimeType.size + d.clipData.size + d.extras.size)
  {
    var fs := FieldList(d);
    SizesAt(fs, 0);
    SizesAt(fs, 1);
    SizesAt(fs, 2);
    SizesAt(fs, 3);
    SizesAt(fs, 4);
    SizesAt(fs, 5);
    var xs := Sizes(fs);
    assert xs == [d.action.size, d.data.size, d.category.size, d.mimeType.size, d.clipData.size, d.extras.size];
    assert SizeSum(xs[5..][1..]) == 0;
    assert SizeSum(xs[5..]) == d.extras.size;
    assert xs[4..][1..] == xs[5..];
    assert SizeSum(xs[4..]) == d.clipData.size + d.extras.size;
    assert xs[3..][1..] == xs[4..];
    assert SizeSum(xs[3..]) == d.mimeType.size + d.clipData.size + d.extras.size;
    assert xs[2..][1..] == xs[3..];
    assert SizeSum(xs[2..]) == d.category.size + d.mimeType.size + d.clipData.size + d.extras.size;
    assert xs[1..][1..] == xs[2..];
    assert SizeSum(xs[1..]) == d.data.size + d.category.size + d.mimeType.size + d.clipData.size + d.extras.size;
  }

  /**
   * What the parsing test checks: a well-formed payload decoded from its own
   * encoding has the flags and the six fields it was built with (a body only
   * where the size is positive), and its `getSize()` is the length of the
   * encoding it came from.
   */
  lemma ParserReadsBack(d: Payload)
    requires WellFormed(d)
    ensures Encode(d).Success?
    ensures var r := Decode(Encode(d).value, 0);
      && r.Success? && r.value.0.flags == d.flags
      && GetSize(r.value.0) == |Encode(d).value|
      && forall i :: 0 <= i < 6 ==> Restored(FieldList(r.value.0)[i], FieldList(d)[i])
  {
    WellFormedEncoding(d);
    AtSelf(Encode(d).value);
    RoundTrip(d, Encode(d).value, 0);
    forall i | 0 <= i < 6
      ensures Restored(FieldList(Normalize(d))[i], FieldList(d)[i])
    {
      NormalizeAllAt(FieldList(d), i);
    }
  }
}
