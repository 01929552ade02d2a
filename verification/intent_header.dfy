/**
 * IntentHeader: the record that describes one captured intent, in three
 * variants (activity, broadcast, service) sharing a common prefix.
 *
 * Wire layout (big-endian): the timestamp (int), the millisecond offset and
 * the intent type (shorts), the caller uid, caller pid, receiver uid,
 * receiver pid and user id (ints), the variant's own ints (activity: request
 * code and start flags; broadcast: request code and flags; service: flags),
 * the sizes of its three length-prefixed fields (receiver component, caller
 * component, then options, required permission or action), the cached size
 * of the attached intent data, and the bodies of the three fields. The fixed
 * part is 52 bytes for activities and broadcasts and 48 for services.
 *
 * The source spreads this over an abstract class and three subclasses that
 * each repeat the layout with their own members. The model has one datatype
 * with a constructor per variant and states the layout once, as the run of
 * ints each variant writes after the 8-byte prefix.
 */
module IntentHeader {
  import opened Wrappers
  import opened ByteOrder
  import opened Fields
  import IntentData

  const TYPE_ACTIVITY: Int16 := 0
  const TYPE_BROADCAST: Int16 := 1
  const TYPE_SERVICE: Int16 := 2

  datatype Kind = ActivityKind | BroadcastKind | ServiceKind

  /** The type code each variant writes and its parsing constructor insists on. */
  function Code(k: Kind): Int16 {
    match k
    case ActivityKind => TYPE_ACTIVITY
    case BroadcastKind => TYPE_BROADCAST
    case ServiceKind => TYPE_SERVICE
  }

  /**
   * The members of the abstract class. The intent type is not kept: every
   * constructor sets it to its variant's code, and the parsing constructors
   * reject any other.
   */
  datatype Common = Common(
    timestamp: Int32,
    offset: Int16,
    callerUid: Int32,
    callerPid: Int32,
    receiverUid: Int32,
    receiverPid: Int32,
    userId: Int32,
    data: Option<IntentData.Payload>,
    dataSize: Int32)

  datatype Header =
    | Activity(common: Common, requestCode: Int32, startFlags: Int32,
               receiver: Field, caller: Field, options: Field)
    | Broadcast(common: Common, requestCode: Int32, flags: Int32,
                receiver: Field, caller: Field, permission: Field)
    | Service(common: Common, flags: Int32,
              receiver: Field, caller: Field, action: Field)

  function KindOf(h: Header): Kind {
    if h.Activity? then ActivityKind else if h.Broadcast? then BroadcastKind else ServiceKind
  }

  /** `getIntentType()`. */
  function IntentType(h: Header): Int16 {
    Code(KindOf(h))
  }

  /** The all-zero common part the default constructors leave: no intent data, cached size 0. */
  const DefaultCommon: Common := Common(0, 0, 0, 0, 0, 0, 0, None, 0)

  // ---------------------------------------------------------------------------
  // Layout
  // ---------------------------------------------------------------------------

  /** How many ints of its own a variant writes between the ids and the sizes. */
  function ExtraCount(k: Kind): nat {
    if k == ServiceKind then 1 else 2
  }

  /** The ints after the 8-byte prefix: five ids, the variant's own, three sizes, the data size. */
  function IntCount(k: Kind): nat {
    5 + ExtraCount(k) + 3 + 1
  }

  /** The fixed part: `4 * 13` bytes, or `4 * 12` for a service. */
  function FixedSize(k: Kind): nat {
    8 + 4 * IntCount(k)
  }

  function Ids(c: Common): (ids: seq<Int32>)
    ensures |ids| == 5
  {
    [c.callerUid, c.callerPid, c.receiverUid, c.receiverPid, c.userId]
  }

  /** The variant's own ints, in wire order. */
  function Extras(h: Header): (xs: seq<Int32>)
    ensures |xs| == ExtraCount(KindOf(h))
  {
    match h
    case Activity(_, requestCode, startFlags, _, _, _) => [requestCode, startFlags]
    case Broadcast(_, requestCode, flags, _, _, _) => [requestCode, flags]
    case Service(_, flags, _, _, _) => [flags]
  }

  /** The third length-prefixed field: options, required permission or action. */
  function Third(h: Header): Field {
    match h
    case Activity(_, _, _, _, _, options) => options
    case Broadcast(_, _, _, _, _, permission) => permission
    case Service(_, _, _, _, action) => action
  }

  /** The three length-prefixed fields in wire order. */
  function FieldList(h: Header): (fs: seq<Field>)
    ensures |fs| == 3
  {
    [h.receiver, h.caller, Third(h)]
  }

  /** The run of ints after the 8-byte prefix. */
  function Ints(h: Header): (xs: seq<Int32>)
    ensures |xs| == IntCount(KindOf(h))
  {
    Ids(h.common) + Extras(h) + Sizes(FieldList(h)) + [h.common.dataSize]
  }

  lemma IntsSplit(h: Header)
    ensures var xs, n := Ints(h), IntCount(KindOf(h));
      && xs[..5] == Ids(h.common)
      && xs[5 .. n - 4] == Extras(h)
      && xs[n - 4 .. n - 1] == Sizes(FieldList(h))
      && xs[n - 1] == h.common.dataSize
  {
  }

  function FixedPart(h: Header): (b: Bytes)
    ensures |b| == FixedSize(KindOf(h))
  {
    Int32Bytes(h.common.timestamp) + Int16Bytes(h.common.offset) + Int16Bytes(IntentType(h))
    + Int32sBytes(Ints(h))
  }

  /** Where the fixed part and the bodies of `h` sit when `h` is written at `pos`. */
  predicate LaidOut(s: Bytes, pos: nat, h: Header) {
    && At(s, pos, Int32Bytes(h.common.timestamp))
    && At(s, pos + 4, Int16Bytes(h.common.offset))
    && At(s, pos + 6, Int16Bytes(IntentType(h)))
    && At(s, pos + 8, Int32sBytes(Ints(h)))
    && At(s, pos + FixedSize(KindOf(h)), Bodies(FieldList(h)))
  }

  /** The fixed part at `pos` is its four pieces, one after the other. */
  lemma FixedPartAt(h: Header, s: Bytes, pos: nat)
    ensures At(s, pos, FixedPart(h)) <==>
      && At(s, pos, Int32Bytes(h.common.timestamp))
      && At(s, pos + 4, Int16Bytes(h.common.offset))
      && At(s, pos + 6, Int16Bytes(IntentType(h)))
      && At(s, pos + 8, Int32sBytes(Ints(h)))
  {
    var a, b, c := Int32Bytes(h.common.timestamp), Int16Bytes(h.common.offset), Int16Bytes(IntentType(h));
    AtConcat(s, pos, a + b + c, Int32sBytes(Ints(h)));
    AtConcat(s, pos, a + b, c);
    AtConcat(s, pos, a, b);
  }

  /**
   * `getSize()`: the fixed part plus the three declared sizes, in Java `int`
   * arithmetic. For a header the setters build it is the fixed part plus the
   * bytes of the three bodies.
   */
  function GetSize(h: Header): (r: Int32)
    ensures WellFormed(h) ==> r == FixedSize(KindOf(h)) + |Bodies(FieldList(h))|
  {
    assert WellFormed(h) ==> SizeSum(Sizes(FieldList(h))) == |Bodies(FieldList(h))| by {
      if WellFormed(h) {
        SizeSumOfNonNegative(FieldList(h));
      }
    }
    Wrap32(FixedSize(KindOf(h)) + SizeSum(Sizes(FieldList(h))))
  }

  /**
   * `toByteBuffer()`: allocates `getSize()` bytes and puts the fixed part, then
   * each body with a positive size. The intent data is not written, only its
   * cached size. It fails when the declared size is too small for what is
   * put, which only negative sizes (read from a wire) cause.
   */
  function Encode(h: Header): (r: Result<Bytes>)
    ensures r.Success? <==> FixedSize(KindOf(h)) + |Bodies(FieldList(h))| <= GetSize(h)
    ensures r.Failure? ==> r.error == IllegalArgument || r.error == BufferOverflow
    ensures r.Success? ==>
      && |r.value| == GetSize(h)
      && LaidOut(r.value, 0, h)
      && forall i :: FixedSize(KindOf(h)) + |Bodies(FieldList(h))| <= i < |r.value| ==> r.value[i] == 0
  {
    var r := Allocate(GetSize(h), FixedPart(h) + Bodies(FieldList(h)));
    if r.Success? then
      AtConcat(r.value, 0, FixedPart(h), Bodies(FieldList(h)));
      FixedPartAt(h, r.value, 0);
      r
    else r
  }

  // ---------------------------------------------------------------------------
  // Decoding
  // ---------------------------------------------------------------------------

  /**
   * `parseIntentType(ByteBuffer)`: the short at six bytes past the cursor,
   * read without moving the cursor. The absolute read is out of bounds when
   * fewer than 8 bytes remain; a value other than 0, 1 or 2 is a parse error.
   */
  function ParseIntentType(s: Bytes, pos: nat): (r: Result<Int16>)
    ensures r.Success? <==> pos + 8 <= |s| && 0 <= Int16At(s, pos + 6) <= 2
    ensures r.Failure? ==> r.error == (if pos + 8 <= |s| then Parse else IndexOutOfBounds)
    ensures r.Success? ==> At(s, pos + 6, Int16Bytes(r.value))
  {
    if pos + 8 > |s| then Failure(IndexOutOfBounds)
    else
      var t := Int16At(s, pos + 6);
      if t < 0 || t > 2 then Failure(Parse) else Success(t)
  }

  /**
   * A header of kind `k` rebuilt from the prefix values, the run of ints and
   * the fields read; its intent data is not attached yet.
   */
  function Build(k: Kind, ts: Int32, off: Int16, xs: seq<Int32>, fs: seq<Field>): (h: Header)
    requires |xs| == IntCount(k) && |fs| == 3
    ensures KindOf(h) == k && h.common.data.None?
    ensures h.common.timestamp == ts && h.common.offset == off
    ensures FieldList(h) == fs && h.common.dataSize == xs[|xs| - 1]
    ensures Ids(h.common) == xs[..5] && Extras(h) == xs[5 .. |xs| - 4]
  {
    var c := Common(ts, off, xs[0], xs[1], xs[2], xs[3], xs[4], None, xs[|xs| - 1]);
    assert Ids(c) == xs[..5];
    match k
    case ActivityKind => Activity(c, xs[5], xs[6], fs[0], fs[1], fs[2])
    case BroadcastKind => Broadcast(c, xs[5], xs[6], fs[0], fs[1], fs[2])
    case ServiceKind => Service(c, xs[5], fs[0], fs[1], fs[2])
  }

  /** The rebuilt header writes back the run of ints it was built from. */
  lemma BuildInts(k: Kind, ts: Int32, off: Int16, xs: seq<Int32>, fs: seq<Field>)
    requires |xs| == IntCount(k) && Sizes(fs) == xs[IntCount(k) - 4 .. IntCount(k) - 1]
    ensures |fs| == 3 && Ints(Build(k, ts, off, xs, fs)) == xs
  {
    var n := IntCount(k);
    var h := Build(k, ts, off, xs, fs);
    Rejoin(xs, n);
  }

  lemma Rejoin(xs: seq<Int32>, n: nat)
    requires |xs| == n >= 9
    ensures xs == xs[..5] + xs[5 .. n - 4] + xs[n - 4 .. n - 1] + [xs[n - 1]]
  {
  }

  /**
   * The part of a parsing constructor before the intent data: the prefix, the
   * type check, the run of ints, the check that the data size is not
   * negative, then the body blocks. Short input underflows; a wrong type or a
   * negative data size is a parse error. The offset is not range-checked.
   */
  function DecodeRecord(s: Bytes, pos: nat, k: Kind): (r: Result<(Header, nat)>)
    requires pos <= |s|
    ensures r.Failure? ==> r.error == BufferUnderflow || r.error == Parse
    ensures r.Success? ==> KindOf(r.value.0) == k && r.value.0.common.data.None? && r.value.1 <= |s|
  {
    var ts :- ReadInt32(s, pos);
    var off :- ReadInt16(s, pos + 4);
    var ty :- ReadInt16(s, pos + 6);
    if ty.0 != Code(k) then Failure(Parse)
    else
      var n := IntCount(k);
      var ints :- ReadInt32s(s, pos + 8, n);
      var xs := ints.0;
      if xs[n - 1] < 0 then Failure(Parse)
      else
        var fields :- ReadFields(s, ints.1, xs[n - 4 .. n - 1]);
        Success((Build(k, ts.0, off.0, xs, fields.0), fields.1))
  }

  /**
   * What the record part of a decoder returns is what is written at `pos`:
   * a header of the kind asked for, with a data size that is not negative,
   * normal fields, and the cursor after its bodies.
   */
  lemma DecodedRecordLaidOut(s: Bytes, pos: nat, k: Kind)
    requires pos <= |s| && DecodeRecord(s, pos, k).Success?
    ensures var (h, next) := DecodeRecord(s, pos, k).value;
      && h.common.dataSize >= 0 && LaidOut(s, pos, h) && AllNormal(FieldList(h))
      && next == pos + FixedSize(k) + |Bodies(FieldList(h))|
  {
    var ts := ReadInt32(s, pos).value.0;
    var off := ReadInt16(s, pos + 4).value.0;
    var xs := ReadInt32s(s, pos + 8, IntCount(k)).value.0;
    var fs := ReadFields(s, pos + FixedSize(k), xs[IntCount(k) - 4 .. IntCount(k) - 1]).value.0;
    RecordLaidOut(s, pos, k, ts, off, xs, fs);
  }

  /** The header rebuilt from what was read sits where it was read from. */
  lemma RecordLaidOut(s: Bytes, pos: nat, k: Kind, ts: Int32, off: Int16, xs: seq<Int32>, fs: seq<Field>)
    requires |xs| == IntCount(k) && Sizes(fs) == xs[IntCount(k) - 4 .. IntCount(k) - 1]
    requires At(s, pos, Int32Bytes(ts)) && At(s, pos + 4, Int16Bytes(off))
    requires At(s, pos + 6, Int16Bytes(Code(k))) && At(s, pos + 8, Int32sBytes(xs))
    requires At(s, pos + FixedSize(k), Bodies(fs))
    ensures |fs| == 3 && LaidOut(s, pos, Build(k, ts, off, xs, fs))
  {
    BuildInts(k, ts, off, xs, fs);
  }

  /** The header with the decoded intent data attached; the cached size stays as read. */
  function WithData(h: Header, d: IntentData.Payload): (r: Header)
    ensures r.common.data == Some(d)
    ensures r.common.(data := h.common.data) == h.common && r.(common := h.common) == h
  {
    h.(common := h.common.(data := Some(d)))
  }

  /**
   * A parsing constructor: the record, then the intent data. Activities and
   * services decode the data from the same cursor, which ends after the data's
   * fixed part and bodies; a broadcast decodes it from `slice()`, a view
   * starting at the cursor, so its cursor stays at the end of the bodies.
   */
  function Decode(s: Bytes, pos: nat, k: Kind): (r: Result<(Header, nat)>)
    requires pos <= |s|
    ensures r.Failure? ==> r.error == BufferUnderflow || r.error == Parse
    ensures r.Success? ==> KindOf(r.value.0) == k && r.value.0.common.data.Some?
  {
    var record :- DecodeRecord(s, pos, k);
    var (h, next) := record;
    if k == BroadcastKind then
      var payload :- IntentData.Decode(s[next..], 0);
      Success((WithData(h, payload.0), next))
    else
      var payload :- IntentData.Decode(s, next);
      Success((WithData(h, payload.0), payload.1))
  }

  // ---------------------------------------------------------------------------
  // Round trip
  // ---------------------------------------------------------------------------

  /** What decoding an encoding rebuilds: the fields with size 0 or less lose their body. */
  function Normalize(h: Header): (n: Header)
    ensures KindOf(n) == KindOf(h) && n.common == h.common && Extras(n) == Extras(h)
    ensures FieldList(n) == NormalizeAll(FieldList(h))
  {
    NormalizeThree(h.receiver, h.caller, Third(h));
    match h
    case Activity(c, requestCode, startFlags, receiver, caller, options) =>
      Activity(c, requestCode, startFlags,
        Fields.Normalize(receiver), Fields.Normalize(caller), Fields.Normalize(options))
    case Broadcast(c, requestCode, flags, receiver, caller, permission) =>
      Broadcast(c, requestCode, flags,
        Fields.Normalize(receiver), Fields.Normalize(caller), Fields.Normalize(permission))
    case Service(c, flags, receiver, caller, action) =>
      Service(c, flags, Fields.Normalize(receiver), Fields.Normalize(caller), Fields.Normalize(action))
  }

  lemma NormalizeThree(a: Field, b: Field, c: Field)
    ensures NormalizeAll([a, b, c]) == [Fields.Normalize(a), Fields.Normalize(b), Fields.Normalize(c)]
  {
    NormalizeAllAt([a, b, c], 0);
    NormalizeAllAt([a, b, c], 1);
    NormalizeAllAt([a, b, c], 2);
  }

  /** The header without its intent data, as the record part of a decoder returns it. */
  function Bare(h: Header): Header {
    h.(common := h.common.(data := None))
  }

  lemma CommonOfParts(c: Common, d: Common)
    requires c.timestamp == d.timestamp && c.offset == d.offset && Ids(c) == Ids(d)
    requires c.data == d.data && c.dataSize == d.dataSize
    ensures c == d
  {
    assert Ids(c)[0] == Ids(d)[0] && Ids(c)[4] == Ids(d)[4];
  }

  /** A header is its variant, its common part, its own ints and its three fields. */
  lemma HeaderOfParts(g: Header, h: Header)
    requires KindOf(g) == KindOf(h) && g.common == h.common
    requires Extras(g) == Extras(h) && FieldList(g) == FieldList(h)
    ensures g == h
  {
    assert Extras(g)[0] == Extras(h)[0];
    assert FieldList(g)[0] == FieldList(h)[0] && FieldList(g)[1] == FieldList(h)[1];
    assert FieldList(g)[2] == FieldList(h)[2];
    if !h.Service? {
      assert Extras(g)[1] == Extras(h)[1];
    }
  }

  /**
   * The checks of a parsing constructor's record part, in the order it makes
   * them, stated over the bytes at `pos`: too few bytes for the prefix, a
   * wrong type code, too few bytes for the run of ints, a negative data size
   * (the last int), too few bytes for the bodies the three sizes before it
   * declare. `None` when all pass.
   */
  function RecordCheck(s: Bytes, pos: nat, k: Kind): Option<Error> {
    var n := IntCount(k);
    if pos + 8 > |s| then Some(BufferUnderflow)
    else if Int16At(s, pos + 6) != Code(k) then Some(Parse)
    else if pos + FixedSize(k) > |s| then Some(BufferUnderflow)
    else
      var xs := Int32sAt(s, pos + 8, n);
      if xs[n - 1] < 0 then Some(Parse)
      else if pos + FixedSize(k) + PositiveTotal(xs[n - 4 .. n - 1]) > |s| then Some(BufferUnderflow)
      else None
  }

  /** The record part fails exactly when one of its checks does, with that check's error. */
  lemma DecodeRecordChecks(s: Bytes, pos: nat, k: Kind)
    requires pos <= |s|
    ensures DecodeRecord(s, pos, k).Success? <==> RecordCheck(s, pos, k).None?
    ensures DecodeRecord(s, pos, k).Failure? ==> RecordCheck(s, pos, k) == Some(DecodeRecord(s, pos, k).error)
  {
  }

  /**
   * Two headers of one kind laid out at the same position, the second with
   * normal fields and no intent data, agree up to normalization.
   */
  lemma SameRecord(g: Header, h: Header, s: Bytes, pos: nat)
    requires LaidOut(s, pos, g) && LaidOut(s, pos, h) && KindOf(g) == KindOf(h)
    requires AllNormal(FieldList(g)) && g.common.data.None?
    ensures g == Bare(Normalize(h)) && |Bodies(FieldList(g))| == |Bodies(FieldList(h))|
  {
    SamePrefix(g, h, s, pos);
    IntsSplit(g);
    IntsSplit(h);
    BodiesLength(FieldList(g));
    BodiesLength(FieldList(h));
    AtUnique(s, pos + FixedSize(KindOf(h)), Bodies(FieldList(g)), Bodies(FieldList(h)));
    FieldsDetermined(FieldList(g), FieldList(h));
    var n := Bare(Normalize(h));
    CommonOfParts(g.common, n.common);
    HeaderOfParts(g, n);
  }

  /** Headers of one kind laid out at the same position have the same fixed part. */
  lemma SamePrefix(g: Header, h: Header, s: Bytes, pos: nat)
    requires LaidOut(s, pos, g) && LaidOut(s, pos, h) && KindOf(g) == KindOf(h)
    ensures g.common.timestamp == h.common.timestamp && g.common.offset == h.common.offset
    ensures Ints(g) == Ints(h)
  {
    AtUnique(s, pos, Int32Bytes(g.common.timestamp), Int32Bytes(h.common.timestamp));
    Int32BytesInjective(g.common.timestamp, h.common.timestamp);
    AtUnique(s, pos + 4, Int16Bytes(g.common.offset), Int16Bytes(h.common.offset));
    Int16BytesInjective(g.common.offset, h.common.offset);
    AtUnique(s, pos + 8, Int32sBytes(Ints(g)), Int32sBytes(Ints(h)));
    Int32sBytesInjective(Ints(g), Ints(h));
  }

  /** Every check of the record part passes on a header laid out with a data size that is not negative. */
  lemma RecordChecksPass(h: Header, s: Bytes, pos: nat)
    requires LaidOut(s, pos, h) && h.common.dataSize >= 0
    ensures pos <= |s| && RecordCheck(s, pos, KindOf(h)).None?
  {
    var k, n := KindOf(h), IntCount(KindOf(h));
    var fixed := pos + FixedSize(k);
    AtUnique(s, pos + 6, Int16Bytes(Int16At(s, pos + 6)), Int16Bytes(Code(k)));
    Int16BytesInjective(Int16At(s, pos + 6), Code(k));
    Int32sAtOf(s, pos + 8, Ints(h));
    IntsSplit(h);
    BodiesLength(FieldList(h));
  }

  /** Reading back the record part of a header written at `pos`. */
  lemma RecordOf(h: Header, s: Bytes, pos: nat)
    requires LaidOut(s, pos, h) && h.common.dataSize >= 0
    ensures pos <= |s|
    ensures DecodeRecord(s, pos, KindOf(h)) == Success((Bare(Normalize(h)), DataPos(h, pos)))
  {
    RecordSucceeds(h, s, pos);
    RecordValue(h, s, pos);
    SuccessOf(DecodeRecord(s, pos, KindOf(h)), (Bare(Normalize(h)), DataPos(h, pos)));
  }

  /** A successful result is the success of its value. */
  lemma SuccessOf<T>(r: Result<T>, v: T)
    requires r.Success? && r.value == v
    ensures r == Success(v)
  {
  }

  lemma RecordSucceeds(h: Header, s: Bytes, pos: nat)
    requires LaidOut(s, pos, h) && h.common.dataSize >= 0
    ensures pos <= |s| && DecodeRecord(s, pos, KindOf(h)).Success?
  {
    RecordChecksPass(h, s, pos);
    DecodeRecordChecks(s, pos, KindOf(h));
  }

  lemma RecordValue(h: Header, s: Bytes, pos: nat)
    requires LaidOut(s, pos, h) && pos <= |s| && DecodeRecord(s, pos, KindOf(h)).Success?
    ensures DecodeRecord(s, pos, KindOf(h)).value.0 == Bare(Normalize(h))
    ensures DecodeRecord(s, pos, KindOf(h)).value.1 == pos + FixedSize(KindOf(h)) + |Bodies(FieldList(h))|
  {
    var r := DecodeRecord(s, pos, KindOf(h));
    DecodedRecordLaidOut(s, pos, KindOf(h));
    SameRecord(r.value.0, h, s, pos);
  }

  // ---------------------------------------------------------------------------
  // Type peek and rejection
  // ---------------------------------------------------------------------------

  /** On a header laid out at `pos`, the type peek returns that header's type code. */
  lemma ParseIntentTypeOf(h: Header, s: Bytes, pos: nat)
    requires LaidOut(s, pos, h)
    ensures ParseIntentType(s, pos) == Success(IntentType(h))
  {
    var t := Int16At(s, pos + 6);
    AtUnique(s, pos + 6, Int16Bytes(t), Int16Bytes(IntentType(h)));
    Int16BytesInjective(t, IntentType(h));
  }

  /** When a check of the record part fails, the parsing constructor fails with that check's error. */
  lemma DecodeFailsWithRecord(s: Bytes, pos: nat, k: Kind)
    requires pos <= |s| && RecordCheck(s, pos, k).Some?
    ensures Decode(s, pos, k) == Failure(RecordCheck(s, pos, k).value)
  {
    DecodeRecordChecks(s, pos, k);
  }

  /** Fewer than 8 bytes: the prefix reads underflow. */
  lemma DecodeRejectsShortInput(s: Bytes, pos: nat, k: Kind)
    requires pos <= |s| < pos + 8
    ensures Decode(s, pos, k) == Failure(BufferUnderflow)
  {
    DecodeFailsWithRecord(s, pos, k);
  }

  /** A header of one kind is rejected by the parsing constructor of any other kind. */
  lemma DecodeRejectsWrongType(h: Header, s: Bytes, pos: nat, k: Kind)
    requires LaidOut(s, pos, h) && k != KindOf(h)
    ensures Decode(s, pos, k) == Failure(Parse)
  {
    ParseIntentTypeOf(h, s, pos);
    DecodeFailsWithRecord(s, pos, k);
  }

  /** A header whose cached data size is negative is rejected by its own parsing constructor. */
  lemma DecodeRejectsNegativeDataSize(h: Header, s: Bytes, pos: nat)
    requires LaidOut(s, pos, h) && h.common.dataSize < 0
    ensures Decode(s, pos, KindOf(h)) == Failure(Parse)
  {
    ParseIntentTypeOf(h, s, pos);
    Int32sAtOf(s, pos + 8, Ints(h));
    IntsSplit(h);
    DecodeFailsWithRecord(s, pos, KindOf(h));
  }

  // ---------------------------------------------------------------------------
  // Round trip with the intent data
  // ---------------------------------------------------------------------------

  /** Where the intent data follows a header written at `pos`: right after its bodies. */
  function DataPos(h: Header, pos: nat): nat {
    pos + FixedSize(KindOf(h)) + |Bodies(FieldList(h))|
  }

  /**
   * The cursor a parsing constructor leaves: at the intent data for a
   * broadcast, after the data's fixed part and bodies for the others.
   */
  function EndPos(h: Header, d: IntentData.Payload, pos: nat): nat {
    if KindOf(h) == BroadcastKind then DataPos(h, pos)
    else DataPos(h, pos) + IntentData.FIXED_BYTES + |Bodies(IntentData.FieldList(d))|
  }

  /**
   * Reading back a header laid out at `pos` followed by the fixed part and
   * bodies of a payload: the normalized header with the normalized payload
   * attached, and the cursor where the variant leaves it.
   */
  lemma DecodeOf(h: Header, d: IntentData.Payload, s: Bytes, pos: nat)
    requires LaidOut(s, pos, h) && h.common.dataSize >= 0
    requires At(s, DataPos(h, pos), IntentData.FixedPart(d))
    requires At(s, DataPos(h, pos) + IntentData.FIXED_BYTES, Bodies(IntentData.FieldList(d)))
    ensures pos <= |s|
    ensures Decode(s, pos, KindOf(h)) == Success((WithData(Normalize(h), IntentData.Normalize(d)), EndPos(h, d, pos)))
  {
    RecordOf(h, s, pos);
    DataOf(h, d, s, pos);
    Combine(h, d, s, pos);
  }

  /** The intent data after the record, read as the variant reads it. */
  lemma DataOf(h: Header, d: IntentData.Payload, s: Bytes, pos: nat)
    requires At(s, DataPos(h, pos), IntentData.FixedPart(d))
    requires At(s, DataPos(h, pos) + IntentData.FIXED_BYTES, Bodies(IntentData.FieldList(d)))
    ensures DataPos(h, pos) <= |s|
    ensures KindOf(h) == BroadcastKind ==>
              IntentData.Decode(s[DataPos(h, pos)..], 0)
              == Success((IntentData.Normalize(d), IntentData.FIXED_BYTES + |Bodies(IntentData.FieldList(d))|))
    ensures KindOf(h) != BroadcastKind ==>
              IntentData.Decode(s, DataPos(h, pos)) == Success((IntentData.Normalize(d), EndPos(h, d, pos)))
  {
    if KindOf(h) == BroadcastKind {
      SlicedDataOf(d, s, DataPos(h, pos));
    } else {
      CursorDataOf(h, d, s, pos);
    }
  }

  /** The intent data after the record, read from the cursor as the activity and service parsers do. */
  lemma CursorDataOf(h: Header, d: IntentData.Payload, s: Bytes, pos: nat)
    requires KindOf(h) != BroadcastKind
    requires At(s, DataPos(h, pos), IntentData.FixedPart(d))
    requires At(s, DataPos(h, pos) + IntentData.FIXED_BYTES, Bodies(IntentData.FieldList(d)))
    ensures IntentData.Decode(s, DataPos(h, pos)) == Success((IntentData.Normalize(d), EndPos(h, d, pos)))
  {
    var at := DataPos(h, pos);
    IntentData.DecodeOf(d, s, at);
    assert EndPos(h, d, pos) == at + IntentData.FIXED_BYTES + |Bodies(IntentData.FieldList(d))|;
  }

  /** A record part and intent data that both read back make the whole header read back. */
  lemma Combine(h: Header, d: IntentData.Payload, s: Bytes, pos: nat)
    requires pos <= |s| && DataPos(h, pos) <= |s|
    requires DecodeRecord(s, pos, KindOf(h)) == Success((Bare(Normalize(h)), DataPos(h, pos)))
    requires KindOf(h) == BroadcastKind ==>
               IntentData.Decode(s[DataPos(h, pos)..], 0)
               == Success((IntentData.Normalize(d), IntentData.FIXED_BYTES + |Bodies(IntentData.FieldList(d))|))
    requires KindOf(h) != BroadcastKind ==>
               IntentData.Decode(s, DataPos(h, pos)) == Success((IntentData.Normalize(d), EndPos(h, d, pos)))
    ensures Decode(s, pos, KindOf(h)) == Success((WithData(Normalize(h), IntentData.Normalize(d)), EndPos(h, d, pos)))
  {
    var g, e := Bare(Normalize(h)), IntentData.Normalize(d);
    if KindOf(h) == BroadcastKind {
      DecodeThroughSlice(s, pos, KindOf(h), g, DataPos(h, pos), e,
        IntentData.FIXED_BYTES + |Bodies(IntentData.FieldList(d))|);
    } else {
      DecodeThroughCursor(s, pos, KindOf(h), g, DataPos(h, pos), e, EndPos(h, d, pos));
    }
    WithDataBare(Normalize(h), e);
  }

  /** Attaching intent data replaces whatever was attached before. */
  lemma WithDataBare(h: Header, d: IntentData.Payload)
    ensures WithData(Bare(h), d) == WithData(h, d)
  {
  }

  /** A broadcast whose record part succeeds and whose view after it holds intent data. */
  lemma DecodeThroughSlice(s: Bytes, pos: nat, k: Kind, g: Header, next: nat, e: IntentData.Payload, m: nat)
    requires k == BroadcastKind && pos <= |s| && DecodeRecord(s, pos, k) == Success((g, next))
    requires next <= |s| && IntentData.Decode(s[next..], 0) == Success((e, m))
    ensures Decode(s, pos, k) == Success((WithData(g, e), next))
  {
  }

  /** An activity or service whose record part succeeds and is followed by intent data. */
  lemma DecodeThroughCursor(s: Bytes, pos: nat, k: Kind, g: Header, next: nat, e: IntentData.Payload, m: nat)
    requires k != BroadcastKind && pos <= |s| && DecodeRecord(s, pos, k) == Success((g, next))
    requires next <= |s| && IntentData.Decode(s, next) == Success((e, m))
    ensures Decode(s, pos, k) == Success((WithData(g, e), m))
  {
  }

  /** The payload at `next`, read through a view that starts there. */
  lemma SlicedDataOf(d: IntentData.Payload, s: Bytes, next: nat)
    requires At(s, next, IntentData.FixedPart(d))
    requires At(s, next + IntentData.FIXED_BYTES, Bodies(IntentData.FieldList(d)))
    ensures next <= |s|
    ensures IntentData.Decode(s[next..], 0)
      == Success((IntentData.Normalize(d), IntentData.FIXED_BYTES + |Bodies(IntentData.FieldList(d))|))
  {
    AtSlice(s, next, 0, IntentData.FixedPart(d));
    AtSlice(s, next, IntentData.FIXED_BYTES, Bodies(IntentData.FieldList(d)));
    IntentData.DecodeOf(d, s[next..], 0);
  }

  // ---------------------------------------------------------------------------
  // Round trip of an encoding
  // ---------------------------------------------------------------------------

  /** Where a header's encoding sits in a buffer, its fixed part and its bodies sit. */
  lemma EncodingAt(h: Header, s: Bytes, pos: nat)
    requires Encode(h).Success? && At(s, pos, Encode(h).value)
    ensures LaidOut(s, pos, h)
  {
    var e := Encode(h).value;
    AtWithin(s, pos, e, 0, Int32Bytes(h.common.timestamp));
    AtWithin(s, pos, e, 4, Int16Bytes(h.common.offset));
    AtWithin(s, pos, e, 6, Int16Bytes(IntentType(h)));
    AtWithin(s, pos, e, 8, Int32sBytes(Ints(h)));
    AtWithin(s, pos, e, FixedSize(KindOf(h)), Bodies(FieldList(h)));
  }

  /** Dropping the bodies of fields with size 0 or less changes neither `getSize` nor the encoding. */
  lemma NormalizeKeepsEncoding(h: Header)
    ensures GetSize(Normalize(h)) == GetSize(h)
    ensures Encode(Normalize(h)) == Encode(h)
  {
    BodiesOfNormalized(FieldList(h));
    assert Ints(Normalize(h)) == Ints(h);
    assert FixedPart(Normalize(h)) == FixedPart(h);
  }

  /**
   * Round trip: a header's encoding at `pos`, followed at its data position by
   * an intent data encoding, decodes to the header with its fields normalized
   * and the payload attached, the cursor where the variant leaves it. The
   * normalized header encodes byte for byte as the original.
   */
  lemma RoundTrip(h: Header, d: IntentData.Payload, s: Bytes, pos: nat)
    requires Encode(h).Success? && At(s, pos, Encode(h).value) && h.common.dataSize >= 0
    requires IntentData.Encode(d).Success? && At(s, DataPos(h, pos), IntentData.Encode(d).value)
    ensures pos <= |s|
    ensures Decode(s, pos, KindOf(h)) == Success((WithData(Normalize(h), IntentData.Normalize(d)), EndPos(h, d, pos)))
    ensures Encode(Normalize(h)) == Encode(h)
  {
    EncodingAt(h, s, pos);
    IntentData.EncodingAt(d, s, DataPos(h, pos));
    DecodeOf(h, d, s, pos);
    NormalizeKeepsEncoding(h);
  }

  /** A header built by the setters: no negative size, and `getSize` does not overflow. */
  predicate WellFormed(h: Header) {
    && (forall i :: 0 <= i < 3 ==> FieldList(h)[i].size >= 0)
    && FixedSize(KindOf(h)) + |Bodies(FieldList(h))| < TWO_31
  }

  /** A well-formed header always encodes, to exactly its fixed part and bodies. */
  lemma WellFormedEncoding(h: Header)
    requires WellFormed(h)
    ensures Encode(h).Success? && |Encode(h).value| == DataPos(h, 0)
  {
    assert GetSize(h) == FixedSize(KindOf(h)) + |Bodies(FieldList(h))|;
  }

  /**
   * A well-formed header written in front of its intent data, as a capture
   * stores an intent, reads back from the start of the stream.
   */
  lemma StreamRoundTrip(h: Header, d: IntentData.Payload)
    requires WellFormed(h) && h.common.dataSize >= 0 && IntentData.WellFormed(d)
    ensures Encode(h).Success? && IntentData.Encode(d).Success?
    ensures Decode(Encode(h).value + IntentData.Encode(d).value, 0, KindOf(h))
      == Success((WithData(Normalize(h), IntentData.Normalize(d)), EndPos(h, d, 0)))
    ensures Encode(Normalize(h)) == Encode(h)
    ensures IntentData.Encode(IntentData.Normalize(d)) == IntentData.Encode(d)
  {
    IntentData.NormalizeKeepsEncoding(d);
    WellFormedEncoding(h);
    IntentData.WellFormedEncoding(d);
    var a, b := Encode(h).value, IntentData.Encode(d).value;
    var s := a + b;
    AtSelf(s);
    AtConcat(s, 0, a, b);
    RoundTrip(h, d, s, 0);
  }

  /**
   * What a reader of `toByteBuffer()` sees: the timestamp, the offset, the
   * type code and the run of ints at their offsets, then the bodies.
   */
  lemma EncodingReads(h: Header)
    requires Encode(h).Success?
    ensures var e := Encode(h).value;
      && |e| >= FixedSize(KindOf(h))
      && Int32At(e, 0) == h.common.timestamp
      && Int16At(e, 4) == h.common.offset
      && Int16At(e, 6) == IntentType(h)
      && Int32sAt(e, 8, IntCount(KindOf(h))) == Ints(h)
      && At(e, FixedSize(KindOf(h)), Bodies(FieldList(h)))
  {
    var e := Encode(h).value;
    AtUnique(e, 0, Int32Bytes(Int32At(e, 0)), Int32Bytes(h.common.timestamp));
    Int32BytesInjective(Int32At(e, 0), h.common.timestamp);
    AtUnique(e, 4, Int16Bytes(Int16At(e, 4)), Int16Bytes(h.common.offset));
    Int16BytesInjective(Int16At(e, 4), h.common.offset);
    AtUnique(e, 6, Int16Bytes(Int16At(e, 6)), Int16Bytes(IntentType(h)));
    Int16BytesInjective(Int16At(e, 6), IntentType(h));
    Int32sAtOf(e, 8, Ints(h));
  }

  // ---------------------------------------------------------------------------
  // Setters of the common part
  // ---------------------------------------------------------------------------

  /**
   * Two headers of the same variant with the same three fields: `getSize`
   * and whether `toByteBuffer()` succeeds depend on nothing else.
   */
  predicate SameShape(g: Header, h: Header) {
    KindOf(g) == KindOf(h) && FieldList(g) == FieldList(h)
  }

  lemma SameShapeEncoding(g: Header, h: Header)
    requires SameShape(g, h)
    ensures GetSize(g) == GetSize(h)
    ensures Encode(g).Success? <==> Encode(h).Success?
    ensures Encode(g).Success? ==> |Encode(g).value| == |Encode(h).value|
  {
  }

  function SetTimestamp(h: Header, time: Int32): (r: Header)
    ensures r.common.timestamp == time && SameShape(r, h)
    ensures r.common.(timestamp := h.common.timestamp) == h.common && r.(common := h.common) == h
  {
    h.(common := h.common.(timestamp := time))
  }

  /** `setOffset(short)`: only 0 to 999 milliseconds are accepted. */
  function SetOffset(h: Header, milli: Int16): (r: Result<Header>)
    ensures r.Success? <==> 0 <= milli <= 999
    ensures r.Failure? ==> r.error == IllegalArgument
    ensures r.Success? ==>
      && r.value.common.offset == milli && SameShape(r.value, h)
      && r.value.common.(offset := h.common.offset) == h.common && r.value.(common := h.common) == h
  {
    if milli < 0 || milli > 999 then Failure(IllegalArgument)
    else Success(h.(common := h.common.(offset := milli)))
  }

  function SetCallerUid(h: Header, uid: Int32): (r: Header)
    ensures r.common.callerUid == uid && SameShape(r, h)
    ensures r.common.(callerUid := h.common.callerUid) == h.common && r.(common := h.common) == h
  {
    h.(common := h.common.(callerUid := uid))
  }

  function SetCallerPid(h: Header, pid: Int32): (r: Header)
    ensures r.common.callerPid == pid && SameShape(r, h)
    ensures r.common.(callerPid := h.common.callerPid) == h.common && r.(common := h.common) == h
  {
    h.(common := h.common.(callerPid := pid))
  }

  function SetReceiverUid(h: Header, uid: Int32): (r: Header)
    ensures r.common.receiverUid == uid && SameShape(r, h)
    ensures r.common.(receiverUid := h.common.receiverUid) == h.common && r.(common := h.common) == h
  {
    h.(common := h.common.(receiverUid := uid))
  }

  function SetReceiverPid(h: Header, pid: Int32): (r: Header)
    ensures r.common.receiverPid == pid && SameShape(r, h)
    ensures r.common.(receiverPid := h.common.receiverPid) == h.common && r.(common := h.common) == h
  {
    h.(common := h.common.(receiverPid := pid))
  }

  function SetUserId(h: Header, user: Int32): (r: Header)
    ensures r.common.userId == user && SameShape(r, h)
    ensures r.common.(userId := h.common.userId) == h.common && r.(common := h.common) == h
  {
    h.(common := h.common.(userId := user))
  }

  /**
   * `setIntentData(IntentData)`: attaches the data (or null) and caches its
   * `getSize()`, or 0 for null; the cached size is what the encoding carries.
   */
  function SetIntentData(h: Header, data: Option<IntentData.Payload>): (r: Header)
    ensures r.common.data == data && SameShape(r, h)
    ensures r.common.dataSize == (if data.Some? then IntentData.GetSize(data.value) else 0)
    ensures r.common.(data := h.common.data, dataSize := h.common.dataSize) == h.common
    ensures r.(common := h.common) == h
  {
    var size := if data.Some? then IntentData.GetSize(data.value) else 0;
    h.(common := h.common.(data := data, dataSize := size))
  }

  /**
   * The size `setIntentData` caches for a well-formed payload is not
   * negative, so a header carrying it passes the parsing constructors' check,
   * and it counts the payload's whole encoding.
   */
  lemma SetIntentDataSize(h: Header, d: IntentData.Payload)
    requires IntentData.WellFormed(d)
    ensures SetIntentData(h, Some(d)).common.dataSize >= 0
    ensures IntentData.Encode(d).Success?
    ensures SetIntentData(h, Some(d)).common.dataSize == |IntentData.Encode(d).value|
  {
    IntentData.WellFormedEncoding(d);
  }

  /** `parseIntentType` on any header's encoding yields that header's type code. */
  lemma TypeOfEncoding(h: Header)
    requires Encode(h).Success?
    ensures ParseIntentType(Encode(h).value, 0) == Success(IntentType(h))
  {
    ParseIntentTypeOf(h, Encode(h).value, 0);
  }

  /** Three absent fields have no bodies and declare size 0. */
  lemma AbsentFields(fs: seq<Field>)
    requires fs == [Absent, Absent, Absent]
    ensures Bodies(fs) == [] && Sizes(fs) == [0, 0, 0]
  {
    assert fs[1..] == [Absent, Absent] && fs[1..][1..] == [Absent] && fs[1..][1..][1..] == [];
    assert Bodies(fs[1..][1..]) == [];
    assert Bodies(fs[1..]) == [];
    SizesAt(fs, 0);
    SizesAt(fs, 1);
    SizesAt(fs, 2);
  }

  /** The run of ints of a header as a default constructor leaves it is all zeros. */
  lemma BlankInts(h: Header)
    requires h.common == DefaultCommon && FieldList(h) == [Absent, Absent, Absent]
    requires forall i :: 0 <= i < |Extras(h)| ==> Extras(h)[i] == 0
    ensures Ints(h) == seq(IntCount(KindOf(h)), _ => 0)
  {
    AbsentFields(FieldList(h));
    var ids, extras, sizes := Ids(h.common), Extras(h), Sizes(FieldList(h));
    assert ids == [0, 0, 0, 0, 0];
    var xs := Ints(h);
    assert xs == ids + extras + sizes + [0];
    forall i | 0 <= i < |xs|
      ensures xs[i] == 0
    {
      if i < 5 {
        assert xs[i] == ids[i];
      } else if i < 5 + |extras| {
        assert xs[i] == extras[i - 5];
      } else if i < 5 + |extras| + 3 {
        assert xs[i] == sizes[i - 5 - |extras|];
      }
    }
  }

  /**
   * A header as a default constructor leaves it encodes to its fixed size in
   * zero bytes, except the low byte of the type code.
   */
  lemma BlankEncoding(h: Header)
    requires h.common == DefaultCommon && FieldList(h) == [Absent, Absent, Absent]
    requires forall i :: 0 <= i < |Extras(h)| ==> Extras(h)[i] == 0
    ensures Encode(h) == Success(Zeros(FixedSize(KindOf(h)))[7 := Code(KindOf(h)) as byte])
  {
    AbsentFields(FieldList(h));
    GetSizeFormula(h);
    assert GetSize(h) == FixedSize(KindOf(h));
    assert Encode(h).Success?;
    BlankInts(h);
    BlankBytes(h, Encode(h).value);
  }

  lemma BlankBytes(h: Header, e: Bytes)
    requires LaidOut(e, 0, h) && |e| == FixedSize(KindOf(h))
    requires h.common == DefaultCommon && Ints(h) == seq(IntCount(KindOf(h)), _ => 0)
    ensures e == Zeros(FixedSize(KindOf(h)))[7 := Code(KindOf(h)) as byte]
  {
    assert Int32Bytes(0) == [0, 0, 0, 0] && Int16Bytes(0) == [0, 0];
    assert Int16Bytes(Code(KindOf(h))) == [0, Code(KindOf(h)) as byte];
    BlankFixedPart(e, KindOf(h));
  }

  /** Bytes holding a zero int, a zero short, the type code and zero ints are the blank fixed part. */
  lemma BlankFixedPart(e: Bytes, k: Kind)
    requires |e| == FixedSize(k)
    requires At(e, 0, [0, 0, 0, 0]) && At(e, 4, [0, 0]) && At(e, 6, [0, Code(k) as byte])
    requires At(e, 8, Int32sBytes(seq(IntCount(k), _ => 0)))
    ensures e == Zeros(FixedSize(k))[7 := Code(k) as byte]
  {
    var zs: seq<Int32> := seq(IntCount(k), _ => 0);
    var z := Zeros(FixedSize(k))[7 := Code(k) as byte];
    AtElementwise(e, 0, [0, 0, 0, 0]);
    AtElementwise(e, 4, [0, 0]);
    AtElementwise(e, 6, [0, Code(k) as byte]);
    AtElementwise(e, 8, Int32sBytes(zs));
    forall i | 0 <= i < |e|
      ensures e[i] == z[i]
    {
      if i < 4 {
        assert e[0 + i] == [0, 0, 0, 0][i];
      } else if i < 6 {
        assert e[4 + (i - 4)] == [0, 0][i - 4];
      } else if i < 8 {
        assert e[6 + (i - 6)] == [0, Code(k) as byte][i - 6];
      } else {
        assert e[8 + (i - 8)] == Int32sBytes(zs)[i - 8];
        ZeroInts(IntCount(k), i - 8);
      }
    }
  }

  /** `getSize()` as each variant writes it: the fixed size plus the three declared sizes, as an `int`. */
  lemma GetSizeFormula(h: Header)
    ensures GetSize(h) == Wrap32(FixedSize(KindOf(h)) + h.receiver.size + h.caller.size + Third(h).size)
  {
    var fs := FieldList(h);
    SizesAt(fs, 0);
    SizesAt(fs, 1);
    SizesAt(fs, 2);
    var xs := Sizes(fs);
    assert xs == [h.receiver.size, h.caller.size, Third(h).size];
    assert xs[1..] == [h.caller.size, Third(h).size] && xs[1..][1..] == [Third(h).size];
    assert SizeSum(xs[1..][1..][1..]) == 0;
    assert SizeSum(xs[1..][1..]) == Third(h).size;
    assert SizeSum(xs[1..]) == h.caller.size + Third(h).size;
  }

  /**
   * What the parsing constructors' tests check: a well-formed header written
   * in front of a payload's encoding reads back with its common members, its
   * own ints and its three fields restored, and the attached data encodes as
   * the payload did.
   */
  lemma StreamReadsBack(h: Header, d: IntentData.Payload)
    requires WellFormed(h) && h.common.dataSize >= 0 && IntentData.WellFormed(d)
    ensures Encode(h).Success? && IntentData.Encode(d).Success?
    ensures var r := Decode(Encode(h).value + IntentData.Encode(d).value, 0, KindOf(h));
      && r.Success? && KindOf(r.value.0) == KindOf(h)
      && r.value.0.common.(data := h.common.data) == h.common
      && Extras(r.value.0) == Extras(h)
      && Restored(r.value.0.receiver, h.receiver) && Restored(r.value.0.caller, h.caller)
      && Restored(Third(r.value.0), Third(h))
      && r.value.0.common.data.Some?
      && IntentData.Encode(r.value.0.common.data.value) == IntentData.Encode(d)
  {
    StreamRoundTrip(h, d);
    var n := Normalize(h);
    assert FieldList(n) == [Fields.Normalize(h.receiver), Fields.Normalize(h.caller), Fields.Normalize(Third(h))];
    assert FieldList(n)[2] == Third(n);
  }
}
