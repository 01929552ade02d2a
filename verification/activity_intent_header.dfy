/**
 * ActivityIntentHeader: the header of an activity intent. Its own ints are
 * the request code and the start flags; its third length-prefixed field is
 * the options blob. The layout, `getSize()`, `toByteBuffer()` and the parsing
 * constructor are the shared ones of `IntentHeader` at kind `ActivityKind`.
 */
module ActivityIntentHeader {
  import opened Wrappers
  import opened ByteOrder
  import opened Fields
  import opened IntentHeader
  import IntentData

  type ActivityHeader = h: Header | h.Activity? witness Activity(DefaultCommon, 0, 0, Absent, Absent, Absent)

  /**
   * The default constructor: every member zero, both components and the
   * options null with size 0, so `getSize` counts only the fixed part.
   */
  function New(): (h: ActivityHeader)
    ensures h.common == DefaultCommon && forall i :: 0 <= i < |Extras(h)| ==> Extras(h)[i] == 0
    ensures forall i :: 0 <= i < 3 ==> FieldList(h)[i].body.None?
    ensures WellFormed(h) && GetSize(h) == 4 * 13 && IntentType(h) == TYPE_ACTIVITY
  {
    var h := Activity(DefaultCommon, 0, 0, Absent, Absent, Absent);
    AbsentFields(FieldList(h));
    h
  }

  /** The default header is 52 bytes, all zero (the activity type code is 0), and parses as an activity. */
  lemma NewEncoding()
    ensures Encode(New()) == Success(Zeros(4 * 13))
    ensures ParseIntentType(Encode(New()).value, 0) == Success(TYPE_ACTIVITY)
  {
    var h := New();
    BlankEncoding(h);
    TypeOfEncoding(h);
    assert Zeros(4 * 13)[7 := 0] == Zeros(4 * 13);
  }

  function SetRequestCode(h: ActivityHeader, request: Int32): (r: ActivityHeader)
    ensures r.requestCode == request && SameShape(r, h)
    ensures r.common == h.common && r.startFlags == h.startFlags
  {
    Activity(h.common, request, h.startFlags, h.receiver, h.caller, h.options)
  }

  function SetStartFlags(h: ActivityHeader, flags: Int32): (r: ActivityHeader)
    ensures r.startFlags == flags && SameShape(r, h)
    ensures r.common == h.common && r.requestCode == h.requestCode
  {
    Activity(h.common, h.requestCode, flags, h.receiver, h.caller, h.options)
  }

  /** `setReceiverComponent(String)`: the size is the string's length, 0 for null. */
  function SetReceiverComponent(h: ActivityHeader, component: Option<Bytes>): (r: ActivityHeader)
    requires component.Some? ==> |component.value| < TWO_31
    ensures r.receiver.body == component
    ensures r.receiver.size == if component.Some? then |component.value| else 0
    ensures r.common == h.common && Extras(r) == Extras(h)
    ensures r.caller == h.caller && r.options == h.options
  {
    Activity(h.common, h.requestCode, h.startFlags, FromString(component), h.caller, h.options)
  }

  /** `setCallerComponent(String)`: the size is the string's length, 0 for null. */
  function SetCallerComponent(h: ActivityHeader, component: Option<Bytes>): (r: ActivityHeader)
    requires component.Some? ==> |component.value| < TWO_31
    ensures r.caller.body == component
    ensures r.caller.size == if component.Some? then |component.value| else 0
    ensures r.common == h.common && Extras(r) == Extras(h)
    ensures r.receiver == h.receiver && r.options == h.options
  {
    Activity(h.common, h.requestCode, h.startFlags, h.receiver, FromString(component), h.options)
  }

  /** `setOptions(byte[])`: the size is the array's length; a null array is dereferenced and throws. */
  function SetOptions(h: ActivityHeader, options: Option<Bytes>): (r: Result<ActivityHeader>)
    requires options.Some? ==> |options.value| < TWO_31
    ensures r.Success? <==> options.Some?
    ensures r.Failure? ==> r.error == NullPointer
    ensures r.Success? ==>
      r.value.options.body == options && r.value.options.size == |options.value|
      && r.value.common == h.common && Extras(r.value) == Extras(h)
      && r.value.receiver == h.receiver && r.value.caller == h.caller
  {
    var f :- FromBlob(options);
    Success(Activity(h.common, h.requestCode, h.startFlags, h.receiver, h.caller, f))
  }

  /**
   * After the three field setters, `getSize()` is 52 plus the lengths set;
   * with 13, 11 and 3 bytes it is 79.
   */
  lemma SizeAfterSetters(h: ActivityHeader, receiver: Bytes, caller: Bytes, options: Bytes)
    requires 4 * 13 + |receiver| + |caller| + |options| < TWO_31
    ensures var r := SetOptions(SetCallerComponent(SetReceiverComponent(h, Some(receiver)), Some(caller)), Some(options));
      r.Success? && GetSize(r.value) == 4 * 13 + |receiver| + |caller| + |options|
  {
    var r := SetOptions(SetCallerComponent(SetReceiverComponent(h, Some(receiver)), Some(caller)), Some(options));
    GetSizeFormula(r.value);
  }

  /** `ActivityIntentHeaderTest.testGetSize`: components of 13 and 11 characters and 3 options bytes give 79. */
  lemma TestSize(h: ActivityHeader, receiver: Bytes, caller: Bytes, options: Bytes)
    requires |receiver| == 13 && |caller| == 11 && |options| == 3
    ensures var r := SetOptions(SetCallerComponent(SetReceiverComponent(h, Some(receiver)), Some(caller)), Some(options));
      r.Success? && GetSize(r.value) == 79
  {
    SizeAfterSetters(h, receiver, caller, options);
  }

  /**
   * The parsing constructor on a header's encoding followed by a payload's:
   * every getter of the result returns what the original's getter returns
   * (components and options up to null versus empty), the type is the
   * activity code, and the attached data encodes as the payload did.
   */
  lemma ParserReadsBack(h: ActivityHeader, d: IntentData.Payload)
    requires WellFormed(h) && h.common.dataSize >= 0 && IntentData.WellFormed(d)
    ensures Encode(h).Success? && IntentData.Encode(d).Success?
    ensures var r := Decode(Encode(h).value + IntentData.Encode(d).value, 0, ActivityKind);
      && r.Success? && r.value.0.Activity?
      && var g := r.value.0;
      && g.common.timestamp == h.common.timestamp && g.common.offset == h.common.offset
      && IntentType(g) == TYPE_ACTIVITY
      && g.common.callerUid == h.common.callerUid && g.common.callerPid == h.common.callerPid
      && g.common.receiverUid == h.common.receiverUid && g.common.receiverPid == h.common.receiverPid
      && g.common.userId == h.common.userId
      && g.requestCode == h.requestCode && g.startFlags == h.startFlags
      && Restored(g.receiver, h.receiver) && Restored(g.caller, h.caller) && Restored(g.options, h.options)
      && g.common.data.Some? && IntentData.Encode(g.common.data.value) == IntentData.Encode(d)
  {
    StreamReadsBack(h, d);
    var g := Decode(Encode(h).value + IntentData.Encode(d).value, 0, ActivityKind).value.0;
    assert Extras(g)[0] == Extras(h)[0] && Extras(g)[1] == Extras(h)[1];
  }
}
