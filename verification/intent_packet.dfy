/**
 * IntentPacket: one captured intent, a header and its intent data held
 * together. The constructor takes either part as given, null included; the
 * setters refuse null.
 */
module IntentPacket {
  import opened Wrappers
  import opened ByteOrder
  import IntentHeader
  import IntentData

  /** `getHeader()` and `getData()` are the destructors `header` and `data`; `None` is null. */
  datatype Packet = Packet(header: Option<IntentHeader.Header>, data: Option<IntentData.Payload>)

  /** The constructor: stores both parts as given, with no null check. */
  function New(header: Option<IntentHeader.Header>, data: Option<IntentData.Payload>): (p: Packet)
    ensures p.header == header && p.data == data
  {
    Packet(header, data)
  }

  /** `setHeader(IntentHeader)`: null is rejected; otherwise only the header is replaced. */
  function SetHeader(p: Packet, header: Option<IntentHeader.Header>): (r: Result<Packet>)
    ensures r.Success? <==> header.Some?
    ensures r.Failure? ==> r.error == NullPointer
    ensures r.Success? ==> r.value.header == header && r.value.data == p.data
  {
    if header.None? then Failure(NullPointer) else Success(p.(header := header))
  }

  /** `setData(IntentData)`: null is rejected; otherwise only the data is replaced. */
  function SetData(p: Packet, data: Option<IntentData.Payload>): (r: Result<Packet>)
    ensures r.Success? <==> data.Some?
    ensures r.Failure? ==> r.error == NullPointer
    ensures r.Success? ==> r.value.data == data && r.value.header == p.header
  {
    if data.None? then Failure(NullPointer) else Success(p.(data := data))
  }

  /** The two setters touch different parts: applied in either order they give the same packet. */
  lemma SettersCommute(p: Packet, header: IntentHeader.Header, data: IntentData.Payload)
    ensures SetHeader(p, Some(header)).Success? && SetData(p, Some(data)).Success?
    ensures SetData(SetHeader(p, Some(header)).value, Some(data))
      == SetHeader(SetData(p, Some(data)).value, Some(header))
      == Success(New(Some(header), Some(data)))
  {
  }

  /**
   * `toByteBuffer()`: encodes the header, then the data (a null part is
   * dereferenced and throws), allocates the sum of the two lengths as an
   * `int`, copies the header, then copies the data from offset
   * `headArray.length` of the data array. That range ends past the data
   * array, so the copy is out of bounds whenever the header is not empty,
   * which a successful header encoding never is.
   */
  function ToByteBuffer(p: Packet): (r: Result<Bytes>)
    ensures r.Failure?
  {
    if p.header.None? then Failure(NullPointer)
    else
      var head :- IntentHeader.Encode(p.header.value);
      if p.data.None? then Failure(NullPointer)
      else
        var data :- IntentData.Encode(p.data.value);
        var capacity := Wrap32(|head| + |data|);
        if capacity < 0 then Failure(IllegalArgument)
        else if |head| + |data| > |data| then Failure(IndexOutOfBounds)
        else Success(head + data)
  }

  /**
   * A packet whose two parts encode and whose total length fits an `int`
   * never becomes bytes: it always fails with an out-of-bounds copy.
   */
  lemma ToByteBufferAlwaysOutOfBounds(p: Packet)
    requires p.header.Some? && p.data.Some?
    requires IntentHeader.Encode(p.header.value).Success? && IntentData.Encode(p.data.value).Success?
    requires |IntentHeader.Encode(p.header.value).value| + |IntentData.Encode(p.data.value).value| < TWO_31
    ensures ToByteBuffer(p) == Failure(IndexOutOfBounds)
  {
    assert |IntentHeader.Encode(p.header.value).value| >= IntentHeader.FixedSize(IntentHeader.KindOf(p.header.value));
  }

  /** A well-formed header and payload, as the setters build them, are such a packet. */
  lemma WellFormedPacketFails(header: IntentHeader.Header, data: IntentData.Payload)
    requires IntentHeader.WellFormed(header) && IntentData.WellFormed(data)
    ensures ToByteBuffer(New(Some(header), Some(data))).Failure?
    ensures ToByteBuffer(New(Some(header), Some(data))).error
      == if IntentHeader.GetSize(header) as int + IntentData.GetSize(data) as int < TWO_31
         then IndexOutOfBounds else IllegalArgument
  {
    IntentHeader.WellFormedEncoding(header);
    IntentData.WellFormedEncoding(data);
  }
}
