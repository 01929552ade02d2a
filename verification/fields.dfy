/**
 * Length-prefixed fields: the strings and byte blobs that every record carries.
 *
 * In the Java classes each such field is a pair of members, a size (`int`) and
 * a body (`String` or `byte[]`, possibly null). The size is written in the
 * fixed part of a record and the body, only when the size is positive, in its
 * variable part. The model keeps the pair together and states, as a subset
 * type, the invariant every setter and decoder keeps: an absent body has a size
 * of zero or less, a present body has exactly `size` bytes.
 *
 * Strings are modelled by their bytes: the source takes sizes from
 * `String.length()` and writes `String.getBytes()`, which agree for ASCII text.
 */
module Fields {
  import opened Wrappers
  import opened ByteOrder

  datatype LengthPrefixed = LengthPrefixed(size: Int32, body: Option<Bytes>)

  predicate Paired(f: LengthPrefixed) {
    match f.body
    case None => f.size <= 0
    case Some(b) => |b| == f.size
  }

  type Field = f: LengthPrefixed | Paired(f) witness LengthPrefixed(0, None)

  /** A field as the default constructors leave it: null body, size 0. */
  const Absent: Field := LengthPrefixed(0, None)

  /** The string setters: store the value, size is its length, or 0 for null. */
  function FromString(s: Option<Bytes>): (f: Field)
    requires s.Some? ==> |s.value| < TWO_31
    ensures f.body == s
    ensures s.None? ==> f.size == 0
  {
    match s
    case None => LengthPrefixed(0, None)
    case Some(b) => LengthPrefixed(|b|, Some(b))
  }

  /** The byte-array setters: size is the array's length; a null array is dereferenced and throws. */
  function FromBlob(b: Option<Bytes>): (r: Result<Field>)
    requires b.Some? ==> |b.value| < TWO_31
    ensures r.Success? <==> b.Some?
    ensures r.Failure? ==> r.error == NullPointer
    ensures r.Success? ==> r.value.body == b
  {
    match b
    case None => Failure(NullPointer)
    case Some(bytes) => Success(LengthPrefixed(|bytes|, Some(bytes)))
  }

  /** The bytes the encoders put for this field: the body when the size is positive, nothing otherwise. */
  function Written(f: Field): (w: Bytes)
    ensures |w| == (if f.size > 0 then f.size else 0)
    ensures f.body.Some? && f.size != 0 ==> w == f.body.value
  {
    if f.size > 0 then f.body.value else []
  }

  /** What a decoder rebuilds from a field's size and written bytes: a body only for a positive size. */
  function Normalize(f: Field): (g: Field)
    ensures g.size == f.size && Written(g) == Written(f)
    ensures g.body.Some? <==> f.size > 0
  {
    if f.size > 0 then f else LengthPrefixed(f.size, None)
  }

  /** A field read back as it was set: the same size, and the same body where the size is positive. */
  predicate Restored(g: Field, f: Field) {
    g.size == f.size && (f.size > 0 ==> g.body == f.body)
  }

  lemma NormalizeRestores(f: Field)
    ensures Restored(Normalize(f), f)
  {
  }

  predicate IsNormal(f: Field) {
    f.size <= 0 ==> f.body.None?
  }

  // ---------------------------------------------------------------------------
  // Runs of fields, in wire order
  // ---------------------------------------------------------------------------

  function Sizes(fs: seq<Field>): (r: seq<Int32>)
    ensures |r| == |fs|
  {
    if |fs| == 0 then [] else [fs[0].size] + Sizes(fs[1..])
  }

  lemma {:induction false} SizesAt(fs: seq<Field>, i: nat)
    requires i < |fs|
    ensures Sizes(fs)[i] == fs[i].size
  {
    if i > 0 {
      SizesAt(fs[1..], i - 1);
    }
  }

  /** The variable part of a record: the bodies of its fields back to back. */
  function Bodies(fs: seq<Field>): Bytes {
    if |fs| == 0 then [] else Written(fs[0]) + Bodies(fs[1..])
  }

  function NormalizeAll(fs: seq<Field>): (gs: seq<Field>)
    ensures |gs| == |fs|
  {
    if |fs| == 0 then [] else [Normalize(fs[0])] + NormalizeAll(fs[1..])
  }

  lemma {:induction false} NormalizeAllAt(fs: seq<Field>, i: nat)
    requires i < |fs|
    ensures NormalizeAll(fs)[i] == Normalize(fs[i])
  {
    if i > 0 {
      NormalizeAllAt(fs[1..], i - 1);
    }
  }

  predicate AllNormal(fs: seq<Field>) {
    |fs| == 0 || (IsNormal(fs[0]) && AllNormal(fs[1..]))
  }

  /** The sum of the declared sizes, as the `getSize` methods add them (before 32-bit wrap-around). */
  function SizeSum(sizes: seq<Int32>): int {
    if |sizes| == 0 then 0 else sizes[0] + SizeSum(sizes[1..])
  }

  /** The number of bytes the bodies occupy: only positive sizes count. */
  function PositiveTotal(sizes: seq<Int32>): nat {
    if |sizes| == 0 then 0 else (if sizes[0] > 0 then sizes[0] else 0) + PositiveTotal(sizes[1..])
  }

  lemma {:induction false} BodiesLength(fs: seq<Field>)
    ensures |Bodies(fs)| == PositiveTotal(Sizes(fs))
  {
    if |fs| > 0 {
      BodiesLength(fs[1..]);
    }
  }

  /** When no size is negative the declared sizes add up to the body bytes. */
  lemma {:induction false} SizeSumOfNonNegative(fs: seq<Field>)
    requires forall i :: 0 <= i < |fs| ==> fs[i].size >= 0
    ensures SizeSum(Sizes(fs)) == |Bodies(fs)|
  {
    if |fs| > 0 {
      SizeSumOfNonNegative(fs[1..]);
    }
  }

  /** A negative size makes the declared sum fall short of the body bytes. */
  lemma {:induction false} SizeSumBelowBodies(fs: seq<Field>)
    ensures SizeSum(Sizes(fs)) <= |Bodies(fs)|
    ensures (exists i :: 0 <= i < |fs| && fs[i].size < 0) ==> SizeSum(Sizes(fs)) < |Bodies(fs)|
  {
    if |fs| > 0 {
      SizeSumBelowBodies(fs[1..]);
      if exists i :: 0 <= i < |fs| && fs[i].size < 0 {
        var i :| 0 <= i < |fs| && fs[i].size < 0;
        if i > 0 {
          assert fs[1..][i - 1].size < 0;
        }
      }
    }
  }

  lemma {:induction false} BodiesOfNormalized(fs: seq<Field>)
    ensures Bodies(NormalizeAll(fs)) == Bodies(fs)
    ensures Sizes(NormalizeAll(fs)) == Sizes(fs)
  {
    if |fs| > 0 {
      BodiesOfNormalized(fs[1..]);
    }
  }

  // ---------------------------------------------------------------------------
  // Decoding bodies
  // ---------------------------------------------------------------------------

  /** The field a body block rebuilds at `pos` for `size`: a body only for a positive size. */
  function FieldAt(s: Bytes, pos: nat, size: Int32): (f: Field)
    requires pos <= |s| && (size > 0 ==> pos + size <= |s|)
    ensures f.size == size && IsNormal(f) && At(s, pos, Written(f))
  {
    if size > 0 then LengthPrefixed(size, Some(Span(s, pos, size)))
    else
      AtElementwise(s, pos, []);
      LengthPrefixed(size, None)
  }

  /**
   * One `if (SIZE > 0) { byte[] temp = new byte[SIZE]; buffer.get(temp); ... }`
   * block: a positive size reads that many bytes or underflows; any other size
   * leaves the body null and consumes nothing.
   */
  function ReadField(s: Bytes, pos: nat, size: Int32): (r: Result<(Field, nat)>)
    requires pos <= |s|
    ensures r.Success? <==> size <= 0 || pos + size <= |s|
    ensures r.Failure? ==> r.error == BufferUnderflow
    ensures r.Success? ==>
      var (f, next) := r.value;
      f.size == size && IsNormal(f) && At(s, pos, Written(f)) && next == pos + |Written(f)|
  {
    if size > 0 && pos + size > |s| then Failure(BufferUnderflow)
    else
      var f := FieldAt(s, pos, size);
      Success((f, pos + |Written(f)|))
  }

  /** The fields whose bodies lie back to back from `pos`, for the given sizes. */
  function FieldsAt(s: Bytes, pos: nat, sizes: seq<Int32>): (fs: seq<Field>)
    requires pos + PositiveTotal(sizes) <= |s|
    ensures |fs| == |sizes|
    decreases |sizes|
  {
    if |sizes| == 0 then []
    else
      var f := FieldAt(s, pos, sizes[0]);
      [f] + FieldsAt(s, pos + |Written(f)|, sizes[1..])
  }

  /** `fs` carries `sizes`, is normal, and its bodies are the bytes of `s` from `pos`. */
  predicate LaidOutAt(s: Bytes, pos: nat, sizes: seq<Int32>, fs: seq<Field>) {
    Sizes(fs) == sizes && AllNormal(fs) && At(s, pos, Bodies(fs))
  }

  /** The fields `FieldsAt` yields carry the given sizes, are normal, and their bodies are the bytes there. */
  lemma {:induction false} FieldsAtSpec(s: Bytes, pos: nat, sizes: seq<Int32>)
    requires pos + PositiveTotal(sizes) <= |s|
    ensures LaidOutAt(s, pos, sizes, FieldsAt(s, pos, sizes))
    decreases |sizes|
  {
    if |sizes| == 0 {
      assert FieldsAt(s, pos, sizes) == [];
      AtElementwise(s, pos, []);
    } else {
      var next := pos + |Written(FieldAt(s, pos, sizes[0]))|;
      FieldsAtUnfold(s, pos, sizes);
      FieldsAtSpec(s, next, sizes[1..]);
      FieldsAtCons(s, pos, sizes);
    }
  }

  /** The inductive step of `FieldsAtSpec`: what holds of the run after the first field holds of the whole run. */
  lemma FieldsAtCons(s: Bytes, pos: nat, sizes: seq<Int32>)
    requires pos + PositiveTotal(sizes) <= |s| && |sizes| > 0
    requires var next := pos + |Written(FieldAt(s, pos, sizes[0]))|;
      && next + PositiveTotal(sizes[1..]) <= |s|
      && LaidOutAt(s, next, sizes[1..], FieldsAt(s, next, sizes[1..]))
    ensures LaidOutAt(s, pos, sizes, FieldsAt(s, pos, sizes))
  {
    var f := FieldAt(s, pos, sizes[0]);
    var next := pos + |Written(f)|;
    var tail := FieldsAt(s, next, sizes[1..]);
    assert LaidOutAt(s, next, sizes[1..], tail);
    FieldsStep(s, pos, sizes, f, tail);
    FieldsAtUnfold(s, pos, sizes);
    assert FieldsAt(s, pos, sizes) == [f] + tail;
  }

  /** A non-empty run is its first field followed by the run after that field's body. */
  lemma FieldsAtUnfold(s: Bytes, pos: nat, sizes: seq<Int32>)
    requires pos + PositiveTotal(sizes) <= |s| && |sizes| > 0
    ensures pos + |Written(FieldAt(s, pos, sizes[0]))| + PositiveTotal(sizes[1..]) == pos + PositiveTotal(sizes)
    ensures FieldsAt(s, pos, sizes)
      == [FieldAt(s, pos, sizes[0])] + FieldsAt(s, pos + |Written(FieldAt(s, pos, sizes[0]))|, sizes[1..])
  {
  }

  /** A field at `pos` followed by the rest of the run after it. */
  lemma FieldsStep(s: Bytes, pos: nat, sizes: seq<Int32>, f: Field, tail: seq<Field>)
    requires |sizes| > 0 && f.size == sizes[0] && IsNormal(f) && At(s, pos, Written(f))
    requires LaidOutAt(s, pos + |Written(f)|, sizes[1..], tail)
    ensures LaidOutAt(s, pos, sizes, [f] + tail)
  {
    Cons(f, tail);
    assert sizes == [sizes[0]] + sizes[1..];
    AtConcat(s, pos, Written(f), Bodies(tail));
  }

  /**
   * The body blocks of a record, read in order for the sizes read from its
   * fixed part: it underflows exactly when the positive sizes ask for more
   * bytes than remain (`ReadFieldsSequential` shows it is the blocks one after
   * another).
   */
  function ReadFields(s: Bytes, pos: nat, sizes: seq<Int32>): (r: Result<(seq<Field>, nat)>)
    requires pos <= |s|
    ensures r.Success? <==> pos + PositiveTotal(sizes) <= |s|
    ensures r.Failure? ==> r.error == BufferUnderflow
    ensures r.Success? ==>
      var (fs, next) := r.value;
      Sizes(fs) == sizes && AllNormal(fs)
      && At(s, pos, Bodies(fs)) && next == pos + |Bodies(fs)|
  {
    if pos + PositiveTotal(sizes) > |s| then Failure(BufferUnderflow)
    else
      var fs := FieldsAt(s, pos, sizes);
      FieldsAtSpec(s, pos, sizes);
      BodiesLength(fs);
      Success((fs, pos + PositiveTotal(sizes)))
  }

  /** `ReadFields` is one body block followed by the rest, failing as soon as one fails. */
  lemma ReadFieldsSequential(s: Bytes, pos: nat, sizes: seq<Int32>)
    requires pos <= |s| && |sizes| > 0
    ensures ReadFields(s, pos, sizes) ==
      match ReadField(s, pos, sizes[0])
      case Failure(e) => Failure(e)
      case Success((f, next)) =>
        match ReadFields(s, next, sizes[1..])
        case Failure(e) => Failure(e)
        case Success((tail, last)) => Success(([f] + tail, last))
  {
    assert PositiveTotal(sizes) == (if sizes[0] > 0 then sizes[0] else 0) + PositiveTotal(sizes[1..]);
  }

  /** The run functions on a run that starts with `f`. */
  lemma Cons(f: Field, tail: seq<Field>)
    ensures Sizes([f] + tail) == [f.size] + Sizes(tail)
    ensures AllNormal([f] + tail) <==> IsNormal(f) && AllNormal(tail)
    ensures Bodies([f] + tail) == Written(f) + Bodies(tail)
    ensures NormalizeAll([f] + tail) == [Normalize(f)] + NormalizeAll(tail)
  {
    assert ([f] + tail)[1..] == tail;
  }

  /** Normal fields are determined by their sizes and written bytes. */
  lemma {:induction false} FieldsDetermined(gs: seq<Field>, fs: seq<Field>)
    requires Sizes(gs) == Sizes(fs) && Bodies(gs) == Bodies(fs) && AllNormal(gs)
    ensures gs == NormalizeAll(fs)
  {
    if |gs| > 0 {
      var g, f := gs[0], fs[0];
      assert g.size == Sizes(gs)[0] == Sizes(fs)[0] == f.size;
      assert Sizes(gs[1..]) == Sizes(gs)[1..] == Sizes(fs)[1..] == Sizes(fs[1..]);
      var n := |Written(f)|;
      assert Written(g) == Bodies(gs)[..n] == Bodies(fs)[..n] == Written(f);
      assert Bodies(gs[1..]) == Bodies(gs)[n..] == Bodies(fs)[n..] == Bodies(fs[1..]);
      FieldsDetermined(gs[1..], fs[1..]);
      assert gs == [g] + gs[1..];
    }
  }

  /** Reading back the bodies written at `pos` for their declared sizes rebuilds the normalized fields. */
  lemma ReadFieldsOf(s: Bytes, pos: nat, fs: seq<Field>)
    requires At(s, pos, Bodies(fs))
    ensures ReadFields(s, pos, Sizes(fs)) == Success((NormalizeAll(fs), pos + |Bodies(fs)|))
  {
    BodiesLength(fs);
    var r := ReadFields(s, pos, Sizes(fs));
    assert r.Success?;
    var (gs, next) := r.value;
    BodiesLength(gs);
    AtUnique(s, pos, Bodies(gs), Bodies(fs));
    FieldsDetermined(gs, fs);
    assert r == Success((gs, next));
  }
}
