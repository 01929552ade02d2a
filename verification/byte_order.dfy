/**
 * Big-endian, two's-complement integers over byte sequences, and the small
 * buffer vocabulary (`At`, `Allocate`) that every codec in the model shares.
 *
 * Java's `int`, `short` and `byte` are modelled as subset types of `int`;
 * `ByteBuffer` is modelled as an immutable byte sequence plus an explicit cursor.
 */
module ByteOrder {
  import opened Wrappers

  /** An octet as stored in a Java `byte[]`, read unsigned. */
  newtype byte = x: int | 0 <= x < 0x100
  type Bytes = seq<byte>

  const TWO_31: int := 0x8000_0000
  const TWO_32: int := 0x1_0000_0000

  /** Java `int`. */
  type Int32 = x: int | -0x8000_0000 <= x < 0x8000_0000
  /** Java `short`. */
  type Int16 = x: int | -0x8000 <= x < 0x8000
  /** Java `byte`. */
  type Int8 = x: int | -0x80 <= x < 0x80

  /** Java's `int` arithmetic: the unbounded value reduced modulo 2^32 into the signed range. */
  function Wrap32(x: int): (r: Int32)
    ensures (r - x) % TWO_32 == 0
    ensures -TWO_31 <= x < TWO_31 ==> r == x
  {
    (x + TWO_31) % TWO_32 - TWO_31
  }

  // ---------------------------------------------------------------------------
  // Big-endian two's complement (what putInt/putShort/put write and
  // getInt/getShort/get read)
  // ---------------------------------------------------------------------------

  function Int32Bytes(x: Int32): (b: Bytes)
    ensures |b| == 4
  {
    var u := if x < 0 then x + TWO_32 else x;
    var u1 := u / 0x100;
    var u2 := u1 / 0x100;
    [(u2 / 0x100) as byte, (u2 % 0x100) as byte, (u1 % 0x100) as byte, (u % 0x100) as byte]
  }

  /** Division of `q * 256 + r` by 256, for a digit `r`. */
  lemma Div256(q: int, r: int)
    requires 0 <= r < 0x100
    ensures (q * 0x100 + r) / 0x100 == q && (q * 0x100 + r) % 0x100 == r
  {
  }

  /** The int with bytes `b0 b1 b2 b3`, most significant first. */
  function Int32Of(b0: byte, b1: byte, b2: byte, b3: byte): (x: Int32)
    ensures Int32Bytes(x) == [b0, b1, b2, b3]
  {
    var u2 := b0 as int * 0x100 + b1 as int;
    var u1 := u2 * 0x100 + b2 as int;
    var u := u1 * 0x100 + b3 as int;
    Div256(u1, b3 as int);
    Div256(u2, b2 as int);
    Div256(b0 as int, b1 as int);
    if u >= TWO_31 then u - TWO_32 else u
  }

  function Int16Bytes(x: Int16): (b: Bytes)
    ensures |b| == 2
  {
    var u := if x < 0 then x + 0x1_0000 else x;
    [(u / 0x100) as byte, (u % 0x100) as byte]
  }

  function Int16Of(b0: byte, b1: byte): (x: Int16)
    ensures Int16Bytes(x) == [b0, b1]
  {
    var u := b0 as int * 0x100 + b1 as int;
    if u >= 0x8000 then u - 0x1_0000 else u
  }

  function Int8Bytes(x: Int8): (b: Bytes)
    ensures |b| == 1
  {
    [(if x < 0 then x + 0x100 else x) as byte]
  }

  /** `get()`: the signed value of one byte, the inverse of `Int8Bytes`. */
  function Int8Of(b: byte): (x: Int8)
    ensures Int8Bytes(x) == [b]
  {
    if b >= 0x80 then b as int - 0x100 else b as int
  }

  /** `put(byte)` loses nothing: a byte's value reads back from its encoding. */
  lemma Int8OfBytes(x: Int8)
    ensures Int8Of(Int8Bytes(x)[0]) == x
  {
  }

  /** Reading back the four bytes of an int yields the int. */
  lemma Int32OfBytes(x: Int32)
    ensures var b := Int32Bytes(x); Int32Of(b[0], b[1], b[2], b[3]) == x
  {
    var u := if x < 0 then x + TWO_32 else x;
    var u1 := u / 0x100;
    var u2 := u1 / 0x100;
    assert u == u1 * 0x100 + u % 0x100;
    assert u1 == u2 * 0x100 + u1 % 0x100;
    assert u2 == (u2 / 0x100) * 0x100 + u2 % 0x100;
  }

  /** Two Java ints with the same four bytes are equal: the encoding loses nothing. */
  lemma Int32BytesInjective(x: Int32, y: Int32)
    requires Int32Bytes(x) == Int32Bytes(y)
    ensures x == y
  {
    Int32OfBytes(x);
    Int32OfBytes(y);
  }

  lemma Int16BytesInjective(x: Int16, y: Int16)
    requires Int16Bytes(x) == Int16Bytes(y)
    ensures x == y
  {
  }

  // ---------------------------------------------------------------------------
  // Positions in a buffer
  // ---------------------------------------------------------------------------

  /**
   * `x` occurs in `s` starting at index `pos`. Compared byte by byte through
   * `MatchesFrom` so that the verifier unfolds the comparison only as far as a
   * proof asks; `AtElementwise` states it as a quantifier.
   */
  predicate At(s: Bytes, pos: nat, x: Bytes) {
    pos + |x| <= |s| && MatchesFrom(s, pos, x, 0)
  }

  /** Bytes `i` onwards of `x` agree with those of `s` from `pos + i`. */
  predicate MatchesFrom(s: Bytes, pos: nat, x: Bytes, i: nat)
    decreases |x| - i
  {
    i >= |x| || (pos + i < |s| && s[pos + i] == x[i] && MatchesFrom(s, pos, x, i + 1))
  }

  lemma {:induction false} MatchesFromElementwise(s: Bytes, pos: nat, x: Bytes, i: nat)
    requires pos + |x| <= |s|
    ensures MatchesFrom(s, pos, x, i) <==> forall j :: i <= j < |x| ==> s[pos + j] == x[j]
    decreases |x| - i
  {
    if i < |x| {
      MatchesFromElementwise(s, pos, x, i + 1);
    }
  }

  lemma AtElementwise(s: Bytes, pos: nat, x: Bytes)
    ensures At(s, pos, x) <==> pos + |x| <= |s| && forall i :: 0 <= i < |x| ==> s[pos + i] == x[i]
  {
    if pos + |x| <= |s| {
      MatchesFromElementwise(s, pos, x, 0);
    }
  }

  lemma AtConcat(s: Bytes, pos: nat, a: Bytes, b: Bytes)
    ensures At(s, pos, a + b) <==> At(s, pos, a) && At(s, pos + |a|, b)
  {
    AtElementwise(s, pos, a + b);
    AtElementwise(s, pos, a);
    AtElementwise(s, pos + |a|, b);
    if At(s, pos, a + b) {
      forall i | 0 <= i < |a|
        ensures s[pos + i] == a[i]
      {
        assert (a + b)[i] == a[i];
      }
      forall i | 0 <= i < |b|
        ensures s[pos + |a| + i] == b[i]
      {
        assert (a + b)[|a| + i] == b[i];
      }
    }
    if At(s, pos, a) && At(s, pos + |a|, b) {
      forall i | 0 <= i < |a + b|
        ensures s[pos + i] == (a + b)[i]
      {
        if i >= |a| {
          assert s[pos + |a| + (i - |a|)] == b[i - |a|];
        }
      }
    }
  }

  /** A string occurs in itself at position 0. */
  lemma AtSelf(s: Bytes)
    ensures At(s, 0, s)
  {
    AtElementwise(s, 0, s);
  }

  /** Two strings of the same length at the same position are the same string. */
  lemma AtUnique(s: Bytes, pos: nat, x: Bytes, y: Bytes)
    requires At(s, pos, x) && At(s, pos, y) && |x| == |y|
    ensures x == y
  {
    AtElementwise(s, pos, x);
    AtElementwise(s, pos, y);
    assert forall i :: 0 <= i < |x| ==> x[i] == s[pos + i] == y[i];
  }

  /** The `n` bytes at `pos`: what a bulk `get(byte[n])` copies out. */
  function Span(s: Bytes, pos: nat, n: nat): (r: Bytes)
    requires pos + n <= |s|
    ensures |r| == n && At(s, pos, r)
    decreases n
  {
    if n == 0 then [] else
      var rest := Span(s, pos + 1, n - 1);
      var r := [s[pos]] + rest;
      AtElementwise(s, pos + 1, rest);
      AtElementwise(s, pos, r);
      assert forall i :: 1 <= i < n ==> r[i] == rest[i - 1];
      r
  }

  /** An occurrence inside an occurrence: `x` at `k` in `e`, and `e` at `pos` in `s`. */
  lemma AtWithin(s: Bytes, pos: nat, e: Bytes, k: nat, x: Bytes)
    requires At(s, pos, e) && At(e, k, x)
    ensures At(s, pos + k, x)
  {
    AtElementwise(s, pos, e);
    AtElementwise(e, k, x);
    AtElementwise(s, pos + k, x);
    forall i | 0 <= i < |x|
      ensures s[pos + k + i] == x[i]
    {
      assert e[k + i] == x[i];
    }
  }

  /** What occurs at `pos + k` in `s` occurs at `k` in the suffix `s[pos..]` (a `ByteBuffer.slice()`). */
  lemma AtSlice(s: Bytes, pos: nat, k: nat, x: Bytes)
    requires pos <= |s|
    ensures At(s, pos + k, x) <==> At(s[pos..], k, x)
  {
    AtElementwise(s, pos + k, x);
    AtElementwise(s[pos..], k, x);
    if At(s[pos..], k, x) {
      forall i | 0 <= i < |x|
        ensures s[pos + k + i] == x[i]
      {
        assert s[pos..][k + i] == x[i];
      }
    }
  }

  /** The int whose four bytes start at `pos`: what an absolute `getInt(pos)` returns. */
  function Int32At(s: Bytes, pos: nat): (x: Int32)
    requires pos + 4 <= |s|
    ensures At(s, pos, Int32Bytes(x))
  {
    var x := Int32Of(s[pos], s[pos + 1], s[pos + 2], s[pos + 3]);
    AtElementwise(s, pos, Int32Bytes(x));
    x
  }

  /** The short whose two bytes start at `pos`: what an absolute `getShort(pos)` returns. */
  function Int16At(s: Bytes, pos: nat): (x: Int16)
    requires pos + 2 <= |s|
    ensures At(s, pos, Int16Bytes(x))
  {
    var x := Int16Of(s[pos], s[pos + 1]);
    AtElementwise(s, pos, Int16Bytes(x));
    x
  }

  // ---------------------------------------------------------------------------
  // Relative reads (ByteBuffer.getInt / getShort at the cursor)
  // ---------------------------------------------------------------------------

  /** `getInt()`: reads four bytes at the cursor and advances it; underflows when fewer remain. */
  function ReadInt32(s: Bytes, pos: nat): (r: Result<(Int32, nat)>)
    ensures r.Success? <==> pos + 4 <= |s|
    ensures r.Failure? ==> r.error == BufferUnderflow
    ensures r.Success? ==> At(s, pos, Int32Bytes(r.value.0)) && r.value.1 == pos + 4
  {
    if pos + 4 > |s| then Failure(BufferUnderflow) else Success((Int32At(s, pos), pos + 4))
  }

  /** `getShort()`: reads two bytes at the cursor and advances it; underflows when fewer remain. */
  function ReadInt16(s: Bytes, pos: nat): (r: Result<(Int16, nat)>)
    ensures r.Success? <==> pos + 2 <= |s|
    ensures r.Failure? ==> r.error == BufferUnderflow
    ensures r.Success? ==> At(s, pos, Int16Bytes(r.value.0)) && r.value.1 == pos + 2
  {
    if pos + 2 > |s| then Failure(BufferUnderflow) else Success((Int16At(s, pos), pos + 2))
  }

  /** A run of consecutive `putInt` calls. */
  function Int32sBytes(xs: seq<Int32>): (b: Bytes)
    ensures |b| == 4 * |xs|
  {
    if |xs| == 0 then [] else Int32Bytes(xs[0]) + Int32sBytes(xs[1..])
  }

  /** The `count` ints stored back to back from `pos`. */
  function Int32sAt(s: Bytes, pos: nat, count: nat): (xs: seq<Int32>)
    requires pos + 4 * count <= |s|
    ensures |xs| == count
    decreases count, |s| - pos
  {
    if count == 0 then [] else [Int32At(s, pos)] + Int32sAt(s, pos + 4, count - 1)
  }

  /** The bytes of the ints `Int32sAt` yields are the bytes stored there. */
  lemma {:induction false} Int32sAtBytes(s: Bytes, pos: nat, count: nat)
    requires pos + 4 * count <= |s|
    ensures At(s, pos, Int32sBytes(Int32sAt(s, pos, count)))
    decreases count
  {
    var xs := Int32sAt(s, pos, count);
    if count == 0 {
      AtElementwise(s, pos, []);
    } else {
      var rest := Int32sAt(s, pos + 4, count - 1);
      Int32sAtBytes(s, pos + 4, count - 1);
      assert xs[1..] == rest;
      AtConcat(s, pos, Int32Bytes(xs[0]), Int32sBytes(rest));
    }
  }

  /**
   * A run of `count` consecutive `getInt` calls: it underflows exactly when
   * fewer than `4 * count` bytes remain (`ReadInt32sSequential` shows it is
   * the calls one after another).
   */
  function ReadInt32s(s: Bytes, pos: nat, count: nat): (r: Result<(seq<Int32>, nat)>)
    ensures r.Success? <==> pos + 4 * count <= |s|
    ensures r.Failure? ==> r.error == BufferUnderflow
    ensures r.Success? ==>
      |r.value.0| == count && r.value.1 == pos + 4 * count && At(s, pos, Int32sBytes(r.value.0))
  {
    if pos + 4 * count > |s| then Failure(BufferUnderflow)
    else
      Int32sAtBytes(s, pos, count);
      Success((Int32sAt(s, pos, count), pos + 4 * count))
  }

  /** `ReadInt32s` is one `getInt` followed by the rest of the run, failing as soon as one fails. */
  lemma ReadInt32sSequential(s: Bytes, pos: nat, count: nat)
    requires count > 0
    ensures ReadInt32s(s, pos, count) ==
      match ReadInt32(s, pos)
      case Failure(e) => Failure(e)
      case Success((x, next)) =>
        match ReadInt32s(s, next, count - 1)
        case Failure(e) => Failure(e)
        case Success((rest, last)) => Success(([x] + rest, last))
  {
  }

  lemma {:induction false} Int32sBytesInjective(xs: seq<Int32>, ys: seq<Int32>)
    requires |xs| == |ys| && Int32sBytes(xs) == Int32sBytes(ys)
    ensures xs == ys
  {
    if |xs| > 0 {
      var a := Int32sBytes(xs);
      assert a[..4] == Int32Bytes(xs[0]) && a[4..] == Int32sBytes(xs[1..]);
      assert Int32sBytes(ys)[..4] == Int32Bytes(ys[0]) && Int32sBytes(ys)[4..] == Int32sBytes(ys[1..]);
      Int32BytesInjective(xs[0], ys[0]);
      Int32sBytesInjective(xs[1..], ys[1..]);
      assert xs == [xs[0]] + xs[1..];
      assert ys == [ys[0]] + ys[1..];
    }
  }

  /** Reading back an int written at `pos` yields that int. */
  lemma ReadInt32Of(s: Bytes, pos: nat, x: Int32)
    requires At(s, pos, Int32Bytes(x))
    ensures ReadInt32(s, pos) == Success((x, pos + 4))
  {
    var y := ReadInt32(s, pos).value.0;
    AtUnique(s, pos, Int32Bytes(y), Int32Bytes(x));
    Int32BytesInjective(y, x);
  }

  /** Reading back a short written at `pos` yields that short. */
  lemma ReadInt16Of(s: Bytes, pos: nat, x: Int16)
    requires At(s, pos, Int16Bytes(x))
    ensures ReadInt16(s, pos) == Success((x, pos + 2))
  {
    var y := ReadInt16(s, pos).value.0;
    AtUnique(s, pos, Int16Bytes(y), Int16Bytes(x));
    Int16BytesInjective(y, x);
  }

  /** The ints stored at `pos` are the ones whose bytes occur there. */
  lemma Int32sAtOf(s: Bytes, pos: nat, xs: seq<Int32>)
    requires At(s, pos, Int32sBytes(xs))
    ensures pos + 4 * |xs| <= |s| && Int32sAt(s, pos, |xs|) == xs
  {
    var ys := Int32sAt(s, pos, |xs|);
    Int32sAtBytes(s, pos, |xs|);
    AtUnique(s, pos, Int32sBytes(ys), Int32sBytes(xs));
    Int32sBytesInjective(ys, xs);
  }

  /** Reading back a run of ints that was written at `pos` yields exactly those ints. */
  lemma ReadInt32sOf(s: Bytes, pos: nat, xs: seq<Int32>)
    requires At(s, pos, Int32sBytes(xs))
    ensures ReadInt32s(s, pos, |xs|) == Success((xs, pos + 4 * |xs|))
  {
    Int32sAtOf(s, pos, xs);
  }

  /** A run of zero ints is written as zero bytes. */
  lemma {:induction false} ZeroInts(n: nat, i: nat)
    requires i < 4 * n
    ensures Int32sBytes(seq(n, _ => 0))[i] == 0
  {
    assert Int32Bytes(0) == [0, 0, 0, 0];
    var zs: seq<Int32> := seq(n, _ => 0);
    assert zs[1..] == seq(n - 1, _ => 0);
    if i >= 4 {
      ZeroInts(n - 1, i - 4);
    }
  }

  // ---------------------------------------------------------------------------
  // ByteBuffer.allocate followed by puts
  // ---------------------------------------------------------------------------

  function Zeros(n: nat): (z: Bytes)
    ensures |z| == n && forall i :: 0 <= i < n ==> z[i] == 0
  {
    seq(n, _ => 0)
  }

  /**
   * `ByteBuffer.allocate(capacity)` followed by puts of `written`, then the
   * backing array: a negative capacity is an illegal argument, writing past the
   * capacity overflows, and unwritten bytes stay zero.
   */
  function Allocate(capacity: Int32, written: Bytes): (r: Result<Bytes>)
    ensures r.Success? <==> 0 <= capacity && |written| <= capacity
    ensures capacity < 0 ==> r == Failure(IllegalArgument)
    ensures 0 <= capacity < |written| ==> r == Failure(BufferOverflow)
    ensures r.Success? ==>
      |r.value| == capacity && At(r.value, 0, written)
      && forall i :: |written| <= i < |r.value| ==> r.value[i] == 0
  {
    if capacity < 0 then Failure(IllegalArgument)
    else if |written| > capacity then Failure(BufferOverflow)
    else
      var out := written + Zeros(capacity - |written|);
      AtElementwise(out, 0, written);
      Success(out)
  }
}
