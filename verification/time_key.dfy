/** The primary key of the time-keyed clip tables (daemon/database/schema.rs and
    app/src/database/schema.rs): a `DateTime` stored as the 8 big-endian bytes of its
    nanosecond timestamp, or of its microsecond timestamp when the nanoseconds do not fit
    an i64. Keys compare as byte strings. */
module TimeKey {
  import opened Wrappers
  import opened Machine

  /** A `chrono::DateTime<Local>`, as the number of nanoseconds since the Unix epoch. */
  datatype DateTime = DateTime(nanos: int)

  /** Every chrono date lies in this range: its microsecond timestamp fits an i64. */
  ghost predicate InChronoRange(t: DateTime) {
    I64_MIN <= t.nanos / 1000 <= I64_MAX
  }

  /** `timestamp_nanos_opt`: `None` outside roughly the years 1677 to 2262. */
  function TimestampNanosOpt(t: DateTime): (r: Option<I64>)
    ensures r.Some? <==> I64_MIN <= t.nanos <= I64_MAX
    ensures r.Some? ==> r.value == t.nanos
  {
    if I64_MIN <= t.nanos <= I64_MAX then Some(t.nanos) else None
  }

  /** `timestamp_micros`, rounded towards the past like chrono's (seconds floored, then the
      sub-second nanoseconds divided). */
  function TimestampMicros(t: DateTime): (r: I64)
    requires InChronoRange(t)
    ensures r * 1000 <= t.nanos < r * 1000 + 1000
  {
    t.nanos / 1000
  }

  // ---------------------------------------------------------------------------
  // Big-endian bytes.
  // ---------------------------------------------------------------------------

  function Pow256(width: nat): (p: nat)
    ensures p > 0
  {
    if width == 0 then 1 else 256 * Pow256(width - 1)
  }

  /** The low `width` bytes of `u`, most significant first. */
  function ToBytes(u: nat, width: nat): (b: seq<Byte>)
    ensures |b| == width
  {
    if width == 0 then [] else ToBytes(u / 256, width - 1) + [u % 256]
  }

  /** The value of big-endian bytes. */
  function FromBytes(b: seq<Byte>): (u: nat)
    ensures u < Pow256(|b|)
  {
    if |b| == 0 then 0 else FromBytes(b[..|b| - 1]) * 256 + b[|b| - 1]
  }

  /** Reading back the bytes of a value that fits gives the value. */
  lemma {:induction false} FromToBytes(u: nat, width: nat)
    requires u < Pow256(width)
    ensures FromBytes(ToBytes(u, width)) == u
  {
    if width > 0 {
      var b := ToBytes(u, width);
      assert b[..width - 1] == ToBytes(u / 256, width - 1);
      FromToBytes(u / 256, width - 1);
    }
  }

  /** Writing out the value of some bytes gives those bytes. */
  lemma {:induction false} ToFromBytes(b: seq<Byte>)
    ensures ToBytes(FromBytes(b), |b|) == b
  {
    if |b| > 0 {
      var u := FromBytes(b);
      var hi := FromBytes(b[..|b| - 1]);
      assert u / 256 == hi && u % 256 == b[|b| - 1];
      ToFromBytes(b[..|b| - 1]);
      assert b == b[..|b| - 1] + [b[|b| - 1]];
    }
  }

  /** `i64::to_be_bytes`: two's complement, most significant byte first. */
  function I64ToBeBytes(v: I64): (b: seq<Byte>)
    ensures |b| == 8
  {
    ToBytes(if v < 0 then v + U64_LIMIT else v, 8)
  }

  /** `i64::from_be_bytes`. */
  function I64FromBeBytes(b: seq<Byte>): I64
    requires |b| == 8
  {
    assert Pow256(8) == U64_LIMIT;
    var u := FromBytes(b);
    if u <= I64_MAX then u else u - U64_LIMIT
  }

  lemma I64BytesRoundTrip(v: I64)
    ensures I64FromBeBytes(I64ToBeBytes(v)) == v
  {
    assert Pow256(8) == U64_LIMIT;
    FromToBytes(if v < 0 then v + U64_LIMIT else v, 8);
  }

  /** `DateTime::to_key`: the 8 big-endian bytes of the nanosecond timestamp, or of the
      microsecond one when the nanoseconds overflow. Decoding the key gives back the
      timestamp that was encoded. */
  function ToKey(t: DateTime): (k: seq<Byte>)
    requires InChronoRange(t)
    ensures |k| == 8
    ensures I64FromBeBytes(k) == if I64_MIN <= t.nanos <= I64_MAX then t.nanos else t.nanos / 1000
  {
    var stamp := match TimestampNanosOpt(t)
      case Some(n) => n
      case None => TimestampMicros(t);
    I64BytesRoundTrip(stamp);
    I64ToBeBytes(stamp)
  }

  // ---------------------------------------------------------------------------
  // Key order.
  // ---------------------------------------------------------------------------

  /** Byte-string order, as the table compares keys of equal length. */
  predicate LexLess(a: seq<Byte>, b: seq<Byte>) {
    |a| > 0 && |b| > 0 && (a[0] < b[0] || (a[0] == b[0] && LexLess(a[1..], b[1..])))
  }

  lemma {:induction false} LexLessIrreflexive(a: seq<Byte>)
    ensures !LexLess(a, a)
  {
    if |a| > 0 {
      LexLessIrreflexive(a[1..]);
    }
  }

  lemma {:induction false} LexLessAsymmetric(a: seq<Byte>, b: seq<Byte>)
    requires LexLess(a, b)
    ensures !LexLess(b, a)
  {
    if a[0] == b[0] {
      LexLessAsymmetric(a[1..], b[1..]);
    }
  }

  /** Appending a byte to each of two keys of equal length keeps their order, or breaks a tie
      by the appended bytes. */
  lemma {:induction false} LexLessAppend(a: seq<Byte>, b: seq<Byte>, x: Byte, y: Byte)
    requires |a| == |b|
    requires LexLess(a, b) || (a == b && x < y)
    ensures LexLess(a + [x], b + [y])
  {
    if |a| > 0 {
      assert (a + [x])[1..] == a[1..] + [x] && (b + [y])[1..] == b[1..] + [y];
      if a[0] == b[0] {
        LexLessAppend(a[1..], b[1..], x, y);
      }
    }
  }

  /** Big-endian bytes of equal width sort like the numbers they encode. */
  lemma {:induction false} ToBytesOrder(u: nat, v: nat, width: nat)
    requires u < v < Pow256(width)
    ensures LexLess(ToBytes(u, width), ToBytes(v, width))
  {
    var qu, qv := u / 256, v / 256;
    assert qv < Pow256(width - 1);
    if qu < qv {
      ToBytesOrder(qu, qv, width - 1);
    }
    LexLessAppend(ToBytes(qu, width - 1), ToBytes(qv, width - 1), u % 256, v % 256);
  }

  /** For timestamps from 1970 to 2262, key order is time order, in both directions: this is
      what makes a primary-key scan chronological. */
  lemma KeyOrder(a: DateTime, b: DateTime)
    requires 0 <= a.nanos <= I64_MAX && 0 <= b.nanos <= I64_MAX
    ensures LexLess(ToKey(a), ToKey(b)) <==> a.nanos < b.nanos
  {
    assert Pow256(8) == U64_LIMIT;
    if a.nanos < b.nanos {
      ToBytesOrder(a.nanos, b.nanos, 8);
    } else if a.nanos == b.nanos {
      LexLessIrreflexive(ToKey(a));
    } else {
      ToBytesOrder(b.nanos, a.nanos, 8);
      LexLessAsymmetric(ToKey(b), ToKey(a));
    }
  }

  /** A time before 1970 has a negative timestamp, whose two's-complement key sorts after
      every key of a later time: a scan meets such clips last. */
  lemma NegativeKeysSortLast(a: DateTime, b: DateTime)
    requires I64_MIN <= a.nanos < 0 <= b.nanos <= I64_MAX
    ensures LexLess(ToKey(b), ToKey(a))
  {
    assert Pow256(8) == U64_LIMIT;
    ToBytesOrder(b.nanos, a.nanos + U64_LIMIT, 8);
  }

  /** `DateTime::into_inner` and `From<chrono::DateTime>`: wrapping and unwrapping. */
  function IntoInner(t: DateTime): (nanos: int)
    ensures DateTime(nanos) == t
  {
    t.nanos
  }
}
