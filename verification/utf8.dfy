/** UTF-8 as `std::str::from_utf8` accepts it (the well-formed byte sequences of section 3 of
    RFC 3629), with the encoder that `String::into_bytes` inverts. */
module Utf8 {
  import opened Wrappers
  import opened Machine

  predicate IsContinuation(b: Byte) { 0x80 <= b < 0xC0 }

  /** The length of the well-formed sequence at the front of `s`, or 0 when there is none:
      no overlong forms, no surrogates, nothing above U+10FFFF. */
  function SequenceLength(s: seq<Byte>): (n: nat)
    ensures n <= 4 && n <= |s|
    ensures n != 0 ==> |s| > 0
  {
    if |s| == 0 then 0
    else if s[0] < 0x80 then 1
    else if 0xC2 <= s[0] <= 0xDF then
      if |s| >= 2 && IsContinuation(s[1]) then 2 else 0
    else if 0xE0 <= s[0] <= 0xEF then
      if |s| >= 3 && IsContinuation(s[2]) &&
         (if s[0] == 0xE0 then 0xA0 <= s[1] < 0xC0
          else if s[0] == 0xED then 0x80 <= s[1] < 0xA0
          else IsContinuation(s[1]))
      then 3 else 0
    else if 0xF0 <= s[0] <= 0xF4 then
      if |s| >= 4 && IsContinuation(s[2]) && IsContinuation(s[3]) &&
         (if s[0] == 0xF0 then 0x90 <= s[1] < 0xC0
          else if s[0] == 0xF4 then 0x80 <= s[1] < 0x90
          else IsContinuation(s[1]))
      then 4 else 0
    else 0
  }

  predicate IsScalar(n: int) { 0 <= n < 0xD800 || 0xE000 <= n < 0x11_0000 }

  /** The scalar value a well-formed sequence of `n` bytes at the front of `s` encodes. */
  function ScalarAt(s: seq<Byte>, n: nat): (c: char)
    requires n != 0 && n == SequenceLength(s)
  {
    var v: int :=
      if n == 1 then s[0]
      else if n == 2 then Bits(s[0], 0xC0) * 0x40 + Bits(s[1], 0x80)
      else if n == 3 then Bits(s[0], 0xE0) * 0x1000 + Bits(s[1], 0x80) * 0x40 + Bits(s[2], 0x80)
      else Bits(s[0], 0xF0) * 0x4_0000 + Bits(s[1], 0x80) * 0x1000 + Bits(s[2], 0x80) * 0x40 + Bits(s[3], 0x80);
    assert IsScalar(v);
    v as char
  }

  /** The payload bits of a byte whose marker bits read `marker`. */
  function Bits(b: Byte, marker: int): int { b as int - marker }

  /** `std::str::from_utf8`: the decoded string, or `None` at the first ill-formed sequence. */
  function Decode(s: seq<Byte>): Option<string>
    decreases |s|
  {
    if |s| == 0 then Some([])
    else
      var n := SequenceLength(s);
      if n == 0 then None
      else match Decode(s[n..])
        case None => None
        case Some(rest) => Some([ScalarAt(s, n)] + rest)
  }

  /** The UTF-8 bytes of one character. */
  function EncodeChar(c: char): (b: seq<Byte>)
    ensures 1 <= |b| <= 4
  {
    var v := c as int;
    if v < 0x80 then [v]
    else if v < 0x800 then [0xC0 + v / 0x40, 0x80 + v % 0x40]
    else if v < 0x1_0000 then [0xE0 + v / 0x1000, 0x80 + v % 0x1000 / 0x40, 0x80 + v % 0x40]
    else [0xF0 + v / 0x4_0000, 0x80 + v % 0x4_0000 / 0x1000, 0x80 + v % 0x1000 / 0x40, 0x80 + v % 0x40]
  }

  /** `String::into_bytes`. */
  function Encode(t: string): seq<Byte> {
    if |t| == 0 then [] else EncodeChar(t[0]) + Encode(t[1..])
  }

  /** Euclidean division is determined by its quotient-remainder equation. */
  lemma DivMod(v: int, q: int, r: int, d: int)
    requires 0 < d && 0 <= r < d && v == q * d + r
    ensures v / d == q && v % d == r
  {
    var q', r' := v / d, v % d;
    assert (q' - q) * d == r - r' by {
      assert (q' - q) * d == q' * d - q * d;
    }
    if q' > q {
      MulAtLeast(q' - q, d);
    } else if q' < q {
      MulAtLeast(q - q', d);
    }
  }

  lemma {:induction false} MulAtLeast(k: int, d: int)
    requires k >= 1 && d > 0
    ensures k * d >= d
    decreases k
  {
    if k > 1 {
      MulAtLeast(k - 1, d);
      assert k * d == (k - 1) * d + d;
    }
  }

  /** The digits of a value in base 64 with the given number of places. */
  lemma Digits3(v: int, a: int, b: int, c: int)
    requires 0 <= b < 0x40 && 0 <= c < 0x40 && v == a * 0x1000 + b * 0x40 + c
    ensures v / 0x1000 == a && v % 0x1000 / 0x40 == b && v % 0x40 == c
  {
    DivMod(v, a, b * 0x40 + c, 0x1000);
    DivMod(b * 0x40 + c, b, c, 0x40);
    DivMod(v, a * 0x40 + b, c, 0x40);
  }

  lemma Digits4(v: int, a: int, b: int, c: int, d: int)
    requires 0 <= b < 0x40 && 0 <= c < 0x40 && 0 <= d < 0x40
    requires v == a * 0x4_0000 + b * 0x1000 + c * 0x40 + d
    ensures v / 0x4_0000 == a && v % 0x4_0000 / 0x1000 == b && v % 0x1000 / 0x40 == c && v % 0x40 == d
  {
    DivMod(v, a, b * 0x1000 + c * 0x40 + d, 0x4_0000);
    DivMod(b * 0x1000 + c * 0x40 + d, b, c * 0x40 + d, 0x1000);
    DivMod(v, a * 0x40 + b, c * 0x40 + d, 0x1000);
    DivMod(c * 0x40 + d, c, d, 0x40);
    DivMod(v, a * 0x1000 + b * 0x40 + c, d, 0x40);
  }

  /** One character's bytes are read back as that character, whatever follows them. */
  lemma DecodeChar(c: char, rest: seq<Byte>)
    ensures var b := EncodeChar(c);
            SequenceLength(b + rest) == |b| && ScalarAt(b + rest, |b|) == c
  {
    var v := c as int;
    if 0x80 <= v < 0x800 {
      DivMod(v, v / 0x40, v % 0x40, 0x40);
    } else if 0x800 <= v < 0x1_0000 {
      var a, m := v / 0x1000, v % 0x1000;
      var b, d := m / 0x40, m % 0x40;
      DivMod(v, a * 0x40 + b, d, 0x40);
      Digits3(v, a, b, d);
    } else if 0x1_0000 <= v {
      var a, m := v / 0x4_0000, v % 0x4_0000;
      var b, m2 := m / 0x1000, m % 0x1000;
      var e, d := m2 / 0x40, m2 % 0x40;
      Digits4(v, a, b, e, d);
    }
  }

  /** A well-formed sequence is exactly the encoding of the character it decodes to. */
  lemma EncodeScalar(s: seq<Byte>, n: nat)
    requires n != 0 && n == SequenceLength(s)
    ensures EncodeChar(ScalarAt(s, n)) == s[..n]
  {
    var v := ScalarAt(s, n) as int;
    if n == 2 {
      DivMod(v, Bits(s[0], 0xC0), Bits(s[1], 0x80), 0x40);
    } else if n == 3 {
      Digits3(v, Bits(s[0], 0xE0), Bits(s[1], 0x80), Bits(s[2], 0x80));
    } else if n == 4 {
      Digits4(v, Bits(s[0], 0xF0), Bits(s[1], 0x80), Bits(s[2], 0x80), Bits(s[3], 0x80));
    }
  }

  /** Every string survives encoding and decoding. */
  lemma {:induction false} DecodeEncode(t: string)
    ensures Decode(Encode(t)) == Some(t)
  {
    if |t| > 0 {
      var b := EncodeChar(t[0]);
      var s := Encode(t);
      assert s == b + Encode(t[1..]);
      DecodeChar(t[0], Encode(t[1..]));
      assert s[|b|..] == Encode(t[1..]);
      DecodeEncode(t[1..]);
      assert Decode(s) == Some([t[0]] + t[1..]);
      assert [t[0]] + t[1..] == t;
    }
  }

  /** Whatever decodes is the encoding of what it decodes to. */
  lemma {:induction false} DecodedEncodes(s: seq<Byte>)
    ensures Decode(s).Some? ==> Encode(Decode(s).value) == s
    decreases |s|
  {
    if |s| > 0 && Decode(s).Some? {
      var n := DecodeStep(s);
      var c := ScalarAt(s, n);
      var rest := Decode(s[n..]).value;
      DecodedEncodes(s[n..]);
      EncodeScalar(s, n);
      EncodeCons(c, rest);
      assert s == s[..n] + s[n..];
    }
  }

  /** One step of a successful decode: a well-formed sequence, then a decodable rest. */
  lemma DecodeStep(s: seq<Byte>) returns (n: nat)
    requires |s| > 0 && Decode(s).Some?
    ensures n == SequenceLength(s) && n != 0
    ensures Decode(s[n..]).Some? && Decode(s) == Some([ScalarAt(s, n)] + Decode(s[n..]).value)
  {
    n := SequenceLength(s);
  }

  lemma EncodeCons(c: char, rest: string)
    ensures Encode([c] + rest) == EncodeChar(c) + Encode(rest)
  {
    assert ([c] + rest)[1..] == rest;
  }

  /** `from_utf8` succeeds exactly on the byte strings that are the encoding of a string. */
  lemma EncodeDecode(s: seq<Byte>)
    ensures Decode(s).Some? <==> exists t :: Encode(t) == s
    ensures Decode(s).Some? ==> Encode(Decode(s).value) == s
  {
    DecodedEncodes(s);
    if exists t :: Encode(t) == s {
      var t :| Encode(t) == s;
      DecodeEncode(t);
    }
  }

  /** `Decode` is total on the bytes of a string and distinguishes strings by their bytes. */
  lemma EncodeInjective(t1: string, t2: string)
    requires Encode(t1) == Encode(t2)
    ensures t1 == t2
  {
    DecodeEncode(t1);
    DecodeEncode(t2);
  }

  /** The bytes of two strings side by side are the bytes of the joined string. */
  lemma {:induction false} EncodeAppend(a: string, b: string)
    ensures Encode(a + b) == Encode(a) + Encode(b)
  {
    if |a| > 0 {
      assert (a + b)[1..] == a[1..] + b;
      EncodeAppend(a[1..], b);
    } else {
      assert a + b == b;
    }
  }
}
