/** The byte and string helpers shared by both command-line snapshots: `trim` strips ASCII
    whitespace from both ends of a payload, `truncate` keeps a string's first characters.
    (app/src/utils/formatting.rs and src/utils/text.rs hold the same two definitions.) */
module Text {
  import opened Wrappers
  import opened Machine
  import opened Utf8

  /** `u8::is_ascii_whitespace`: space, tab, line feed, form feed and carriage return. The
      vertical tab (0x0B) is not among them. */
  predicate IsAsciiWhitespace(b: Byte) {
    b == 0x20 || b == 0x09 || b == 0x0A || b == 0x0C || b == 0x0D
  }

  ghost predicate AllWhitespace(s: seq<Byte>) {
    forall j :: 0 <= j < |s| ==> IsAsciiWhitespace(s[j])
  }

  /** `s.iter().position(|c| !c.is_ascii_whitespace())`. */
  function Position(s: seq<Byte>): (r: Option<nat>)
    ensures r.Some? ==> r.value < |s| && !IsAsciiWhitespace(s[r.value]) && AllWhitespace(s[..r.value])
    ensures r.None? ==> AllWhitespace(s)
  {
    if |s| == 0 then None
    else if !IsAsciiWhitespace(s[0]) then Some(0)
    else match Position(s[1..])
      case None => None
      case Some(i) => assert s[..i + 1] == [s[0]] + s[1..][..i]; Some(i + 1)
  }

  /** `s.iter().rposition(|c| !c.is_ascii_whitespace())`. */
  function RPosition(s: seq<Byte>): (r: Option<nat>)
    ensures r.Some? ==> r.value < |s| && !IsAsciiWhitespace(s[r.value]) && AllWhitespace(s[r.value + 1..])
    ensures r.None? ==> AllWhitespace(s)
  {
    if |s| == 0 then None
    else if !IsAsciiWhitespace(s[|s| - 1]) then Some(|s| - 1)
    else match RPosition(s[..|s| - 1])
      case None => None
      case Some(i) => assert s[i + 1..] == s[..|s| - 1][i + 1..] + [s[|s| - 1]]; Some(i)
  }

  /** `trim(s)`: the slice from the first to the last byte that is not ASCII whitespace, or
      the empty slice when there is none. It is a contiguous part of `s` with only whitespace
      cut off on either side, it begins and ends with a non-whitespace byte, and it is empty
      exactly for all-whitespace input. */
  function Trim(s: seq<Byte>): (r: seq<Byte>)
    ensures |r| <= |s|
    ensures exists from :: 0 <= from <= |s| - |r| && r == s[from..from + |r|]
                           && AllWhitespace(s[..from]) && AllWhitespace(s[from + |r|..])
    ensures |r| > 0 ==> !IsAsciiWhitespace(r[0]) && !IsAsciiWhitespace(r[|r| - 1])
    ensures |r| == 0 <==> AllWhitespace(s)
  {
    match Position(s)
    case None =>
      assert s[..|s|] == s;
      []
    case Some(from) =>
      var to := RPosition(s).value + 1;
      s[from..to]
  }

  /** `trim` cuts exactly the leading and trailing whitespace: it is the slice `s[from..to]`
      with only whitespace outside it and, when non-empty, non-whitespace at both ends. */
  lemma TrimBounds(s: seq<Byte>) returns (from: nat, to: nat)
    ensures from <= to <= |s| && Trim(s) == s[from..to]
    ensures AllWhitespace(s[..from]) && AllWhitespace(s[to..])
    ensures from < to ==> !IsAsciiWhitespace(s[from]) && !IsAsciiWhitespace(s[to - 1])
  {
    match Position(s)
    case None =>
      from, to := |s|, |s|;
      assert s[..from] == s;
    case Some(f) =>
      from, to := f, RPosition(s).value + 1;
  }

  /** The result has no whitespace at either end, is no longer than the input, and trimming it
      again changes nothing. */
  lemma TrimIdempotent(s: seq<Byte>)
    ensures |Trim(s)| <= |s|
    ensures |Trim(s)| > 0 ==> !IsAsciiWhitespace(Trim(s)[0]) && !IsAsciiWhitespace(Trim(s)[|Trim(s)| - 1])
    ensures Trim(Trim(s)) == Trim(s)
  {
    var from, to := TrimBounds(s);
    var t := Trim(s);
    var f2, t2 := TrimBounds(t);
    if |t| > 0 {
      assert t[f2..t2] == t;
    }
  }

  /** `truncate(s, max_chars)`: `char_indices().nth(max_chars)` is `None` when `s` has at most
      `max_chars` characters, and otherwise points at the first character to drop. */
  function Truncate(s: string, maxChars: nat): (r: string)
    ensures |r| == Min(|s|, maxChars) && r == s[..|r|]
  {
    if |s| <= maxChars then s else s[..maxChars]
  }

  /** A string that already fits comes back unchanged; a longer one loses exactly its tail. */
  lemma TruncateFits(s: string, maxChars: nat)
    ensures |s| <= maxChars <==> Truncate(s, maxChars) == s
    ensures |s| > maxChars ==> Truncate(s, maxChars) + s[maxChars..] == s
  {
    if Truncate(s, maxChars) == s {
      assert |s| == Min(|s|, maxChars);
    }
  }

  /** A width of 0 empties every non-empty preview. */
  lemma TruncateZero(s: string)
    requires |s| > 0
    ensures Truncate(s, 0) == [] != s
  {
  }

  /** The preview width as the `list` option documents it: 0 keeps the original width. */
  function PreviewTruncate(s: string, width: nat): (r: string)
    ensures width == 0 ==> r == s
    ensures width > 0 ==> |r| == Min(|s|, width) && r == s[..|r|]
  {
    if width == 0 then s else Truncate(s, width)
  }

  /** The bytes of a truncated string followed by those of the dropped tail are the bytes of
      the whole string. */
  lemma TruncatedBytes(t: string, width: nat)
    ensures Encode(Truncate(t, width)) + Encode(t[|Truncate(t, width)|..]) == Encode(t)
  {
    var shown := Truncate(t, width);
    assert t == shown + t[|shown|..];
    EncodeAppend(shown, t[|shown|..]);
  }

  /** The preview half of `format_entry`: the trimmed payload read as UTF-8 (an `unwrap`, so
      a panic when it is not) and truncated to `width` characters. A preview that exists is
      exactly the first `min(width, n)` characters of the trimmed payload's `n` characters. */
  function Preview(payload: seq<Byte>, width: nat): (r: Outcome<string, ()>)
    ensures r.Ok? || r.Panic?
    ensures r.Ok? <==> exists t :: Encode(t) == Trim(payload)
    ensures r.Ok? ==> |r.value| <= width && exists rest :: Encode(r.value) + Encode(rest) == Trim(payload)
    ensures r.Ok? ==> exists t :: Encode(t) == Trim(payload) && r.value == t[..Min(|t|, width)]
  {
    var trimmed := Trim(payload);
    EncodeDecode(trimmed);
    match Decode(trimmed)
    case None => Panic("called `Result::unwrap()` on an `Err` value")
    case Some(t) =>
      TruncatedBytes(t, width);
      Ok(Truncate(t, width))
  }
}
