/** The clip records of the daemon: `ClipEntry` (daemon/database/schema.rs), keyed by its
    `DateTime`, and `ClipEntryV1` (daemon/src/database/clipboard.rs), keyed by a UUID, with
    their text view and the two search predicates. */
module ClipRecord {
  import opened Wrappers
  import opened Machine
  import opened Utf8
  import opened TimeKey

  datatype ClipEntry = ClipEntry(epoch: DateTime, payload: seq<Byte>, application: Option<string>)

  datatype ClipEntryV1 = ClipEntryV1(id: int, epoch: DateTime, payload: seq<Byte>, application: Option<string>)

  /** `str::contains`: whether `q` starts at some position of `t`. */
  function Contains(t: string, q: string): bool {
    q <= t || (|t| > 0 && Contains(t[1..], q))
  }

  ghost predicate OccursAt(t: string, q: string, i: int) {
    0 <= i <= |t| && q <= t[i..]
  }

  lemma {:induction false} ContainsOccurs(t: string, q: string)
    ensures Contains(t, q) <==> exists i :: OccursAt(t, q, i)
  {
    if q <= t {
      assert OccursAt(t, q, 0);
    } else if |t| > 0 {
      ContainsOccurs(t[1..], q);
      if Contains(t[1..], q) {
        var i :| OccursAt(t[1..], q, i);
        assert t[1..][i..] == t[i + 1..];
        assert OccursAt(t, q, i + 1);
      }
      if exists i :: OccursAt(t, q, i) {
        var i :| OccursAt(t, q, i);
        assert i != 0;
        assert t[1..][i - 1..] == t[i..];
        assert OccursAt(t[1..], q, i - 1);
      }
    }
  }

  /** The empty string occurs in every string. */
  lemma ContainsEmpty(t: string)
    ensures Contains(t, [])
  {
  }

  /** `text()`: the payload as a string, failing exactly when it is not UTF-8. */
  function TextOf(payload: seq<Byte>): (r: Outcome<string, ()>)
    ensures r.Ok? <==> exists t :: Encode(t) == payload
    ensures r.Ok? ==> Encode(r.value) == payload
  {
    EncodeDecode(payload);
    match Decode(payload)
    case Some(t) => Ok(t)
    case None => Err(())
  }

  /** `contains(query)`: no query matches nothing; otherwise the text must exist and
      contain the query. */
  function ContainsQuery(payload: seq<Byte>, query: Option<string>): (r: bool)
    ensures r <==> query.Some? && TextOf(payload).Ok? && exists i :: OccursAt(TextOf(payload).value, query.value, i)
  {
    if query.Some? && TextOf(payload).Ok? then
      ContainsOccurs(TextOf(payload).value, query.value);
      Contains(TextOf(payload).value, query.value)
    else false
  }

  /** `was_copied_from_app(title)`: no title matches nothing; otherwise the application name,
      read as "" when unknown, must contain the title. */
  function FromApp(application: Option<string>, title: Option<string>): (r: bool)
    ensures r <==> title.Some? && exists i :: OccursAt(application.GetOr([]), title.value, i)
  {
    if title.Some? then
      ContainsOccurs(application.GetOr([]), title.value);
      Contains(application.GetOr([]), title.value)
    else false
  }

  /** An empty title matches every clip, even one whose application is unknown. */
  lemma EmptyTitleMatchesAll(application: Option<string>)
    ensures FromApp(application, Some([]))
  {
    assert OccursAt(application.GetOr([]), [], 0);
  }

  // The members of the two record types.

  /** `ClipEntry::new`: stamped with the current time and the focused window's name. */
  function NewClip(payload: seq<Byte>, now: DateTime, activeWindow: Option<string>): (e: ClipEntry)
    ensures e.payload == payload && e.epoch == now && e.application == activeWindow
  {
    ClipEntry(now, payload, activeWindow)
  }

  function Text(e: ClipEntry): (r: Outcome<string, ()>)
    ensures r.Ok? <==> exists t :: Encode(t) == e.payload
    ensures r.Ok? ==> Encode(r.value) == e.payload
  {
    EncodeDecode(e.payload);
    TextOf(e.payload)
  }

  function ClipContains(e: ClipEntry, query: Option<string>): (r: bool)
    ensures r <==> query.Some? && Text(e).Ok? && exists i :: OccursAt(Text(e).value, query.value, i)
  {
    ContainsQuery(e.payload, query)
  }

  function WasCopiedFromApp(e: ClipEntry, title: Option<string>): (r: bool)
    ensures r <==> title.Some? && exists i :: OccursAt(e.application.GetOr([]), title.value, i)
  {
    FromApp(e.application, title)
  }

  /** `ClipEntryV1::new`: the id is a fresh UUIDv7 in little-endian byte order. */
  function NewClipV1(payload: seq<Byte>, id: int, now: DateTime, focusedWindow: Option<string>): (e: ClipEntryV1)
    ensures e.payload == payload && e.id == id && e.epoch == now && e.application == focusedWindow
  {
    ClipEntryV1(id, now, payload, focusedWindow)
  }

  /** `ClipEntryV1::text`: the twin of `Text` for the older record type. */
  function TextV1(e: ClipEntryV1): (r: Outcome<string, ()>)
    ensures r.Ok? <==> exists t :: Encode(t) == e.payload
    ensures r.Ok? ==> Encode(r.value) == e.payload
  {
    EncodeDecode(e.payload);
    TextOf(e.payload)
  }

  /** `ClipEntryV1::contains`: the twin of `ClipContains`. */
  function ClipContainsV1(e: ClipEntryV1, query: Option<string>): (r: bool)
    ensures r <==> query.Some? && TextV1(e).Ok? && exists i :: OccursAt(TextV1(e).value, query.value, i)
  {
    ContainsQuery(e.payload, query)
  }

  /** `ClipEntryV1::was_copied_from_app`: the twin of `WasCopiedFromApp`. */
  function WasCopiedFromAppV1(e: ClipEntryV1, title: Option<string>): (r: bool)
    ensures r <==> title.Some? && exists i :: OccursAt(e.application.GetOr([]), title.value, i)
  {
    FromApp(e.application, title)
  }

  /** A payload that is not UTF-8 matches no query, not even the empty one. */
  lemma InvalidTextMatchesNothing(payload: seq<Byte>, query: Option<string>)
    requires forall t :: Encode(t) != payload
    ensures !ContainsQuery(payload, query)
  {
  }
}
