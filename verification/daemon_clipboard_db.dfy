/** The daemon's UUID-keyed clip store (daemon/src/database/clipboard.rs): duplicate removal that
    spares the first `amount` repeats, and a size cap whose subtraction runs the wrong way.
    Entry ids are byte-reversed UUIDv7 values, so key order need not be insertion order; the
    facts below that speak of the fixture hold for every key order. */
module DaemonClipboardDb {
  import opened Wrappers
  import opened Machine
  import opened ClipStore
  import opened Scan
  import opened TestFixture

  /** A cursor over the whole snapshot: `all()` forward, or `all().rev()`. */
  function Cursor(n: nat, forward: bool): (order: seq<nat>)
    ensures Within(order, n) && NoDups(order) && |order| == n
  {
    if forward then Ascending(0, n) else Descending(0, n)
  }

  /** `filtered.skip(amount)`, applied only when `amount != 0`. */
  function Skip(r: seq<nat>, amount: nat): seq<nat> {
    if amount == 0 then r
    else if amount < |r| then r[amount..]
    else []
  }

  /** The positions removed by a scan in the given direction that spares the first `amount`
      repeats it meets. */
  ghost function Removed(s: seq<Entry>, forward: bool, amount: nat): set<nat> {
    ToSet(Skip(Repeats(s, Cursor(|s|, forward)), amount))
  }

  /** `remove_duplicates(to_remove, to_keep)`: `to_remove` takes precedence and scans forward;
      otherwise `to_keep` scans in reverse; with neither, reverse and nothing spared. */
  method RemoveDuplicates(db: Table, toRemove: Option<U64>, toKeep: Option<U64>)
    requires db.Valid()
    modifies db
    ensures db.Valid()
    ensures toRemove.Some? ==>
              db.entries == Without(old(db.entries), Removed(old(db.entries), true, toRemove.value))
    ensures toRemove.None? && toKeep.Some? ==>
              db.entries == Without(old(db.entries), Removed(old(db.entries), false, toKeep.value))
    ensures toRemove.None? && toKeep.None? ==>
              db.entries == Without(old(db.entries), Removed(old(db.entries), false, 0))
  {
    var snapshot := db.entries;
    var n := db.Length();
    var amount: nat;
    var order: seq<nat>;
    if toRemove.Some? {
      amount := toRemove.value;
      order := Cursor(n, true);
    } else if toKeep.Some? {
      amount := toKeep.value;
      order := Cursor(n, false);
    } else {
      amount := 0;
      order := Cursor(n, false);
    }
    var filtered := FilterRepeats(snapshot, order);
    if amount != 0 {
      filtered := if amount < |filtered| then filtered[amount..] else [];
    }
    db.CommitRemovals(ToSet(filtered));
  }

  /** `ensure_db_size(limit)`. Nothing happens while `limit >= len`. Below that, `limit - len`
      underflows: with overflow checks the call panics before committing; without them the
      wrapped amount exceeds `len` (for any table of at most 2^63 entries) and every entry
      is removed. */
  method EnsureDbSize(db: Table, limit: U64, overflowChecks: bool) returns (result: Outcome<(), ()>)
    requires db.Valid() && |db.entries| < U64_LIMIT
    modifies db
    ensures db.Valid()
    ensures limit >= |old(db.entries)| ==> result == Ok(()) && db.entries == old(db.entries)
    ensures limit < |old(db.entries)| && overflowChecks ==>
              result.Panic? && db.entries == old(db.entries)
    ensures limit < |old(db.entries)| && !overflowChecks ==>
              result == Ok(()) && db.entries == old(db.entries)[Min(limit + U64_LIMIT - |old(db.entries)|, |old(db.entries)|)..]
    ensures limit < |old(db.entries)| <= U64_LIMIT / 2 && !overflowChecks ==> db.entries == []
  {
    var len := db.Length();
    if limit > len {
      return Ok(());
    }
    var amount := CheckedSub(limit, len, overflowChecks);
    if amount.Panic? {
      return Panic(amount.message);
    }
    var take := Min(amount.value, len);
    var doomed: set<nat> := {};
    for k := 0 to take
      invariant doomed == Below(k)
    {
      doomed := doomed + {k};
    }
    WithoutPrefix(db.entries, take);
    db.CommitRemovals(doomed);
    result := Ok(());
  }

  // ---------------------------------------------------------------------------
  // What the removal guarantees, in any key order.
  // ---------------------------------------------------------------------------

  /** Only repeats are removed: the first copy of a payload in scan order always survives. */
  lemma OnlyRepeatsRemoved(s: seq<Entry>, forward: bool, amount: nat)
    ensures forall i :: i in Removed(s, forward, amount) ==>
              i < |s| && (if forward then HasOlder(s, 0, i) else HasNewer(s, i, |s|))
  {
    var r := Repeats(s, Cursor(|s|, forward));
    forall i | i in Removed(s, forward, amount)
      ensures i < |s| && (if forward then HasOlder(s, 0, i) else HasNewer(s, i, |s|))
    {
      assert i in r;
      if forward {
        RepeatsAscending(s, 0, |s|, i);
      } else {
        RepeatsDescending(s, 0, |s|, i);
      }
    }
  }

  /** The number removed is `max(0, (len - #distinct payloads) - amount)`, whatever the
      direction and the key order. */
  lemma RemovedCount(s: seq<Entry>, forward: bool, amount: nat)
    ensures var repeats := |s| - |PayloadSet(s)|;
            |Without(s, Removed(s, forward, amount))| == |s| - (if amount < repeats then repeats - amount else 0)
  {
    var order := Cursor(|s|, forward);
    var r := Repeats(s, order);
    RepeatsFullCount(s);
    RepeatsNoDups(s, order);
    var t := Skip(r, amount);
    assert NoDups(t) by {
      if amount != 0 && amount < |r| {
        forall a, b | 0 <= a < b < |t| ensures t[a] != t[b] {
          assert t[a] == r[a + amount] && t[b] == r[b + amount];
        }
      }
    }
    ToSetSize(t);
    forall i | i in ToSet(t) ensures i < |s| {
      assert i in r;
    }
    WithoutLength(s, ToSet(t));
  }

  /** With `amount == 0` every repeat goes: exactly one entry per payload survives. */
  lemma AllRepeatsRemoved(s: seq<Entry>, forward: bool)
    ensures var w := Without(s, Removed(s, forward, 0));
            && (forall a, b :: 0 <= a < b < |w| ==> w[a].payload != w[b].payload)
            && PayloadSet(w) == PayloadSet(s)
  {
    var r := Repeats(s, Cursor(|s|, forward));
    if forward {
      forall i: nat ensures i in r <==> i in Shadowed(s) {
        RepeatsAscending(s, 0, |s|, i);
      }
      assert Removed(s, forward, 0) == Shadowed(s);
      KeepOldest(s);
    } else {
      forall i: nat ensures i in r <==> i in Superseded(s) {
        RepeatsDescending(s, 0, |s|, i);
      }
      assert Removed(s, forward, 0) == Superseded(s);
      KeepNewest(s);
    }
  }

  // ---------------------------------------------------------------------------
  // The three tests at daemon/src/database/clipboard.rs:174-223, for the fixture's clips in
  // whatever order their ids put them.
  // ---------------------------------------------------------------------------

  lemma PayloadSetOfPayloads(s: seq<Entry>)
    ensures forall x :: x in PayloadSet(s) <==> x in Payloads(s)
  {
    forall x | x in Payloads(s) ensures x in PayloadSet(s) {
      var i :| 0 <= i < |s| && Payloads(s)[i] == x;
      assert s[i] in s;
    }
  }

  /** The fixture's clips in any key order hold the fixture's three payloads. */
  lemma ReorderedFixture(s: seq<Entry>, r1: Payload, r18: Payload)
    requires RandomEnds(r1, r18)
    requires multiset(Payloads(s)) == multiset(Payloads(Fixture(r1, r18)))
    ensures |s| == 20 && |PayloadSet(s)| == 3
  {
    var f := Fixture(r1, r18);
    assert |Payloads(s)| == |multiset(Payloads(s))| == |multiset(Payloads(f))| == |Payloads(f)|;
    PayloadSetOfPayloads(s);
    PayloadSetOfPayloads(f);
    FixturePayloads(r1, r18);
    forall x ensures x in PayloadSet(s) <==> x in PayloadSet(f) {
      assert x in Payloads(s) <==> x in multiset(Payloads(s));
      assert x in Payloads(f) <==> x in multiset(Payloads(f));
    }
    assert PayloadSet(s) == PayloadSet(f);
  }

  /** Sparing 10 of the 17 repeats leaves 13 clips in either direction; the tests' expected
      12 does not match the code. */
  lemma FixtureSpareTen(s: seq<Entry>, r1: Payload, r18: Payload, forward: bool)
    requires RandomEnds(r1, r18)
    requires multiset(Payloads(s)) == multiset(Payloads(Fixture(r1, r18)))
    ensures |Without(s, Removed(s, forward, 10))| == 13
  {
    ReorderedFixture(s, r1, r18);
    RemovedCount(s, forward, 10);
  }

  /** Removing every repeat leaves 3 clips. */
  lemma FixtureAll(s: seq<Entry>, r1: Payload, r18: Payload, forward: bool)
    requires RandomEnds(r1, r18)
    requires multiset(Payloads(s)) == multiset(Payloads(Fixture(r1, r18)))
    ensures |Without(s, Removed(s, forward, 0))| == 3
  {
    ReorderedFixture(s, r1, r18);
    RemovedCount(s, forward, 0);
  }
}
