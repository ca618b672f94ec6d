/** The app's native_db clip store (app/src/database/mod.rs): the same two operations as the
    daemon's, with the windows swapped: a positive `duplicates` looks at the newest entries,
    a negative one at the oldest. */
module AppDb {
  import opened Machine
  import opened ClipStore
  import opened Scan
  import opened TestFixture

  /** The cursor `remove_duplicates` walks over a snapshot of `n` entries:
      `all().rev().take(d)` for `d > 0`, `all().take(|d|)` for `d < 0`, `all().rev()` for 0. */
  function ScanOrder(n: nat, duplicates: I64): (order: seq<nat>)
    ensures Within(order, n) && NoDups(order)
  {
    if duplicates > 0 then Descending(n - Min(duplicates, n), n)
    else if duplicates < 0 then Ascending(0, Min(UnsignedAbs(duplicates), n))
    else Descending(0, n)
  }

  /** Whether `remove_duplicates(db, duplicates)` deletes the entry at position `i` of `s`:
      - `duplicates > 0`: it is among the newest `duplicates` entries and a NEWER one of
        them holds the same payload;
      - `duplicates < 0`: it is among the oldest `|duplicates|` entries and an OLDER one of
        them holds the same payload;
      - `duplicates == 0`: a newer entry anywhere holds the same payload. */
  ghost predicate IsRemoved(s: seq<Entry>, duplicates: I64, i: nat)
    requires i < |s|
  {
    if duplicates > 0 then |s| - Min(duplicates, |s|) <= i && HasNewer(s, i, |s|)
    else if duplicates < 0 then i < Min(UnsignedAbs(duplicates), |s|) && HasOlder(s, 0, i)
    else HasNewer(s, i, |s|)
  }

  ghost function Removed(s: seq<Entry>, duplicates: I64): set<nat> {
    set i: nat | i < |s| && IsRemoved(s, duplicates, i)
  }

  /** The scan's repeats are exactly the entries the declarative rule removes. */
  lemma RemovedByScan(s: seq<Entry>, duplicates: I64)
    ensures ToSet(Repeats(s, ScanOrder(|s|, duplicates))) == Removed(s, duplicates)
  {
    var n := |s|;
    var r := Repeats(s, ScanOrder(n, duplicates));
    forall i: nat ensures i in r <==> i in Removed(s, duplicates) {
      if duplicates > 0 {
        RepeatsDescending(s, n - Min(duplicates, n), n, i);
      } else if duplicates < 0 {
        RepeatsAscending(s, 0, Min(UnsignedAbs(duplicates), n), i);
      } else {
        RepeatsDescending(s, 0, n, i);
      }
    }
  }

  /** `remove_duplicates`: for each scanned entry whose payload `seen` already holds,
      remove it in the write transaction; then commit. */
  method RemoveDuplicates(db: Table, duplicates: I64)
    requires db.Valid()
    modifies db
    ensures db.Valid()
    ensures db.entries == Without(old(db.entries), Removed(old(db.entries), duplicates))
  {
    var snapshot := db.entries;
    var order := ScanOrder(db.Length(), duplicates);
    var repeats := FilterRepeats(snapshot, order);
    RemovedByScan(snapshot, duplicates);
    db.CommitRemovals(ToSet(repeats));
  }

  /** `ensure_db_size(limit)`: deletes the first `limit` entries in key order, or all of them. */
  method EnsureDbSize(db: Table, limit: U64)
    requires db.Valid()
    modifies db
    ensures db.Valid()
    ensures db.entries == old(db.entries)[Min(limit, |old(db.entries)|)..]
  {
    var take := Min(limit, db.Length());
    var doomed: set<nat> := {};
    for k := 0 to take
      invariant doomed == Below(k)
    {
      doomed := doomed + {k};
    }
    WithoutPrefix(db.entries, take);
    db.CommitRemovals(doomed);
  }

  // ---------------------------------------------------------------------------
  // What the removal guarantees.
  // ---------------------------------------------------------------------------

  /** With `duplicates == 0` exactly one entry per payload survives, and it is the newest. */
  lemma NewestSurvives(s: seq<Entry>)
    ensures Removed(s, 0) == Superseded(s)
    ensures var w := Without(s, Removed(s, 0));
            && (forall a, b :: 0 <= a < b < |w| ==> w[a].payload != w[b].payload)
            && PayloadSet(w) == PayloadSet(s)
  {
    assert Removed(s, 0) == Superseded(s);
    KeepNewest(s);
  }

  /** With `duplicates > 0`, the entries older than the window are kept, in order, in front. */
  lemma NewestWindowOnly(s: seq<Entry>, duplicates: I64)
    requires duplicates > 0
    ensures var lo := |s| - Min(duplicates, |s|);
            var w := Without(s, Removed(s, duplicates));
            lo <= |w| && w[..lo] == s[..lo]
  {
    WithoutKeepsPrefix(s, Removed(s, duplicates), |s| - Min(duplicates, |s|));
  }

  /** With `duplicates < 0`, the entries past the window are kept, in order, at the end. */
  lemma OldestWindowOnly(s: seq<Entry>, duplicates: I64)
    requires duplicates < 0
    ensures var w := Min(UnsignedAbs(duplicates), |s|);
            Without(s, Removed(s, duplicates)) == Without(s[..w], Removed(s, duplicates)) + s[w..]
  {
    WithoutKeepsSuffix(s, Removed(s, duplicates), Min(UnsignedAbs(duplicates), |s|));
  }

  // ---------------------------------------------------------------------------
  // The three tests at app/src/database/mod.rs:147-196.
  // ---------------------------------------------------------------------------

  /** `remove_duplicates(db, 10)` leaves 12 of the fixture's 20 clips. */
  lemma FixtureNewest(r1: Payload, r18: Payload)
    requires RandomEnds(r1, r18)
    ensures |Without(Fixture(r1, r18), Removed(Fixture(r1, r18), 10))| == 12
  {
    var s := Fixture(r1, r18);
    RemovedByScan(s, 10);
    RemainingCount(s, Descending(10, 20));
    forall x ensures x in Seen(s, Descending(10, 20)) <==> x in {Asdf, r18} {
      SeenDescending(s, 10, 20, x);
      assert s[10].payload == Asdf && s[18].payload == r18;
    }
    assert Asdf != r18 by { assert |Asdf| == 4; }
    assert Seen(s, Descending(10, 20)) == {Asdf, r18};
  }

  /** `remove_duplicates(db, -10)` leaves 12 of the fixture's 20 clips. */
  lemma FixtureOldest(r1: Payload, r18: Payload)
    requires RandomEnds(r1, r18)
    ensures |Without(Fixture(r1, r18), Removed(Fixture(r1, r18), -10))| == 12
  {
    var s := Fixture(r1, r18);
    RemovedByScan(s, -10);
    RemainingCount(s, Ascending(0, 10));
    forall x ensures x in Seen(s, Ascending(0, 10)) <==> x in {Asdf, r1} {
      SeenAscending(s, 0, 10, x);
      assert s[0].payload == Asdf && s[1].payload == r1;
    }
    assert Asdf != r1 by { assert |Asdf| == 4; }
    assert Seen(s, Ascending(0, 10)) == {Asdf, r1};
  }

  /** `remove_duplicates(db, 0)` leaves `r1`, `r18`, "asdf", in that order. */
  lemma FixtureAll(r1: Payload, r18: Payload)
    requires RandomEnds(r1, r18)
    ensures var w := Without(Fixture(r1, r18), Removed(Fixture(r1, r18), 0));
            && |w| == 3
            && w[0].payload == r1 && w[1].payload == r18 && w[2].payload == Asdf
  {
    NewestSurvives(Fixture(r1, r18));
    FixtureKeepNewest(r1, r18);
  }
}
