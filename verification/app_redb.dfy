/** The app's redb clip store (app/src/utils/database/mod.rs): duplicate removal whose window
    is chosen by skipping entries, and a size cap that trims the table to its newest `size`
    entries. */
module AppRedbDb {
  import opened Wrappers
  import opened Machine
  import opened ClipStore
  import opened Scan
  import opened TestFixture

  /** The cursor `remove_duplicates` walks over a snapshot of `n` entries, given the number
      `skip` that `len - duplicates` evaluated to when `duplicates > 0`:
      `iter().rev().skip(skip)` for `d > 0`, `iter().skip(|d|)` for `d < 0`,
      `iter().rev().skip(0)` for 0. */
  function ScanOrder(n: nat, duplicates: I32, skip: nat): (order: seq<nat>)
    ensures Within(order, n) && NoDups(order)
  {
    if duplicates > 0 then Descending(0, n - Min(skip, n))
    else if duplicates < 0 then Ascending(Min(UnsignedAbs(duplicates), n), n)
    else Descending(0, n)
  }

  /** Whether `remove_duplicates(db, duplicates)` deletes the entry at position `i` of `s`
      (when it does not panic):
      - `duplicates > 0`: it is among the oldest `duplicates` entries and a NEWER one of
        them holds the same payload; nothing is removed when `duplicates` exceeds the size;
      - `duplicates < 0`: it is not among the oldest `|duplicates|` entries and an OLDER one
        of the others holds the same payload;
      - `duplicates == 0`: a newer entry anywhere holds the same payload. */
  ghost predicate IsRemoved(s: seq<Entry>, duplicates: I32, i: nat)
    requires i < |s|
  {
    if duplicates > 0 then duplicates <= |s| && i < duplicates && HasNewer(s, i, duplicates)
    else if duplicates < 0 then
      Min(UnsignedAbs(duplicates), |s|) <= i && HasOlder(s, Min(UnsignedAbs(duplicates), |s|), i)
    else HasNewer(s, i, |s|)
  }

  ghost function Removed(s: seq<Entry>, duplicates: I32): set<nat> {
    set i: nat | i < |s| && IsRemoved(s, duplicates, i)
  }

  /** The repeats of a reversed scan of `0..hi` are the entries with a newer copy below `hi`. */
  lemma DescendingRepeatsSet(s: seq<Entry>, hi: nat)
    requires hi <= |s|
    ensures forall i: nat :: i in ToSet(Repeats(s, Descending(0, hi))) <==> i < hi && HasNewer(s, i, hi)
  {
    forall i: nat ensures i in ToSet(Repeats(s, Descending(0, hi))) <==> i < hi && HasNewer(s, i, hi) {
      RepeatsDescending(s, 0, hi, i);
    }
  }

  /** The repeats of a forward scan of `lo..len` are the entries with an older copy from `lo`. */
  lemma AscendingRepeatsSet(s: seq<Entry>, lo: nat)
    requires lo <= |s|
    ensures forall i: nat :: i in ToSet(Repeats(s, Ascending(lo, |s|))) <==> lo <= i < |s| && HasOlder(s, lo, i)
  {
    forall i: nat ensures i in ToSet(Repeats(s, Ascending(lo, |s|))) <==> lo <= i < |s| && HasOlder(s, lo, i) {
      RepeatsAscending(s, lo, |s|, i);
    }
  }

  /** The scan's repeats are exactly the entries the declarative rule removes, whether
      `len - duplicates` was exact or wrapped around to something at least `len`. */
  lemma RemovedByScan(s: seq<Entry>, duplicates: I32, skip: nat)
    requires duplicates > 0 ==> if duplicates <= |s| then skip == |s| - duplicates else skip >= |s|
    ensures ToSet(Repeats(s, ScanOrder(|s|, duplicates, skip))) == Removed(s, duplicates)
  {
    var n := |s|;
    if duplicates > 0 {
      var hi := n - Min(skip, n);
      DescendingRepeatsSet(s, hi);
      assert hi == if duplicates <= n then duplicates as int else 0;
    } else if duplicates < 0 {
      AscendingRepeatsSet(s, Min(UnsignedAbs(duplicates), n));
    } else {
      DescendingRepeatsSet(s, n);
    }
  }

  /** `remove_duplicates`. For `duplicates > len` the usize subtraction `len - duplicates`
      underflows: with overflow checks the call panics before anything is committed; without
      them the cursor skips everything. */
  method RemoveDuplicates(db: Table, duplicates: I32, overflowChecks: bool)
    returns (result: Outcome<(), ()>)
    requires db.Valid() && |db.entries| < U64_LIMIT
    modifies db
    ensures db.Valid()
    ensures duplicates > |old(db.entries)| && overflowChecks ==>
              result.Panic? && db.entries == old(db.entries)
    ensures !(duplicates > |old(db.entries)| && overflowChecks) ==>
              result == Ok(()) && db.entries == Without(old(db.entries), Removed(old(db.entries), duplicates))
  {
    var snapshot := db.entries;
    var n := db.Length();
    var skip: nat := 0;
    if duplicates > 0 {
      var difference := CheckedSub(n, duplicates, overflowChecks);
      if difference.Panic? {
        return Panic(difference.message);
      }
      skip := difference.value;
      assert duplicates <= n ==> skip == n - duplicates;
      assert duplicates > n ==> skip >= n;
    }
    var order := ScanOrder(n, duplicates, skip);
    var repeats := FilterRepeats(snapshot, order);
    RemovedByScan(snapshot, duplicates, skip);
    db.CommitRemovals(ToSet(repeats));
    result := Ok(());
  }

  /** `ensure_db_size(size)`: for each step of `size..len`, advance the cursor from the
      oldest entry and remove what it points at. */
  method EnsureDbSize(db: Table, size: U64)
    requires db.Valid() && |db.entries| < U64_LIMIT
    modifies db
    ensures db.Valid()
    ensures db.entries == if |old(db.entries)| > size then old(db.entries)[|old(db.entries)| - size..]
                          else old(db.entries)
  {
    var n := db.Length();
    var doomed: set<nat> := {};
    var cursor: nat := 0;
    var k := size;
    while k < n
      invariant size <= k && (size < n ==> k <= n) && (size >= n ==> k == size)
      invariant cursor == k - size
      invariant doomed == Below(cursor)
      decreases n - k
    {
      doomed := doomed + {cursor};
      cursor := cursor + 1;
      k := k + 1;
    }
    WithoutPrefix(db.entries, cursor);
    db.CommitRemovals(doomed);
  }

  // ---------------------------------------------------------------------------
  // What the removal guarantees.
  // ---------------------------------------------------------------------------

  /** With `duplicates == 0` exactly one entry per payload survives, and it is the newest.
      The same statement as `AppDb.NewestSurvives`, for this snapshot's own `Removed`. */
  lemma NewestSurvives(s: seq<Entry>)
    ensures Removed(s, 0) == Superseded(s)
    ensures var w := Without(s, Removed(s, 0));
            && (forall a, b :: 0 <= a < b < |w| ==> w[a].payload != w[b].payload)
            && PayloadSet(w) == PayloadSet(s)
  {
    assert Removed(s, 0) == Superseded(s);
    KeepNewest(s);
  }

  /** With `0 < duplicates <= len`, the newest `len - duplicates` entries are kept, in order,
      at the end. */
  lemma OldestWindowOnly(s: seq<Entry>, duplicates: I32)
    requires 0 < duplicates <= |s|
    ensures Without(s, Removed(s, duplicates))
         == Without(s[..duplicates], Removed(s, duplicates)) + s[duplicates..]
  {
    WithoutKeepsSuffix(s, Removed(s, duplicates), duplicates);
  }

  /** With `duplicates < 0`, the skipped oldest entries are kept, in order, in front. */
  lemma SkippedPrefixKept(s: seq<Entry>, duplicates: I32)
    requires duplicates < 0
    ensures var lo := Min(UnsignedAbs(duplicates), |s|);
            var w := Without(s, Removed(s, duplicates));
            lo <= |w| && w[..lo] == s[..lo]
  {
    WithoutKeepsPrefix(s, Removed(s, duplicates), Min(UnsignedAbs(duplicates), |s|));
  }

  /** A `duplicates` larger than the table removes nothing when the subtraction wraps. */
  lemma OversizedWindowRemovesNothing(s: seq<Entry>, duplicates: I32)
    requires duplicates > |s|
    ensures Without(s, Removed(s, duplicates)) == s
  {
    WithoutNothing(s, Removed(s, duplicates));
  }

  // ---------------------------------------------------------------------------
  // The three tests at app/src/utils/database/mod.rs:122-183.
  // ---------------------------------------------------------------------------

  /** `remove_duplicates(db, 10)` leaves 12 of the fixture's 20 clips. */
  lemma FixtureOldest(r1: Payload, r18: Payload)
    requires RandomEnds(r1, r18)
    ensures |Without(Fixture(r1, r18), Removed(Fixture(r1, r18), 10))| == 12
  {
    var s := Fixture(r1, r18);
    RemovedByScan(s, 10, 10);
    RemainingCount(s, Descending(0, 10));
    forall x ensures x in Seen(s, Descending(0, 10)) <==> x in {Asdf, r1} {
      SeenDescending(s, 0, 10, x);
      assert s[0].payload == Asdf && s[1].payload == r1;
    }
    assert Asdf != r1 by { assert |Asdf| == 4; }
    assert Seen(s, Descending(0, 10)) == {Asdf, r1};
  }

  /** `remove_duplicates(db, -10)` leaves 12 of the fixture's 20 clips. */
  lemma FixtureNewest(r1: Payload, r18: Payload)
    requires RandomEnds(r1, r18)
    ensures |Without(Fixture(r1, r18), Removed(Fixture(r1, r18), -10))| == 12
  {
    var s := Fixture(r1, r18);
    RemovedByScan(s, -10, 0);
    RemainingCount(s, Ascending(10, 20));
    forall x ensures x in Seen(s, Ascending(10, 20)) <==> x in {Asdf, r18} {
      SeenAscending(s, 10, 20, x);
      assert s[10].payload == Asdf && s[18].payload == r18;
    }
    assert Asdf != r18 by { assert |Asdf| == 4; }
    assert Seen(s, Ascending(10, 20)) == {Asdf, r18};
  }

  /** `remove_duplicates(db, 0)` leaves `r1`, `r18`, "asdf", in that order. The twin of
      `AppDb.FixtureAll`, for this snapshot's own `Removed`. */
  lemma FixtureAll(r1: Payload, r18: Payload)
    requires RandomEnds(r1, r18)
    ensures var w := Without(Fixture(r1, r18), Removed(Fixture(r1, r18), 0));
            && |w| == 3
            && w[0].payload == r1 && w[1].payload == r18 && w[2].payload == Asdf
  {
    NewestSurvives(Fixture(r1, r18));
    FixtureKeepNewest(r1, r18);
  }
}
