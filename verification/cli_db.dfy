/** The command-line tool's redb clip store (src/utils/database.rs): duplicate removal built on
    itertools' `duplicates_by`, which reports each repeated payload once. */
module CliDb {
  import opened Machine
  import opened ClipStore
  import opened Scan

  /** The part `lo..hi` of a table of `n` entries that `remove_duplicates` examines: the newest
      `duplicates` for a positive value; otherwise the oldest `duplicates as usize`, which for
      a negative value is a sign-extended huge bound, and for 0 no bound at all. */
  function Window(n: nat, duplicates: I32): (w: (nat, nat))
    ensures w.0 <= w.1 <= n
  {
    if duplicates > 0 then (n - Min(duplicates, n), n)
    else if duplicates == 0 then (0, n)
    else (0, Min(SignedAsUsize(duplicates), n))
  }

  /** The cursor: `iter().rev().take(d)` for `d > 0`, `iter()` for 0, `iter().take(d as usize)`
      for `d < 0`. */
  function ScanOrder(n: nat, duplicates: I32): (order: seq<nat>)
    ensures Within(order, n) && NoDups(order)
  {
    var w := Window(n, duplicates);
    if duplicates > 0 then Descending(w.0, w.1) else Ascending(w.0, w.1)
  }

  /** Whether `remove_duplicates(db, duplicates)` deletes the entry at position `i` of `s`: it
      lies in the window and is the second copy of its payload met by the scan, i.e. exactly
      one NEWER copy in the window for `d > 0`, exactly one OLDER copy otherwise. */
  ghost predicate IsRemoved(s: seq<Entry>, duplicates: I32, i: nat)
    requires i < |s|
  {
    var w := Window(|s|, duplicates);
    w.0 <= i < w.1 &&
    if duplicates > 0 then Occurrences(s, i + 1, w.1, s[i].payload) == 1
    else Occurrences(s, w.0, i, s[i].payload) == 1
  }

  ghost function Removed(s: seq<Entry>, duplicates: I32): set<nat> {
    set i: nat | i < |s| && IsRemoved(s, duplicates, i)
  }

  /** The payloads stored at least twice in `lo..hi`. */
  ghost function RepeatedPayloads(s: seq<Entry>, lo: nat, hi: nat): set<Payload>
    requires lo <= hi <= |s|
  {
    set x | x in PayloadSet(s) && Occurrences(s, lo, hi, x) >= 2
  }

  /** What `duplicates_by` yields is exactly what the declarative rule removes. */
  lemma RemovedByScan(s: seq<Entry>, duplicates: I32)
    ensures ToSet(SecondOccurrences(s, ScanOrder(|s|, duplicates))) == Removed(s, duplicates)
  {
    var w := Window(|s|, duplicates);
    var r := SecondOccurrences(s, ScanOrder(|s|, duplicates));
    forall i: nat ensures i in r <==> i in Removed(s, duplicates) {
      if duplicates > 0 {
        SecondDescending(s, w.0, w.1, i);
      } else {
        SecondAscending(s, w.0, w.1, i);
      }
    }
  }

  /** `remove_duplicates`: remove in the write transaction every entry `duplicates_by` yields,
      then commit. */
  method RemoveDuplicates(db: Table, duplicates: I32)
    requires db.Valid()
    modifies db
    ensures db.Valid()
    ensures db.entries == Without(old(db.entries), Removed(old(db.entries), duplicates))
  {
    var snapshot := db.entries;
    var order := ScanOrder(db.Length(), duplicates);
    var dups := DuplicatesBy(snapshot, order);
    RemovedByScan(snapshot, duplicates);
    db.CommitRemovals(ToSet(dups));
  }

  // ---------------------------------------------------------------------------
  // What the removal guarantees.
  // ---------------------------------------------------------------------------

  /** The payloads the scan met twice are those stored at least twice in the window. */
  lemma TwiceIsRepeated(s: seq<Entry>, duplicates: I32)
    ensures var w := Window(|s|, duplicates);
            Twice(s, ScanOrder(|s|, duplicates)) == RepeatedPayloads(s, w.0, w.1)
  {
    var w := Window(|s|, duplicates);
    var order := ScanOrder(|s|, duplicates);
    forall x ensures x in Twice(s, order) <==> x in RepeatedPayloads(s, w.0, w.1) {
      if duplicates > 0 {
        TwiceDescending(s, w.0, w.1, x);
      } else {
        TwiceAscending(s, w.0, w.1, x);
      }
      SeenMember(s, order, x);
      if x in Seen(s, order) {
        var k :| 0 <= k < |order| && s[order[k]].payload == x;
        assert s[order[k]] in s;
      }
    }
  }

  /** Only entries whose payload is stored at least twice in the window are removed, and no
      two removed entries share a payload: at most one removal per payload and call. */
  lemma OneRemovalPerRepeatedPayload(s: seq<Entry>, duplicates: I32)
    ensures var w := Window(|s|, duplicates);
            forall i :: i in Removed(s, duplicates) ==> s[i].payload in RepeatedPayloads(s, w.0, w.1)
    ensures forall i, j :: i in Removed(s, duplicates) && j in Removed(s, duplicates) && i != j
              ==> s[i].payload != s[j].payload
  {
    var order := ScanOrder(|s|, duplicates);
    var r := SecondOccurrences(s, order);
    RemovedByScan(s, duplicates);
    SecondOccurrencesOnce(s, order);
    TwiceIsRepeated(s, duplicates);
    forall i, j | i in Removed(s, duplicates) && j in Removed(s, duplicates) && i != j
      ensures s[i].payload != s[j].payload
    {
      var a :| 0 <= a < |r| && r[a] == i;
      var b :| 0 <= b < |r| && r[b] == j;
      assert a != b;
    }
  }

  /** The number of entries removed is the number of distinct payloads stored at least twice
      in the window. */
  lemma RemovedCount(s: seq<Entry>, duplicates: I32)
    ensures var w := Window(|s|, duplicates);
            |Without(s, Removed(s, duplicates))| == |s| - |RepeatedPayloads(s, w.0, w.1)|
  {
    var order := ScanOrder(|s|, duplicates);
    var r := SecondOccurrences(s, order);
    RemovedByScan(s, duplicates);
    SecondOccurrencesOnce(s, order);
    TwiceIsRepeated(s, duplicates);
    DistinctPayloadsNoDups(s, r);
    ToSetSize(r);
    WithoutLength(s, Removed(s, duplicates));
  }

  /** A negative `duplicates` examines the whole table, like 0 does. */
  lemma NegativeMeansAll(s: seq<Entry>, duplicates: I32)
    requires duplicates < 0
    requires |s| < U64_LIMIT / 2
    ensures Removed(s, duplicates) == Removed(s, 0)
  {
  }
}
