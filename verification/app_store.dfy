/** The app's `store` command (app/src/commands/store.rs): admit the clip from stdin into the
    native_db store, then remove duplicates and cap the size. */
module AppStore {
  import opened Wrappers
  import opened Machine
  import opened ClipStore
  import opened StoreGuard
  import AppDb
  import opened Scan

  /** `CLIPBOARD_STATE` as the clipboard tool reports it. */
  datatype State = Other | Nil | Data | Clear | Sensitive

  /** Why the insert failed: native_db refuses a second item under a stored primary key. */
  datatype StoreError = DuplicateKey

  /** `store(db, payload)`: panics (with the message "Data too large", whichever rule fired)
      on a refused payload; otherwise inserts one entry under the current time. */
  method Store(db: Table, payload: Payload, now: int) returns (result: Outcome<(), StoreError>)
    requires db.Valid()
    modifies db
    ensures db.Valid()
    ensures Refused(|payload|, payload) ==> result.Panic? && db.entries == old(db.entries)
    ensures !Refused(|payload|, payload) && now in Keys(old(db.entries)) ==>
              result == Err(DuplicateKey) && db.entries == old(db.entries)
    ensures !Refused(|payload|, payload) && now !in Keys(old(db.entries)) ==>
              result == Ok(()) && db.entries == Upsert(old(db.entries), Entry(now, payload))
              && |db.entries| == |old(db.entries)| + 1
  {
    if Refused(|payload|, payload) {
      return Panic("Data too large");
    }
    var inserted := db.Insert(Entry(now, payload));
    if !inserted {
      return Err(DuplicateKey);
    }
    result := Ok(());
  }

  /** The table after a successful store, the duplicate pass and the size cap, in that order. */
  ghost function AfterData(s: seq<Entry>, e: Entry, duplicates: I64, keep: U64): seq<Entry> {
    var stored := Upsert(s, e);
    var unique := Without(stored, AppDb.Removed(stored, duplicates));
    unique[Min(keep, |unique|)..]
  }

  /** `Store::execute`: only the `Data` state writes; `Sensitive` is unimplemented (`todo!`). */
  method Execute(db: Table, state: State, payload: Payload, now: int, duplicates: I64, keep: U64)
    returns (result: Outcome<(), StoreError>)
    requires db.Valid()
    modifies db
    ensures db.Valid()
    ensures state in {Other, Nil, Clear} ==> result == Ok(()) && db.entries == old(db.entries)
    ensures state == Sensitive ==> result.Panic? && db.entries == old(db.entries)
    ensures state == Data && !Refused(|payload|, payload) && now !in Keys(old(db.entries)) ==>
              result == Ok(()) && db.entries == AfterData(old(db.entries), Entry(now, payload), duplicates, keep)
    ensures state == Data && (Refused(|payload|, payload) || now in Keys(old(db.entries))) ==>
              !result.Ok? && db.entries == old(db.entries)
  {
    match state {
      case Data =>
        result := Store(db, payload, now);
        if !result.Ok? {
          return;
        }
        AppDb.RemoveDuplicates(db, duplicates);
        AppDb.EnsureDbSize(db, keep);
      case Sensitive =>
        result := Panic("not yet implemented: Use non-persistent storage for secrets");
      case _ =>
        result := Ok(());
    }
  }

  /** As written, the size cap after a store deletes the oldest `keep` entries: whenever the
      table, new clip included, holds at most `keep` clips, the command leaves it empty. */
  lemma CapEmptiesSmallTable(s: seq<Entry>, e: Entry, duplicates: I64, keep: U64)
    requires KeysIncreasing(s) && e.key !in Keys(s)
    requires |s| < keep
    ensures AfterData(s, e, duplicates, keep) == []
  {
    var stored := Upsert(s, e);
    UpsertLength(s, e);
    WithoutLength(stored, AppDb.Removed(stored, duplicates));
  }

  /** The table after a successful store, the duplicate pass and a cap that keeps the newest
      `keep` clips, as the `keep` option ("Amount of clips to keep in database") means it. */
  ghost function AfterDataCapped(s: seq<Entry>, e: Entry, duplicates: I64, keep: U64): seq<Entry> {
    var stored := Upsert(s, e);
    var unique := Without(stored, AppDb.Removed(stored, duplicates));
    unique[|unique| - Min(keep, |unique|)..]
  }

  /** `Store::execute` with the size cap keeping the newest `keep` clips. */
  method ExecuteCapped(db: Table, state: State, payload: Payload, now: int, duplicates: I64, keep: U64)
    returns (result: Outcome<(), StoreError>)
    requires db.Valid()
    modifies db
    ensures db.Valid()
    ensures state in {Other, Nil, Clear} ==> result == Ok(()) && db.entries == old(db.entries)
    ensures state == Sensitive ==> result.Panic? && db.entries == old(db.entries)
    ensures state == Data && !Refused(|payload|, payload) && now !in Keys(old(db.entries)) ==>
              result == Ok(()) && db.entries == AfterDataCapped(old(db.entries), Entry(now, payload), duplicates, keep)
    ensures state == Data && (Refused(|payload|, payload) || now in Keys(old(db.entries))) ==>
              !result.Ok? && db.entries == old(db.entries)
  {
    match state {
      case Data =>
        result := Store(db, payload, now);
        if !result.Ok? {
          return;
        }
        AppDb.RemoveDuplicates(db, duplicates);
        db.TrimToLimit(keep);
      case Sensitive =>
        result := Panic("not yet implemented: Use non-persistent storage for secrets");
      case _ =>
        result := Ok(());
    }
  }

  /** With the corrected cap, a clip stored under the latest time is the newest entry
      afterwards (for `duplicates >= 0`, which never removes the newest copy), and the table
      holds at most `keep` clips. */
  lemma NewClipKept(s: seq<Entry>, e: Entry, duplicates: I64, keep: U64)
    requires KeysIncreasing(s)
    requires forall i :: 0 <= i < |s| ==> s[i].key < e.key
    requires duplicates >= 0 && keep >= 1
    ensures var r := AfterDataCapped(s, e, duplicates, keep);
            1 <= |r| <= keep && r[|r| - 1] == e
  {
    var stored := Upsert(s, e);
    UpsertAppends(s, e);
    var removed := AppDb.Removed(stored, duplicates);
    assert |stored| - 1 !in removed by {
      assert !HasNewer(stored, |stored| - 1, |stored|);
    }
    assert stored[..|stored| - 1] == s;
    assert Without(stored, removed) == Without(s, removed) + [e];
  }

  /** Storing clips under ever later times into an empty store keeps them all, in order (the
      test at app/src/commands/store.rs:77-88). */
  ghost function StoreAll(s: seq<Entry>, clips: seq<Entry>): seq<Entry>
    decreases |clips|
  {
    if |clips| == 0 then s else StoreAll(Upsert(s, clips[0]), clips[1..])
  }

  lemma {:induction false} StoreAllInOrder(s: seq<Entry>, clips: seq<Entry>)
    requires KeysIncreasing(s + clips)
    ensures StoreAll(s, clips) == s + clips
    decreases |clips|
  {
    if |clips| > 0 {
      forall i | 0 <= i < |s| ensures s[i].key < clips[0].key {
        assert (s + clips)[i] == s[i] && (s + clips)[|s|] == clips[0];
      }
      UpsertAppends(s, clips[0]);
      assert s + [clips[0]] + clips[1..] == s + clips;
      StoreAllInOrder(s + [clips[0]], clips[1..]);
    }
  }
}
