/** The app's single-file entry point (app/src/main.rs): `store` into the redb table keyed by
    milliseconds, `list`'s numbering, and `wipe`. */
module AppMain {
  import opened Wrappers
  import opened Machine
  import opened ClipStore
  import opened StoreGuard
  import AppRedbDb

  /** The `Store` subcommand's states, by name. */
  datatype Command = StoreCmd(state: string) | ListCmd | WipeCmd | RemoveCmd

  /** `store(db_path, stdin)`: a refused payload returns `Ok` without writing; otherwise the
      payload is written under the current millisecond. */
  method Store(db: Table, payload: Payload, nowMillis: I64)
    requires db.Valid()
    modifies db
    ensures db.Valid()
    ensures Refused(VEC_HEADER_SIZE, payload) ==> db.entries == old(db.entries)
    ensures !Refused(VEC_HEADER_SIZE, payload) ==> db.entries == Upsert(old(db.entries), Entry(nowMillis, payload))
    ensures !Refused(VEC_HEADER_SIZE, payload) ==> Lookup(db.entries, nowMillis) == Some(payload)
  {
    if Refused(VEC_HEADER_SIZE, payload) {
      return;
    }
    db.Put(Entry(nowMillis, payload));
  }

  /** `wipe`: the table is borrowed for the scan and mutably borrowed again for each removal,
      so the first removal panics and the transaction is dropped uncommitted. On an empty
      table there is nothing to remove and the commit changes nothing. */
  method Wipe(db: Table) returns (result: Outcome<(), ()>)
    requires db.Valid()
    modifies db
    ensures db.entries == old(db.entries)
    ensures result.Ok? <==> |db.entries| == 0
    ensures !result.Ok? ==> result.Panic?
  {
    if db.Length() > 0 {
      return Panic("already borrowed: BorrowMutError");
    }
    result := Ok(());
  }

  /** `main`'s dispatch. The `Store` subcommand writes unless the state is "sensitive" or
      "clear", then removes duplicates (its extra `keep` argument has no effect); `Remove` is
      unimplemented (`todo!`). `List` writes nothing. */
  method Dispatch(db: Table, command: Command, payload: Payload, nowMillis: I64, duplicates: I32, overflowChecks: bool)
    returns (result: Outcome<(), ()>)
    requires db.Valid() && |db.entries| < U64_LIMIT - 1
    modifies db
    ensures db.Valid()
    ensures command.StoreCmd? && command.state in {"sensitive", "clear"} ==>
              result == Ok(()) && db.entries == old(db.entries)
    ensures command.ListCmd? || command.RemoveCmd? ==> db.entries == old(db.entries)
    ensures command.RemoveCmd? ==> result.Panic?
    ensures command.WipeCmd? ==> db.entries == old(db.entries)
    ensures command.StoreCmd? && command.state !in {"sensitive", "clear"} ==>
              var stored := if Refused(VEC_HEADER_SIZE, payload) then old(db.entries)
                            else Upsert(old(db.entries), Entry(nowMillis, payload));
              (result.Ok? ==> db.entries == Without(stored, AppRedbDb.Removed(stored, duplicates)))
              && (!result.Ok? ==> result.Panic? && db.entries == stored)
  {
    match command {
      case StoreCmd(state) =>
        if state == "sensitive" || state == "clear" {
          return Ok(());
        }
        Store(db, payload, nowMillis);
        assert |db.entries| <= |old(db.entries)| + 1 by {
          if !Refused(VEC_HEADER_SIZE, payload) {
            UpsertLength(old(db.entries), Entry(nowMillis, payload));
          }
        }
        result := AppRedbDb.RemoveDuplicates(db, duplicates, overflowChecks);
      case ListCmd =>
        result := Ok(());
      case WipeCmd =>
        result := Wipe(db);
      case RemoveCmd =>
        result := Panic("not yet implemented");
    }
  }

  /** `list` numbers the `i`-th entry in key order `count - i`. */
  function ListLabel(count: nat, i: nat): (shown: nat)
    requires i < count
    ensures 1 <= shown <= count
  {
    count - i
  }

  /** The labels run from `count` for the oldest entry down to 1 for the newest, strictly
      decreasing, so each of the labels 1..count names exactly one entry. */
  lemma ListLabelsBijective(count: nat)
    ensures forall i, j :: 0 <= i < j < count ==> ListLabel(count, i) > ListLabel(count, j)
    ensures count > 0 ==> ListLabel(count, 0) == count && ListLabel(count, count - 1) == 1
  {
  }
}
