/** The command-line tool's `store` command (src/commands/store.rs): admit the clip from stdin
    into the redb table under the current millisecond, then remove duplicates. */
module CliStore {
  import opened Wrappers
  import opened Machine
  import opened ClipStore
  import opened StoreGuard
  import CliDb

  /** `CLIPBOARD_STATE` as the clipboard tool reports it. */
  datatype ClipboardState = Nil | Data | Clear | Sensitive

  /** `store(db_path, payload)`: a refused payload returns `Ok` without writing; otherwise
      the payload is written under `now_millis`, replacing a clip stored in the same
      millisecond. */
  method Store(db: Table, payload: Payload, nowMillis: I64)
    requires db.Valid()
    modifies db
    ensures db.Valid()
    ensures Refused(VEC_HEADER_SIZE, payload) ==> db.entries == old(db.entries)
    ensures !Refused(VEC_HEADER_SIZE, payload) ==> db.entries == Upsert(old(db.entries), Entry(nowMillis, payload))
    ensures !Refused(VEC_HEADER_SIZE, payload) ==>
              Lookup(db.entries, nowMillis) == Some(payload)
              && forall k :: k != nowMillis ==> Lookup(db.entries, k) == Lookup(old(db.entries), k)
  {
    if Refused(VEC_HEADER_SIZE, payload) {
      return;
    }
    db.Put(Entry(nowMillis, payload));
  }

  /** `Store::execute`. `Data` stores and then removes duplicates with `duplicates`; the
      `keep` argument passed along does not match the two-parameter `remove_duplicates` and
      has no effect here. `Clear` and `Nil` only warn; `Sensitive` is unimplemented. */
  method Execute(db: Table, state: ClipboardState, payload: Payload, nowMillis: I64, duplicates: I32)
    returns (result: Outcome<(), ()>)
    requires db.Valid()
    modifies db
    ensures db.Valid()
    ensures state in {Nil, Clear} ==> result == Ok(()) && db.entries == old(db.entries)
    ensures state == Sensitive ==> result.Panic? && db.entries == old(db.entries)
    ensures state == Data ==>
              (var stored := if Refused(VEC_HEADER_SIZE, payload) then old(db.entries)
                             else Upsert(old(db.entries), Entry(nowMillis, payload));
               result == Ok(()) && db.entries == Without(stored, CliDb.Removed(stored, duplicates)))
  {
    match state {
      case Data =>
        Store(db, payload, nowMillis);
        CliDb.RemoveDuplicates(db, duplicates);
        result := Ok(());
      case Sensitive =>
        result := Panic("not yet implemented: Use non-persistent storage for secrets");
      case _ =>
        result := Ok(());
    }
  }

  /** A payload of any length that is not all whitespace is stored: the size limit measures the
      `Vec` header and never refuses anything. */
  lemma LargePayloadsStored(payload: Payload)
    requires |payload| > FIVE_MEGABYTES
    requires exists j :: 0 <= j < |payload| && !Text.IsAsciiWhitespace(payload[j])
    ensures !Refused(VEC_HEADER_SIZE, payload)
  {
    HeaderGuard(payload);
  }
}
