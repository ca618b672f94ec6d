/** The app's `remove` command (app/src/commands/remove.rs): delete the clip at the position an
    id names, in key order. */
module AppRemove {
  import opened Wrappers
  import opened Machine
  import opened ClipStore
  import GreedyInt

  /** Removing one position leaves the entries before it and after it, in order. */
  lemma WithoutOne<T>(s: seq<T>, k: nat)
    requires k < |s|
    ensures Without(s, {k}) == s[..k] + s[k + 1..]
  {
    var head := Without(s[..k + 1], {k});
    WithoutKeepsSuffix(s, {k}, k + 1);
    assert Without(s, {k}) == head + s[k + 1..];
    WithoutStep(s, {k}, k);
    assert head == Without(s[..k], {k}) + [];
    WithoutNothing(s[..k], {k});
    assert head == s[..k];
  }

  /** `Remove::execute`. An empty table gets a message and no write. Otherwise
      `nth(position - 1).expect(..)` picks the entry: the position 0 underflows (a panic with
      overflow checks, an index past the end without them) and a position beyond the count
      finds nothing, and both panic before the commit. */
  method Remove(db: Table, id: GreedyInt.GreedyInt, overflowChecks: bool) returns (result: Outcome<(), ()>)
    requires db.Valid() && |db.entries| <= USIZE_MAX
    modifies db
    ensures db.Valid()
    ensures |old(db.entries)| == 0 ==> result == Ok(()) && db.entries == old(db.entries)
    ensures |old(db.entries)| > 0 && !(1 <= id.value <= |old(db.entries)|) ==>
              result.Panic? && db.entries == old(db.entries)
    ensures |old(db.entries)| > 0 && 1 <= id.value <= |old(db.entries)| ==>
              result == Ok(()) && db.entries == Without(old(db.entries), {id.value - 1})
    ensures result.Ok? && 1 <= id.value <= |old(db.entries)| ==>
              var k := id.value - 1;
              |db.entries| == |old(db.entries)| - 1
              && db.entries == old(db.entries)[..k] + old(db.entries)[k + 1..]
  {
    var position: Usize := GreedyInt.IntoUsize(id);
    if db.Length() == 0 {
      return Ok(());
    }
    var index := CheckedSub(position, 1, overflowChecks);
    if index.Panic? {
      return Panic(index.message);
    }
    if index.value >= db.Length() {
      return Panic("No clip found at that index");
    }
    WithoutOne(db.entries, index.value);
    db.CommitRemovals({index.value});
    result := Ok(());
  }
}
