/** The `recall` command of both command-line snapshots: the clip an id names. The CLI's
    (src/commands/recall.rs) skips `id - 1` entries of the key-ordered table and unwraps the
    next one; the app's (app/src/commands/recall.rs) answers an empty table with a message
    and otherwise takes the `(id - 1)`-th entry. */
module RecallCommand {
  import opened Wrappers
  import opened Machine
  import opened ClipStore
  import GreedyInt
  import AppMain

  /** `table.iter().skip(id - 1).next().unwrap()`. With overflow checks `0 - 1` panics; without
      them the skip goes past every entry and the unwrap panics. Either way, only the ids
      1..count produce a clip. */
  function RecallCli(s: seq<Entry>, id: GreedyInt.GreedyInt, overflowChecks: bool): (r: Outcome<Payload, ()>)
    requires |s| <= USIZE_MAX
    ensures r.Ok? <==> 1 <= id.value <= |s|
    ensures r.Ok? ==> r.value == s[id.value - 1].payload
    ensures !r.Ok? ==> r.Panic?
  {
    match GreedyInt.Sub(id, 1, overflowChecks)
    case Ok(skip) =>
      if skip < |s| then Ok(s[skip].payload)
      else Panic("called `Option::unwrap()` on a `None` value")
    case _ => Panic("attempt to subtract with overflow")
  }

  /** The app's `recall`: `Ok(None)` stands for the message printed for an empty table; for a
      non-empty one `nth(&id - 1).expect(..)`, which panics on the id 0 (underflow, or an index
      past the end) and on an id beyond the count. */
  function RecallApp(s: seq<Entry>, id: GreedyInt.GreedyInt, overflowChecks: bool): (r: Outcome<Option<Payload>, ()>)
    requires |s| <= USIZE_MAX
    ensures |s| == 0 ==> r == Ok(None)
    ensures |s| > 0 ==> (r.Ok? <==> 1 <= id.value <= |s|)
    ensures |s| > 0 && r.Ok? ==> r.value == Some(s[id.value - 1].payload)
    ensures !r.Ok? ==> r.Panic?
  {
    if |s| == 0 then Ok(None)
    else match GreedyInt.Sub(id, 1, overflowChecks)
      case Ok(n) =>
        if n < |s| then Ok(Some(s[n].payload))
        else Panic("There is no clip with that id")
      case _ => Panic("attempt to subtract with overflow")
  }

  // ---------------------------------------------------------------------------
  // Labels shown by `list` against the entries recalled.
  // ---------------------------------------------------------------------------

  /** The CLI's `list` shows the oldest entry as `count`, but `recall count` prints the newest:
      whenever the oldest and newest payloads differ, recalling a listed label gives a clip
      other than the one shown beside it. */
  lemma CliRecallMissesLabel(s: seq<Entry>, overflowChecks: bool)
    requires 2 <= |s| <= USIZE_MAX
    requires s[0].payload != s[|s| - 1].payload
    ensures var oldest := AppMain.ListLabel(|s|, 0);
            RecallCli(s, GreedyInt.GreedyInt(oldest), overflowChecks) == Ok(s[|s| - 1].payload)
            && RecallCli(s, GreedyInt.GreedyInt(oldest), overflowChecks) != Ok(s[0].payload)
  {
  }

  /** Recall by the label `list` prints beside the entry: label `id` names the entry at
      position `count - id`. */
  function RecallByLabel(s: seq<Entry>, id: Usize): (r: Option<Payload>)
    ensures r.Some? <==> 1 <= id <= |s|
    ensures r.Some? ==> r.value == s[|s| - id].payload
  {
    if 1 <= id <= |s| then Some(s[|s| - id].payload) else None
  }

  /** Every label `list` shows recalls the entry it was shown beside. */
  lemma RecallByLabelInvertsList(s: seq<Entry>, i: nat)
    requires i < |s| <= USIZE_MAX
    ensures RecallByLabel(s, AppMain.ListLabel(|s|, i)) == Some(s[i].payload)
  {
  }

  /** The app's modular `list` (app/src/commands/list.rs) prints each entry's position `i`
      from 0. */
  function AppListLabel(i: nat): (shown: nat)
    ensures shown == i
  {
    i
  }

  /** The app's `recall` of the label shown beside entry `i` prints entry `i - 1`, and the label
      of the oldest entry, 0, panics. */
  lemma AppRecallShiftedByOne(s: seq<Entry>, i: nat, overflowChecks: bool)
    requires i < |s| <= USIZE_MAX
    ensures var r := RecallApp(s, GreedyInt.GreedyInt(AppListLabel(i)), overflowChecks);
            (i == 0 ==> r.Panic?) && (i > 0 ==> r == Ok(Some(s[i - 1].payload)))
  {
  }

  /** Recall by the position the app's `list` prints. */
  function RecallByPosition(s: seq<Entry>, id: Usize): (r: Outcome<Option<Payload>, ()>)
    ensures |s| == 0 ==> r == Ok(None)
    ensures |s| > 0 ==> (r.Ok? <==> id < |s|)
    ensures |s| > 0 && r.Ok? ==> r.value == Some(s[id].payload)
    ensures !r.Ok? ==> r.Err?
  {
    if |s| == 0 then Ok(None)
    else if id < |s| then Ok(Some(s[id].payload))
    else Err(())
  }

  /** Every position the app's `list` prints recalls the entry it was printed beside. */
  lemma RecallByPositionInvertsList(s: seq<Entry>, i: nat)
    requires i < |s| <= USIZE_MAX
    ensures RecallByPosition(s, AppListLabel(i)) == Ok(Some(s[i].payload))
  {
  }
}
