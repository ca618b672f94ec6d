/** The stage every retention pass shares: walk a snapshot of the clip table in some order,
    remember the payloads met so far, and single out the entries whose payload was met before.
    A scan order is a sequence of positions in the snapshot. */
module Scan {
  import opened ClipStore

  /** Positions `lo, lo + 1, ..., hi - 1`: a forward cursor over that slice of the table. */
  function Ascending(lo: nat, hi: nat): (r: seq<nat>)
    requires lo <= hi
    ensures |r| == hi - lo
    ensures forall k :: 0 <= k < |r| ==> r[k] == lo + k
  {
    seq(hi - lo, k requires 0 <= k < hi - lo => lo + k)
  }

  /** Positions `hi - 1, hi - 2, ..., lo`: a reversed cursor over that slice of the table. */
  function Descending(lo: nat, hi: nat): (r: seq<nat>)
    requires lo <= hi
    ensures |r| == hi - lo
    ensures forall k :: 0 <= k < |r| ==> r[k] == hi - 1 - k
  {
    seq(hi - lo, k requires 0 <= k < hi - lo => hi - 1 - k)
  }

  /** Every position of the scan order exists in a snapshot of `n` entries. */
  ghost predicate Within(order: seq<nat>, n: nat) {
    forall k :: 0 <= k < |order| ==> order[k] < n
  }

  /** No position is visited twice. */
  ghost predicate NoDups(r: seq<nat>) {
    forall a, b :: 0 <= a < b < |r| ==> r[a] != r[b]
  }

  /** The positions of a sequence, as a set. */
  function ToSet(r: seq<nat>): set<nat> {
    set x | x in r
  }

  /** The distinct payloads stored in `s`. */
  function PayloadSet(s: seq<Entry>): set<Payload> {
    set e | e in s :: e.payload
  }

  // ---------------------------------------------------------------------------
  // The `seen` set and the entries `!seen.insert(payload)` lets through.
  // ---------------------------------------------------------------------------

  /** The `seen` set after the scan `order`: the payloads met so far. */
  function Seen(s: seq<Entry>, order: seq<nat>): set<Payload>
    requires Within(order, |s|)
  {
    if |order| == 0 then {}
    else Seen(s, order[..|order| - 1]) + {s[order[|order| - 1]].payload}
  }

  /** The positions, in scan order, whose payload was already in `seen` when the scan
      reached them: what `filter(|e| !seen.insert(e.payload))` yields. */
  function Repeats(s: seq<Entry>, order: seq<nat>): seq<nat>
    requires Within(order, |s|)
  {
    if |order| == 0 then []
    else
      var m := |order| - 1;
      Repeats(s, order[..m]) + (if s[order[m]].payload in Seen(s, order[..m]) then [order[m]] else [])
  }

  /** The filter stage of a retention pass, as a loop over the scan with a mutable `seen` set. */
  method FilterRepeats(s: seq<Entry>, order: seq<nat>) returns (repeats: seq<nat>)
    requires Within(order, |s|)
    ensures repeats == Repeats(s, order)
  {
    var seen: set<Payload> := {};
    repeats := [];
    for k := 0 to |order|
      invariant seen == Seen(s, order[..k])
      invariant repeats == Repeats(s, order[..k])
    {
      assert order[..k + 1][..k] == order[..k];
      var entry := s[order[k]];
      var inserted := entry.payload !in seen;
      seen := seen + {entry.payload};
      if !inserted {
        repeats := repeats + [order[k]];
      }
    }
    assert order[..|order|] == order;
  }

  lemma {:induction false} SeenMember(s: seq<Entry>, order: seq<nat>, x: Payload)
    requires Within(order, |s|)
    ensures x in Seen(s, order) <==> exists k :: 0 <= k < |order| && s[order[k]].payload == x
  {
    if |order| > 0 {
      var m := |order| - 1;
      SeenMember(s, order[..m], x);
      if exists k :: 0 <= k < |order| && s[order[k]].payload == x {
        var k :| 0 <= k < |order| && s[order[k]].payload == x;
        if k < m {
          assert order[..m][k] == order[k];
        }
      }
    }
  }

  /** Position `i` is visited after another position with the same payload. */
  ghost predicate RepeatOf(s: seq<Entry>, order: seq<nat>, i: nat)
    requires Within(order, |s|)
  {
    exists k, j :: 0 <= j < k < |order| && order[k] == i && s[order[j]].payload == s[i].payload
  }

  /** A repeat is a visited position, visited after another one with the same payload. */
  lemma {:induction false} RepeatsMember(s: seq<Entry>, order: seq<nat>, i: nat)
    requires Within(order, |s|)
    requires NoDups(order)
    ensures i in Repeats(s, order) <==>
              exists k, j :: 0 <= j < k < |order| && order[k] == i && s[order[j]].payload == s[i].payload
  {
    if |order| > 0 {
      var m := |order| - 1;
      assert NoDups(order[..m]);
      RepeatsMember(s, order[..m], i);
      SeenMember(s, order[..m], s[order[m]].payload);
      RepeatOfStep(s, order, i);
      assert i in Repeats(s, order) <==> RepeatOf(s, order, i);
    }
  }

  /** Extending the scan by one position adds that position as a repeat when its payload
      was met before. */
  lemma RepeatOfStep(s: seq<Entry>, order: seq<nat>, i: nat)
    requires Within(order, |s|) && |order| > 0
    ensures var m := |order| - 1;
            RepeatOf(s, order, i) <==>
              RepeatOf(s, order[..m], i)
              || (order[m] == i && exists j :: 0 <= j < m && s[order[..m][j]].payload == s[i].payload)
  {
    var m := |order| - 1;
    if RepeatOf(s, order, i) {
      var k, j :| 0 <= j < k < |order| && order[k] == i && s[order[j]].payload == s[i].payload;
      assert order[..m][j] == order[j];
      if k < m {
        assert order[..m][k] == i;
      }
    }
    if RepeatOf(s, order[..m], i) {
      var k, j :| 0 <= j < k < m && order[..m][k] == i && s[order[..m][j]].payload == s[i].payload;
      assert order[k] == i && order[j] == order[..m][j];
    }
    if order[m] == i && exists j :: 0 <= j < m && s[order[..m][j]].payload == s[i].payload {
      var j :| 0 <= j < m && s[order[..m][j]].payload == s[i].payload;
      assert order[j] == order[..m][j];
    }
  }

  /** Every repeat is a position of the scan, and a scan without revisits reports each at
      most once. */
  lemma {:induction false} RepeatsNoDups(s: seq<Entry>, order: seq<nat>)
    requires Within(order, |s|)
    requires NoDups(order)
    ensures NoDups(Repeats(s, order))
    ensures forall i :: i in Repeats(s, order) ==> i in order
  {
    if |order| > 0 {
      var m := |order| - 1;
      assert NoDups(order[..m]);
      RepeatsNoDups(s, order[..m]);
      var r := Repeats(s, order[..m]);
      forall i | i in r ensures i in order && i != order[m] {
        var k :| 0 <= k < m && order[..m][k] == i;
        assert order[k] == i;
      }
      if s[order[m]].payload in Seen(s, order[..m]) {
        assert Repeats(s, order) == r + [order[m]];
        forall a, b | 0 <= a < b < |r| + 1 ensures (r + [order[m]])[a] != (r + [order[m]])[b] {
          if b == |r| {
            assert r[a] in r;
          }
        }
      }
    }
  }

  /** Each step of the scan either grows `seen` or yields a repeat. */
  lemma {:induction false} RepeatsCount(s: seq<Entry>, order: seq<nat>)
    requires Within(order, |s|)
    ensures |Repeats(s, order)| + |Seen(s, order)| == |order|
  {
    if |order| > 0 {
      var m := |order| - 1;
      RepeatsCount(s, order[..m]);
      var x := s[order[m]].payload;
      if x in Seen(s, order[..m]) {
        assert Seen(s, order) == Seen(s, order[..m]);
      } else {
        assert |Seen(s, order[..m]) + {x}| == |Seen(s, order[..m])| + 1;
      }
    }
  }

  /** Without two equal payloads in the table, a scan that revisits nothing finds no repeat. */
  lemma {:induction false} RepeatsNone(s: seq<Entry>, order: seq<nat>)
    requires Within(order, |s|)
    requires NoDups(order)
    requires forall i, j :: 0 <= i < j < |s| ==> s[i].payload != s[j].payload
    ensures Repeats(s, order) == []
  {
    if |order| > 0 {
      var m := |order| - 1;
      assert NoDups(order[..m]);
      RepeatsNone(s, order[..m]);
      SeenMember(s, order[..m], s[order[m]].payload);
      forall k | 0 <= k < m ensures s[order[..m][k]].payload != s[order[m]].payload {
        assert order[..m][k] == order[k] != order[m];
      }
    }
  }

  lemma {:induction false} ToSetSize(r: seq<nat>)
    requires NoDups(r)
    ensures |ToSet(r)| == |r|
  {
    if |r| > 0 {
      var m := |r| - 1;
      assert NoDups(r[..m]);
      ToSetSize(r[..m]);
      assert ToSet(r) == ToSet(r[..m]) + {r[m]};
      assert r[m] !in ToSet(r[..m]);
    }
  }

  // ---------------------------------------------------------------------------
  // The two cursor directions.
  // ---------------------------------------------------------------------------

  /** Forward over `lo..hi`: the payloads met are exactly those stored there. */
  lemma {:induction false} SeenAscending(s: seq<Entry>, lo: nat, hi: nat, x: Payload)
    requires lo <= hi <= |s|
    ensures x in Seen(s, Ascending(lo, hi)) <==> exists j :: lo <= j < hi && s[j].payload == x
    decreases hi
  {
    if lo < hi {
      var o := Ascending(lo, hi);
      assert o[..|o| - 1] == Ascending(lo, hi - 1);
      SeenAscending(s, lo, hi - 1, x);
    }
  }

  /** Forward over `lo..hi`: a position is a repeat exactly when an OLDER entry of the
      window holds the same payload, so the oldest occurrence in the window survives. */
  lemma {:induction false} RepeatsAscending(s: seq<Entry>, lo: nat, hi: nat, i: nat)
    requires lo <= hi <= |s|
    ensures i in Repeats(s, Ascending(lo, hi)) <==>
              lo <= i < hi && exists j :: lo <= j < i && s[j].payload == s[i].payload
    decreases hi
  {
    if lo < hi {
      var o := Ascending(lo, hi);
      assert o[..|o| - 1] == Ascending(lo, hi - 1);
      RepeatsAscending(s, lo, hi - 1, i);
      SeenAscending(s, lo, hi - 1, s[hi - 1].payload);
    }
  }

  /** Backward over `lo..hi`: the payloads met are exactly those stored there. */
  lemma {:induction false} SeenDescending(s: seq<Entry>, lo: nat, hi: nat, x: Payload)
    requires lo <= hi <= |s|
    ensures x in Seen(s, Descending(lo, hi)) <==> exists j :: lo <= j < hi && s[j].payload == x
    decreases hi - lo
  {
    if lo < hi {
      var o := Descending(lo, hi);
      assert o[..|o| - 1] == Descending(lo + 1, hi);
      SeenDescending(s, lo + 1, hi, x);
    }
  }

  /** Backward over `lo..hi`: a position is a repeat exactly when a NEWER entry of the
      window holds the same payload, so the newest occurrence in the window survives. */
  lemma {:induction false} RepeatsDescending(s: seq<Entry>, lo: nat, hi: nat, i: nat)
    requires lo <= hi <= |s|
    ensures i in Repeats(s, Descending(lo, hi)) <==>
              lo <= i < hi && exists j :: i < j < hi && s[j].payload == s[i].payload
    decreases hi - lo
  {
    if lo < hi {
      var o := Descending(lo, hi);
      assert o[..|o| - 1] == Descending(lo + 1, hi);
      RepeatsDescending(s, lo + 1, hi, i);
      SeenDescending(s, lo + 1, hi, s[lo].payload);
    }
  }

  /** A full scan meets every payload of the table, in either direction. */
  lemma SeenAll(s: seq<Entry>)
    ensures Seen(s, Ascending(0, |s|)) == PayloadSet(s)
    ensures Seen(s, Descending(0, |s|)) == PayloadSet(s)
  {
    forall x ensures x in Seen(s, Ascending(0, |s|)) <==> x in PayloadSet(s) {
      SeenAscending(s, 0, |s|, x);
    }
    forall x ensures x in Seen(s, Descending(0, |s|)) <==> x in PayloadSet(s) {
      SeenDescending(s, 0, |s|, x);
    }
  }

  /** A full scan finds `len - #distinct payloads` repeats whichever way it runs. */
  lemma RepeatsFullCount(s: seq<Entry>)
    ensures |Repeats(s, Ascending(0, |s|))| == |s| - |PayloadSet(s)|
    ensures |Repeats(s, Descending(0, |s|))| == |s| - |PayloadSet(s)|
  {
    SeenAll(s);
    RepeatsCount(s, Ascending(0, |s|));
    RepeatsCount(s, Descending(0, |s|));
  }

  /** The scans used by the retention passes visit each position once. */
  lemma CursorsNoDups(lo: nat, hi: nat)
    requires lo <= hi
    ensures NoDups(Ascending(lo, hi)) && NoDups(Descending(lo, hi))
  {
  }

  /** Removing the repeats of a scan without revisits leaves the unscanned entries plus one
      entry per payload the scan met. */
  lemma RemainingCount(s: seq<Entry>, order: seq<nat>)
    requires Within(order, |s|)
    requires NoDups(order)
    ensures |Without(s, ToSet(Repeats(s, order)))| == |s| - |order| + |Seen(s, order)|
  {
    RepeatsNoDups(s, order);
    ToSetSize(Repeats(s, order));
    forall i | i in ToSet(Repeats(s, order)) ensures i < |s| {
      var k :| 0 <= k < |order| && order[k] == i;
    }
    WithoutLength(s, ToSet(Repeats(s, order)));
    RepeatsCount(s, order);
  }

  // ---------------------------------------------------------------------------
  // Keeping the newest copy of each payload.
  // ---------------------------------------------------------------------------

  /** Some entry of `lo..i` holds the payload of entry `i`. */
  ghost predicate HasOlder(s: seq<Entry>, lo: nat, i: nat)
    requires i < |s|
  {
    exists j :: lo <= j < i && s[j].payload == s[i].payload
  }

  /** Some entry of `i + 1..hi` holds the payload of entry `i`. */
  ghost predicate HasNewer(s: seq<Entry>, i: nat, hi: nat)
    requires i < |s| && hi <= |s|
  {
    exists j :: i < j < hi && s[j].payload == s[i].payload
  }

  /** The entries that a newer entry repeats. */
  ghost function Superseded(s: seq<Entry>): set<nat> {
    set i: nat | i < |s| && HasNewer(s, i, |s|)
  }

  /** The newest entry holding the payload of entry `i`. */
  lemma {:induction false} NewestCopy(s: seq<Entry>, i: nat) returns (k: nat)
    requires i < |s|
    ensures i <= k < |s| && s[k].payload == s[i].payload && !HasNewer(s, k, |s|)
    decreases |s| - i
  {
    if HasNewer(s, i, |s|) {
      var j :| i < j < |s| && s[j].payload == s[i].payload;
      k := NewestCopy(s, j);
    } else {
      k := i;
    }
  }

  /** Dropping every superseded entry keeps exactly one entry per payload: the newest. */
  lemma KeepNewest(s: seq<Entry>)
    ensures var w := Without(s, Superseded(s));
            && (forall a, b :: 0 <= a < b < |w| ==> w[a].payload != w[b].payload)
            && PayloadSet(w) == PayloadSet(s)
  {
    var d := Superseded(s);
    forall i, j | 0 <= i < j < |s| && i !in d && j !in d ensures s[i].payload != s[j].payload {
      if s[i].payload == s[j].payload {
        assert HasNewer(s, i, |s|);
      }
    }
    WithoutDistinctPayloads(s, d);
    var w := Without(s, d);
    forall x | x in PayloadSet(s) ensures x in PayloadSet(w) {
      var e :| e in s && e.payload == x;
      var i :| 0 <= i < |s| && s[i] == e;
      var k := NewestCopy(s, i);
      WithoutElements(s, d, s[k]);
    }
    forall x | x in PayloadSet(w) ensures x in PayloadSet(s) {
      var e :| e in w && e.payload == x;
      WithoutElements(s, d, e);
    }
  }

  /** The entries that an older entry already holds. */
  ghost function Shadowed(s: seq<Entry>): set<nat> {
    set i: nat | i < |s| && HasOlder(s, 0, i)
  }

  /** The oldest entry holding the payload of entry `i`. */
  lemma {:induction false} OldestCopy(s: seq<Entry>, i: nat) returns (k: nat)
    requires i < |s|
    ensures k <= i && s[k].payload == s[i].payload && !HasOlder(s, 0, k)
    decreases i
  {
    if HasOlder(s, 0, i) {
      var j :| 0 <= j < i && s[j].payload == s[i].payload;
      k := OldestCopy(s, j);
    } else {
      k := i;
    }
  }

  /** Dropping every shadowed entry keeps exactly one entry per payload: the oldest. */
  lemma KeepOldest(s: seq<Entry>)
    ensures var w := Without(s, Shadowed(s));
            && (forall a, b :: 0 <= a < b < |w| ==> w[a].payload != w[b].payload)
            && PayloadSet(w) == PayloadSet(s)
  {
    var d := Shadowed(s);
    forall i, j | 0 <= i < j < |s| && i !in d && j !in d ensures s[i].payload != s[j].payload {
      if s[i].payload == s[j].payload {
        assert HasOlder(s, 0, j);
      }
    }
    WithoutDistinctPayloads(s, d);
    var w := Without(s, d);
    forall x | x in PayloadSet(s) ensures x in PayloadSet(w) {
      var e :| e in s && e.payload == x;
      var i :| 0 <= i < |s| && s[i] == e;
      var k := OldestCopy(s, i);
      WithoutElements(s, d, s[k]);
    }
    forall x | x in PayloadSet(w) ensures x in PayloadSet(s) {
      var e :| e in w && e.payload == x;
      WithoutElements(s, d, e);
    }
  }

  /** A table whose payloads are pairwise different has nothing superseded. */
  lemma NothingSuperseded(s: seq<Entry>)
    requires forall a, b :: 0 <= a < b < |s| ==> s[a].payload != s[b].payload
    ensures Superseded(s) == {}
  {
    forall i: nat | i < |s| ensures !HasNewer(s, i, |s|) {
      assert forall j :: i < j < |s| ==> s[i].payload != s[j].payload;
    }
  }

  // ---------------------------------------------------------------------------
  // itertools' `duplicates_by`: each repeated payload is reported once, at its
  // second occurrence in scan order.
  // ---------------------------------------------------------------------------

  /** The payloads met at least twice by the scan `order`. */
  function Twice(s: seq<Entry>, order: seq<nat>): set<Payload>
    requires Within(order, |s|)
  {
    if |order| == 0 then {}
    else
      var m := |order| - 1;
      var x := s[order[m]].payload;
      Twice(s, order[..m]) + (if x in Seen(s, order[..m]) then {x} else {})
  }

  /** The positions, in scan order, that `duplicates_by` yields: those whose payload had
      been met exactly once before. */
  function SecondOccurrences(s: seq<Entry>, order: seq<nat>): (r: seq<nat>)
    requires Within(order, |s|)
    ensures Within(r, |s|)
  {
    if |order| == 0 then []
    else
      var m := |order| - 1;
      var x := s[order[m]].payload;
      SecondOccurrences(s, order[..m])
        + (if x in Seen(s, order[..m]) && x !in Twice(s, order[..m]) then [order[m]] else [])
  }

  /** The adapter as a loop over its `used` map: absent = never met, `false` = met once,
      `true` = already reported. */
  method DuplicatesBy(s: seq<Entry>, order: seq<nat>) returns (dups: seq<nat>)
    requires Within(order, |s|)
    ensures dups == SecondOccurrences(s, order)
  {
    var used: map<Payload, bool> := map[];
    dups := [];
    for k := 0 to |order|
      invariant used.Keys == Seen(s, order[..k])
      invariant forall x :: x in used ==> (used[x] <==> x in Twice(s, order[..k]))
      invariant Twice(s, order[..k]) <= Seen(s, order[..k])
      invariant dups == SecondOccurrences(s, order[..k])
    {
      assert order[..k + 1][..k] == order[..k];
      var x := s[order[k]].payload;
      if x !in used {
        used := used[x := false];
      } else if !used[x] {
        used := used[x := true];
        dups := dups + [order[k]];
      }
    }
    assert order[..|order|] == order;
  }

  /** How many entries of `lo..hi` hold the payload `x`. */
  function Occurrences(s: seq<Entry>, lo: nat, hi: nat, x: Payload): nat
    requires lo <= hi <= |s|
    decreases hi
  {
    if lo == hi then 0
    else Occurrences(s, lo, hi - 1, x) + (if s[hi - 1].payload == x then 1 else 0)
  }

  lemma {:induction false} OccurrencesFront(s: seq<Entry>, lo: nat, hi: nat, x: Payload)
    requires lo < hi <= |s|
    ensures Occurrences(s, lo, hi, x) == (if s[lo].payload == x then 1 else 0) + Occurrences(s, lo + 1, hi, x)
    decreases hi
  {
    if lo + 1 < hi {
      OccurrencesFront(s, lo, hi - 1, x);
    }
  }

  /** Forward over `lo..hi`: `x` was met once or twice exactly when it occurs that often. */
  lemma {:induction false} TwiceAscending(s: seq<Entry>, lo: nat, hi: nat, x: Payload)
    requires lo <= hi <= |s|
    ensures x in Seen(s, Ascending(lo, hi)) <==> Occurrences(s, lo, hi, x) >= 1
    ensures x in Twice(s, Ascending(lo, hi)) <==> Occurrences(s, lo, hi, x) >= 2
    decreases hi
  {
    if lo < hi {
      var o := Ascending(lo, hi);
      assert o[..|o| - 1] == Ascending(lo, hi - 1);
      TwiceAscending(s, lo, hi - 1, x);
    }
  }

  /** Backward over `lo..hi`: the same, since counting does not depend on direction. */
  lemma {:induction false} TwiceDescending(s: seq<Entry>, lo: nat, hi: nat, x: Payload)
    requires lo <= hi <= |s|
    ensures x in Seen(s, Descending(lo, hi)) <==> Occurrences(s, lo, hi, x) >= 1
    ensures x in Twice(s, Descending(lo, hi)) <==> Occurrences(s, lo, hi, x) >= 2
    decreases hi - lo
  {
    if lo < hi {
      var o := Descending(lo, hi);
      assert o[..|o| - 1] == Descending(lo + 1, hi);
      TwiceDescending(s, lo + 1, hi, x);
      OccurrencesFront(s, lo, hi, x);
    }
  }

  /** Forward over `lo..hi`, the yielded positions are those with exactly one OLDER entry
      of the window holding the same payload. */
  lemma {:induction false} SecondAscending(s: seq<Entry>, lo: nat, hi: nat, i: nat)
    requires lo <= hi <= |s|
    ensures i in SecondOccurrences(s, Ascending(lo, hi)) <==>
              lo <= i < hi && Occurrences(s, lo, i, s[i].payload) == 1
    decreases hi
  {
    if lo < hi {
      var o := Ascending(lo, hi);
      assert o[..|o| - 1] == Ascending(lo, hi - 1);
      SecondAscending(s, lo, hi - 1, i);
      TwiceAscending(s, lo, hi - 1, s[hi - 1].payload);
    }
  }

  /** Backward over `lo..hi`, the yielded positions are those with exactly one NEWER entry
      of the window holding the same payload. */
  lemma {:induction false} SecondDescending(s: seq<Entry>, lo: nat, hi: nat, i: nat)
    requires lo <= hi <= |s|
    ensures i in SecondOccurrences(s, Descending(lo, hi)) <==>
              lo <= i < hi && Occurrences(s, i + 1, hi, s[i].payload) == 1
    decreases hi - lo
  {
    if lo < hi {
      var o := Descending(lo, hi);
      assert o[..|o| - 1] == Descending(lo + 1, hi);
      SecondDescending(s, lo + 1, hi, i);
      TwiceDescending(s, lo + 1, hi, s[lo].payload);
    }
  }

  /** Each payload met twice is reported exactly once: the yielded positions carry pairwise
      different payloads, all of them repeated, and there are as many as repeated payloads. */
  lemma {:induction false} SecondOccurrencesOnce(s: seq<Entry>, order: seq<nat>)
    requires Within(order, |s|)
    ensures var r := SecondOccurrences(s, order);
            && (forall a :: 0 <= a < |r| ==> s[r[a]].payload in Twice(s, order))
            && (forall a, b :: 0 <= a < b < |r| ==> s[r[a]].payload != s[r[b]].payload)
            && |r| == |Twice(s, order)|
  {
    if |order| > 0 {
      var m := |order| - 1;
      SecondOccurrencesOnce(s, order[..m]);
      var x := s[order[m]].payload;
      var r := SecondOccurrences(s, order[..m]);
      if x in Seen(s, order[..m]) && x !in Twice(s, order[..m]) {
        assert SecondOccurrences(s, order) == r + [order[m]];
        assert |Twice(s, order[..m]) + {x}| == |Twice(s, order[..m])| + 1;
      } else if x in Seen(s, order[..m]) {
        assert Twice(s, order) == Twice(s, order[..m]);
      }
    }
  }

  /** Positions with pairwise different payloads are pairwise different. */
  lemma DistinctPayloadsNoDups(s: seq<Entry>, r: seq<nat>)
    requires Within(r, |s|)
    requires forall a, b :: 0 <= a < b < |r| ==> s[r[a]].payload != s[r[b]].payload
    ensures NoDups(r)
  {
  }
}
