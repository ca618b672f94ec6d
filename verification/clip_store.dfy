/** The clip table that every snapshot stores into: an ordered key-value table whose scan
    order is primary-key order. Keys are the primary keys of the source's tables (a timestamp
    or an entry id, see TimeKey for why numeric order is scan order). */
module ClipStore {
  import opened Machine
  import opened Wrappers

  type Payload = seq<Byte>

  datatype Entry = Entry(key: int, payload: Payload)

  /** Primary keys are unique and the sequence is in scan order. */
  ghost predicate KeysIncreasing(s: seq<Entry>) {
    forall i, j :: 0 <= i < j < |s| ==> s[i].key < s[j].key
  }

  function Payloads(s: seq<Entry>): (p: seq<Payload>)
    ensures |p| == |s|
    ensures forall i :: 0 <= i < |s| ==> p[i] == s[i].payload
  {
    seq(|s|, i requires 0 <= i < |s| => s[i].payload)
  }

  function Keys(s: seq<Entry>): set<int> {
    if |s| == 0 then {} else {s[0].key} + Keys(s[1..])
  }

  lemma {:induction false} KeysMember(s: seq<Entry>, k: int)
    ensures k in Keys(s) <==> exists i :: 0 <= i < |s| && s[i].key == k
  {
    if |s| > 0 {
      KeysMember(s[1..], k);
      if exists i :: 0 <= i < |s| && s[i].key == k {
        var i :| 0 <= i < |s| && s[i].key == k;
        if i > 0 { assert s[1..][i - 1].key == k; }
      }
    }
  }

  /** The value stored under `key`, as a lookup in the table would return it. */
  function Lookup(s: seq<Entry>, key: int): Option<Payload> {
    if |s| == 0 then None
    else if s[0].key == key then Some(s[0].payload)
    else Lookup(s[1..], key)
  }

  // ---------------------------------------------------------------------------
  // Removal of a set of positions: what a write transaction that removed those
  // entries leaves after it commits.
  // ---------------------------------------------------------------------------

  /** The elements of `s` whose position is not in `doomed`, in their original order. */
  function Without<T>(s: seq<T>, doomed: set<nat>): seq<T> {
    if |s| == 0 then []
    else Without(s[..|s| - 1], doomed) + (if |s| - 1 in doomed then [] else [s[|s| - 1]])
  }

  /** `a` is obtained from `b` by deleting elements. */
  ghost predicate IsSubsequence<T>(a: seq<T>, b: seq<T>)
    decreases |b|
  {
    if |a| == 0 then true
    else if |b| == 0 then false
    else (a[|a| - 1] == b[|b| - 1] && IsSubsequence(a[..|a| - 1], b[..|b| - 1]))
         || IsSubsequence(a, b[..|b| - 1])
  }

  /** The positions `0..n`. */
  function Below(n: nat): set<nat> {
    if n == 0 then {} else Below(n - 1) + {n - 1}
  }

  lemma {:induction false} BelowMember(n: nat, i: nat)
    ensures i in Below(n) <==> i < n
  {
    if n > 0 {
      BelowMember(n - 1, i);
    }
  }

  lemma {:induction false} BelowSize(n: nat)
    ensures |Below(n)| == n
  {
    if n > 0 {
      BelowSize(n - 1);
      BelowMember(n - 1, n - 1);
    }
  }

  lemma {:induction false} WithoutIrrelevant<T>(s: seq<T>, d1: set<nat>, d2: set<nat>)
    requires forall i :: 0 <= i < |s| ==> (i in d1 <==> i in d2)
    ensures Without(s, d1) == Without(s, d2)
  {
    if |s| > 0 {
      WithoutIrrelevant(s[..|s| - 1], d1, d2);
    }
  }

  /** Removing positions that are all within the table shortens it by their number. */
  lemma {:induction false} WithoutLength<T>(s: seq<T>, doomed: set<nat>)
    requires forall i :: i in doomed ==> i < |s|
    ensures |Without(s, doomed)| == |s| - |doomed|
  {
    if |s| > 0 {
      var n := |s| - 1;
      var rest := doomed - {n};
      WithoutIrrelevant(s[..n], doomed, rest);
      WithoutLength(s[..n], rest);
      if n in doomed {
        assert doomed == rest + {n};
      } else {
        assert doomed == rest;
      }
    } else {
      assert doomed == {};
    }
  }

  lemma {:induction false} WithoutNothing<T>(s: seq<T>, doomed: set<nat>)
    requires forall i :: 0 <= i < |s| ==> i !in doomed
    ensures Without(s, doomed) == s
  {
    if |s| > 0 {
      WithoutNothing(s[..|s| - 1], doomed);
      assert s[..|s| - 1] + [s[|s| - 1]] == s;
    }
  }

  /** Every survivor is an element of `s` at a position that was not removed. */
  lemma {:induction false} WithoutElements<T>(s: seq<T>, doomed: set<nat>, x: T)
    ensures x in Without(s, doomed) <==> exists i :: 0 <= i < |s| && i !in doomed && s[i] == x
  {
    if |s| > 0 {
      var n := |s| - 1;
      WithoutElements(s[..n], doomed, x);
      if exists i :: 0 <= i < |s| && i !in doomed && s[i] == x {
        var i :| 0 <= i < |s| && i !in doomed && s[i] == x;
        if i < n {
          assert s[..n][i] == x;
        }
      }
    }
  }

  /** Removing the first `m` positions drops a prefix. */
  lemma {:induction false} WithoutPrefix<T>(s: seq<T>, m: nat)
    requires m <= |s|
    ensures Without(s, Below(m)) == s[m..]
  {
    if |s| > m {
      WithoutPrefix(s[..|s| - 1], m);
      BelowMember(m, |s| - 1);
      assert s[..|s| - 1][m..] + [s[|s| - 1]] == s[m..];
    } else {
      forall i | 0 <= i < |s| ensures i in Below(m) { BelowMember(m, i); }
      WithoutAll(s, Below(m));
    }
  }

  lemma {:induction false} WithoutAll<T>(s: seq<T>, doomed: set<nat>)
    requires forall i :: 0 <= i < |s| ==> i in doomed
    ensures Without(s, doomed) == []
  {
    if |s| > 0 {
      WithoutAll(s[..|s| - 1], doomed);
    }
  }

  /** When every position in `lo..hi` is removed, the part of the table up to `hi`
      contributes only what survives below `lo`. */
  lemma {:induction false} WithoutGap<T>(s: seq<T>, doomed: set<nat>, lo: nat, hi: nat)
    requires lo <= hi <= |s|
    requires forall i :: lo <= i < hi ==> i in doomed
    ensures Without(s[..hi], doomed) == Without(s[..lo], doomed)
    decreases hi
  {
    if lo < hi {
      assert s[..hi][..hi - 1] == s[..hi - 1];
      WithoutGap(s, doomed, lo, hi - 1);
    }
  }

  /** One step of `Without` on a prefix of `s`. */
  lemma WithoutStep<T>(s: seq<T>, doomed: set<nat>, n: nat)
    requires n < |s|
    ensures Without(s[..n + 1], doomed)
         == Without(s[..n], doomed) + (if n in doomed then [] else [s[n]])
  {
    assert s[..n + 1][..n] == s[..n];
  }

  /** Removals confined to `0..hi` leave the entries from `hi` on in place, at the end. */
  lemma {:induction false} WithoutKeepsSuffix<T>(s: seq<T>, doomed: set<nat>, hi: nat)
    requires hi <= |s|
    requires forall i :: i in doomed ==> i < hi
    ensures Without(s, doomed) == Without(s[..hi], doomed) + s[hi..]
  {
    if |s| > hi {
      var n := |s| - 1;
      WithoutKeepsSuffix(s[..n], doomed, hi);
      assert s[..n][..hi] == s[..hi];
      assert s[..n][hi..] + [s[n]] == s[hi..];
    } else {
      assert s[..hi] == s;
    }
  }

  /** Removals confined to positions from `lo` on leave the first `lo` entries in place. */
  lemma {:induction false} WithoutKeepsPrefix<T>(s: seq<T>, doomed: set<nat>, lo: nat)
    requires lo <= |s|
    requires forall i :: i in doomed ==> lo <= i
    ensures lo <= |Without(s, doomed)| && Without(s, doomed)[..lo] == s[..lo]
  {
    if |s| > lo {
      var n := |s| - 1;
      WithoutKeepsPrefix(s[..n], doomed, lo);
      assert s[..n][..lo] == s[..lo];
    } else {
      WithoutNothing(s, doomed);
    }
  }

  lemma {:induction false} WithoutIsSubsequence<T>(s: seq<T>, doomed: set<nat>)
    ensures IsSubsequence(Without(s, doomed), s)
  {
    if |s| > 0 {
      var n := |s| - 1;
      WithoutIsSubsequence(s[..n], doomed);
      if n in doomed {
        SubsequenceExtend(Without(s[..n], doomed), s[..n], s[n]);
        assert s[..n] + [s[n]] == s;
        assert Without(s, doomed) == Without(s[..n], doomed);
      } else {
        var w := Without(s[..n], doomed) + [s[n]];
        assert w[..|w| - 1] == Without(s[..n], doomed);
        assert s[..|s| - 1] == s[..n];
      }
    }
  }

  lemma {:induction false} SubsequenceExtend<T>(a: seq<T>, b: seq<T>, x: T)
    requires IsSubsequence(a, b)
    ensures IsSubsequence(a, b + [x])
  {
    if |a| > 0 {
      assert (b + [x])[..|b + [x]| - 1] == b;
    }
  }

  /** Pairwise relations among survivors are inherited from the relation among the
      positions that were kept; used for key order and for distinct payloads. */
  lemma {:induction false} WithoutKeysIncreasing(s: seq<Entry>, doomed: set<nat>)
    requires KeysIncreasing(s)
    ensures KeysIncreasing(Without(s, doomed))
  {
    if |s| > 0 {
      var n := |s| - 1;
      var w := Without(s[..n], doomed);
      WithoutKeysIncreasing(s[..n], doomed);
      if n !in doomed {
        forall a | 0 <= a < |w| ensures w[a].key < s[n].key {
          WithoutElements(s[..n], doomed, w[a]);
        }
      }
    }
  }

  lemma {:induction false} WithoutDistinctPayloads(s: seq<Entry>, doomed: set<nat>)
    requires forall i, j :: 0 <= i < j < |s| && i !in doomed && j !in doomed
               ==> s[i].payload != s[j].payload
    ensures var w := Without(s, doomed);
            forall a, b :: 0 <= a < b < |w| ==> w[a].payload != w[b].payload
  {
    if |s| > 0 {
      var n := |s| - 1;
      var w := Without(s[..n], doomed);
      WithoutDistinctPayloads(s[..n], doomed);
      if n !in doomed {
        forall a | 0 <= a < |w| ensures w[a].payload != s[n].payload {
          WithoutElements(s[..n], doomed, w[a]);
        }
      }
    }
  }

  // ---------------------------------------------------------------------------
  // Insertion into the ordered table.
  // ---------------------------------------------------------------------------

  /** Puts `e` at its key's place, replacing an entry with the same key. */
  function Upsert(s: seq<Entry>, e: Entry): seq<Entry> {
    if |s| == 0 then [e]
    else if e.key < s[0].key then [e] + s
    else if e.key == s[0].key then [e] + s[1..]
    else [s[0]] + Upsert(s[1..], e)
  }

  lemma {:induction false} UpsertKeys(s: seq<Entry>, e: Entry)
    ensures Keys(Upsert(s, e)) == Keys(s) + {e.key}
  {
    if |s| > 0 {
      if e.key < s[0].key {
        assert ([e] + s)[1..] == s;
      } else if e.key == s[0].key {
        assert ([e] + s[1..])[1..] == s[1..];
      } else {
        assert ([s[0]] + Upsert(s[1..], e))[1..] == Upsert(s[1..], e);
        UpsertKeys(s[1..], e);
      }
    }
  }

  /** Inserting keeps the table in key order. */
  lemma {:induction false} UpsertKeysIncreasing(s: seq<Entry>, e: Entry)
    requires KeysIncreasing(s)
    ensures KeysIncreasing(Upsert(s, e))
  {
    if |s| > 0 && e.key > s[0].key {
      UpsertKeysIncreasing(s[1..], e);
      UpsertKeys(s[1..], e);
      var u := Upsert(s[1..], e);
      forall j | 0 <= j < |u| ensures s[0].key < u[j].key {
        KeysMember(u, u[j].key);
        KeysMember(s[1..], u[j].key);
      }
    }
  }

  /** The table after `Upsert` maps `e.key` to `e.payload` and every other key as before. */
  lemma {:induction false} UpsertLookup(s: seq<Entry>, e: Entry, key: int)
    requires KeysIncreasing(s)
    ensures Lookup(Upsert(s, e), key) == if key == e.key then Some(e.payload) else Lookup(s, key)
  {
    if |s| > 0 {
      if e.key < s[0].key {
        if key != e.key && key != s[0].key {
          assert ([e] + s)[1..] == s;
        }
      } else if e.key == s[0].key {
        if key != e.key {
          assert ([e] + s[1..])[1..] == s[1..];
        }
      } else {
        assert ([s[0]] + Upsert(s[1..], e))[1..] == Upsert(s[1..], e);
        UpsertLookup(s[1..], e, key);
      }
    }
  }

  /** A key larger than every stored key lands at the end: the newest clip is scanned last. */
  lemma {:induction false} UpsertAppends(s: seq<Entry>, e: Entry)
    requires forall i :: 0 <= i < |s| ==> s[i].key < e.key
    ensures Upsert(s, e) == s + [e]
  {
    if |s| > 0 {
      UpsertAppends(s[1..], e);
      assert [s[0]] + (s[1..] + [e]) == s + [e];
    }
  }

  /** Inserting under a key already present replaces that entry and keeps the size. */
  lemma {:induction false} UpsertLength(s: seq<Entry>, e: Entry)
    requires KeysIncreasing(s)
    ensures |Upsert(s, e)| == if e.key in Keys(s) then |s| else |s| + 1
  {
    if |s| > 0 {
      if e.key > s[0].key {
        UpsertLength(s[1..], e);
      } else if e.key < s[0].key {
        KeysMember(s[1..], e.key);
      }
    }
  }

  /** An ordered table with unique primary keys. */
  class Table {
    var entries: seq<Entry>

    ghost predicate Valid()
      reads this
    {
      KeysIncreasing(entries)
    }

    constructor ()
      ensures Valid() && entries == []
    {
      entries := [];
    }

    /** `len()` of the table. */
    function Length(): (n: nat)
      reads this
      ensures n == |entries|
    {
      |entries|
    }

    /** Commits a write transaction that removed the entries at the positions `doomed`
        (positions in the scan order of the snapshot the transaction read). */
    method CommitRemovals(doomed: set<nat>)
      requires Valid()
      modifies this
      ensures Valid()
      ensures entries == Without(old(entries), doomed)
    {
      WithoutKeysIncreasing(entries, doomed);
      entries := Without(entries, doomed);
    }

    /** A size cap that keeps the table's newest `limit` entries: it removes the first
        `len - limit` entries in scan order, or nothing when `limit >= len`. */
    method TrimToLimit(limit: nat)
      requires Valid()
      modifies this
      ensures Valid()
      ensures |entries| == Min(limit, |old(entries)|)
      ensures |old(entries)| <= limit ==> entries == old(entries)
      ensures |old(entries)| > limit ==> entries == old(entries)[|old(entries)| - limit..]
    {
      var len := Length();
      if limit >= len {
        return;
      }
      var amount := len - limit;
      var doomed: set<nat> := {};
      for k := 0 to amount
        invariant doomed == Below(k)
      {
        doomed := doomed + {k};
      }
      WithoutPrefix(entries, amount);
      CommitRemovals(doomed);
    }

    /** redb's `table.insert(key, value)`: inserts, or replaces the value under an existing key. */
    method Put(e: Entry)
      requires Valid()
      modifies this
      ensures Valid()
      ensures entries == Upsert(old(entries), e)
      ensures Lookup(entries, e.key) == Some(e.payload)
      ensures forall k :: k != e.key ==> Lookup(entries, k) == Lookup(old(entries), k)
    {
      UpsertKeysIncreasing(entries, e);
      forall k { UpsertLookup(entries, e, k); }
      entries := Upsert(entries, e);
    }

    /** native_db's `tx.insert(item)`: refuses an item whose primary key is already stored. */
    method Insert(e: Entry) returns (inserted: bool)
      requires Valid()
      modifies this
      ensures Valid()
      ensures inserted <==> e.key !in Keys(old(entries))
      ensures entries == if inserted then Upsert(old(entries), e) else old(entries)
      ensures inserted ==> |entries| == |old(entries)| + 1
    {
      inserted := e.key !in Keys(entries);
      if inserted {
        UpsertKeysIncreasing(entries, e);
        UpsertLength(entries, e);
        entries := Upsert(entries, e);
      }
    }
  }
}
