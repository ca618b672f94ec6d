/** The peer registry (daemon/src/sync/node_manager.rs, and the same code as
    daemon/src/sync/utils.rs): a native_db table of `Node` records keyed by device id. A node
    is inserted only when no stored record is equal to it, field by field. */
module Peers {
  import opened Wrappers
  import opened Node

  /** Why `insert` failed: a record with the same device id is already stored. */
  datatype InsertError = DuplicateKey

  /** No two stored records share a device id. */
  ghost predicate UniqueKeys(s: seq<Node>) {
    forall i, j :: 0 <= i < j < |s| ==> s[i].deviceId != s[j].deviceId
  }

  ghost predicate KeyStored(s: seq<Node>, key: Option<DeviceIdentifier>) {
    exists i :: 0 <= i < |s| && s[i].deviceId == key
  }

  /** The registry after `add_node(node)` (or `join(node)`): unchanged when an equal record is
      stored; otherwise the insert, which fails when the device id is taken and appends the
      record when it is not. */
  function Added(s: seq<Node>, node: Node): (r: Outcome<seq<Node>, InsertError>)
    ensures node in s ==> r == Ok(s)
    ensures node !in s && KeyStored(s, node.deviceId) ==> r == Err(DuplicateKey)
    ensures node !in s && !KeyStored(s, node.deviceId) ==> r == Ok(s + [node])
    ensures r.Ok? ==> node in r.value
  {
    if node in s then Ok(s)
    else if exists i :: 0 <= i < |s| && s[i].deviceId == node.deviceId then Err(DuplicateKey)
    else Ok(s + [node])
  }

  /** A registry whose keys are unique keeps them unique. */
  lemma AddedUniqueKeys(s: seq<Node>, node: Node)
    requires UniqueKeys(s)
    ensures Added(s, node).Ok? ==> UniqueKeys(Added(s, node).value)
  {
  }

  /** Adding the same node twice is the same as adding it once, and leaves exactly one copy. */
  lemma {:induction false} AddedIdempotent(s: seq<Node>, node: Node)
    requires UniqueKeys(s)
    requires Added(s, node).Ok?
    ensures Added(Added(s, node).value, node) == Added(s, node)
    ensures multiset(Added(s, node).value)[node] == 1
  {
    var t := Added(s, node).value;
    if node in s {
      var i :| 0 <= i < |s| && s[i] == node;
      OnlyCopy(s, i);
    } else {
      assert multiset(s)[node] == 0;
      assert multiset(t) == multiset(s) + multiset{node};
    }
  }

  /** In a registry with unique keys, a stored record occurs exactly once. */
  lemma {:induction false} OnlyCopy(s: seq<Node>, i: nat)
    requires UniqueKeys(s) && i < |s|
    ensures multiset(s)[s[i]] == 1
  {
    if |s| > 0 {
      var n := |s| - 1;
      var init := s[..n];
      assert s == init + [s[n]];
      if i == n {
        assert multiset(init)[s[n]] == 0;
      } else {
        OnlyCopy(init, i);
        assert s[n] != s[i] by {
          assert s[i].deviceId != s[n].deviceId;
        }
      }
    }
  }

  /** A record that changed since it was stored (say, a new `last_seen`) is not equal to the
      stored one, so it reaches `insert` and fails on its device id. */
  lemma ChangedRecordRejected(s: seq<Node>, i: nat, node: Node)
    requires UniqueKeys(s) && i < |s|
    requires node.deviceId == s[i].deviceId && node != s[i]
    ensures Added(s, node) == Err(DuplicateKey)
  {
  }

  /** The `Node` table. */
  class Registry {
    var nodes: seq<Node>

    ghost predicate Valid()
      reads this
    {
      UniqueKeys(nodes)
    }

    constructor ()
      ensures Valid() && nodes == []
    {
      nodes := [];
    }

    /** `get_nodes`: every stored node. */
    method GetNodes() returns (all: seq<Node>)
      ensures all == nodes
    {
      all := nodes;
    }

    /** native_db's `insert`: refuses a record whose device id is already stored. */
    method Insert(node: Node) returns (result: Outcome<(), InsertError>)
      requires Valid()
      modifies this
      ensures Valid()
      ensures result.Err? <==> KeyStored(old(nodes), node.deviceId)
      ensures result.Ok? ==> nodes == old(nodes) + [node]
      ensures !result.Ok? ==> result == Err(DuplicateKey) && nodes == old(nodes)
    {
      var k := 0;
      while k < |nodes|
        invariant k <= |nodes|
        invariant forall j :: 0 <= j < k ==> nodes[j].deviceId != node.deviceId
      {
        if nodes[k].deviceId == node.deviceId {
          return Err(DuplicateKey);
        }
        k := k + 1;
      }
      nodes := nodes + [node];
      result := Ok(());
    }

    /** `add_node(node)` (`join(node)` in daemon/src/sync/utils.rs): insert unless an equal
        record is stored. */
    method AddNode(node: Node) returns (result: Outcome<(), InsertError>)
      requires Valid()
      modifies this
      ensures Valid()
      ensures result.Ok? <==> Added(old(nodes), node).Ok?
      ensures result.Ok? ==> nodes == Added(old(nodes), node).value
      ensures !result.Ok? ==> result == Err(DuplicateKey) && nodes == old(nodes)
    {
      var stored := GetNodes();
      if node !in stored {
        result := Insert(node);
      } else {
        result := Ok(());
      }
    }
  }
}
