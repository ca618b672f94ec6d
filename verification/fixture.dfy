/** The table that the retention tests of every snapshot start from
    (daemon/src/database/testing.rs:30-60 and its copies): twenty clips stored one after the
    other, all "asdf" except two random 7-character strings at positions 1 and 18. */
module TestFixture {
  import opened ClipStore
  import opened Scan

  /** The bytes of "asdf". */
  const Asdf: Payload := [0x61, 0x73, 0x64, 0x66]

  /** The two random strings: seven characters each, and (as the tests take for granted)
      different from each other. */
  ghost predicate RandomEnds(r1: Payload, r18: Payload) {
    |r1| == 7 && |r18| == 7 && r1 != r18
  }

  /** The payload stored at position `i`. */
  function FixturePayload(r1: Payload, r18: Payload, i: nat): Payload {
    if i == 1 then r1 else if i == 18 then r18 else Asdf
  }

  /** The table after the twenty stores, in key order; each store got a fresh, larger key. */
  ghost function Fixture(r1: Payload, r18: Payload): (s: seq<Entry>)
    ensures |s| == 20 && KeysIncreasing(s)
    ensures forall i :: 0 <= i < 20 ==> s[i].payload == FixturePayload(r1, r18, i)
  {
    seq(20, i requires 0 <= i < 20 => Entry(i, FixturePayload(r1, r18, i)))
  }

  /** The fixture holds three distinct payloads. */
  lemma FixturePayloads(r1: Payload, r18: Payload)
    requires RandomEnds(r1, r18)
    ensures PayloadSet(Fixture(r1, r18)) == {Asdf, r1, r18}
    ensures |PayloadSet(Fixture(r1, r18))| == 3
  {
    var s := Fixture(r1, r18);
    assert s[0].payload == Asdf && s[1].payload == r1 && s[18].payload == r18;
    assert s[0] in s && s[1] in s && s[18] in s;
    assert Asdf != r1 && Asdf != r18 by { assert |Asdf| == 4; }
  }

  /** Keeping only the newest copy of each payload leaves, in key order, the clips at
      positions 1, 18 and 19: `r1`, `r18`, "asdf". */
  lemma FixtureKeepNewest(r1: Payload, r18: Payload)
    requires RandomEnds(r1, r18)
    ensures var w := Without(Fixture(r1, r18), Superseded(Fixture(r1, r18)));
            && |w| == 3
            && w[0].payload == r1 && w[1].payload == r18 && w[2].payload == Asdf
  {
    var s := Fixture(r1, r18);
    var d := Superseded(s);
    assert |Asdf| == 4;
    assert 19 !in d && 18 !in d && 1 !in d;
    forall i | 2 <= i < 18 ensures i in d {
      assert s[19].payload == s[i].payload;
    }
    assert 0 in d by { assert s[19].payload == s[0].payload; }
    WithoutStep(s, d, 19);
    WithoutStep(s, d, 18);
    WithoutGap(s, d, 2, 18);
    WithoutStep(s, d, 1);
    WithoutStep(s, d, 0);
    assert s[..20] == s;
  }
}
