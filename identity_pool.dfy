/**
  The browser identity pool: three fixed browser profiles handed out in round-robin
  order by a module-level counter.
 */
module Identities {

  datatype Viewport = Viewport(width: nat, height: nat)

  /** One browser profile applied to a headless browser context. */
  datatype Identity = Identity(
    id: string,
    userAgent: string,
    viewport: Viewport,
    locale: string,
    timezoneId: string,
    colorScheme: string,
    isMobile: bool,
    deviceScaleFactor: nat,
    hasTouch: bool)

  /** The `identities` array, in its declared order. */
  const Pool: seq<Identity> := [
    Identity("id1",
      "Mozilla/5.0 (Windows NT 10.0; Win64; x64) AppleWebKit/537.36 (KHTML, like Gecko) Chrome/120.0.0.0 Safari/537.36",
      Viewport(1366, 768), "en-US", "America/New_York", "light", false, 1, false),
    Identity("id2",
      "Mozilla/5.0 (Macintosh; Intel Mac OS X 13_4) AppleWebKit/537.36 (KHTML, like Gecko) Chrome/118.0.0.0 Safari/537.36",
      Viewport(1440, 900), "en-US", "America/Los_Angeles", "light", false, 2, false),
    Identity("id3",
      "Mozilla/5.0 (X11; Linux x86_64) AppleWebKit/537.36 (KHTML, like Gecko) Chrome/119.0.0.0 Safari/537.36",
      Viewport(1280, 800), "en-GB", "Europe/London", "light", false, 1, false)
  ]

  /** The identity handed out when the counter reads `k`. */
  function IdentityAt(k: nat): (r: Identity)
    ensures r in Pool
  {
    Pool[k % |Pool|]
  }

  /** Identity ids are pairwise distinct, so ids name profiles. */
  lemma PoolIdsDistinct()
    ensures forall i, j :: 0 <= i < j < |Pool| ==> Pool[i].id != Pool[j].id
  {
  }

  /** The sequence of identities repeats with period three. */
  lemma IdentityPeriodic(k: nat)
    ensures IdentityAt(k + 3) == IdentityAt(k)
  {
    assert (k + 3) % 3 == k % 3;
  }

  /** Any three consecutive counter values yield the three profiles, each once. */
  lemma ThreeConsecutiveCoverPool(k: nat)
    ensures {IdentityAt(k), IdentityAt(k + 1), IdentityAt(k + 2)} == set i | 0 <= i < |Pool| :: Pool[i]
    ensures IdentityAt(k) != IdentityAt(k + 1) && IdentityAt(k + 1) != IdentityAt(k + 2) &&
            IdentityAt(k) != IdentityAt(k + 2)
  {
    var m := k % 3;
    assert (k + 1) % 3 == (m + 1) % 3;
    assert (k + 2) % 3 == (m + 2) % 3;
    assert Pool[0] != Pool[1] && Pool[1] != Pool[2] && Pool[0] != Pool[2] by {
      assert Pool[0].id != Pool[1].id && Pool[1].id != Pool[2].id && Pool[0].id != Pool[2].id;
    }
    var all := set i | 0 <= i < |Pool| :: Pool[i];
    assert all == {Pool[0], Pool[1], Pool[2]};
  }

  /** The module's round-robin counter `rr` together with `getNextIdentity`. */
  class IdentityPool {
    var rr: nat

    constructor ()
      ensures rr == 0
    {
      rr := 0;
    }

    /** Returns the identity the counter selects and advances the counter by one. */
    method GetNextIdentity() returns (identity: Identity)
      modifies this
      ensures identity == IdentityAt(old(rr)) && identity in Pool
      ensures rr == old(rr) + 1
    {
      identity := Pool[rr % |Pool|];
      rr := rr + 1;
    }
  }

  /** Starting fresh, three calls return id1, id2 and id3 in that order, and the fourth starts over. */
  method FirstFourCalls() returns (a: Identity, b: Identity, c: Identity, d: Identity)
    ensures a.id == "id1" && b.id == "id2" && c.id == "id3" && d == a
  {
    var pool := new IdentityPool();
    a := pool.GetNextIdentity();
    b := pool.GetNextIdentity();
    c := pool.GetNextIdentity();
    d := pool.GetNextIdentity();
  }
}
