/** What both generations of the claim listener share: the player-facing notices, the
    clicks the GUI reports, the abstract inventory, and the reference definitions the
    claim workflows are proved against (which gift a tile names, and which listed gifts a
    claim-all walk delivers or finds expired). */
module ClaimModel {
  import opened Wrappers
  import opened GiftModel
  import opened LogResults
  import opened GiftTable

  /** Message keys the listeners send through the configuration. */
  const KEY_CONCURRENT_CLAIM := "concurrent-claim-error"
  const KEY_GIFT_EXPIRED := "gift-expired"
  const KEY_INVENTORY_FULL := "inventory-full"
  const KEY_GIFT_CLAIMED := "gift-claimed"
  const KEY_NO_GIFTS := "no-gifts-to-claim"
  const KEY_ALL_CLAIMED := "all-gifts-claimed"

  /** How many gifts a single claim looks the target up in, and how many a claim-all reads. */
  const SINGLE_CLAIM_LIMIT: int := 100
  const CLAIM_ALL_LIMIT: int := 36

  /** One message sent to a player: its key, and the `%amount%` value where it has one. */
  datatype Notice = Notice(player: PlayerId, key: string, amount: Option<int>)

  /** An item handed to a player's inventory. */
  datatype Delivery = Delivery(player: PlayerId, item: ItemStack)

  /** What the clicked tile carries: a gift id, the claim-all action, or neither. */
  datatype Target = GiftTile(giftId: GiftId) | ClaimAllButton | OtherItem

  /** The workflow a player's claiming flag is held for. */
  datatype Request = SingleClaim(giftId: GiftId) | ClaimAll

  /** The throttle on the concurrent-claim notice: at least `cooldown` ms since the last one
      (a player never told before counts as told at time 0). */
  predicate CooldownElapsed(lastSent: map<PlayerId, int>, player: PlayerId, now: int, cooldown: int) {
    now - (if player in lastSent then lastSent[player] else 0) >= cooldown
  }

  /** The gift a tile's id picks out of a listing: the first one carrying that id. */
  function FindGift(gs: seq<Gift>, id: GiftId): (r: Option<Gift>)
    ensures r.Some? ==> exists k | 0 <= k < |gs| :: gs[k] == r.value && forall j | 0 <= j < k :: gs[j].id != id
    ensures r.Some? ==> r.value.id == id
    ensures r.None? <==> id !in IdSet(gs)
  {
    if gs == [] then None
    else if gs[0].id == id then Some(gs[0])
    else
      var r := FindGift(gs[1..], id);
      assert IdSet(gs) == {gs[0].id} + IdSet(gs[1..]) by {
        assert forall g | g in gs :: g == gs[0] || g in gs[1..];
      }
      if r.Some? then
        var k :| 0 <= k < |gs[1..]| && gs[1..][k] == r.value && forall j | 0 <= j < k :: gs[1..][j].id != id;
        assert gs[k + 1] == r.value;
        r
      else r
  }

  /** The listed gifts a claim-all walk hands out: those not expired at `now`, in order. */
  function Deliverable(gs: seq<Gift>, now: int): seq<Gift>
  {
    if gs == [] then []
    else
      var last := gs[|gs| - 1];
      Deliverable(gs[..|gs| - 1], now) + (if IsExpiredAt(last.expireStamp, now) then [] else [last])
  }

  /** The listed gifts a claim-all walk finds expired at `now`, in order. */
  function ExpiredAmong(gs: seq<Gift>, now: int): seq<Gift>
  {
    if gs == [] then []
    else
      var last := gs[|gs| - 1];
      ExpiredAmong(gs[..|gs| - 1], now) + (if IsExpiredAt(last.expireStamp, now) then [last] else [])
  }

  /** Every walked gift is either delivered or found expired, never both: the delivered
      ones are exactly the walked gifts not expired at `now`, the others exactly the
      expired ones. */
  lemma {:induction false} WalkPartition(gs: seq<Gift>, now: int)
    ensures |Deliverable(gs, now)| + |ExpiredAmong(gs, now)| == |gs|
    ensures forall g | g in gs :: g in Deliverable(gs, now) || g in ExpiredAmong(gs, now)
    ensures forall g | g in Deliverable(gs, now) :: g in gs && !IsExpiredAt(g.expireStamp, now)
    ensures forall g | g in ExpiredAmong(gs, now) :: g in gs && IsExpiredAt(g.expireStamp, now)
  {
    if gs != [] {
      var init := gs[..|gs| - 1];
      WalkPartition(init, now);
      assert forall g | g in gs :: g in init || g == gs[|gs| - 1];
    }
  }

  /** Gifts of one listing are live at the listing's time, so a walk at that same time finds
      none expired and offers every one. */
  lemma NothingExpiresAtListingTime(t: Table, player: PlayerId, when: int, limit: int, gs: seq<Gift>)
    requires IsListing(t, player, when, limit, gs)
    ensures ExpiredAmong(gs, when) == []
    ensures Deliverable(gs, when) == gs
  {
    forall i | 0 <= i < |gs|
      ensures !IsExpiredAt(gs[i].expireStamp, when)
    {
      ListingIsLiveAndOwned(t, player, when, limit, gs, i);
      ExpiredIsNotLive(gs[i].expireStamp, when);
    }
    AllLiveWalk(gs, when);
  }

  /** A walk over gifts none of which is expired finds nothing expired and offers all. */
  lemma {:induction false} AllLiveWalk(gs: seq<Gift>, now: int)
    requires forall i | 0 <= i < |gs| :: !IsExpiredAt(gs[i].expireStamp, now)
    ensures ExpiredAmong(gs, now) == []
    ensures Deliverable(gs, now) == gs
  {
    if gs != [] {
      var init := gs[..|gs| - 1];
      AllLiveWalk(init, now);
      assert init + [gs[|gs| - 1]] == gs;
    }
  }

  /** A prefix of a listing is the listing with the smaller limit. */
  lemma ListingPrefix(t: Table, player: PlayerId, when: int, limit: int, gs: seq<Gift>, k: nat)
    requires IsListing(t, player, when, limit, gs) && k <= |gs|
    ensures IsListing(t, player, when, k, gs[..k])
  {
    var live := LiveIds(t, player, when);
    forall i, id | 0 <= i < k && id in live && id !in IdSet(gs[..k])
      ensures gs[..k][i].timestamp <= t[id].timestamp
    {
      if id in IdSet(gs) {
        var j :| 0 <= j < |gs| && gs[j].id == id;
        forall m | 0 <= m < k
          ensures gs[m].id != id
        {
          assert gs[..k][m] in gs[..k];
        }
        assert GiftOf(t[gs[j].id]) == Some(gs[j]);
      }
    }
  }

  /** The ids of a list of gifts, in order. */
  function Ids(gs: seq<Gift>): (r: seq<GiftId>)
    ensures |r| == |gs|
  {
    if gs == [] then [] else Ids(gs[..|gs| - 1]) + [gs[|gs| - 1].id]
  }

  /** The inventory deliveries of a list of gifts to one player, in order. */
  function Deliveries(player: PlayerId, gs: seq<Gift>): (r: seq<Delivery>)
  {
    if gs == [] then [] else Deliveries(player, gs[..|gs| - 1]) + [Delivery(player, gs[|gs| - 1].itemStack)]
  }

  /** One GiftClaimedEvent per gift, in order. */
  function ClaimEvents(player: PlayerId, gs: seq<Gift>): (r: seq<Event>)
  {
    if gs == [] then [] else ClaimEvents(player, gs[..|gs| - 1]) + [GiftClaimed(gs[|gs| - 1], player)]
  }

  /** The position of a listed gift. */
  function IndexOf(gs: seq<Gift>, g: Gift): (k: nat)
    requires g in gs
    ensures k < |gs| && gs[k] == g
  {
    if gs[0] == g then 0 else 1 + IndexOf(gs[1..], g)
  }

  /** One step of the claim-all walk extends the delivered or the expired gifts by the
      walked one. */
  lemma WalkStep(gifts: seq<Gift>, i: nat, now: int)
    requires i < |gifts|
    ensures Deliverable(gifts[..i + 1], now) ==
      Deliverable(gifts[..i], now) + (if IsExpiredAt(gifts[i].expireStamp, now) then [] else [gifts[i]])
    ensures ExpiredAmong(gifts[..i + 1], now) ==
      ExpiredAmong(gifts[..i], now) + (if IsExpiredAt(gifts[i].expireStamp, now) then [gifts[i]] else [])
  {
    assert gifts[..i + 1][..i] == gifts[..i];
  }

  /** Walking one more expired gift removes its row unless its delete is the one that fails. */
  lemma ExpiredTableStep(t0: Table, seen: seq<Gift>, g: Gift, deleteFails: set<GiftId>)
    ensures g.id in deleteFails ==> t0 - (IdSet(seen + [g]) - deleteFails) == t0 - (IdSet(seen) - deleteFails)
    ensures g.id !in deleteFails ==>
      t0 - (IdSet(seen + [g]) - deleteFails) == (t0 - (IdSet(seen) - deleteFails)) - {g.id}
  {
    assert IdSet(seen + [g]) == IdSet(seen) + {g.id} by {
      assert forall x | x in seen + [g] :: x in seen || x == g;
    }
  }

  /** Appending a gift appends its id. */
  lemma IdsSnoc(gs: seq<Gift>, g: Gift)
    ensures Ids(gs + [g]) == Ids(gs) + [g.id]
  {
    assert (gs + [g])[..|gs|] == gs;
  }
}
