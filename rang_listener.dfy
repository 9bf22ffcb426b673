/** The legacy claim listener. Clicks and the claiming flag work as in the newer one, but
    the legacy store never reports failure, so nothing here waits on an outcome: an
    expired gift is logged EXPIRED whether or not its delete took, a delivered gift is
    logged CLAIMED and announced whether or not its delete took, and a listing that broke
    off early is treated as the whole listing. A full inventory ends a single claim, and
    an empty listing ends a claim-all, without reopening the GUI. */
module LegacyClaims {
  import opened Wrappers
  import opened GiftModel
  import opened LogResults
  import opened GiftTable
  import opened LegacyStore
  import opened ClaimModel

  /** How a legacy single claim ended. */
  datatype LegacyOutcome =
    | NotListed
    | ExpiredTarget(gift: Gift)
    | NoRoom
    | Delivered(gift: Gift)

  class LegacyClaimListener {
    const store: LegacyGiftStore
    /** The GIFTBOX_ACTION player metadata: present (and true) while a workflow runs. */
    var claiming: map<PlayerId, bool>
    /** The workflow each flagged player is waiting on. */
    var pending: map<PlayerId, Request>
    var lastErrorMessageTime: map<PlayerId, int>
    /** The abstract inventory: free slots per player (absent means none). */
    var freeSlots: map<PlayerId, nat>
    var delivered: seq<Delivery>
    var notices: seq<Notice>
    /** Players the GUI was reopened for, in order. */
    var reopened: seq<PlayerId>

    ghost predicate Valid()
      reads this, store
    {
      && store.Valid()
      && claiming.Keys == pending.Keys
      && (forall p | p in claiming :: claiming[p])
    }

    function Slots(player: PlayerId): nat
      reads this
    {
      if player in freeSlots then freeSlots[player] else 0
    }

    constructor (store: LegacyGiftStore, freeSlots: map<PlayerId, nat>)
      requires store.Valid()
      ensures Valid() && this.store == store && this.freeSlots == freeSlots
      ensures claiming == map[] && pending == map[] && lastErrorMessageTime == map[]
      ensures delivered == [] && notices == [] && reopened == []
    {
      this.store := store;
      claiming := map[];
      pending := map[];
      lastErrorMessageTime := map[];
      this.freeSlots := freeSlots;
      delivered := [];
      notices := [];
      reopened := [];
    }

    /** `onInventoryClick` on a gift box tile at time `now`: a flagged player gets the
        concurrent-claim notice at most once per `cooldown` ms and starts nothing;
        otherwise a gift tile or the claim-all button raises the flag for its workflow. */
    method OnInventoryClick(player: PlayerId, target: Target, now: int, cooldown: int)
      requires Valid()
      modifies this`claiming, this`pending, this`lastErrorMessageTime, this`notices
      ensures Valid()
      ensures old(player in claiming) ==> claiming == old(claiming) && pending == old(pending)
      ensures old(player in claiming) && CooldownElapsed(old(lastErrorMessageTime), player, now, cooldown) ==>
        && notices == old(notices) + [Notice(player, KEY_CONCURRENT_CLAIM, None)]
        && lastErrorMessageTime == old(lastErrorMessageTime)[player := now]
      ensures !(old(player in claiming) && CooldownElapsed(old(lastErrorMessageTime), player, now, cooldown)) ==>
        notices == old(notices) && lastErrorMessageTime == old(lastErrorMessageTime)
      ensures old(player !in claiming) ==>
        match target
        case GiftTile(id) =>
          claiming == old(claiming)[player := true] && pending == old(pending)[player := SingleClaim(id)]
        case ClaimAllButton =>
          claiming == old(claiming)[player := true] && pending == old(pending)[player := ClaimAll]
        case OtherItem =>
          claiming == old(claiming) && pending == old(pending)
    {
      if player in claiming {
        if CooldownElapsed(lastErrorMessageTime, player, now, cooldown) {
          notices := notices + [Notice(player, KEY_CONCURRENT_CLAIM, None)];
          lastErrorMessageTime := lastErrorMessageTime[player := now];
        }
        return;
      }
      match target
      case GiftTile(id) =>
        claiming := claiming[player := true];
        pending := pending[player := SingleClaim(id)];
      case ClaimAllButton =>
        claiming := claiming[player := true];
        pending := pending[player := ClaimAll];
      case OtherItem =>
    }

    /** The flag goes; on the paths that schedule it, the GUI reopens too. */
    method Release(player: PlayerId, reopen: bool)
      requires Valid()
      modifies this`claiming, this`pending, this`reopened
      ensures Valid()
      ensures claiming == old(claiming) - {player} && pending == old(pending) - {player}
      ensures reopened == old(reopened) + (if reopen then [player] else [])
    {
      claiming := claiming - {player};
      pending := pending - {player};
      if reopen {
        reopened := reopened + [player];
      }
    }

    /** Deleting a gift and logging it are two independent requests: the entry is written
        (unless its own insert fails) whether or not the delete took. */
    method DeleteAndLog(target: Gift, result: LogResult, now: int, deleteFails: bool, logFails: bool)
      requires store.Valid() && !store.closed
      modifies store`present, store`presentLog
      ensures store.Valid()
      ensures store.present == if deleteFails then old(store.present) else old(store.present) - {target.id}
      ensures store.presentLog == old(store.presentLog) + (if logFails then [] else [EntryOf(target, result, now)])
    {
      store.DeleteGift(target.id, deleteFails);
      store.LogAction(target, result, now, logFails);
    }

    /** The delivery branch of a single claim: the item, the claimed notice, the delete,
        the CLAIMED entry and the claimed event, none of them waiting on another. */
    method DeliverTarget(player: PlayerId, target: Gift, now: int, deleteFails: bool, logFails: bool)
      requires Valid() && !store.closed && Slots(player) > 0
      modifies this`delivered, this`freeSlots, this`notices, store`present, store`presentLog, store`events
      ensures Valid()
      ensures delivered == old(delivered) + [Delivery(player, target.itemStack)]
      ensures freeSlots == old(freeSlots)[player := old(Slots(player)) - 1]
      ensures notices == old(notices) + [Notice(player, KEY_GIFT_CLAIMED, None)]
      ensures store.present == if deleteFails then old(store.present) else old(store.present) - {target.id}
      ensures store.presentLog == old(store.presentLog) + (if logFails then [] else [EntryOf(target, Claimed, now)])
      ensures store.events == old(store.events) + [GiftClaimed(target, player)]
    {
      delivered := delivered + [Delivery(player, target.itemStack)];
      freeSlots := freeSlots[player := Slots(player) - 1];
      notices := notices + [Notice(player, KEY_GIFT_CLAIMED, None)];
      DeleteAndLog(target, Claimed, now, deleteFails, logFails);
      store.events := store.events + [GiftClaimed(target, player)];
    }

    /** The callback of `handleSingleClaim`. The listing of the player's first 100 live
        gifts (read at `queryNow`, possibly cut short by an error) is searched for the
        tile's id; the callback runs at `now`. An unlisted id only reopens the GUI. An
        expired target is deleted and logged EXPIRED. A full inventory is reported and the
        flag dropped without reopening. Otherwise the item is delivered, the gift deleted,
        logged CLAIMED and announced. */
    method CompleteSingleClaim(player: PlayerId, queryNow: int, now: int, listFailAt: Option<nat>,
                               deleteFails: bool, logFails: bool)
      returns (ghost outcome: LegacyOutcome, ghost listed: seq<Gift>)
      requires Valid() && player in pending && pending[player].SingleClaim?
      modifies this`claiming, this`pending, this`reopened, this`freeSlots, this`delivered, this`notices
      modifies store`present, store`presentLog, store`events
      ensures Valid()
      ensures claiming == old(claiming) - {player} && pending == old(pending) - {player}
      ensures reopened == old(reopened) + (if outcome.NoRoom? then [] else [player])
      ensures IsOrderedSelection(old(store.present), listed, LiveIds(old(store.present), player, queryNow))
      ensures |listed| <= SINGLE_CLAIM_LIMIT
      ensures old(store.closed) ==> listed == []
      ensures !old(store.closed) && !ListingMayFail(old(store.present), player, queryNow, SINGLE_CLAIM_LIMIT, listFailAt) ==>
        IsListing(old(store.present), player, queryNow, SINGLE_CLAIM_LIMIT, listed)
      ensures outcome.NotListed? <==> old(pending[player]).giftId !in IdSet(listed)
      ensures !outcome.NotListed? ==> !old(store.closed)
      ensures outcome.ExpiredTarget? || outcome.Delivered? ==>
        outcome.gift in listed && outcome.gift.id == old(pending[player]).giftId
      ensures outcome.ExpiredTarget? <==>
        !outcome.NotListed? && IsExpiredAt(FindGift(listed, old(pending[player]).giftId).value.expireStamp, now)
      ensures outcome.NoRoom? ==> old(Slots(player)) == 0
      ensures outcome.Delivered? ==> old(Slots(player)) > 0
      ensures !outcome.Delivered? ==> delivered == old(delivered) && freeSlots == old(freeSlots)
      ensures store.events == old(store.events) + (if outcome.Delivered? then [GiftClaimed(outcome.gift, player)] else [])
      ensures outcome.NotListed? || outcome.NoRoom? ==>
        store.present == old(store.present) && store.presentLog == old(store.presentLog)
      ensures outcome.NotListed? ==> notices == old(notices)
      ensures outcome.NoRoom? ==> notices == old(notices) + [Notice(player, KEY_INVENTORY_FULL, None)]
      ensures outcome.ExpiredTarget? || outcome.Delivered? ==>
        && store.present == (if deleteFails then old(store.present) else old(store.present) - {outcome.gift.id})
        && store.presentLog == old(store.presentLog)
             + (if logFails then [] else [EntryOf(outcome.gift, if outcome.Delivered? then Claimed else Expired, now)])
      ensures outcome.ExpiredTarget? ==> notices == old(notices) + [Notice(player, KEY_GIFT_EXPIRED, None)]
      ensures outcome.Delivered? ==>
        && delivered == old(delivered) + [Delivery(player, outcome.gift.itemStack)]
        && freeSlots == old(freeSlots)[player := old(Slots(player)) - 1]
        && notices == old(notices) + [Notice(player, KEY_GIFT_CLAIMED, None)]
    {
      var giftId := pending[player].giftId;
      var gifts := store.GetGifts(player, SINGLE_CLAIM_LIMIT, queryNow, listFailAt);
      listed := gifts;
      var found := FindGift(gifts, giftId);
      var reopen := true;
      if found.None? {
        outcome := NotListed;
      } else {
        reopen := IsExpiredAt(found.value.expireStamp, now) || Slots(player) > 0;
        outcome := ClaimFound(player, found.value, now, deleteFails, logFails);
      }
      Release(player, reopen);
    }

    /** The part of `handleSingleClaim` after the target was found in the listing: an
        expired target is deleted and logged EXPIRED, with no free slot only a notice goes
        out, and otherwise the item is delivered, the gift deleted, logged CLAIMED and
        announced. */
    method ClaimFound(player: PlayerId, target: Gift, now: int, deleteFails: bool, logFails: bool)
      returns (ghost outcome: LegacyOutcome)
      requires Valid() && !store.closed
      modifies this`freeSlots, this`delivered, this`notices, store`present, store`presentLog, store`events
      ensures Valid()
      ensures outcome.ExpiredTarget? <==> IsExpiredAt(target.expireStamp, now)
      ensures outcome.ExpiredTarget? || outcome.NoRoom? || outcome.Delivered?
      ensures outcome.ExpiredTarget? || outcome.Delivered? ==> outcome.gift == target
      ensures outcome.NoRoom? <==> !IsExpiredAt(target.expireStamp, now) && old(Slots(player)) == 0
      ensures !outcome.Delivered? ==> delivered == old(delivered) && freeSlots == old(freeSlots)
      ensures store.events == old(store.events) + (if outcome.Delivered? then [GiftClaimed(target, player)] else [])
      ensures outcome.NoRoom? ==>
        && store.present == old(store.present) && store.presentLog == old(store.presentLog)
        && notices == old(notices) + [Notice(player, KEY_INVENTORY_FULL, None)]
      ensures outcome.ExpiredTarget? || outcome.Delivered? ==>
        && store.present == (if deleteFails then old(store.present) else old(store.present) - {target.id})
        && store.presentLog == old(store.presentLog)
             + (if logFails then [] else [EntryOf(target, if outcome.Delivered? then Claimed else Expired, now)])
      ensures outcome.ExpiredTarget? ==> notices == old(notices) + [Notice(player, KEY_GIFT_EXPIRED, None)]
      ensures outcome.Delivered? ==>
        && delivered == old(delivered) + [Delivery(player, target.itemStack)]
        && freeSlots == old(freeSlots)[player := old(Slots(player)) - 1]
        && notices == old(notices) + [Notice(player, KEY_GIFT_CLAIMED, None)]
    {
      if IsExpiredAt(target.expireStamp, now) {
        outcome := ExpiredTarget(target);
        notices := notices + [Notice(player, KEY_GIFT_EXPIRED, None)];
        DeleteAndLog(target, Expired, now, deleteFails, logFails);
        return;
      }
      if Slots(player) == 0 {
        outcome := NoRoom;
        notices := notices + [Notice(player, KEY_INVENTORY_FULL, None)];
        return;
      }
      outcome := Delivered(target);
      DeliverTarget(player, target, now, deleteFails, logFails);
    }

    /** The loop of `handleClaimAll` over the listed gifts, in list order, for a player
        with `slots` free slots. An expired gift is deleted and logged EXPIRED (two
        independent requests) and skipped; the walk stops at the first gift that finds no
        free slot (`full`); every other gift is collected for delivery. `consumed` is where
        the walk stopped. */
    method WalkGifts(gifts: seq<Gift>, slots: nat, now: int, expiredDeleteFails: set<GiftId>,
                     failedLogs: set<GiftId>)
      returns (claimedGifts: seq<Gift>, claimedGiftIds: seq<GiftId>, claimedCount: nat, full: bool,
               ghost consumed: nat)
      requires store.Valid() && !store.closed
      modifies store`present, store`presentLog
      ensures store.Valid()
      ensures consumed <= |gifts| && (full <==> consumed < |gifts|)
      ensures claimedCount == |claimedGiftIds| == |claimedGifts|
      ensures claimedGifts == Deliverable(gifts[..consumed], now) && claimedGiftIds == Ids(claimedGifts)
      ensures |claimedGifts| <= slots
      ensures full ==> |claimedGifts| == slots && !IsExpiredAt(gifts[consumed].expireStamp, now)
      ensures store.present == old(store.present) - (IdSet(ExpiredAmong(gifts[..consumed], now)) - expiredDeleteFails)
      ensures store.presentLog ==
        old(store.presentLog) + ResultLog(ExpiredAmong(gifts[..consumed], now), Expired, failedLogs, now)
    {
      claimedGifts, claimedGiftIds, claimedCount := [], [], 0;
      var i := 0;
      full := false;
      ghost var t0, log0 := store.present, store.presentLog;
      ghost var expiredSeen: seq<Gift> := [];
      while i < |gifts| && !full
        invariant 0 <= i <= |gifts|
        invariant store.Valid() && !store.closed
        invariant claimedCount == |claimedGiftIds| == |claimedGifts| <= slots
        invariant claimedGifts == Deliverable(gifts[..i], now) && claimedGiftIds == Ids(claimedGifts)
        invariant expiredSeen == ExpiredAmong(gifts[..i], now)
        invariant full ==> i < |gifts| && |claimedGifts| == slots && !IsExpiredAt(gifts[i].expireStamp, now)
        invariant store.present == t0 - (IdSet(expiredSeen) - expiredDeleteFails)
        invariant store.presentLog == log0 + ResultLog(expiredSeen, Expired, failedLogs, now)
        decreases |gifts| - i, if full then 0 else 1
      {
        var gift := gifts[i];
        WalkStep(gifts, i, now);
        if IsExpiredAt(gift.expireStamp, now) {
          ghost var before, logBefore := store.present, store.presentLog;
          DeleteAndLog(gift, Expired, now, gift.id in expiredDeleteFails, gift.id in failedLogs);
          LoggedExpiredStep(t0, before, log0, logBefore, store.present, store.presentLog, expiredSeen, gift,
                            expiredDeleteFails, failedLogs, now);
          expiredSeen := expiredSeen + [gift];
          i := i + 1;
        } else if claimedCount == slots {
          full := true;
        } else {
          IdsSnoc(claimedGifts, gift);
          claimedGifts := claimedGifts + [gift];
          claimedGiftIds := claimedGiftIds + [gift.id];
          claimedCount := claimedCount + 1;
          i := i + 1;
        }
      }
      consumed := i;
    }

    /** The walked gifts go into the player's inventory, taking one free slot each; a walk
        that stopped on a full inventory says so. */
    method HandOut(player: PlayerId, gs: seq<Gift>, full: bool)
      requires |gs| <= Slots(player)
      modifies this`delivered, this`freeSlots, this`notices
      ensures delivered == old(delivered) + Deliveries(player, gs)
      ensures freeSlots == old(freeSlots)[player := old(Slots(player)) - |gs|]
      ensures notices == old(notices) + (if full then [Notice(player, KEY_INVENTORY_FULL, None)] else [])
    {
      delivered := delivered + Deliveries(player, gs);
      freeSlots := freeSlots[player := Slots(player) - |gs|];
      if full {
        notices := notices + [Notice(player, KEY_INVENTORY_FULL, None)];
      }
    }

    /** The walk, and the hand-out of what it collected. */
    method WalkAndHandOut(player: PlayerId, gifts: seq<Gift>, now: int, expiredDeleteFails: set<GiftId>,
                          failedLogs: set<GiftId>)
      returns (claimedGifts: seq<Gift>, claimedGiftIds: seq<GiftId>, full: bool, ghost consumed: nat)
      requires store.Valid() && !store.closed
      modifies this`freeSlots, this`delivered, this`notices, store`present, store`presentLog
      ensures store.Valid() && !store.closed && store.events == old(store.events)
      ensures consumed <= |gifts| && (full <==> consumed < |gifts|)
      ensures claimedGiftIds == Ids(claimedGifts)
      ensures claimedGifts == Deliverable(gifts[..consumed], now) && |claimedGifts| <= old(Slots(player))
      ensures full ==> |claimedGifts| == old(Slots(player)) && !IsExpiredAt(gifts[consumed].expireStamp, now)
      ensures delivered == old(delivered) + Deliveries(player, claimedGifts)
      ensures freeSlots == old(freeSlots)[player := old(Slots(player)) - |claimedGifts|]
      ensures store.present == old(store.present) - (IdSet(ExpiredAmong(gifts[..consumed], now)) - expiredDeleteFails)
      ensures store.presentLog ==
        old(store.presentLog) + ResultLog(ExpiredAmong(gifts[..consumed], now), Expired, failedLogs, now)
      ensures notices == old(notices) + (if full then [Notice(player, KEY_INVENTORY_FULL, None)] else [])
    {
      var claimedCount;
      claimedGifts, claimedGiftIds, claimedCount, full, consumed :=
        WalkGifts(gifts, Slots(player), now, expiredDeleteFails, failedLogs);
      HandOut(player, claimedGifts, full);
    }

    /** `claimedGifts.forEach`: CLAIMED is logged and the claimed event fired for every
        gift, in order. */
    method RecordClaims(player: PlayerId, gs: seq<Gift>, now: int, failedLogs: set<GiftId>)
      requires store.Valid() && !store.closed
      modifies store`presentLog, store`events
      ensures store.Valid()
      ensures store.presentLog == old(store.presentLog) + ResultLog(gs, Claimed, failedLogs, now)
      ensures store.events == old(store.events) + ClaimEvents(player, gs)
    {
      for j := 0 to |gs|
        invariant store.Valid() && !store.closed
        invariant store.presentLog == old(store.presentLog) + ResultLog(gs[..j], Claimed, failedLogs, now)
        invariant store.events == old(store.events) + ClaimEvents(player, gs[..j])
      {
        var g := gs[j];
        assert gs[..j + 1][..j] == gs[..j] && gs[..j + 1][j] == g;
        assert ResultLog(gs[..j + 1], Claimed, failedLogs, now)
            == ResultLog(gs[..j], Claimed, failedLogs, now)
               + (if g.id in failedLogs then [] else [EntryOf(g, Claimed, now)]);
        assert ClaimEvents(player, gs[..j + 1]) == ClaimEvents(player, gs[..j]) + [GiftClaimed(g, player)];
        store.LogAction(g, Claimed, now, g.id in failedLogs);
        store.events := store.events + [GiftClaimed(g, player)];
      }
      assert gs[..|gs|] == gs;
    }

    /** After the walk: when something was delivered, one IN-list delete of the delivered
        ids, then CLAIMED and the claimed event for each of them (whether or not the delete
        took) and the delivered amount; otherwise a full-inventory notice when no slot was
        free. */
    method SettleAndReport(player: PlayerId, claimedGifts: seq<Gift>, claimedGiftIds: seq<GiftId>, slots: nat,
                           now: int, failedLogs: set<GiftId>, deleteFails: bool)
      requires store.Valid() && !store.closed && claimedGiftIds == Ids(claimedGifts)
      modifies this`notices, store`present, store`presentLog, store`events
      ensures store.Valid()
      ensures store.present ==
        if claimedGifts == [] || deleteFails then old(store.present) else old(store.present) - SeqSet(claimedGiftIds)
      ensures store.presentLog == old(store.presentLog) + ResultLog(claimedGifts, Claimed, failedLogs, now)
      ensures store.events == old(store.events) + ClaimEvents(player, claimedGifts)
      ensures notices == old(notices)
        + (if claimedGifts != [] then [Notice(player, KEY_ALL_CLAIMED, Some(|claimedGifts|))]
           else if slots == 0 then [Notice(player, KEY_INVENTORY_FULL, None)]
           else [])
    {
      if claimedGifts != [] {
        var _ := store.DeleteGifts(claimedGiftIds, deleteFails);
        RecordClaims(player, claimedGifts, now, failedLogs);
        notices := notices + [Notice(player, KEY_ALL_CLAIMED, Some(|claimedGifts|))];
      } else if slots == 0 {
        notices := notices + [Notice(player, KEY_INVENTORY_FULL, None)];
      }
    }

    /** The callback of `handleClaimAll`. At most 36 live gifts are listed at `queryNow`
        (fewer if the read broke off); an empty listing only draws a notice and drops the
        flag without reopening. Otherwise the walk runs at `now`, the delivered items go
        to the player, the delivered gifts are deleted in one statement and each is logged
        CLAIMED and announced, and the GUI reopens. */
    method CompleteClaimAll(player: PlayerId, queryNow: int, now: int, listFailAt: Option<nat>,
                            expiredDeleteFails: set<GiftId>, failedLogs: set<GiftId>, deleteFails: bool)
      returns (ghost listed: seq<Gift>, ghost claimed: seq<Gift>, ghost consumed: nat)
      requires Valid() && player in pending && pending[player] == ClaimAll
      modifies this`claiming, this`pending, this`reopened, this`freeSlots, this`delivered, this`notices
      modifies store`present, store`presentLog, store`events
      ensures Valid()
      ensures claiming == old(claiming) - {player} && pending == old(pending) - {player}
      ensures reopened == old(reopened) + (if listed == [] then [] else [player])
      ensures IsOrderedSelection(old(store.present), listed, LiveIds(old(store.present), player, queryNow))
      ensures |listed| <= CLAIM_ALL_LIMIT
      ensures old(store.closed) ==> listed == []
      ensures !old(store.closed) && !ListingMayFail(old(store.present), player, queryNow, CLAIM_ALL_LIMIT, listFailAt) ==>
        IsListing(old(store.present), player, queryNow, CLAIM_ALL_LIMIT, listed)
      ensures listed == [] ==>
        && notices == old(notices) + [Notice(player, KEY_NO_GIFTS, None)]
        && store.present == old(store.present) && store.presentLog == old(store.presentLog)
        && store.events == old(store.events) && delivered == old(delivered) && freeSlots == old(freeSlots)
      ensures consumed <= |listed|
      ensures claimed == Deliverable(listed[..consumed], now) && |claimed| <= old(Slots(player))
      ensures consumed < |listed| ==> |claimed| == old(Slots(player)) && !IsExpiredAt(listed[consumed].expireStamp, now)
      ensures delivered == old(delivered) + Deliveries(player, claimed)
      ensures listed != [] ==> freeSlots == old(freeSlots)[player := old(Slots(player)) - |claimed|]
      ensures store.events == old(store.events) + ClaimEvents(player, claimed)
      ensures listed != [] ==>
        var afterWalk := old(store.present) - (IdSet(ExpiredAmong(listed[..consumed], now)) - expiredDeleteFails);
        store.present == if claimed == [] || deleteFails then afterWalk else afterWalk - SeqSet(Ids(claimed))
      ensures listed != [] ==>
        store.presentLog == old(store.presentLog)
          + ResultLog(ExpiredAmong(listed[..consumed], now), Expired, failedLogs, now)
          + ResultLog(claimed, Claimed, failedLogs, now)
      ensures listed != [] ==>
        notices == old(notices)
          + (if consumed < |listed| then [Notice(player, KEY_INVENTORY_FULL, None)] else [])
          + (if claimed != [] then [Notice(player, KEY_ALL_CLAIMED, Some(|claimed|))]
             else if old(Slots(player)) == 0 then [Notice(player, KEY_INVENTORY_FULL, None)]
             else [])
    {
      var gifts;
      gifts, claimed, consumed :=
        ListAndClaimAll(player, queryNow, now, listFailAt, expiredDeleteFails, failedLogs, deleteFails);
      listed := gifts;
      Release(player, gifts != []);
    }

    /** The listing of `handleClaimAll` and what follows it, up to the release of the flag. */
    method ListAndClaimAll(player: PlayerId, queryNow: int, now: int, listFailAt: Option<nat>,
                           expiredDeleteFails: set<GiftId>, failedLogs: set<GiftId>, deleteFails: bool)
      returns (listed: seq<Gift>, ghost claimed: seq<Gift>, ghost consumed: nat)
      requires Valid()
      modifies this`freeSlots, this`delivered, this`notices, store`present, store`presentLog, store`events
      ensures Valid()
      ensures IsOrderedSelection(old(store.present), listed, LiveIds(old(store.present), player, queryNow))
      ensures |listed| <= CLAIM_ALL_LIMIT
      ensures old(store.closed) ==> listed == []
      ensures !old(store.closed) && !ListingMayFail(old(store.present), player, queryNow, CLAIM_ALL_LIMIT, listFailAt) ==>
        IsListing(old(store.present), player, queryNow, CLAIM_ALL_LIMIT, listed)
      ensures listed == [] ==>
        && notices == old(notices) + [Notice(player, KEY_NO_GIFTS, None)]
        && store.present == old(store.present) && store.presentLog == old(store.presentLog)
        && store.events == old(store.events) && delivered == old(delivered) && freeSlots == old(freeSlots)
      ensures consumed <= |listed|
      ensures claimed == Deliverable(listed[..consumed], now) && |claimed| <= old(Slots(player))
      ensures consumed < |listed| ==> |claimed| == old(Slots(player)) && !IsExpiredAt(listed[consumed].expireStamp, now)
      ensures delivered == old(delivered) + Deliveries(player, claimed)
      ensures listed != [] ==> freeSlots == old(freeSlots)[player := old(Slots(player)) - |claimed|]
      ensures store.events == old(store.events) + ClaimEvents(player, claimed)
      ensures listed != [] ==>
        var afterWalk := old(store.present) - (IdSet(ExpiredAmong(listed[..consumed], now)) - expiredDeleteFails);
        store.present == if claimed == [] || deleteFails then afterWalk else afterWalk - SeqSet(Ids(claimed))
      ensures listed != [] ==>
        store.presentLog == old(store.presentLog)
          + ResultLog(ExpiredAmong(listed[..consumed], now), Expired, failedLogs, now)
          + ResultLog(claimed, Claimed, failedLogs, now)
      ensures listed != [] ==>
        notices == old(notices)
          + (if consumed < |listed| then [Notice(player, KEY_INVENTORY_FULL, None)] else [])
          + (if claimed != [] then [Notice(player, KEY_ALL_CLAIMED, Some(|claimed|))]
             else if old(Slots(player)) == 0 then [Notice(player, KEY_INVENTORY_FULL, None)]
             else [])
    {
      claimed, consumed := [], 0;
      ghost var free0, slots0 := freeSlots, Slots(player);
      var gifts := store.GetGifts(player, CLAIM_ALL_LIMIT, queryNow, listFailAt);
      listed := gifts;
      if gifts == [] {
        notices := notices + [Notice(player, KEY_NO_GIFTS, None)];
        return;
      }
      assert Slots(player) == slots0 && freeSlots == free0;
      var slots := Slots(player);
      var claimedGifts, claimedGiftIds, full;
      claimedGifts, claimedGiftIds, full, consumed := WalkAndHandOut(player, gifts, now, expiredDeleteFails, failedLogs);
      claimed := claimedGifts;
      SettleAndReport(player, claimedGifts, claimedGiftIds, slots, now, failedLogs, deleteFails);
    }
  }

  /** Deleting and logging one more expired gift keeps the table and the log in step with
      the expired gifts walked so far; the log does not depend on the delete. */
  lemma LoggedExpiredStep(t0: Table, t: Table, log0: seq<LogEntry>, log: seq<LogEntry>, t': Table, log': seq<LogEntry>,
                          seen: seq<Gift>, g: Gift, deleteFails: set<GiftId>, failedLogs: set<GiftId>, now: int)
    requires t == t0 - (IdSet(seen) - deleteFails)
    requires log == log0 + ResultLog(seen, Expired, failedLogs, now)
    requires t' == if g.id in deleteFails then t else t - {g.id}
    requires log' == log + (if g.id in failedLogs then [] else [EntryOf(g, Expired, now)])
    ensures t' == t0 - (IdSet(seen + [g]) - deleteFails)
    ensures log' == log0 + ResultLog(seen + [g], Expired, failedLogs, now)
  {
    ExpiredTableStep(t0, seen, g, deleteFails);
    assert (seen + [g])[..|seen|] == seen;
  }
}
