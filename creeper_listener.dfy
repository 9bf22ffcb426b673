/** The newer claim listener. A click in the gift box GUI either bounces off the player's
    claiming flag (with a throttled notice) or raises the flag and starts a workflow; the
    workflow's callbacks run later and always lower the flag again. A single claim credits
    the gift (CLAIMED log, claimed event) only when deleteGift reports that a row went; a
    claim-all logs every delivered gift once the batch delete succeeds, whatever count it
    reports. Each asynchronous workflow is one sequential completion step here. */
module CreeperClaims {
  import opened Wrappers
  import opened GiftModel
  import opened LogResults
  import opened GiftTable
  import opened CreeperStore
  import opened ClaimModel

  /** How a single claim ended. */
  datatype SingleOutcome =
    | ListFailed
    | NotFound
    | ExpiredTarget(gift: Gift)
    | NoRoom
    | Delivered(gift: Gift, credited: bool)

  class ClaimListener {
    const store: GiftStore
    /** The GIFTBOX_ACTION player metadata: present (and true) while a workflow runs. */
    var claiming: map<PlayerId, bool>
    /** The workflow each flagged player is waiting on. */
    var pending: map<PlayerId, Request>
    var lastErrorMessageTime: map<PlayerId, int>
    /** The abstract inventory: free slots per player (absent means none). */
    var freeSlots: map<PlayerId, nat>
    var delivered: seq<Delivery>
    var notices: seq<Notice>
    /** Players the GUI was reopened for, in order. */
    var reopened: seq<PlayerId>

    ghost predicate Valid()
      reads this, store
    {
      && store.Valid()
      && claiming.Keys == pending.Keys
      && (forall p | p in claiming :: claiming[p])
    }

    function Slots(player: PlayerId): nat
      reads this
    {
      if player in freeSlots then freeSlots[player] else 0
    }

    constructor (store: GiftStore, freeSlots: map<PlayerId, nat>)
      requires store.Valid()
      ensures Valid() && this.store == store && this.freeSlots == freeSlots
      ensures claiming == map[] && pending == map[] && lastErrorMessageTime == map[]
      ensures delivered == [] && notices == [] && reopened == []
    {
      this.store := store;
      claiming := map[];
      pending := map[];
      lastErrorMessageTime := map[];
      this.freeSlots := freeSlots;
      delivered := [];
      notices := [];
      reopened := [];
    }

    /** `onInventoryClick` on a gift box tile at time `now`. A flagged player starts nothing;
        the concurrent-claim notice goes out, and its time is recorded, only once
        `cooldown` ms have passed since the last one. Otherwise a gift tile or the
        claim-all button raises the flag for its workflow. */
    method OnInventoryClick(player: PlayerId, target: Target, now: int, cooldown: int)
      requires Valid()
      modifies this`claiming, this`pending, this`lastErrorMessageTime, this`notices
      ensures Valid()
      ensures old(player in claiming) ==> claiming == old(claiming) && pending == old(pending)
      ensures old(player in claiming) && CooldownElapsed(old(lastErrorMessageTime), player, now, cooldown) ==>
        && notices == old(notices) + [Notice(player, KEY_CONCURRENT_CLAIM, None)]
        && lastErrorMessageTime == old(lastErrorMessageTime)[player := now]
      ensures !(old(player in claiming) && CooldownElapsed(old(lastErrorMessageTime), player, now, cooldown)) ==>
        notices == old(notices) && lastErrorMessageTime == old(lastErrorMessageTime)
      ensures old(player !in claiming) ==>
        match target
        case GiftTile(id) =>
          claiming == old(claiming)[player := true] && pending == old(pending)[player := SingleClaim(id)]
        case ClaimAllButton =>
          claiming == old(claiming)[player := true] && pending == old(pending)[player := ClaimAll]
        case OtherItem =>
          claiming == old(claiming) && pending == old(pending)
    {
      if player in claiming {
        if CooldownElapsed(lastErrorMessageTime, player, now, cooldown) {
          notices := notices + [Notice(player, KEY_CONCURRENT_CLAIM, None)];
          lastErrorMessageTime := lastErrorMessageTime[player := now];
        }
        return;
      }
      match target
      case GiftTile(id) =>
        claiming := claiming[player := true];
        pending := pending[player := SingleClaim(id)];
      case ClaimAllButton =>
        claiming := claiming[player := true];
        pending := pending[player := ClaimAll];
      case OtherItem =>
    }

    /** The `finally` / `exceptionally` tail of both workflows: the flag goes, and the GUI
        reopens for a player still online. */
    method Release(player: PlayerId, online: bool)
      requires Valid()
      modifies this`claiming, this`pending, this`reopened
      ensures Valid()
      ensures claiming == old(claiming) - {player} && pending == old(pending) - {player}
      ensures reopened == old(reopened) + (if online then [player] else [])
    {
      claiming := claiming - {player};
      pending := pending - {player};
      if online {
        reopened := reopened + [player];
      }
    }

    /** The expired branch of a single claim: the player is told, the row is deleted, and
        once the delete completes (whatever it reports) EXPIRED is logged. */
    method DiscardExpired(player: PlayerId, target: Gift, now: int, deleteFails: bool, logFails: bool)
      requires Valid() && !store.closed
      modifies this`notices, store`present, store`presentLog
      ensures Valid()
      ensures notices == old(notices) + [Notice(player, KEY_GIFT_EXPIRED, None)]
      ensures deleteFails ==> store.present == old(store.present) && store.presentLog == old(store.presentLog)
      ensures !deleteFails ==>
        && store.present == old(store.present) - {target.id}
        && store.presentLog == old(store.presentLog) + (if logFails then [] else [EntryOf(target, Expired, now)])
    {
      notices := notices + [Notice(player, KEY_GIFT_EXPIRED, None)];
      DeleteExpired(target, now, deleteFails, logFails);
    }

    /** `deleteGift(id).thenRun(() -> logAction(gift, EXPIRED))`: the EXPIRED entry follows a
        delete that completes, whether or not it found the row. */
    method DeleteExpired(target: Gift, now: int, deleteFails: bool, logFails: bool)
      requires store.Valid() && !store.closed
      modifies store`present, store`presentLog
      ensures store.Valid()
      ensures deleteFails ==> store.present == old(store.present) && store.presentLog == old(store.presentLog)
      ensures !deleteFails ==>
        && store.present == old(store.present) - {target.id}
        && store.presentLog == old(store.presentLog) + (if logFails then [] else [EntryOf(target, Expired, now)])
    {
      var d := store.DeleteGift(target.id, deleteFails);
      if d.Ok? {
        store.LogAction(target, Expired, now, logFails);
      }
    }

    /** The delivery branch of a single claim: the item goes into a free slot and the player
        is told before the delete is even issued; CLAIMED and the claimed event follow only
        when the delete reports that the row went. */
    method DeliverAndCredit(player: PlayerId, target: Gift, now: int, deleteFails: bool, logFails: bool)
      returns (credited: bool)
      requires Valid() && !store.closed && Slots(player) > 0
      modifies this`delivered, this`freeSlots, this`notices, store`present, store`presentLog, store`events
      ensures Valid()
      ensures delivered == old(delivered) + [Delivery(player, target.itemStack)]
      ensures freeSlots == old(freeSlots)[player := old(Slots(player)) - 1]
      ensures notices == old(notices) + [Notice(player, KEY_GIFT_CLAIMED, None)]
      ensures credited <==> !deleteFails && target.id in old(store.present)
      ensures credited ==>
        && store.present == old(store.present) - {target.id}
        && store.presentLog == old(store.presentLog) + (if logFails then [] else [EntryOf(target, Claimed, now)])
        && store.events == old(store.events) + [GiftClaimed(target, player)]
      ensures !credited ==>
        store.present == old(store.present) && store.presentLog == old(store.presentLog) && store.events == old(store.events)
    {
      delivered := delivered + [Delivery(player, target.itemStack)];
      freeSlots := freeSlots[player := Slots(player) - 1];
      notices := notices + [Notice(player, KEY_GIFT_CLAIMED, None)];
      var d := store.DeleteGift(target.id, deleteFails);
      credited := d.Ok? && d.value;
      if credited {
        store.LogAction(target, Claimed, now, logFails);
        store.events := store.events + [GiftClaimed(target, player)];
      }
    }

    /** The callbacks of `handleSingleClaim`. The player's first 100 live gifts are listed
        at `queryNow` and the target looked up among them; the callback runs at `now`.
        A target expired by then is never delivered: it is deleted and, if the delete
        completes, logged EXPIRED. With no free slot nothing happens. Otherwise the item is
        delivered first and deleted after, and CLAIMED plus the claimed event follow only
        if the delete reports that the row went. */
    method CompleteSingleClaim(player: PlayerId, queryNow: int, now: int, online: bool,
                               listFailAt: Option<nat>, deleteFails: bool, logFails: bool)
      returns (ghost outcome: SingleOutcome, ghost listed: seq<Gift>)
      requires Valid() && player in pending && pending[player].SingleClaim?
      modifies this`claiming, this`pending, this`reopened, this`freeSlots, this`delivered, this`notices
      modifies store`present, store`presentLog, store`events
      ensures Valid()
      ensures claiming == old(claiming) - {player} && pending == old(pending) - {player}
      ensures reopened == old(reopened) + (if online then [player] else [])
      ensures store.events == old(store.events) + (if outcome.Delivered? && outcome.credited then [GiftClaimed(outcome.gift, player)] else [])
      ensures outcome.ListFailed? ==>
        old(store.closed) || ListingMayFail(old(store.present), player, queryNow, SINGLE_CLAIM_LIMIT, listFailAt)
      ensures !outcome.ListFailed? ==>
        && IsListing(old(store.present), player, queryNow, SINGLE_CLAIM_LIMIT, listed)
        && (outcome.NotFound? <==> old(pending[player]).giftId !in IdSet(listed))
      ensures outcome.ExpiredTarget? || outcome.Delivered? ==>
        outcome.gift in listed && outcome.gift.id == old(pending[player]).giftId
      ensures outcome.ExpiredTarget? <==>
        !outcome.ListFailed? && !outcome.NotFound? && IsExpiredAt(FindGift(listed, old(pending[player]).giftId).value.expireStamp, now)
      ensures outcome.NoRoom? ==> old(Slots(player)) == 0
      ensures outcome.Delivered? ==> old(Slots(player)) > 0
      ensures !outcome.Delivered? ==> delivered == old(delivered) && freeSlots == old(freeSlots)
      ensures outcome.ListFailed? || outcome.NotFound? || outcome.NoRoom? ==>
        store.present == old(store.present) && store.presentLog == old(store.presentLog)
      ensures outcome.ListFailed? || outcome.NotFound? ==> notices == old(notices)
      ensures outcome.NoRoom? ==> notices == old(notices) + [Notice(player, KEY_INVENTORY_FULL, None)]
      ensures outcome.ExpiredTarget? ==>
        && notices == old(notices) + [Notice(player, KEY_GIFT_EXPIRED, None)]
        && (deleteFails ==> store.present == old(store.present) && store.presentLog == old(store.presentLog))
        && (!deleteFails ==>
              && store.present == old(store.present) - {outcome.gift.id}
              && store.presentLog == old(store.presentLog) + (if logFails then [] else [EntryOf(outcome.gift, Expired, now)]))
      ensures outcome.Delivered? ==>
        && delivered == old(delivered) + [Delivery(player, outcome.gift.itemStack)]
        && freeSlots == old(freeSlots)[player := old(Slots(player)) - 1]
        && notices == old(notices) + [Notice(player, KEY_GIFT_CLAIMED, None)]
        && (outcome.credited <==> !deleteFails)
        && (outcome.credited ==>
              && outcome.gift.id in old(store.present)
              && store.present == old(store.present) - {outcome.gift.id}
              && store.presentLog == old(store.presentLog) + (if logFails then [] else [EntryOf(outcome.gift, Claimed, now)]))
        && (!outcome.credited ==> store.present == old(store.present) && store.presentLog == old(store.presentLog))
    {
      var giftId := pending[player].giftId;
      var r := store.GetGifts(player, SINGLE_CLAIM_LIMIT, queryNow, listFailAt);
      if r.Err? {
        outcome, listed := ListFailed, [];
        Release(player, online);
        return;
      }
      listed := r.value;
      var found := FindGift(r.value, giftId);
      if found.None? {
        outcome := NotFound;
        Release(player, online);
        return;
      }
      var target := found.value;
      ListingIsLiveAndOwned(old(store.present), player, queryNow, SINGLE_CLAIM_LIMIT, listed, IndexOf(listed, target));
      outcome := ClaimFound(player, target, now, deleteFails, logFails);
      Release(player, online);
    }

    /** The part of `handleSingleClaim` after the target was found in the listing: an
        expired target is discarded, with no free slot only a notice goes out, and
        otherwise the item is delivered and credited if the delete succeeds. */
    method ClaimFound(player: PlayerId, target: Gift, now: int, deleteFails: bool, logFails: bool)
      returns (ghost outcome: SingleOutcome)
      requires Valid() && !store.closed
      modifies this`freeSlots, this`delivered, this`notices, store`present, store`presentLog, store`events
      ensures Valid()
      ensures outcome.ExpiredTarget? <==> IsExpiredAt(target.expireStamp, now)
      ensures outcome.ExpiredTarget? || outcome.NoRoom? || outcome.Delivered?
      ensures outcome.ExpiredTarget? || outcome.Delivered? ==> outcome.gift == target
      ensures outcome.NoRoom? <==> !IsExpiredAt(target.expireStamp, now) && old(Slots(player)) == 0
      ensures store.events == old(store.events) + (if outcome.Delivered? && outcome.credited then [GiftClaimed(target, player)] else [])
      ensures !outcome.Delivered? ==> delivered == old(delivered) && freeSlots == old(freeSlots)
      ensures outcome.NoRoom? ==>
        && store.present == old(store.present) && store.presentLog == old(store.presentLog)
        && notices == old(notices) + [Notice(player, KEY_INVENTORY_FULL, None)]
      ensures outcome.ExpiredTarget? ==>
        && notices == old(notices) + [Notice(player, KEY_GIFT_EXPIRED, None)]
        && (deleteFails ==> store.present == old(store.present) && store.presentLog == old(store.presentLog))
        && (!deleteFails ==>
              && store.present == old(store.present) - {target.id}
              && store.presentLog == old(store.presentLog) + (if logFails then [] else [EntryOf(target, Expired, now)]))
      ensures outcome.Delivered? ==>
        && delivered == old(delivered) + [Delivery(player, target.itemStack)]
        && freeSlots == old(freeSlots)[player := old(Slots(player)) - 1]
        && notices == old(notices) + [Notice(player, KEY_GIFT_CLAIMED, None)]
        && (outcome.credited <==> !deleteFails && target.id in old(store.present))
        && (outcome.credited ==>
              && store.present == old(store.present) - {target.id}
              && store.presentLog == old(store.presentLog) + (if logFails then [] else [EntryOf(target, Claimed, now)]))
        && (!outcome.credited ==> store.present == old(store.present) && store.presentLog == old(store.presentLog))
    {
      if IsExpiredAt(target.expireStamp, now) {
        outcome := ExpiredTarget(target);
        DiscardExpired(player, target, now, deleteFails, logFails);
        return;
      }
      if Slots(player) == 0 {
        outcome := NoRoom;
        notices := notices + [Notice(player, KEY_INVENTORY_FULL, None)];
        return;
      }
      var credited := DeliverAndCredit(player, target, now, deleteFails, logFails);
      outcome := Delivered(target, credited);
    }

    /** Two claims of the same gift, each of whose listings was read before either delete
        ran: the flag is lowered in `finally` before the first claim's delete completes, so
        a second click can list the gift again. The delete's boolean lets at most one of
        them credit the gift, but each hands the item out before asking it. */
    method ClaimTwice(player: PlayerId, target: Gift, now: int, firstDeleteFails: bool, secondDeleteFails: bool,
                      logFails: bool)
      returns (ghost first: SingleOutcome, ghost second: SingleOutcome)
      requires Valid() && !store.closed
      modifies this`freeSlots, this`delivered, this`notices, store`present, store`presentLog, store`events
      ensures Valid()
      ensures !(first.Delivered? && first.credited && second.Delivered? && second.credited)
      ensures store.events == old(store.events)
        + (if (first.Delivered? && first.credited) || (second.Delivered? && second.credited)
           then [GiftClaimed(target, player)] else [])
      ensures !IsExpiredAt(target.expireStamp, now) && old(Slots(player)) >= 2 ==>
        && first.Delivered? && second.Delivered?
        && delivered == old(delivered) + [Delivery(player, target.itemStack), Delivery(player, target.itemStack)]
        && (first.credited || second.credited <==>
              target.id in old(store.present) && !(firstDeleteFails && secondDeleteFails))
        && store.presentLog == old(store.presentLog)
             + (if (first.credited || second.credited) && !logFails then [EntryOf(target, Claimed, now)] else [])
    {
      first := ClaimFound(player, target, now, firstDeleteFails, logFails);
      second := ClaimFound(player, target, now, secondDeleteFails, logFails);
    }

    /** The delivery branch with the delete first: the item is handed out, the player told,
        and CLAIMED and the claimed event follow only when the delete reports that the row
        went. */
    method DeleteThenDeliver(player: PlayerId, target: Gift, now: int, deleteFails: bool, logFails: bool)
      returns (credited: bool)
      requires Valid() && !store.closed && Slots(player) > 0
      modifies this`delivered, this`freeSlots, this`notices, store`present, store`presentLog, store`events
      ensures Valid()
      ensures credited <==> !deleteFails && target.id in old(store.present)
      ensures delivered == old(delivered) + (if credited then [Delivery(player, target.itemStack)] else [])
      ensures freeSlots == if credited then old(freeSlots)[player := old(Slots(player)) - 1] else old(freeSlots)
      ensures notices == old(notices) + (if credited then [Notice(player, KEY_GIFT_CLAIMED, None)] else [])
      ensures store.present == old(store.present) - (if credited then {target.id} else {})
      ensures store.presentLog == old(store.presentLog)
        + (if credited && !logFails then [EntryOf(target, Claimed, now)] else [])
      ensures store.events == old(store.events) + (if credited then [GiftClaimed(target, player)] else [])
    {
      var d := store.DeleteGift(target.id, deleteFails);
      credited := d.Ok? && d.value;
      if credited {
        delivered := delivered + [Delivery(player, target.itemStack)];
        freeSlots := freeSlots[player := Slots(player) - 1];
        notices := notices + [Notice(player, KEY_GIFT_CLAIMED, None)];
        store.LogAction(target, Claimed, now, logFails);
        store.events := store.events + [GiftClaimed(target, player)];
      }
    }

    /** Two claims of the same gift with the delete first: the item is handed out exactly
        once when a delete finds the row, and never when none does. */
    method ClaimTwiceDeleteFirst(player: PlayerId, target: Gift, now: int, firstDeleteFails: bool,
                                 secondDeleteFails: bool, logFails: bool)
      returns (firstCredited: bool, secondCredited: bool)
      requires Valid() && !store.closed && Slots(player) >= 2
      modifies this`freeSlots, this`delivered, this`notices, store`present, store`presentLog, store`events
      ensures Valid()
      ensures !(firstCredited && secondCredited)
      ensures firstCredited || secondCredited <==>
        target.id in old(store.present) && !(firstDeleteFails && secondDeleteFails)
      ensures delivered == old(delivered)
        + (if firstCredited || secondCredited then [Delivery(player, target.itemStack)] else [])
      ensures store.events == old(store.events)
        + (if firstCredited || secondCredited then [GiftClaimed(target, player)] else [])
    {
      firstCredited := DeleteThenDeliver(player, target, now, firstDeleteFails, logFails);
      secondCredited := DeleteThenDeliver(player, target, now, secondDeleteFails, logFails);
    }
    /** The loop of `handleClaimAll` over the listed gifts, in list order, for a player
        with `slots` free slots. An expired gift is deleted (and logged EXPIRED once the
        delete completes) and skipped; the walk stops at the first gift that finds no free
        slot (`full`), leaving the rest untouched; every other gift is collected for
        delivery. `consumed` is where the walk stopped. */
    method WalkGifts(gifts: seq<Gift>, slots: nat, now: int, expiredDeleteFails: set<GiftId>,
                     failedLogs: set<GiftId>)
      returns (claimedGifts: seq<Gift>, claimedGiftIds: seq<GiftId>, claimedCount: nat, full: bool,
               ghost consumed: nat)
      requires store.Valid() && !store.closed
      modifies store`present, store`presentLog
      ensures store.Valid()
      ensures consumed <= |gifts| && (full <==> consumed < |gifts|)
      ensures claimedCount == |claimedGiftIds| == |claimedGifts|
      ensures claimedGifts == Deliverable(gifts[..consumed], now) && claimedGiftIds == Ids(claimedGifts)
      ensures |claimedGifts| <= slots
      ensures full ==> |claimedGifts| == slots && !IsExpiredAt(gifts[consumed].expireStamp, now)
      ensures store.present == old(store.present) - (IdSet(ExpiredAmong(gifts[..consumed], now)) - expiredDeleteFails)
      ensures store.presentLog ==
        old(store.presentLog) + ResultLog(ExpiredAmong(gifts[..consumed], now), Expired, expiredDeleteFails + failedLogs, now)
    {
      claimedGifts, claimedGiftIds, claimedCount := [], [], 0;
      var i := 0;
      full := false;
      ghost var t0, log0 := store.present, store.presentLog;
      ghost var expiredSeen: seq<Gift> := [];
      while i < |gifts| && !full
        invariant 0 <= i <= |gifts|
        invariant store.Valid() && !store.closed
        invariant claimedCount == |claimedGiftIds| == |claimedGifts| <= slots
        invariant claimedGifts == Deliverable(gifts[..i], now) && claimedGiftIds == Ids(claimedGifts)
        invariant expiredSeen == ExpiredAmong(gifts[..i], now)
        invariant full ==> i < |gifts| && |claimedGifts| == slots && !IsExpiredAt(gifts[i].expireStamp, now)
        invariant store.present == t0 - (IdSet(expiredSeen) - expiredDeleteFails)
        invariant store.presentLog == log0 + ResultLog(expiredSeen, Expired, expiredDeleteFails + failedLogs, now)
        decreases |gifts| - i, if full then 0 else 1
      {
        var gift := gifts[i];
        WalkStep(gifts, i, now);
        if IsExpiredAt(gift.expireStamp, now) {
          ghost var before, logBefore := store.present, store.presentLog;
          DeleteExpired(gift, now, gift.id in expiredDeleteFails, gift.id in failedLogs);
          ExpiredStep(t0, before, log0, logBefore, store.present, store.presentLog, expiredSeen, gift,
                      expiredDeleteFails, failedLogs, now);
          expiredSeen := expiredSeen + [gift];
          i := i + 1;
        } else if claimedCount == slots {
          full := true;
        } else {
          IdsSnoc(claimedGifts, gift);
          claimedGifts := claimedGifts + [gift];
          claimedGiftIds := claimedGiftIds + [gift.id];
          claimedCount := claimedCount + 1;
          i := i + 1;
        }
      }
      consumed := i;
    }

    /** `claimedGifts.forEach`: CLAIMED is logged and the claimed event fired for every
        gift, in order. */
    method RecordClaims(player: PlayerId, gs: seq<Gift>, now: int, failedLogs: set<GiftId>)
      requires store.Valid() && !store.closed
      modifies store`presentLog, store`events
      ensures store.Valid()
      ensures store.presentLog == old(store.presentLog) + ResultLog(gs, Claimed, failedLogs, now)
      ensures store.events == old(store.events) + ClaimEvents(player, gs)
    {
      for j := 0 to |gs|
        invariant store.Valid() && !store.closed
        invariant store.presentLog == old(store.presentLog) + ResultLog(gs[..j], Claimed, failedLogs, now)
        invariant store.events == old(store.events) + ClaimEvents(player, gs[..j])
      {
        var g := gs[j];
        assert gs[..j + 1][..j] == gs[..j] && gs[..j + 1][j] == g;
        assert ResultLog(gs[..j + 1], Claimed, failedLogs, now)
            == ResultLog(gs[..j], Claimed, failedLogs, now)
               + (if g.id in failedLogs then [] else [EntryOf(g, Claimed, now)]);
        assert ClaimEvents(player, gs[..j + 1]) == ClaimEvents(player, gs[..j]) + [GiftClaimed(g, player)];
        store.LogAction(g, Claimed, now, g.id in failedLogs);
        store.events := store.events + [GiftClaimed(g, player)];
      }
      assert gs[..|gs|] == gs;
    }

    /** `deleteGifts(claimedGiftIds).thenAcceptAsync(...)`: one batch delete of the delivered
        ids; once it succeeds every delivered gift is logged CLAIMED and announced, whatever
        number of rows it reports. A failed delete credits nothing. */
    method SettleClaims(player: PlayerId, claimedGifts: seq<Gift>, claimedGiftIds: seq<GiftId>, now: int,
                        failedLogs: set<GiftId>, flushFail: Option<nat>)
      returns (deleteOk: bool)
      requires store.Valid() && !store.closed && claimedGifts != [] && claimedGiftIds == Ids(claimedGifts)
      modifies store`present, store`presentLog, store`events
      ensures store.Valid()
      ensures deleteOk <==> !(flushFail.Some? && flushFail.value < FlushCount(|claimedGifts|))
      ensures store.present == if deleteOk then old(store.present) - SeqSet(claimedGiftIds) else old(store.present)
      ensures store.presentLog ==
        if deleteOk then old(store.presentLog) + ResultLog(claimedGifts, Claimed, failedLogs, now) else old(store.presentLog)
      ensures store.events == if deleteOk then old(store.events) + ClaimEvents(player, claimedGifts) else old(store.events)
    {
      var d := store.DeleteGifts(claimedGiftIds, flushFail);
      deleteOk := d.Ok?;
      if deleteOk {
        RecordClaims(player, claimedGifts, now, failedLogs);
      }
    }

    /** The body of the `handleClaimAll` callback for a non-empty listing: the walk runs at
        `now` and the delivered items go to the player; if anything was delivered, one
        `deleteGifts` removes the delivered ids, and when it succeeds every delivered gift
        is logged CLAIMED and announced, whatever count it returned; the delivered amount
        is reported either way. If nothing was delivered and no slot is free, a full
        inventory is reported (once more, when the walk already stopped for it). */
    method ClaimListed(player: PlayerId, gifts: seq<Gift>, now: int, expiredDeleteFails: set<GiftId>,
                       failedLogs: set<GiftId>, flushFail: Option<nat>)
      returns (ghost claimed: seq<Gift>, ghost consumed: nat, ghost deleteOk: bool)
      requires store.Valid() && !store.closed && gifts != []
      modifies this`freeSlots, this`delivered, this`notices, store`present, store`presentLog, store`events
      ensures store.Valid()
      ensures consumed <= |gifts|
      ensures claimed == Deliverable(gifts[..consumed], now) && |claimed| <= old(Slots(player))
      ensures consumed < |gifts| ==> |claimed| == old(Slots(player)) && !IsExpiredAt(gifts[consumed].expireStamp, now)
      ensures delivered == old(delivered) + Deliveries(player, claimed)
      ensures freeSlots == old(freeSlots)[player := old(Slots(player)) - |claimed|]
      ensures deleteOk <==> claimed != [] && !(flushFail.Some? && flushFail.value < FlushCount(|claimed|))
      ensures var afterWalk := old(store.present) - (IdSet(ExpiredAmong(gifts[..consumed], now)) - expiredDeleteFails);
        store.present == if deleteOk then afterWalk - SeqSet(Ids(claimed)) else afterWalk
      ensures var logAfterWalk := old(store.presentLog)
          + ResultLog(ExpiredAmong(gifts[..consumed], now), Expired, expiredDeleteFails + failedLogs, now);
        store.presentLog == if deleteOk then logAfterWalk + ResultLog(claimed, Claimed, failedLogs, now) else logAfterWalk
      ensures store.events == if deleteOk then old(store.events) + ClaimEvents(player, claimed) else old(store.events)
      ensures notices == old(notices)
        + (if consumed < |gifts| then [Notice(player, KEY_INVENTORY_FULL, None)] else [])
        + (if claimed != [] then [Notice(player, KEY_ALL_CLAIMED, Some(|claimed|))]
           else if old(Slots(player)) == 0 then [Notice(player, KEY_INVENTORY_FULL, None)]
           else [])
    {
      var slots := Slots(player);
      var claimedGifts, claimedGiftIds, claimedCount, full;
      claimedGifts, claimedGiftIds, claimedCount, full, consumed :=
        WalkAndHandOut(player, gifts, now, expiredDeleteFails, failedLogs);
      claimed := claimedGifts;
      deleteOk := SettleAndReport(player, claimedGifts, claimedGiftIds, slots, now, failedLogs, flushFail);
    }

    /** The walk, and the hand-out of what it collected. */
    method WalkAndHandOut(player: PlayerId, gifts: seq<Gift>, now: int, expiredDeleteFails: set<GiftId>,
                          failedLogs: set<GiftId>)
      returns (claimedGifts: seq<Gift>, claimedGiftIds: seq<GiftId>, claimedCount: nat, full: bool,
               ghost consumed: nat)
      requires store.Valid() && !store.closed
      modifies this`freeSlots, this`delivered, this`notices, store`present, store`presentLog
      ensures store.Valid() && store.events == old(store.events)
      ensures consumed <= |gifts| && (full <==> consumed < |gifts|)
      ensures claimedCount == |claimedGifts| && claimedGiftIds == Ids(claimedGifts)
      ensures claimedGifts == Deliverable(gifts[..consumed], now) && |claimedGifts| <= old(Slots(player))
      ensures full ==> |claimedGifts| == old(Slots(player)) && !IsExpiredAt(gifts[consumed].expireStamp, now)
      ensures delivered == old(delivered) + Deliveries(player, claimedGifts)
      ensures freeSlots == old(freeSlots)[player := old(Slots(player)) - |claimedGifts|]
      ensures store.present == old(store.present) - (IdSet(ExpiredAmong(gifts[..consumed], now)) - expiredDeleteFails)
      ensures store.presentLog ==
        old(store.presentLog) + ResultLog(ExpiredAmong(gifts[..consumed], now), Expired, expiredDeleteFails + failedLogs, now)
      ensures notices == old(notices) + (if full then [Notice(player, KEY_INVENTORY_FULL, None)] else [])
    {
      claimedGifts, claimedGiftIds, claimedCount, full, consumed :=
        WalkGifts(gifts, Slots(player), now, expiredDeleteFails, failedLogs);
      HandOut(player, claimedGifts, full);
    }

    /** After the walk: the batch delete and the claimed amount when something was
        delivered, otherwise a full-inventory notice when no slot was free. */
    method SettleAndReport(player: PlayerId, claimedGifts: seq<Gift>, claimedGiftIds: seq<GiftId>, slots: nat,
                           now: int, failedLogs: set<GiftId>, flushFail: Option<nat>)
      returns (deleteOk: bool)
      requires store.Valid() && !store.closed && claimedGiftIds == Ids(claimedGifts)
      modifies this`notices, store`present, store`presentLog, store`events
      ensures store.Valid()
      ensures deleteOk <==> claimedGifts != [] && !(flushFail.Some? && flushFail.value < FlushCount(|claimedGifts|))
      ensures store.present == if deleteOk then old(store.present) - SeqSet(claimedGiftIds) else old(store.present)
      ensures store.presentLog ==
        if deleteOk then old(store.presentLog) + ResultLog(claimedGifts, Claimed, failedLogs, now) else old(store.presentLog)
      ensures store.events == if deleteOk then old(store.events) + ClaimEvents(player, claimedGifts) else old(store.events)
      ensures notices == old(notices)
        + (if claimedGifts != [] then [Notice(player, KEY_ALL_CLAIMED, Some(|claimedGifts|))]
           else if slots == 0 then [Notice(player, KEY_INVENTORY_FULL, None)]
           else [])
    {
      deleteOk := false;
      if claimedGifts != [] {
        deleteOk := SettleClaims(player, claimedGifts, claimedGiftIds, now, failedLogs, flushFail);
        notices := notices + [Notice(player, KEY_ALL_CLAIMED, Some(|claimedGifts|))];
      } else if slots == 0 {
        notices := notices + [Notice(player, KEY_INVENTORY_FULL, None)];
      }
    }

    /** The walked gifts go into the player's inventory, taking one free slot each; a walk
        that stopped on a full inventory says so. */
    method HandOut(player: PlayerId, gs: seq<Gift>, full: bool)
      requires |gs| <= Slots(player)
      modifies this`delivered, this`freeSlots, this`notices
      ensures delivered == old(delivered) + Deliveries(player, gs)
      ensures freeSlots == old(freeSlots)[player := old(Slots(player)) - |gs|]
      ensures notices == old(notices) + (if full then [Notice(player, KEY_INVENTORY_FULL, None)] else [])
    {
      delivered := delivered + Deliveries(player, gs);
      freeSlots := freeSlots[player := Slots(player) - |gs|];
      if full {
        notices := notices + [Notice(player, KEY_INVENTORY_FULL, None)];
      }
    }

    /** The callbacks of `handleClaimAll`. At most 36 live gifts are listed at `queryNow`;
        none means only a notice, a failed listing nothing at all. A non-empty listing is
        claimed as ClaimListed says. The flag is released on every path. */
    method CompleteClaimAll(player: PlayerId, queryNow: int, now: int, online: bool,
                            listFailAt: Option<nat>, expiredDeleteFails: set<GiftId>,
                            failedLogs: set<GiftId>, flushFail: Option<nat>)
      returns (ghost listFailed: bool, ghost listed: seq<Gift>, ghost claimed: seq<Gift>, ghost consumed: nat,
               ghost deleteOk: bool)
      requires Valid() && player in pending && pending[player] == ClaimAll
      modifies this`claiming, this`pending, this`reopened, this`freeSlots, this`delivered, this`notices
      modifies store`present, store`presentLog, store`events
      ensures Valid()
      ensures claiming == old(claiming) - {player} && pending == old(pending) - {player}
      ensures reopened == old(reopened) + (if online then [player] else [])
      ensures listFailed ==>
        && listed == []
        && (old(store.closed) || ListingMayFail(old(store.present), player, queryNow, CLAIM_ALL_LIMIT, listFailAt))
        && notices == old(notices)
      ensures !listFailed ==> IsListing(old(store.present), player, queryNow, CLAIM_ALL_LIMIT, listed)
      ensures !listFailed && listed == [] ==> notices == old(notices) + [Notice(player, KEY_NO_GIFTS, None)]
      ensures listed == [] ==>
        && store.present == old(store.present) && store.presentLog == old(store.presentLog)
        && store.events == old(store.events) && delivered == old(delivered) && freeSlots == old(freeSlots)
      ensures consumed <= |listed|
      ensures claimed == Deliverable(listed[..consumed], now) && |claimed| <= old(Slots(player))
      ensures consumed < |listed| ==> |claimed| == old(Slots(player)) && !IsExpiredAt(listed[consumed].expireStamp, now)
      ensures delivered == old(delivered) + Deliveries(player, claimed)
      ensures freeSlots == if listed == [] then old(freeSlots) else old(freeSlots)[player := old(Slots(player)) - |claimed|]
      ensures deleteOk <==> claimed != [] && !(flushFail.Some? && flushFail.value < FlushCount(|claimed|))
      ensures listed != [] ==>
        var afterWalk := old(store.present) - (IdSet(ExpiredAmong(listed[..consumed], now)) - expiredDeleteFails);
        store.present == if deleteOk then afterWalk - SeqSet(Ids(claimed)) else afterWalk
      ensures listed != [] ==>
        var logAfterWalk := old(store.presentLog)
          + ResultLog(ExpiredAmong(listed[..consumed], now), Expired, expiredDeleteFails + failedLogs, now);
        store.presentLog == if deleteOk then logAfterWalk + ResultLog(claimed, Claimed, failedLogs, now) else logAfterWalk
      ensures store.events == if deleteOk then old(store.events) + ClaimEvents(player, claimed) else old(store.events)
      ensures listed != [] ==>
        notices == old(notices)
          + (if consumed < |listed| then [Notice(player, KEY_INVENTORY_FULL, None)] else [])
          + (if claimed != [] then [Notice(player, KEY_ALL_CLAIMED, Some(|claimed|))]
             else if old(Slots(player)) == 0 then [Notice(player, KEY_INVENTORY_FULL, None)]
             else [])
    {
      listFailed, listed, claimed, consumed, deleteOk :=
        ListAndClaimAll(player, queryNow, now, listFailAt, expiredDeleteFails, failedLogs, flushFail);
      Release(player, online);
    }

    /** The listing of `handleClaimAll` and what follows it, up to the release of the flag. */
    method ListAndClaimAll(player: PlayerId, queryNow: int, now: int, listFailAt: Option<nat>,
                           expiredDeleteFails: set<GiftId>, failedLogs: set<GiftId>, flushFail: Option<nat>)
      returns (ghost listFailed: bool, ghost listed: seq<Gift>, ghost claimed: seq<Gift>, ghost consumed: nat,
               ghost deleteOk: bool)
      requires Valid()
      modifies this`freeSlots, this`delivered, this`notices, store`present, store`presentLog, store`events
      ensures Valid()
      ensures listFailed ==>
        && listed == []
        && (old(store.closed) || ListingMayFail(old(store.present), player, queryNow, CLAIM_ALL_LIMIT, listFailAt))
        && notices == old(notices)
      ensures !listFailed ==> IsListing(old(store.present), player, queryNow, CLAIM_ALL_LIMIT, listed)
      ensures !listFailed && listed == [] ==> notices == old(notices) + [Notice(player, KEY_NO_GIFTS, None)]
      ensures listed == [] ==>
        && store.present == old(store.present) && store.presentLog == old(store.presentLog)
        && store.events == old(store.events) && delivered == old(delivered) && freeSlots == old(freeSlots)
      ensures consumed <= |listed|
      ensures claimed == Deliverable(listed[..consumed], now) && |claimed| <= old(Slots(player))
      ensures consumed < |listed| ==> |claimed| == old(Slots(player)) && !IsExpiredAt(listed[consumed].expireStamp, now)
      ensures delivered == old(delivered) + Deliveries(player, claimed)
      ensures freeSlots == if listed == [] then old(freeSlots) else old(freeSlots)[player := old(Slots(player)) - |claimed|]
      ensures deleteOk <==> claimed != [] && !(flushFail.Some? && flushFail.value < FlushCount(|claimed|))
      ensures listed != [] ==>
        var afterWalk := old(store.present) - (IdSet(ExpiredAmong(listed[..consumed], now)) - expiredDeleteFails);
        store.present == if deleteOk then afterWalk - SeqSet(Ids(claimed)) else afterWalk
      ensures listed != [] ==>
        var logAfterWalk := old(store.presentLog)
          + ResultLog(ExpiredAmong(listed[..consumed], now), Expired, expiredDeleteFails + failedLogs, now);
        store.presentLog == if deleteOk then logAfterWalk + ResultLog(claimed, Claimed, failedLogs, now) else logAfterWalk
      ensures store.events == if deleteOk then old(store.events) + ClaimEvents(player, claimed) else old(store.events)
      ensures listed != [] ==>
        notices == old(notices)
          + (if consumed < |listed| then [Notice(player, KEY_INVENTORY_FULL, None)] else [])
          + (if claimed != [] then [Notice(player, KEY_ALL_CLAIMED, Some(|claimed|))]
             else if old(Slots(player)) == 0 then [Notice(player, KEY_INVENTORY_FULL, None)]
             else [])
    {
      listFailed, listed, claimed, consumed, deleteOk := false, [], [], 0, false;
      ghost var free0, slots0 := freeSlots, Slots(player);
      var r := store.GetGifts(player, CLAIM_ALL_LIMIT, queryNow, listFailAt);
      if r.Err? {
        listFailed := true;
        return;
      }
      if r.value == [] {
        notices := notices + [Notice(player, KEY_NO_GIFTS, None)];
        return;
      }
      listed := r.value;
      assert Slots(player) == slots0 && freeSlots == free0;
      claimed, consumed, deleteOk := ClaimListed(player, r.value, now, expiredDeleteFails, failedLogs, flushFail);
    }
  }

  /** Deleting one more expired gift keeps the table and the log in step with the expired
      gifts walked so far. */
  lemma ExpiredStep(t0: Table, t: Table, log0: seq<LogEntry>, log: seq<LogEntry>, t': Table, log': seq<LogEntry>,
                    seen: seq<Gift>, g: Gift, deleteFails: set<GiftId>, failedLogs: set<GiftId>, now: int)
    requires t == t0 - (IdSet(seen) - deleteFails)
    requires log == log0 + ResultLog(seen, Expired, deleteFails + failedLogs, now)
    requires g.id in deleteFails ==> t' == t && log' == log
    requires g.id !in deleteFails ==>
      t' == t - {g.id} && log' == log + (if g.id in failedLogs then [] else [EntryOf(g, Expired, now)])
    ensures t' == t0 - (IdSet(seen + [g]) - deleteFails)
    ensures log' == log0 + ResultLog(seen + [g], Expired, deleteFails + failedLogs, now)
  {
    ExpiredTableStep(t0, seen, g, deleteFails);
    assert (seen + [g])[..|seen|] == seen;
    var x := if g.id in deleteFails || g.id in failedLogs then [] else [EntryOf(g, Expired, now)];
    assert log' == log + x;
  }
}
