/** The newer public API. `sendGift` validates its arguments in a fixed order (null
    arguments throw at once; everything else fails the returned future), trims and cuts
    the sender name, computes the expiry with overflow-checked arithmetic, and hands the
    gift to the store, passing a store failure on. The two reads soften store failures:
    an empty list, a zero count. */
module CreeperApi {
  import opened Wrappers
  import opened GiftModel
  import opened LogResults
  import opened GiftTable
  import opened CreeperStore
  import opened JavaText

  /** Longest sender name kept. */
  const MAX_SENDER_LENGTH: nat := 100
  /** Largest listing the API asks the store for. */
  const MAX_LIST_LIMIT: int := 100

  datatype ApiError =
    | NullArgument(name: string)
    | InvalidItem
    | BlankSender
    | InvalidExpiry
    | ExpiryTooLarge
    | InvalidLimit
    | StoreFailure(cause: StoreError)

  /** `Objects.requireNonNull` throws on the caller's thread instead of failing a future. */
  predicate IsThrown(e: ApiError) {
    e.NullArgument?
  }

  /** The stored sender: the trimmed name cut to at most 100 characters. */
  function SanitizeSender(s: string): (r: string)
    ensures |r| <= MAX_SENDER_LENGTH
    ensures |r| == Min(|Trim(s)|, MAX_SENDER_LENGTH)
    ensures |r| <= |Trim(s)| && r == Trim(s)[..|r|]
    ensures |Trim(s)| <= MAX_SENDER_LENGTH ==> r == Trim(s)
    ensures Trim(s) != [] ==> r != []
  {
    var t := Trim(s);
    t[..Min(|t|, MAX_SENDER_LENGTH)]
  }

  /** The `expireSeconds > 0` branch: `multiplyExact(expireSeconds, 1000)`, then
      `addExact(now, millis)`, either failing on a 64-bit overflow. */
  function CheckedExpiry(now: int, expireSeconds: int): (r: Result<int, ApiError>)
    requires InLong(now) && InLong(expireSeconds) && expireSeconds > 0
    ensures r.Ok? <==> expireSeconds * 1000 <= LONG_MAX && now + expireSeconds * 1000 <= LONG_MAX
    ensures r.Ok? ==> InLong(r.value) && r.value > now && r.value - now == 1000 * expireSeconds
    ensures r.Err? ==> r.error == ExpiryTooLarge
  {
    var millis := expireSeconds * 1000;
    if !InLong(millis) then Err(ExpiryTooLarge)
    else if !InLong(now + millis) then Err(ExpiryTooLarge)
    else Ok(now + millis)
  }

  /** The expiry stamp `sendGift` stores: below -1 is refused, -1 and 0 never expire, a
      positive count of seconds expires that many seconds from `now`. */
  function ExpiryStamp(now: int, expireSeconds: int): (r: Result<int, ApiError>)
    requires InLong(now) && InLong(expireSeconds)
    ensures expireSeconds < -1 <==> r == Err(InvalidExpiry)
    ensures -1 <= expireSeconds <= 0 ==> r == Ok(NEVER_EXPIRES)
    ensures expireSeconds > 0 ==> r == CheckedExpiry(now, expireSeconds)
  {
    if expireSeconds < -1 then Err(InvalidExpiry)
    else if expireSeconds > 0 then CheckedExpiry(now, expireSeconds)
    else Ok(NEVER_EXPIRES)
  }

  /** Everything `sendGift` does before it reaches the store: the checks in source order
      and the gift it builds with the fresh id `newId` and time `now`. */
  function PrepareGift(target: Option<PlayerId>, item: Option<ItemStack>, sender: Option<string>,
                       expireSeconds: int, now: int, newId: GiftId): (r: Result<Gift, ApiError>)
    requires InLong(now) && InLong(expireSeconds)
    ensures target.None? ==> r == Err(NullArgument("targetPlayerUUID"))
    ensures r.Ok? ==>
      && target.Some? && item.Some? && sender.Some?
      && r.value.id == newId && r.value.playerUUID == target.value
      && r.value.itemStack == item.value && r.value.timestamp == now
      && r.value.sender == SanitizeSender(sender.value)
      && Ok(r.value.expireStamp) == ExpiryStamp(now, expireSeconds)
  {
    if target.None? then Err(NullArgument("targetPlayerUUID"))
    else if item.None? then Err(NullArgument("itemStack"))
    else if sender.None? then Err(NullArgument("senderName"))
    else if item.value.material == Air || item.value.amount <= 0 then Err(InvalidItem)
    else if Trim(sender.value) == [] then Err(BlankSender)
    else
      match ExpiryStamp(now, expireSeconds)
      case Err(e) => Err(e)
      case Ok(stamp) => Ok(Gift(newId, target.value, item.value, SanitizeSender(sender.value), now, stamp))
  }

  /** Which check refuses a call: nulls first (thrown), then the item, the sender and the
      expiry (failed futures); a call that passes them all yields a gift. */
  lemma PrepareGiftRefusals(target: Option<PlayerId>, item: Option<ItemStack>, sender: Option<string>,
                            expireSeconds: int, now: int, newId: GiftId)
    requires InLong(now) && InLong(expireSeconds)
    ensures var r := PrepareGift(target, item, sender, expireSeconds, now, newId);
      && (r.Err? && IsThrown(r.error) <==> target.None? || item.None? || sender.None?)
      && (target.Some? && item.Some? && sender.Some? ==>
            && (r == Err(InvalidItem) <==> item.value.material == Air || item.value.amount <= 0)
            && (r == Err(BlankSender) <==>
                  !(item.value.material == Air || item.value.amount <= 0) && Trim(sender.value) == [])
            && (r.Ok? <==>
                  && !(item.value.material == Air || item.value.amount <= 0) && Trim(sender.value) != []
                  && ExpiryStamp(now, expireSeconds).Ok?))
  {
  }

  /** A gift `sendGift` accepts is one the store lists right away: it is live (and not
      sweepable) at the time it was made, its item is real, and its sender is a non-blank
      name of at most 100 characters. */
  lemma {:induction false} PreparedGiftIsListable(target: Option<PlayerId>, item: Option<ItemStack>,
                                                  sender: Option<string>, expireSeconds: int, now: int, newId: GiftId)
    requires InLong(now) && InLong(expireSeconds)
    ensures PrepareGift(target, item, sender, expireSeconds, now, newId).Ok? ==>
      var g := PrepareGift(target, item, sender, expireSeconds, now, newId).value;
      && IsLive(g.expireStamp, now) && !IsSweepable(g.expireStamp, now)
      && g.itemStack.material != Air && g.itemStack.amount > 0
      && 1 <= |g.sender| <= MAX_SENDER_LENGTH && !IsTrimmable(g.sender[0])
      && InLong(g.expireStamp)
  {
    if PrepareGift(target, item, sender, expireSeconds, now, newId).Ok? {
      var g := PrepareGift(target, item, sender, expireSeconds, now, newId).value;
      TrimBounds(sender.value);
      assert g.sender[0] == Trim(sender.value)[0];
      LiveIsComplementOfSweepable(g.expireStamp, now);
    }
  }

  /** Zero seconds keeps a gift forever, exactly like -1. */
  lemma ZeroSecondsNeverExpires(now: int)
    requires InLong(now)
    ensures ExpiryStamp(now, 0) == ExpiryStamp(now, -1) == Ok(NEVER_EXPIRES)
  {
  }

  /** `sendGift`: the checks and the gift of PrepareGift, then `addGift`; a store failure
      fails the call, with nothing stored, logged or announced. */
  method SendGift(store: GiftStore, target: Option<PlayerId>, item: Option<ItemStack>, sender: Option<string>,
                  expireSeconds: int, now: int, newId: GiftId, sqlError: bool, logFails: bool)
    returns (r: Result<Gift, ApiError>)
    requires store.Valid() && InLong(now) && InLong(expireSeconds)
    modifies store`present, store`presentLog, store`events
    ensures store.Valid()
    ensures PrepareGift(target, item, sender, expireSeconds, now, newId).Err? ==>
      && r == PrepareGift(target, item, sender, expireSeconds, now, newId)
      && store.present == old(store.present) && store.presentLog == old(store.presentLog)
      && store.events == old(store.events)
    ensures PrepareGift(target, item, sender, expireSeconds, now, newId).Ok? ==>
      var g := PrepareGift(target, item, sender, expireSeconds, now, newId).value;
      && (r.Ok? <==> !old(store.closed) && !sqlError && newId !in old(store.present))
      && (r.Ok? ==>
            && r.value == g && store.present == old(store.present)[newId := RowOf(g)]
            && store.presentLog == old(store.presentLog) + (if logFails then [] else [EntryOf(g, Sent, now)])
            && store.events == old(store.events) + [GiftSent(g)])
      && (r.Err? ==>
            && r.error.StoreFailure?
            && store.present == old(store.present) && store.presentLog == old(store.presentLog)
            && store.events == old(store.events))
  {
    var prepared := PrepareGift(target, item, sender, expireSeconds, now, newId);
    if prepared.Err? {
      return prepared;
    }
    var stored := store.AddGift(prepared.value, now, sqlError, logFails);
    if stored.Fail? {
      return Err(StoreFailure(stored.error));
    }
    r := prepared;
  }

  /** `getPlayerGifts`: a limit below 1 is refused; anything above 100 is cut to 100; a
      failed read yields an empty list rather than an error. */
  method GetPlayerGifts(store: GiftStore, player: Option<PlayerId>, limit: int, now: int, failAt: Option<nat>)
    returns (r: Result<seq<Gift>, ApiError>)
    requires store.Valid()
    ensures player.None? ==> r == Err(NullArgument("playerUUID"))
    ensures player.Some? ==> (r.Err? <==> limit <= 0) && (r.Err? ==> r.error == InvalidLimit)
    ensures r.Ok? ==>
      && |r.value| <= Min(limit, MAX_LIST_LIMIT)
      && (r.value == [] || IsListing(store.present, player.value, now, Min(limit, MAX_LIST_LIMIT), r.value))
    ensures
      && player.Some? && limit > 0 && !store.closed
      && !ListingMayFail(store.present, player.value, now, Min(limit, MAX_LIST_LIMIT), failAt)
      ==> r.Ok? && IsListing(store.present, player.value, now, Min(limit, MAX_LIST_LIMIT), r.value)
  {
    if player.None? {
      return Err(NullArgument("playerUUID"));
    }
    if limit <= 0 {
      return Err(InvalidLimit);
    }
    var capped := Min(limit, MAX_LIST_LIMIT);
    var listed := store.GetGifts(player.value, capped, now, failAt);
    if listed.Err? {
      return Ok([]);
    }
    r := Ok(listed.value);
  }

  /** `getPlayerGiftCount`: a failed count reads as 0. */
  method GetPlayerGiftCount(store: GiftStore, player: Option<PlayerId>, now: int, sqlError: bool)
    returns (r: Result<int, ApiError>)
    requires store.Valid()
    ensures player.None? ==> r == Err(NullArgument("playerUUID"))
    ensures player.Some? ==> r.Ok? && r.value >= 0
    ensures player.Some? && !store.closed && !sqlError ==> r == Ok(|LiveIds(store.present, player.value, now)|)
    ensures player.Some? && (store.closed || sqlError) ==> r == Ok(0)
  {
    if player.None? {
      return Err(NullArgument("playerUUID"));
    }
    var counted := store.GetGiftCount(player.value, now, sqlError);
    if counted.Err? {
      return Ok(0);
    }
    r := Ok(counted.value);
  }
}
