/** The legacy public API. `sendGift` validates nothing: it stores the sender as given,
    computes the expiry stamp with plain 64-bit `long` arithmetic (which wraps around on
    overflow), and hands the gift to the store, whose failures it cannot see. The two
    reads pass the store's answers on unchanged, with no limit check and no cap. */
module LegacyApi {
  import opened Wrappers
  import opened GiftModel
  import opened LogResults
  import opened GiftTable
  import opened LegacyStore
  import opened JavaText
  import CreeperApi

  const TWO_64: int := 0x1_0000_0000_0000_0000

  /** The `long` a Java expression of this mathematical value evaluates to: the value
      reduced into the 64-bit two's-complement range. */
  function Wrap64(x: int): (r: int)
    ensures InLong(r)
    ensures InLong(x) ==> r == x
    ensures (x - r) % TWO_64 == 0
  {
    (x - LONG_MIN) % TWO_64 + LONG_MIN
  }

  /** `expireSeconds > 0 ? now + expireSeconds * 1000 : -1` evaluated on `long`s: every
      count that is not positive (including ones below -1) never expires; a positive one
      gives the intended stamp up to a multiple of 2^64. */
  function LegacyExpiry(now: int, expireSeconds: int): (r: int)
    requires InLong(now) && InLong(expireSeconds)
    ensures InLong(r)
    ensures expireSeconds <= 0 ==> r == NEVER_EXPIRES
    ensures expireSeconds > 0 ==> (now + expireSeconds * 1000 - r) % TWO_64 == 0
  {
    if expireSeconds > 0 then Wrap64(now + Wrap64(expireSeconds * 1000)) else NEVER_EXPIRES
  }

  /** Where neither product nor sum overflows, the legacy stamp is the one the newer,
      overflow-checked `sendGift` computes; -1 and 0 never expire in both; below -1 the
      legacy API keeps the gift forever where the newer one refuses the call. */
  lemma {:induction false} ExpiryGenerationsAgree(now: int, expireSeconds: int)
    requires InLong(now) && InLong(expireSeconds)
    ensures expireSeconds > 0 && CreeperApi.CheckedExpiry(now, expireSeconds).Ok? ==>
      LegacyExpiry(now, expireSeconds) == CreeperApi.CheckedExpiry(now, expireSeconds).value
    ensures -1 <= expireSeconds <= 0 ==>
      Ok(LegacyExpiry(now, expireSeconds)) == CreeperApi.ExpiryStamp(now, expireSeconds)
    ensures expireSeconds < -1 ==>
      && LegacyExpiry(now, expireSeconds) == NEVER_EXPIRES
      && CreeperApi.ExpiryStamp(now, expireSeconds).Err?
  {
    if expireSeconds > 0 && CreeperApi.CheckedExpiry(now, expireSeconds).Ok? {
      var millis := expireSeconds * 1000;
      assert Wrap64(millis) == millis;
      assert Wrap64(now + millis) == now + millis;
    }
  }

  /** A gift sent for about 292 million years from a clock reading in 2023 gets a stamp
      that has wrapped round to the far past: it is never listed and the next expiry
      sweep deletes it, while the newer API refuses the same call as too large. */
  lemma WrappedExpiryIsSweptAtOnce()
    ensures var now, secs := 1_700_000_000_000, 9_223_372_036_854_775;
      && LegacyExpiry(now, secs) == -9_223_370_336_854_776_616
      && IsSweepable(LegacyExpiry(now, secs), now) && !IsLive(LegacyExpiry(now, secs), now)
      && CreeperApi.CheckedExpiry(now, secs) == Err(CreeperApi.ExpiryTooLarge)
  {
    var now, secs := 1_700_000_000_000, 9_223_372_036_854_775;
    var millis := secs * 1000;
    assert millis == 9_223_372_036_854_775_000;
    assert Wrap64(millis) == millis;
    assert now + millis - TWO_64 == -9_223_370_336_854_776_616;
    assert Wrap64(now + millis) == -9_223_370_336_854_776_616 by {
      var w := Wrap64(now + millis);
      assert (now + millis - w) % TWO_64 == 0;
      assert InLong(w);
    }
  }

  /** The gift legacy `sendGift` builds: the arguments as given, the fresh id `newId`, the
      time `now` and the wrapped expiry stamp. */
  function LegacyGift(target: PlayerId, item: ItemStack, sender: string, expireSeconds: int,
                      now: int, newId: GiftId): Gift
    requires InLong(now) && InLong(expireSeconds)
  {
    Gift(newId, target, item, sender, now, LegacyExpiry(now, expireSeconds))
  }

  /** On a call the newer API accepts, with a sender that is already trimmed and at most
      100 characters long, and an expiry that does not overflow, both generations build the
      same gift. */
  lemma GiftGenerationsAgree(target: PlayerId, item: ItemStack, sender: string,
                             expireSeconds: int, now: int, newId: GiftId)
    requires InLong(now) && InLong(expireSeconds)
    requires CreeperApi.PrepareGift(Some(target), Some(item), Some(sender), expireSeconds, now, newId).Ok?
    requires Trim(sender) == sender && |sender| <= CreeperApi.MAX_SENDER_LENGTH
    ensures CreeperApi.PrepareGift(Some(target), Some(item), Some(sender), expireSeconds, now, newId).value
      == LegacyGift(target, item, sender, expireSeconds, now, newId)
  {
    ExpiryGenerationsAgree(now, expireSeconds);
  }

  /** The legacy API stores an air stack, a zero amount and a blank sender alike: every
      call builds a gift, where the newer API refuses each of these. */
  lemma LegacyAcceptsWhatNewerRefuses(target: PlayerId, expireSeconds: int, now: int, newId: GiftId)
    requires InLong(now) && InLong(expireSeconds)
    ensures LegacyGift(target, ItemStack(Air, 0), " ", expireSeconds, now, newId).sender == " "
    ensures CreeperApi.PrepareGift(Some(target), Some(ItemStack(Air, 0)), Some(" "), expireSeconds, now, newId)
      == Err(CreeperApi.InvalidItem)
    ensures CreeperApi.PrepareGift(Some(target), Some(ItemStack(Solid("STONE"), 1)), Some(" "), expireSeconds, now, newId)
      == Err(CreeperApi.BlankSender)
  {
    assert IsBlank(" ") by {
      assert forall i | 0 <= i < |" "| :: " "[i] == ' ';
    }
    TrimBounds(" ");
  }

  /** `sendGift`: builds the gift and hands it to `addGift`, whose failures are swallowed
      there, so the call itself never fails. `gift` is the gift it built. */
  method LegacySendGift(store: LegacyGiftStore, target: PlayerId, item: ItemStack, sender: string,
                        expireSeconds: int, now: int, newId: GiftId, sqlError: bool, logFails: bool)
    returns (ghost gift: Gift)
    requires store.Valid() && InLong(now) && InLong(expireSeconds)
    modifies store`present, store`presentLog, store`events
    ensures store.Valid()
    ensures gift == LegacyGift(target, item, sender, expireSeconds, now, newId)
    ensures !store.closed && !sqlError && newId !in old(store.present) ==>
      && store.present == old(store.present)[newId := RowOf(gift)]
      && store.presentLog == old(store.presentLog) + (if logFails then [] else [EntryOf(gift, Sent, now)])
      && store.events == old(store.events) + [GiftSent(gift)]
    ensures store.closed || sqlError || newId in old(store.present) ==>
      && store.present == old(store.present) && store.presentLog == old(store.presentLog)
      && store.events == old(store.events)
  {
    var built := LegacyGift(target, item, sender, expireSeconds, now, newId);
    store.AddGift(built, now, sqlError, logFails);
    gift := built;
  }

  /** `getPlayerGifts`: the store's answer, with the caller's limit passed through
      unchecked and uncapped. */
  method LegacyGetPlayerGifts(store: LegacyGiftStore, player: PlayerId, limit: int, now: int, failAt: Option<nat>)
    returns (gifts: seq<Gift>)
    requires store.Valid()
    ensures limit <= 0 ==> gifts == []
    ensures IsOrderedSelection(store.present, gifts, LiveIds(store.present, player, now))
    ensures |gifts| <= if limit < 0 then 0 else limit
    ensures
      && !store.closed && limit >= 0
      && !ListingMayFail(store.present, player, now, limit, failAt)
      ==> IsListing(store.present, player, now, limit, gifts)
  {
    gifts := store.GetGifts(player, limit, now, failAt);
  }

  /** `getPlayerGiftCount`: the store's count; a failure reads as 0. */
  method LegacyGetPlayerGiftCount(store: LegacyGiftStore, player: PlayerId, now: int, sqlError: bool)
    returns (n: int)
    requires store.Valid()
    ensures n >= 0
    ensures n == if store.closed || sqlError then 0 else |LiveIds(store.present, player, now)|
  {
    n := store.GetGiftCount(player, now, sqlError);
  }
}
