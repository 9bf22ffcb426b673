/** The immutable gift record and the two time predicates every query of the
    `present` table is built from. */
module GiftModel {
  import opened Wrappers

  /** A player's UUID, kept in its textual form as the tables store it. */
  type PlayerId = string
  /** A gift's primary key (a random UUID string). */
  type GiftId = string

  /** Sentinel expiry stamp: the gift never expires. */
  const NEVER_EXPIRES: int := -1

  /** Bounds of a Java `long`. */
  const LONG_MIN: int := -0x8000_0000_0000_0000
  const LONG_MAX: int := 0x7FFF_FFFF_FFFF_FFFF

  predicate InLong(x: int) { LONG_MIN <= x <= LONG_MAX }

  datatype Material = Air | Solid(name: string)

  /** The transferred item: its material and stack size. */
  datatype ItemStack = ItemStack(material: Material, amount: int)

  /** The item column as stored: what the item codec wrote, or text it cannot read back. */
  datatype EncodedItem = Encoded(item: ItemStack) | Unreadable(text: string)

  /** Serialising never fails; deserialising fails on text the codec did not write. */
  function Serialize(item: ItemStack): EncodedItem {
    Encoded(item)
  }

  function Deserialize(e: EncodedItem): Option<ItemStack> {
    match e
    case Encoded(item) => Some(item)
    case Unreadable(_) => None
  }

  /** A gift: all six fields are fixed at construction, and the constructor checks nothing
      (any id, sender, timestamp, and the -1 sentinel or any other expiry stamp). */
  datatype Gift = Gift(
    id: GiftId,
    playerUUID: PlayerId,
    itemStack: ItemStack,
    sender: string,
    timestamp: int,
    expireStamp: int)

  /** `ExpireStamp = -1 OR ExpireStamp > now`: the rows that listing and counting see. */
  predicate IsLive(expireStamp: int, now: int) {
    expireStamp == NEVER_EXPIRES || expireStamp > now
  }

  /** `ExpireStamp != -1 AND ExpireStamp <= now`: the rows the expiry sweep selects and deletes. */
  predicate IsSweepable(expireStamp: int, now: int) {
    expireStamp != NEVER_EXPIRES && expireStamp <= now
  }

  /** The claim workflows' own staleness test, `expireStamp != -1 && now > expireStamp`. */
  predicate IsExpiredAt(expireStamp: int, now: int) {
    expireStamp != NEVER_EXPIRES && now > expireStamp
  }

  /** The sweep predicate is the exact complement of the listing predicate, so at one
      instant no gift is both listable and sweepable. */
  lemma LiveIsComplementOfSweepable(expireStamp: int, now: int)
    ensures IsLive(expireStamp, now) <==> !IsSweepable(expireStamp, now)
  {
  }

  /** Once swept at some instant, a gift stays sweepable at every later instant; a gift live
      at a later instant was already live earlier. */
  lemma SweepableIsMonotone(expireStamp: int, now: int, later: int)
    requires now <= later
    ensures IsSweepable(expireStamp, now) ==> IsSweepable(expireStamp, later)
    ensures IsLive(expireStamp, later) ==> IsLive(expireStamp, now)
  {
  }

  /** A gift the claim workflows call expired is one listing would no longer show. */
  lemma ExpiredIsNotLive(expireStamp: int, now: int)
    ensures IsExpiredAt(expireStamp, now) ==> !IsLive(expireStamp, now)
    ensures IsLive(expireStamp, now) ==> !IsExpiredAt(expireStamp, now)
  {
  }
}
