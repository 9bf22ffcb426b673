/** The two tables both store generations share: `present` as a map keyed by gift id,
    `present_log` as an append-only sequence, the predicates the SQL text expresses,
    and the loops that read a ResultSet into a list of gifts. */
module GiftTable {
  import opened Wrappers
  import opened GiftModel
  import opened LogResults

  /** One row of `present`: ID, UUID, ItemStack, Count, Sender, TimeStamp, ExpireStamp. */
  datatype Row = Row(
    id: GiftId,
    owner: PlayerId,
    item: EncodedItem,
    count: int,
    sender: string,
    timestamp: int,
    expireStamp: int)

  type Table = map<GiftId, Row>

  /** One row of `present_log`; `result` holds the LogResult code. */
  datatype LogEntry = LogEntry(
    giftId: GiftId,
    playerUUID: PlayerId,
    item: EncodedItem,
    count: int,
    sender: string,
    result: int,
    timestamp: int)

  /** The facts published on the host's event bus. */
  datatype Event =
    | GiftSent(gift: Gift)
    | GiftExpired(gift: Gift)
    | GiftClaimed(gift: Gift, player: PlayerId)

  /** What a ResultSet loop ended with. */
  datatype ReadStatus = Complete | SqlFailed | DecodeFailed

  /** The row INSERT binds for a gift: Count is the item's amount. */
  function RowOf(g: Gift): Row {
    Row(g.id, g.playerUUID, Serialize(g.itemStack), g.itemStack.amount, g.sender, g.timestamp, g.expireStamp)
  }

  /** The gift a row is read back as; None when its item column cannot be deserialised. */
  function GiftOf(r: Row): Option<Gift> {
    match Deserialize(r.item)
    case None => None
    case Some(item) => Some(Gift(r.id, r.owner, item, r.sender, r.timestamp, r.expireStamp))
  }

  /** The audit row logAction binds for a gift, a result and the time of logging. */
  function EntryOf(g: Gift, result: LogResult, now: int): LogEntry {
    LogEntry(g.id, g.playerUUID, Serialize(g.itemStack), g.itemStack.amount, g.sender, result.Value(), now)
  }

  /** A stored gift reads back as itself. */
  lemma RowRoundTrip(g: Gift)
    ensures GiftOf(RowOf(g)) == Some(g)
  {
  }

  /** Every row sits under its own primary key. */
  ghost predicate WellKeyed(t: Table) {
    forall id | id in t :: t[id].id == id
  }

  /** `WHERE UUID = ? AND (ExpireStamp = -1 OR ExpireStamp > ?)`. */
  function LiveIds(t: Table, player: PlayerId, now: int): set<GiftId> {
    set id | id in t && t[id].owner == player && IsLive(t[id].expireStamp, now)
  }

  /** `WHERE ExpireStamp != -1 AND ExpireStamp <= ?`. */
  function SweepableIds(t: Table, now: int): set<GiftId> {
    set id | id in t && IsSweepable(t[id].expireStamp, now)
  }

  /** The table after `DELETE FROM present WHERE ExpireStamp != -1 AND ExpireStamp <= ?`. */
  function Unswept(t: Table, now: int): Table {
    map id | id in t && !IsSweepable(t[id].expireStamp, now) :: t[id]
  }

  /** The rows that turn sweepable after `now` and no later than `later`. */
  function ExpiringBetween(t: Table, now: int, later: int): set<GiftId> {
    set id | id in t && t[id].expireStamp != NEVER_EXPIRES && now < t[id].expireStamp <= later
  }

  /** The sweep's DELETE removes the rows sweepable at the instant it reads the clock, and
      keeps every other row as it was. */
  lemma UnsweptRemovesSweepable(t: Table, now: int)
    ensures Unswept(t, now) == t - SweepableIds(t, now)
  {
    assert Unswept(t, now).Keys == (t - SweepableIds(t, now)).Keys;
  }

  /** The sweep reads the clock once for its SELECT (`now`) and again for its DELETE
      (`deleteNow`). What the DELETE removes beyond the gifts the SELECT read, logged and
      announced is exactly what expired between the two readings. */
  lemma {:induction false} SweepWindow(t: Table, now: int, deleteNow: int)
    requires now <= deleteNow
    ensures SweepableIds(t, deleteNow) == SweepableIds(t, now) + ExpiringBetween(t, now, deleteNow)
    ensures SweepableIds(t, now) * ExpiringBetween(t, now, deleteNow) == {}
  {
    forall id | id in SweepableIds(t, now)
      ensures id in SweepableIds(t, deleteNow)
    {
      SweepableIsMonotone(t[id].expireStamp, now, deleteNow);
    }
  }

  /** With a single reading (`deleteNow == now`) the DELETE removes exactly the rows the
      SELECT read: every deleted gift was logged EXPIRED and announced. */
  lemma {:induction false} SweepAtSelectTimeRemovesOnlySelected(t: Table, now: int)
    ensures (t.Keys - Unswept(t, now).Keys) == SweepableIds(t, now)
    ensures ExpiringBetween(t, now, now) == {}
  {
    UnsweptRemovesSweepable(t, now);
    SweepWindow(t, now, now);
  }

  /** With two readings a gift can go unrecorded: at SELECT time 6 only "a" (expiring at 5)
      is read and logged, but the DELETE at time 7 also removes "b" (expiring at 7). */
  lemma TwoClockSweepDeletesUnloggedGift()
    ensures
      var item := Encoded(ItemStack(Solid("STONE"), 1));
      var t := map["a" := Row("a", "p", item, 1, "s", 0, 5), "b" := Row("b", "p", item, 1, "s", 0, 7)];
      && SweepableIds(t, 6) == {"a"}
      && "b" in t && "b" !in Unswept(t, 7) && "b" !in SweepableIds(t, 6)
  {
    var item := Encoded(ItemStack(Solid("STONE"), 1));
    var t := map["a" := Row("a", "p", item, 1, "s", 0, 5), "b" := Row("b", "p", item, 1, "s", 0, 7)];
    assert t.Keys == {"a", "b"};
    assert "a" in SweepableIds(t, 6);
  }

  /** One GiftExpiredEvent per swept gift, in sweep order. */
  function ExpiryEvents(gs: seq<Gift>): seq<Event> {
    if gs == [] then [] else ExpiryEvents(gs[..|gs| - 1]) + [GiftExpired(gs[|gs| - 1])]
  }

  /** Some row among `ids` holds an item payload the codec cannot read back. */
  predicate HasUnreadable(t: Table, ids: set<GiftId>)
    requires ids <= t.Keys
  {
    exists id :: id in ids && GiftOf(t[id]).None?
  }

  /** One audit entry with result `result` per gift whose insert does not fail, in order. */
  function ResultLog(gs: seq<Gift>, result: LogResult, failed: set<GiftId>, now: int): seq<LogEntry>
  {
    if gs == [] then []
    else
      var last := gs[|gs| - 1];
      ResultLog(gs[..|gs| - 1], result, failed, now) + (if last.id in failed then [] else [EntryOf(last, result, now)])
  }

  function IdSet(gs: seq<Gift>): set<GiftId> {
    set g | g in gs :: g.id
  }

  function SeqSet(ids: seq<GiftId>): set<GiftId> {
    set id | id in ids
  }

  function Min(a: int, b: int): int {
    if a < b then a else b
  }

  /** `gs` lists candidates of `t` read back intact, without repetition, in ascending
      TimeStamp order, and no candidate left out is older than one listed: the rows an
      `ORDER BY TimeStamp ASC` cursor can have produced so far (ties in either order). */
  ghost predicate IsOrderedSelection(t: Table, gs: seq<Gift>, candidates: set<GiftId>) {
    && candidates <= t.Keys
    && (forall i | 0 <= i < |gs| :: gs[i].id in candidates && GiftOf(t[gs[i].id]) == Some(gs[i]))
    && (forall i, j | 0 <= i < j < |gs| :: gs[i].id != gs[j].id && gs[i].timestamp <= gs[j].timestamp)
    && (forall i, id | 0 <= i < |gs| && id in candidates && id !in IdSet(gs) ::
          gs[i].timestamp <= t[id].timestamp)
  }

  /** The full answer to `SELECT * ... ORDER BY TimeStamp ASC LIMIT limit` for one player. */
  ghost predicate IsListing(t: Table, player: PlayerId, now: int, limit: int, gs: seq<Gift>) {
    && IsOrderedSelection(t, gs, LiveIds(t, player, now))
    && |gs| == Min(limit, |LiveIds(t, player, now)|)
  }

  /** The live rows of `player` whose TimeStamp is strictly older than that of row `id`. */
  function OlderLive(t: Table, player: PlayerId, now: int, id: GiftId): set<GiftId>
    requires id in t
  {
    set j | j in t && t[j].owner == player && IsLive(t[j].expireStamp, now) && t[j].timestamp < t[id].timestamp
  }

  /** Some unreadable live row of `player` has fewer than `limit` live rows older than it,
      so an `ORDER BY TimeStamp ASC LIMIT limit` cursor can reach it. */
  ghost predicate UnreadableWithin(t: Table, player: PlayerId, now: int, limit: int) {
    exists id :: id in t && id in LiveIds(t, player, now) && GiftOf(t[id]).None? && |OlderLive(t, player, now, id)| < limit
  }

  /** The row a TimeStamp-ordered cursor yields after `gs` is an earliest live candidate not
      yet listed, and that row cannot be read back. */
  ghost predicate NextIsUnreadable(t: Table, player: PlayerId, now: int, gs: seq<Gift>) {
    exists id :: id in t && id in LiveIds(t, player, now) && id !in IdSet(gs) && GiftOf(t[id]).None? &&
      forall j | j in LiveIds(t, player, now) && j !in IdSet(gs) :: j in t && t[id].timestamp <= t[j].timestamp
  }

  /** What can stop a listing cursor before it has read `Min(limit, live)` rows: a fault at
      a row it would still read, or an unreadable row it can reach. */
  ghost predicate ListingMayFail(t: Table, player: PlayerId, now: int, limit: int, failAt: Option<nat>) {
    || (failAt.Some? && failAt.value < Min(limit, |LiveIds(t, player, now)|))
    || UnreadableWithin(t, player, now, limit)
  }

  /** A non-empty set of stored ids has a member with the smallest TimeStamp. */
  lemma {:induction false} EarliestExists(t: Table, s: set<GiftId>)
    requires s != {} && s <= t.Keys
    ensures exists id :: id in s && forall j | j in s :: t[id].timestamp <= t[j].timestamp
  {
    var x :| x in s;
    if s != {x} {
      var rest := s - {x};
      EarliestExists(t, rest);
      var m :| m in rest && forall j | j in rest :: t[m].timestamp <= t[j].timestamp;
      if t[x].timestamp <= t[m].timestamp {
        assert forall j | j in s :: t[x].timestamp <= t[j].timestamp;
      } else {
        assert forall j | j in s :: t[m].timestamp <= t[j].timestamp;
      }
    }
  }

  /** Every gift of a listing belongs to the player and is live at the query time, so it is
      never one the sweep would select at that time. */
  lemma ListingIsLiveAndOwned(t: Table, player: PlayerId, now: int, limit: int, gs: seq<Gift>, i: int)
    requires IsListing(t, player, now, limit, gs)
    requires 0 <= i < |gs|
    ensures gs[i].playerUUID == player
    ensures IsLive(gs[i].expireStamp, now) && !IsSweepable(gs[i].expireStamp, now)
    ensures gs[i].id !in SweepableIds(t, now)
    ensures gs[i].id in t && GiftOf(t[gs[i].id]) == Some(gs[i])
  {
    var id := gs[i].id;
    assert id in LiveIds(t, player, now);
    assert GiftOf(t[id]) == Some(gs[i]);
  }

  /** A listing whose limit covers the player's live gifts lists all of them: the count
      query and the listing agree. */
  lemma {:induction false} ListingCoversCount(t: Table, player: PlayerId, now: int, limit: int, gs: seq<Gift>)
    requires IsListing(t, player, now, limit, gs)
    requires limit >= |LiveIds(t, player, now)|
    ensures IdSet(gs) == LiveIds(t, player, now)
  {
    var live := LiveIds(t, player, now);
    assert IdSet(gs) <= live;
    DistinctIdsCardinality(gs);
    SubsetOfSameSizeIsEqual(IdSet(gs), live);
  }

  /** A sequence of gifts with pairwise distinct ids has as many ids as gifts. */
  lemma {:induction false} DistinctIdsCardinality(gs: seq<Gift>)
    requires forall i, j | 0 <= i < j < |gs| :: gs[i].id != gs[j].id
    ensures |IdSet(gs)| == |gs|
  {
    if gs != [] {
      var last := gs[|gs| - 1];
      var front := gs[..|gs| - 1];
      DistinctIdsCardinality(front);
      assert IdSet(gs) == IdSet(front) + {last.id};
      assert last.id !in IdSet(front);
    }
  }

  lemma SubsetOfSameSizeIsEqual<T>(a: set<T>, b: set<T>)
    requires a <= b && |a| == |b|
    ensures a == b
  {
    if a != b {
      assert b - a != {} by {
        if b - a == {} {
          forall x | x in b ensures x in a {
            assert x !in b - a;
          }
        }
      }
      var x :| x in b - a;
      SubsetCardinality(a, b - {x});
    }
  }

  lemma {:induction false} SubsetCardinality<T>(a: set<T>, c: set<T>)
    requires a <= c
    ensures |a| <= |c|
  {
    if a != {} {
      var y :| y in a;
      SubsetCardinality(a - {y}, c - {y});
    }
  }

  /** An unreadable row met after fewer than `limit` listed rows lies within the limit:
      every live row older than it has already been listed. */
  lemma NextUnreadableIsWithin(t: Table, player: PlayerId, now: int, limit: int, gs: seq<Gift>)
    requires IsOrderedSelection(t, gs, LiveIds(t, player, now))
    requires |gs| < limit && NextIsUnreadable(t, player, now, gs)
    ensures UnreadableWithin(t, player, now, limit)
  {
    var live := LiveIds(t, player, now);
    var id :| id in t && id in live && id !in IdSet(gs) && GiftOf(t[id]).None? &&
      forall j | j in live && j !in IdSet(gs) :: j in t && t[id].timestamp <= t[j].timestamp;
    var older := OlderLive(t, player, now, id);
    forall j | j in older ensures j in IdSet(gs) {
      assert j in live;
    }
    DistinctIdsCardinality(gs);
    SubsetCardinality(older, IdSet(gs));
  }

  /** One step of an `ORDER BY TimeStamp ASC` cursor: appending the row of an earliest
      remaining candidate keeps the selection ordered and the rest exactly what is left. */
  lemma SelectEarliest(t: Table, gifts: seq<Gift>, live: set<GiftId>, remaining: set<GiftId>, id: GiftId, g: Gift)
    requires WellKeyed(t) && remaining <= live
    requires forall x | x in live :: x in remaining <==> x !in IdSet(gifts)
    requires IsOrderedSelection(t, gifts, live)
    requires id in remaining && forall j | j in remaining :: t[id].timestamp <= t[j].timestamp
    requires GiftOf(t[id]) == Some(g)
    ensures IsOrderedSelection(t, gifts + [g], live)
    ensures forall x | x in live :: x in remaining - {id} <==> x !in IdSet(gifts + [g])
  {
    assert g.id == id && g.timestamp == t[id].timestamp;
    assert IdSet(gifts + [g]) == IdSet(gifts) + {id};
    var gs := gifts + [g];
    forall i | 0 <= i < |gifts|
      ensures gs[i].id != id && gs[i].timestamp <= g.timestamp
    {
      assert gifts[i].id in IdSet(gifts);
    }
  }

  /** The ResultSet loop of the listing query: it reads rows in ascending TimeStamp order,
      at most `limit` of them, and stops at the first row it cannot deserialise or when the
      cursor fails after `failAt` rows. What it has read by then is always an ordered prefix
      of a full listing; when it completes, it is the full listing. */
  method ReadLive(t: Table, player: PlayerId, now: int, limit: nat, failAt: Option<nat>)
    returns (gifts: seq<Gift>, status: ReadStatus)
    requires WellKeyed(t)
    ensures IsOrderedSelection(t, gifts, LiveIds(t, player, now))
    ensures |gifts| <= limit
    ensures status == Complete ==> IsListing(t, player, now, limit, gifts)
    ensures status == SqlFailed ==> failAt == Some(|gifts|) && |gifts| < Min(limit, |LiveIds(t, player, now)|)
    ensures status == DecodeFailed ==> |gifts| < limit && NextIsUnreadable(t, player, now, gifts)
    ensures status == DecodeFailed ==> UnreadableWithin(t, player, now, limit)
    ensures status != Complete ==> ListingMayFail(t, player, now, limit, failAt)
  {
    ghost var live := LiveIds(t, player, now);
    var remaining := LiveIds(t, player, now);
    gifts := [];
    status := Complete;
    while |gifts| < limit && remaining != {}
      invariant remaining <= live
      invariant forall id | id in live :: id in remaining <==> id !in IdSet(gifts)
      invariant |remaining| + |gifts| == |live|
      invariant IsOrderedSelection(t, gifts, live)
      invariant |gifts| <= limit
      decreases remaining
    {
      if failAt == Some(|gifts|) {
        status := SqlFailed;
        return;
      }
      EarliestExists(t, remaining);
      var id :| id in remaining && forall j | j in remaining :: t[id].timestamp <= t[j].timestamp;
      match GiftOf(t[id]) {
        case None =>
          status := DecodeFailed;
          NextUnreadableIsWithin(t, player, now, limit, gifts);
          return;
        case Some(g) =>
          SelectEarliest(t, gifts, live, remaining, id, g);
          gifts := gifts + [g];
          remaining := remaining - {id};
      }
    }
  }

  /** The ResultSet loop of the sweep's select: every sweepable row, in whatever order the
      cursor yields them; it stops at the first row it cannot deserialise. When it completes
      it has read each sweepable gift exactly once. */
  method ReadSweepable(t: Table, now: int, queryFails: bool)
    returns (gifts: seq<Gift>, status: ReadStatus)
    requires WellKeyed(t)
    ensures status == SqlFailed <==> queryFails
    ensures !queryFails ==>
      (status == DecodeFailed <==> exists id :: id in SweepableIds(t, now) && GiftOf(t[id]).None?)
    ensures status == Complete ==> IdSet(gifts) == SweepableIds(t, now)
    ensures forall i | 0 <= i < |gifts| :: gifts[i].id in t && GiftOf(t[gifts[i].id]) == Some(gifts[i])
    ensures forall i, j | 0 <= i < j < |gifts| :: gifts[i].id != gifts[j].id
  {
    gifts := [];
    if queryFails {
      status := SqlFailed;
      return;
    }
    ghost var swept := SweepableIds(t, now);
    var remaining := SweepableIds(t, now);
    status := Complete;
    while remaining != {}
      invariant remaining <= swept
      invariant forall id | id in swept :: id in remaining <==> id !in IdSet(gifts)
      invariant IdSet(gifts) <= swept
      invariant forall i | 0 <= i < |gifts| :: gifts[i].id in t && GiftOf(t[gifts[i].id]) == Some(gifts[i])
      invariant forall i, j | 0 <= i < j < |gifts| :: gifts[i].id != gifts[j].id
      decreases remaining
    {
      var id :| id in remaining;
      match GiftOf(t[id]) {
        case None =>
          status := DecodeFailed;
          return;
        case Some(g) =>
          assert g.id == id;
          gifts := gifts + [g];
          remaining := remaining - {id};
      }
    }
    assert IdSet(gifts) == swept;
  }
}
