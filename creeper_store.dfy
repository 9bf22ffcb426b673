/** The newer gift store: the `present` table and its audit log behind a pooled
    connection. It surfaces every failure as a failed result, refuses all work once
    closed (logging excepted, which quietly does nothing), deletes id lists in batches
    of 100 inside one transaction, and sweeps expired gifts by logging each and then
    deleting in bulk. */
module CreeperStore {
  import opened Wrappers
  import opened GiftModel
  import opened LogResults
  import opened GiftTable

  datatype StoreError = ShutDown | SqlError | DecodeError

  /** JDBC's `Statement.SUCCESS_NO_INFO`. */
  const SUCCESS_NO_INFO: int := -2

  /** Ids per `executeBatch` flush in deleteGifts. */
  const BATCH_SIZE: nat := 100

  /** A batch entry countSuccessfulUpdates credits: a positive row count, or "succeeded,
      count unknown". */
  predicate IsSuccessfulUpdate(result: int) {
    result > 0 || result == SUCCESS_NO_INFO
  }

  /** The number of credited entries of a batch result. */
  function SuccessCount(results: seq<int>): (n: nat)
    ensures n <= |results|
  {
    if results == [] then 0
    else SuccessCount(results[..|results| - 1]) + (if IsSuccessfulUpdate(results[|results| - 1]) then 1 else 0)
  }

  /** Credits lie between none and all, and a batch of failures (0 or negative other than
      SUCCESS_NO_INFO) credits nothing. */
  lemma {:induction false} SuccessCountBounds(results: seq<int>)
    ensures 0 <= SuccessCount(results) <= |results|
    ensures (forall k | 0 <= k < |results| :: !IsSuccessfulUpdate(results[k])) ==> SuccessCount(results) == 0
    ensures (forall k | 0 <= k < |results| :: IsSuccessfulUpdate(results[k])) ==> SuccessCount(results) == |results|
  {
    if results != [] {
      SuccessCountBounds(results[..|results| - 1]);
    }
  }

  /** `countSuccessfulUpdates`: counts the entries that are positive or SUCCESS_NO_INFO. */
  method CountSuccessfulUpdates(results: seq<int>) returns (deleted: nat)
    ensures deleted == SuccessCount(results)
    ensures deleted <= |results|
  {
    deleted := 0;
    for i := 0 to |results|
      invariant deleted == SuccessCount(results[..i])
    {
      assert results[..i + 1][..i] == results[..i];
      if IsSuccessfulUpdate(results[i]) {
        deleted := deleted + 1;
      }
    }
    assert results[..|results|] == results;
  }

  /** One `DELETE FROM present WHERE ID = ?` statement: its affected-row count. */
  method ExecuteDelete(t: Table, id: GiftId) returns (t': Table, affected: int)
    ensures t' == t - {id}
    ensures affected == (if id in t then 1 else 0)
    ensures |t'| == |t| - affected
  {
    if id in t {
      MapRemoveOne(t, id);
      affected := 1;
    } else {
      assert t - {id} == t;
      affected := 0;
    }
    t' := t - {id};
  }

  /** One `executeBatch` of those statements inside the open transaction: each removes its
      row if it is still there and reports 1, or reports 0. The credited count is the number
      of rows that went. */
  method ExecuteDeleteBatch(t: Table, batch: seq<GiftId>) returns (t': Table, results: seq<int>)
    ensures t' == t - SeqSet(batch)
    ensures SuccessCount(results) == |t| - |t'|
  {
    t' := t;
    results := [];
    for k := 0 to |batch|
      invariant t' == t - SeqSet(batch[..k])
      invariant SuccessCount(results) == |t| - |t'|
    {
      var t0, r0 := t', results;
      var affected;
      t', affected := ExecuteDelete(t', batch[k]);
      results := results + [affected];
      DeleteStepKeepsCount(t, batch, k, t0, r0, affected);
    }
    assert batch[..|batch|] == batch;
  }

  /** One statement of the batch keeps the loop's accounting: the table lost exactly the
      ids seen so far, and the credits equal the rows gone. */
  lemma DeleteStepKeepsCount(t: Table, batch: seq<GiftId>, k: nat, t0: Table, r0: seq<int>, affected: int)
    requires k < |batch|
    requires t0 == t - SeqSet(batch[..k])
    requires SuccessCount(r0) == |t| - |t0|
    requires affected == (if batch[k] in t0 then 1 else 0)
    requires |t0 - {batch[k]}| == |t0| - affected
    ensures t0 - {batch[k]} == t - SeqSet(batch[..k + 1])
    ensures SuccessCount(r0 + [affected]) == |t| - |t0 - {batch[k]}|
  {
    SeqSetSnoc(batch, k);
    if batch[k] in t0 {
      MapMinusSnoc(t, SeqSet(batch[..k]), batch[k]);
    } else {
      MapMinusAbsent(t, SeqSet(batch[..k]), batch[k]);
    }
    SuccessCountSnoc(r0, affected);
  }

  lemma SuccessCountSnoc(results: seq<int>, x: int)
    ensures SuccessCount(results + [x]) == SuccessCount(results) + (if IsSuccessfulUpdate(x) then 1 else 0)
  {
    assert (results + [x])[..|results|] == results;
  }

  lemma MapMinusSnoc(t: Table, s: set<GiftId>, id: GiftId)
    ensures t - (s + {id}) == (t - s) - {id}
  {
  }

  lemma MapMinusAbsent(t: Table, s: set<GiftId>, id: GiftId)
    requires id !in t - s
    ensures t - (s + {id}) == t - s
  {
  }

  lemma SeqSetSnoc(ids: seq<GiftId>, k: nat)
    requires k < |ids|
    ensures SeqSet(ids[..k + 1]) == SeqSet(ids[..k]) + {ids[k]}
  {
    assert ids[..k + 1] == ids[..k] + [ids[k]];
  }

  lemma MapRemoveOne(m: Table, id: GiftId)
    requires id in m
    ensures |m - {id}| == |m| - 1
  {
    assert (m - {id}).Keys == m.Keys - {id};
  }

  /** The number of `executeBatch` flushes deleteGifts performs for n ids. */
  function FlushCount(n: nat): nat {
    (n + BATCH_SIZE - 1) / BATCH_SIZE
  }

  class GiftStore {
    /** The `present` table. */
    var present: Table
    /** The `present_log` table, oldest entry first. */
    var presentLog: seq<LogEntry>
    /** GiftSentEvent and GiftExpiredEvent as published, oldest first. */
    var events: seq<Event>
    var closed: bool
    var isInitialized: bool
    var initializationStarted: bool
    /** The state of `initializationFuture`: not completed, or completed well (true) or
        exceptionally (false). */
    var initResult: Option<bool>

    ghost predicate Valid()
      reads this
    {
      && WellKeyed(present)
      && (initializationStarted <==> initResult.Some?)
      && (isInitialized ==> initResult == Some(true))
    }

    /** A store over tables that already hold rows from earlier runs. */
    constructor (existing: Table, existingLog: seq<LogEntry>)
      requires WellKeyed(existing)
      ensures Valid()
      ensures present == existing && presentLog == existingLog && events == []
      ensures !closed && !isInitialized && !initializationStarted
    {
      present := existing;
      presentLog := existingLog;
      events := [];
      closed := false;
      isInitialized := false;
      initializationStarted := false;
      initResult := None;
    }

    /** `initialize`: only the first call runs the DDL; every later call reports how that
        first run ended instead of racing a second CREATE. */
    method Initialize(ddlFails: bool) returns (ok: bool)
      requires Valid()
      modifies this`isInitialized, this`initializationStarted, this`initResult
      ensures Valid() && initializationStarted
      ensures old(initializationStarted) ==>
        ok == old(initResult).value && isInitialized == old(isInitialized) && initResult == old(initResult)
      ensures !old(initializationStarted) ==>
        ok == !ddlFails && isInitialized == ok && initResult == Some(ok)
    {
      if initializationStarted {
        ok := initResult.value;
        return;
      }
      initializationStarted := true;
      if ddlFails {
        initResult := Some(false);
        ok := false;
      } else {
        isInitialized := true;
        initResult := Some(true);
        ok := true;
      }
    }

    /** `close`: from now on every operation but logAction fails at once. */
    method Close()
      requires Valid()
      modifies this`closed, this`isInitialized
      ensures Valid() && closed && !isInitialized
    {
      closed := true;
      isInitialized := false;
    }

    /** `logAction`: best effort. Closed, it does nothing; otherwise it appends one audit
        row unless the insert (or serialising the item) fails, which is only logged. */
    method LogAction(gift: Gift, result: LogResult, now: int, fails: bool)
      requires Valid()
      modifies this`presentLog
      ensures Valid()
      ensures presentLog == if closed || fails then old(presentLog) else old(presentLog) + [EntryOf(gift, result, now)]
    {
      if closed || fails {
        return;
      }
      presentLog := presentLog + [EntryOf(gift, result, now)];
    }

    /** `addGift`: inserts the row (Count = item amount); only after the insert took does
        it log SENT and publish GiftSentEvent. A duplicate id or an SQL error fails the
        future with neither effect. */
    method AddGift(gift: Gift, now: int, sqlError: bool, logFails: bool) returns (r: Outcome<StoreError>)
      requires Valid()
      modifies this`present, this`presentLog, this`events
      ensures Valid()
      ensures old(closed) ==> r == Fail(ShutDown)
      ensures r.Pass? <==> !old(closed) && !sqlError && gift.id !in old(present)
      ensures r.Pass? ==>
        && present == old(present)[gift.id := RowOf(gift)]
        && presentLog == old(presentLog) + (if logFails then [] else [EntryOf(gift, Sent, now)])
        && events == old(events) + [GiftSent(gift)]
      ensures r.Fail? ==>
        present == old(present) && presentLog == old(presentLog) && events == old(events)
    {
      if closed {
        return Fail(ShutDown);
      }
      if sqlError || gift.id in present {
        return Fail(SqlError);
      }
      present := present[gift.id := RowOf(gift)];
      LogAction(gift, Sent, now, logFails);
      events := events + [GiftSent(gift)];
      r := Pass;
    }

    /** `getGifts`: the player's live gifts, oldest first, at most `limit` of them. A cursor
        fault or a fetched row that cannot be deserialised fails the whole call; rows past
        the LIMIT are never fetched. */
    method GetGifts(player: PlayerId, limit: int, now: int, failAt: Option<nat>)
      returns (r: Result<seq<Gift>, StoreError>)
      requires Valid()
      ensures old(closed) ==> r == Err(ShutDown)
      ensures r.Ok? ==> IsListing(present, player, now, limit, r.value)
      ensures r == Err(DecodeError) ==> UnreadableWithin(present, player, now, limit)
      ensures r == Err(SqlError) ==> limit < 0 || (failAt.Some? && failAt.value < Min(limit, |LiveIds(present, player, now)|))
      ensures !closed && limit >= 0 && !ListingMayFail(present, player, now, limit, failAt) ==> r.Ok?
    {
      if closed {
        return Err(ShutDown);
      }
      if limit < 0 {
        return Err(SqlError);
      }
      var gifts, status := ReadLive(present, player, now, limit, failAt);
      match status
      case Complete => r := Ok(gifts);
      case SqlFailed => r := Err(SqlError);
      case DecodeFailed => r := Err(DecodeError);
    }

    /** `getGiftCount`: the number of the player's live gifts, with no limit. */
    method GetGiftCount(player: PlayerId, now: int, sqlError: bool) returns (r: Result<int, StoreError>)
      requires Valid()
      ensures r.Ok? <==> !closed && !sqlError
      ensures r.Ok? ==> r.value == |LiveIds(present, player, now)|
    {
      if closed {
        return Err(ShutDown);
      }
      if sqlError {
        return Err(SqlError);
      }
      r := Ok(|LiveIds(present, player, now)|);
    }

    /** `deleteGift`: reports whether a row went; an absent id yields false and leaves the
        table as it was. This boolean is what makes a claim credit at most once. */
    method DeleteGift(giftId: GiftId, sqlError: bool) returns (r: Result<bool, StoreError>)
      requires Valid()
      modifies this`present
      ensures Valid()
      ensures r.Ok? <==> !old(closed) && !sqlError
      ensures r.Ok? ==> r.value == (giftId in old(present)) && present == old(present) - {giftId}
      ensures r.Err? ==> present == old(present)
    {
      if closed {
        return Err(ShutDown);
      }
      if sqlError {
        return Err(SqlError);
      }
      r := Ok(giftId in present);
      present := present - {giftId};
    }

    /** `deleteGifts`: an empty list is a no-op returning 0. Otherwise the ids go out in
        flushes of 100 plus a remainder inside one transaction; the result is the number of
        rows that went. If flush number `failFlush` raises, the transaction is rolled back
        and no id of the call is removed. */
    method DeleteGifts(ids: seq<GiftId>, failFlush: Option<nat>) returns (r: Result<int, StoreError>)
      requires Valid()
      modifies this`present
      ensures Valid()
      ensures old(closed) ==> r == Err(ShutDown)
      ensures !old(closed) && ids == [] ==> r == Ok(0)
      ensures !old(closed) ==>
        (r.Err? <==> failFlush.Some? && failFlush.value < FlushCount(|ids|))
      ensures r.Ok? ==>
        present == old(present) - SeqSet(ids) && r.value == |old(present)| - |present|
      ensures r.Err? ==> present == old(present)
    {
      if closed {
        return Err(ShutDown);
      }
      if |ids| == 0 {
        return Ok(0);
      }
      var committed, working, totalDeleted := DeleteInBatches(present, ids, failFlush);
      if !committed {
        return Err(SqlError);
      }
      present := working;
      r := Ok(totalDeleted);
    }

    /** `findAndRemoveExpiredGifts`: selects every sweepable gift at `now`; a failed select
        fails the sweep, and a row that cannot be deserialised ends it quietly with nothing
        logged or deleted. Otherwise each selected gift gets an EXPIRED log attempt and a
        GiftExpiredEvent, and then one statement deletes what is sweepable at `deleteNow`
        (the clock is read again). `swept` is the order the cursor yielded the gifts in. */
    method FindAndRemoveExpiredGifts(now: int, deleteNow: int, selectFails: bool,
                                     failedLogs: set<GiftId>, deleteFails: bool)
      returns (r: Outcome<StoreError>, ghost swept: seq<Gift>)
      requires Valid()
      modifies this`present, this`presentLog, this`events
      ensures Valid()
      ensures old(closed) ==> r == Fail(ShutDown)
      ensures old(closed) || selectFails || HasUnreadable(old(present), SweepableIds(old(present), now)) ==>
        present == old(present) && presentLog == old(presentLog) && events == old(events)
      ensures !old(closed) && selectFails ==> r == Fail(SqlError)
      ensures !old(closed) && !selectFails && HasUnreadable(old(present), SweepableIds(old(present), now)) ==>
        r == Pass
      ensures !old(closed) && !selectFails && !HasUnreadable(old(present), SweepableIds(old(present), now)) ==>
        && IdSet(swept) == SweepableIds(old(present), now)
        && (forall i, j | 0 <= i < j < |swept| :: swept[i].id != swept[j].id)
        && presentLog == old(presentLog) + ResultLog(swept, Expired, failedLogs, now)
        && events == old(events) + ExpiryEvents(swept)
        && (swept == [] ==> r == Pass && present == old(present))
        && (swept != [] && deleteFails ==> r == Fail(SqlError) && present == old(present))
        && (swept != [] && !deleteFails ==> r == Pass && present == Unswept(old(present), deleteNow))
    {
      swept := [];
      if closed {
        return Fail(ShutDown), swept;
      }
      var expiredGifts, status := ReadSweepable(present, now, selectFails);
      if status == SqlFailed {
        return Fail(SqlError), swept;
      }
      if status == DecodeFailed {
        return Pass, swept;
      }
      swept := expiredGifts;
      if |expiredGifts| == 0 {
        return Pass, swept;
      }
      AnnounceExpired(expiredGifts, now, failedLogs);
      if deleteFails {
        return Fail(SqlError), swept;
      }
      present := Unswept(present, deleteNow);
      r := Pass;
    }

    /** The loop of the sweep over the selected gifts: an EXPIRED log attempt and a
        GiftExpiredEvent for each, in the order the cursor yielded them. */
    method AnnounceExpired(gifts: seq<Gift>, now: int, failedLogs: set<GiftId>)
      requires Valid() && !closed
      modifies this`presentLog, this`events
      ensures Valid()
      ensures presentLog == old(presentLog) + ResultLog(gifts, Expired, failedLogs, now)
      ensures events == old(events) + ExpiryEvents(gifts)
    {
      for i := 0 to |gifts|
        invariant Valid() && !closed
        invariant presentLog == old(presentLog) + ResultLog(gifts[..i], Expired, failedLogs, now)
        invariant events == old(events) + ExpiryEvents(gifts[..i])
      {
        var gift := gifts[i];
        assert gifts[..i + 1][..i] == gifts[..i] && gifts[..i + 1][i] == gift;
        assert ResultLog(gifts[..i + 1], Expired, failedLogs, now)
            == ResultLog(gifts[..i], Expired, failedLogs, now)
               + (if gift.id in failedLogs then [] else [EntryOf(gift, Expired, now)]);
        assert ExpiryEvents(gifts[..i + 1]) == ExpiryEvents(gifts[..i]) + [GiftExpired(gift)];
        LogAction(gift, Expired, now, gift.id in failedLogs);
        events := events + [GiftExpired(gift)];
      }
      assert gifts[..|gifts|] == gifts;
    }
  }

  /** The transaction of deleteGifts: the ids go to the server in flushes of BATCH_SIZE
      (the last one shorter), each credited through countSuccessfulUpdates. `failFlush`
      names the flush that throws, if any; a throw rolls the whole transaction back. */
  method DeleteInBatches(t: Table, ids: seq<GiftId>, failFlush: Option<nat>)
    returns (committed: bool, working: Table, totalDeleted: nat)
    ensures committed <==> !(failFlush.Some? && failFlush.value < FlushCount(|ids|))
    ensures committed ==> working == t - SeqSet(ids) && totalDeleted == |t| - |working|
  {
    var full, flushes, flushed;
    full, working, totalDeleted, flushes, flushed := FlushFullBatches(t, ids, failFlush);
    FlushPlan(|ids|, full, flushes, flushed, failFlush);
    if !full {
      return false, t, 0;
    }
    if flushed < |ids| {
      if failFlush.Some? && failFlush.value == flushes {
        return false, t, 0;
      }
      var n;
      working, n := Flush(t, working, ids, flushed, |ids|);
      totalDeleted := totalDeleted + n;
      flushed := |ids|;
    }
    assert ids[..flushed] == ids;
    assert SeqSet(ids[..flushed]) == SeqSet(ids);
    committed := true;
  }

  /** Which flush of deleteGifts throws, in terms of the loop's report: one of the full
      batches, or the one flush of a non-empty remainder. */
  lemma FlushPlan(n: nat, full: bool, flushes: nat, flushed: nat, failFlush: Option<nat>)
    requires full <==> !(failFlush.Some? && failFlush.value < n / 100)
    requires full ==> flushes == n / 100 && flushed == 100 * flushes && n - flushed < BATCH_SIZE
    ensures full ==> flushed <= n
    ensures (failFlush.Some? && failFlush.value < FlushCount(n)) <==>
      !full || (flushed < n && failFlush.Some? && failFlush.value == flushes)
  {
    FullBatchesBound(n);
    if full {
      FlushCountOf(n, flushes, n - flushed);
    }
  }


  /** The loop of deleteGifts: every id is added to the batch, and each time the batch
      reaches BATCH_SIZE it is flushed. It stops at the failing flush, if that is one of
      the full ones, and otherwise reports how many ids are flushed and how many flushes
      that took; the rest are still waiting in the batch. */
  method FlushFullBatches(t: Table, ids: seq<GiftId>, failFlush: Option<nat>)
    returns (ok: bool, working: Table, totalDeleted: nat, flushes: nat, flushed: nat)
    ensures ok <==> !(failFlush.Some? && failFlush.value < |ids| / 100)
    ensures ok ==> flushes == |ids| / 100 && flushed == 100 * flushes && |ids| - flushed < BATCH_SIZE
    ensures ok ==> working == t - SeqSet(ids[..flushed]) && totalDeleted == |t| - |working|
  {
    working := t;
    totalDeleted := 0;
    flushes := 0;
    flushed := 0;
    var batchSize: nat := 0;
    for i := 0 to |ids|
      invariant batchSize < BATCH_SIZE && flushed + batchSize == i
      invariant flushed == 100 * flushes
      invariant failFlush.Some? ==> flushes <= failFlush.value
      invariant working == t - SeqSet(ids[..flushed])
      invariant totalDeleted == |t| - |working|
    {
      batchSize := batchSize + 1;
      if batchSize == BATCH_SIZE {
        if failFlush.Some? && failFlush.value == flushes {
          return false, t, 0, 0, 0;
        }
        var n;
        working, n := Flush(t, working, ids, flushed, i + 1);
        totalDeleted := totalDeleted + n;
        batchSize := 0;
        flushes := flushes + 1;
        flushed := i + 1;
      }
    }
    ok := true;
  }

  /** One `executeBatch` of the ids `ids[lo..hi]` followed by countSuccessfulUpdates, on a
      working table that already lacks the ids before `lo`: afterwards it lacks those before
      `hi`, and the count is the number of rows this flush removed. */
  method Flush(ghost base: Table, t: Table, ids: seq<GiftId>, lo: nat, hi: nat) returns (t': Table, n: nat)
    requires lo <= hi <= |ids|
    requires t == base - SeqSet(ids[..lo])
    ensures t' == base - SeqSet(ids[..hi])
    ensures n == |t| - |t'|
  {
    var results;
    t', results := ExecuteDeleteBatch(t, ids[lo..hi]);
    n := CountSuccessfulUpdates(results);
    PrefixSetSplit(ids, lo, hi);
    MapMinusUnion(base, SeqSet(ids[..lo]), SeqSet(ids[lo..hi]));
  }

  lemma MapMinusUnion(t: Table, a: set<GiftId>, b: set<GiftId>)
    ensures (t - a) - b == t - (a + b)
  {
  }

  /** n ids make q full batches and one more flush when r ids are left over. */
  lemma FlushCountOf(n: nat, q: nat, r: nat)
    requires r < BATCH_SIZE && n - r == 100 * q && r <= n
    ensures FlushCount(n) == q + (if r > 0 then 1 else 0)
  {
    var m := n + BATCH_SIZE - 1;
    if r > 0 {
      assert m == BATCH_SIZE * (q + 1) + (r - 1);
    } else {
      assert m == BATCH_SIZE * q + (BATCH_SIZE - 1);
    }
  }

  /** Every full batch is one of the flushes. */
  lemma FullBatchesBound(n: nat)
    ensures n / BATCH_SIZE <= FlushCount(n)
  {
  }

  /** The ids before `hi` are those before `lo` and those in between. */
  lemma PrefixSetSplit(ids: seq<GiftId>, lo: nat, hi: nat)
    requires lo <= hi <= |ids|
    ensures SeqSet(ids[..hi]) == SeqSet(ids[..lo]) + SeqSet(ids[lo..hi])
  {
    assert ids[..hi] == ids[..lo] + ids[lo..hi];
  }
}
