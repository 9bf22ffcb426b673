/** The legacy gift store. It runs the same SQL as the newer one but never reports a
    failure: every error (including a closed pool) is caught and only logged, so a failed
    read looks like a short or empty answer, a failed count like zero, and a failed write
    like nothing at all. A multi-id delete is one `DELETE ... WHERE ID IN (?,...,?)`
    statement built for the list's length. */
module LegacyStore {
  import opened Wrappers
  import opened GiftModel
  import opened LogResults
  import opened GiftTable

  /** Java's `s.repeat(n)`. */
  function Repeat(s: string, n: nat): (r: string)
    ensures |r| == |s| * n
  {
    if n == 0 then "" else Repeat(s, n - 1) + s
  }

  const DELETE_IN_PREFIX: string := "DELETE FROM present WHERE ID IN ("

  /** The text deleteGifts prepares for `n` ids: one placeholder, then `,?` for every
      further id, then the closing parenthesis. */
  function InListDelete(n: nat): (q: string)
    requires n >= 1
    ensures |q| == |DELETE_IN_PREFIX| + 2 * n
  {
    DELETE_IN_PREFIX + "?" + Repeat(",?", n - 1) + ")"
  }

  /** How often `c` occurs in `s`. */
  function Occurrences(s: string, c: char): nat {
    if s == [] then 0 else Occurrences(s[..|s| - 1], c) + (if s[|s| - 1] == c then 1 else 0)
  }

  lemma {:induction false} OccurrencesConcat(a: string, b: string, c: char)
    ensures Occurrences(a + b, c) == Occurrences(a, c) + Occurrences(b, c)
  {
    if b == [] {
      assert a + b == a;
    } else {
      assert (a + b)[..|a + b| - 1] == a + b[..|b| - 1];
      OccurrencesConcat(a, b[..|b| - 1], c);
    }
  }

  lemma {:induction false} OccurrencesAbsent(s: string, c: char)
    requires forall i | 0 <= i < |s| :: s[i] != c
    ensures Occurrences(s, c) == 0
  {
    if s != [] {
      OccurrencesAbsent(s[..|s| - 1], c);
    }
  }

  /** Each `,?` adds one placeholder. */
  lemma {:induction false} RepeatPlaceholders(n: nat)
    ensures Occurrences(Repeat(",?", n), '?') == n
  {
    if n > 0 {
      RepeatPlaceholders(n - 1);
      OccurrencesConcat(Repeat(",?", n - 1), ",?", '?');
      assert Occurrences(",?", '?') == 1 by {
        assert ",?"[..1] == ",";
        assert ","[..0] == "";
      }
    }
  }

  /** The statement deleteGifts prepares has exactly one placeholder per id, so binding
      parameters 1 to n leaves none unbound and none out of range. */
  lemma InListDeletePlaceholders(n: nat)
    requires n >= 1
    ensures Occurrences(InListDelete(n), '?') == n
  {
    OccurrencesAbsent(DELETE_IN_PREFIX, '?');
    RepeatPlaceholders(n - 1);
    OccurrencesConcat(DELETE_IN_PREFIX, "?", '?');
    OccurrencesConcat(DELETE_IN_PREFIX + "?", Repeat(",?", n - 1), '?');
    OccurrencesConcat(DELETE_IN_PREFIX + "?" + Repeat(",?", n - 1), ")", '?');
    assert Occurrences("?", '?') == 1 by {
      assert "?"[..0] == "";
    }
    assert Occurrences(")", '?') == 0 by {
      assert ")"[..0] == "";
    }
  }

  /** The loop of deleteGifts that binds id number i to parameter i + 1. */
  method BindIds(ids: seq<GiftId>) returns (params: map<int, GiftId>)
    ensures forall j :: j in params <==> 1 <= j <= |ids|
    ensures forall j | 1 <= j <= |ids| :: params[j] == ids[j - 1]
    ensures params.Values == SeqSet(ids)
  {
    params := map[];
    for i := 0 to |ids|
      invariant forall j :: j in params <==> 1 <= j <= i
      invariant forall j | 1 <= j <= i :: params[j] == ids[j - 1]
    {
      params := params[i + 1 := ids[i]];
    }
    forall id | id in SeqSet(ids)
      ensures id in params.Values
    {
      var k :| 0 <= k < |ids| && ids[k] == id;
      assert params[k + 1] == id;
    }
  }

  class LegacyGiftStore {
    /** The `present` table, by gift id. */
    var present: Table
    /** The `present_log` table, oldest entry first. */
    var presentLog: seq<LogEntry>
    /** GiftSentEvent and GiftExpiredEvent as published, oldest first. */
    var events: seq<Event>
    /** The pool was closed: every later connection attempt throws. */
    var closed: bool

    ghost predicate Valid()
      reads this
    {
      WellKeyed(present)
    }

    /** A store over tables that already hold rows from earlier runs. */
    constructor (existing: Table, existingLog: seq<LogEntry>)
      requires WellKeyed(existing)
      ensures Valid() && !closed
      ensures present == existing && presentLog == existingLog && events == []
    {
      present := existing;
      presentLog := existingLog;
      events := [];
      closed := false;
    }

    /** `close`: closes the pool if it is open; closing twice changes nothing more. */
    method Close()
      modifies this`closed
      ensures closed
    {
      closed := true;
    }

    /** `logAction`: appends one audit row unless the connection or the insert fails,
        which is only logged. */
    method LogAction(gift: Gift, result: LogResult, now: int, fails: bool)
      requires Valid()
      modifies this`presentLog
      ensures Valid()
      ensures presentLog == if closed || fails then old(presentLog) else old(presentLog) + [EntryOf(gift, result, now)]
    {
      if closed || fails {
        return;
      }
      presentLog := presentLog + [EntryOf(gift, result, now)];
    }

    /** `addGift`: inserts the row, then logs SENT and publishes GiftSentEvent. An insert
        that fails (a duplicate id, an SQL error, a closed pool) is swallowed with
        neither effect. */
    method AddGift(gift: Gift, now: int, sqlError: bool, logFails: bool)
      requires Valid()
      modifies this`present, this`presentLog, this`events
      ensures Valid()
      ensures !closed && !sqlError && gift.id !in old(present) ==>
        && present == old(present)[gift.id := RowOf(gift)]
        && presentLog == old(presentLog) + (if logFails then [] else [EntryOf(gift, Sent, now)])
        && events == old(events) + [GiftSent(gift)]
      ensures closed || sqlError || gift.id in old(present) ==>
        present == old(present) && presentLog == old(presentLog) && events == old(events)
    {
      if closed || sqlError || gift.id in present {
        return;
      }
      present := present[gift.id := RowOf(gift)];
      LogAction(gift, Sent, now, logFails);
      events := events + [GiftSent(gift)];
    }

    /** `getGifts`: reads the listing row by row and returns whatever it had read when an
        error stopped it. So the answer is always an ordered prefix of a listing, and the
        whole listing unless the cursor failed after that many rows or met a row within the
        LIMIT that it could not deserialise. A closed pool or a negative LIMIT yields nothing. */
    method GetGifts(player: PlayerId, limit: int, now: int, failAt: Option<nat>) returns (gifts: seq<Gift>)
      requires Valid()
      ensures closed || limit < 0 ==> gifts == []
      ensures IsOrderedSelection(present, gifts, LiveIds(present, player, now))
      ensures |gifts| <= if limit < 0 then 0 else limit
      ensures !closed && limit >= 0 ==>
        || IsListing(present, player, now, limit, gifts)
        || (failAt == Some(|gifts|) && |gifts| < Min(limit, |LiveIds(present, player, now)|))
        || (|gifts| < limit && NextIsUnreadable(present, player, now, gifts))
      ensures !closed && limit >= 0 && !ListingMayFail(present, player, now, limit, failAt) ==>
        IsListing(present, player, now, limit, gifts)
    {
      if closed || limit < 0 {
        return [];
      }
      var status;
      gifts, status := ReadLive(present, player, now, limit, failAt);
    }

    /** `getGiftCount`: the number of the player's live gifts; any failure reads as 0. */
    method GetGiftCount(player: PlayerId, now: int, sqlError: bool) returns (n: int)
      requires Valid()
      ensures n >= 0
      ensures !closed && !sqlError ==> n == |LiveIds(present, player, now)|
      ensures closed || sqlError ==> n == 0
    {
      if closed || sqlError {
        return 0;
      }
      n := |LiveIds(present, player, now)|;
    }

    /** `deleteGift`: removes the row if there is one; errors are swallowed. */
    method DeleteGift(giftId: GiftId, sqlError: bool)
      requires Valid()
      modifies this`present
      ensures Valid()
      ensures present == if closed || sqlError then old(present) else old(present) - {giftId}
    {
      if closed || sqlError {
        return;
      }
      present := present - {giftId};
    }

    /** `deleteGifts`: nothing for an empty list; otherwise one IN-list statement with a
        placeholder per id, each id bound in list order, removing every listed row. Errors
        are swallowed. `query` is the statement text it prepares. */
    method DeleteGifts(ids: seq<GiftId>, sqlError: bool) returns (ghost query: string)
      requires Valid()
      modifies this`present
      ensures Valid()
      ensures ids != [] ==> query == InListDelete(|ids|) && Occurrences(query, '?') == |ids|
      ensures present == if ids == [] || closed || sqlError then old(present) else old(present) - SeqSet(ids)
    {
      query := "";
      if ids == [] {
        return;
      }
      query := InListDelete(|ids|);
      InListDeletePlaceholders(|ids|);
      if closed || sqlError {
        return;
      }
      var params := BindIds(ids);
      present := present - params.Values;
    }

    /** `findAndRemoveExpiredGifts`: selects what is sweepable at `now`; a failed select or
        an unreadable row ends the sweep with nothing done. Otherwise every selected gift
        is logged EXPIRED and announced, and one DELETE then removes what is sweepable at
        `deleteNow` (the clock is read again); a failed DELETE is swallowed. */
    method FindAndRemoveExpiredGifts(now: int, deleteNow: int, selectFails: bool,
                                     failedLogs: set<GiftId>, deleteFails: bool)
      returns (ghost swept: seq<Gift>)
      requires Valid()
      modifies this`present, this`presentLog, this`events
      ensures Valid()
      ensures closed || selectFails || HasUnreadable(old(present), SweepableIds(old(present), now)) ==>
        present == old(present) && presentLog == old(presentLog) && events == old(events)
      ensures !closed && !selectFails && !HasUnreadable(old(present), SweepableIds(old(present), now)) ==>
        && IdSet(swept) == SweepableIds(old(present), now)
        && (forall i, j | 0 <= i < j < |swept| :: swept[i].id != swept[j].id)
        && presentLog == old(presentLog) + ResultLog(swept, Expired, failedLogs, now)
        && events == old(events) + ExpiryEvents(swept)
        && present == if swept == [] || deleteFails then old(present) else Unswept(old(present), deleteNow)
    {
      swept := [];
      var expiredGifts, status := ReadSweepable(present, now, closed || selectFails);
      if status != Complete {
        return;
      }
      swept := expiredGifts;
      if |expiredGifts| == 0 {
        return;
      }
      AnnounceExpired(expiredGifts, now, failedLogs);
      if deleteFails {
        return;
      }
      present := Unswept(present, deleteNow);
    }

    /** The loop of the sweep over the selected gifts: an EXPIRED log attempt and a
        GiftExpiredEvent for each, in the order the cursor yielded them. */
    method AnnounceExpired(gifts: seq<Gift>, now: int, failedLogs: set<GiftId>)
      requires Valid() && !closed
      modifies this`presentLog, this`events
      ensures Valid()
      ensures presentLog == old(presentLog) + ResultLog(gifts, Expired, failedLogs, now)
      ensures events == old(events) + ExpiryEvents(gifts)
    {
      for i := 0 to |gifts|
        invariant Valid() && !closed
        invariant presentLog == old(presentLog) + ResultLog(gifts[..i], Expired, failedLogs, now)
        invariant events == old(events) + ExpiryEvents(gifts[..i])
      {
        var gift := gifts[i];
        assert gifts[..i + 1][..i] == gifts[..i] && gifts[..i + 1][i] == gift;
        assert ResultLog(gifts[..i + 1], Expired, failedLogs, now)
            == ResultLog(gifts[..i], Expired, failedLogs, now)
               + (if gift.id in failedLogs then [] else [EntryOf(gift, Expired, now)]);
        assert ExpiryEvents(gifts[..i + 1]) == ExpiryEvents(gifts[..i]) + [GiftExpired(gift)];
        LogAction(gift, Expired, now, gift.id in failedLogs);
        events := events + [GiftExpired(gift)];
      }
      assert gifts[..|gifts|] == gifts;
    }
  }
}
