/** utils.py: the cached list of guild nicknames read from the roster sheet,
    and the membership test the character handlers ask. The sheet itself is
    fetched over the network; here the fetch is an input, either the table
    it returned or a failure. */
module Roster {
  import opened Base
  import opened Text

  /** `TARGET_COL_INDEX`: the column holding the nicknames. */
  const TargetCol: nat := 0
  /** `SKIP_ROWS`: header rows at the top of the sheet. */
  const SkipRows: nat := 1
  /** `CACHE_DURATION`, ten minutes, in seconds. */
  const CacheSeconds: int := 600

  /** What `sheet.get_all_values()` produced, or an exception anywhere in the fetch. */
  datatype Fetch = FetchFailed | Fetched(rows: seq<seq<string>>)

  /** The nickname a row contributes: its target cell stripped, when the row
      has that cell and the stripped text is longer than one character. */
  function NickOf(row: seq<string>): (r: Option<string>)
    ensures r.Some? ==> |row| > TargetCol && r.value == Strip(row[TargetCol]) && |r.value| > 1
    ensures r.None? ==> |row| <= TargetCol || |Strip(row[TargetCol])| <= 1
  {
    if |row| > TargetCol then
      var v := Strip(row[TargetCol]);
      if |v| > 1 then Some(v) else None
    else None
  }

  /** The nicknames of the rows from index `from` on, in row order. */
  function NicksFrom(rows: seq<seq<string>>, from: nat): seq<string>
  {
    if |rows| <= from then []
    else
      var last := rows[|rows| - 1];
      NicksFrom(rows[..|rows| - 1], from) + (if NickOf(last).Some? then [NickOf(last).value] else [])
  }

  /** What the parsing loop of `update_cache` collects. */
  function ParseRows(rows: seq<seq<string>>): seq<string>
  {
    NicksFrom(rows, SkipRows)
  }

  /** At most one nickname per row past the header. */
  lemma {:induction false} NicksFromLength(rows: seq<seq<string>>, from: nat)
    ensures NicksFrom(rows, from) == [] || from + |NicksFrom(rows, from)| <= |rows|
  {
    if |rows| > from {
      NicksFromLength(rows[..|rows| - 1], from);
    }
  }

  /** Every collected nickname is a stripped cell, longer than one character,
      of a row past the header. */
  lemma {:induction false} NicksFromSound(rows: seq<seq<string>>, from: nat)
    ensures forall k :: 0 <= k < |NicksFrom(rows, from)| ==>
      exists i :: from <= i < |rows| && NickOf(rows[i]) == Some(NicksFrom(rows, from)[k])
  {
    if |rows| > from {
      var init := rows[..|rows| - 1];
      NicksFromSound(init, from);
      var r0 := NicksFrom(init, from);
      var r := NicksFrom(rows, from);
      forall k | 0 <= k < |r|
        ensures exists i :: from <= i < |rows| && NickOf(rows[i]) == Some(r[k])
      {
        if k < |r0| {
          assert r[k] == r0[k];
          var i :| from <= i < |init| && NickOf(init[i]) == Some(r0[k]);
          assert rows[i] == init[i];
        } else {
          assert NickOf(rows[|rows| - 1]) == Some(r[k]);
          assert from <= |rows| - 1 < |rows|;
        }
      }
    } else {
      assert NicksFrom(rows, from) == [];
    }
  }

  /** A nickname is stored as it was stripped, and is longer than one character. */
  lemma NickOfStripped(row: seq<string>)
    requires NickOf(row).Some?
    ensures |NickOf(row).value| > 1 && Strip(NickOf(row).value) == NickOf(row).value
  {
    StripIdempotent(row[TargetCol]);
  }

  /** Every row past the header with a long enough cell is collected. */
  lemma {:induction false} NicksFromComplete(rows: seq<seq<string>>, from: nat)
    ensures forall i :: from <= i < |rows| && NickOf(rows[i]).Some? ==> NickOf(rows[i]).value in NicksFrom(rows, from)
  {
    if |rows| > from {
      var init := rows[..|rows| - 1];
      NicksFromComplete(init, from);
      forall i | from <= i < |rows| - 1 && NickOf(rows[i]).Some?
        ensures NickOf(rows[i]).value in NicksFrom(rows, from)
      {
        assert rows[i] == init[i];
      }
    }
  }

  /** The `for i, row in enumerate(all_rows)` loop of `update_cache`. */
  method CollectNicks(rows: seq<seq<string>>) returns (nicks: seq<string>)
    ensures nicks == ParseRows(rows)
  {
    nicks := [];
    var i := 0;
    while i < |rows|
      invariant 0 <= i <= |rows|
      invariant nicks == NicksFrom(rows[..i], SkipRows)
    {
      var row := rows[i];
      if i >= SkipRows && |row| > TargetCol {
        var v := Strip(row[TargetCol]);
        if |v| > 1 {
          nicks := nicks + [v];
        }
      }
      assert rows[..i + 1][..i] == rows[..i];
      i := i + 1;
    }
    assert rows[..i] == rows;
  }

  // -------------------------------------------------------------- the cache

  /** The cache after `update_cache` at time `now`: an empty sheet or a failed
      fetch leaves it alone; otherwise the list is replaced wholesale, even by
      an empty one, and stamped. */
  function Refreshed(nicks: seq<string>, stamp: Option<int>, fetch: Fetch, now: int): (seq<string>, Option<int>)
  {
    match fetch
    case FetchFailed => (nicks, stamp)
    case Fetched(rows) => if rows == [] then (nicks, stamp) else (ParseRows(rows), Some(now))
  }

  /** `not last_update_time or now - last_update_time > CACHE_DURATION`. */
  predicate Stale(stamp: Option<int>, now: int)
  {
    stamp.None? || now - stamp.value > CacheSeconds
  }

  /** The `nickname.strip().lower() in [n.lower() for n in cached_nicks]` test. */
  function Listed(nicks: seq<string>, nickname: string): (r: bool)
    ensures r <==> exists i :: 0 <= i < |nicks| && Lower(nicks[i]) == Lower(Strip(nickname))
  {
    var lowered := seq(|nicks|, i requires 0 <= i < |nicks| => Lower(nicks[i]));
    assert forall i :: 0 <= i < |nicks| ==> lowered[i] == Lower(nicks[i]);
    Lower(Strip(nickname)) in lowered
  }

  /** A cached nickname is found again under any spelling that lowers to the
      same text, with any white space around it. */
  lemma ListedIgnoresCase(nicks: seq<string>, i: nat, typed: string)
    requires i < |nicks| && Strip(nicks[i]) == nicks[i]
    requires Lower(Strip(typed)) == Lower(nicks[i])
    ensures Listed(nicks, typed)
  {
  }

  /** Nothing is listed in an empty cache. */
  lemma EmptyListsNothing(nickname: string)
    ensures !Listed([], nickname)
  {
  }

  /** The module globals `cached_nicks` and `last_update_time`. */
  class RosterCache {
    var nicks: seq<string>
    var stamp: Option<int>

    constructor ()
      ensures nicks == [] && stamp.None?
    {
      nicks := [];
      stamp := None;
    }

    /** `update_cache`. */
    method Update(fetch: Fetch, now: int)
      modifies this
      ensures (nicks, stamp) == Refreshed(old(nicks), old(stamp), fetch, now)
    {
      if fetch.FetchFailed? || fetch.rows == [] {
        return;
      }
      var read := CollectNicks(fetch.rows);
      nicks := read;
      stamp := Some(now);
    }

    /** `check_google_sheet`: refresh when stale, then look the nickname up. */
    method Check(nickname: string, fetch: Fetch, now: int) returns (ok: bool)
      modifies this
      ensures (nicks, stamp) ==
        if Stale(old(stamp), now) then Refreshed(old(nicks), old(stamp), fetch, now) else (old(nicks), old(stamp))
      ensures ok == Listed(nicks, nickname)
    {
      if Stale(stamp, now) {
        Update(fetch, now);
      }
      ok := Listed(nicks, nickname);
    }
  }

  /** What one `check_google_sheet` call answers, from the cache it starts with. */
  function CheckAnswer(nicks: seq<string>, stamp: Option<int>, nickname: string, fetch: Fetch, now: int): bool
  {
    var (nicks', _) := if Stale(stamp, now) then Refreshed(nicks, stamp, fetch, now) else (nicks, stamp);
    Listed(nicks', nickname)
  }

  /** The refresh rule: a fresh cache answers from what it holds and the fetch
      does not matter; a never-filled cache whose refresh fails refuses every
      nickname; a successful refresh answers from the sheet just read. */
  lemma CheckAnswerSpec(nicks: seq<string>, stamp: Option<int>, nickname: string, fetch: Fetch, now: int)
    ensures !Stale(stamp, now) ==> CheckAnswer(nicks, stamp, nickname, fetch, now) == Listed(nicks, nickname)
    ensures stamp.None? && nicks == [] && (fetch.FetchFailed? || fetch.rows == []) ==>
      !CheckAnswer(nicks, stamp, nickname, fetch, now)
    ensures Stale(stamp, now) && fetch.Fetched? && fetch.rows != [] ==>
      CheckAnswer(nicks, stamp, nickname, fetch, now) == Listed(ParseRows(fetch.rows), nickname)
  {
  }

  /** Right after a successful refresh the cache counts as fresh for the next
      ten minutes, so no second fetch happens within them. */
  lemma FreshAfterRefresh(nicks: seq<string>, stamp: Option<int>, rows: seq<seq<string>>, now: int, later: int)
    requires rows != [] && now <= later <= now + CacheSeconds
    ensures !Stale(Refreshed(nicks, stamp, Fetched(rows), now).1, later)
  {
  }
}
