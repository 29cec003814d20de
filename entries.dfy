/** The bulk edits the handlers make to the queue-entry table, as functions on
    the table, with what each keeps and what it changes; and the property
    "one entry per user and queue" that the join guard maintains. */
module Entries {
  import opened Base
  import opened Database

  // ------------------------------------------------ one entry per (user, queue)

  /** No user holds two entries in the same queue. */
  ghost predicate PairsUnique(s: seq<QueueEntry>)
  {
    forall i, j :: 0 <= i < j < |s| ==> !(s[i].userId == s[j].userId && s[i].queueId == s[j].queueId)
  }

  /** Filtering out entries keeps the property. */
  lemma {:induction false} PairsUniqueKeep(s: seq<QueueEntry>, p: QueueEntry -> bool)
    requires PairsUnique(s)
    ensures PairsUnique(Keep(s, p))
  {
    if s != [] {
      PairsUniqueKeep(s[1..], p);
      var rest := Keep(s[1..], p);
      if p(s[0]) {
        forall m | 0 <= m < |rest|
          ensures !(s[0].userId == rest[m].userId && s[0].queueId == rest[m].queueId)
        {
          var k :| 0 <= k < |s[1..]| && s[1..][k] == rest[m];
          assert s[k + 1] == rest[m];
        }
        PairsUniqueCons(s[0], rest);
      }
    }
  }

  lemma PairsUniqueCons(e: QueueEntry, s: seq<QueueEntry>)
    requires PairsUnique(s)
    requires forall m :: 0 <= m < |s| ==> !(e.userId == s[m].userId && e.queueId == s[m].queueId)
    ensures PairsUnique([e] + s)
  {
    var r := [e] + s;
    forall i, j | 0 <= i < j < |r| ensures !(r[i].userId == r[j].userId && r[i].queueId == r[j].queueId) {
      assert r[j] == s[j - 1];
      if i > 0 {
        assert r[i] == s[i - 1];
      }
    }
  }

  lemma PairsUniqueSameRefs(s: seq<QueueEntry>, s': seq<QueueEntry>)
    requires PairsUnique(s) && SameRefs(s, s')
    ensures PairsUnique(s')
  {
  }

  lemma PairsUniqueRemoveAt(s: seq<QueueEntry>, i: nat)
    requires PairsUnique(s) && i < |s|
    ensures PairsUnique(RemoveAt(s, i))
  {
    var r := RemoveAt(s, i);
    forall a, b | 0 <= a < b < |r|
      ensures !(r[a].userId == r[b].userId && r[a].queueId == r[b].queueId)
    {
      var a' := if a < i then a else a + 1;
      var b' := if b < i then b else b + 1;
      assert r[a] == s[a'] && r[b] == s[b'];
    }
  }

  /** Appending an entry for a (user, queue) pair not yet present keeps the property. */
  lemma PairsUniqueAppend(s: seq<QueueEntry>, e: QueueEntry)
    requires PairsUnique(s) && EntryFor(s, e.userId, e.queueId).None?
    ensures PairsUnique(s + [e])
  {
  }

  // ---------------------------------------- renaming on a main change

  /** What the main-change loop does to one entry. */
  function RenameOne(e: QueueEntry, uid: nat, nick: string): QueueEntry
  {
    if e.userId == uid && e.characterName != nick then e.(characterName := nick) else e
  }

  /** Every entry of user `uid` filed under `nick`. */
  function RenameOwn(s: seq<QueueEntry>, uid: nat, nick: string): (r: seq<QueueEntry>)
    ensures |r| == |s|
  {
    seq(|s|, i requires 0 <= i < |s| => RenameOne(s[i], uid, nick))
  }

  /** The entries of `uid` not yet filed under `nick`: those the loop rewrites. */
  function ToRename(s: seq<QueueEntry>, uid: nat, nick: string): seq<QueueEntry>
  {
    Keep(s, (e: QueueEntry) => e.userId == uid && e.characterName != nick)
  }

  /** The number of positions at which two equally long tables differ. */
  function CountChanged(s: seq<QueueEntry>, r: seq<QueueEntry>): nat
    requires |s| == |r|
  {
    if s == [] then 0 else (if s[0] != r[0] then 1 else 0) + CountChanged(s[1..], r[1..])
  }

  /** After the rename every entry of `uid` is under `nick`, nobody else's entry
      changed, and no entry moved to another user or queue. */
  lemma RenameOwnSpec(s: seq<QueueEntry>, uid: nat, nick: string)
    ensures var r := RenameOwn(s, uid, nick);
      && SameRefs(s, r)
      && (forall i :: 0 <= i < |s| && s[i].userId == uid ==> r[i].characterName == nick)
      && (forall i :: 0 <= i < |s| && s[i].userId != uid ==> r[i] == s[i])
  {
  }

  /** The number of rewritten entries, as the handler reports it, is the number
      of rows that actually change. */
  lemma {:induction false} RenameOwnCount(s: seq<QueueEntry>, uid: nat, nick: string)
    ensures CountChanged(s, RenameOwn(s, uid, nick)) == |ToRename(s, uid, nick)|
  {
    if s != [] {
      var r := RenameOwn(s, uid, nick);
      assert r[1..] == RenameOwn(s[1..], uid, nick);
      RenameOwnCount(s[1..], uid, nick);
    }
  }

  lemma ToRenameSnoc(s: seq<QueueEntry>, e: QueueEntry, uid: nat, nick: string)
    ensures ToRename(s + [e], uid, nick) ==
      ToRename(s, uid, nick) + (if e.userId == uid && e.characterName != nick then [e] else [])
  {
    KeepAppend(s, [e], (x: QueueEntry) => x.userId == uid && x.characterName != nick);
    KeepOne(e, (x: QueueEntry) => x.userId == uid && x.characterName != nick);
  }

  // ------------------------------------------- cascade by nickname

  /** The table without the entries filed under `nick`, whoever owns them. */
  function WithoutNick(s: seq<QueueEntry>, nick: string): seq<QueueEntry>
  {
    Keep(s, (e: QueueEntry) => e.characterName != nick)
  }

  /** The table with every entry filed under `nick` re-filed under `to`. */
  function RenameNick(s: seq<QueueEntry>, nick: string, to: string): (r: seq<QueueEntry>)
    ensures |r| == |s|
  {
    seq(|s|, i requires 0 <= i < |s| => if s[i].characterName == nick then s[i].(characterName := to) else s[i])
  }

  /** Exactly the entries under `nick` go; the rest stay, in order. */
  lemma {:induction false} WithoutNickSpec(s: seq<QueueEntry>, nick: string)
    ensures var r := WithoutNick(s, nick);
      && (forall i :: 0 <= i < |r| ==> r[i].characterName != nick && r[i] in s)
      && (forall i :: 0 <= i < |s| && s[i].characterName != nick ==> s[i] in r)
      && |r| + |EntriesNamed(s, nick)| == |s|
  {
    if s != [] {
      WithoutNickSpec(s[1..], nick);
    }
  }

  lemma WithoutNickSnoc(s: seq<QueueEntry>, e: QueueEntry, nick: string)
    ensures WithoutNick(s + [e], nick) == WithoutNick(s, nick) + (if e.characterName != nick then [e] else [])
  {
    KeepAppend(s, [e], (x: QueueEntry) => x.characterName != nick);
    KeepOne(e, (x: QueueEntry) => x.characterName != nick);
  }

  lemma RenameNickSnoc(s: seq<QueueEntry>, e: QueueEntry, nick: string, to: string)
    ensures RenameNick(s + [e], nick, to) ==
      RenameNick(s, nick, to) + [if e.characterName == nick then e.(characterName := to) else e]
  {
  }

  /** Re-filing changes only the character name of the entries under `nick`. */
  lemma RenameNickSpec(s: seq<QueueEntry>, nick: string, to: string)
    ensures var r := RenameNick(s, nick, to);
      && SameRefs(s, r)
      && (forall i :: 0 <= i < |s| && s[i].characterName == nick ==> r[i].characterName == to)
      && (forall i :: 0 <= i < |s| && s[i].characterName != nick ==> r[i] == s[i])
      && (nick != to ==> forall i :: 0 <= i < |r| ==> r[i].characterName != nick)
  {
  }

  // ------------------------------------------------------ wipe on ban

  /** The table without any entry of user `uid`. */
  function WithoutUser(s: seq<QueueEntry>, uid: nat): seq<QueueEntry>
  {
    Keep(s, (e: QueueEntry) => e.userId != uid)
  }

  /** Exactly the user's entries go; everybody else's stay, in order. */
  lemma {:induction false} WithoutUserSpec(s: seq<QueueEntry>, uid: nat)
    ensures var r := WithoutUser(s, uid);
      && EntriesOf(r, uid) == []
      && (forall i :: 0 <= i < |r| ==> r[i] in s)
      && (forall i :: 0 <= i < |s| && s[i].userId != uid ==> s[i] in r)
      && |r| + |EntriesOf(s, uid)| == |s|
  {
    if s != [] {
      WithoutUserSpec(s[1..], uid);
    }
    var r := WithoutUser(s, uid);
    EntriesOfNone(r, uid);
  }

  // --------------------------------------------- invariant of the edits

  lemma EntriesOkRenameOwn(s: seq<QueueEntry>, ids: set<nat>, qids: set<nat>, bound: nat, uid: nat, nick: string)
    requires EntriesOk(s, ids, qids, bound)
    ensures EntriesOk(RenameOwn(s, uid, nick), ids, qids, bound)
  {
    RenameOwnSpec(s, uid, nick);
    EntriesOkSameRefs(s, RenameOwn(s, uid, nick), ids, qids, bound);
  }

  lemma EntriesOkRenameNick(s: seq<QueueEntry>, ids: set<nat>, qids: set<nat>, bound: nat, nick: string, to: string)
    requires EntriesOk(s, ids, qids, bound)
    ensures EntriesOk(RenameNick(s, nick, to), ids, qids, bound)
  {
    RenameNickSpec(s, nick, to);
    EntriesOkSameRefs(s, RenameNick(s, nick, to), ids, qids, bound);
  }
}
