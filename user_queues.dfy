/** The queue handlers of handlers/user.py: choosing a character before joining
    (`pre_join`), joining (`do_join`), leaving (`leave_queue`) and swapping the
    character of an entry (`do_swap_finish`). The lock is checked only before
    the character is chosen; the join itself checks for a duplicate and the
    limit on entries across all queues. */
module UserQueues {
  import opened Base
  import opened Database
  import opened Entries

  // ------------------------------------------------------------------ pre_join

  /** All characters of a user, in table order. */
  function CharsOf(chars: seq<Character>, uid: nat): seq<Character>
  {
    Keep(chars, (c: Character) => c.userId == uid)
  }

  datatype PreJoinReply =
    | PreJoinCrashed            // the queue id names no queue: `q.is_locked` raises
    | QueueLocked
    | NoChars
    | PickChar(chars: seq<Character>)

  /** `pre_join`: a locked queue is refused before the user is looked up. */
  function PreJoinStep(t: Tables, qid: nat, tg: int, username: Option<string>): (Tables, PreJoinReply)
  {
    match QueueById(t.queues, qid)
    case None => (t, PreJoinCrashed)
    case Some(k) =>
      if t.queues[k].isLocked then (t, QueueLocked)
      else
        var (t1, uid) := EnsureUserStep(t, tg, username);
        var own := CharsOf(t1.chars, uid);
        if own == [] then (t1, NoChars) else (t1, PickChar(own))
  }

  /** A missing or locked queue writes nothing; otherwise only `ensure_user`
      writes, and the choice offered is exactly the caller's characters. */
  lemma PreJoinSpec(t: Tables, qid: nat, tg: int, username: Option<string>)
    ensures var (t', reply) := PreJoinStep(t, qid, tg, username);
      var caller := EnsureUserStep(t, tg, username).1;
      && (reply == PreJoinCrashed <==> qid !in QueueIds(t.queues))
      && (reply == QueueLocked <==> QueueById(t.queues, qid).Some? && t.queues[QueueById(t.queues, qid).value].isLocked)
      && (reply == PreJoinCrashed || reply == QueueLocked ==> t' == t)
      && t'.chars == t.chars && t'.entries == t.entries && t'.queues == t.queues
      && (reply == NoChars ==> forall c :: c in t.chars ==> c.userId != caller)
      && (reply.PickChar? ==>
            && reply.chars != []
            && forall c :: c in reply.chars <==> c in t.chars && c.userId == caller)
  {
    match QueueById(t.queues, qid)
    case None =>
    case Some(k) =>
      assert t.queues[k] in t.queues;
      EnsureUserRows(t, tg, username);
  }

  method PreJoin(db: Store, qid: nat, tg: int, username: Option<string>) returns (reply: PreJoinReply)
    requires db.Valid()
    modifies db
    ensures db.Valid()
    ensures (db.State(), reply) == PreJoinStep(old(db.State()), qid, tg, username)
  {
    var q := QueueById(db.queues, qid);
    if q.None? {
      return PreJoinCrashed;
    }
    if db.queues[q.value].isLocked {
      return QueueLocked;
    }
    var uid := EnsureUser(db, tg, username);
    var own := CharsOf(db.chars, uid);
    if own == [] {
      reply := NoChars;
    } else {
      reply := PickChar(own);
    }
  }

  // ------------------------------------------------------------------- do_join

  datatype JoinReply =
    | CharMissing
    | AlreadyQueued
      /** `default_limit` is not a number: `int()` raises. */
    | JoinCrashed
    | LimitReached(count: nat, limit: int)
    | Joined(nick: string)
      /** The entry is committed, then looking up the queue's name raises. */
    | JoinedQueueMissing

  /** `do_join`: `ensure_user` first, then the character, the duplicate and the
      limit checks; the lock is not looked at. */
  function JoinStep(t: Tables, qid: nat, cid: nat, tg: int, username: Option<string>): (Tables, JoinReply)
  {
    var t1 := EnsureUserStep(t, tg, username).0;
    match UserByTelegram(t1.users, tg)
    case None => (t1, JoinCrashed)  // cannot happen: see JoinStepUnfold
    case Some(i) => JoinFor(t1, t1.users[i], qid, cid)
  }

  /** What `do_join` does for the user row `u` that `ensure_user` returned. The
      character need not be the user's own. */
  function JoinFor(t: Tables, u: User, qid: nat, cid: nat): (Tables, JoinReply)
  {
    match CharById(t.chars, cid)
    case None => (t, CharMissing)
    case Some(k) =>
      if EntryFor(t.entries, u.id, qid).Some? then (t, AlreadyQueued)
      else
        match EffectiveLimit(u, t.settings)
        case None => (t, JoinCrashed)
        case Some(limit) =>
          var count := |EntriesOf(t.entries, u.id)|;
          if count >= limit then (t, LimitReached(count, limit))
          else
            var nick := t.chars[k].nickname;
            var t' := t.(entries := t.entries + [QueueEntry(t.nextId, u.id, qid, nick)], nextId := t.nextId + 1);
            if QueueById(t.queues, qid).None? then (t', JoinedQueueMissing) else (t', Joined(nick))
  }

  /** The guard of a successful join, in the source's words. */
  ghost predicate MayJoin(t: Tables, u: User, qid: nat, cid: nat)
  {
    && CharById(t.chars, cid).Some?
    && EntryFor(t.entries, u.id, qid).None?
    && EffectiveLimit(u, t.settings).Some?
    && |EntriesOf(t.entries, u.id)| < EffectiveLimit(u, t.settings).value
  }

  /** Each refusal happens exactly when its check fails, in the source's order,
      and writes nothing; a join happens exactly when every check passes, and
      then appends one entry for the user, the queue and the character's
      nickname, with a fresh key. */
  lemma JoinForSpec(t: Tables, u: User, qid: nat, cid: nat)
    ensures var (t', reply) := JoinFor(t, u, qid, cid);
      && (reply == CharMissing <==> CharById(t.chars, cid).None?)
      && (reply == AlreadyQueued <==> CharById(t.chars, cid).Some? && EntryFor(t.entries, u.id, qid).Some?)
      && (reply.LimitReached? <==>
            && CharById(t.chars, cid).Some? && EntryFor(t.entries, u.id, qid).None?
            && EffectiveLimit(u, t.settings).Some?
            && |EntriesOf(t.entries, u.id)| >= EffectiveLimit(u, t.settings).value)
      && (reply.LimitReached? ==>
            reply.count == |EntriesOf(t.entries, u.id)| && reply.limit == EffectiveLimit(u, t.settings).value)
      && (reply.Joined? || reply.JoinedQueueMissing? <==> MayJoin(t, u, qid, cid))
      && (reply.Joined? <==> MayJoin(t, u, qid, cid) && qid in QueueIds(t.queues))
      && (!MayJoin(t, u, qid, cid) ==> t' == t)
      && (MayJoin(t, u, qid, cid) ==>
            && t'.entries == t.entries + [QueueEntry(t.nextId, u.id, qid, t.chars[CharById(t.chars, cid).value].nickname)]
            && t' == t.(entries := t'.entries, nextId := t.nextId + 1))
  {
    match QueueById(t.queues, qid)
    case None =>
    case Some(k) =>
      assert t.queues[k] in t.queues;
  }

  lemma EntriesOfSnoc(s: seq<QueueEntry>, e: QueueEntry, uid: nat)
    ensures EntriesOf(s + [e], uid) == EntriesOf(s, uid) + (if e.userId == uid then [e] else [])
  {
    KeepAppend(s, [e], (x: QueueEntry) => x.userId == uid);
    KeepOne(e, (x: QueueEntry) => x.userId == uid);
  }

  /** After a join the user holds at most as many entries as their limit, and
      still at most one per queue. */
  lemma JoinForBound(t: Tables, u: User, qid: nat, cid: nat)
    requires MayJoin(t, u, qid, cid)
    ensures |EntriesOf(JoinFor(t, u, qid, cid).0.entries, u.id)| <= EffectiveLimit(u, t.settings).value
    ensures PairsUnique(t.entries) ==> PairsUnique(JoinFor(t, u, qid, cid).0.entries)
  {
    var e := QueueEntry(t.nextId, u.id, qid, t.chars[CharById(t.chars, cid).value].nickname);
    EntriesOfSnoc(t.entries, e, u.id);
    if PairsUnique(t.entries) {
      PairsUniqueAppend(t.entries, e);
    }
  }

  /** Every failed join leaves at most one entry per user and queue, too. */
  lemma JoinForPairs(t: Tables, u: User, qid: nat, cid: nat)
    requires PairsUnique(t.entries)
    ensures PairsUnique(JoinFor(t, u, qid, cid).0.entries)
  {
    if MayJoin(t, u, qid, cid) {
      JoinForBound(t, u, qid, cid);
    }
  }

  /** The tables a join leaves. */
  lemma JoinForState(t: Tables, u: User, qid: nat, cid: nat)
    ensures !MayJoin(t, u, qid, cid) ==> JoinFor(t, u, qid, cid).0 == t
    ensures MayJoin(t, u, qid, cid) ==> (JoinFor(t, u, qid, cid).0 ==
      t.(entries := t.entries + [QueueEntry(t.nextId, u.id, qid, t.chars[CharById(t.chars, cid).value].nickname)], nextId := t.nextId + 1))
  {
  }

  /** A join into an existing queue keeps the invariant. */
  lemma JoinForOk(t: Tables, u: User, qid: nat, cid: nat)
    requires Ok(t) && u.id in UserIds(t.users) && qid in QueueIds(t.queues)
    ensures Ok(JoinFor(t, u, qid, cid).0)
  {
    JoinForState(t, u, qid, cid);
    if MayJoin(t, u, qid, cid) {
      OkAppendEntry(t, QueueEntry(t.nextId, u.id, qid, t.chars[CharById(t.chars, cid).value].nickname));
    }
  }

  /** The reply of a join depends on the queues only through whether the queue exists. */
  lemma JoinForReply(t: Tables, t2: Tables, u: User, qid: nat, cid: nat)
    requires t2.chars == t.chars && t2.entries == t.entries && t2.settings == t.settings
    requires QueueById(t2.queues, qid).None? <==> QueueById(t.queues, qid).None?
    ensures JoinFor(t2, u, qid, cid).1 == JoinFor(t, u, qid, cid).1
  {
  }

  /** Locking or unlocking a queue does not change what `do_join` does. */
  lemma JoinIgnoresLock(t: Tables, u: User, qid: nat, cid: nat, k: nat, locked: bool)
    requires k < |t.queues|
    ensures var t2 := t.(queues := t.queues[k := t.queues[k].(isLocked := locked)]);
      JoinFor(t2, u, qid, cid) == (JoinFor(t, u, qid, cid).0.(queues := t2.queues), JoinFor(t, u, qid, cid).1)
  {
    var t2 := t.(queues := t.queues[k := t.queues[k].(isLocked := locked)]);
    assert QueueById(t2.queues, qid).None? <==> QueueById(t.queues, qid).None? by {
      assert forall j :: 0 <= j < |t.queues| ==> t2.queues[j].id == t.queues[j].id;
    }
    assert JoinFor(t2, u, qid, cid).0 == JoinFor(t, u, qid, cid).0.(queues := t2.queues) by {
      JoinForState(t, u, qid, cid);
      JoinForState(t2, u, qid, cid);
    }
    assert JoinFor(t2, u, qid, cid).1 == JoinFor(t, u, qid, cid).1 by {
      JoinForReply(t, t2, u, qid, cid);
    }
  }

  /** `ensure_user` always leaves a row for the caller, so the join is decided
      by `JoinFor` on that row. */
  lemma JoinStepUnfold(t: Tables, qid: nat, cid: nat, tg: int, username: Option<string>)
    requires Ok(t)
    ensures var t1 := EnsureUserStep(t, tg, username).0;
      && UserByTelegram(t1.users, tg).Some?
      && JoinStep(t, qid, cid, tg, username) == JoinFor(t1, t1.users[UserByTelegram(t1.users, tg).value], qid, cid)
  {
    EnsureUserOk(t, tg, username);
  }

  lemma JoinForValid(db: Store, t: Tables, u: User, qid: nat, cid: nat)
    requires Ok(t) && u.id in UserIds(t.users) && qid in QueueIds(t.queues)
    requires db.State() == JoinFor(t, u, qid, cid).0
    ensures db.Valid()
  {
    JoinForOk(t, u, qid, cid);
  }

  method DoJoin(db: Store, qid: nat, cid: nat, tg: int, username: Option<string>) returns (reply: JoinReply)
    requires db.Valid()
    modifies db
    ensures (db.State(), reply) == JoinStep(old(db.State()), qid, cid, tg, username)
    ensures qid in QueueIds(db.queues) ==> db.Valid()
  {
    ghost var t0 := db.State();
    EnsureUserOk(t0, tg, username);
    var uid := EnsureUser(db, tg, username);
    var i := UserByTelegram(db.users, tg).value;
    ghost var t1 := db.State();
    assert t1 == EnsureUserStep(t0, tg, username).0;
    assert t1.users[i] in t1.users;
    reply := JoinAs(db, db.users[i], qid, cid);
    assert (db.State(), reply) == JoinStep(t0, qid, cid, tg, username);
    if qid in QueueIds(db.queues) {
      JoinForState(t1, t1.users[i], qid, cid);
      JoinForValid(db, t1, t1.users[i], qid, cid);
    }
  }

  /** The body of `do_join` after `ensure_user`. */
  method JoinAs(db: Store, u: User, qid: nat, cid: nat) returns (reply: JoinReply)
    modifies db
    ensures (db.State(), reply) == JoinFor(old(db.State()), u, qid, cid)
  {
    var found := CharById(db.chars, cid);
    if found.None? {
      return CharMissing;
    }
    if EntryFor(db.entries, u.id, qid).Some? {
      return AlreadyQueued;
    }
    var limit := EffectiveLimit(u, db.settings);
    if limit.None? {
      return JoinCrashed;
    }
    var count := |EntriesOf(db.entries, u.id)|;
    if count >= limit.value {
      return LimitReached(count, limit.value);
    }
    ghost var t := db.State();
    assert MayJoin(t, u, qid, cid);
    var nick := db.chars[found.value].nickname;
    db.entries := db.entries + [QueueEntry(db.nextId, u.id, qid, nick)];
    db.nextId := db.nextId + 1;
    var q := QueueById(db.queues, qid);
    reply := if q.None? then JoinedQueueMissing else Joined(nick);
    assert (db.State(), reply) == JoinFor(t, u, qid, cid) by {
      JoinForJoins(t, u, qid, cid);
    }
  }

  /** A join whose checks pass appends the entry, whether or not the queue exists. */
  lemma JoinForJoins(t: Tables, u: User, qid: nat, cid: nat)
    requires MayJoin(t, u, qid, cid)
    ensures var nick := t.chars[CharById(t.chars, cid).value].nickname;
      JoinFor(t, u, qid, cid) ==
        (t.(entries := t.entries + [QueueEntry(t.nextId, u.id, qid, nick)], nextId := t.nextId + 1),
         if QueueById(t.queues, qid).None? then JoinedQueueMissing else Joined(nick))
  {
  }

  // --------------------------------------------------------------- leave_queue

  datatype LeaveReply = Left | AlreadyLeft

  /** `leave_queue`. */
  function LeaveStep(t: Tables, qid: nat, tg: int, username: Option<string>): (Tables, LeaveReply)
  {
    var (t1, uid) := EnsureUserStep(t, tg, username);
    LeaveFor(t1, uid, qid)
  }

  /** What `leave_queue` does once `ensure_user` has given the user `uid`. */
  function LeaveFor(t: Tables, uid: nat, qid: nat): (Tables, LeaveReply)
  {
    match EntryFor(t.entries, uid, qid)
    case None => (t, AlreadyLeft)
    case Some(k) => (t.(entries := RemoveAt(t.entries, k)), Left)
  }

  /** The user leaves exactly when they hold an entry in the queue; exactly that
      entry goes, every other stays, and afterwards the user holds no entry in
      that queue (given one entry per user and queue). Otherwise nothing changes. */
  lemma LeaveForSpec(t: Tables, uid: nat, qid: nat)
    ensures var (t', reply) := LeaveFor(t, uid, qid);
      && (reply == Left <==> EntryFor(t.entries, uid, qid).Some?)
      && (reply == AlreadyLeft ==> t' == t)
      && (reply == Left ==>
            var k := EntryFor(t.entries, uid, qid).value;
            && t' == t.(entries := t'.entries)
            && |t'.entries| + 1 == |t.entries|
            && (forall j :: 0 <= j < |t.entries| && j != k ==> t.entries[j] in t'.entries)
            && (PairsUnique(t.entries) ==> EntryFor(t'.entries, uid, qid).None?))
  {
    match EntryFor(t.entries, uid, qid)
    case None =>
    case Some(k) =>
      var r := RemoveAt(t.entries, k);
      forall j | 0 <= j < |t.entries| && j != k ensures t.entries[j] in r {
        if j < k {
          assert r[j] == t.entries[j];
        } else {
          assert r[j - 1] == t.entries[j];
        }
      }
      if PairsUnique(t.entries) {
        forall j | 0 <= j < |r| ensures !(r[j].userId == uid && r[j].queueId == qid) {
          if j < k {
            assert r[j] == t.entries[j];
          } else {
            assert r[j] == t.entries[j + 1];
          }
        }
      }
  }

  lemma LeaveForOk(t: Tables, uid: nat, qid: nat)
    requires Ok(t)
    ensures Ok(LeaveFor(t, uid, qid).0)
    ensures PairsUnique(t.entries) ==> PairsUnique(LeaveFor(t, uid, qid).0.entries)
  {
    match EntryFor(t.entries, uid, qid)
    case None =>
    case Some(k) =>
      EntriesOkRemoveAt(t.entries, UserIds(t.users), QueueIds(t.queues), t.nextId, k);
      if PairsUnique(t.entries) {
        PairsUniqueRemoveAt(t.entries, k);
      }
  }

  /** Leaving right after joining gives back the entry table as it was; only
      the consumed key stays consumed. */
  lemma JoinThenLeave(t: Tables, u: User, qid: nat, cid: nat)
    requires MayJoin(t, u, qid, cid)
    ensures LeaveFor(JoinFor(t, u, qid, cid).0, u.id, qid) == (t.(nextId := t.nextId + 1), Left)
  {
    var n := |t.entries|;
    var e := QueueEntry(t.nextId, u.id, qid, t.chars[CharById(t.chars, cid).value].nickname);
    var t1 := t.(entries := t.entries + [e], nextId := t.nextId + 1);
    assert JoinFor(t, u, qid, cid).0 == t1;
    assert t1.entries[n] == e;
    assert EntryFor(t1.entries, u.id, qid) == Some(n) by {
      assert forall j :: 0 <= j < n ==> t1.entries[j] == t.entries[j];
    }
    assert RemoveAt(t1.entries, n) == t.entries;
  }

  lemma LeaveForValid(db: Store, t: Tables, uid: nat, qid: nat)
    requires Ok(t) && db.State() == LeaveFor(t, uid, qid).0
    ensures db.Valid()
  {
    LeaveForOk(t, uid, qid);
  }

  method LeaveQueue(db: Store, qid: nat, tg: int, username: Option<string>) returns (reply: LeaveReply)
    requires db.Valid()
    modifies db
    ensures db.Valid()
    ensures (db.State(), reply) == LeaveStep(old(db.State()), qid, tg, username)
  {
    var uid := EnsureUser(db, tg, username);
    reply := LeaveAs(db, uid, qid);
  }

  /** The body of `leave_queue` after `ensure_user`. */
  method LeaveAs(db: Store, uid: nat, qid: nat) returns (reply: LeaveReply)
    requires db.Valid()
    modifies db
    ensures db.Valid()
    ensures (db.State(), reply) == LeaveFor(old(db.State()), uid, qid)
  {
    ghost var t := db.State();
    var entry := EntryFor(db.entries, uid, qid);
    if entry.Some? {
      db.entries := RemoveAt(db.entries, entry.value);
      reply := Left;
    } else {
      reply := AlreadyLeft;
    }
    LeaveForValid(db, t, uid, qid);
  }

  // ------------------------------------------------------------ do_swap_finish

  datatype SwapReply = Swapped(oldNick: string, newNick: string) | SwapTargetMissing

  /** `do_swap_finish`: the entry takes the character's nickname, whoever owns
      either; the entry list shown afterwards runs `ensure_user`. */
  function SwapStep(t: Tables, eid: nat, cid: nat, tg: int, username: Option<string>): (Tables, SwapReply)
  {
    var (t0, reply) := SwapFor(t, eid, cid);
    (EnsureUserStep(t0, tg, username).0, reply)
  }

  function SwapFor(t: Tables, eid: nat, cid: nat): (Tables, SwapReply)
  {
    match (EntryById(t.entries, eid), CharById(t.chars, cid))
    case (Some(k), Some(j)) =>
      var nick := t.chars[j].nickname;
      (t.(entries := t.entries[k := t.entries[k].(characterName := nick)]),
       Swapped(t.entries[k].characterName, nick))
    case _ => (t, SwapTargetMissing)
  }

  /** A swap happens exactly when both the entry and the character exist; it
      changes only that entry's character name, keeping its user and queue and
      every other entry. Otherwise nothing changes. */
  lemma SwapForSpec(t: Tables, eid: nat, cid: nat)
    ensures var (t', reply) := SwapFor(t, eid, cid);
      && (reply.Swapped? <==> EntryById(t.entries, eid).Some? && CharById(t.chars, cid).Some?)
      && (reply == SwapTargetMissing ==> t' == t)
      && (reply.Swapped? ==>
            var k := EntryById(t.entries, eid).value;
            && t' == t.(entries := t'.entries)
            && SameRefs(t.entries, t'.entries)
            && reply.oldNick == t.entries[k].characterName
            && t'.entries[k].characterName == reply.newNick == t.chars[CharById(t.chars, cid).value].nickname
            && (forall j :: 0 <= j < |t.entries| && j != k ==> t'.entries[j] == t.entries[j]))
  {
  }

  lemma SwapForOk(t: Tables, eid: nat, cid: nat)
    requires Ok(t)
    ensures Ok(SwapFor(t, eid, cid).0)
    ensures PairsUnique(t.entries) ==> PairsUnique(SwapFor(t, eid, cid).0.entries)
  {
    var t' := SwapFor(t, eid, cid).0;
    SwapForSpec(t, eid, cid);
    EntriesOkSameRefs(t.entries, t'.entries, UserIds(t.users), QueueIds(t.queues), t.nextId);
    if PairsUnique(t.entries) {
      PairsUniqueSameRefs(t.entries, t'.entries);
    }
  }

  lemma SwapForValid(db: Store, t: Tables, eid: nat, cid: nat)
    requires Ok(t) && db.State() == SwapFor(t, eid, cid).0
    ensures db.Valid()
  {
    SwapForOk(t, eid, cid);
  }

  method DoSwapFinish(db: Store, eid: nat, cid: nat, tg: int, username: Option<string>) returns (reply: SwapReply)
    requires db.Valid()
    modifies db
    ensures db.Valid()
    ensures (db.State(), reply) == SwapStep(old(db.State()), eid, cid, tg, username)
  {
    reply := SwapEntry(db, eid, cid);
    var uid := EnsureUser(db, tg, username);  // show_my_active_queues
  }

  /** The body of `do_swap_finish` up to the commit. */
  method SwapEntry(db: Store, eid: nat, cid: nat) returns (reply: SwapReply)
    requires db.Valid()
    modifies db
    ensures db.Valid()
    ensures (db.State(), reply) == SwapFor(old(db.State()), eid, cid)
  {
    ghost var t := db.State();
    var entry := EntryById(db.entries, eid);
    var newChar := CharById(db.chars, cid);
    if entry.Some? && newChar.Some? {
      var k := entry.value;
      var oldNick := db.entries[k].characterName;
      var nick := db.chars[newChar.value].nickname;
      db.entries := db.entries[k := db.entries[k].(characterName := nick)];
      reply := Swapped(oldNick, nick);
      assert db.State() == t.(entries := db.entries);
    } else {
      reply := SwapTargetMissing;
    }
    assert (db.State(), reply) == SwapFor(t, eid, cid);
    SwapForValid(db, t, eid, cid);
  }
}
