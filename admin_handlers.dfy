/** The master's handlers of handlers/admin.py that change the store: banning,
    unlinking a character, issuing a reward, the two limits, locking a queue,
    adding an entry by force and kicking one. None of them checks that the
    caller is a master; only the master menu itself does. */
module AdminHandlers {
  import opened Base
  import opened Text
  import opened Database
  import opened Entries
  import opened UserHandlers

  // ------------------------------------------------------- the master check

  /** `is_master`: the first user row with the caller's Telegram id carries
      the master flag; an unknown caller is no master. */
  function IsMaster(users: seq<User>, tg: int): bool
  {
    match UserByTelegram(users, tg)
    case Some(i) => users[i].isMaster
    case None => false
  }

  /** The bootstrap rule: a newcomer whom `ensure_user` registers may open the
      master menu exactly when the user table was empty before. */
  lemma MasterBootstrap(t: Tables, tg: int, username: Option<string>)
    requires UserByTelegram(t.users, tg).None?
    ensures IsMaster(EnsureUserStep(t, tg, username).0.users, tg) <==> t.users == []
  {
    var users' := EnsureUserStep(t, tg, username).0.users;
    assert users'[|t.users|].telegramId == tg;
    assert forall j :: 0 <= j < |t.users| ==> users'[j] == t.users[j];
    assert UserByTelegram(users', tg) == Some(|t.users|);
  }

  /** A row rewrite that keeps the Telegram id and the master flag keeps the
      answer of the master check for every caller. */
  lemma IsMasterUpdate(users: seq<User>, i: nat, u: User, tg: int)
    requires i < |users| && u.telegramId == users[i].telegramId && u.isMaster == users[i].isMaster
    ensures IsMaster(users[i := u], tg) == IsMaster(users, tg)
  {
    var users' := users[i := u];
    assert forall j :: 0 <= j < |users| ==> users'[j].telegramId == users[j].telegramId;
    match UserByTelegram(users, tg)
    case Some(k) =>
      assert UserByTelegram(users', tg) == Some(k);
    case None =>
      assert UserByTelegram(users', tg).None?;
  }

  // ------------------------------------------------------- edits of one row

  lemma UserIdsUpdate(users: seq<User>, i: nat, u: User)
    requires i < |users| && u.id == users[i].id
    ensures UserIds(users[i := u]) == UserIds(users)
  {
    var r := users[i := u];
    forall x | x in UserIds(users) ensures x in UserIds(r) {
      var j :| 0 <= j < |users| && users[j].id == x;
      assert r[j].id == x;
    }
    forall x | x in UserIds(r) ensures x in UserIds(users) {
      var j :| 0 <= j < |r| && r[j].id == x;
      assert users[j].id == x;
    }
  }

  /** Rewriting a user row, keeping its key and Telegram id and any limit
      positive, keeps the invariant. */
  lemma OkUpdateUser(t: Tables, i: nat, u: User)
    requires Ok(t) && i < |t.users|
    requires u.id == t.users[i].id && u.telegramId == t.users[i].telegramId
    requires u.personalLimit.Some? ==> u.personalLimit.value >= 1
    ensures Ok(t.(users := t.users[i := u]))
  {
    UserIdsUpdate(t.users, i, u);
    var users := t.users[i := u];
    assert SameKeys(t.users, users, UserKey);
    KeyedSameKeys(t.users, users, UserKey, t.nextId);
  }

  lemma QueueIdsUpdate(queues: seq<QueueType>, k: nat, q: QueueType)
    requires k < |queues| && q.id == queues[k].id
    ensures QueueIds(queues[k := q]) == QueueIds(queues)
  {
    var r := queues[k := q];
    forall x | x in QueueIds(queues) ensures x in QueueIds(r) {
      var j :| 0 <= j < |queues| && queues[j].id == x;
      assert r[j].id == x;
    }
    forall x | x in QueueIds(r) ensures x in QueueIds(queues) {
      var j :| 0 <= j < |r| && r[j].id == x;
      assert queues[j].id == x;
    }
  }

  /** Deleting an entry leaves no entry with its key and every other entry in place. */
  lemma EntryByIdRemoved(s: seq<QueueEntry>, bound: nat, k: nat)
    requires KeyedBelow(s, EntryKey, bound) && k < |s|
    ensures EntryById(RemoveAt(s, k), s[k].id).None?
    ensures forall j :: 0 <= j < |s| && j != k ==> s[j] in RemoveAt(s, k)
  {
    var r := RemoveAt(s, k);
    forall j | 0 <= j < |r| ensures r[j].id != s[k].id {
      var j' := if j < k then j else j + 1;
      assert r[j] == s[j'];
    }
    forall j | 0 <= j < |s| && j != k ensures s[j] in r {
      if j < k {
        assert r[j] == s[j];
      } else {
        assert r[j - 1] == s[j];
      }
    }
  }

  // ------------------------------------------------------------ m_toggle_ban

  datatype BanReply = BanUserMissing | CannotBanMaster | Banned | Unbanned

  /** `m_toggle_ban`: masters cannot be banned; a ban wipes the user's entries. */
  function ToggleBanStep(t: Tables, uid: nat): (Tables, BanReply)
  {
    match UserById(t.users, uid)
    case None => (t, BanUserMissing)
    case Some(i) =>
      var u := t.users[i];
      if u.isMaster then (t, CannotBanMaster)
      else if !u.isBanned then
        (t.(users := t.users[i := u.(isBanned := true)], entries := WithoutUser(t.entries, uid)), Banned)
      else
        (t.(users := t.users[i := u.(isBanned := false)]), Unbanned)
  }

  /** A missing user or a master is left alone; otherwise only the ban flag of
      that user flips, and a ban (never an unban) removes exactly that user's
      entries, keeping everybody else's. */
  lemma ToggleBanSpec(t: Tables, uid: nat)
    ensures var (t', reply) := ToggleBanStep(t, uid);
      && (reply == BanUserMissing <==> UserById(t.users, uid).None?)
      && (reply == CannotBanMaster <==> UserById(t.users, uid).Some? && t.users[UserById(t.users, uid).value].isMaster)
      && (reply == BanUserMissing || reply == CannotBanMaster ==> t' == t)
      && (reply == Banned || reply == Unbanned ==>
            var i := UserById(t.users, uid).value;
            && t'.users == t.users[i := t.users[i].(isBanned := !t.users[i].isBanned)]
            && t' == t.(users := t'.users, entries := t'.entries)
            && (reply == Banned <==> !t.users[i].isBanned))
      && (reply == Banned ==>
            && EntriesOf(t'.entries, uid) == []
            && (forall j :: 0 <= j < |t.entries| && t.entries[j].userId != uid ==> t.entries[j] in t'.entries)
            && |t'.entries| + |EntriesOf(t.entries, uid)| == |t.entries|)
      && (reply == Unbanned ==> t'.entries == t.entries)
  {
    WithoutUserSpec(t.entries, uid);
  }

  /** Banning and then unbanning restores the user row but none of the entries. */
  lemma BanThenUnban(t: Tables, uid: nat)
    requires UserById(t.users, uid).Some?
    requires var u := t.users[UserById(t.users, uid).value]; !u.isMaster && !u.isBanned
    ensures var t1 := ToggleBanStep(t, uid).0;
      ToggleBanStep(t1, uid) == (t.(entries := WithoutUser(t.entries, uid)), Unbanned)
  {
    var i := UserById(t.users, uid).value;
    var t1 := ToggleBanStep(t, uid).0;
    assert UserById(t1.users, uid) == Some(i) by {
      assert forall j :: 0 <= j < |t.users| ==> t1.users[j].id == t.users[j].id;
    }
    assert t1.users[i := t1.users[i].(isBanned := false)] == t.users;
  }

  /** A ban toggle never changes who passes the master check. */
  lemma BanKeepsMasters(t: Tables, uid: nat, tg: int)
    ensures IsMaster(ToggleBanStep(t, uid).0.users, tg) == IsMaster(t.users, tg)
  {
    match UserById(t.users, uid)
    case None =>
    case Some(i) =>
      if !t.users[i].isMaster {
        IsMasterUpdate(t.users, i, t.users[i].(isBanned := !t.users[i].isBanned), tg);
      }
  }

  lemma ToggleBanOk(t: Tables, uid: nat)
    requires Ok(t)
    ensures Ok(ToggleBanStep(t, uid).0)
    ensures PairsUnique(t.entries) ==> PairsUnique(ToggleBanStep(t, uid).0.entries)
  {
    match UserById(t.users, uid)
    case None =>
    case Some(i) =>
      var u := t.users[i];
      if !u.isMaster {
        OkUpdateUser(t, i, u.(isBanned := !u.isBanned));
        if !u.isBanned {
          var t1 := t.(users := t.users[i := u.(isBanned := true)]);
          EntriesOkKeep(t.entries, UserIds(t.users), QueueIds(t.queues), t.nextId, (e: QueueEntry) => e.userId != uid);
          UserIdsUpdate(t.users, i, u.(isBanned := true));
          OkWithEntries(t1, WithoutUser(t.entries, uid));
          if PairsUnique(t.entries) {
            PairsUniqueKeep(t.entries, (e: QueueEntry) => e.userId != uid);
          }
        }
      }
  }

  lemma ToggleBanValid(db: Store, t: Tables, uid: nat)
    requires Ok(t) && db.State() == ToggleBanStep(t, uid).0
    ensures db.Valid()
  {
    ToggleBanOk(t, uid);
  }

  method ToggleBan(db: Store, uid: nat) returns (reply: BanReply)
    requires db.Valid()
    modifies db
    ensures db.Valid()
    ensures (db.State(), reply) == ToggleBanStep(old(db.State()), uid)
  {
    ghost var t := db.State();
    var found := UserById(db.users, uid);
    if found.None? {
      return BanUserMissing;
    }
    var i := found.value;
    var u := db.users[i];
    if u.isMaster {
      return CannotBanMaster;
    }
    db.users := db.users[i := u.(isBanned := !u.isBanned)];
    if !u.isBanned {
      db.entries := WithoutUser(db.entries, uid);
      reply := Banned;
    } else {
      reply := Unbanned;
    }
    ToggleBanValid(db, t, uid);
  }

  // ---------------------------------------------------- m_delete_char_admin

  datatype AdminDelReply = AdminCharGone | Unlinked(nick: string)

  /** `m_delete_char_admin`: the character goes, and with it every entry filed
      under its nickname, whoever owns the entry. */
  function AdminDeleteStep(t: Tables, cid: nat): (Tables, AdminDelReply)
  {
    match CharById(t.chars, cid)
    case None => (t, AdminCharGone)
    case Some(i) =>
      var nick := t.chars[i].nickname;
      (t.(chars := RemoveAt(t.chars, i), entries := WithoutNick(t.entries, nick)), Unlinked(nick))
  }

  /** The master's deletion is the player's deletion with the "kill" action:
      it leaves no entry under the nickname, of any user, and keeps the rest. */
  lemma AdminDeleteIsKill(t: Tables, cid: nat)
    requires Ok(t)
    ensures var (t', reply) := AdminDeleteStep(t, cid);
      && t' == ConfirmDelStep(t, cid, Kill).0
      && (reply == AdminCharGone <==> CharById(t.chars, cid).None?)
      && (reply.Unlinked? ==>
            && CharById(t'.chars, cid).None?
            && (forall j :: 0 <= j < |t'.entries| ==> t'.entries[j].characterName != reply.nick)
            && (forall j :: 0 <= j < |t.entries| && t.entries[j].characterName != reply.nick ==> t.entries[j] in t'.entries)
            && |t'.entries| + |EntriesNamed(t.entries, reply.nick)| == |t.entries|)
  {
    ConfirmDelSpec(t, cid, Kill);
    match CharById(t.chars, cid)
    case None =>
    case Some(i) =>
      CascadeSpec(t.entries, t.chars[i].nickname, Kill, MainNick(t.chars, t.chars[i].userId));
  }

  lemma AdminDeleteValid(db: Store, t: Tables, cid: nat)
    requires Ok(t) && db.State() == AdminDeleteStep(t, cid).0
    ensures db.Valid()
  {
    AdminDeleteIsKill(t, cid);
    ConfirmDelOk(t, cid, Kill);
  }

  method AdminDeleteChar(db: Store, cid: nat) returns (reply: AdminDelReply)
    requires db.Valid()
    modifies db
    ensures db.Valid()
    ensures (db.State(), reply) == AdminDeleteStep(old(db.State()), cid)
  {
    ghost var t := db.State();
    var found := CharById(db.chars, cid);
    if found.None? {
      return AdminCharGone;
    }
    var nick := db.chars[found.value].nickname;
    db.chars := RemoveAt(db.chars, found.value);
    db.entries := WithoutNick(db.entries, nick);
    reply := Unlinked(nick);
    AdminDeleteValid(db, t, cid);
  }

  // --------------------------------------------------------- m_issue_reward

  datatype IssueReply =
    | AlreadyIssued
      /** The entry's queue or the caller's user row is missing: an attribute lookup raises. */
    | IssueCrashed
      /** `notify` is the Telegram id the owner is told at, if the owner exists. */
    | Issued(nick: string, notify: Option<int>)

  /** `m_issue_reward`: one history row (owner, character, queue name, the
      caller's username) is added and the entry deleted. */
  function IssueStep(t: Tables, eid: nat, tg: int): (Tables, IssueReply)
  {
    match EntryById(t.entries, eid)
    case None => (t, AlreadyIssued)
    case Some(k) =>
      var e := t.entries[k];
      var q := QueueById(t.queues, e.queueId);
      var m := UserByTelegram(t.users, tg);
      if q.None? || m.None? then (t, IssueCrashed)
      else
        var h := RewardHistory(t.nextId, e.userId, e.characterName, t.queues[q.value].name, t.users[m.value].username);
        (IssueApplied(t, k, h), Issued(e.characterName, Notified(t.users, e.userId)))
  }

  /** The history row appended and the entry at `k` deleted. */
  function IssueApplied(t: Tables, k: nat, h: RewardHistory): Tables
    requires k < |t.entries|
  {
    t.(history := t.history + [h], nextId := t.nextId + 1, entries := RemoveAt(t.entries, k))
  }

  /** The Telegram id of the entry's owner, whom the bot tells about the reward. */
  function Notified(users: seq<User>, uid: nat): (r: Option<int>)
    ensures r.Some? <==> uid in UserIds(users)
  {
    var owner := UserById(users, uid);
    if owner.Some? then Some(users[owner.value].telegramId)
    else
      assert forall u :: u in users ==> u.id != uid;
      None
  }

  /** A missing entry or caller changes nothing; otherwise exactly one history
      row describing the entry is appended and exactly that entry goes. */
  lemma IssueSpec(t: Tables, eid: nat, tg: int)
    requires EntriesOk(t.entries, UserIds(t.users), QueueIds(t.queues), t.nextId)
    ensures var (t', reply) := IssueStep(t, eid, tg);
      && (reply == AlreadyIssued <==> EntryById(t.entries, eid).None?)
      && (reply == IssueCrashed <==> EntryById(t.entries, eid).Some? && UserByTelegram(t.users, tg).None?)
      && (!reply.Issued? ==> t' == t)
      && (reply.Issued? ==> IssuedRow(t, eid, tg, t', reply))
  {
    match EntryById(t.entries, eid)
    case None =>
    case Some(k) =>
      var e := t.entries[k];
      assert e in t.entries;
      var q := QueueById(t.queues, e.queueId);
      var m := UserByTelegram(t.users, tg);
      if q.Some? && m.Some? {
        IssuedRowHolds(t, eid, tg, k);
      }
  }

  /** What a successful issue writes: one history row describing the entry,
      the entry itself gone, and nothing else. */
  ghost predicate IssuedRow(t: Tables, eid: nat, tg: int, t': Tables, reply: IssueReply)
    requires reply.Issued? && EntryById(t.entries, eid).Some? && UserByTelegram(t.users, tg).Some?
  {
    var e := t.entries[EntryById(t.entries, eid).value];
    && |t'.history| == |t.history| + 1
    && t'.history[..|t.history|] == t.history
    && var h := t'.history[|t.history|];
    && h.userId == e.userId && h.characterName == e.characterName == reply.nick
    && Some(h.queueName) == (var q := QueueById(t.queues, e.queueId); if q.Some? then Some(t.queues[q.value].name) else None)
    && h.issuedBy == t.users[UserByTelegram(t.users, tg).value].username
    && EntryById(t'.entries, eid).None?
    && |t'.entries| + 1 == |t.entries|
    && (forall j :: 0 <= j < |t.entries| && t.entries[j].id != eid ==> t.entries[j] in t'.entries)
    && t' == t.(history := t'.history, entries := t'.entries, nextId := t.nextId + 1)
  }

  lemma IssuedRowHolds(t: Tables, eid: nat, tg: int, k: nat)
    requires EntriesOk(t.entries, UserIds(t.users), QueueIds(t.queues), t.nextId)
    requires EntryById(t.entries, eid) == Some(k)
    requires QueueById(t.queues, t.entries[k].queueId).Some? && UserByTelegram(t.users, tg).Some?
    ensures IssueStep(t, eid, tg).1.Issued?
    ensures IssuedRow(t, eid, tg, IssueStep(t, eid, tg).0, IssueStep(t, eid, tg).1)
  {
    var e := t.entries[k];
    var q := QueueById(t.queues, e.queueId);
    var m := UserByTelegram(t.users, tg);
    var h := RewardHistory(t.nextId, e.userId, e.characterName, t.queues[q.value].name, t.users[m.value].username);
    IssueAppliedSpec(t, k, h);
  }


  lemma IssueAppliedSpec(t: Tables, k: nat, h: RewardHistory)
    requires KeyedBelow(t.entries, EntryKey, t.nextId) && k < |t.entries|
    ensures var t' := IssueApplied(t, k, h);
      && |t'.history| == |t.history| + 1
      && t'.history[..|t.history|] == t.history
      && t'.history[|t.history|] == h
      && EntryById(t'.entries, t.entries[k].id).None?
      && |t'.entries| + 1 == |t.entries|
      && (forall j :: 0 <= j < |t.entries| && t.entries[j].id != t.entries[k].id ==> t.entries[j] in t'.entries)
  {
    EntryByIdRemoved(t.entries, t.nextId, k);
    assert (t.history + [h])[..|t.history|] == t.history;
  }

  /** Issuing the same entry twice writes one history row: the second tap finds
      the entry gone. */
  lemma IssueTwice(t: Tables, eid: nat, tg: int)
    requires Ok(t)
    ensures var (t1, reply) := IssueStep(t, eid, tg);
      && (reply.Issued? ==> IssueStep(t1, eid, tg) == (t1, AlreadyIssued))
      && |t1.history| <= |t.history| + 1
  {
    IssueSpec(t, eid, tg);
  }

  /** The tables an issue leaves. */
  lemma IssueState(t: Tables, eid: nat, tg: int)
    ensures var (t', reply) := IssueStep(t, eid, tg);
      && (!reply.Issued? ==> t' == t)
      && (reply.Issued? ==>
            var k := EntryById(t.entries, eid).value;
            var e := t.entries[k];
            && QueueById(t.queues, e.queueId).Some? && UserByTelegram(t.users, tg).Some?
            && t' == IssueApplied(t, k, RewardHistory(t.nextId, e.userId, e.characterName,
                 t.queues[QueueById(t.queues, e.queueId).value].name, t.users[UserByTelegram(t.users, tg).value].username)))
  {
  }

  lemma IssueOk(t: Tables, eid: nat, tg: int)
    requires Ok(t)
    ensures Ok(IssueStep(t, eid, tg).0)
    ensures PairsUnique(t.entries) ==> PairsUnique(IssueStep(t, eid, tg).0.entries)
  {
    IssueState(t, eid, tg);
    match EntryById(t.entries, eid)
    case None =>
    case Some(k) =>
      var e := t.entries[k];
      var q := QueueById(t.queues, e.queueId);
      var m := UserByTelegram(t.users, tg);
      if q.Some? && m.Some? {
        var h := RewardHistory(t.nextId, e.userId, e.characterName, t.queues[q.value].name, t.users[m.value].username);
        OkIssue(t, k, h);
        if PairsUnique(t.entries) {
          PairsUniqueRemoveAt(t.entries, k);
        }
      }
  }

  /** Appending a history row with the next key and deleting an entry keeps the invariant. */
  lemma OkIssue(t: Tables, k: nat, h: RewardHistory)
    requires Ok(t) && k < |t.entries| && h.id == t.nextId
    ensures Ok(IssueApplied(t, k, h))
  {
    var n := t.nextId + 1;
    KeyedAppend(t.history, HistoryKey, t.nextId, h);
    EntriesOkRemoveAt(t.entries, UserIds(t.users), QueueIds(t.queues), t.nextId, k);
    EntriesOkWiden(RemoveAt(t.entries, k), UserIds(t.users), QueueIds(t.queues), UserIds(t.users), QueueIds(t.queues), t.nextId, n);
    CharsOkWiden(t.chars, UserIds(t.users), UserIds(t.users), t.nextId, n);
    KeyedGrow(t.users, UserKey, t.nextId, n);
    KeyedGrow(t.queues, QueueKey, t.nextId, n);
    KeyedGrow(t.anns, AnnKey, t.nextId, n);
  }

  lemma IssueValid(db: Store, t: Tables, eid: nat, tg: int)
    requires Ok(t) && db.State() == IssueStep(t, eid, tg).0
    ensures db.Valid()
  {
    IssueOk(t, eid, tg);
  }

  method IssueReward(db: Store, eid: nat, tg: int) returns (reply: IssueReply)
    requires db.Valid()
    modifies db
    ensures db.Valid()
    ensures (db.State(), reply) == IssueStep(old(db.State()), eid, tg)
  {
    ghost var t := db.State();
    var found := EntryById(db.entries, eid);
    if found.None? {
      return AlreadyIssued;
    }
    var k := found.value;
    var e := db.entries[k];
    var q := QueueById(db.queues, e.queueId);
    var master := UserByTelegram(db.users, tg);
    if q.None? || master.None? {
      return IssueCrashed;
    }
    var notify := Notified(db.users, e.userId);
    RecordIssue(db, k, RewardHistory(db.nextId, e.userId, e.characterName, db.queues[q.value].name, db.users[master.value].username));
    reply := Issued(e.characterName, notify);
  }

  /** Steps 1 and 4 of `m_issue_reward`: the history row, then the deletion. */
  method RecordIssue(db: Store, k: nat, h: RewardHistory)
    requires db.Valid() && k < |db.entries| && h.id == db.nextId
    modifies db
    ensures db.Valid()
    ensures db.State() == IssueApplied(old(db.State()), k, h)
  {
    ghost var t := db.State();
    db.history := db.history + [h];
    db.nextId := db.nextId + 1;
    db.entries := RemoveAt(db.entries, k);
    assert db.State() == IssueApplied(t, k, h);
    OkIssue(t, k, h);
  }

  // ------------------------------------------------------ m_set_global_save

  datatype GlobalReply = GlobalRejected | GlobalSet(limit: nat)

  /** `m_set_global_save`: any failure, including a missing setting row, ends
      in the same "number > 0" reply and writes nothing. */
  function SetGlobalStep(t: Tables, text: string): (Tables, GlobalReply)
  {
    match ParseInt(text)
    case None => (t, GlobalRejected)
    case Some(v) =>
      if v < 1 || DefaultLimitKey !in t.settings then (t, GlobalRejected)
      else (t.(settings := t.settings[DefaultLimitKey := ShowNat(v as nat)]), GlobalSet(v as nat))
  }

  /** A value below 1, or no number at all, is rejected and nothing changes;
      an accepted value is stored as its decimal text and becomes the limit of
      every user without an override, and only the setting changes. */
  lemma SetGlobalSpec(t: Tables, text: string)
    ensures var (t', reply) := SetGlobalStep(t, text);
      && (reply == GlobalRejected <==>
            ParseInt(text).None? || ParseInt(text).value < 1 || DefaultLimitKey !in t.settings)
      && (reply == GlobalRejected ==> t' == t)
      && (reply.GlobalSet? ==>
            && ParseInt(text) == Some(reply.limit as int)
            && t' == t.(settings := t'.settings)
            && t'.settings.Keys == t.settings.Keys
            && t'.settings[DefaultLimitKey] == ShowNat(reply.limit)
            && (forall k :: k in t.settings && k != DefaultLimitKey ==> t'.settings[k] == t.settings[k])
            && (forall u: User :: u.personalLimit.None? ==> EffectiveLimit(u, t'.settings) == Some(reply.limit as int))
            && (forall u: User :: u.personalLimit.Some? ==> EffectiveLimit(u, t'.settings) == u.personalLimit))
  {
    match ParseInt(text)
    case None =>
    case Some(v) =>
      if v >= 1 && DefaultLimitKey in t.settings {
        forall u: User | u.personalLimit.None? ensures EffectiveLimit(u, t.settings[DefaultLimitKey := ShowNat(v as nat)]) == Some(v) {
          GlobalLimitRoundTrip(u, t.settings, v as nat);
        }
      }
  }

  lemma SetGlobalValid(db: Store, t: Tables, text: string)
    requires Ok(t) && db.State() == SetGlobalStep(t, text).0
    ensures db.Valid()
  {
    match ParseInt(text)
    case None =>
    case Some(v) =>
      if v >= 1 && DefaultLimitKey in t.settings {
        ParseIntShowNat(v as nat);
        OkWithSettings(t, t.settings[DefaultLimitKey := ShowNat(v as nat)]);
      }
  }

  method SetGlobalLimit(db: Store, text: string) returns (reply: GlobalReply)
    requires db.Valid()
    modifies db
    ensures db.Valid()
    ensures (db.State(), reply) == SetGlobalStep(old(db.State()), text)
  {
    ghost var t := db.State();
    var val := ParseInt(text);
    if val.None? || val.value < 1 || DefaultLimitKey !in db.settings {
      return GlobalRejected;
    }
    db.settings := db.settings[DefaultLimitKey := ShowNat(val.value as nat)];
    reply := GlobalSet(val.value as nat);
    SetGlobalValid(db, t, text);
  }

  // -------------------------------------------- m_set_personal_nick / _save

  /** `m_set_personal_nick`: the owner and nickname of the first character
      with the stripped nickname, remembered for the next message. */
  function PersonalTarget(t: Tables, text: string): (r: Option<(nat, string)>)
    ensures r.None? <==> forall j :: 0 <= j < |t.chars| ==> t.chars[j].nickname != Strip(text)
    ensures r.Some? ==> r.value.1 == Strip(text) && exists j :: 0 <= j < |t.chars| && t.chars[j].userId == r.value.0 && t.chars[j].nickname == r.value.1
  {
    match CharByNick(t.chars, Strip(text))
    case None => None
    case Some(j) => Some((t.chars[j].userId, t.chars[j].nickname))
  }

  datatype PersonalReply = PersonalRejected | PersonalSet(limit: int) | PersonalCleared

  /** `m_set_personal_save`: a positive number becomes the override, anything
      else that parses clears it; a bad number or a vanished user is rejected. */
  function SetPersonalStep(t: Tables, uid: nat, text: string): (Tables, PersonalReply)
  {
    match ParseInt(text)
    case None => (t, PersonalRejected)
    case Some(v) =>
      match UserById(t.users, uid)
      case None => (t, PersonalRejected)
      case Some(i) =>
        (t.(users := t.users[i := t.users[i].(personalLimit := if v > 0 then Some(v) else None)]),
         if v > 0 then PersonalSet(v) else PersonalCleared)
  }

  /** After the save the user's override is the value given when it is
      positive and absent otherwise, so the effective limit is that value, or
      the global default whatever it becomes later; no other user and nothing
      else of the row changes. */
  lemma SetPersonalSpec(t: Tables, uid: nat, text: string)
    ensures var (t', reply) := SetPersonalStep(t, uid, text);
      && (reply == PersonalRejected <==> ParseInt(text).None? || UserById(t.users, uid).None?)
      && (reply == PersonalRejected ==> t' == t)
      && (reply != PersonalRejected ==>
            var i := UserById(t.users, uid).value;
            && t' == t.(users := t'.users)
            && |t'.users| == |t.users|
            && (forall j :: 0 <= j < |t.users| && j != i ==> t'.users[j] == t.users[j])
            && t'.users[i] == t.users[i].(personalLimit := t'.users[i].personalLimit)
            && t'.users[i].personalLimit == (if ParseInt(text).value > 0 then Some(ParseInt(text).value) else None)
            && (reply.PersonalSet? <==> ParseInt(text).value > 0)
            && (reply.PersonalSet? ==>
                  && ParseInt(text) == Some(reply.limit)
                  && forall s: map<string, string> :: EffectiveLimit(t'.users[i], s) == Some(reply.limit))
            && (reply == PersonalCleared ==>
                  && ParseInt(text).value <= 0
                  && forall s: map<string, string> ::
                       EffectiveLimit(t'.users[i], s) == EffectiveLimit(t.users[i].(personalLimit := None), s)))
  {
  }

  lemma SetPersonalValid(db: Store, t: Tables, uid: nat, text: string)
    requires Ok(t) && db.State() == SetPersonalStep(t, uid, text).0
    ensures db.Valid()
  {
    match ParseInt(text)
    case None =>
    case Some(v) =>
      match UserById(t.users, uid)
      case None =>
      case Some(i) =>
        OkUpdateUser(t, i, t.users[i].(personalLimit := if v > 0 then Some(v) else None));
  }

  method SetPersonalLimit(db: Store, uid: nat, text: string) returns (reply: PersonalReply)
    requires db.Valid()
    modifies db
    ensures db.Valid()
    ensures (db.State(), reply) == SetPersonalStep(old(db.State()), uid, text)
  {
    ghost var t := db.State();
    var val := ParseInt(text);
    if val.None? {
      return PersonalRejected;
    }
    var found := UserById(db.users, uid);
    if found.None? {
      return PersonalRejected;
    }
    var v := val.value;
    var i := found.value;
    db.users := db.users[i := db.users[i].(personalLimit := if v > 0 then Some(v) else None)];
    reply := if v > 0 then PersonalSet(v) else PersonalCleared;
    SetPersonalValid(db, t, uid, text);
  }

  // ---------------------------------------------------------- m_toggle_lock

  datatype LockReply = LockCrashed | LockSet(name: string, locked: bool)

  /** `m_toggle_lock`: a queue id naming no queue makes `q.is_locked` raise. */
  function ToggleLockStep(t: Tables, qid: nat): (Tables, LockReply)
  {
    match QueueById(t.queues, qid)
    case None => (t, LockCrashed)
    case Some(k) =>
      var q := t.queues[k];
      (t.(queues := t.queues[k := q.(isLocked := !q.isLocked)]), LockSet(q.name, !q.isLocked))
  }

  /** Only the lock flag of that one queue flips; entries and every other queue
      stay; toggling twice restores the store. */
  lemma ToggleLockSpec(t: Tables, qid: nat)
    ensures var (t', reply) := ToggleLockStep(t, qid);
      && (reply == LockCrashed <==> qid !in QueueIds(t.queues))
      && (reply == LockCrashed ==> t' == t)
      && (reply.LockSet? ==>
            var k := QueueById(t.queues, qid).value;
            && t' == t.(queues := t'.queues)
            && |t'.queues| == |t.queues|
            && t'.queues[k] == t.queues[k].(isLocked := !t.queues[k].isLocked)
            && reply.locked == t'.queues[k].isLocked
            && (forall j :: 0 <= j < |t.queues| && j != k ==> t'.queues[j] == t.queues[j]))
      && ToggleLockStep(t', qid).0 == t
  {
    match QueueById(t.queues, qid)
    case None =>
    case Some(k) =>
      assert t.queues[k] in t.queues;
      var t' := ToggleLockStep(t, qid).0;
      assert forall j :: 0 <= j < |t.queues| ==> t'.queues[j].id == t.queues[j].id;
      assert QueueById(t'.queues, qid) == Some(k);
      assert t'.queues[k := t'.queues[k].(isLocked := !t'.queues[k].isLocked)] == t.queues;
  }

  lemma ToggleLockValid(db: Store, t: Tables, qid: nat)
    requires Ok(t) && db.State() == ToggleLockStep(t, qid).0
    ensures db.Valid()
  {
    match QueueById(t.queues, qid)
    case None =>
    case Some(k) =>
      var q := t.queues[k].(isLocked := !t.queues[k].isLocked);
      QueueIdsUpdate(t.queues, k, q);
      assert SameKeys(t.queues, t.queues[k := q], QueueKey);
      KeyedSameKeys(t.queues, t.queues[k := q], QueueKey, t.nextId);
  }

  method ToggleLock(db: Store, qid: nat) returns (reply: LockReply)
    requires db.Valid()
    modifies db
    ensures db.Valid()
    ensures (db.State(), reply) == ToggleLockStep(old(db.State()), qid)
  {
    ghost var t := db.State();
    var found := QueueById(db.queues, qid);
    if found.None? {
      return LockCrashed;
    }
    var k := found.value;
    var q := db.queues[k];
    db.queues := db.queues[k := q.(isLocked := !q.isLocked)];
    reply := LockSet(q.name, !q.isLocked);
    ToggleLockValid(db, t, qid);
  }

  // ---------------------------------------------------- m_force_add_final

  /** Whom a forced entry is filed for: the owner of the first character with
      that nickname, who must have a main (the main's nickname is read
      unguarded); an unknown nickname goes to the caller. `None` is the crash. */
  function ForceOwner(t: Tables, nick: string, tg: int): Option<nat>
  {
    match CharByNick(t.chars, nick)
    case Some(k) => if MainIndex(t.chars, t.chars[k].userId).Some? then Some(t.chars[k].userId) else None
    case None =>
      match UserByTelegram(t.users, tg)
      case Some(m) => Some(t.users[m].id)
      case None => None
  }

  /** The lookup fails exactly when the nickname's owner has no main, or when
      the nickname is unknown and so is the caller; a user it finds exists. */
  lemma ForceOwnerSpec(t: Tables, nick: string, tg: int)
    requires Ok(t)
    ensures var r := ForceOwner(t, nick, tg);
      && (r.None? <==>
            || (CharByNick(t.chars, nick).Some? && MainNick(t.chars, t.chars[CharByNick(t.chars, nick).value].userId).None?)
            || (CharByNick(t.chars, nick).None? && UserByTelegram(t.users, tg).None?))
      && (r.Some? ==> r.value in UserIds(t.users))
      && (r.Some? && CharByNick(t.chars, nick).Some? ==> r.value == t.chars[CharByNick(t.chars, nick).value].userId)
      && (r.Some? && CharByNick(t.chars, nick).None? ==> r.value == t.users[UserByTelegram(t.users, tg).value].id)
  {
    match CharByNick(t.chars, nick)
    case Some(k) =>
    case None =>
      match UserByTelegram(t.users, tg)
      case None =>
      case Some(m) =>
        assert t.users[m] in t.users;
  }

  datatype ForceReply =
    | ForceCrashed
    | ForceAdded(nick: string, uid: nat)
      /** The entry is committed, then looking up the queue's name raises. */
    | ForceAddedQueueMissing

  /** `m_force_add_final`: no lock, limit or duplicate check. */
  function ForceAddStep(t: Tables, qid: nat, nick: string, tg: int): (Tables, ForceReply)
  {
    match ForceOwner(t, nick, tg)
    case None => (t, ForceCrashed)
    case Some(uid) =>
      var t' := t.(entries := t.entries + [QueueEntry(t.nextId, uid, qid, nick)], nextId := t.nextId + 1);
      if QueueById(t.queues, qid).None? then (t', ForceAddedQueueMissing) else (t', ForceAdded(nick, uid))
  }

  /** Unless the owner lookup fails, exactly one entry for the owner, the queue
      and the nickname as typed is appended, whatever the lock, the limit and
      the owner's existing entries; in particular a second entry for the same
      user and queue is possible. */
  lemma ForceAddSpec(t: Tables, qid: nat, nick: string, tg: int)
    ensures var (t', reply) := ForceAddStep(t, qid, nick, tg);
      && (reply == ForceCrashed <==> ForceOwner(t, nick, tg).None?)
      && (reply == ForceCrashed ==> t' == t)
      && (reply != ForceCrashed ==>
            var uid := ForceOwner(t, nick, tg).value;
            && t'.entries == t.entries + [QueueEntry(t.nextId, uid, qid, nick)]
            && t' == t.(entries := t'.entries, nextId := t.nextId + 1)
            && (reply.ForceAdded? <==> qid in QueueIds(t.queues))
            && (EntryFor(t.entries, uid, qid).Some? ==> !PairsUnique(t'.entries)))
  {
    match ForceOwner(t, nick, tg)
    case None =>
    case Some(uid) =>
      var t' := ForceAddStep(t, qid, nick, tg).0;
      var q := QueueById(t.queues, qid);
      if q.Some? {
        assert t.queues[q.value] in t.queues;
      }
      var j := EntryFor(t.entries, uid, qid);
      if j.Some? {
        var n := |t.entries|;
        assert t'.entries[j.value] == t.entries[j.value];
        assert t'.entries[n].userId == uid && t'.entries[n].queueId == qid;
      }
  }

  /** A forced entry into an existing queue keeps the invariant. */
  lemma ForceAddOk(t: Tables, qid: nat, nick: string, tg: int)
    requires Ok(t) && qid in QueueIds(t.queues)
    ensures Ok(ForceAddStep(t, qid, nick, tg).0)
  {
    var owner := ForceOwner(t, nick, tg);
    if owner.Some? {
      var e := QueueEntry(t.nextId, owner.value, qid, nick);
      assert owner.value in UserIds(t.users) by {
        ForceOwnerSpec(t, nick, tg);
      }
      assert ForceAddStep(t, qid, nick, tg).0 == t.(entries := t.entries + [e], nextId := t.nextId + 1);
      OkAppendEntry(t, e);
    }
  }

  method ForceAdd(db: Store, qid: nat, nick: string, tg: int) returns (reply: ForceReply)
    requires db.Valid()
    modifies db
    ensures (db.State(), reply) == ForceAddStep(old(db.State()), qid, nick, tg)
    ensures qid in QueueIds(db.queues) ==> db.Valid()
  {
    ForceOwnerSpec(db.State(), nick, tg);
    var owner := ForceOwner(db.State(), nick, tg);
    if owner.None? {
      return ForceCrashed;
    }
    AddEntry(db, owner.value, qid, nick);
    var q := QueueById(db.queues, qid);
    if q.None? {
      reply := ForceAddedQueueMissing;
    } else {
      reply := ForceAdded(nick, owner.value);
    }
  }

  /** `session.add(QueueEntry(...))` with the next key, for an existing user. */
  method AddEntry(db: Store, uid: nat, qid: nat, nick: string)
    requires db.Valid() && uid in UserIds(db.users)
    modifies db
    ensures db.State() == old(db.State()).(entries := old(db.entries) + [QueueEntry(old(db.nextId), uid, qid, nick)],
                                          nextId := old(db.nextId) + 1)
    ensures qid in QueueIds(db.queues) ==> db.Valid()
  {
    ghost var t := db.State();
    var e := QueueEntry(db.nextId, uid, qid, nick);
    db.entries := db.entries + [e];
    db.nextId := db.nextId + 1;
    if qid in QueueIds(db.queues) {
      OkAppendEntry(t, e);
    }
  }

  // ----------------------------------------------------------------- m_kill

  datatype KillReply = KillMissing | KillCrashed | Kicked(nick: string)

  /** `m_kill`: the entry goes; the queue's name is read first for the log. */
  function KillStep(t: Tables, eid: nat): (Tables, KillReply)
  {
    match EntryById(t.entries, eid)
    case None => (t, KillMissing)
    case Some(k) =>
      if QueueById(t.queues, t.entries[k].queueId).None? then (t, KillCrashed)
      else (t.(entries := RemoveAt(t.entries, k)), Kicked(t.entries[k].characterName))
  }

  /** Under the invariant a kick removes exactly the entry asked for and
      nothing else; a missing entry changes nothing. */
  lemma KillSpec(t: Tables, eid: nat)
    requires Ok(t)
    ensures var (t', reply) := KillStep(t, eid);
      && (reply == KillMissing <==> EntryById(t.entries, eid).None?)
      && reply != KillCrashed
      && (reply == KillMissing ==> t' == t)
      && (reply.Kicked? ==>
            && t' == t.(entries := t'.entries)
            && EntryById(t'.entries, eid).None?
            && |t'.entries| + 1 == |t.entries|
            && (forall j :: 0 <= j < |t.entries| && t.entries[j].id != eid ==> t.entries[j] in t'.entries))
  {
    match EntryById(t.entries, eid)
    case None =>
    case Some(k) =>
      assert t.entries[k] in t.entries;
      EntryByIdRemoved(t.entries, t.nextId, k);
  }

  lemma KillValid(db: Store, t: Tables, eid: nat)
    requires Ok(t) && db.State() == KillStep(t, eid).0
    ensures db.Valid()
  {
    match EntryById(t.entries, eid)
    case None =>
    case Some(k) =>
      EntriesOkRemoveAt(t.entries, UserIds(t.users), QueueIds(t.queues), t.nextId, k);
  }

  method KickEntry(db: Store, eid: nat) returns (reply: KillReply)
    requires db.Valid()
    modifies db
    ensures db.Valid()
    ensures (db.State(), reply) == KillStep(old(db.State()), eid)
  {
    ghost var t := db.State();
    var found := EntryById(db.entries, eid);
    if found.None? {
      return KillMissing;
    }
    var k := found.value;
    if QueueById(db.queues, db.entries[k].queueId).None? {
      return KillCrashed;
    }
    reply := Kicked(db.entries[k].characterName);
    db.entries := RemoveAt(db.entries, k);
    KillValid(db, t, eid);
  }
}
