/** The bot's store (database.py): the rows of its seven tables, the one
    session object through which every handler reads and writes them, the
    queries the handlers run against them, and the three functions database.py
    itself defines: `init_db`, `ensure_user` and `get_effective_limit_logic`. */
module Database {
  import opened Base
  import opened Text

  // ------------------------------------------------------------------ rows

  datatype User = User(
    id: nat,
    telegramId: int,
    username: Option<string>,
    isMaster: bool,
    isBanned: bool,
    personalLimit: Option<int>)

  datatype Character = Character(id: nat, userId: nat, nickname: string, isMain: bool)

  datatype QueueType = QueueType(
    id: nat,
    name: string,
    description: string,
    isActive: bool,
    isLocked: bool)

  datatype QueueEntry = QueueEntry(id: nat, userId: nat, queueId: nat, characterName: string)

  datatype RewardHistory = RewardHistory(
    id: nat,
    userId: nat,
    characterName: string,
    queueName: string,
    issuedBy: Option<string>)

  /** The four values the bot ever stores in `schedule_type`. */
  datatype ScheduleType = Daily | Weekly | OnceFuture | OnceNow

  datatype Announcement = Announcement(
    id: nat,
    text: string,
    scheduleType: ScheduleType,
    runTime: string,
    daysOfWeek: Option<string>,
    isActive: bool)

  /** What the main-character dialogue remembers between the proposal and the
      confirmation: the proposed nickname and the main it replaces. */
  datatype PendingMain = PendingMain(newNick: string, oldNick: string)

  function UserKey(u: User): nat { u.id }
  function CharKey(c: Character): nat { c.id }
  function QueueKey(q: QueueType): nat { q.id }
  function EntryKey(e: QueueEntry): nat { e.id }
  function HistoryKey(h: RewardHistory): nat { h.id }
  function AnnKey(a: Announcement): nat { a.id }

  const DefaultLimitKey: string := "default_limit"
  const DefaultDescription: string := "Стандартные условия"

  /** The queues `init_db` seeds. */
  const Catalog: seq<string> := [
    "Камень доблести", "Метеориты", "Жемчужины Фу Си", "Опыт в диск",
    "Проходки в УФ", "Знаки Единства", "Колода карт", "Сущность карты",
    "Камень божества", "Камни бессмертных", "Цилинь"
  ]

  /** A snapshot of everything the session holds. `pendingMain` is the
      conversation state of the main-character dialogue, keyed by user id;
      `nextId` is the next primary key to hand out. */
  datatype Tables = Tables(
    users: seq<User>,
    chars: seq<Character>,
    queues: seq<QueueType>,
    entries: seq<QueueEntry>,
    settings: map<string, string>,
    history: seq<RewardHistory>,
    anns: seq<Announcement>,
    pendingMain: map<nat, PendingMain>,
    nextId: nat)

  // --------------------------------------------------------------- queries

  function UserIds(users: seq<User>): set<nat> { set u | u in users :: u.id }
  function QueueIds(queues: seq<QueueType>): set<nat> { set q | q in queues :: q.id }

  /** The user with this Telegram id (`filter_by(telegram_id=...).first()`). */
  function UserByTelegram(users: seq<User>, tg: int): (r: Option<nat>)
    ensures r.Some? ==> r.value < |users| && users[r.value].telegramId == tg
    ensures r.Some? ==> forall j :: 0 <= j < r.value ==> !(users[j].telegramId == tg)
    ensures r.None? <==> forall j :: 0 <= j < |users| ==> !(users[j].telegramId == tg)
  {
    FindFirst(users, (x: User) => x.telegramId == tg)
  }

  /** `session.get(User, uid)`. */
  function UserById(users: seq<User>, uid: nat): (r: Option<nat>)
    ensures r.Some? ==> r.value < |users| && users[r.value].id == uid
    ensures r.Some? ==> forall j :: 0 <= j < r.value ==> !(users[j].id == uid)
    ensures r.None? <==> forall j :: 0 <= j < |users| ==> !(users[j].id == uid)
  {
    FindFirst(users, (x: User) => x.id == uid)
  }

  /** `session.get(QueueType, qid)`. */
  function QueueById(queues: seq<QueueType>, qid: nat): (r: Option<nat>)
    ensures r.Some? ==> r.value < |queues| && queues[r.value].id == qid
    ensures r.Some? ==> forall j :: 0 <= j < r.value ==> !(queues[j].id == qid)
    ensures r.None? <==> forall j :: 0 <= j < |queues| ==> !(queues[j].id == qid)
  {
    FindFirst(queues, (x: QueueType) => x.id == qid)
  }

  /** The queue with this name (`filter_by(name=...).first()`). */
  function QueueByName(queues: seq<QueueType>, name: string): (r: Option<nat>)
    ensures r.Some? ==> r.value < |queues| && queues[r.value].name == name
    ensures r.Some? ==> forall j :: 0 <= j < r.value ==> !(queues[j].name == name)
    ensures r.None? <==> forall j :: 0 <= j < |queues| ==> !(queues[j].name == name)
  {
    FindFirst(queues, (x: QueueType) => x.name == name)
  }

  /** `session.get(Character, cid)`. */
  function CharById(chars: seq<Character>, cid: nat): (r: Option<nat>)
    ensures r.Some? ==> r.value < |chars| && chars[r.value].id == cid
    ensures r.Some? ==> forall j :: 0 <= j < r.value ==> !(chars[j].id == cid)
    ensures r.None? <==> forall j :: 0 <= j < |chars| ==> !(chars[j].id == cid)
  {
    FindFirst(chars, (x: Character) => x.id == cid)
  }

  /** The first character with this nickname, whoever owns it. */
  function CharByNick(chars: seq<Character>, nick: string): (r: Option<nat>)
    ensures r.Some? ==> r.value < |chars| && chars[r.value].nickname == nick
    ensures r.Some? ==> forall j :: 0 <= j < r.value ==> !(chars[j].nickname == nick)
    ensures r.None? <==> forall j :: 0 <= j < |chars| ==> !(chars[j].nickname == nick)
  {
    FindFirst(chars, (x: Character) => x.nickname == nick)
  }

  /** `session.get(QueueEntry, eid)`. */
  function EntryById(entries: seq<QueueEntry>, eid: nat): (r: Option<nat>)
    ensures r.Some? ==> r.value < |entries| && entries[r.value].id == eid
    ensures r.Some? ==> forall j :: 0 <= j < r.value ==> !(entries[j].id == eid)
    ensures r.None? <==> forall j :: 0 <= j < |entries| ==> !(entries[j].id == eid)
  {
    FindFirst(entries, (x: QueueEntry) => x.id == eid)
  }

  /** `session.get(ScheduledAnnouncement, aid)`. */
  function AnnById(anns: seq<Announcement>, aid: nat): (r: Option<nat>)
    ensures r.Some? ==> r.value < |anns| && anns[r.value].id == aid
    ensures r.Some? ==> forall j :: 0 <= j < r.value ==> !(anns[j].id == aid)
    ensures r.None? <==> forall j :: 0 <= j < |anns| ==> !(anns[j].id == aid)
  {
    FindFirst(anns, (x: Announcement) => x.id == aid)
  }

  /** A user's character with this nickname, first match. */
  function OwnChar(chars: seq<Character>, uid: nat, nick: string): (r: Option<nat>)
    ensures r.Some? ==> r.value < |chars| && chars[r.value].userId == uid && chars[r.value].nickname == nick
    ensures r.Some? ==> forall j :: 0 <= j < r.value ==> !(chars[j].userId == uid && chars[j].nickname == nick)
    ensures r.None? <==> forall j :: 0 <= j < |chars| ==> !(chars[j].userId == uid && chars[j].nickname == nick)
  {
    FindFirst(chars, (x: Character) => x.userId == uid && x.nickname == nick)
  }

  /** A user's main character (`filter_by(user_id=..., is_main=True).first()`). */
  function MainIndex(chars: seq<Character>, uid: nat): (r: Option<nat>)
    ensures r.Some? ==> r.value < |chars| && chars[r.value].userId == uid && chars[r.value].isMain
    ensures r.Some? ==> forall j :: 0 <= j < r.value ==> !(chars[j].userId == uid && chars[j].isMain)
    ensures r.None? <==> forall j :: 0 <= j < |chars| ==> !(chars[j].userId == uid && chars[j].isMain)
  {
    FindFirst(chars, (x: Character) => x.userId == uid && x.isMain)
  }

  function MainNick(chars: seq<Character>, uid: nat): Option<string>
  {
    match MainIndex(chars, uid)
    case None => None
    case Some(m) => Some(chars[m].nickname)
  }

  /** A user's entry in a queue, first match. */
  function EntryFor(entries: seq<QueueEntry>, uid: nat, qid: nat): (r: Option<nat>)
    ensures r.Some? ==> r.value < |entries| && entries[r.value].userId == uid && entries[r.value].queueId == qid
    ensures r.Some? ==> forall j :: 0 <= j < r.value ==> !(entries[j].userId == uid && entries[j].queueId == qid)
    ensures r.None? <==> forall j :: 0 <= j < |entries| ==> !(entries[j].userId == uid && entries[j].queueId == qid)
  {
    FindFirst(entries, (x: QueueEntry) => x.userId == uid && x.queueId == qid)
  }

  /** All entries of a user, across every queue. */
  function EntriesOf(entries: seq<QueueEntry>, uid: nat): seq<QueueEntry>
  {
    Keep(entries, (e: QueueEntry) => e.userId == uid)
  }

  /** A table holding nothing of a user yields no entries for them. */
  lemma {:induction false} EntriesOfNone(s: seq<QueueEntry>, uid: nat)
    requires forall i :: 0 <= i < |s| ==> s[i].userId != uid
    ensures EntriesOf(s, uid) == []
  {
    if s != [] {
      EntriesOfNone(s[1..], uid);
    }
  }

  /** All entries recorded under a nickname, whoever owns them. */
  function EntriesNamed(entries: seq<QueueEntry>, nick: string): seq<QueueEntry>
  {
    Keep(entries, (e: QueueEntry) => e.characterName == nick)
  }

  // ------------------------------------------------------------ invariant

  ghost predicate UsersOk(users: seq<User>, bound: nat)
  {
    && KeyedBelow(users, UserKey, bound)
    && (forall i, j :: 0 <= i < j < |users| ==> users[i].telegramId != users[j].telegramId)
    && (forall i :: 0 <= i < |users| && users[i].personalLimit.Some? ==> users[i].personalLimit.value >= 1)
  }

  /** A user's nicknames are distinct, and a user has at most one main. */
  ghost predicate CharsOk(chars: seq<Character>, userIds: set<nat>, bound: nat)
  {
    && KeyedBelow(chars, CharKey, bound)
    && (forall i :: 0 <= i < |chars| ==> chars[i].userId in userIds)
    && (forall i, j :: 0 <= i < j < |chars| && chars[i].userId == chars[j].userId ==>
          chars[i].nickname != chars[j].nickname)
    && (forall i, j :: 0 <= i < j < |chars| && chars[i].userId == chars[j].userId ==>
          !(chars[i].isMain && chars[j].isMain))
  }

  ghost predicate EntriesOk(entries: seq<QueueEntry>, userIds: set<nat>, queueIds: set<nat>, bound: nat)
  {
    && KeyedBelow(entries, EntryKey, bound)
    && (forall i :: 0 <= i < |entries| ==> entries[i].userId in userIds && entries[i].queueId in queueIds)
  }

  /** `default_limit`, when present, is the decimal form of a positive number. */
  ghost predicate SettingsOk(settings: map<string, string>)
  {
    DefaultLimitKey in settings ==>
      ParseInt(settings[DefaultLimitKey]).Some? && ParseInt(settings[DefaultLimitKey]).value >= 1
  }

  /** A pending main change replaces the user's current main, or the user has
      lost their main since it was proposed. */
  ghost predicate PendingOk(pending: map<nat, PendingMain>, userIds: set<nat>, chars: seq<Character>)
  {
    forall uid :: uid in pending ==>
      && uid in userIds
      && pending[uid].newNick != pending[uid].oldNick
      && (MainNick(chars, uid).None? || MainNick(chars, uid) == Some(pending[uid].oldNick))
  }

  ghost predicate Ok(t: Tables)
  {
    && UsersOk(t.users, t.nextId)
    && CharsOk(t.chars, UserIds(t.users), t.nextId)
    && KeyedBelow(t.queues, QueueKey, t.nextId)
    && EntriesOk(t.entries, UserIds(t.users), QueueIds(t.queues), t.nextId)
    && SettingsOk(t.settings)
    && KeyedBelow(t.history, HistoryKey, t.nextId)
    && KeyedBelow(t.anns, AnnKey, t.nextId)
    && PendingOk(t.pendingMain, UserIds(t.users), t.chars)
  }

  /** Under the invariant a user's main, when there is one, is unique. */
  lemma MainIsUnique(chars: seq<Character>, userIds: set<nat>, bound: nat, uid: nat, i: nat)
    requires CharsOk(chars, userIds, bound)
    requires i < |chars| && chars[i].userId == uid && chars[i].isMain
    ensures MainIndex(chars, uid) == Some(i)
  {
  }

  /** The first main of a user is found where it is. */
  lemma MainIndexAt(chars: seq<Character>, uid: nat, k: nat)
    requires k < |chars| && chars[k].userId == uid && chars[k].isMain
    requires forall j :: 0 <= j < k ==> !(chars[j].userId == uid && chars[j].isMain)
    ensures MainIndex(chars, uid) == Some(k)
  {
    var v := MainIndex(chars, uid);
    assert v.Some?;
    assert v.value <= k;
  }

  // ------------------------------------------- edits that keep the invariant

  /** Two entry tables that agree, row by row, on key, user and queue. */
  ghost predicate SameRefs(s: seq<QueueEntry>, s': seq<QueueEntry>)
  {
    |s| == |s'| && forall i :: 0 <= i < |s| ==>
      s[i].id == s'[i].id && s[i].userId == s'[i].userId && s[i].queueId == s'[i].queueId
  }

  lemma EntriesOkSameRefs(s: seq<QueueEntry>, s': seq<QueueEntry>, ids: set<nat>, qids: set<nat>, bound: nat)
    requires EntriesOk(s, ids, qids, bound) && SameRefs(s, s')
    ensures EntriesOk(s', ids, qids, bound)
  {
    assert SameKeys(s, s', EntryKey);
    KeyedSameKeys(s, s', EntryKey, bound);
  }

  lemma EntriesOkKeep(s: seq<QueueEntry>, ids: set<nat>, qids: set<nat>, bound: nat, p: QueueEntry -> bool)
    requires EntriesOk(s, ids, qids, bound)
    ensures EntriesOk(Keep(s, p), ids, qids, bound)
  {
    KeyedKeep(s, EntryKey, bound, p);
    var r := Keep(s, p);
    forall i | 0 <= i < |r| ensures r[i].userId in ids && r[i].queueId in qids {
      var k :| 0 <= k < |s| && s[k] == r[i];
    }
  }

  lemma EntriesOkRemoveAt(s: seq<QueueEntry>, ids: set<nat>, qids: set<nat>, bound: nat, i: nat)
    requires EntriesOk(s, ids, qids, bound) && i < |s|
    ensures EntriesOk(RemoveAt(s, i), ids, qids, bound)
  {
    KeyedRemoveAt(s, EntryKey, bound, i);
  }

  /** Replacing the entry table by one that satisfies the entry invariant keeps the whole invariant. */
  lemma OkWithEntries(t: Tables, entries: seq<QueueEntry>)
    requires Ok(t) && EntriesOk(entries, UserIds(t.users), QueueIds(t.queues), t.nextId)
    ensures Ok(t.(entries := entries))
  {
  }

  /** Appending an entry with the next key, for an existing user and queue, keeps the invariant. */
  lemma OkAppendEntry(t: Tables, e: QueueEntry)
    requires Ok(t) && e.id == t.nextId && e.userId in UserIds(t.users) && e.queueId in QueueIds(t.queues)
    ensures Ok(t.(entries := t.entries + [e], nextId := t.nextId + 1))
  {
    var t' := t.(entries := t.entries + [e], nextId := t.nextId + 1);
    KeyedAppend(t.entries, EntryKey, t.nextId, e);
    CharsOkWiden(t.chars, UserIds(t.users), UserIds(t.users), t.nextId, t'.nextId);
    KeyedGrow(t.users, UserKey, t.nextId, t'.nextId);
    KeyedGrow(t.queues, QueueKey, t.nextId, t'.nextId);
    KeyedGrow(t.history, HistoryKey, t.nextId, t'.nextId);
    KeyedGrow(t.anns, AnnKey, t.nextId, t'.nextId);
  }

  /** A user's main is unaffected by an edit that leaves that user's characters
      at their positions and adds none of theirs as main. */
  lemma MainNickFrame(chars: seq<Character>, chars': seq<Character>, uid: nat)
    requires |chars| <= |chars'|
    requires forall k :: 0 <= k < |chars| && (chars[k].userId == uid || chars'[k].userId == uid) ==>
      chars'[k] == chars[k]
    requires forall k :: |chars| <= k < |chars'| ==> !(chars'[k].userId == uid && chars'[k].isMain)
    ensures MainNick(chars', uid) == MainNick(chars, uid)
  {
    match MainIndex(chars, uid)
    case Some(m) =>
      assert MainIndex(chars', uid) == Some(m);
    case None =>
      assert MainIndex(chars', uid).None?;
  }

  /** Deleting a user's main leaves that user without one. */
  lemma MainNickRemoveMain(chars: seq<Character>, ids: set<nat>, bound: nat, i: nat)
    requires CharsOk(chars, ids, bound) && i < |chars| && chars[i].isMain
    ensures MainNick(RemoveAt(chars, i), chars[i].userId).None?
  {
    var r := RemoveAt(chars, i);
    var uid := chars[i].userId;
    forall k | 0 <= k < |r| ensures !(r[k].userId == uid && r[k].isMain) {
      if k < i {
        assert r[k] == chars[k];
      } else {
        assert r[k] == chars[k + 1];
      }
    }
  }

  /** Deleting anything other than a user's main leaves that user's main as it was. */
  lemma MainNickRemoveOther(chars: seq<Character>, i: nat, uid: nat)
    requires i < |chars| && !(chars[i].userId == uid && chars[i].isMain)
    ensures MainNick(RemoveAt(chars, i), uid) == MainNick(chars, uid)
  {
    match MainIndex(chars, uid)
    case Some(m) => MainIndexRemoveBefore(chars, i, uid, m);
    case None => MainIndexRemoveNone(chars, i, uid);
  }

  /** Removing another row moves the first main down by one when it lay past it. */
  lemma MainIndexRemoveBefore(chars: seq<Character>, i: nat, uid: nat, m: nat)
    requires i < |chars| && !(chars[i].userId == uid && chars[i].isMain)
    requires MainIndex(chars, uid) == Some(m)
    ensures MainIndex(RemoveAt(chars, i), uid) == Some(if m < i then m else m - 1)
  {
    var r := RemoveAt(chars, i);
    var m' := if m < i then m else m - 1;
    assert r[m'] == chars[m];
    forall k | 0 <= k < m' ensures !(r[k].userId == uid && r[k].isMain) {
      if k < i {
        assert r[k] == chars[k];
      } else {
        assert r[k] == chars[k + 1];
      }
    }
    MainIndexAt(r, uid, m');
  }

  /** Removing a row cannot create a main. */
  lemma MainIndexRemoveNone(chars: seq<Character>, i: nat, uid: nat)
    requires i < |chars| && MainIndex(chars, uid).None?
    ensures MainIndex(RemoveAt(chars, i), uid).None?
  {
    var r := RemoveAt(chars, i);
    forall k | 0 <= k < |r| ensures !(r[k].userId == uid && r[k].isMain) {
      if k < i {
        assert r[k] == chars[k];
      } else {
        assert r[k] == chars[k + 1];
      }
    }
  }


  lemma CharsOkRemoveAt(chars: seq<Character>, ids: set<nat>, bound: nat, i: nat)
    requires CharsOk(chars, ids, bound) && i < |chars|
    ensures CharsOk(RemoveAt(chars, i), ids, bound)
  {
    KeyedRemoveAt(chars, CharKey, bound, i);
    var r := RemoveAt(chars, i);
    forall a, b | 0 <= a < b < |r| && r[a].userId == r[b].userId
      ensures r[a].nickname != r[b].nickname && !(r[a].isMain && r[b].isMain)
    {
      var a' := if a < i then a else a + 1;
      var b' := if b < i then b else b + 1;
      assert r[a] == chars[a'] && r[b] == chars[b'];
    }
  }

  /** Deleting a character together with a new entry table keeps the invariant. */
  lemma OkRemoveChar(t: Tables, i: nat, entries: seq<QueueEntry>)
    requires Ok(t) && i < |t.chars|
    requires EntriesOk(entries, UserIds(t.users), QueueIds(t.queues), t.nextId)
    ensures Ok(t.(chars := RemoveAt(t.chars, i), entries := entries))
  {
    CharsOkRemoveAt(t.chars, UserIds(t.users), t.nextId, i);
    forall uid | uid in t.pendingMain
      ensures MainNick(RemoveAt(t.chars, i), uid).None? ||
              MainNick(RemoveAt(t.chars, i), uid) == Some(t.pendingMain[uid].oldNick)
    {
      if t.chars[i].userId == uid && t.chars[i].isMain {
        MainNickRemoveMain(t.chars, UserIds(t.users), t.nextId, i);
      } else {
        MainNickRemoveOther(t.chars, i, uid);
      }
    }
  }

  // ----------------------------------------------------------- the session

  /** The global SQLAlchemy session with the tables behind it. */
  class Store {
    var users: seq<User>
    var chars: seq<Character>
    var queues: seq<QueueType>
    var entries: seq<QueueEntry>
    var settings: map<string, string>
    var history: seq<RewardHistory>
    var anns: seq<Announcement>
    var pendingMain: map<nat, PendingMain>
    var nextId: nat

    function State(): Tables
      reads this
    {
      Tables(users, chars, queues, entries, settings, history, anns, pendingMain, nextId)
    }

    ghost predicate Valid()
      reads this
    {
      Ok(State())
    }

    /** A freshly created, empty database (`Base.metadata.create_all`). */
    constructor ()
      ensures Valid()
      ensures State() == Tables([], [], [], [], map[], [], [], map[], 0)
    {
      users, chars, queues, entries := [], [], [], [];
      settings, history, anns, pendingMain, nextId := map[], [], [], map[], 0;
    }
  }

  // ----------------------------------------------------------- ensure_user

  /** `ensure_user`: the new snapshot and the user's id. The very first user
      ever created becomes a master. */
  function EnsureUserStep(t: Tables, tg: int, username: Option<string>): (Tables, nat)
  {
    match UserByTelegram(t.users, tg)
    case Some(i) => (t, t.users[i].id)
    case None =>
      var u := User(t.nextId, tg, username, |t.users| == 0, false, None);
      (t.(users := t.users + [u], nextId := t.nextId + 1), t.nextId)
  }

  /** A known Telegram id yields that user and changes nothing. */
  lemma EnsureKnownUser(t: Tables, tg: int, username: Option<string>, i: nat)
    requires Ok(t)
    requires i < |t.users| && t.users[i].telegramId == tg
    ensures EnsureUserStep(t, tg, username) == (t, t.users[i].id)
  {
  }

  /** An unknown Telegram id yields one new row, a master iff the table was empty. */
  lemma EnsureNewUser(t: Tables, tg: int, username: Option<string>)
    requires forall i :: 0 <= i < |t.users| ==> t.users[i].telegramId != tg
    ensures var (t', uid) := EnsureUserStep(t, tg, username);
      && t'.users == t.users + [User(uid, tg, username, t.users == [], false, None)]
      && t' == t.(users := t'.users, nextId := t.nextId + 1)
      && uid == t.nextId
  {
  }

  lemma UserIdsAppend(users: seq<User>, u: User)
    ensures UserIds(users + [u]) == UserIds(users) + {u.id}
  {
    assert forall x :: x in users + [u] <==> x in users || x == u;
  }

  lemma CharsOkWiden(chars: seq<Character>, ids: set<nat>, ids': set<nat>, bound: nat, bound': nat)
    requires CharsOk(chars, ids, bound) && ids <= ids' && bound <= bound'
    ensures CharsOk(chars, ids', bound')
  {
  }

  lemma EntriesOkWiden(entries: seq<QueueEntry>, ids: set<nat>, qids: set<nat>, ids': set<nat>, qids': set<nat>, bound: nat, bound': nat)
    requires EntriesOk(entries, ids, qids, bound) && ids <= ids' && qids <= qids' && bound <= bound'
    ensures EntriesOk(entries, ids', qids', bound')
  {
  }

  /** Adding a user with a fresh key and an unused Telegram id keeps the invariant. */
  lemma OkAfterNewUser(t: Tables, u: User)
    requires Ok(t)
    requires u.id == t.nextId && u.personalLimit.None?
    requires forall i :: 0 <= i < |t.users| ==> t.users[i].telegramId != u.telegramId
    ensures Ok(t.(users := t.users + [u], nextId := t.nextId + 1))
  {
    var t' := t.(users := t.users + [u], nextId := t.nextId + 1);
    UserIdsAppend(t.users, u);
    KeyedAppend(t.users, UserKey, t.nextId, u);
    assert UsersOk(t'.users, t'.nextId);
    CharsOkWiden(t.chars, UserIds(t.users), UserIds(t'.users), t.nextId, t'.nextId);
    EntriesOkWiden(t.entries, UserIds(t.users), QueueIds(t.queues), UserIds(t'.users), QueueIds(t.queues), t.nextId, t'.nextId);
    KeyedGrow(t.queues, QueueKey, t.nextId, t'.nextId);
    KeyedGrow(t.history, HistoryKey, t.nextId, t'.nextId);
    KeyedGrow(t.anns, AnnKey, t.nextId, t'.nextId);
  }

  /** The id handed back always names the user row found by that Telegram id;
      earlier rows stay, and nothing but the user table and the key counter
      changes. */
  lemma EnsureUserRows(t: Tables, tg: int, username: Option<string>)
    ensures var (t', uid) := EnsureUserStep(t, tg, username);
      && uid in UserIds(t'.users)
      && UserByTelegram(t'.users, tg).Some?
      && t'.users[UserByTelegram(t'.users, tg).value].id == uid
      && |t'.users| >= |t.users| && t'.users[..|t.users|] == t.users
      && t' == t.(users := t'.users, nextId := t'.nextId)
  {
    var (t', uid) := EnsureUserStep(t, tg, username);
    match UserByTelegram(t.users, tg)
    case Some(i) =>
      assert t.users[i] in t.users;
      assert t.users[..|t.users|] == t.users;
    case None =>
      var u := User(t.nextId, tg, username, |t.users| == 0, false, None);
      assert t'.users == t.users + [u];
      assert t'.users[|t.users|] == u;
      assert t'.users[..|t.users|] == t.users;
      assert UserByTelegram(t'.users, tg) == Some(|t.users|);
  }

  /** The same facts, and the invariant is kept. */
  lemma EnsureUserOk(t: Tables, tg: int, username: Option<string>)
    requires Ok(t)
    ensures var (t', uid) := EnsureUserStep(t, tg, username);
      && Ok(t')
      && uid in UserIds(t'.users)
      && UserByTelegram(t'.users, tg).Some?
      && t'.users[UserByTelegram(t'.users, tg).value].id == uid
      && |t'.users| >= |t.users| && t'.users[..|t.users|] == t.users
      && t' == t.(users := t'.users, nextId := t'.nextId)
  {
    EnsureUserRows(t, tg, username);
    EnsureUserKeepsOk(t, tg, username);
  }

  /** `ensure_user` keeps the invariant. */
  lemma EnsureUserKeepsOk(t: Tables, tg: int, username: Option<string>)
    requires Ok(t)
    ensures Ok(EnsureUserStep(t, tg, username).0)
  {
    match UserByTelegram(t.users, tg)
    case Some(i) =>
    case None =>
      var u := User(t.nextId, tg, username, |t.users| == 0, false, None);
      OkAfterNewUser(t, u);
      assert EnsureUserStep(t, tg, username).0 == t.(users := t.users + [u], nextId := t.nextId + 1);
  }

  /** Deleting a character and then recording the caller keeps the invariant. */
  lemma RemoveCharThenEnsureOk(t: Tables, i: nat, tg: int, username: Option<string>)
    requires Ok(t) && i < |t.chars|
    ensures Ok(EnsureUserStep(t.(chars := RemoveAt(t.chars, i)), tg, username).0)
  {
    var t0 := t.(chars := RemoveAt(t.chars, i));
    assert Ok(t0) by {
      OkRemoveChar(t, i, t.entries);
      assert t0 == t.(chars := RemoveAt(t.chars, i), entries := t.entries);
    }
    EnsureUserKeepsOk(t0, tg, username);
  }

  /** `ensure_user` is idempotent: a second call with the same Telegram id
      creates no row and returns the same id. */
  lemma EnsureUserIdempotent(t: Tables, tg: int, name1: Option<string>, name2: Option<string>)
    requires Ok(t)
    ensures var (t1, uid1) := EnsureUserStep(t, tg, name1);
      EnsureUserStep(t1, tg, name2) == (t1, uid1)
  {
    EnsureUserOk(t, tg, name1);
    var (t1, uid1) := EnsureUserStep(t, tg, name1);
    var i := UserByTelegram(t1.users, tg).value;
    EnsureKnownUser(t1, tg, name2, i);
  }

  method EnsureUser(db: Store, tg: int, username: Option<string>) returns (uid: nat)
    requires db.Valid()
    modifies db
    ensures db.Valid()
    ensures (db.State(), uid) == EnsureUserStep(old(db.State()), tg, username)
  {
    ghost var t := db.State();
    var found := UserByTelegram(db.users, tg);
    if found.Some? {
      uid := db.users[found.value].id;
    } else {
      var isFirst := |db.users| == 0;
      uid := db.nextId;
      db.users := db.users + [User(uid, tg, username, isFirst, false, None)];
      db.nextId := db.nextId + 1;
    }
    EnsureUserValid(db, t, tg, username);
  }

  lemma EnsureUserValid(db: Store, t: Tables, tg: int, username: Option<string>)
    requires Ok(t) && db.State() == EnsureUserStep(t, tg, username).0
    ensures db.Valid()
  {
    EnsureUserOk(t, tg, username);
  }

  // --------------------------------------------------------- limit resolver

  /** `get_effective_limit_logic`: the personal override, else `int()` of the
      `default_limit` setting, else 1. `None` is the `ValueError` that `int()`
      raises on a value that is not a number. */
  function EffectiveLimit(u: User, settings: map<string, string>): (r: Option<int>)
    ensures u.personalLimit.Some? ==> r == u.personalLimit
    ensures u.personalLimit.None? && DefaultLimitKey !in settings ==> r == Some(1)
  {
    if u.personalLimit.Some? then u.personalLimit
    else if DefaultLimitKey in settings then
      ParseInt(settings[DefaultLimitKey])
    else Some(1)
  }

  /** Under the invariant the resolver never raises and is at least 1. */
  lemma EffectiveLimitPositive(t: Tables, i: nat)
    requires Ok(t) && i < |t.users|
    ensures EffectiveLimit(t.users[i], t.settings).Some?
    ensures EffectiveLimit(t.users[i], t.settings).value >= 1
  {
  }

  /** Storing `str(v)` as the default gives every user without an override the
      limit `v`. */
  lemma GlobalLimitRoundTrip(u: User, settings: map<string, string>, v: nat)
    requires u.personalLimit.None?
    ensures EffectiveLimit(u, settings[DefaultLimitKey := ShowNat(v)]) == Some(v)
  {
    ParseIntShowNat(v);
  }

  // ---------------------------------------------------------------- init_db

  /** One round of the seeding loop: add the queue unless one with that name exists. */
  function SeedOne(queues: seq<QueueType>, next: nat, name: string): (seq<QueueType>, nat)
  {
    if QueueByName(queues, name).Some? then (queues, next)
    else (queues + [QueueType(next, name, DefaultDescription, true, false)], next + 1)
  }

  /** The seeding loop over `names`, in order. */
  function SeedQueues(queues: seq<QueueType>, next: nat, names: seq<string>): (seq<QueueType>, nat)
  {
    if names == [] then (queues, next)
    else
      var (qs, n) := SeedQueues(queues, next, names[..|names| - 1]);
      SeedOne(qs, n, names[|names| - 1])
  }

  function QueueNames(queues: seq<QueueType>): seq<string>
  {
    seq(|queues|, i requires 0 <= i < |queues| => queues[i].name)
  }

  /** Seeding keeps every existing queue as it was, adds only active, unlocked
      queues named in `names`, and keeps the key ordering. */
  lemma {:induction false} SeedQueuesKeeps(queues: seq<QueueType>, next: nat, names: seq<string>)
    requires KeyedBelow(queues, QueueKey, next)
    ensures var (qs, n) := SeedQueues(queues, next, names);
      && n >= next
      && KeyedBelow(qs, QueueKey, n)
      && |qs| >= |queues| && qs[..|queues|] == queues
      && (forall i :: |queues| <= i < |qs| ==> qs[i].name in names && qs[i].isActive && !qs[i].isLocked)
  {
    if names != [] {
      var init := names[..|names| - 1];
      SeedQueuesKeeps(queues, next, init);
      var (qs, n) := SeedQueues(queues, next, init);
      var name := names[|names| - 1];
      if QueueByName(qs, name).None? {
        var q := QueueType(n, name, DefaultDescription, true, false);
        KeyedAppend(qs, QueueKey, n, q);
        assert (qs + [q])[..|queues|] == qs[..|queues|];
        forall i | |queues| <= i < |qs| + 1
          ensures (qs + [q])[i].name in names
        {
          if i < |qs| {
            assert qs[i].name in init;
          }
        }
      } else {
        forall i | |queues| <= i < |qs| ensures qs[i].name in names {
          assert qs[i].name in init;
        }
      }
    }
  }

  /** After seeding every name of `names` is present. */
  lemma {:induction false} SeedQueuesCovers(queues: seq<QueueType>, next: nat, names: seq<string>)
    ensures forall k :: 0 <= k < |names| ==> names[k] in QueueNames(SeedQueues(queues, next, names).0)
  {
    if names != [] {
      var init := names[..|names| - 1];
      SeedQueuesCovers(queues, next, init);
      var (qs, n) := SeedQueues(queues, next, init);
      var name := names[|names| - 1];
      var qs' := SeedOne(qs, n, name).0;
      assert forall k :: 0 <= k < |qs| ==> QueueNames(qs')[k] == QueueNames(qs)[k];
      assert name in QueueNames(qs') by {
        match QueueByName(qs, name)
        case Some(j) =>
          assert QueueNames(qs')[j] == name;
        case None =>
          assert QueueNames(qs')[|qs|] == name;
      }
      forall k | 0 <= k < |names| - 1 ensures names[k] in QueueNames(qs') {
        assert names[k] == init[k];
        var m :| 0 <= m < |qs| && QueueNames(qs)[m] == names[k];
        assert QueueNames(qs')[m] == names[k];
      }
    }
  }

  /** When every name is already present, seeding adds nothing. */
  lemma {:induction false} SeedQueuesNoop(queues: seq<QueueType>, next: nat, names: seq<string>)
    requires forall k :: 0 <= k < |names| ==> names[k] in QueueNames(queues)
    ensures SeedQueues(queues, next, names) == (queues, next)
  {
    if names != [] {
      SeedQueuesNoop(queues, next, names[..|names| - 1]);
      var name := names[|names| - 1];
      assert name in QueueNames(queues);
      var m :| 0 <= m < |queues| && QueueNames(queues)[m] == name;
      assert queues[m].name == name;
      assert QueueByName(queues, name).Some?;
    }
  }

  /** Running `init_db` twice seeds nothing the second time. */
  lemma SeedTwice(queues: seq<QueueType>, next: nat)
    requires KeyedBelow(queues, QueueKey, next)
    ensures var (qs, n) := SeedQueues(queues, next, Catalog);
      SeedQueues(qs, n, Catalog) == (qs, n)
  {
    SeedQueuesCovers(queues, next, Catalog);
    var (qs, n) := SeedQueues(queues, next, Catalog);
    SeedQueuesNoop(qs, n, Catalog);
  }

  /** The settings after `init_db`: `default_limit` is "1" unless already present. */
  function SeedSettings(settings: map<string, string>): map<string, string>
  {
    if DefaultLimitKey in settings then settings else settings[DefaultLimitKey := "1"]
  }

  lemma SeedSettingsSpec(settings: map<string, string>)
    ensures DefaultLimitKey in settings ==> SeedSettings(settings) == settings
    ensures DefaultLimitKey !in settings ==> SeedSettings(settings)[DefaultLimitKey] == "1"
    ensures SettingsOk(settings) ==> SettingsOk(SeedSettings(settings))
  {
    assert ParseInt("1") == Some(1) by { ParseIntShowNat(1); assert ShowNat(1) == "1"; }
  }

  ghost predicate Distinct(names: seq<string>)
  {
    forall i, j :: 0 <= i < j < |names| ==> names[i] != names[j]
  }

  /** Seeding distinct names none of which is present appends one queue per name, in order. */
  lemma {:induction false} SeedQueuesFreshNames(queues: seq<QueueType>, next: nat, names: seq<string>)
    requires Distinct(names)
    requires forall k :: 0 <= k < |names| ==> names[k] !in QueueNames(queues)
    ensures QueueNames(SeedQueues(queues, next, names).0) == QueueNames(queues) + names
  {
    if names != [] {
      var init := names[..|names| - 1];
      var name := names[|names| - 1];
      assert forall k :: 0 <= k < |init| ==> init[k] == names[k];
      SeedQueuesFreshNames(queues, next, init);
      var (qs, n) := SeedQueues(queues, next, init);
      assert QueueNames(qs) == QueueNames(queues) + init;
      assert name !in QueueNames(qs) by {
        assert name !in init;
      }
      assert QueueByName(qs, name).None? by {
        forall i | 0 <= i < |qs| ensures qs[i].name != name {
          assert QueueNames(qs)[i] == qs[i].name;
        }
      }
      var qs' := SeedOne(qs, n, name).0;
      assert qs' == qs + [QueueType(n, name, DefaultDescription, true, false)];
      assert QueueNames(qs') == QueueNames(qs) + [name];
      assert names == init + [name];
    }
  }

  /** On a fresh database `init_db` leaves exactly the catalog, in order. */
  lemma SeedFresh(next: nat)
    ensures QueueNames(SeedQueues([], next, Catalog).0) == Catalog
  {
    SeedQueuesFreshNames([], next, Catalog);
  }

  /** Seeding the catalog keeps the invariant. */
  lemma SeedOk(t: Tables, names: seq<string>)
    requires Ok(t)
    ensures var (qs, n) := SeedQueues(t.queues, t.nextId, names);
      Ok(t.(queues := qs, nextId := n))
  {
    var (qs, n) := SeedQueues(t.queues, t.nextId, names);
    SeedQueuesKeeps(t.queues, t.nextId, names);
    assert QueueIds(t.queues) <= QueueIds(qs) by {
      forall x | x in QueueIds(t.queues) ensures x in QueueIds(qs) {
        var q :| q in t.queues && q.id == x;
        var k :| 0 <= k < |t.queues| && t.queues[k] == q;
        assert qs[k] == q;
      }
    }
    CharsOkWiden(t.chars, UserIds(t.users), UserIds(t.users), t.nextId, n);
    EntriesOkWiden(t.entries, UserIds(t.users), QueueIds(t.queues), UserIds(t.users), QueueIds(qs), t.nextId, n);
    KeyedGrow(t.users, UserKey, t.nextId, n);
    KeyedGrow(t.history, HistoryKey, t.nextId, n);
    KeyedGrow(t.anns, AnnKey, t.nextId, n);
  }

  /** `init_db` keeps the invariant. */
  lemma InitDbOk(t: Tables, names: seq<string>)
    requires Ok(t)
    ensures var (qs, n) := SeedQueues(t.queues, t.nextId, names);
      Ok(t.(queues := qs, nextId := n, settings := SeedSettings(t.settings)))
  {
    var (qs, n) := SeedQueues(t.queues, t.nextId, names);
    SeedOk(t, names);
    SeedSettingsSpec(t.settings);
    OkWithSettings(t.(queues := qs, nextId := n), SeedSettings(t.settings));
  }

  lemma OkWithSettings(t: Tables, settings: map<string, string>)
    requires Ok(t) && SettingsOk(settings)
    ensures Ok(t.(settings := settings))
  {
  }

  lemma InitDbValid(db: Store, t: Tables, names: seq<string>)
    requires Ok(t)
    requires var (qs, n) := SeedQueues(t.queues, t.nextId, names);
      db.State() == t.(queues := qs, nextId := n, settings := SeedSettings(t.settings))
    ensures db.Valid()
  {
    InitDbOk(t, names);
  }

  /** The loop of `init_db` over the default queue names: each name not yet
      in the table gets a new, active, unlocked queue. */
  method AddMissingQueues(db: Store, names: seq<string>)
    modifies db
    ensures (db.queues, db.nextId) == SeedQueues(old(db.queues), old(db.nextId), names)
    ensures db.State() == old(db.State()).(queues := db.queues, nextId := db.nextId)
  {
    var i := 0;
    while i < |names|
      invariant 0 <= i <= |names|
      invariant (db.queues, db.nextId) == SeedQueues(old(db.queues), old(db.nextId), names[..i])
      invariant db.State() == old(db.State()).(queues := db.queues, nextId := db.nextId)
    {
      assert names[..i + 1][..i] == names[..i];
      var name := names[i];
      if QueueByName(db.queues, name).None? {
        db.queues := db.queues + [QueueType(db.nextId, name, DefaultDescription, true, false)];
        db.nextId := db.nextId + 1;
      }
      i := i + 1;
    }
    assert names[..i] == names;
  }

  method InitDb(db: Store)
    requires db.Valid()
    modifies db
    ensures db.Valid()
    ensures var (qs, n) := SeedQueues(old(db.queues), old(db.nextId), Catalog);
      db.State() == old(db.State()).(queues := qs, nextId := n, settings := SeedSettings(old(db.settings)))
  {
    AddMissingQueues(db, Catalog);
    if DefaultLimitKey !in db.settings {
      db.settings := db.settings[DefaultLimitKey := "1"];
    }
    InitDbValid(db, old(db.State()), Catalog);
  }

}
