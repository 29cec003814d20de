/** The player-facing handlers of handlers/user.py that change the store:
    setting the main character (a proposal, then a confirmation), adding an
    alt, deleting a character together with its queue entries, joining,
    leaving, and swapping the character of an entry.

    Each handler is a method on the store, proved equal to a step function on
    snapshots; the lemmas state what the steps promise. The roster oracle's
    answer for the nickname (`check_google_sheet`) is a parameter. */
module UserHandlers {
  import opened Base
  import opened Text
  import opened Database
  import opened Entries

  // ------------------------------------------------ edits of the character table

  /** Character `k` becomes a main. */
  function Promote(chars: seq<Character>, k: nat): (r: seq<Character>)
    requires k < |chars|
    ensures |r| == |chars|
  {
    chars[k := chars[k].(isMain := true)]
  }

  /** The user's character named `nick`, if there is one, is no longer a main. */
  function Demote(chars: seq<Character>, uid: nat, nick: string): (r: seq<Character>)
    ensures |r| == |chars|
  {
    match OwnChar(chars, uid, nick)
    case None => chars
    case Some(k) => chars[k := chars[k].(isMain := false)]
  }

  /** Two character tables that differ at most in the main flags. */
  ghost predicate SameButFlags(s: seq<Character>, r: seq<Character>)
  {
    |s| == |r| && forall i :: 0 <= i < |s| ==> r[i] == s[i].(isMain := r[i].isMain)
  }

  lemma OwnCharSameButFlags(s: seq<Character>, r: seq<Character>, uid: nat, nick: string)
    requires SameButFlags(s, r)
    ensures OwnChar(r, uid, nick) == OwnChar(s, uid, nick)
  {
    match OwnChar(s, uid, nick)
    case Some(k) =>
      assert r[k].userId == uid && r[k].nickname == nick;
    case None =>
  }

  lemma OwnCharAppend(s: seq<Character>, c: Character, uid: nat, nick: string)
    requires OwnChar(s, uid, nick).Some?
    ensures OwnChar(s + [c], uid, nick) == OwnChar(s, uid, nick)
  {
    var k := OwnChar(s, uid, nick).value;
    assert (s + [c])[k] == s[k];
  }

  /** Promoting a character of a user who has no main makes it that user's
      only main and changes no other user's main. */
  lemma PromoteSpec(chars: seq<Character>, ids: set<nat>, bound: nat, k: nat)
    requires CharsOk(chars, ids, bound) && k < |chars|
    requires MainIndex(chars, chars[k].userId).None?
    ensures CharsOk(Promote(chars, k), ids, bound)
    ensures SameButFlags(chars, Promote(chars, k))
    ensures MainNick(Promote(chars, k), chars[k].userId) == Some(chars[k].nickname)
    ensures forall u :: u != chars[k].userId ==> MainNick(Promote(chars, k), u) == MainNick(chars, u)
  {
    PromoteKeepsOk(chars, ids, bound, k);
    PromoteMains(chars, k);
  }

  lemma PromoteKeepsOk(chars: seq<Character>, ids: set<nat>, bound: nat, k: nat)
    requires CharsOk(chars, ids, bound) && k < |chars|
    requires MainIndex(chars, chars[k].userId).None?
    ensures CharsOk(Promote(chars, k), ids, bound)
    ensures SameButFlags(chars, Promote(chars, k))
  {
    var r := Promote(chars, k);
    assert forall j :: 0 <= j < |r| && j != k ==> r[j] == chars[j];
    assert KeyedBelow(r, CharKey, bound) by {
      assert SameKeys(chars, r, CharKey);
      KeyedSameKeys(chars, r, CharKey, bound);
    }
    forall i, j | 0 <= i < j < |r| && r[i].userId == r[j].userId
      ensures r[i].nickname != r[j].nickname && !(r[i].isMain && r[j].isMain)
    {
      assert chars[i].userId == chars[j].userId;
    }
  }

  lemma PromoteMains(chars: seq<Character>, k: nat)
    requires k < |chars| && MainIndex(chars, chars[k].userId).None?
    ensures MainNick(Promote(chars, k), chars[k].userId) == Some(chars[k].nickname)
    ensures forall u :: u != chars[k].userId ==> MainNick(Promote(chars, k), u) == MainNick(chars, u)
  {
    var r := Promote(chars, k);
    var uid := chars[k].userId;
    forall j | 0 <= j < k ensures !(r[j].userId == uid && r[j].isMain) {
      assert r[j] == chars[j];
    }
    MainIndexAt(r, uid, k);
    forall u | u != uid ensures MainNick(r, u) == MainNick(chars, u) {
      MainNickFrame(chars, r, u);
    }
  }


  /** Adding a character the user does not own yet keeps the table's
      invariant; a new main becomes the user's main, a new alt changes no main. */
  lemma AddCharSpec(chars: seq<Character>, ids: set<nat>, bound: nat, c: Character)
    requires CharsOk(chars, ids, bound) && c.id == bound && c.userId in ids
    requires OwnChar(chars, c.userId, c.nickname).None?
    requires c.isMain ==> MainIndex(chars, c.userId).None?
    ensures CharsOk(chars + [c], ids, bound + 1)
    ensures c.isMain ==> MainNick(chars + [c], c.userId) == Some(c.nickname)
    ensures !c.isMain ==> MainNick(chars + [c], c.userId) == MainNick(chars, c.userId)
    ensures forall u :: u != c.userId ==> MainNick(chars + [c], u) == MainNick(chars, u)
  {
    var r := chars + [c];
    var n := |chars|;
    KeyedAppend(chars, CharKey, bound, c);
    forall i, j | 0 <= i < j < |r| && r[i].userId == r[j].userId
      ensures r[i].nickname != r[j].nickname && !(r[i].isMain && r[j].isMain)
    {
      assert r[i] == chars[i];
      if j < n {
        assert r[j] == chars[j];
      } else {
        assert r[j] == c;
        assert !(chars[i].userId == c.userId && chars[i].nickname == c.nickname);
        assert c.isMain ==> !(chars[i].userId == c.userId && chars[i].isMain);
      }
    }
    forall i | 0 <= i < |r| ensures r[i].userId in ids {
      if i < n {
        assert r[i] == chars[i];
      }
    }
    assert CharsOk(r, ids, bound + 1);
    if c.isMain {
      forall j | 0 <= j < n ensures !(r[j].userId == c.userId && r[j].isMain) {
        assert r[j] == chars[j];
      }
      MainIndexAt(r, c.userId, n);
    } else {
      MainNickFrame(chars, r, c.userId);
    }
    forall u | u != c.userId ensures MainNick(r, u) == MainNick(chars, u) {
      MainNickFrame(chars, r, u);
    }
  }

  /** Demoting the user's character `nick`, when that is the user's main or the
      user has none, leaves the user without a main and nobody else changed. */
  lemma DemoteSpec(chars: seq<Character>, ids: set<nat>, bound: nat, uid: nat, nick: string)
    requires CharsOk(chars, ids, bound)
    requires MainNick(chars, uid).None? || MainNick(chars, uid) == Some(nick)
    ensures CharsOk(Demote(chars, uid, nick), ids, bound)
    ensures SameButFlags(chars, Demote(chars, uid, nick))
    ensures MainIndex(Demote(chars, uid, nick), uid).None?
    ensures forall u :: u != uid ==> MainNick(Demote(chars, uid, nick), u) == MainNick(chars, u)
    ensures OwnChar(chars, uid, nick).Some? ==> !Demote(chars, uid, nick)[OwnChar(chars, uid, nick).value].isMain
  {
    var r := Demote(chars, uid, nick);
    DemoteKeepsChars(chars, ids, bound, uid, nick);
    DemoteNoMain(chars, ids, bound, uid, nick);
    forall u | u != uid ensures MainNick(r, u) == MainNick(chars, u) {
      MainNickFrame(chars, r, u);
    }
  }

  lemma DemoteKeepsChars(chars: seq<Character>, ids: set<nat>, bound: nat, uid: nat, nick: string)
    requires CharsOk(chars, ids, bound)
    ensures CharsOk(Demote(chars, uid, nick), ids, bound)
    ensures SameButFlags(chars, Demote(chars, uid, nick))
  {
    var r := Demote(chars, uid, nick);
    assert SameKeys(chars, r, CharKey);
    KeyedSameKeys(chars, r, CharKey, bound);
    forall i, j | 0 <= i < j < |r| && r[i].userId == r[j].userId
      ensures r[i].nickname != r[j].nickname && !(r[i].isMain && r[j].isMain)
    {
      assert chars[i].userId == chars[j].userId;
    }
  }

  /** In a table with distinct nicknames per user, a user's character is found by its nickname. */
  lemma OwnCharAt(chars: seq<Character>, ids: set<nat>, bound: nat, uid: nat, k: nat)
    requires CharsOk(chars, ids, bound) && k < |chars| && chars[k].userId == uid
    ensures OwnChar(chars, uid, chars[k].nickname) == Some(k)
  {
    var v := OwnChar(chars, uid, chars[k].nickname);
    assert v.Some?;
    assert v.value <= k;
  }

  lemma DemoteNoMain(chars: seq<Character>, ids: set<nat>, bound: nat, uid: nat, nick: string)
    requires CharsOk(chars, ids, bound)
    requires MainNick(chars, uid).None? || MainNick(chars, uid) == Some(nick)
    ensures MainIndex(Demote(chars, uid, nick), uid).None?
  {
    var r := Demote(chars, uid, nick);
    match MainIndex(chars, uid)
    case None =>
      forall j | 0 <= j < |r| ensures !(r[j].userId == uid && r[j].isMain) {
        assert r[j].isMain ==> chars[j].isMain;
      }
    case Some(m) =>
      OwnCharAt(chars, ids, bound, uid, m);
      forall j | 0 <= j < |r| ensures !(r[j].userId == uid && r[j].isMain) {
        assert j != m ==> r[j] == chars[j];
      }
  }

  /** The character edits of a confirmed main change: the old main demoted,
      then the new nickname promoted or created as a main. */
  function ChangeMain(chars: seq<Character>, next: nat, uid: nat, p: PendingMain): (seq<Character>, nat)
  {
    var c1 := Demote(chars, uid, p.oldNick);
    match OwnChar(c1, uid, p.newNick)
    case Some(k) => (Promote(c1, k), next)
    case None => (c1 + [Character(next, uid, p.newNick, true)], next + 1)
  }

  /** After a confirmed change the user has exactly one main, named as proposed,
      and no other user's main changes. */
  lemma ChangeMainSpec(chars: seq<Character>, ids: set<nat>, bound: nat, uid: nat, p: PendingMain)
    requires CharsOk(chars, ids, bound) && uid in ids && p.newNick != p.oldNick
    requires MainNick(chars, uid).None? || MainNick(chars, uid) == Some(p.oldNick)
    ensures var (r, next) := ChangeMain(chars, bound, uid, p);
      && next >= bound && CharsOk(r, ids, next)
      && MainNick(r, uid) == Some(p.newNick)
      && (forall u :: u != uid ==> MainNick(r, u) == MainNick(chars, u))
  {
    var c1 := Demote(chars, uid, p.oldNick);
    DemoteSpec(chars, ids, bound, uid, p.oldNick);
    match OwnChar(c1, uid, p.newNick)
    case Some(k) =>
      PromoteSpec(c1, ids, bound, k);
    case None =>
      AddCharSpec(c1, ids, bound, Character(bound, uid, p.newNick, true));
  }

  /** The old main, if it still exists, stays as a non-main character at the
      same place. */
  lemma ChangeMainKeepsOld(chars: seq<Character>, ids: set<nat>, bound: nat, uid: nat, p: PendingMain)
    requires CharsOk(chars, ids, bound) && uid in ids && p.newNick != p.oldNick
    requires MainNick(chars, uid).None? || MainNick(chars, uid) == Some(p.oldNick)
    requires OwnChar(chars, uid, p.oldNick).Some?
    ensures var r := ChangeMain(chars, bound, uid, p).0;
      && OwnChar(r, uid, p.oldNick) == OwnChar(chars, uid, p.oldNick)
      && !r[OwnChar(chars, uid, p.oldNick).value].isMain
  {
    var c1 := Demote(chars, uid, p.oldNick);
    DemoteSpec(chars, ids, bound, uid, p.oldNick);
    OwnCharSameButFlags(chars, c1, uid, p.oldNick);
    var r := ChangeMain(chars, bound, uid, p).0;
    var k0 := OwnChar(chars, uid, p.oldNick).value;
    match OwnChar(c1, uid, p.newNick)
    case Some(k) =>
      assert SameButFlags(c1, r) by { PromoteSpec(c1, ids, bound, k); }
      OwnCharSameButFlags(c1, r, uid, p.oldNick);
      assert k != k0;
    case None =>
      OwnCharAppend(c1, Character(bound, uid, p.newNick, true), uid, p.oldNick);
  }

  // ------------------------------------------- the invariant under character edits

  /** A new character table (and counter) keeps the store's invariant when it
      satisfies the table's own invariant and changes no pending user's main
      other than that of `uid`, whose proposal is dropped. */
  lemma OkWithChars(t: Tables, chars: seq<Character>, next: nat, uid: nat)
    requires Ok(t) && next >= t.nextId && CharsOk(chars, UserIds(t.users), next)
    requires forall u :: u in t.pendingMain && u != uid ==> MainNick(chars, u) == MainNick(t.chars, u)
    ensures Ok(t.(chars := chars, nextId := next, pendingMain := t.pendingMain - {uid}))
  {
    KeyedGrow(t.users, UserKey, t.nextId, next);
    KeyedGrow(t.queues, QueueKey, t.nextId, next);
    KeyedGrow(t.history, HistoryKey, t.nextId, next);
    KeyedGrow(t.anns, AnnKey, t.nextId, next);
    EntriesOkWiden(t.entries, UserIds(t.users), QueueIds(t.queues), UserIds(t.users), QueueIds(t.queues), t.nextId, next);
  }

  // ------------------------------------------------------- process_main_input

  datatype MainReply =
    | NotOnRoster              // the roster does not know the nickname
    | Promoted(nick: string)   // an own character became the main
    | MainSet(nick: string)    // a new main character was created
    | AlreadyMain              // the nickname already is the main
    | AskConfirm(oldNick: string, newNick: string, ownsNew: bool)

  /** `process_main_input`: the user typed `text` while asked for a main
      nickname; `onRoster` is the roster's answer for the stripped nickname. */
  function MainInputStep(t: Tables, tg: int, username: Option<string>, text: string, onRoster: bool): (Tables, MainReply)
  {
    if !onRoster then (t, NotOnRoster)
    else
      var (t1, uid) := EnsureUserStep(t, tg, username);
      MainFor(t1, uid, Strip(text))
  }

  /** What `process_main_input` does once `ensure_user` has given the user `uid`. */
  function MainFor(t: Tables, uid: nat, nick: string): (Tables, MainReply)
  {
    var existing := OwnChar(t.chars, uid, nick);
    var t2 := t.(pendingMain := t.pendingMain - {uid});
    match MainIndex(t.chars, uid)
    case None =>
      if existing.Some? then (t2.(chars := Promote(t.chars, existing.value)), Promoted(nick))
      else (t2.(chars := t.chars + [Character(t.nextId, uid, nick, true)], nextId := t.nextId + 1), MainSet(nick))
    case Some(m) =>
      if t.chars[m].nickname == nick then (t2, AlreadyMain)
      else
        (t.(pendingMain := t.pendingMain[uid := PendingMain(nick, t.chars[m].nickname)]),
         AskConfirm(t.chars[m].nickname, nick, existing.Some?))
  }

  lemma OkDropPending(t: Tables, uid: nat)
    requires Ok(t)
    ensures Ok(t.(pendingMain := t.pendingMain - {uid}))
  {
  }

  /** Recording a proposal that replaces the user's current main keeps the invariant. */
  lemma OkPropose(t: Tables, uid: nat, p: PendingMain)
    requires Ok(t) && uid in UserIds(t.users) && p.newNick != p.oldNick
    requires MainNick(t.chars, uid) == Some(p.oldNick)
    ensures Ok(t.(pendingMain := t.pendingMain[uid := p]))
  {
  }

  /** Promoting an own character of a user without a main keeps the invariant. */
  lemma OkPromote(t: Tables, uid: nat, k: nat)
    requires Ok(t) && k < |t.chars| && t.chars[k].userId == uid && MainIndex(t.chars, uid).None?
    ensures Ok(t.(chars := Promote(t.chars, k), pendingMain := t.pendingMain - {uid}))
  {
    var chars := Promote(t.chars, k);
    assert CharsOk(chars, UserIds(t.users), t.nextId)
      && forall u :: u in t.pendingMain && u != uid ==> MainNick(chars, u) == MainNick(t.chars, u)
    by {
      PromoteSpec(t.chars, UserIds(t.users), t.nextId, k);
    }
    OkWithChars(t, chars, t.nextId, uid);
  }

  /** Creating the first main of a user keeps the invariant. */
  lemma OkAddMain(t: Tables, uid: nat, nick: string)
    requires Ok(t) && uid in UserIds(t.users) && OwnChar(t.chars, uid, nick).None? && MainIndex(t.chars, uid).None?
    ensures Ok(t.(chars := t.chars + [Character(t.nextId, uid, nick, true)], nextId := t.nextId + 1,
                  pendingMain := t.pendingMain - {uid}))
  {
    var chars := t.chars + [Character(t.nextId, uid, nick, true)];
    assert CharsOk(chars, UserIds(t.users), t.nextId + 1)
      && forall u :: u in t.pendingMain && u != uid ==> MainNick(chars, u) == MainNick(t.chars, u)
    by {
      AddCharSpec(t.chars, UserIds(t.users), t.nextId, Character(t.nextId, uid, nick, true));
    }
    OkWithChars(t, chars, t.nextId + 1, uid);
  }

  /** The tables a main request leaves, case by case. */
  lemma MainForState(t: Tables, uid: nat, nick: string)
    ensures var existing := OwnChar(t.chars, uid, nick);
      var t' := MainFor(t, uid, nick).0;
      && (MainIndex(t.chars, uid).None? && existing.Some? ==>
            t' == t.(chars := Promote(t.chars, existing.value), pendingMain := t.pendingMain - {uid}))
      && (MainIndex(t.chars, uid).None? && existing.None? ==>
            t' == t.(chars := t.chars + [Character(t.nextId, uid, nick, true)], nextId := t.nextId + 1,
                     pendingMain := t.pendingMain - {uid}))
      && (MainIndex(t.chars, uid).Some? && t.chars[MainIndex(t.chars, uid).value].nickname == nick ==>
            t' == t.(pendingMain := t.pendingMain - {uid}))
      && (MainIndex(t.chars, uid).Some? && t.chars[MainIndex(t.chars, uid).value].nickname != nick ==>
            t' == t.(pendingMain := t.pendingMain[uid := PendingMain(nick, t.chars[MainIndex(t.chars, uid).value].nickname)]))
  {
  }

  lemma MainForOk(t: Tables, uid: nat, nick: string)
    requires Ok(t) && uid in UserIds(t.users)
    ensures Ok(MainFor(t, uid, nick).0)
  {
    MainForState(t, uid, nick);
    var existing := OwnChar(t.chars, uid, nick);
    match MainIndex(t.chars, uid)
    case None =>
      if existing.Some? {
        OkPromote(t, uid, existing.value);
      } else {
        OkAddMain(t, uid, nick);
      }
    case Some(m) =>
      if t.chars[m].nickname == nick {
        OkDropPending(t, uid);
      } else {
        OkPropose(t, uid, PendingMain(nick, t.chars[m].nickname));
      }
  }

  /** The store holding the outcome of `MainFor` is valid. */
  lemma MainForValid(db: Store, t: Tables, uid: nat, nick: string)
    requires Ok(t) && uid in UserIds(t.users) && db.State() == MainFor(t, uid, nick).0
    ensures db.Valid()
  {
    MainForOk(t, uid, nick);
  }

  lemma MainInputOk(t: Tables, tg: int, username: Option<string>, text: string, onRoster: bool)
    requires Ok(t)
    ensures Ok(MainInputStep(t, tg, username, text, onRoster).0)
  {
    if onRoster {
      EnsureUserOk(t, tg, username);
      var (t1, uid) := EnsureUserStep(t, tg, username);
      MainForOk(t1, uid, Strip(text));
    }
  }

  /** With no current main the step promotes the user's own character or
      creates a new one, which is then the user's one main, and no other user's
      main changes; the current main's nickname changes nothing; any other
      nickname is only recorded as a proposal, and no character or entry is
      written. */
  lemma MainForSpec(t: Tables, uid: nat, nick: string)
    requires Ok(t) && uid in UserIds(t.users)
    ensures var (t', reply) := MainFor(t, uid, nick);
      && t'.users == t.users && t'.entries == t.entries
      && (reply.Promoted? || reply.MainSet? <==> MainNick(t.chars, uid).None?)
      && (reply.Promoted? || reply.MainSet? ==>
            && MainNick(t'.chars, uid) == Some(nick)
            && (forall u :: u != uid ==> MainNick(t'.chars, u) == MainNick(t.chars, u)))
      && (reply.Promoted? <==> MainNick(t.chars, uid).None? && OwnChar(t.chars, uid, nick).Some?)
      && (reply.Promoted? ==> SameButFlags(t.chars, t'.chars))
      && (reply.MainSet? ==> t'.chars == t.chars + [Character(t.nextId, uid, nick, true)])
      && (reply == AlreadyMain <==> MainNick(t.chars, uid) == Some(nick))
      && (reply.AskConfirm? <==> MainNick(t.chars, uid).Some? && MainNick(t.chars, uid) != Some(nick))
      && (reply == AlreadyMain || reply.AskConfirm? ==> t'.chars == t.chars && t'.nextId == t.nextId)
      && (reply.AskConfirm? ==>
            && MainNick(t.chars, uid) == Some(reply.oldNick) && reply.newNick == nick
            && t'.pendingMain == t.pendingMain[uid := PendingMain(nick, reply.oldNick)])
      && (!reply.AskConfirm? ==> t'.pendingMain == t.pendingMain - {uid})
  {
    var existing := OwnChar(t.chars, uid, nick);
    if MainIndex(t.chars, uid).None? {
      if existing.Some? {
        PromoteSpec(t.chars, UserIds(t.users), t.nextId, existing.value);
      } else {
        AddCharSpec(t.chars, UserIds(t.users), t.nextId, Character(t.nextId, uid, nick, true));
      }
    }
  }

  /** `process_main_input` as a whole: an unknown nickname changes nothing,
      and otherwise the user's main characters are as `MainForSpec` says. */
  lemma MainInputSpec(t: Tables, tg: int, username: Option<string>, text: string, onRoster: bool)
    requires Ok(t)
    ensures var (t', reply) := MainInputStep(t, tg, username, text, onRoster);
      var uid := EnsureUserStep(t, tg, username).1;
      && (reply == NotOnRoster <==> !onRoster)
      && (reply == NotOnRoster ==> t' == t)
      && (reply.Promoted? || reply.MainSet? <==> onRoster && MainNick(t.chars, uid).None?)
      && (reply.Promoted? || reply.MainSet? ==> MainNick(t'.chars, uid) == Some(Strip(text)))
      && (reply == AlreadyMain <==> onRoster && MainNick(t.chars, uid) == Some(Strip(text)))
      && t'.entries == t.entries
  {
    if onRoster {
      EnsureUserOk(t, tg, username);
      var (t1, uid) := EnsureUserStep(t, tg, username);
      MainForSpec(t1, uid, Strip(text));
    }
  }

  method ProcessMainInput(db: Store, tg: int, username: Option<string>, text: string, onRoster: bool)
    returns (reply: MainReply)
    requires db.Valid()
    modifies db
    ensures db.Valid()
    ensures (db.State(), reply) == MainInputStep(old(db.State()), tg, username, text, onRoster)
  {
    var nick := Strip(text);
    if !onRoster {
      return NotOnRoster;
    }
    EnsureUserOk(db.State(), tg, username);
    var uid := EnsureUser(db, tg, username);
    reply := SetMain(db, uid, nick);
  }

  /** The body of `process_main_input` after `ensure_user`. */
  method SetMain(db: Store, uid: nat, nick: string) returns (reply: MainReply)
    requires db.Valid() && uid in UserIds(db.users)
    modifies db
    ensures db.Valid()
    ensures (db.State(), reply) == MainFor(old(db.State()), uid, nick)
  {
    ghost var t := db.State();
    var existing := OwnChar(db.chars, uid, nick);
    var oldMain := MainIndex(db.chars, uid);
    if oldMain.None? {
      if existing.Some? {
        db.chars := Promote(db.chars, existing.value);
        db.pendingMain := db.pendingMain - {uid};
        reply := Promoted(nick);
      } else {
        db.chars := db.chars + [Character(db.nextId, uid, nick, true)];
        db.nextId := db.nextId + 1;
        db.pendingMain := db.pendingMain - {uid};
        reply := MainSet(nick);
      }
      assert db.State() == MainFor(t, uid, nick).0;
    } else {
      var m := oldMain.value;
      if db.chars[m].nickname == nick {
        db.pendingMain := db.pendingMain - {uid};
        reply := AlreadyMain;
      } else {
        db.pendingMain := db.pendingMain[uid := PendingMain(nick, db.chars[m].nickname)];
        reply := AskConfirm(db.chars[m].nickname, nick, existing.Some?);
      }
      assert db.State() == MainFor(t, uid, nick).0;
    }
    MainForValid(db, t, uid, nick);
  }

  // ----------------------------------------------------- process_main_confirm

  datatype ConfirmReply = NotAwaiting | Changed(newNick: string, renamed: nat)

  /** `process_main_confirm`. It only fires while the user's dialogue holds a
      proposal, so the user exists and `ensure_user` is a lookup. */
  function MainConfirmStep(t: Tables, tg: int): (Tables, ConfirmReply)
  {
    match UserByTelegram(t.users, tg)
    case None => (t, NotAwaiting)
    case Some(i) =>
      var uid := t.users[i].id;
      if uid !in t.pendingMain then (t, NotAwaiting) else ConfirmFor(t, uid)
  }

  /** The confirmation of user `uid`'s pending proposal: the main changes,
      the user's entries are re-filed under the new main, the proposal goes. */
  function ConfirmFor(t: Tables, uid: nat): (Tables, ConfirmReply)
    requires uid in t.pendingMain
  {
    var p := t.pendingMain[uid];
    var (chars, next) := ChangeMain(t.chars, t.nextId, uid, p);
    (t.(chars := chars, nextId := next, entries := RenameOwn(t.entries, uid, p.newNick),
        pendingMain := t.pendingMain - {uid}),
     Changed(p.newNick, |ToRename(t.entries, uid, p.newNick)|))
  }

  lemma ConfirmForOk(t: Tables, uid: nat)
    requires Ok(t) && uid in t.pendingMain
    ensures Ok(ConfirmFor(t, uid).0)
    ensures PairsUnique(t.entries) ==> PairsUnique(ConfirmFor(t, uid).0.entries)
  {
    var p := t.pendingMain[uid];
    ChangeMainSpec(t.chars, UserIds(t.users), t.nextId, uid, p);
    var (chars, next) := ChangeMain(t.chars, t.nextId, uid, p);
    OkWithChars(t, chars, next, uid);
    var t2 := t.(chars := chars, nextId := next, pendingMain := t.pendingMain - {uid});
    EntriesOkRenameOwn(t2.entries, UserIds(t2.users), QueueIds(t2.queues), t2.nextId, uid, p.newNick);
    OkWithEntries(t2, RenameOwn(t2.entries, uid, p.newNick));
    RenameOwnSpec(t.entries, uid, p.newNick);
    if PairsUnique(t.entries) {
      PairsUniqueSameRefs(t.entries, RenameOwn(t.entries, uid, p.newNick));
    }
  }

  lemma MainConfirmOk(t: Tables, tg: int)
    requires Ok(t)
    ensures Ok(MainConfirmStep(t, tg).0)
    ensures PairsUnique(t.entries) ==> PairsUnique(MainConfirmStep(t, tg).0.entries)
  {
    var found := UserByTelegram(t.users, tg);
    if found.Some? && t.users[found.value].id in t.pendingMain {
      ConfirmForOk(t, t.users[found.value].id);
    }
  }

  /** A confirmed change leaves the user exactly one main, the proposed one;
      every entry of the user is filed under it, nobody else's entry changes,
      and the reported count is the number of entries that changed. */
  lemma ConfirmForSpec(t: Tables, uid: nat)
    requires CharsOk(t.chars, UserIds(t.users), t.nextId) && PendingOk(t.pendingMain, UserIds(t.users), t.chars)
    requires uid in t.pendingMain
    ensures var (t', reply) := ConfirmFor(t, uid);
      var p := t.pendingMain[uid];
      && reply.Changed? && reply.newNick == p.newNick
      && MainNick(t'.chars, uid) == Some(p.newNick)
      && (forall j :: 0 <= j < |t'.chars| && t'.chars[j].userId == uid && t'.chars[j].isMain ==>
            t'.chars[j].nickname == p.newNick)
      && (forall u :: u != uid ==> MainNick(t'.chars, u) == MainNick(t.chars, u))
      && (forall j :: 0 <= j < |t'.entries| && t'.entries[j].userId == uid ==> t'.entries[j].characterName == p.newNick)
      && (forall j :: 0 <= j < |t.entries| && t.entries[j].userId != uid ==> t'.entries[j] == t.entries[j])
      && reply.renamed == CountChanged(t.entries, t'.entries)
      && uid !in t'.pendingMain
  {
    var p := t.pendingMain[uid];
    assert uid in UserIds(t.users) && p.newNick != p.oldNick;
    assert MainNick(t.chars, uid).None? || MainNick(t.chars, uid) == Some(p.oldNick);
    ConfirmChars(t.chars, UserIds(t.users), t.nextId, uid, p);
    RenameOwnSpec(t.entries, uid, p.newNick);
    RenameOwnCount(t.entries, uid, p.newNick);
  }

  /** The characters after a confirmed change: the new main is the only main
      of the user, and nobody else's main moves. */
  lemma ConfirmChars(chars: seq<Character>, ids: set<nat>, bound: nat, uid: nat, p: PendingMain)
    requires CharsOk(chars, ids, bound) && uid in ids && p.newNick != p.oldNick
    requires MainNick(chars, uid).None? || MainNick(chars, uid) == Some(p.oldNick)
    ensures var r := ChangeMain(chars, bound, uid, p).0;
      && MainNick(r, uid) == Some(p.newNick)
      && (forall j :: 0 <= j < |r| && r[j].userId == uid && r[j].isMain ==> r[j].nickname == p.newNick)
      && (forall u :: u != uid ==> MainNick(r, u) == MainNick(chars, u))
  {
    ChangeMainSpec(chars, ids, bound, uid, p);
    var (r, next) := ChangeMain(chars, bound, uid, p);
    forall j | 0 <= j < |r| && r[j].userId == uid && r[j].isMain
      ensures r[j].nickname == p.newNick
    {
      MainIsUnique(r, ids, next, uid, j);
    }
  }

  /** A tap on the confirmation button of user `i` carries out that user's
      pending proposal. */
  lemma MainConfirmSpec(t: Tables, i: nat)
    requires Ok(t) && i < |t.users| && t.users[i].id in t.pendingMain
    ensures MainConfirmStep(t, t.users[i].telegramId) == ConfirmFor(t, t.users[i].id)
  {
    UsersOkUnique(t, i);
  }

  /** In a keyed user table the first user with a Telegram id is the only one. */
  lemma UsersOkUnique(t: Tables, i: nat)
    requires Ok(t) && i < |t.users|
    ensures UserByTelegram(t.users, t.users[i].telegramId) == Some(i)
  {
  }

  method ProcessMainConfirm(db: Store, tg: int) returns (reply: ConfirmReply)
    requires db.Valid()
    modifies db
    ensures db.Valid()
    ensures (db.State(), reply) == MainConfirmStep(old(db.State()), tg)
  {
    var found := UserByTelegram(db.users, tg);
    if found.None? {
      return NotAwaiting;
    }
    var uid := db.users[found.value].id;
    if uid !in db.pendingMain {
      return NotAwaiting;
    }
    reply := ConfirmMain(db, uid);
  }

  /** The body of `process_main_confirm` once the proposal is found. */
  method ConfirmMain(db: Store, uid: nat) returns (reply: ConfirmReply)
    requires db.Valid() && uid in db.pendingMain
    modifies db
    ensures db.Valid()
    ensures (db.State(), reply) == ConfirmFor(old(db.State()), uid)
  {
    ghost var t := db.State();
    var p := db.pendingMain[uid];
    SwitchMain(db, uid, p);
    var es, count := RenameEntries(db.entries, uid, p.newNick);
    db.entries := es;
    db.pendingMain := db.pendingMain - {uid};
    reply := Changed(p.newNick, count);
    assert db.State() == ConfirmFor(t, uid).0;
    ConfirmForValid(db, t, uid);
  }

  lemma ConfirmForValid(db: Store, t: Tables, uid: nat)
    requires Ok(t) && uid in t.pendingMain && db.State() == ConfirmFor(t, uid).0
    ensures db.Valid()
  {
    ConfirmForOk(t, uid);
  }

  /** The character edits of `process_main_confirm`: the old main loses its
      flag, the new nickname gains it or is created as a main. */
  method SwitchMain(db: Store, uid: nat, p: PendingMain)
    modifies db
    ensures (db.chars, db.nextId) == ChangeMain(old(db.chars), old(db.nextId), uid, p)
    ensures db.users == old(db.users) && db.queues == old(db.queues) && db.entries == old(db.entries)
    ensures db.settings == old(db.settings) && db.history == old(db.history) && db.anns == old(db.anns)
    ensures db.pendingMain == old(db.pendingMain)
  {
    var oldChar := OwnChar(db.chars, uid, p.oldNick);
    if oldChar.Some? {
      db.chars := db.chars[oldChar.value := db.chars[oldChar.value].(isMain := false)];
    }
    var existing := OwnChar(db.chars, uid, p.newNick);
    if existing.Some? {
      db.chars := Promote(db.chars, existing.value);
    } else {
      db.chars := db.chars + [Character(db.nextId, uid, p.newNick, true)];
      db.nextId := db.nextId + 1;
    }
  }

  /** The loop of `process_main_confirm` over the user's entries: each one not
      yet under `nick` is re-filed under it and counted. */
  method RenameEntries(entries: seq<QueueEntry>, uid: nat, nick: string) returns (es: seq<QueueEntry>, count: nat)
    ensures es == RenameOwn(entries, uid, nick)
    ensures count == |ToRename(entries, uid, nick)|
  {
    es := entries;
    count := 0;
    var i := 0;
    while i < |es|
      invariant 0 <= i <= |es| == |entries|
      invariant forall j :: 0 <= j < i ==> es[j] == RenameOne(entries[j], uid, nick)
      invariant forall j :: i <= j < |es| ==> es[j] == entries[j]
      invariant count == |ToRename(entries[..i], uid, nick)|
    {
      ToRenameSnoc(entries[..i], entries[i], uid, nick);
      assert entries[..i + 1] == entries[..i] + [entries[i]];
      if es[i].userId == uid && es[i].characterName != nick {
        es := es[i := es[i].(characterName := nick)];
        count := count + 1;
      }
      i := i + 1;
    }
    assert entries[..i] == entries;
  }

  /** Entering another dialogue (`add_main`, `add_alt`) or returning to the
      main menu drops a pending proposal. */
  function DropProposal(t: Tables, tg: int): (t': Tables)
    ensures t' == t.(pendingMain := t'.pendingMain)
    ensures forall u :: u in t'.pendingMain ==> u in t.pendingMain && t'.pendingMain[u] == t.pendingMain[u]
  {
    match UserByTelegram(t.users, tg)
    case None => t
    case Some(i) => t.(pendingMain := t.pendingMain - {t.users[i].id})
  }

  /** Once the proposal is dropped, a late tap on the confirmation button does
      nothing. */
  lemma DropThenConfirm(t: Tables, tg: int)
    requires Ok(t)
    ensures Ok(DropProposal(t, tg))
    ensures MainConfirmStep(DropProposal(t, tg), tg) == (DropProposal(t, tg), NotAwaiting)
  {
  }

  method AbandonProposal(db: Store, tg: int)
    requires db.Valid()
    modifies db
    ensures db.Valid()
    ensures db.State() == DropProposal(old(db.State()), tg)
  {
    ghost var t := db.State();
    var found := UserByTelegram(db.users, tg);
    if found.Some? {
      db.pendingMain := db.pendingMain - {db.users[found.value].id};
    }
    DropValid(db, t, tg);
  }

  lemma DropValid(db: Store, t: Tables, tg: int)
    requires Ok(t) && db.State() == DropProposal(t, tg)
    ensures db.Valid()
  {
    DropThenConfirm(t, tg);
  }

  // --------------------------------------------------------------- process_alt

  datatype AltReply = NoMain | AltNotOnRoster | AlreadyAdded | AltAdded(nick: string)

  /** `process_alt`: the main is checked first, then the roster, then ownership. */
  function AltStep(t: Tables, tg: int, username: Option<string>, text: string, onRoster: bool): (Tables, AltReply)
  {
    var (t1, uid) := EnsureUserStep(t, tg, username);
    AltFor(t1, uid, Strip(text), onRoster)
  }

  /** What `process_alt` does once `ensure_user` has given the user `uid`; a
      success ends the dialogue. */
  function AltFor(t: Tables, uid: nat, nick: string, onRoster: bool): (Tables, AltReply)
  {
    if MainIndex(t.chars, uid).None? then (t, NoMain)
    else if !onRoster then (t, AltNotOnRoster)
    else if OwnChar(t.chars, uid, nick).Some? then (t, AlreadyAdded)
    else
      (t.(chars := t.chars + [Character(t.nextId, uid, nick, false)], nextId := t.nextId + 1,
          pendingMain := t.pendingMain - {uid}), AltAdded(nick))
  }

  /** Adding a fresh non-main character keeps the invariant. */
  lemma OkAddAlt(t: Tables, uid: nat, nick: string)
    requires Ok(t) && uid in UserIds(t.users) && OwnChar(t.chars, uid, nick).None?
    ensures Ok(t.(chars := t.chars + [Character(t.nextId, uid, nick, false)], nextId := t.nextId + 1,
                  pendingMain := t.pendingMain - {uid}))
  {
    var c := Character(t.nextId, uid, nick, false);
    var chars := t.chars + [c];
    assert CharsOk(chars, UserIds(t.users), t.nextId + 1)
      && forall u :: u in t.pendingMain && u != uid ==> MainNick(chars, u) == MainNick(t.chars, u)
    by {
      AddCharSpec(t.chars, UserIds(t.users), t.nextId, c);
    }
    OkWithChars(t, chars, t.nextId + 1, uid);
  }

  lemma AltForOk(t: Tables, uid: nat, nick: string, onRoster: bool)
    requires Ok(t) && uid in UserIds(t.users)
    ensures Ok(AltFor(t, uid, nick, onRoster).0)
  {
    if MainIndex(t.chars, uid).Some? && onRoster && OwnChar(t.chars, uid, nick).None? {
      OkAddAlt(t, uid, nick);
    }
  }

  /** An alt is added exactly when the user has a main, the roster knows the
      nickname and the user does not own it yet; then one non-main character
      is added and nobody's main changes; otherwise nothing is written. */
  lemma AltForSpec(t: Tables, uid: nat, nick: string, onRoster: bool)
    requires Ok(t) && uid in UserIds(t.users)
    ensures var (t', reply) := AltFor(t, uid, nick, onRoster);
      && (reply.AltAdded? <==> MainNick(t.chars, uid).Some? && onRoster && OwnChar(t.chars, uid, nick).None?)
      && (!reply.AltAdded? ==> t' == t)
      && (reply.AltAdded? ==>
            && t'.chars == t.chars + [Character(t.nextId, uid, nick, false)]
            && t'.entries == t.entries && t'.users == t.users
            && (forall u :: MainNick(t'.chars, u) == MainNick(t.chars, u)))
  {
    var (t', reply) := AltFor(t, uid, nick, onRoster);
    if reply.AltAdded? {
      var c := Character(t.nextId, uid, nick, false);
      AddCharSpec(t.chars, UserIds(t.users), t.nextId, c);
      forall u ensures MainNick(t'.chars, u) == MainNick(t.chars, u) {
        if u == uid {
          MainNickFrame(t.chars, t'.chars, u);
        }
      }
    }
  }

  lemma AltForValid(db: Store, t: Tables, uid: nat, nick: string, onRoster: bool)
    requires Ok(t) && uid in UserIds(t.users) && db.State() == AltFor(t, uid, nick, onRoster).0
    ensures db.Valid()
  {
    AltForOk(t, uid, nick, onRoster);
  }

  method ProcessAlt(db: Store, tg: int, username: Option<string>, text: string, onRoster: bool)
    returns (reply: AltReply)
    requires db.Valid()
    modifies db
    ensures db.Valid()
    ensures (db.State(), reply) == AltStep(old(db.State()), tg, username, text, onRoster)
  {
    var nick := Strip(text);
    EnsureUserOk(db.State(), tg, username);
    var uid := EnsureUser(db, tg, username);
    reply := AddAlt(db, uid, nick, onRoster);
  }

  /** The body of `process_alt` after `ensure_user`. */
  method AddAlt(db: Store, uid: nat, nick: string, onRoster: bool) returns (reply: AltReply)
    requires db.Valid() && uid in UserIds(db.users)
    modifies db
    ensures db.Valid()
    ensures (db.State(), reply) == AltFor(old(db.State()), uid, nick, onRoster)
  {
    ghost var t := db.State();
    if MainIndex(db.chars, uid).None? {
      return NoMain;
    }
    if !onRoster {
      return AltNotOnRoster;
    }
    if OwnChar(db.chars, uid, nick).Some? {
      return AlreadyAdded;
    }
    db.chars := db.chars + [Character(db.nextId, uid, nick, false)];
    db.nextId := db.nextId + 1;
    db.pendingMain := db.pendingMain - {uid};
    reply := AltAdded(nick);
    assert db.State() == AltFor(t, uid, nick, onRoster).0;
    AltForValid(db, t, uid, nick, onRoster);
  }

  // -------------------------------------------------------- del_char_action

  datatype DelReply =
    | CharNotFound
    | Deleted(nick: string)
      /** The character is used by `count` entries; the caller's main is offered as replacement. */
    | OfferSwap(nick: string, mainNick: string, count: nat)
      /** The same, for a caller without a main: the entries would be removed. */
    | OfferKill(nick: string, count: nat)

  /** `del_char_action`: a character no entry uses is deleted at once (the alt
      list shown afterwards runs `ensure_user`); otherwise nothing is written
      yet and the caller is offered a swap to their own main, or a removal.
      Entries are matched by nickname alone, whoever owns them, and the
      caller's ownership of the character is not checked. */
  function DelCharStep(t: Tables, cid: nat, tg: int, username: Option<string>): (Tables, DelReply)
  {
    match CharById(t.chars, cid)
    case None => (t, CharNotFound)
    case Some(i) =>
      var nick := t.chars[i].nickname;
      var count := |EntriesNamed(t.entries, nick)|;
      if count == 0 then
        (EnsureUserStep(t.(chars := RemoveAt(t.chars, i)), tg, username).0, Deleted(nick))
      else
        var (t1, uid) := EnsureUserStep(t, tg, username);
        match MainNick(t1.chars, uid)
        case Some(m) => (t1, OfferSwap(nick, m, count))
        case None => (t1, OfferKill(nick, count))
  }

  /** Deleting a row leaves no character with its id and every other character in place. */
  lemma CharByIdRemoved(chars: seq<Character>, ids: set<nat>, bound: nat, i: nat)
    requires CharsOk(chars, ids, bound) && i < |chars|
    ensures CharById(RemoveAt(chars, i), chars[i].id).None?
    ensures forall c :: c in chars && c.id != chars[i].id ==> c in RemoveAt(chars, i)
  {
    var r := RemoveAt(chars, i);
    forall k | 0 <= k < |r| ensures r[k].id != chars[i].id {
      var k' := if k < i then k else k + 1;
      assert r[k] == chars[k'];
    }
    forall c | c in chars && c.id != chars[i].id ensures c in r {
      var j :| 0 <= j < |chars| && chars[j] == c;
      if j < i {
        assert r[j] == c;
      } else {
        assert r[j - 1] == c;
      }
    }
  }

  /** The tables a deletion request leaves, case by case. */
  lemma DelCharState(t: Tables, cid: nat, tg: int, username: Option<string>)
    ensures CharById(t.chars, cid).Some? ==> var i := CharById(t.chars, cid).value;
      DelCharStep(t, cid, tg, username).0 ==
        if |EntriesNamed(t.entries, t.chars[i].nickname)| == 0 then EnsureUserStep(t.(chars := RemoveAt(t.chars, i)), tg, username).0
        else EnsureUserStep(t, tg, username).0
  {
  }

  lemma DelCharOk(t: Tables, cid: nat, tg: int, username: Option<string>)
    requires Ok(t)
    ensures Ok(DelCharStep(t, cid, tg, username).0)
  {
    DelCharState(t, cid, tg, username);
    match CharById(t.chars, cid)
    case None =>
    case Some(i) =>
      if |EntriesNamed(t.entries, t.chars[i].nickname)| == 0 {
        RemoveCharThenEnsureOk(t, i, tg, username);
      } else {
        EnsureUserKeepsOk(t, tg, username);
      }
  }


  /** The character is deleted exactly when it exists and no entry carries its
      nickname; then it alone goes and the entries stay. When entries carry it
      nothing but the caller's user row is written, and the offer names the
      number of those entries and the caller's main, if any. */
  lemma DelCharSpec(t: Tables, cid: nat, tg: int, username: Option<string>)
    requires Ok(t)
    ensures var (t', reply) := DelCharStep(t, cid, tg, username);
      var caller := EnsureUserStep(t, tg, username).1;
      && (reply == CharNotFound <==> CharById(t.chars, cid).None?)
      && (reply == CharNotFound ==> t' == t)
      && (reply != CharNotFound ==> reply.nick == t.chars[CharById(t.chars, cid).value].nickname)
      && (reply.Deleted? ==>
            && EntriesNamed(t.entries, reply.nick) == []
            && CharById(t'.chars, cid).None?
            && |t'.chars| + 1 == |t.chars|
            && (forall c :: c in t.chars && c.id != cid ==> c in t'.chars)
            && t'.entries == t.entries)
      && (reply.OfferSwap? || reply.OfferKill? ==>
            && reply.count == |EntriesNamed(t.entries, reply.nick)| > 0
            && t'.chars == t.chars && t'.entries == t.entries)
      && (reply.OfferSwap? ==> MainNick(t.chars, caller) == Some(reply.mainNick))
      && (reply.OfferKill? ==> MainNick(t.chars, caller).None?)
  {
    var found := CharById(t.chars, cid);
    if found.Some? {
      var i := found.value;
      if |EntriesNamed(t.entries, t.chars[i].nickname)| == 0 {
        var t0 := t.(chars := RemoveAt(t.chars, i));
        OkRemoveChar(t, i, t.entries);
        EnsureUserOk(t0, tg, username);
        CharByIdRemoved(t.chars, UserIds(t.users), t.nextId, i);
      } else {
        EnsureUserOk(t, tg, username);
      }
    }
  }

  lemma DelCharValid(db: Store, t: Tables, cid: nat, tg: int, username: Option<string>)
    requires Ok(t) && db.State() == DelCharStep(t, cid, tg, username).0
    ensures db.Valid()
  {
    DelCharOk(t, cid, tg, username);
  }

  method DelCharAction(db: Store, cid: nat, tg: int, username: Option<string>) returns (reply: DelReply)
    requires db.Valid()
    modifies db
    ensures db.Valid()
    ensures (db.State(), reply) == DelCharStep(old(db.State()), cid, tg, username)
  {
    var found := CharById(db.chars, cid);
    if found.None? {
      return CharNotFound;
    }
    var nick := db.chars[found.value].nickname;
    var count := |EntriesNamed(db.entries, nick)|;
    if count == 0 {
      DeleteChar(db, found.value);
      var caller := EnsureUser(db, tg, username);  // del_alt_menu
      return Deleted(nick);
    }
    var uid := EnsureUser(db, tg, username);
    var main := MainIndex(db.chars, uid);
    if main.Some? {
      reply := OfferSwap(nick, db.chars[main.value].nickname, count);
    } else {
      reply := OfferKill(nick, count);
    }
  }

  /** `session.delete(char)` for the character at index `i`. */
  method DeleteChar(db: Store, i: nat)
    requires db.Valid() && i < |db.chars|
    modifies db
    ensures db.Valid()
    ensures db.State() == old(db.State()).(chars := RemoveAt(old(db.chars), i))
  {
    ghost var t := db.State();
    db.chars := RemoveAt(db.chars, i);
    OkRemoveChar(t, i, t.entries);
  }

  // ------------------------------------------------ confirm_del_char_complex

  /** The action carried by the confirmation button; any other word leaves the entries alone. */
  datatype DelAction = Swap | Kill | OtherAction

  datatype ConfirmDelReply = AlreadyDeleted | CharDeleted(nick: string)

  /** The entry table after deleting the character `nick` whose owner's main is
      `main`: a swap re-files every entry under `nick` to the main (or removes
      them when the owner has none), a kill removes them. */
  function Cascade(s: seq<QueueEntry>, nick: string, action: DelAction, main: Option<string>): seq<QueueEntry>
  {
    match action
    case Swap => if main.Some? then RenameNick(s, nick, main.value) else WithoutNick(s, nick)
    case Kill => WithoutNick(s, nick)
    case OtherAction => s
  }

  /** `confirm_del_char_complex`: the owner's main is looked up before the
      character goes; the character is deleted whatever the action. */
  function ConfirmDelStep(t: Tables, cid: nat, action: DelAction): (Tables, ConfirmDelReply)
  {
    match CharById(t.chars, cid)
    case None => (t, AlreadyDeleted)
    case Some(i) =>
      var c := t.chars[i];
      var main := MainNick(t.chars, c.userId);
      (t.(chars := RemoveAt(t.chars, i), entries := Cascade(t.entries, c.nickname, action, main)),
       CharDeleted(c.nickname))
  }

  /** A swap onto an existing main keeps every entry, re-filing those under
      `nick`; a kill, or a swap without a main, removes exactly the entries
      under `nick` and keeps the rest in order. */
  lemma CascadeSpec(s: seq<QueueEntry>, nick: string, action: DelAction, main: Option<string>)
    ensures var r := Cascade(s, nick, action, main);
      && (action == Swap && main.Some? ==>
            && SameRefs(s, r)
            && (forall i :: 0 <= i < |s| && s[i].characterName == nick ==> r[i].characterName == main.value)
            && (forall i :: 0 <= i < |s| && s[i].characterName != nick ==> r[i] == s[i]))
      && (action == Kill || (action == Swap && main.None?) ==>
            && (forall i :: 0 <= i < |r| ==> r[i].characterName != nick && r[i] in s)
            && (forall i :: 0 <= i < |s| && s[i].characterName != nick ==> s[i] in r)
            && |r| + |EntriesNamed(s, nick)| == |s|)
      && (action == OtherAction ==> r == s)
  {
    match action
    case Swap =>
      if main.Some? {
        RenameNickSpec(s, nick, main.value);
      } else {
        WithoutNickSpec(s, nick);
      }
    case Kill =>
      WithoutNickSpec(s, nick);
    case OtherAction =>
  }

  lemma CascadeSnoc(s: seq<QueueEntry>, e: QueueEntry, nick: string, action: DelAction, main: Option<string>)
    ensures Cascade(s + [e], nick, action, main) ==
      Cascade(s, nick, action, main) +
      (if e.characterName != nick || action == OtherAction then [e]
       else if action == Swap && main.Some? then [e.(characterName := main.value)]
       else [])
  {
    if action == Swap && main.Some? {
      RenameNickSnoc(s, e, nick, main.value);
    } else if action != OtherAction {
      WithoutNickSnoc(s, e, nick);
    }
  }

  lemma CascadeOk(s: seq<QueueEntry>, ids: set<nat>, qids: set<nat>, bound: nat, nick: string, action: DelAction, main: Option<string>)
    requires EntriesOk(s, ids, qids, bound)
    ensures EntriesOk(Cascade(s, nick, action, main), ids, qids, bound)
  {
    if action == Swap && main.Some? {
      EntriesOkRenameNick(s, ids, qids, bound, nick, main.value);
    } else if action != OtherAction {
      EntriesOkKeep(s, ids, qids, bound, (e: QueueEntry) => e.characterName != nick);
    }
  }

  /** The cascade never gives a user two entries in one queue. */
  lemma CascadePairs(s: seq<QueueEntry>, nick: string, action: DelAction, main: Option<string>)
    requires PairsUnique(s)
    ensures PairsUnique(Cascade(s, nick, action, main))
  {
    if action == Swap && main.Some? {
      RenameNickSpec(s, nick, main.value);
      PairsUniqueSameRefs(s, RenameNick(s, nick, main.value));
    } else if action != OtherAction {
      PairsUniqueKeep(s, (e: QueueEntry) => e.characterName != nick);
    }
  }

  lemma ConfirmDelOk(t: Tables, cid: nat, action: DelAction)
    requires Ok(t)
    ensures Ok(ConfirmDelStep(t, cid, action).0)
    ensures PairsUnique(t.entries) ==> PairsUnique(ConfirmDelStep(t, cid, action).0.entries)
  {
    var found := CharById(t.chars, cid);
    if found.Some? {
      var c := t.chars[found.value];
      var main := MainNick(t.chars, c.userId);
      CascadeOk(t.entries, UserIds(t.users), QueueIds(t.queues), t.nextId, c.nickname, action, main);
      OkRemoveChar(t, found.value, Cascade(t.entries, c.nickname, action, main));
      if PairsUnique(t.entries) {
        CascadePairs(t.entries, c.nickname, action, main);
      }
    }
  }

  /** A missing character is reported and nothing changes; otherwise the
      character is gone, every other character stays, users, queues and keys
      are untouched, and the entries undergo the cascade for the owner's main. */
  lemma ConfirmDelSpec(t: Tables, cid: nat, action: DelAction)
    requires Ok(t)
    ensures var (t', reply) := ConfirmDelStep(t, cid, action);
      && (reply == AlreadyDeleted <==> CharById(t.chars, cid).None?)
      && (reply == AlreadyDeleted ==> t' == t)
      && (reply.CharDeleted? ==>
            var c := t.chars[CharById(t.chars, cid).value];
            && reply.nick == c.nickname
            && CharById(t'.chars, cid).None?
            && |t'.chars| + 1 == |t.chars|
            && (forall d :: d in t.chars && d.id != cid ==> d in t'.chars)
            && t'.entries == Cascade(t.entries, c.nickname, action, MainNick(t.chars, c.userId))
            && t' == t.(chars := t'.chars, entries := t'.entries))
  {
    var found := CharById(t.chars, cid);
    if found.Some? {
      CharByIdRemoved(t.chars, UserIds(t.users), t.nextId, found.value);
    }
  }

  /** Deleting the owner's own main with a swap re-files its entries under the
      deleted nickname itself, so they stay as they were. */
  lemma SwapOnMainKeepsEntries(t: Tables, cid: nat)
    requires Ok(t)
    requires CharById(t.chars, cid).Some? && t.chars[CharById(t.chars, cid).value].isMain
    ensures ConfirmDelStep(t, cid, Swap).0.entries == t.entries
  {
    var i := CharById(t.chars, cid).value;
    var c := t.chars[i];
    MainIsUnique(t.chars, UserIds(t.users), t.nextId, c.userId, i);
    RenameNickSpec(t.entries, c.nickname, c.nickname);
  }

  lemma ConfirmDelValid(db: Store, t: Tables, cid: nat, action: DelAction)
    requires Ok(t) && db.State() == ConfirmDelStep(t, cid, action).0
    ensures db.Valid()
  {
    ConfirmDelOk(t, cid, action);
  }

  method ConfirmDelChar(db: Store, cid: nat, action: DelAction) returns (reply: ConfirmDelReply)
    requires db.Valid()
    modifies db
    ensures db.Valid()
    ensures (db.State(), reply) == ConfirmDelStep(old(db.State()), cid, action)
  {
    ghost var t := db.State();
    var found := CharById(db.chars, cid);
    if found.None? {
      return AlreadyDeleted;
    }
    var i := found.value;
    var nick, owner := db.chars[i].nickname, db.chars[i].userId;
    var main := MainNick(db.chars, owner);
    var es := CascadeEntries(db.entries, nick, action, main);
    db.entries := es;
    db.chars := RemoveAt(db.chars, i);
    reply := CharDeleted(nick);
    ConfirmDelValid(db, t, cid, action);
  }

  /** The loop over the entries filed under the deleted nickname, rebuilding
      the table as the cascade leaves it. */
  method CascadeEntries(entries: seq<QueueEntry>, nick: string, action: DelAction, main: Option<string>)
    returns (es: seq<QueueEntry>)
    ensures es == Cascade(entries, nick, action, main)
  {
    es := [];
    var i := 0;
    while i < |entries|
      invariant 0 <= i <= |entries|
      invariant es == Cascade(entries[..i], nick, action, main)
    {
      var e := entries[i];
      assert entries[..i + 1] == entries[..i] + [e];
      CascadeSnoc(entries[..i], e, nick, action, main);
      if e.characterName != nick || action == OtherAction {
        es := es + [e];
      } else if action == Swap && main.Some? {
        es := es + [e.(characterName := main.value)];
      }
      i := i + 1;
    }
    assert entries[..i] == entries;
  }
}
