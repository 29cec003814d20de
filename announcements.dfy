/** The announcement part of handlers/admin.py: the APScheduler job store the
    bot registers its broadcasts in (`schedule_job`), the broadcast a job fires
    (`run_broadcast`), cancelling (`m_del_schedule`), and the three ways an
    announcement is created (`m_ann_type` "now", `process_future_datetime`,
    `process_time_only`, the last fed by `toggle_day`). */
module Announcements {
  import opened Base
  import opened Text
  import opened Database

  // ------------------------------------------------------------ the job store

  /** What a job fires on: a cron rule (every day, or on the listed weekdays)
      at a wall-clock hour and minute, or one calendar date. */
  datatype Trigger = Cron(daysOfWeek: Option<string>, hour: nat, minute: nat) | Date(runDate: string)

  /** A registered job: its trigger and the announcement `run_broadcast` gets. */
  datatype Job = Job(trigger: Trigger, annId: nat)

  /** The scheduler built in loader.py: its jobs by id, and whether it runs. */
  class Scheduler {
    var jobs: map<string, Job>
    var running: bool

    constructor ()
      ensures jobs == map[] && !running
    {
      jobs := map[];
      running := false;
    }
  }

  /** The job id of an announcement, `f"ann_{ann.id}"`. */
  function JobId(aid: nat): (r: string)
    ensures |r| > 4 && r[..4] == "ann_"
  {
    "ann_" + ShowNat(aid)
  }

  /** Two announcements never share a job id. */
  lemma JobIdInjective(a: nat, b: nat)
    requires JobId(a) == JobId(b)
    ensures a == b
  {
    assert ShowNat(a) == JobId(a)[4..];
    assert ShowNat(b) == JobId(b)[4..];
    ShowNatInjective(a, b);
  }

  // ------------------------------------------------------ trigger of a row

  /** `h, m = map(int, run_time.split(':'))`, and the cron trigger's own range
      check: `None` where either raises. */
  function HourMinute(s: string): (r: Option<(nat, nat)>)
    ensures r.Some? ==> r.value.0 < 24 && r.value.1 < 60
    ensures r.Some? ==> |Split(s, ':')| == 2
  {
    var parts := Split(s, ':');
    if |parts| != 2 then None
    else
      match ParseInt(parts[0])
      case None => None
      case Some(h) =>
        match ParseInt(parts[1])
        case None => None
        case Some(m) => if 0 <= h < 24 && 0 <= m < 60 then Some((h as nat, m as nat)) else None
  }

  /** The trigger `schedule_job` builds for an announcement, or `None` when it
      registers nothing: a `once_now` row, or a run time that does not parse.
      `dateOk` says whether `strptime(run_time, "%d.%m.%Y %H:%M")` accepts the
      text. */
  function TriggerFor(a: Announcement, dateOk: string -> bool): (r: Option<Trigger>)
    ensures a.scheduleType == OnceNow ==> r.None?
    ensures a.scheduleType == OnceFuture ==> (r.Some? <==> dateOk(a.runTime)) && (r.Some? ==> r.value == Date(a.runTime))
    ensures (a.scheduleType == Daily || a.scheduleType == Weekly) ==>
      && (r.Some? <==> HourMinute(a.runTime).Some?)
      && (r.Some? ==> r.value.Cron? && (r.value.hour, r.value.minute) == HourMinute(a.runTime).value)
    ensures r.Some? && r.value.Cron? ==>
      r.value.daysOfWeek == (if a.scheduleType == Weekly then a.daysOfWeek else None)
  {
    match a.scheduleType
    case Daily =>
      (match HourMinute(a.runTime)
       case None => None
       case Some(hm) => Some(Cron(None, hm.0, hm.1)))
    case Weekly =>
      (match HourMinute(a.runTime)
       case None => None
       case Some(hm) => Some(Cron(a.daysOfWeek, hm.0, hm.1)))
    case OnceFuture => if dateOk(a.runTime) then Some(Date(a.runTime)) else None
    case OnceNow => None
  }

  /** The job store after `schedule_job(a)`: with `replace_existing=True` the
      job under the announcement's id is (re)placed; a failure is caught and
      leaves the store as it was. */
  function Scheduled(jobs: map<string, Job>, a: Announcement, dateOk: string -> bool): map<string, Job>
  {
    match TriggerFor(a, dateOk)
    case None => jobs
    case Some(tr) => jobs[JobId(a.id) := Job(tr, a.id)]
  }

  /** Scheduling touches only the announcement's own job id, and puts there the
      announcement's trigger when it has one. */
  lemma ScheduledSpec(jobs: map<string, Job>, a: Announcement, dateOk: string -> bool)
    ensures var r := Scheduled(jobs, a, dateOk);
      && (TriggerFor(a, dateOk).Some? ==> JobId(a.id) in r && r[JobId(a.id)] == Job(TriggerFor(a, dateOk).value, a.id))
      && (TriggerFor(a, dateOk).None? ==> r == jobs)
      && r.Keys <= jobs.Keys + {JobId(a.id)}
      && (forall id :: id in jobs && id != JobId(a.id) ==> id in r && r[id] == jobs[id])
  {
  }

  /** `replace_existing`: scheduling an announcement again supersedes its old job. */
  lemma RescheduleSupersedes(jobs: map<string, Job>, a: Announcement, b: Announcement, dateOk: string -> bool)
    requires a.id == b.id && TriggerFor(b, dateOk).Some?
    ensures Scheduled(Scheduled(jobs, a, dateOk), b, dateOk) == Scheduled(jobs, b, dateOk)
  {
  }

  /** `schedule_job`. */
  method ScheduleJob(sched: Scheduler, a: Announcement, dateOk: string -> bool)
    modifies sched
    ensures sched.jobs == Scheduled(old(sched.jobs), a, dateOk)
    ensures sched.running == old(sched.running)
  {
    var id := JobId(a.id);
    if a.scheduleType == Daily || a.scheduleType == Weekly {
      var hm := HourMinute(a.runTime);
      if hm.Some? {
        var days := if a.scheduleType == Weekly then a.daysOfWeek else None;
        sched.jobs := sched.jobs[id := Job(Cron(days, hm.value.0, hm.value.1), a.id)];
      }
    } else if a.scheduleType == OnceFuture {
      if dateOk(a.runTime) {
        sched.jobs := sched.jobs[id := Job(Date(a.runTime), a.id)];
      }
    }
  }

  // ---------------------------------------------------------- run_broadcast

  /** One message sent: the chat it goes to and the announcement text (the
      heading and the HTML mark-up around it are left out). */
  datatype Notice = Notice(chatId: int, text: string)

  /** The announcement sent to every user, in table order. */
  function NoticesTo(users: seq<User>, text: string): (r: seq<Notice>)
    ensures |r| == |users|
    ensures forall i :: 0 <= i < |users| ==> r[i] == Notice(users[i].telegramId, text)
  {
    seq(|users|, i requires 0 <= i < |users| => Notice(users[i].telegramId, text))
  }

  /** `run_broadcast(ann_id)`: a missing or inactive announcement sends
      nothing; otherwise every user, banned or not, is sent the text, and a
      `once_future` announcement is switched off. */
  function BroadcastStep(t: Tables, aid: nat): (Tables, seq<Notice>)
  {
    match AnnById(t.anns, aid)
    case None => (t, [])
    case Some(k) =>
      var a := t.anns[k];
      if !a.isActive then (t, [])
      else if a.scheduleType == OnceFuture then (t.(anns := t.anns[k := a.(isActive := false)]), NoticesTo(t.users, a.text))
      else (t, NoticesTo(t.users, a.text))
  }

  lemma BroadcastSpec(t: Tables, aid: nat)
    ensures var (t', sent) := BroadcastStep(t, aid);
      var k := AnnById(t.anns, aid);
      && (k.None? || !t.anns[k.value].isActive ==> t' == t && sent == [])
      && (k.Some? && t.anns[k.value].isActive ==>
            && |sent| == |t.users|
            && (forall i :: 0 <= i < |t.users| ==> sent[i].chatId == t.users[i].telegramId && sent[i].text == t.anns[k.value].text)
            && |t'.anns| == |t.anns|
            && t'.anns[k.value].isActive == (t.anns[k.value].scheduleType != OnceFuture)
            && (forall j :: 0 <= j < |t.anns| && j != k.value ==> t'.anns[j] == t.anns[j])
            && t'.anns[k.value] == t.anns[k.value].(isActive := t'.anns[k.value].isActive))
      && t' == t.(anns := t'.anns)
  {
  }

  /** Switching one announcement's flag leaves the lookup by id as it was. */
  lemma AnnByIdFlag(anns: seq<Announcement>, k: nat, on: bool, aid: nat)
    requires k < |anns|
    ensures AnnById(anns[k := anns[k].(isActive := on)], aid) == AnnById(anns, aid)
  {
    var anns' := anns[k := anns[k].(isActive := on)];
    assert forall j :: 0 <= j < |anns| ==> anns'[j].id == anns[j].id;
  }

  /** A one-off announcement fires once: a second firing sends nothing. A
      daily or weekly one fires the same way every time. */
  lemma BroadcastRepeat(t: Tables, aid: nat)
    ensures var t' := BroadcastStep(t, aid).0;
      match AnnById(t.anns, aid)
      case None => true
      case Some(k) =>
        if t.anns[k].scheduleType == OnceFuture then BroadcastStep(t', aid) == (t', [])
        else BroadcastStep(t', aid) == BroadcastStep(t, aid)
  {
    match AnnById(t.anns, aid)
    case None =>
    case Some(k) =>
      AnnByIdFlag(t.anns, k, false, aid);
  }

  /** Firing a broadcast keeps the invariant. */
  lemma BroadcastOk(t: Tables, aid: nat)
    requires Ok(t)
    ensures Ok(BroadcastStep(t, aid).0)
  {
    var t' := BroadcastStep(t, aid).0;
    BroadcastState(t, aid);
    KeyedSameKeys(t.anns, t'.anns, AnnKey, t.nextId);
    OkWithAnns(t, t'.anns);
  }

  /** A broadcast writes at most the active flag of one announcement. */
  lemma BroadcastState(t: Tables, aid: nat)
    ensures var t' := BroadcastStep(t, aid).0;
      t' == t.(anns := t'.anns) && SameKeys(t.anns, t'.anns, AnnKey)
  {
    match AnnById(t.anns, aid)
    case None =>
    case Some(k) =>
      var t' := BroadcastStep(t, aid).0;
      assert SameKeys(t.anns, t'.anns, AnnKey);
  }

  lemma OkWithAnns(t: Tables, anns: seq<Announcement>)
    requires Ok(t) && KeyedBelow(anns, AnnKey, t.nextId)
    ensures Ok(t.(anns := anns))
  {
  }

  lemma BroadcastValid(db: Store, t: Tables, aid: nat)
    requires Ok(t) && db.State() == BroadcastStep(t, aid).0
    ensures db.Valid()
  {
    BroadcastOk(t, aid);
  }

  /** `run_broadcast`: the loop over all users; a failed send is skipped
      and is still listed here as attempted. */
  method RunBroadcast(db: Store, aid: nat) returns (sent: seq<Notice>)
    requires db.Valid()
    modifies db
    ensures db.Valid()
    ensures (db.State(), sent) == BroadcastStep(old(db.State()), aid)
  {
    ghost var t := db.State();
    var k := AnnById(db.anns, aid);
    if k.None? || !db.anns[k.value].isActive {
      return [];
    }
    var text := db.anns[k.value].text;
    sent := [];
    var i := 0;
    while i < |db.users|
      invariant 0 <= i <= |db.users|
      invariant sent == NoticesTo(db.users[..i], text)
    {
      sent := sent + [Notice(db.users[i].telegramId, text)];
      i := i + 1;
    }
    assert db.users[..i] == db.users;
    if db.anns[k.value].scheduleType == OnceFuture {
      db.anns := db.anns[k.value := db.anns[k.value].(isActive := false)];
    }
    BroadcastValid(db, t, aid);
  }

  // -------------------------------------------------------- m_del_schedule

  /** `m_del_schedule(aid)`: the row is switched off and its job removed, an
      absent job being no error; an unknown id changes nothing at all. */
  function CancelStep(t: Tables, jobs: map<string, Job>, aid: nat): (Tables, map<string, Job>)
  {
    match AnnById(t.anns, aid)
    case None => (t, jobs)
    case Some(k) => (t.(anns := t.anns[k := t.anns[k].(isActive := false)]), jobs - {JobId(aid)})
  }

  lemma CancelSpec(t: Tables, jobs: map<string, Job>, aid: nat)
    ensures var (t', jobs') := CancelStep(t, jobs, aid);
      && (AnnById(t.anns, aid).None? ==> t' == t && jobs' == jobs)
      && (AnnById(t.anns, aid).Some? ==>
            && JobId(aid) !in jobs'
            && (forall id :: id in jobs && id != JobId(aid) ==> id in jobs' && jobs'[id] == jobs[id])
            && jobs'.Keys <= jobs.Keys
            && (JobId(aid) !in jobs ==> jobs' == jobs)
            && |t'.anns| == |t.anns|
            && t'.anns[AnnById(t.anns, aid).value] == t.anns[AnnById(t.anns, aid).value].(isActive := false)
            && (forall j :: 0 <= j < |t.anns| && j != AnnById(t.anns, aid).value ==> t'.anns[j] == t.anns[j]))
      && t' == t.(anns := t'.anns)
  {
    if AnnById(t.anns, aid).Some? && JobId(aid) !in jobs {
      assert jobs - {JobId(aid)} == jobs;
    }
  }

  /** Once cancelled, an announcement never broadcasts again, even through a
      job that is still registered. */
  lemma CancelledIsSilent(t: Tables, jobs: map<string, Job>, aid: nat)
    requires AnnById(t.anns, aid).Some?
    ensures var t' := CancelStep(t, jobs, aid).0; BroadcastStep(t', aid) == (t', [])
  {
    AnnByIdFlag(t.anns, AnnById(t.anns, aid).value, false, aid);
  }

  lemma CancelOk(t: Tables, jobs: map<string, Job>, aid: nat)
    requires Ok(t)
    ensures Ok(CancelStep(t, jobs, aid).0)
  {
    match AnnById(t.anns, aid)
    case None =>
    case Some(k) =>
      var t' := CancelStep(t, jobs, aid).0;
      assert SameKeys(t.anns, t'.anns, AnnKey);
      KeyedSameKeys(t.anns, t'.anns, AnnKey, t.nextId);
      assert t' == t.(anns := t'.anns);
  }

  method CancelSchedule(db: Store, sched: Scheduler, aid: nat)
    requires db.Valid()
    modifies db, sched
    ensures db.Valid()
    ensures (db.State(), sched.jobs) == CancelStep(old(db.State()), old(sched.jobs), aid)
    ensures sched.running == old(sched.running)
  {
    ghost var t := db.State();
    ghost var jobs := sched.jobs;
    var k := AnnById(db.anns, aid);
    if k.Some? {
      db.anns := db.anns[k.value := db.anns[k.value].(isActive := false)];
      var id := JobId(aid);
      if id in sched.jobs {
        sched.jobs := sched.jobs - {id};
      } else {
        assert sched.jobs - {id} == sched.jobs;
      }
      assert db.State() == CancelStep(t, jobs, aid).0;
      CancelOk(t, jobs, aid);
    }
  }

  // ------------------------------------------------------ new announcements

  /** A new active row with the next id. */
  function AddAnn(t: Tables, text: string, kind: ScheduleType, runTime: string, days: Option<string>): (Tables, Announcement)
  {
    var a := Announcement(t.nextId, text, kind, runTime, days, true);
    (t.(anns := t.anns + [a], nextId := t.nextId + 1), a)
  }

  lemma OkAddAnn(t: Tables, text: string, kind: ScheduleType, runTime: string, days: Option<string>)
    requires Ok(t)
    ensures Ok(AddAnn(t, text, kind, runTime, days).0)
    ensures AnnById(AddAnn(t, text, kind, runTime, days).0.anns, t.nextId) == Some(|t.anns|)
  {
    var (t', a) := AddAnn(t, text, kind, runTime, days);
    KeyedAppend(t.anns, AnnKey, t.nextId, a);
    assert forall j :: 0 <= j < |t.anns| ==> t'.anns[j].id != t.nextId;
    assert t'.anns[|t.anns|].id == t.nextId;
    CharsOkWiden(t.chars, UserIds(t.users), UserIds(t.users), t.nextId, t'.nextId);
    EntriesOkWiden(t.entries, UserIds(t.users), QueueIds(t.queues), UserIds(t.users), QueueIds(t.queues), t.nextId, t'.nextId);
    KeyedGrow(t.users, UserKey, t.nextId, t'.nextId);
    KeyedGrow(t.queues, QueueKey, t.nextId, t'.nextId);
    KeyedGrow(t.history, HistoryKey, t.nextId, t'.nextId);
  }

  /** The row `AddAnn` builds, stored with the next id. */
  method InsertAnn(db: Store, text: string, kind: ScheduleType, runTime: string, days: Option<string>) returns (a: Announcement)
    requires db.Valid()
    modifies db
    ensures db.Valid()
    ensures (db.State(), a) == AddAnn(old(db.State()), text, kind, runTime, days)
  {
    ghost var t := db.State();
    a := Announcement(db.nextId, text, kind, runTime, days, true);
    db.anns := db.anns + [a];
    db.nextId := db.nextId + 1;
    AddAnnValid(db, t, text, kind, runTime, days);
  }

  lemma AddAnnValid(db: Store, t: Tables, text: string, kind: ScheduleType, runTime: string, days: Option<string>)
    requires Ok(t) && db.State() == AddAnn(t, text, kind, runTime, days).0
    ensures db.Valid()
  {
    OkAddAnn(t, text, kind, runTime, days);
  }

  /** `m_ann_type` "now": a `once_now` row is stored and broadcast at once;
      being no `once_future`, it stays active. */
  function AnnounceNowStep(t: Tables, text: string): (Tables, seq<Notice>)
  {
    var (t1, a) := AddAnn(t, text, OnceNow, "now", None);
    BroadcastStep(t1, a.id)
  }

  lemma AnnounceNowSpec(t: Tables, text: string)
    requires Ok(t)
    ensures var (t', sent) := AnnounceNowStep(t, text);
      && sent == NoticesTo(t.users, text)
      && t' == t.(anns := t.anns + [Announcement(t.nextId, text, OnceNow, "now", None, true)], nextId := t.nextId + 1)
      && Ok(t')
  {
    OkAddAnn(t, text, OnceNow, "now", None);
  }

  method AnnounceNow(db: Store, text: string) returns (sent: seq<Notice>)
    requires db.Valid()
    modifies db
    ensures db.Valid()
    ensures (db.State(), sent) == AnnounceNowStep(old(db.State()), text)
  {
    var a := InsertAnn(db, text, OnceNow, "now", None);
    sent := RunBroadcast(db, a.id);
  }

  datatype CreateReply = BadFormat | Created(runTime: string)

  /** `process_future_datetime`: a date `strptime` accepts becomes an active
      `once_future` row with a date job; anything else is refused and nothing
      is stored. */
  function FutureStep(t: Tables, jobs: map<string, Job>, text: string, input: string, dateOk: string -> bool): (Tables, map<string, Job>, CreateReply)
  {
    var dt := Strip(input);
    if !dateOk(dt) then (t, jobs, BadFormat)
    else
      var (t1, a) := AddAnn(t, text, OnceFuture, dt, None);
      (t1, Scheduled(jobs, a, dateOk), Created(dt))
  }

  lemma FutureSpec(t: Tables, jobs: map<string, Job>, text: string, input: string, dateOk: string -> bool)
    ensures var (t', jobs', reply) := FutureStep(t, jobs, text, input, dateOk);
      && (reply == BadFormat <==> !dateOk(Strip(input)))
      && (reply == BadFormat ==> t' == t && jobs' == jobs)
      && (reply != BadFormat ==>
            && t'.anns == t.anns + [Announcement(t.nextId, text, OnceFuture, Strip(input), None, true)]
            && t' == t.(anns := t'.anns, nextId := t.nextId + 1)
            && jobs' == jobs[JobId(t.nextId) := Job(Date(Strip(input)), t.nextId)])
  {
  }

  method ProcessFuture(db: Store, sched: Scheduler, text: string, input: string, dateOk: string -> bool) returns (reply: CreateReply)
    requires db.Valid()
    modifies db, sched
    ensures db.Valid()
    ensures (db.State(), sched.jobs, reply) == FutureStep(old(db.State()), old(sched.jobs), text, input, dateOk)
    ensures sched.running == old(sched.running)
  {
    ghost var t, jobs := db.State(), sched.jobs;
    var dt := Strip(input);
    if !dateOk(dt) {
      return BadFormat;
    }
    var a := InsertAnn(db, text, OnceFuture, dt, None);
    ScheduleJob(sched, a, dateOk);
    reply := Created(dt);
    assert FutureStep(t, jobs, text, input, dateOk) == (AddAnn(t, text, OnceFuture, dt, None).0, Scheduled(jobs, a, dateOk), reply);
  }

  /** `strptime(s, "%H:%M")`: one or two digits for an hour up to 23, a colon,
      one or two digits for a minute up to 59. */
  predicate TimeOk(s: string)
  {
    var parts := Split(s, ':');
    && |parts| == 2
    && 1 <= |parts[0]| <= 2 && 1 <= |parts[1]| <= 2
    && ParseNat(parts[0]).Some? && ParseNat(parts[1]).Some?
    && ParseNat(parts[0]).value < 24 && ParseNat(parts[1]).value < 60
  }

  /** Whatever `strptime` accepts, `schedule_job` parses to the same hour and minute. */
  lemma TimeOkParses(s: string)
    requires TimeOk(s)
    ensures HourMinute(s) == Some((ParseNat(Split(s, ':')[0]).value, ParseNat(Split(s, ':')[1]).value))
  {
  }

  /** `process_time_only`: with weekdays chosen the row is `weekly` and keeps
      them comma-joined; without, it is `daily`. */
  function TimeOnlyStep(t: Tables, jobs: map<string, Job>, text: string, input: string, days: seq<string>, dateOk: string -> bool): (Tables, map<string, Job>, CreateReply)
  {
    var ts := Strip(input);
    if !TimeOk(ts) then (t, jobs, BadFormat)
    else
      var kind := if days != [] then Weekly else Daily;
      var ds := if days != [] then Some(Join(days, ',')) else None;
      var added := AddAnn(t, text, kind, ts, ds);
      (added.0, Scheduled(jobs, added.1, dateOk), Created(ts))
  }

  /** An accepted time is always registered, at the hour and minute typed,
      and a weekly job fires on exactly the weekdays chosen. */
  lemma TimeOnlySpec(t: Tables, jobs: map<string, Job>, text: string, input: string, days: seq<string>, dateOk: string -> bool)
    requires forall k :: 0 <= k < |days| ==> ',' !in days[k]
    ensures var (t', jobs', reply) := TimeOnlyStep(t, jobs, text, input, days, dateOk);
      var ts := Strip(input);
      && (reply == BadFormat <==> !TimeOk(ts))
      && (reply == BadFormat ==> t' == t && jobs' == jobs)
      && (reply != BadFormat ==>
            && t'.anns == t.anns + [Announcement(t.nextId, text, if days == [] then Daily else Weekly, ts,
                                                 if days == [] then None else Some(Join(days, ',')), true)]
            && t' == t.(anns := t'.anns, nextId := t.nextId + 1)
            && JobId(t.nextId) in jobs'
            && var tr := jobs'[JobId(t.nextId)].trigger;
               && tr.Cron?
               && tr.hour == ParseNat(Split(ts, ':')[0]).value
               && tr.minute == ParseNat(Split(ts, ':')[1]).value
               && (days == [] ==> tr.daysOfWeek.None?)
               && (days != [] ==> tr.daysOfWeek.Some? && Split(tr.daysOfWeek.value, ',') == days))
  {
    TimeOnlyState(t, jobs, text, input, days, dateOk);
    if TimeOk(Strip(input)) {
      TimeOnlyTrigger(TimeOnlyRow(t, text, input, days), days, dateOk);
    }
  }

  /** The row `process_time_only` stores for an accepted time. */
  function TimeOnlyRow(t: Tables, text: string, input: string, days: seq<string>): Announcement
  {
    Announcement(t.nextId, text, if days == [] then Daily else Weekly, Strip(input),
                 if days == [] then None else Some(Join(days, ',')), true)
  }

  lemma TimeOnlyState(t: Tables, jobs: map<string, Job>, text: string, input: string, days: seq<string>, dateOk: string -> bool)
    ensures !TimeOk(Strip(input)) ==> TimeOnlyStep(t, jobs, text, input, days, dateOk) == (t, jobs, BadFormat)
    ensures TimeOk(Strip(input)) ==>
      TimeOnlyStep(t, jobs, text, input, days, dateOk).0 ==
        t.(anns := t.anns + [TimeOnlyRow(t, text, input, days)], nextId := t.nextId + 1)
    ensures TimeOk(Strip(input)) ==>
      TimeOnlyStep(t, jobs, text, input, days, dateOk).1 == Scheduled(jobs, TimeOnlyRow(t, text, input, days), dateOk)
    ensures TimeOk(Strip(input)) ==> TimeOnlyStep(t, jobs, text, input, days, dateOk).2 == Created(Strip(input))
  {
  }

  /** The cron trigger of a row `process_time_only` stores: the typed hour and
      minute, and on a weekly row the chosen weekdays. */
  lemma TimeOnlyTrigger(a: Announcement, days: seq<string>, dateOk: string -> bool)
    requires TimeOk(a.runTime)
    requires forall k :: 0 <= k < |days| ==> ',' !in days[k]
    requires a.scheduleType == (if days == [] then Daily else Weekly)
    requires a.daysOfWeek == (if days == [] then None else Some(Join(days, ',')))
    ensures var tr := TriggerFor(a, dateOk);
      && tr.Some? && tr.value.Cron?
      && tr.value.hour == ParseNat(Split(a.runTime, ':')[0]).value
      && tr.value.minute == ParseNat(Split(a.runTime, ':')[1]).value
      && (days == [] ==> tr.value.daysOfWeek.None?)
      && (days != [] ==> tr.value.daysOfWeek.Some? && Split(tr.value.daysOfWeek.value, ',') == days)
  {
    TimeOkParses(a.runTime);
    if days != [] {
      SplitJoin(days, ',');
    }
  }

  method ProcessTimeOnly(db: Store, sched: Scheduler, text: string, input: string, days: seq<string>, dateOk: string -> bool) returns (reply: CreateReply)
    requires db.Valid()
    modifies db, sched
    ensures db.Valid()
    ensures (db.State(), sched.jobs, reply) == TimeOnlyStep(old(db.State()), old(sched.jobs), text, input, days, dateOk)
    ensures sched.running == old(sched.running)
  {
    ghost var t, jobs := db.State(), sched.jobs;
    var ts := Strip(input);
    if !TimeOk(ts) {
      return BadFormat;
    }
    var kind := if days != [] then Weekly else Daily;
    var ds := if days != [] then Some(Join(days, ',')) else None;
    assert TimeOnlyStep(t, jobs, text, input, days, dateOk) ==
      (AddAnn(t, text, kind, ts, ds).0, Scheduled(jobs, AddAnn(t, text, kind, ts, ds).1, dateOk), Created(ts));
    var a := InsertAnn(db, text, kind, ts, ds);
    ScheduleJob(sched, a, dateOk);
    reply := Created(ts);
  }

  // ------------------------------------------------------------- toggle_day

  /** `toggle_day`: a chosen weekday code is removed (its first occurrence),
      an unchosen one is appended. */
  function ToggleDay(days: seq<string>, code: string): (r: seq<string>)
    ensures code in days ==> |r| == |days| - 1
    ensures code !in days ==> r == days + [code]
  {
    match FindFirst(days, (d: string) => d == code)
    case None => days + [code]
    case Some(i) => RemoveAt(days, i)
  }

  /** On a list without repeats (the dialogue starts from an empty one) a
      toggle flips exactly the one code and keeps the list free of repeats;
      toggling twice brings back the same set of days, and the same list when
      the code was not chosen. */
  lemma ToggleDaySpec(days: seq<string>, code: string)
    requires Distinct(days)
    ensures var r := ToggleDay(days, code);
      && Distinct(r)
      && (code in r <==> code !in days)
      && (forall d :: d != code ==> (d in r <==> d in days))
      && (set d | d in ToggleDay(r, code)) == (set d | d in days)
      && (code !in days ==> ToggleDay(r, code) == days)
  {
    var r := ToggleDay(days, code);
    if code in days {
      ToggleDayRemove(days, code);
    } else {
      ToggleDayAdd(days, code);
    }
    assert forall d :: d in ToggleDay(r, code) <==> d in days;
  }

  /** Choosing a day not yet chosen appends it, and choosing it again removes it. */
  lemma ToggleDayAdd(days: seq<string>, code: string)
    requires Distinct(days) && code !in days
    ensures var r := ToggleDay(days, code);
      && Distinct(r) && code in r
      && (forall d :: d in r <==> d in days || d == code)
      && ToggleDay(r, code) == days
  {
    var r := ToggleDay(days, code);
    assert r == days + [code];
    assert forall j :: 0 <= j < |days| ==> r[j] != code;
    assert r[|days|] == code;
    assert FindFirst(r, (d: string) => d == code) == Some(|days|);
    assert RemoveAt(r, |days|) == days;
  }

  /** Choosing a chosen day removes it, and choosing it again appends it. */
  lemma ToggleDayRemove(days: seq<string>, code: string)
    requires Distinct(days) && code in days
    ensures var r := ToggleDay(days, code);
      && Distinct(r) && code !in r
      && (forall d :: d != code ==> (d in r <==> d in days))
      && ToggleDay(r, code) == r + [code]
  {
    var r := ToggleDay(days, code);
    var i := FindFirst(days, (d: string) => d == code).value;
    forall d | d in days && d != code ensures d in r {
      var j :| 0 <= j < |days| && days[j] == d;
      assert r[if j < i then j else j - 1] == d;
    }
    assert code !in r;
  }

}
