/** main.py: `on_startup` re-registers the scheduled announcements the
    database still holds, then starts the scheduler. */
module Startup {
  import opened Base
  import opened Database
  import opened Announcements

  /** `is_active`. */
  predicate IsActive(a: Announcement)
  {
    a.isActive
  }

  /** Every schedule type but `once_now` is registered again after a restart. */
  predicate Repeats(a: Announcement)
  {
    a.scheduleType != OnceNow
  }

  /** The rows `filter_by(is_active=True)` returns. */
  function ActiveAnns(anns: seq<Announcement>): seq<Announcement>
  {
    Keep(anns, IsActive)
  }

  /** The rows the loop hands to `schedule_job`: active, and not `once_now`. */
  function ToRestore(anns: seq<Announcement>): seq<Announcement>
  {
    Keep(ActiveAnns(anns), Repeats)
  }

  /** The job store after `schedule_job` on each row of `list`, in order. */
  function Restored(jobs: map<string, Job>, list: seq<Announcement>, dateOk: string -> bool): map<string, Job>
  {
    if list == [] then jobs
    else Scheduled(Restored(jobs, list[..|list| - 1], dateOk), list[|list| - 1], dateOk)
  }

  /** The job ids of a list of rows. */
  ghost function JobIds(list: seq<Announcement>): set<string>
  {
    set a | a in list :: JobId(a.id)
  }

  /** Rows with distinct ids. */
  ghost predicate DistinctIds(list: seq<Announcement>)
  {
    forall i, j :: 0 <= i < j < |list| ==> list[i].id != list[j].id
  }

  /** Scheduling one more row. */
  lemma RestoredSnoc(jobs: map<string, Job>, list: seq<Announcement>, a: Announcement, dateOk: string -> bool)
    ensures Restored(jobs, list + [a], dateOk) == Scheduled(Restored(jobs, list, dateOk), a, dateOk)
  {
    assert (list + [a])[..|list|] == list;
  }

  lemma JobIdsSnoc(list: seq<Announcement>)
    requires list != []
    ensures JobIds(list) == JobIds(list[..|list| - 1]) + {JobId(list[|list| - 1].id)}
  {
    assert list == list[..|list| - 1] + [list[|list| - 1]];
  }

  /** Scheduling a list of rows with distinct ids leaves each row that has a
      trigger with its own job, adds jobs only under the rows' ids, and keeps
      every other job. */
  lemma RestoredSpec(jobs: map<string, Job>, list: seq<Announcement>, dateOk: string -> bool)
    requires DistinctIds(list)
    ensures var r := Restored(jobs, list, dateOk);
      && (forall i :: 0 <= i < |list| && TriggerFor(list[i], dateOk).Some? ==>
            JobId(list[i].id) in r && r[JobId(list[i].id)] == Job(TriggerFor(list[i], dateOk).value, list[i].id))
      && r.Keys <= jobs.Keys + JobIds(list)
      && (forall id :: id in jobs && id !in JobIds(list) ==> id in r && r[id] == jobs[id])
  {
    RestoredHas(jobs, list, dateOk);
    RestoredKeys(jobs, list, dateOk);
    RestoredKeeps(jobs, list, dateOk);
  }

  lemma {:induction false} RestoredHas(jobs: map<string, Job>, list: seq<Announcement>, dateOk: string -> bool)
    requires DistinctIds(list)
    ensures var r := Restored(jobs, list, dateOk);
      forall i :: 0 <= i < |list| && TriggerFor(list[i], dateOk).Some? ==>
        JobId(list[i].id) in r && r[JobId(list[i].id)] == Job(TriggerFor(list[i], dateOk).value, list[i].id)
  {
    if list != [] {
      var init := list[..|list| - 1];
      var last := list[|list| - 1];
      RestoredHas(jobs, init, dateOk);
      var r0 := Restored(jobs, init, dateOk);
      ScheduledSpec(r0, last, dateOk);
      var r := Restored(jobs, list, dateOk);
      assert r == Scheduled(r0, last, dateOk);
      forall i | 0 <= i < |list| - 1 && TriggerFor(list[i], dateOk).Some?
        ensures JobId(list[i].id) in r && r[JobId(list[i].id)] == Job(TriggerFor(list[i], dateOk).value, list[i].id)
      {
        assert init[i] == list[i];
        if JobId(list[i].id) == JobId(last.id) {
          JobIdInjective(list[i].id, last.id);
        }
      }
    }
  }

  lemma {:induction false} RestoredKeys(jobs: map<string, Job>, list: seq<Announcement>, dateOk: string -> bool)
    ensures Restored(jobs, list, dateOk).Keys <= jobs.Keys + JobIds(list)
  {
    if list != [] {
      var init := list[..|list| - 1];
      var last := list[|list| - 1];
      RestoredKeys(jobs, init, dateOk);
      ScheduledSpec(Restored(jobs, init, dateOk), last, dateOk);
      JobIdsSnoc(list);
    }
  }

  lemma {:induction false} RestoredKeeps(jobs: map<string, Job>, list: seq<Announcement>, dateOk: string -> bool)
    ensures forall id :: id in jobs && id !in JobIds(list) ==>
      id in Restored(jobs, list, dateOk) && Restored(jobs, list, dateOk)[id] == jobs[id]
  {
    if list != [] {
      var init := list[..|list| - 1];
      var last := list[|list| - 1];
      RestoredKeeps(jobs, init, dateOk);
      ScheduledSpec(Restored(jobs, init, dateOk), last, dateOk);
      JobIdsSnoc(list);
    }
  }

  /** Filtering keeps the ids distinct. */
  lemma ToRestoreDistinct(anns: seq<Announcement>, bound: nat)
    requires KeyedBelow(anns, AnnKey, bound)
    ensures DistinctIds(ToRestore(anns))
  {
    KeyedKeep(anns, AnnKey, bound, IsActive);
    KeyedKeep(ActiveAnns(anns), AnnKey, bound, Repeats);
  }

  /** After a restart every active, non-immediate announcement whose schedule
      parses is registered again under its own id with its own trigger. */
  lemma RestartRegisters(anns: seq<Announcement>, bound: nat, dateOk: string -> bool, a: Announcement)
    requires KeyedBelow(anns, AnnKey, bound)
    requires a in anns && a.isActive && a.scheduleType != OnceNow && TriggerFor(a, dateOk).Some?
    ensures var r := Restored(map[], ToRestore(anns), dateOk);
      JobId(a.id) in r && r[JobId(a.id)] == Job(TriggerFor(a, dateOk).value, a.id)
  {
    var list := ToRestore(anns);
    ToRestoreDistinct(anns, bound);
    RestoredSpec(map[], list, dateOk);
    assert a in ActiveAnns(anns);
    var i :| 0 <= i < |list| && list[i] == a;
  }

  /** After a restart no inactive or `once_now` announcement has a job. */
  lemma RestartSkips(anns: seq<Announcement>, bound: nat, dateOk: string -> bool, a: Announcement)
    requires KeyedBelow(anns, AnnKey, bound)
    requires a in anns && (!a.isActive || a.scheduleType == OnceNow)
    ensures JobId(a.id) !in Restored(map[], ToRestore(anns), dateOk)
  {
    var list := ToRestore(anns);
    ToRestoreDistinct(anns, bound);
    RestoredSpec(map[], list, dateOk);
    NotRestored(anns, bound, a);
    forall b | b in list ensures JobId(b.id) != JobId(a.id) {
      if JobId(b.id) == JobId(a.id) {
        JobIdInjective(a.id, b.id);
      }
    }
  }

  /** No row handed to `schedule_job` shares its id with an inactive or
      `once_now` row. */
  lemma NotRestored(anns: seq<Announcement>, bound: nat, a: Announcement)
    requires KeyedBelow(anns, AnnKey, bound) && a in anns && (!a.isActive || a.scheduleType == OnceNow)
    ensures forall b :: b in ToRestore(anns) ==> b.id != a.id
  {
    forall b | b in ToRestore(anns) ensures b.id != a.id {
      assert b in ActiveAnns(anns);
      var i :| 0 <= i < |anns| && anns[i] == a;
      var j :| 0 <= j < |anns| && anns[j] == b;
    }
  }

  /** One more row handed to the loop. */
  lemma ToScheduleSnoc(tasks: seq<Announcement>, i: nat)
    requires i < |tasks|
    ensures Keep(tasks[..i + 1], Repeats) ==
      Keep(tasks[..i], Repeats) + (if tasks[i].scheduleType != OnceNow then [tasks[i]] else [])
  {
    assert tasks[..i + 1] == tasks[..i] + [tasks[i]];
    KeepAppend(tasks[..i], [tasks[i]], Repeats);
    KeepOne(tasks[i], Repeats);
  }

  /** `on_startup`: each active row that is not `once_now` is passed to
      `schedule_job` and counted, and only then is the scheduler started. */
  method OnStartup(db: Store, sched: Scheduler, dateOk: string -> bool) returns (count: nat)
    requires !sched.running
    modifies sched
    ensures sched.running
    ensures sched.jobs == Restored(old(sched.jobs), ToRestore(db.anns), dateOk)
    ensures count == |ToRestore(db.anns)|
  {
    var tasks := ActiveAnns(db.anns);
    ghost var jobs0 := sched.jobs;
    ghost var done: seq<Announcement> := [];
    count := 0;
    var i := 0;
    while i < |tasks|
      invariant 0 <= i <= |tasks|
      invariant done == Keep(tasks[..i], Repeats)
      invariant sched.jobs == Restored(jobs0, done, dateOk)
      invariant count == |done|
      invariant !sched.running
    {
      var a := tasks[i];
      ToScheduleSnoc(tasks, i);
      if a.scheduleType != OnceNow {
        ScheduleJob(sched, a, dateOk);
        RestoredSnoc(jobs0, done, a, dateOk);
        done := done + [a];
        count := count + 1;
      }
      i := i + 1;
    }
    assert tasks[..i] == tasks;
    sched.running := true;
  }
}
