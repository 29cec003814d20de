# guild_queue_bot, modelled in Dafny

guild_queue_bot is a Telegram bot for a game guild. Members register a main
character and alts ("twins") from the guild roster. They join reward queues,
within a limit on how many queues they may stand in at once. Masters hand out
the rewards, ban users, lock queues, set limits, add and kick entries by force,
and schedule announcements.

This project models the part of the bot that changes state:

- the store of database.py (`database.dfy`, `entries.dfy`): the seven tables,
  `ensure_user`, `get_effective_limit_logic` and the seeding in `init_db`;
- the character and queue handlers of handlers/user.py (`user_handlers.dfy`,
  `user_queues.dfy`);
- the master's handlers of handlers/admin.py (`admin_handlers.dfy`);
- the announcement scheduler of handlers/admin.py (`announcements.dfy`);
- the roster cache of utils.py (`roster.dfy`);
- the job restoration in main.py's `on_startup` (`startup.dfy`).

`base.dfy` and `text.dfy` hold the generic helpers: filtering and searching
tables, keyed tables, and the string functions the bot uses (`strip`, `lower`,
`int`, `str`, `split`, `join`).

**The store.** The store is a class, `Database.Store`. It has one field per
table, each a sequence of rows in insertion order. It also holds the pending
main changes of the dialogue and the next primary key.
Every handler is a method that changes the store in place. Each method is
proved equal to a step function on a snapshot of the store, `Tables`. The
lemmas about those step functions state what the handler promises. Each
method also keeps the store's invariant, `Store.Valid()`:

- keys are unique and below the next key, and Telegram ids are unique;
- every character and entry belongs to an existing user, and every entry to
  an existing queue;
- a user owns each nickname at most once and has at most one main;
- a pending main change belongs to an existing user, names a different
  nickname, and replaces the user's current main (or the user has lost that
  main since);
- the `default_limit` setting, when present, is a positive number, and so is
  every personal limit.

**Crashes.** A handler that would raise an exception in the source ends in a
reply named `…Crashed`. The crash happens when the handler reads an attribute
of a row that is missing. The state at that point is unchanged, because no
commit happened.

**Inputs from outside.** Some answers come from outside the model and become
parameters:

- the roster's answer for a nickname (`onRoster`);
- the rows fetched from the roster sheet (`Roster.Fetch`);
- the clock (`now`);
- whether `strptime(s, "%d.%m.%Y %H:%M")` accepts a text (`dateOk`).

## Model

| member | source | states |
|---|---|---|
| Database.Store.constructor | database.py:73-74 | a freshly created database has empty tables and satisfies the invariant |
| Database.EnsureKnownUser | database.py:94-100 | a known Telegram id returns that user's id and changes nothing |
| Database.EnsureNewUser | database.py:95-99 | an unknown Telegram id adds exactly one user row with the next key; the new user is a master iff the user table was empty |
| Database.EnsureUserOk | database.py:92-100 | the returned id names the row found by that Telegram id; earlier rows are untouched; only the user table and the key counter change; the invariant holds |
| Database.EnsureUserIdempotent | database.py:94-100 | a second `ensure_user` with the same Telegram id creates no row and returns the same id |
| Database.EnsureUser | database.py:92-100 | the method's new state and result are those of the `ensure_user` step, and the invariant is kept |
| Database.EffectiveLimit | database.py:107-115 | a personal limit wins whenever present; without one and without a `default_limit` row the limit is 1 |
| Database.EffectiveLimitPositive | database.py:107-115 | under the invariant the resolver never raises and yields at least 1 |
| Database.GlobalLimitRoundTrip | database.py:114-115 | storing `str(v)` as the default makes `int()` give back `v` for every user without an override |
| Database.SeedQueuesKeeps | database.py:81-83 | seeding keeps every existing queue unchanged and in place; it appends only active, unlocked queues named in the catalog, with fresh keys |
| Database.SeedQueuesCovers | database.py:81-83 | after seeding every catalog name is present |
| Database.SeedQueuesNoop | database.py:81-83 | when every name is already present, seeding adds nothing |
| Database.SeedTwice | database.py:76-83 | running the seeding twice adds nothing the second time |
| Database.SeedQueuesFreshNames | database.py:81-83 | seeding distinct absent names appends exactly those names, in catalog order |
| Database.SeedFresh | database.py:76-83 | on an empty database the queues are exactly the eleven catalog names, in order |
| Database.SeedSettingsSpec | database.py:85-86 | `default_limit` is seeded as "1" only when absent; an existing value stays |
| Database.InitDbOk | database.py:73-88 | seeding any list of queue names and the default setting, as `init_db` does, keeps the invariant |
| Database.AddMissingQueues | database.py:81-83 | the loop gives each listed name not yet in the table a new active, unlocked queue with a fresh key, in list order, and writes nothing else |
| Database.InitDb | database.py:73-88 | the method seeds the queues and the setting as the step functions say, and keeps the invariant |
| Entries.RenameOwnSpec | handlers/user.py:112-118 | after the rename every entry of the user is under the new nickname; nobody else's entry changes; no entry moves to another user or queue |
| Entries.RenameOwnCount | handlers/user.py:113-118 | the loop's counter equals the number of rows that actually change |
| Entries.WithoutNickSpec | handlers/admin.py:135 | exactly the entries under the nickname go, whoever owns them; the rest stay |
| Entries.RenameNickSpec | handlers/user.py:196-198 | re-filing changes only the character name of the entries under the nickname |
| Entries.WithoutUserSpec | handlers/admin.py:121 | exactly the user's entries go; everybody else's stay |
| Entries.PairsUniqueKeep | handlers/admin.py:121 | deleting entries keeps at most one entry per user and queue |
| Entries.PairsUniqueAppend | handlers/user.py:274-281 | appending an entry for a (user, queue) pair that has none keeps at most one entry per pair |
| UserHandlers.PromoteSpec | handlers/user.py:73-76 | promoting an own character of a user without a main makes it that user's only main; no other user's main changes |
| UserHandlers.AddCharSpec | handlers/user.py:78-79 | adding a nickname the user does not own keeps the character invariant; a new main becomes the main; an alt changes no main |
| UserHandlers.DemoteSpec | handlers/user.py:105-106 | demoting the old main leaves the user without a main and changes no one else's main |
| UserHandlers.ChangeMainSpec | handlers/user.py:105-110 | after a confirmed change the user has exactly one main, the proposed nickname; other users' mains are unchanged |
| UserHandlers.ChangeMainKeepsOld | handlers/user.py:105-106 | the old main stays as a non-main character at the same place |
| UserHandlers.MainForSpec | handlers/user.py:69-96 | no main: an own character is promoted, or a new main is created; either way it is the user's only main. The current main's nickname changes nothing. Any other nickname is only recorded as a proposal. Entries and users are never touched |
| UserHandlers.MainInputSpec | handlers/user.py:64-96 | a nickname the roster rejects changes nothing; otherwise the outcome is as `MainForSpec` says, for the stripped text |
| UserHandlers.ProcessMainInput | handlers/user.py:64-96 | the method's new state and reply are those of the step, and the invariant is kept |
| UserHandlers.ConfirmForSpec | handlers/user.py:99-122 | the user ends with exactly one main, the proposed one; every entry of the user is under it; nobody else's entry or main changes; the reported count is the number of entries changed; the proposal is gone |
| UserHandlers.MainConfirmSpec | handlers/user.py:99-103 | a tap on the confirmation button carries out the caller's own pending proposal |
| UserHandlers.ProcessMainConfirm | handlers/user.py:99-122 | the method's new state and reply are those of the step, and the invariant is kept |
| UserHandlers.RenameEntries | handlers/user.py:112-120 | the loop yields the renamed table and counts exactly the entries it changed |
| UserHandlers.DropProposal | handlers/user.py:25-27 | leaving the dialogue drops only that user's proposal |
| UserHandlers.DropThenConfirm | handlers/user.py:98 | once the proposal is dropped, a late confirmation does nothing |
| UserHandlers.AltForSpec | handlers/user.py:133-145 | an alt is added iff the user has a main, the roster knows the nickname and the user does not own it yet; then exactly one non-main character is added and nobody's main changes; otherwise nothing is written |
| UserHandlers.ProcessAlt | handlers/user.py:130-145 | the method's new state and reply are those of the step, and the invariant is kept |
| UserHandlers.DelCharSpec | handlers/user.py:157-180 | a missing character changes nothing. With no entry under its nickname only that character goes. Otherwise nothing but the caller's user row is written, and the offer counts those entries |
| UserHandlers.DelCharAction | handlers/user.py:157-180 | the method's new state and reply are those of the step, and the invariant is kept |
| UserHandlers.CascadeSpec | handlers/user.py:193-205 | a swap onto an existing main re-files every entry under the nickname to the main. A kill, or a swap without a main, removes exactly those entries and keeps the rest in order |
| UserHandlers.CascadePairs | handlers/user.py:193-205 | the cascade never gives a user two entries in one queue |
| UserHandlers.ConfirmDelSpec | handlers/user.py:183-207 | a missing character is reported and nothing changes. Otherwise the character goes, every other character stays, and the entries undergo the cascade for the owner's main |
| UserHandlers.SwapOnMainKeepsEntries | handlers/user.py:195-198 | swapping away the owner's own main re-files its entries under that same nickname, so the entry table stays as it was |
| UserHandlers.ConfirmDelChar | handlers/user.py:183-207 | the method's new state and reply are those of the step, and the invariant is kept |
| UserHandlers.CascadeEntries | handlers/user.py:193-205 | the loop over the entries under the nickname leaves exactly the cascaded table |
| UserQueues.PreJoinSpec | handlers/user.py:253-264 | a missing or locked queue writes nothing; otherwise only `ensure_user` writes; the choice offered is exactly the caller's characters |
| UserQueues.PreJoin | handlers/user.py:253-264 | the method's new state and reply are those of the step, and the invariant is kept |
| UserQueues.JoinForSpec | handlers/user.py:270-281 | each refusal happens exactly when its check fails, in the source's order, and writes nothing. A join happens exactly when every check passes, and then appends one entry (user, queue, character's nickname) with a fresh key |
| UserQueues.JoinForBound | handlers/user.py:277-281 | after a join the user holds at most their limit of entries, and still at most one per queue |
| UserQueues.JoinForPairs | handlers/user.py:274-275 | any `do_join` outcome keeps at most one entry per user and queue |
| UserQueues.JoinForReply | handlers/user.py:270-286 | the reply of `do_join` depends on the queue table only through whether the queue exists |
| UserQueues.JoinIgnoresLock | handlers/user.py:256-281 | locking or unlocking a queue changes nothing about what `do_join` does |
| UserQueues.JoinStepUnfold | handlers/user.py:270 | `do_join` is decided for the row `ensure_user` returns |
| UserQueues.JoinAs | handlers/user.py:270-287 | the method's checks, writes and reply after `ensure_user` are those of the step |
| UserQueues.DoJoin | handlers/user.py:267-289 | the method's new state and reply are those of the step; the invariant is kept when the queue exists |
| UserQueues.LeaveForSpec | handlers/user.py:295-304 | the user leaves iff they hold an entry in the queue; exactly that entry goes and every other stays; afterwards the user holds none there. Otherwise nothing changes |
| UserQueues.JoinThenLeave | handlers/user.py:281-301 | leaving right after joining restores the entry table; the model's key counter stays advanced |
| UserQueues.LeaveQueue | handlers/user.py:292-305 | the method's new state and reply are those of the step, and the invariant is kept |
| UserQueues.SwapForSpec | handlers/user.py:362-368 | a swap happens iff both the entry and the character exist. It changes only that entry's character name, keeping its user, its queue and every other entry |
| UserQueues.DoSwapFinish | handlers/user.py:359-377 | the method's new state and reply are those of the step, and the invariant is kept |
| AdminHandlers.MasterBootstrap | handlers/admin.py:20-22 | a newcomer registered by `ensure_user` passes the master check iff the user table was empty |
| AdminHandlers.IsMasterUpdate | handlers/admin.py:20-22 | rewriting a user row without touching its Telegram id or master flag keeps every caller's master check |
| AdminHandlers.ToggleBanSpec | handlers/admin.py:117-122 | a missing user or a master is left alone. Otherwise only that user's ban flag flips. A ban (never an unban) removes exactly that user's entries and keeps everybody else's |
| AdminHandlers.BanThenUnban | handlers/admin.py:119-121 | ban then unban restores the user row but none of the entries |
| AdminHandlers.BanKeepsMasters | handlers/admin.py:119-120 | a ban toggle never changes who passes the master check |
| AdminHandlers.ToggleBan | handlers/admin.py:114-125 | the method's new state and reply are those of the step, and the invariant is kept |
| AdminHandlers.AdminDeleteIsKill | handlers/admin.py:131-138 | the master's unlinking is the player's deletion with "kill": no entry under the nickname is left, of any user; the rest stay |
| AdminHandlers.AdminDeleteChar | handlers/admin.py:128-141 | the method's new state and reply are those of the step, and the invariant is kept |
| AdminHandlers.Notified | handlers/admin.py:207-210 | the reward notice goes out iff the entry's owner still exists |
| AdminHandlers.IssueSpec | handlers/admin.py:186-214 | a missing entry changes nothing; a missing caller crashes before writing. Otherwise exactly one history row is appended (owner, nickname, queue name, the caller's username), and exactly that entry goes |
| AdminHandlers.IssueAppliedSpec | handlers/admin.py:203-213 | recording appends the history row and removes exactly the entry, keeping every other entry |
| AdminHandlers.IssueTwice | handlers/admin.py:189-190 | issuing the same entry twice writes one history row: the second tap finds the entry gone |
| AdminHandlers.IssueReward | handlers/admin.py:186-218 | the method's new state and reply are those of the step, and the invariant is kept |
| AdminHandlers.SetGlobalSpec | handlers/admin.py:248-257 | a value below 1, no number, or a missing setting row is rejected and nothing changes. An accepted value is stored as its decimal text, `str(val)`, becomes the limit of every user without an override, and only that setting changes |
| AdminHandlers.SetGlobalLimit | handlers/admin.py:248-257 | the method's new state and reply are those of the step, and the invariant is kept |
| AdminHandlers.PersonalTarget | handlers/admin.py:265-268 | an unknown nickname finds nothing; a known one yields the owner of a character with that stripped nickname |
| AdminHandlers.SetPersonalSpec | handlers/admin.py:273-282 | a bad number or a vanished user is rejected. Otherwise only that user's override changes: it is set to the value iff the value is positive, and cleared otherwise, so the user's limit is that value, or else the global default under any later settings |
| AdminHandlers.SetPersonalLimit | handlers/admin.py:273-282 | the method's new state and reply are those of the step, and the invariant is kept |
| AdminHandlers.ToggleLockSpec | handlers/admin.py:295-300 | only the lock flag of that one queue flips; entries and every other queue stay; toggling twice restores the store |
| AdminHandlers.ToggleLock | handlers/admin.py:295-300 | the method's new state and reply are those of the step, and the invariant is kept |
| AdminHandlers.ForceOwnerSpec | handlers/admin.py:347-351 | the owner lookup fails iff the nickname's owner has no main, or the nickname is unknown and so is the caller. An unknown nickname is filed for the caller |
| AdminHandlers.ForceAddSpec | handlers/admin.py:342-354 | unless the lookup fails, exactly one entry (owner, queue, nickname as typed) is appended whatever the lock, the limit and the existing entries; a second entry for the same user and queue is possible |
| AdminHandlers.ForceAdd | handlers/admin.py:342-358 | the method's new state and reply are those of the step; the invariant is kept when the queue exists |
| AdminHandlers.KillSpec | handlers/admin.py:379-390 | under the invariant a kick removes exactly the entry asked for and nothing else; a missing entry changes nothing |
| AdminHandlers.KickEntry | handlers/admin.py:379-390 | the method's new state and reply are those of the step, and the invariant is kept |
| Announcements.Scheduler.constructor | main.py:30 | a new scheduler holds no job and is not running |
| Announcements.JobId | handlers/admin.py:414 | every job id starts with "ann_" |
| Announcements.JobIdInjective | handlers/admin.py:414 | two announcements never share a job id |
| Announcements.HourMinute | handlers/admin.py:417-420 | a run time is accepted only as two parts split at ':', with an hour below 24 and a minute below 60 |
| Announcements.TriggerFor | handlers/admin.py:413-426 | `once_now` registers nothing. `once_future` gets a date trigger iff the date parses. `daily`/`weekly` get a cron trigger iff the time parses, at that hour and minute; only `weekly` carries the weekdays |
| Announcements.ScheduledSpec | handlers/admin.py:413-426 | scheduling touches only the announcement's own job id, and puts the announcement's trigger there when it has one |
| Announcements.RescheduleSupersedes | handlers/admin.py:418-425 | scheduling the same announcement again supersedes its old job |
| Announcements.ScheduleJob | handlers/admin.py:413-426 | the method's job store is the one `Scheduled` describes |
| Announcements.NoticesTo | handlers/admin.py:405-408 | one notice per user, in table order, with the announcement text |
| Announcements.BroadcastSpec | handlers/admin.py:401-411 | a missing or inactive announcement sends nothing and changes nothing. Otherwise every user, banned or not, is sent the text, and only a `once_future` announcement is switched off |
| Announcements.BroadcastRepeat | handlers/admin.py:404-410 | a `once_future` announcement fires once and a second firing sends nothing; daily and weekly ones fire the same way each time |
| Announcements.RunBroadcast | handlers/admin.py:401-411 | the loop sends exactly the step's notices, and the new state is the step's |
| Announcements.CancelSpec | handlers/admin.py:525-535 | an unknown id changes nothing. Otherwise that row alone is switched off, every other row and table stays as it was, and its job is removed; every other job stays, and an absent job is no error |
| Announcements.CancelledIsSilent | handlers/admin.py:525-529 | once cancelled, an announcement never broadcasts again, even through a job still registered |
| Announcements.CancelSchedule | handlers/admin.py:525-535 | the method's row and job changes are those of the step, and the invariant is kept |
| Announcements.OkAddAnn | handlers/admin.py:505-506 | a new announcement row keeps the invariant and is found under the next id |
| Announcements.AnnounceNowSpec | handlers/admin.py:448-454 | "now" stores one active `once_now` row and sends its text to every user; it stays active |
| Announcements.AnnounceNow | handlers/admin.py:448-454 | the method's new state and notices are those of the step |
| Announcements.FutureSpec | handlers/admin.py:468-478 | a date `strptime` accepts becomes one appended active `once_future` row holding the text and the stripped date, with its date job; only the announcement table and the key counter change. Anything else is refused and nothing is stored |
| Announcements.ProcessFuture | handlers/admin.py:468-478 | the method's new state, job store and reply are those of the step |
| Announcements.TimeOkParses | handlers/admin.py:413-417 | whatever `strptime(…, "%H:%M")` accepts, `schedule_job` parses to the same hour and minute |
| Announcements.TimeOnlyTrigger | handlers/admin.py:413-421 | a row with an accepted time gets a cron trigger at its hour and minute, with the chosen weekdays on a weekly row and none on a daily one |
| Announcements.TimeOnlySpec | handlers/admin.py:498-510 | a malformed time changes nothing. An accepted time appends one active row holding the text, the stripped time, `weekly` with the comma-joined days iff days were chosen and `daily` without days otherwise; only the announcement table and the key counter change. Its cron job is at the typed hour and minute, and a weekly job fires on exactly the chosen days |
| Announcements.ProcessTimeOnly | handlers/admin.py:498-510 | the method's new state, job store and reply are those of the step |
| Announcements.ToggleDay | handlers/admin.py:485-486 | a chosen code loses one occurrence; an unchosen one is appended |
| Announcements.ToggleDayAdd | handlers/admin.py:481-487 | choosing a day not yet chosen appends it without creating a repeat, and choosing it again gives back the same list |
| Announcements.ToggleDayRemove | handlers/admin.py:481-487 | choosing a chosen day removes it and keeps every other day; choosing it again appends it |
| Announcements.ToggleDaySpec | handlers/admin.py:481-487 | on a list without repeats a toggle flips exactly that code and keeps the list free of repeats; toggling twice restores the set of days, and the list itself when the code was not chosen |
| Roster.NickOf | utils.py:48-53 | a row contributes its stripped target cell exactly when it has that cell and the stripped text is longer than one character |
| Roster.NicksFromLength | utils.py:43-54 | at most one nickname per row past the header |
| Roster.NicksFromSound | utils.py:43-54 | every collected nickname is the nickname of some row past the header |
| Roster.NicksFromComplete | utils.py:43-54 | every row past the header that has a nickname contributes it |
| Roster.NickOfStripped | utils.py:49-53 | a stored nickname is already stripped and longer than one character |
| Roster.CollectNicks | utils.py:40-54 | the loop collects exactly the nicknames the parsing rule defines, in row order |
| Roster.Listed | utils.py:69-75 | a nickname is found iff some cached nickname lowers to the lowered, stripped text |
| Roster.ListedIgnoresCase | utils.py:69-72 | a cached nickname is found under any spelling that lowers to it, with white space around it |
| Roster.EmptyListsNothing | utils.py:69-75 | an empty cache lists nothing |
| Roster.RosterCache.constructor | utils.py:18-19 | the cache starts empty and never updated |
| Roster.RosterCache.Update | utils.py:22-61 | an empty sheet or a failed fetch leaves list and stamp alone; otherwise the list is replaced wholesale and stamped with the current time |
| Roster.RosterCache.Check | utils.py:63-75 | a refresh happens iff the cache was never filled or is older than ten minutes; the answer is the case-insensitive lookup in the resulting list |
| Roster.CheckAnswerSpec | utils.py:63-75 | a fresh cache answers from what it holds; a never-filled cache whose refresh fails refuses every nickname; a successful refresh answers from the sheet just read |
| Roster.FreshAfterRefresh | utils.py:57-66 | after a successful refresh no further fetch happens for ten minutes |
| Startup.RestoredKeys | main.py:24-27 | re-registering rows adds jobs only under the rows' ids |
| Startup.RestoredKeeps | main.py:24-27 | re-registering rows keeps every job whose id is not one of theirs |
| Startup.RestoredSpec | main.py:24-27 | scheduling rows with distinct ids leaves each row that has a trigger with its own job; it adds jobs only under the rows' ids and keeps every other job |
| Startup.ToRestoreDistinct | main.py:22-25 | the rows handed to `schedule_job` have distinct ids |
| Startup.RestartRegisters | main.py:22-27 | after a restart every active announcement other than `once_now` whose schedule parses is registered again, under its own id, with its own trigger |
| Startup.RestartSkips | main.py:22-25 | after a restart no inactive and no `once_now` announcement has a job |
| Startup.OnStartup | main.py:16-31 | the job store is that of scheduling every active non-`once_now` row in order; the count equals the number of `schedule_job` calls; the scheduler runs at the end |

## Behaviour of the bot worth knowing

- `do_join` does not check the queue lock. Only `pre_join` does (handlers/user.py:256), so a join button sent before the queue was locked still works.
- `m_force_add_final` does not refuse an existing (user, queue) pair (handlers/admin.py:347-353). It can create a second entry for the same pair.
- Nicknames are unique per user, not system-wide (handlers/user.py:139). Deletion and the admin unlinking cascade by nickname across all users (handlers/user.py:162,191 and handlers/admin.py:135).
- `del_char_action` and `confirm_del_char_complex` do not check that the caller owns the character.
- The master flag is checked only when the master menu opens (handlers/admin.py:27). No master handler checks it again.
- A broadcast goes to every user, banned or without characters included (handlers/admin.py:405-408).
- An immediate (`once_now`) announcement stays active after it is sent. Only `once_future` is switched off (handlers/admin.py:409-410).
- A swap rewrites the entry in place and keeps its key (handlers/user.py:367), rather than recreating it.
- A ban only gates `/start` and the main menu (handlers/user.py:18-19 and 28-29). A banned user can still join a queue from an old `pre_join`/`do_join` button and edit characters; the model keeps those paths open too.
- `do_swap_finish` (handlers/user.py:365-367) does not check that the new character belongs to the entry's owner. The model's swap does not check it either.
- Some missing-row paths raise instead of answering, for example a missing queue in `pre_join` or a missing caller in `m_issue_reward`. The model has a `…Crashed` reply for each of them.

## Left out

- Telegram transport and rendering are left out: messages, keyboards, HTML, pagination and menu texts. Handlers return a reply value instead. Per-recipient send failures are only "skipped", so `RunBroadcast` lists every attempted notice.
- The aiogram state machine (states.py) is left out, except for the pending main change. The other dialogues' state data (the announcement text, the chosen days, the force-add nickname, the personal-limit target) are parameters of the handlers.
- `m_add_admin_save`, `m_edit_save`, `confirm_days`, `m_show_schedule` and the list, menu and view handlers are not modelled. They are single-field writes or read-only views outside the modelled core.
- `log_reward_to_sheet` is left out: it is an asynchronous call into the spreadsheet. So are the gspread and OAuth fetch in `update_cache`, which is replaced by the `Fetch` input.
- Timestamps of history rows and announcements are left out. APScheduler's computation of fire times, the MSK localisation and `datetime.now` are also left out; the clock is the `now` input.
- Date validity for `once_future` is the `dateOk` parameter.
- Announcements.HourMinute: APScheduler's own validation of `day_of_week` strings is not modelled. Only the hour and minute range checks are.
- Text.ParseInt: `int()` is modelled for ASCII digits with surrounding white space and one sign. Underscores and non-ASCII digits, which Python also accepts, are not modelled.
- Text.Lower: covers Latin and Cyrillic capitals only, not all of Unicode case mapping.
- Concurrency between handlers (`asyncio` interleavings) is not modelled. Each handler is one atomic step.
- UserQueues.DoJoin and AdminHandlers.ForceAdd promise the invariant only when the queue id names an existing queue. The source writes a dangling entry otherwise. Queues are never deleted and the buttons carry existing ids.
- UserHandlers.ConfirmDelChar: an action other than "swap" or "kill" (`OtherAction`) deletes the character and keeps the entries. The buttons never send one.
- Startup.OnStartup: that every restoration happens before `scheduler.start()` is visible in the method's body. The contract only states that the scheduler runs at the end and that the job store is fully restored then.
- SQLAlchemy session mechanics are left out: autoflush, identity map and lazy loading. Tables are sequences in insertion order.
- Primary keys: the model draws every key from one shared counter that never goes back, so a key is never handed out twice. The bot's tables are `Column(Integer, primary_key=True)` on SQLite without AUTOINCREMENT (database.py:11-60), so each table hands out max(rowid)+1 and the key of a deleted newest row is handed out again. A stale `issue_`, `kill_` or `do_swap_` button can then act on a newer entry; the model does not capture that.
- UserQueues.JoinThenLeave: that the left key stays used holds of the model's counter only; in the bot the next join in that table gets the same key again.
- AdminHandlers.IssueTwice: covers an immediate second tap. After another join has reused the issued entry's key, a stale tap in the bot would issue the newer entry; the model's keys are never reused, so it does not state that case.
- loader.py (configuration and bot construction) and keyboards.py are not part of this model.
