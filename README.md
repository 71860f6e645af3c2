# LINE reminder bot: verified model of its core logic

`app.py` is a small LINE chat bot. Almost all of it is glue: Flask routes,
LINE SDK calls, sleep loops and threads. This project models the three
pieces of sequential logic inside it, and proves what they promise:

* **The daily-reminder worker** (`_msg_worker`). Each polling tick reads the
  date and the `HH:MM` minute in the bot's time zone. When the date has
  changed it forgets which slots (12:30 and 21:30) fired. It then sends the
  reminder of at most one slot whose minute it is and that has not fired
  today. One tick is the pure function `Schedule.Step` over the state
  (fired-today flags, optional last date). `Schedule.ReminderWorker` is the
  same tick as a class whose fields are updated in place, and its `Tick`
  method is proved equal to `Step`. `Schedule.Run` folds ticks over a
  sequence of clock readings.
* **The broadcast fan-out** (`send_startup_broadcast`, and the same loop in
  the administrator's broadcast command). The recipients are the configured
  ids together with the collected ids. The function returns early when that
  set is empty. Otherwise it visits every id once, skips `""`, pushes to
  the rest and counts successes and failures; a failed push never stops the
  loop. The push is an oracle `accepts: UserId -> bool`. `Broadcast.FanOut`
  is the loop: it is proved to push exactly once to each distinct non-empty
  id and to report the oracle's counts.
* **The message handler and the user registry** (`handle_text_message` and
  the counts of `status`). The handler records the sender first. It then
  tries an ordered command table, where the first match wins: `我的ID`,
  `所有ID`, one of `狀態`/`status`/`ping`, the prefix `群發:` (admin check,
  then empty-body check), and otherwise the help reply. Each event gets
  exactly one reply. `Router.Classify` is the table and `Router.Respond`
  the reply. `Router.HandleTextMessage` is the handler over a
  `Registry.UserRegistry` object, proved to produce that reply.

Two pieces of Python string handling the core relies on are modelled in
`Text`:

* `str.strip()` with the characters of `str.isspace()`;
* `str.split(',')`, where `""` gives `[""]`.

Files:

| file | module |
|---|---|
| `wrappers.dfy` | `Option` |
| `text.dfy` | strip, split and join |
| `registry.dfy` | configured list, collected set, status counts |
| `broadcast.dfy` | fan-out loop, startup broadcast |
| `schedule.dfy` | reminder state machine and worker |
| `router.dfy` | command table, replies, handler |

Inputs rather than effects:

* the clock: date, minute and the formatted stamp, as `Schedule.Now`;
* the push outcome, as the `accepts` oracle;
* the configured recipient setting and the administrator id, as parameters;
* the pushes, as a returned log of `Broadcast.Push` values;
* the replies, as `Router.Reply` values. Their data is modelled; their
  wording is not.

Where the code and its design description differ, the model follows the code:

* Every sender id is added to the collected set, including `""`. It is not
  limited to non-empty ids.
* `str.split(',')` never returns an empty list, whatever the recipient
  setting; unset, it gives `[""]`. So `set(BROADCAST_USERS) | collected_user_ids`
  is never empty, and the early "no recipients" return of
  `send_startup_broadcast` is dead code in every deployment.
  `Broadcast.RecipientsNeverEmpty` states this.
* The total in the status counts includes `""` whenever it is present.

## Model

| member | source | states |
|---|---|---|
| Schedule.Step | app.py:69-87 | one tick keeps both slot keys in the flags and always records the tick's date as the last date |
| Schedule.StepFiresExactly | app.py:71-87 | a slot fires iff the minute equals its time exactly and it has not fired since the day check; when it fires, its flag and only its flag becomes true; with no firing, the flags are those after the day check; at most one slot fires per tick |
| Schedule.OtherMinuteIdle | app.py:76-87 | a minute that is neither 12:30 nor 21:30 fires nothing and leaves the flags as the day check left them |
| Schedule.FiredSlotStaysSilent | app.py:76-86 | once a slot has fired on a date, later ticks that date never fire it again and its flag stays set |
| Schedule.NewDayFiresAgain | app.py:71-79 | a tick on a date other than the stored one resets both flags before the slot checks, so the slot whose minute it is fires again |
| Schedule.FirstTickKeepsFlags | app.py:71-73 | the very first tick, with no stored date, resets nothing (the flags keep their initial value of line 59) |
| Schedule.DayStart | app.py:71-72 | the day check keeps both slot keys and never marks a slot fired; it changes nothing on the first tick or on a tick of the stored date, and clears every flag on a tick of another date |
| Schedule.Run | app.py:61-90 | a run of ticks keeps the flags well-formed, records for every tick the one slot it fired or none, the first entry being what `Step` fires, and leaves the last reading's date stored |
| Schedule.SameDayAtMostOnce | app.py:71-86 | across any run of ticks on one date, a slot fires at most once, and not at all if it had already fired on that date |
| Schedule.TwoDays | app.py:71-79 | 12:30 twice on one day and then on the next day fires, tick by tick, Noon, nothing, Noon |
| Schedule.ReminderText | app.py:77-84 | a reminder carries the tick's stamp after a nine-character greeting whose first character tells the noon text from the evening text |
| Schedule.ReminderTextDistinct | app.py:77-84 | two reminders are the same text iff they are for the same slot and the same stamp |
| Schedule.ReminderWorker.constructor | app.py:59 | the worker starts with both flags false and no stored date |
| Schedule.ReminderWorker.Tick | app.py:71-87 | the in-place tick moves the worker to exactly the state `Step` gives; when a slot fires it runs the startup broadcast with that slot's reminder text, and otherwise pushes nothing |
| Broadcast.TallyCoversTargets | app.py:117-128 | the counts the fan-out must report sum to the number of targets |
| Broadcast.Enumerate | app.py:117 | the iteration order of a set lists every element exactly once |
| Broadcast.FanOut | app.py:114-128 | the loop (also inlined in the admin command at lines 219-233) pushes `text` once to each distinct non-empty id and to nothing else; success counts the pushes the oracle accepted; success plus failure is the number of pushes; the counts are those of the accepted and refused targets |
| Broadcast.PushesDistinct | app.py:117-118 | no id receives two pushes from one fan-out |
| Broadcast.AcceptedCountsDelivered | app.py:119-128 | counting accepted pushes in the log counts the targets the oracle accepts; the rest count the targets it refuses |
| Broadcast.SendStartupBroadcast | app.py:104-130 | the early return, with no push, exactly when no id is known; otherwise one push of the message to each known non-empty id (none when "" is the only known id), with the oracle's success and failure counts |
| Broadcast.RecipientsNeverEmpty | app.py:107-111 | for any recipient setting split as at line 20, the known ids are never empty, so the early return is never taken; with the setting unset nobody is targeted while only "" is known |
| Registry.ParseBroadcastUsers | app.py:20 | the comma split returns at least one piece, no piece holds a comma, and joining the pieces gives the setting back |
| Registry.UnsetBroadcastUsers | app.py:20 | an unset setting gives the one-element list `[""]` |
| Registry.AllUsers | app.py:107 | an id is known iff it is configured or collected |
| Registry.Targets | app.py:118 | an id is targeted iff it is known and non-empty |
| Registry.NonEmptyEntries | app.py:146 | the filtered list is no longer than the list, holds only non-empty configured ids, and keeps every non-empty configured id |
| Registry.Status | app.py:143-148 | collected count is the size of the collected set, the configured count is at most the list length, and the total is the number of known ids |
| Registry.BroadcastUsersCountsEntries | app.py:146 | the configured count is the list length less its empty entries, so duplicates are counted |
| Registry.BroadcastUsersCountsDuplicates | app.py:146 | whatever the collected set, the configured count is at least the number of distinct non-empty configured ids |
| Registry.IdsAtMost | app.py:146 | `set(ids)` has no more elements than the list has entries |
| Registry.TotalUsersBounds | app.py:144-147 | collected count is at most the total, and the total is the number of targets plus one when "" is known |
| Registry.UserRegistry.constructor | app.py:24 | the collected set starts empty |
| Registry.UserRegistry.Collect | app.py:169 | the collected set grows by exactly the sender's id and loses nothing |
| Router.Classify | app.py:173-214 | each command is recognised iff the text is exactly `我的ID`, exactly `所有ID`, one of `狀態`/`status`/`ping`, or starts with `群發:`; the broadcast body is the text after the prefix |
| Router.Respond | app.py:173-261 | each command gets its own kind of reply, one per event; the refusal comes exactly to non-admin senders of a broadcast, and a broadcast result or an empty-body refusal only to the administrator; the `我的ID` and help replies carry the sender's id; the id listing carries the whole collected set and its size, at least one |
| Router.AnnouncementText | app.py:228 | the pushed announcement is a seven-character notice heading followed by the body, unchanged |
| Router.AnnouncementTextInjective | app.py:228 | two announcements are the same text iff their bodies are the same |
| Router.ClassifyAnnounce | app.py:214-217 | any text after the prefix `群發:` is recognised as a broadcast with that body |
| Router.HandleTextMessage | app.py:164-261 | the sender is recorded first; the reply is the one the command table gives for the updated registry; only an admin broadcast with a non-blank body pushes, and it pushes the announcement once to each distinct non-empty known id |
| Router.AllIdsIncludesSender | app.py:169-186 | because the sender is recorded first, the id listing is never the empty-state reply and counts at least one id |
| Router.RepliesNameSender | app.py:173-178 | the `我的ID` reply and the help reply (lines 248-261) both carry the sender's id |
| Router.OnlyAdminBroadcasts | app.py:214-239 | a sender other than the administrator gets the refusal |
| Router.BlankBodyRefused | app.py:216-237 | the administrator's broadcast is refused as empty iff its body is whitespace only |
| Router.BroadcastCountsEveryTarget | app.py:214-235 | a broadcast reply comes only from the administrator with a non-blank body, and its counts sum to the number of distinct non-empty known ids |
| Router.AdminBroadcastsBody | app.py:214-235 | the administrator's `群發:` followed by a body with no surrounding whitespace broadcasts exactly that body |
| Router.AdminSpacesOnly | app.py:216-237 | `群發:` followed by spaces only is refused as empty |
| Text.TrimStart | app.py:217 | the result is a suffix of the text, does not start with whitespace, and the cut prefix is all whitespace |
| Text.TrimEnd | app.py:217 | the result is a prefix of the text, does not end with whitespace, and the cut suffix is all whitespace |
| Text.Strip | app.py:217 | neither end of the stripped text is whitespace |
| Text.StripIsMiddle | app.py:217 | the text is the cut leading whitespace, then the stripped text, then the cut trailing whitespace |
| Text.StripEmptyIffBlank | app.py:217-218 | the stripped body is empty iff the body is whitespace only |
| Text.StripKeeps | app.py:217 | a text that starts and ends with a non-space is already stripped |
| Text.StripIdempotent | app.py:217 | stripping twice gives the same as stripping once |
| Text.Split | app.py:20 | a split gives at least one piece and no piece holds the separator |
| Text.JoinSplit | app.py:20 | joining the pieces of a split gives the text back |
| Text.SplitJoin | app.py:20 | pieces free of the separator come back from a join and a split unchanged |

## Left out

- Flask routes, HTTP plumbing and the webhook signature check (app.py:132-161): the signature check belongs to the LINE SDK, which is not part of this model.
- `keep_alive` and its worker (app.py:37-55): a network request and a sleep, with no logic.
- Threads and the start-up block (app.py:263-281): concurrency and process lifecycle. Ticks and message events are modelled one at a time, with no interleaving.
- The clock: reading `datetime.now` in Asia/Taipei and the `strftime` formatting (app.py:64-68, 77, 84) are inputs to `Schedule.ReminderWorker.Tick`.
- `time.sleep` and the exception handler around each tick (app.py:62-102): a tick that raises is not modelled.
- Environment and dotenv loading (app.py:13-21, 215): the administrator id and the configured list are parameters. `Registry.ParseBroadcastUsers` models the split of the setting.
- The LINE API calls: a push is the `accepts` oracle and is logged as a `Broadcast.Push`; a reply is a `Router.Reply` value.
- Reply wording and emoji: a reply carries its data (id, id set, counts), not its text. The newline-joined rendering of the `所有ID` listing, whose order is set iteration order, is not modelled.
- The default argument of `send_startup_broadcast` (app.py:104, the start-up congratulation): `Broadcast.SendStartupBroadcast` always takes the message as a parameter. The only call that would use the default is commented out at app.py:273. The worker always passes its reminder text.
- Broadcast.Enumerate: Python's set iteration order is not modelled. The proof covers an order nobody chooses, so every result holds for every order.
- The on-the-hour diagnostic print (app.py:92-95) and all other logging. Every `print` is assumed not to raise. In the source, a `print` that raised at app.py:125, after a successful push, would count that id as both a success and a failure. One that raised at app.py:128 would end the loop. The fan-out counts (success plus failure equals the number of targets, no early exit) rely on this.
- The unused `daily_reminders` and `DEFAULT_REMINDER_*` globals (app.py:29-34).
- Text.Strip: models `str.isspace()` on code points. There is no Unicode database; the whitespace set is written out.
