/**
 The daily-reminder worker: once per polling tick it reads the date and the
 "HH:MM" minute in the bot's time zone, forgets yesterday's fired slots when
 the date changes, and broadcasts the reminder of a slot whose minute it is
 and that has not fired today. The wall clock is an input.
 */
module Schedule {
  import opened Wrappers
  import opened Registry
  import opened Broadcast

  const NoonTime := "12:30"
  const EveningTime := "21:30"

  /** The two daily reminder slots. */
  datatype Slot = Noon | Evening

  function SlotTime(slot: Slot): string
  {
    match slot
    case Noon => NoonTime
    case Evening => EveningTime
  }

  /** `{"12:30": False, "21:30": False}`. */
  const Unsent: map<string, bool> := map[NoonTime := false, EveningTime := false]

  /** The worker's state: the fired-today flags, keyed by slot time, and the
      date of the previous tick (none before the first tick). */
  datatype ScheduleState = ScheduleState(sentToday: map<string, bool>, lastDate: Option<string>)

  predicate WellFormed(s: ScheduleState)
  {
    s.sentToday.Keys == {NoonTime, EveningTime}
  }

  const Initial := ScheduleState(Unsent, None)

  /** The flags after the day check: reset on a tick whose date differs
      from the previous tick's; the first tick keeps them. The check never
      marks a slot fired, and on a tick of the stored date it changes
      nothing. */
  function DayStart(s: ScheduleState, date: string): (flags: map<string, bool>)
    ensures WellFormed(s) ==> flags.Keys == {NoonTime, EveningTime}
    ensures forall k :: k in flags && flags[k] ==> k in s.sentToday && s.sentToday[k]
    ensures s.lastDate.None? || s.lastDate == Some(date) ==> flags == s.sentToday
    ensures s.lastDate.Some? && s.lastDate.value != date ==> forall k :: k in flags ==> !flags[k]
  {
    if s.lastDate.Some? && s.lastDate.value != date then Unsent else s.sentToday
  }

  /** What one tick leads to: the new state and the slot it fired, if any. */
  datatype TickResult = TickResult(next: ScheduleState, fired: Option<Slot>)

  /** One iteration of the worker loop at `date` and `minute`. */
  function Step(s: ScheduleState, date: string, minute: string): (t: TickResult)
    requires WellFormed(s)
    ensures WellFormed(t.next)
    ensures t.next.lastDate == Some(date)
  {
    var flags := DayStart(s, date);
    if minute == NoonTime && !flags[NoonTime] then
      TickResult(ScheduleState(flags[NoonTime := true], Some(date)), Some(Noon))
    else if minute == EveningTime && !flags[EveningTime] then
      TickResult(ScheduleState(flags[EveningTime := true], Some(date)), Some(Evening))
    else
      TickResult(ScheduleState(flags, Some(date)), None)
  }

  /** A tick fires a slot exactly when the minute is that slot's time and the
      slot has not fired since the day check, and then marks it fired; at
      most one slot fires, and every other flag is left as the day check
      left it. */
  lemma StepFiresExactly(s: ScheduleState, date: string, minute: string, slot: Slot)
    requires WellFormed(s)
    ensures Step(s, date, minute).fired == Some(slot)
        <==> minute == SlotTime(slot) && !DayStart(s, date)[SlotTime(slot)]
    ensures Step(s, date, minute).next.sentToday
         == if Step(s, date, minute).fired == Some(slot) then DayStart(s, date)[SlotTime(slot) := true]
            else if Step(s, date, minute).fired == None then DayStart(s, date)
            else Step(s, date, minute).next.sentToday
  {
  }

  /** A minute that is no slot's time fires nothing and changes no flag
      beyond the day check. */
  lemma OtherMinuteIdle(s: ScheduleState, date: string, minute: string)
    requires WellFormed(s) && minute != NoonTime && minute != EveningTime
    ensures Step(s, date, minute).fired == None
    ensures Step(s, date, minute).next.sentToday == DayStart(s, date)
  {
  }

  /** A slot that has fired today stays silent, and fired, for the rest of
      the day. */
  lemma FiredSlotStaysSilent(s: ScheduleState, date: string, minute: string, slot: Slot)
    requires WellFormed(s) && s.lastDate == Some(date) && s.sentToday[SlotTime(slot)]
    ensures Step(s, date, minute).fired != Some(slot)
    ensures Step(s, date, minute).next.sentToday[SlotTime(slot)]
  {
  }

  /** On the first tick of a new date both flags are reset, so a slot whose
      minute it is fires again. */
  lemma NewDayFiresAgain(s: ScheduleState, date: string, slot: Slot)
    requires WellFormed(s) && s.lastDate.Some? && s.lastDate.value != date
    ensures DayStart(s, date) == Unsent
    ensures Step(s, date, SlotTime(slot)).fired == Some(slot)
  {
  }

  /** The very first tick resets nothing. */
  lemma FirstTickKeepsFlags(s: ScheduleState, date: string)
    requires WellFormed(s) && s.lastDate == None
    ensures DayStart(s, date) == s.sentToday
  {
  }

  /** A clock reading as the worker formats it. */
  datatype Reading = Reading(date: string, minute: string)

  /** What a run of ticks leads to: the final state and, tick by tick, the
      slot each tick fired, if any. */
  datatype Trace = Trace(final: ScheduleState, fired: seq<Option<Slot>>)

  /** A run of ticks at the given readings. */
  function Run(s: ScheduleState, readings: seq<Reading>): (r: Trace)
    requires WellFormed(s)
    ensures WellFormed(r.final)
    ensures |r.fired| == |readings|
    ensures readings != [] ==> r.fired[0] == Step(s, readings[0].date, readings[0].minute).fired
    ensures readings != [] ==> r.final.lastDate == Some(readings[|readings| - 1].date)
    decreases |readings|
  {
    if readings == [] then Trace(s, [])
    else
      var t := Step(s, readings[0].date, readings[0].minute);
      var rest := Run(t.next, readings[1..]);
      Trace(rest.final, [t.fired] + rest.fired)
  }

  /** On one calendar date a slot fires at most once, and not at all if it
      had already fired on that date. */
  lemma {:induction false} SameDayAtMostOnce(s: ScheduleState, readings: seq<Reading>, date: string, slot: Slot)
    requires WellFormed(s)
    requires forall i :: 0 <= i < |readings| ==> readings[i].date == date
    ensures multiset(Run(s, readings).fired)[Some(slot)]
         <= if s.lastDate == Some(date) && s.sentToday[SlotTime(slot)] then 0 else 1
    decreases |readings|
  {
    if readings != [] {
      var t := Step(s, date, readings[0].minute);
      StepFiresExactly(s, date, readings[0].minute, slot);
      SameDayAtMostOnce(t.next, readings[1..], date, slot);
      var rest := Run(t.next, readings[1..]);
      assert Run(s, readings).fired == [t.fired] + rest.fired;
      if t.fired == Some(slot) {
        assert t.next.sentToday[SlotTime(slot)];
      } else if s.lastDate == Some(date) && s.sentToday[SlotTime(slot)] {
        FiredSlotStaysSilent(s, date, readings[0].minute, slot);
      }
    }
  }

  /** The schedule over two days: fire at 12:30, stay silent at 12:30 the
      same day, fire at 12:30 the next day. */
  lemma TwoDays(d1: string, d2: string)
    requires d1 != d2
    ensures Run(Initial, [Reading(d1, NoonTime), Reading(d1, NoonTime), Reading(d2, NoonTime)]).fired
         == [Some(Noon), None, Some(Noon)]
  {
    var readings := [Reading(d1, NoonTime), Reading(d1, NoonTime), Reading(d2, NoonTime)];
    var s1 := Step(Initial, d1, NoonTime);
    assert s1 == TickResult(ScheduleState(Unsent[NoonTime := true], Some(d1)), Some(Noon));
    var s2 := Step(s1.next, d1, NoonTime);
    assert s2 == TickResult(s1.next, None);
    var s3 := Step(s2.next, d2, NoonTime);
    assert s3.fired == Some(Noon);
    assert readings[1..] == [Reading(d1, NoonTime), Reading(d2, NoonTime)];
    assert readings[1..][1..] == [Reading(d2, NoonTime)];
    assert Run(s2.next, [Reading(d2, NoonTime)]).fired == [Some(Noon)];
  }

  /** The text of a slot's reminder; `stamp` is the time of the tick the
      worker formats as `%Y年%m月%d日 %H:%M`. The stamp sits after a
      nine-character greeting whose first character names the slot. */
  function ReminderText(slot: Slot, stamp: string): (t: string)
    ensures |t| == |stamp| + 17 && t[9..9 + |stamp|] == stamp
    ensures t[0] == if slot == Noon then '🌞' else '🌙'
  {
    match slot
    case Noon => "🌞 中午好！現在是" + stamp + " 該執行任務喔！"
    case Evening => "🌙 晚上好！現在是" + stamp + " 該執行任務喔！"
  }

  /** A reminder tells which slot fired and when: no two different slots
      or stamps give the same text. */
  lemma ReminderTextDistinct(slot1: Slot, stamp1: string, slot2: Slot, stamp2: string)
    ensures ReminderText(slot1, stamp1) == ReminderText(slot2, stamp2) <==> slot1 == slot2 && stamp1 == stamp2
  {
    if ReminderText(slot1, stamp1) == ReminderText(slot2, stamp2) {
      var t := ReminderText(slot1, stamp1);
      assert stamp1 == t[9..9 + |stamp1|];
    }
  }

  /** The clock as the worker reads it once per tick. */
  datatype Now = Now(date: string, minute: string, stamp: string)

  /** The worker thread's state, updated in place on every tick. */
  class ReminderWorker {
    var sentToday: map<string, bool>
    var lastDate: Option<string>

    function State(): ScheduleState
      reads this
    {
      ScheduleState(sentToday, lastDate)
    }

    ghost predicate Valid()
      reads this
    {
      WellFormed(State())
    }

    constructor ()
      ensures Valid() && State() == Initial
    {
      sentToday := Unsent;
      lastDate := None;
    }

    /** One iteration of the worker loop: the day check, then at most one
        reminder broadcast to the registry's users. */
    method Tick(now: Now, registry: UserRegistry, accepts: UserId -> bool)
      returns (fired: Option<Slot>, outcome: Option<Outcome>, pushes: seq<Push>)
      requires Valid()
      modifies this
      ensures Valid()
      ensures TickResult(State(), fired) == Step(old(State()), now.date, now.minute)
      ensures fired.None? ==> outcome.None? && pushes == []
      ensures fired.Some? ==>
                outcome.Some?
                && BroadcastSent(outcome.value, pushes, registry.configured, registry.collected,
                                 ReminderText(fired.value, now.stamp), accepts)
    {
      if lastDate.Some? && lastDate.value != now.date {
        sentToday := Unsent;
      }
      lastDate := Some(now.date);
      ghost var flags := DayStart(old(State()), now.date);
      assert sentToday == flags;
      fired, outcome, pushes := None, None, [];
      if now.minute == NoonTime && !sentToday[NoonTime] {
        var result;
        result, pushes := SendStartupBroadcast(registry.configured, registry.collected,
                                               ReminderText(Noon, now.stamp), accepts);
        sentToday := sentToday[NoonTime := true];
        fired, outcome := Some(Noon), Some(result);
        assert Step(old(State()), now.date, now.minute)
            == TickResult(ScheduleState(flags[NoonTime := true], Some(now.date)), Some(Noon));
      } else if now.minute == EveningTime && !sentToday[EveningTime] {
        var result;
        result, pushes := SendStartupBroadcast(registry.configured, registry.collected,
                                               ReminderText(Evening, now.stamp), accepts);
        sentToday := sentToday[EveningTime := true];
        fired, outcome := Some(Evening), Some(result);
        assert Step(old(State()), now.date, now.minute)
            == TickResult(ScheduleState(flags[EveningTime := true], Some(now.date)), Some(Evening));
      } else {
        assert Step(old(State()), now.date, now.minute) == TickResult(ScheduleState(flags, Some(now.date)), None);
      }
    }
  }
}
