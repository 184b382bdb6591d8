/** The reminder table: task text mapped to the wall-clock time at which the
    task's reminder is due. One tick of the checker fires and removes every
    reminder that is due and keeps the others. */
module Reminders {

  /** A wall-clock time in whole minutes (`"%Y-%m-%d %H:%M"` has no seconds). */
  type Time = int

  type ReminderTable = map<string, Time>

  /** The reminders one tick at `now` fires: those whose time is at or before `now`. */
  function Due(table: ReminderTable, now: Time): set<string> {
    set task | task in table && now >= table[task]
  }

  /** The table after one tick at `now`: exactly the reminders that did not
      fire, each with its time unchanged. */
  function AfterTick(table: ReminderTable, now: Time): (r: ReminderTable)
    ensures forall task :: task in r <==> task in table && task !in Due(table, now)
    ensures forall task :: task in r ==> r[task] == table[task] && now < r[task]
  {
    map task | task in table && now < table[task] :: table[task]
  }

  /** A tick splits the table: every reminder either fires or stays, not both. */
  lemma TickSplits(table: ReminderTable, now: Time)
    ensures Due(table, now) !! AfterTick(table, now).Keys
    ensures Due(table, now) + AfterTick(table, now).Keys == table.Keys
  {
  }

  /** A second tick at the same time fires nothing and changes nothing. */
  lemma TickIdempotent(table: ReminderTable, now: Time)
    ensures Due(AfterTick(table, now), now) == {}
    ensures AfterTick(AfterTick(table, now), now) == AfterTick(table, now)
  {
  }

  /** With the clock moving forward, a later tick fires exactly the reminders
      that have become due since: none fires twice. */
  lemma TickFiresOnce(table: ReminderTable, now: Time, later: Time)
    requires now <= later
    ensures Due(AfterTick(table, now), later) == Due(table, later) - Due(table, now)
  {
  }

  /** A tick before every reminder's time leaves the table as it is. */
  lemma TickBeforeAllTimes(table: ReminderTable, now: Time)
    requires forall task :: task in table ==> now < table[task]
    ensures Due(table, now) == {}
    ensures AfterTick(table, now) == table
  {
  }

  /** A reminder just set fires at the first tick at or after its time and is
      kept by every tick before it. */
  lemma SetThenTick(table: ReminderTable, task: string, at: Time, now: Time)
    ensures task in Due(table[task := at], now) <==> now >= at
    ensures now < at ==> task in AfterTick(table[task := at], now) && AfterTick(table[task := at], now)[task] == at
  {
  }
}
