/** Dates as epoch-day numbers (days since 1970-01-01, as LocalDate.toEpochDay counts them)
    and the weekend rule that fixes a priority deadline. */
module Calendar {

  /** The seven days of java.time.DayOfWeek, Monday first. */
  datatype DayOfWeek = Monday | Tuesday | Wednesday | Thursday | Friday | Saturday | Sunday

  /** The day of the week of an epoch day, as LocalDate.getDayOfWeek computes it:
      1970-01-01 was a Thursday, and Dafny's `%` by a positive divisor is the floor modulus. */
  function DayOfWeekOf(epochDay: int): DayOfWeek
  {
    var k := (epochDay + 3) % 7;
    if k == 0 then Monday
    else if k == 1 then Tuesday
    else if k == 2 then Wednesday
    else if k == 3 then Thursday
    else if k == 4 then Friday
    else if k == 5 then Saturday
    else Sunday
  }

  predicate IsWeekend(d: DayOfWeek)
  {
    d == Saturday || d == Sunday
  }

  /** The last day on which a customer at the head of the queue may claim the book:
      four days after a Saturday or a Sunday, two days after any other day. */
  function PriorityDeadline(today: int): (deadline: int)
    ensures today + 2 <= deadline <= today + 4
  {
    if IsWeekend(DayOfWeekOf(today)) then today + 4 else today + 2
  }

  /** The rule day by day, with the weekday on which the deadline falls. */
  lemma WeekendRuleByDay(today: int)
    ensures DayOfWeekOf(today) == Saturday ==>
              PriorityDeadline(today) == today + 4 && DayOfWeekOf(PriorityDeadline(today)) == Wednesday
    ensures DayOfWeekOf(today) == Sunday ==>
              PriorityDeadline(today) == today + 4 && DayOfWeekOf(PriorityDeadline(today)) == Thursday
    ensures DayOfWeekOf(today) == Monday ==>
              PriorityDeadline(today) == today + 2 && DayOfWeekOf(PriorityDeadline(today)) == Wednesday
    ensures DayOfWeekOf(today) == Tuesday ==>
              PriorityDeadline(today) == today + 2 && DayOfWeekOf(PriorityDeadline(today)) == Thursday
    ensures DayOfWeekOf(today) == Wednesday ==>
              PriorityDeadline(today) == today + 2 && DayOfWeekOf(PriorityDeadline(today)) == Friday
    ensures DayOfWeekOf(today) == Thursday ==>
              PriorityDeadline(today) == today + 2 && DayOfWeekOf(PriorityDeadline(today)) == Saturday
    ensures DayOfWeekOf(today) == Friday ==>
              PriorityDeadline(today) == today + 2 && DayOfWeekOf(PriorityDeadline(today)) == Sunday
  {
    var k := (today + 3) % 7;
    assert (today + 2 + 3) % 7 == (k + 2) % 7;
    assert (today + 4 + 3) % 7 == (k + 4) % 7;
  }

  /** Two fixed dates: Saturday 2026-10-17 (epoch day 20743) and Tuesday 2026-10-20 (epoch day 20746). */
  lemma WeekendRuleExamples()
    ensures DayOfWeekOf(0) == Thursday
    ensures DayOfWeekOf(20743) == Saturday && PriorityDeadline(20743) == 20747
    ensures DayOfWeekOf(20746) == Tuesday && PriorityDeadline(20746) == 20748
  {
  }
}
