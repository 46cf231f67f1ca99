/** The entities of the board: the class library entry (ClassDefinition), its
    remembered recurrence rule (BatchConfig), the dated occurrence on the
    calendar (ScheduledClass) and the transient recurrence request that the
    class form submits. */
module Types {

  datatype Option<T> = None | Some(value: T)

  /** A calendar day as a whole-day count from 1970-01-01 (a Thursday).
      The `yyyy-MM-dd` text the application stores is a one-to-one rendering
      of this number, so comparing days compares the dates. */
  type Day = int

  /** Instance identifiers come from a fresh-identifier source; see Board.nextId. */
  type InstanceId = nat

  datatype ClassMode = Online | Offline

  datatype ClassType = VIP | Group | OneOnTwo

  datatype Frequency = Weekly | Daily | EveryOther

  /** The recurrence rule a class remembers, used to pre-fill the form and to
      time ad-hoc drops. */
  datatype BatchConfig = BatchConfig(
    startTime: string,
    endTime: string,
    frequency: Frequency,
    daysOfWeek: Option<seq<int>>,
    startDate: Option<Day>,
    endDate: Option<Day>)

  datatype ClassDefinition = ClassDefinition(
    id: string,
    name: string,
    fee: int,
    mode: ClassMode,
    classType: ClassType,
    capacity: Option<int>,
    color: string,
    batchConfig: Option<BatchConfig>)

  /** A scheduled occurrence carries a by-value copy of every definition field
      (`def`), plus its own identifier, day and clock times. */
  datatype ScheduledClass = ScheduledClass(
    def: ClassDefinition,
    instanceId: InstanceId,
    date: Day,
    startTime: string,
    endTime: string)

  /** What the recurrence expander reads: times, frequency, weekday mask
      (0 = Sunday) and the inclusive day window. */
  datatype RecurrenceConfig = RecurrenceConfig(
    startTime: string,
    endTime: string,
    frequency: Frequency,
    daysOfWeek: Option<seq<int>>,
    startDate: Day,
    endDate: Day)

  datatype UpdateMode = Future | Range

  /** The recurrence request submitted together with a class definition. */
  datatype Recurring = Recurring(config: RecurrenceConfig, updateMode: UpdateMode)
}
