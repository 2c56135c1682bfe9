/** The records the history page reads back from storage. */
module HistoryTypes {
  import opened Optional

  datatype TaskGroup = TaskGroup(category: string, emoji: string, tasks: seq<string>, tip: string)

  datatype SequencePhase = SequencePhase(phase: string, tasks: seq<string>, reason: string)

  /** A named allocation of minutes within the day (`label` in the stored record). */
  datatype Timeblock = Timeblock(name: string, minutes: int)

  /** The classification of one day's brain dump; every list but `top3`
      may be missing. */
  datatype ResultData = ResultData(
    top3: seq<string>,
    shallow: Option<seq<string>>,
    deep: Option<seq<string>>,
    micro: Option<seq<string>>,
    timeblocks: Option<seq<Timeblock>>,
    groups: Option<seq<TaskGroup>>,
    sequence: Option<seq<SequencePhase>>)

  /** One archived day: its key, its plan, the checklist flags at archival
      time (keyed `top3-0`, `top3-1`, …) and the save time in milliseconds. */
  datatype DayEntry = DayEntry(date: string, resultData: ResultData, checks: map<string, bool>, savedAt: int)

  /** The stored history: date key to archived day. */
  type History = map<string, DayEntry>
}
