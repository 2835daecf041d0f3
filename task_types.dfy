/** The records of src/types/task.ts. */
module TaskTypes {

  datatype Status = Todo | InProgress | Completed

  datatype Priority = Low | Medium | High

  /** Milliseconds since the epoch, the value `new Date(iso).getTime()` yields
      for the ISO strings the application stores. */
  type Timestamp = int

  datatype Task = Task(
    id: string,
    title: string,
    description: string,
    status: Status,
    priority: Priority,
    createdAt: Timestamp,
    updatedAt: Timestamp)

  datatype SortBy = ByDate | ByPriority

  /** The view preferences. Status and priority are free strings: "all" or the
      name of a status or priority. */
  datatype Filter = Filter(status: string, priority: string, sortBy: SortBy)

  /** The filter value that lets every status or priority through. */
  const All: string := "all"

  /** The string a status has in stored records and in filter values. */
  function StatusName(s: Status): (name: string)
    ensures name != All
  {
    match s
    case Todo => "todo"
    case InProgress => "in-progress"
    case Completed => "completed"
  }

  /** The string a priority has in stored records and in filter values. */
  function PriorityName(p: Priority): (name: string)
    ensures name != All
  {
    match p
    case Low => "low"
    case Medium => "medium"
    case High => "high"
  }
}
