/**
 * The task record and its status enumeration (src/tasks/task.entity.ts).
 *
 * `TaskStatus` is a string enum whose every member's value is its own name,
 * so the wire form of a status is exactly its name.
 */
module TaskEntity {
  import opened Wrappers

  /** The three workflow states of a task, and no others. */
  datatype TaskStatus = OPEN | IN_PROGRESS | DONE

  /** A task: an identifier, a title, a free-form description and a status. */
  datatype Task = Task(id: string, title: string, description: string, status: TaskStatus)

  /** Every member of the enumeration. */
  const ALL_STATUSES: set<TaskStatus> := {OPEN, IN_PROGRESS, DONE}

  /** The string values of the enumeration's members. */
  const STATUS_NAMES: set<string> := {"OPEN", "IN_PROGRESS", "DONE"}

  /** The string value of a status, which is the member's own name. */
  function StatusName(s: TaskStatus): (name: string)
    ensures name in STATUS_NAMES
  {
    match s
    case OPEN => "OPEN"
    case IN_PROGRESS => "IN_PROGRESS"
    case DONE => "DONE"
  }

  /** The status whose string value is `name`, if there is one. */
  function ParseStatus(name: string): (r: Option<TaskStatus>)
    ensures r.Some? <==> name in STATUS_NAMES
    ensures r.Some? ==> StatusName(r.value) == name
  {
    if name == "OPEN" then Some(OPEN)
    else if name == "IN_PROGRESS" then Some(IN_PROGRESS)
    else if name == "DONE" then Some(DONE)
    else None
  }

  /** The enumeration has exactly three members. */
  lemma StatusCount()
    ensures forall s: TaskStatus :: s in ALL_STATUSES
    ensures |ALL_STATUSES| == 3
  {
    forall s: TaskStatus
      ensures s in ALL_STATUSES
    {
      match s
      case OPEN =>
      case IN_PROGRESS =>
      case DONE =>
    }
    assert ALL_STATUSES == {OPEN} + {IN_PROGRESS} + {DONE};
  }

  /** Distinct members have distinct string values. */
  lemma StatusNameInjective(a: TaskStatus, b: TaskStatus)
    ensures StatusName(a) == StatusName(b) ==> a == b
  {
  }

  /** Writing a status as a string and parsing it back gives the same status. */
  lemma StatusRoundTrip(s: TaskStatus)
    ensures ParseStatus(StatusName(s)) == Some(s)
  {
    StatusNameInjective(s, ParseStatus(StatusName(s)).value);
  }

  /** A string that is not one of the three names parses to no status. */
  lemma ParseRejectsOtherNames(name: string)
    requires name != "OPEN" && name != "IN_PROGRESS" && name != "DONE"
    ensures ParseStatus(name) == None
  {
  }
}
