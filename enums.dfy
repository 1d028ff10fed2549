/** The three enumerations of the bug tracker, in their declared order.
    `Enum.name()`, `Enum.ordinal()` and `Enum.valueOf` are given explicitly. */
module Enums {
  import opened Outcomes
  import opened Strings

  datatype Status = New | InProgress | Resolved | Closed

  datatype Priority = Low | Medium | High | Critical

  datatype Role = Developer | Tester | ProjectManager | Admin

  function StatusName(s: Status): string {
    match s
    case New => "NEW"
    case InProgress => "IN_PROGRESS"
    case Resolved => "RESOLVED"
    case Closed => "CLOSED"
  }

  function PriorityName(p: Priority): string {
    match p
    case Low => "LOW"
    case Medium => "MEDIUM"
    case High => "HIGH"
    case Critical => "CRITICAL"
  }

  /** Position in the declaration, the order `compareTo` uses. */
  function StatusOrdinal(s: Status): nat {
    match s
    case New => 0
    case InProgress => 1
    case Resolved => 2
    case Closed => 3
  }

  function PriorityOrdinal(p: Priority): nat {
    match p
    case Low => 0
    case Medium => 1
    case High => 2
    case Critical => 3
  }

  /** `Status.valueOf`: the constant whose name is exactly `name`, if any. */
  function StatusValueOf(name: string): (r: Option<Status>)
    ensures r.Some? ==> StatusName(r.value) == name
    ensures r.None? ==> forall s: Status :: StatusName(s) != name
  {
    if name == "NEW" then Some(New)
    else if name == "IN_PROGRESS" then Some(InProgress)
    else if name == "RESOLVED" then Some(Resolved)
    else if name == "CLOSED" then Some(Closed)
    else None
  }

  /** `Priority.valueOf`: the constant whose name is exactly `name`, if any. */
  function PriorityValueOf(name: string): (r: Option<Priority>)
    ensures r.Some? ==> PriorityName(r.value) == name
    ensures r.None? ==> forall p: Priority :: PriorityName(p) != name
  {
    if name == "LOW" then Some(Low)
    else if name == "MEDIUM" then Some(Medium)
    else if name == "HIGH" then Some(High)
    else if name == "CRITICAL" then Some(Critical)
    else None
  }

  /** Names are distinct, ordinals follow the declared order. */
  lemma NamesAndOrdinalsDistinct(s: Status, t: Status, p: Priority, q: Priority)
    ensures StatusName(s) == StatusName(t) <==> s == t
    ensures StatusOrdinal(s) == StatusOrdinal(t) <==> s == t
    ensures PriorityName(p) == PriorityName(q) <==> p == q
    ensures PriorityOrdinal(p) == PriorityOrdinal(q) <==> p == q
  {
  }

  /** The names are already upper case, so `name().toUpperCase()` is `name()`. */
  lemma NamesAreUpperCase(s: Status, p: Priority)
    ensures ToUpper(StatusName(s)) == StatusName(s)
    ensures ToUpper(PriorityName(p)) == PriorityName(p)
  {
    ToUpperOfUpper(StatusName(s));
    ToUpperOfUpper(PriorityName(p));
  }
}
