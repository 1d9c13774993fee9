/** The entity models: sprints and tasks as the API delivers them, the
    address each resolves to, and the classification of a task into the
    board's columns. Only the attributes some modelled rule reads are kept;
    names, descriptions and dates are display data. */
module Entities {
  import opened JsValues
  import opened Http

  /** The `links` object the API embeds in every entity. */
  datatype Links = Links(self: Option<string>, tasks: Option<string>)

  datatype Sprint = Sprint(id: Key, links: Option<Links>)

  /** A task: its sprint foreign key (`null` in the backlog) and its status,
      absent on a placeholder that has not been fetched yet. */
  datatype Task = Task(id: Key, sprint: Key, status: Option<int>, links: Option<Links>)

  /** `links && links.self` when truthy: the server-supplied address. */
  predicate HasSelfLink(links: Option<Links>) {
    links.Some? && TruthyText(links.value.self)
  }

  /** `url()`: the self link when the API supplied one, otherwise the toolkit's
      default address, which is `fallback` (`None` when the default
      construction raises because no base address is known). */
  function Url(links: Option<Links>, fallback: Option<string>): (r: Option<string>)
    ensures HasSelfLink(links) ==> r == links.value.self
    ensures !HasSelfLink(links) ==> r == fallback
  {
    match links
    case Some(Links(Some(self), _)) =>
      if self != "" then Some(self) else fallback
    case _ => fallback
  }

  /** The self link wins over the default address, whatever the default
      would be, so an entity known only by id but carrying a link is fetched
      from that link; without one, the address is exactly the default. */
  lemma UrlIgnoresFallbackGivenSelf(links: Option<Links>, f1: Option<string>, f2: Option<string>)
    ensures HasSelfLink(links) ==> Url(links, f1) == Url(links, f2)
    ensures !HasSelfLink(links) ==> Url(links, f1) == f1
  {
  }

  /** `Sprint.fetchTasks()`: when the sprint links to its tasks, a fetch of
      that address into the task collection that keeps the tasks already
      there; otherwise no request. */
  function FetchTasks(s: Sprint): (r: Option<FetchRequest>)
    ensures r.Some? <==> s.links.Some? && TruthyText(s.links.value.tasks)
    ensures r.Some? ==> r.value.url == s.links.value.tasks && KeepsResident(r.value) && r.value.query == map[]
  {
    match s.links
    case Some(Links(_, Some(tasks))) =>
      if tasks != "" then Some(FetchRequest(Some(tasks), false, map[])) else None
    case _ => None
  }

  /** The column labels for statuses 1 to 4, in order. */
  const StatusLabels: seq<string> := ["todo", "active", "testing", "done"]

  const Unassigned: string := "unassigned"

  /** `statusClass()`: `unassigned` for a task with no sprint, otherwise the
      label at `status - 1`; `None` is the `undefined` an out-of-range or
      missing status yields. */
  function StatusClass(t: Task): (r: Option<string>)
    ensures r == Some(Unassigned) <==> !Truthy(t.sprint)
    ensures Truthy(t.sprint) ==> (r.Some? <==> t.status.Some? && 1 <= t.status.value <= 4)
    ensures Truthy(t.sprint) && r.Some? ==> r.value in StatusLabels && ColumnStatus(r.value) == t.status
  {
    if !Truthy(t.sprint) then
      Some(Unassigned)
    else
      match t.status
      case Some(n) => if 1 <= n <= 4 then Some(StatusLabels[n - 1]) else None
      case None => None
  }

  /** The status each column of the sprint page is bound to (views.js), the
      inverse of the label lookup. */
  function ColumnStatus(column: string): Option<int> {
    if column == "todo" then Some(1)
    else if column == "active" then Some(2)
    else if column == "testing" then Some(3)
    else if column == "done" then Some(4)
    else None
  }

  /** `inBacklog()`: the task has no sprint, which is exactly when its status
      class is `unassigned`, whatever its status. */
  predicate InBacklog(t: Task)
    ensures InBacklog(t) <==> StatusClass(t) == Some(Unassigned)
  {
    !Truthy(t.sprint)
  }

  /** Two tasks of some sprint with valid statuses land in the same column
      exactly when their statuses agree. */
  lemma ColumnsSeparateStatuses(a: Task, b: Task)
    requires Truthy(a.sprint) && Truthy(b.sprint)
    requires a.status.Some? && 1 <= a.status.value <= 4
    requires b.status.Some? && 1 <= b.status.value <= 4
    ensures StatusClass(a) == StatusClass(b) <==> a.status == b.status
  {
  }

  /** `inSprint(sprint)`: the sprint's id loosely equals the task's foreign
      key. Loose equality lets a numeric foreign key match a sprint whose id
      is the same number written as text, and lets a backlog task with a
      `null` sprint match only a sprint that has no id yet. */
  predicate InSprint(t: Task, s: Sprint, toNumber: string -> Option<int>)
    ensures t.sprint.Num? && s.id.Str? ==> (InSprint(t, s, toNumber) <==> toNumber(s.id.s) == Some(t.sprint.n))
    ensures t.sprint.Str? && s.id.Num? ==> (InSprint(t, s, toNumber) <==> toNumber(t.sprint.s) == Some(s.id.n))
    ensures t.sprint.Str? && s.id.Str? ==> (InSprint(t, s, toNumber) <==> t.sprint.s == s.id.s)
    ensures t.sprint.Num? && s.id.Num? ==> (InSprint(t, s, toNumber) <==> t.sprint.n == s.id.n)
    ensures t.sprint == Nullish || s.id == Nullish ==> (InSprint(t, s, toNumber) <==> t.sprint == s.id)
    ensures InBacklog(t) && t.sprint == Nullish ==> (InSprint(t, s, toNumber) <==> s.id == Nullish)
  {
    LooseEquals(s.id, t.sprint, toNumber)
  }

  /** A backlog task belongs to no sprint the API has delivered: such a
      sprint has a non-zero numeric id, while the task's foreign key is
      `null`, `0` or the empty text, which ToNumber reads as `0`. */
  lemma BacklogInNoSprint(t: Task, s: Sprint, toNumber: string -> Option<int>)
    requires InBacklog(t) && s.id.Num? && s.id.n != 0
    requires toNumber("") == Some(0)
    ensures !InSprint(t, s, toNumber)
  {
    match t.sprint
    case Nullish =>
    case Num(n) => assert n == 0;
    case Str(text) => assert text == "";
  }

  /** The placeholder the sprint collection creates for an id it has not seen. */
  function BlankSprint(id: Key): Sprint { Sprint(id, None) }

  function SprintId(s: Sprint): Key { s.id }
}
