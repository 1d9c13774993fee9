/** The paginated collections: an ordered client-side cache of models plus
    the cursors of the last page fetched, the translation of the API's
    pagination envelope, and get-or-fetch by id. A collection is generic in
    its model type; `idOf` reads a model's id and `blank` builds the
    placeholder `{id: id}`. */
module Collections {
  import opened JsValues
  import opened Http
  import opened Entities

  datatype Collection<T> = Collection(models: seq<T>, next: Option<string>, previous: Option<string>, count: Option<int>)

  /** The envelope every list endpoint returns; absent members are `None`. */
  datatype Envelope<T> = Envelope(next: Option<string>, previous: Option<string>, count: Option<int>, results: Option<seq<T>>)

  /** What `parse` leaves behind: the collection with its cursors updated,
      and the models handed to the toolkit to merge. */
  datatype Parsed<T> = Parsed(collection: Collection<T>, models: seq<T>)

  /** `parse(response)`: record the three cursors and hand over `results`, or
      the empty list when the reply has none. The models are not touched. */
  function Parse<T>(c: Collection<T>, response: Envelope<T>): (r: Parsed<T>)
    ensures r.collection.models == c.models
    ensures r.collection.next == response.next && r.collection.previous == response.previous
    ensures r.collection.count == response.count
    ensures response.results.Some? ==> r.models == response.results.value
    ensures response.results.None? ==> r.models == []
  {
    var page := match response.results case Some(rs) => rs case None => [];
    Parsed(Collection(c.models, response.next, response.previous, response.count), page)
  }

  /** The cursors describe the last page only: parsing an envelope forgets the
      cursors of any earlier one, so parsing the same reply twice is parsing
      it once. */
  lemma ParseLastPageWins<T>(c: Collection<T>, first: Envelope<T>, second: Envelope<T>)
    ensures Parse(Parse(c, first).collection, second) == Parse(c, second)
  {
  }

  /** The worked example of a three-model page with a next cursor. */
  lemma ParseExample<T>(c: Collection<T>, a: T, b: T, d: T)
    ensures var r := Parse(c, Envelope(Some("p2"), None, Some(3), Some([a, b, d])));
      r.models == [a, b, d] && r.collection.next == Some("p2") && r.collection.previous == None
      && r.collection.count == Some(3)
    ensures Parse(c, Envelope(None, None, None, None)).models == []
  {
  }

  /** Every id names at most one resident model. */
  ghost predicate UniqueIds<T>(models: seq<T>, idOf: T -> Key) {
    forall i, j :: 0 <= i < j < |models| ==> !SameId(idOf(models[i]), idOf(models[j]))
  }

  /** `get(id)`: the position of the model found under `id`, if any. A `null`
      id finds nothing. */
  function Lookup<T>(models: seq<T>, idOf: T -> Key, id: Key): (r: Option<nat>)
    ensures r.Some? ==> r.value < |models| && SameId(idOf(models[r.value]), id)
    ensures r.None? <==> forall i :: 0 <= i < |models| ==> !SameId(idOf(models[i]), id)
    decreases |models|
  {
    if |models| == 0 then
      None
    else if SameId(idOf(models[|models| - 1]), id) then
      Some(|models| - 1)
    else
      var r := Lookup(models[..|models| - 1], idOf, id);
      assert forall i :: 0 <= i < |models| - 1 ==> models[..|models| - 1][i] == models[i];
      r
  }

  /** How a fetch of one model ends: with the model the server returned, or
      with a failure reply (its HTTP status). */
  datatype FetchOutcome<T> = Fetched(model: T) | FetchFailed(status: int)

  /** The deferred `getOrFetch` returns, once settled: resolved with a model,
      or rejected with the placeholder and the failure reply. */
  datatype Settled<T> = Resolved(model: T) | Rejected(model: T, status: int)

  /** The collection right after `getOrFetch` returns, how its deferred
      settles, and whether a request was issued. */
  datatype GetOrFetchResult<T> = GetOrFetchResult(collection: Collection<T>, settled: Settled<T>, requested: bool)

  /** `getOrFetch(id)`: a resident model resolves at once and nothing changes;
      otherwise the placeholder `{id: id}` is appended, one fetch is issued,
      and `outcome` decides how the deferred settles. The merge of fetched
      attributes into the placeholder belongs to the toolkit and is not part
      of this model. */
  function GetOrFetch<T>(c: Collection<T>, idOf: T -> Key, blank: Key -> T, id: Key, outcome: FetchOutcome<T>): (r: GetOrFetchResult<T>)
    ensures Lookup(c.models, idOf, id).Some? ==>
      && r.collection == c
      && r.settled == Resolved(c.models[Lookup(c.models, idOf, id).value])
      && !r.requested
    ensures Lookup(c.models, idOf, id).None? ==>
      && r.collection == c.(models := c.models + [blank(id)])
      && r.requested
      && (outcome.Fetched? ==> r.settled == Resolved(outcome.model))
      && (outcome.FetchFailed? ==> r.settled == Rejected(blank(id), outcome.status))
    ensures UniqueIds(c.models, idOf) && idOf(blank(id)) == id ==> UniqueIds(r.collection.models, idOf)
    ensures |r.collection.models| <= |c.models| + 1
  {
    match Lookup(c.models, idOf, id)
    case Some(i) => GetOrFetchResult(c, Resolved(c.models[i]), false)
    case None =>
      var placeholder := blank(id);
      var grown := c.models + [placeholder];
      assert forall i :: 0 <= i < |c.models| ==> grown[i] == c.models[i];
      var settled := match outcome
        case Fetched(m) => Resolved(m)
        case FetchFailed(status) => Rejected(placeholder, status);
      GetOrFetchResult(c.(models := grown), settled, true)
  }

  /** Once `getOrFetch(id)` has returned, a second call with the same non-null
      id (or any id naming the same model) finds the model resident: it resolves at
      once, changes nothing and issues no request. This holds for any
      collection whose placeholder carries the id it was built for. */
  lemma GetOrFetchTwice<T>(c: Collection<T>, idOf: T -> Key, blank: Key -> T, id: Key,
                           again: Key, first: FetchOutcome<T>, second: FetchOutcome<T>)
    requires idOf(blank(id)) == id && SameId(again, id)
    ensures var once := GetOrFetch(c, idOf, blank, id, first);
      var twice := GetOrFetch(once.collection, idOf, blank, again, second);
      twice.collection == once.collection && !twice.requested && Lookup(once.collection.models, idOf, again).Some?
  {
  }

  /** A `null` id is never indexed, so `get(null)` never finds the
      placeholder a first call appended: every call with it appends another
      placeholder and issues another request. */
  lemma NullIdFetchesAgain<T>(c: Collection<T>, idOf: T -> Key, blank: Key -> T,
                              first: FetchOutcome<T>, second: FetchOutcome<T>)
    ensures var once := GetOrFetch(c, idOf, blank, Nullish, first);
      var twice := GetOrFetch(once.collection, idOf, blank, Nullish, second);
      once.requested && twice.requested
      && twice.collection.models == c.models + [blank(Nullish), blank(Nullish)]
  {
  }

  /** A sprint that `getOrFetch` has only just appended is the placeholder
      `{id}`, which has no links, so asking it for its tasks sends no
      request. The deferred hands over the sprint the server returned, whose
      tasks are fetched from its own link, or, on failure, the placeholder,
      which again fetches nothing. */
  lemma PlaceholderSprintFetchesNoTasks(c: Collection<Sprint>, id: Key, outcome: FetchOutcome<Sprint>)
    requires Lookup(c.models, SprintId, id).None?
    ensures var r := GetOrFetch(c, SprintId, BlankSprint, id, outcome);
      && |r.collection.models| == |c.models| + 1
      && FetchTasks(r.collection.models[|c.models|]).None?
      && (outcome.Fetched? ==> FetchTasks(r.settled.model) == FetchTasks(outcome.model))
      && (outcome.FetchFailed? ==> FetchTasks(r.settled.model).None?)
  {
  }

  /** The sprint page's lookup: after `app.sprints.getOrFetch(id)`, the sprint
      is resident under `id`, so opening the same sprint again (by its URL
      text or by its numeric id) sends no request and leaves the collection
      as it is. */
  lemma SprintGetOrFetchTwice(c: Collection<Sprint>, id: Key, again: Key,
                              first: FetchOutcome<Sprint>, second: FetchOutcome<Sprint>)
    requires SameId(again, id)
    ensures var once := GetOrFetch(c, SprintId, BlankSprint, id, first);
      var twice := GetOrFetch(once.collection, SprintId, BlankSprint, again, second);
      && twice.collection == once.collection
      && !twice.requested
      && twice.settled.Resolved?
      && SameId(SprintId(twice.settled.model), id)
  {
  }

  /** `Tasks.getBacklog()`: a fetch of the collection's own address filtered
      to `backlog=True` that keeps the tasks already resident. */
  function GetBacklog(): (r: FetchRequest)
    ensures r.url == None && KeepsResident(r)
    ensures "backlog" in r.query && r.query["backlog"] == "True" && |r.query| == 1
  {
    FetchRequest(None, false, map["backlog" := "True"])
  }
}
