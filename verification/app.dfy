/** The page's state and its transitions: check-box clicks, the match-type
    drop-down, and the two fetch handlers with their loading flag. Each
    handler is one atomic transition; the network outcome is an input. */
module App {
  import opened Catalog
  import opened Selection
  import opened Query
  import opened Movies

  datatype AppState = AppState(
    selection: seq<string>,
    matchType: string,
    isLoading: bool,
    movies: seq<Movie>)

  /** The state the page starts in. */
  const InitialState: AppState := AppState(Initial, "Contains", false, [])

  /** The two requests the page can send to the recommendation service. */
  datatype Request =
    | FilteredRequest(genre: string, matchType: string)
    | RandomRequest

  /** What a request came back with: a body that decoded to a movie list, or
      a failure that throws (network error, body that is not JSON). A
      response with an error status but a JSON body does not throw; it is
      stored as the movie list all the same, and `Fetched` stands for it
      only when that body is a movie list. */
  datatype FetchOutcome = Fetched(data: seq<Movie>) | FetchFailed

  /** One handler run: the request it sends, the state while it is in flight,
      and the state once it has finished. */
  datatype Handled = Handled(request: Request, loading: AppState, done: AppState)

  /** The shared loading bookkeeping of both handlers: the flag goes up before
      the request is sent and comes down on every exit path; a success
      replaces the movie list wholesale, a failure keeps the old one; the
      selection and match type are not touched. */
  function Fetch(s: AppState, request: Request, outcome: FetchOutcome): (h: Handled)
    ensures h.request == request
    ensures h.loading.isLoading && !h.done.isLoading
    ensures h.loading.selection == s.selection && h.done.selection == s.selection
    ensures h.loading.matchType == s.matchType && h.done.matchType == s.matchType
    ensures h.loading.movies == s.movies
    ensures outcome.Fetched? ==> h.done.movies == outcome.data
    ensures outcome.FetchFailed? ==> h.done.movies == s.movies
  {
    var loading := s.(isLoading := true);
    var done := match outcome
      case Fetched(data) => loading.(movies := data, isLoading := false)
      case FetchFailed => loading.(isLoading := false);
    Handled(request, loading, done)
  }

  /** "Get Movies": sends the selection and match type as query parameters.
      The genre parameter decodes back to the lower-cased selection in order,
      and the match type is sent lower-cased. */
  function HandleGetMovies(s: AppState, outcome: FetchOutcome): (h: Handled)
    ensures h.request.FilteredRequest?
    ensures (|s.selection| >= 1 && forall i :: 0 <= i < |s.selection| ==> '%' !in s.selection[i]) ==>
      Split(h.request.genre) == LowerAll(s.selection)
    ensures h.request.matchType == Lower(s.matchType)
    ensures h.loading.isLoading && !h.done.isLoading
    ensures h.done.selection == s.selection && h.done.matchType == s.matchType
    ensures outcome.Fetched? ==> h.done.movies == outcome.data
    ensures outcome.FetchFailed? ==> h.done.movies == s.movies
  {
    Fetch(s, FilteredRequest(GenreParam(s.selection), Lower(s.matchType)), outcome)
  }

  /** "Get Random": the same bookkeeping around a request without parameters. */
  function HandleGetRandom(s: AppState, outcome: FetchOutcome): (h: Handled)
    ensures h.request == RandomRequest
    ensures h.loading.isLoading && !h.done.isLoading
    ensures h.done.selection == s.selection && h.done.matchType == s.matchType
    ensures outcome.Fetched? ==> h.done.movies == outcome.data
    ensures outcome.FetchFailed? ==> h.done.movies == s.movies
  {
    Fetch(s, RandomRequest, outcome)
  }

  /** A user action, with the outcome of the request where it sends one. */
  datatype Event =
    | ClickGenre(genre: string)
    | ChooseMatchType(value: string)
    | ClickGetMovies(moviesOutcome: FetchOutcome)
    | ClickGetRandom(randomOutcome: FetchOutcome)

  /** The "Get Movies" button is enabled while the selection is non-empty. */
  predicate GetMoviesEnabled(s: AppState) {
    |s.selection| >= 1
  }

  /** The page after one user action. A check-box click runs the gated
      toggle, the drop-down sets the match type, and each button runs its
      handler to completion; a click on a disabled control does nothing.
      Each part of the state changes only through its own control. */
  function Step(s: AppState, e: Event): (r: AppState)
    ensures e.ClickGenre? ==> r.selection == GatedToggle(s.selection, e.genre)
    ensures e.ChooseMatchType? ==> r.matchType == e.value
    ensures e.ClickGetMovies? && GetMoviesEnabled(s) && e.moviesOutcome.Fetched? ==>
      r.movies == e.moviesOutcome.data && !r.isLoading
    ensures e.ClickGetMovies? && GetMoviesEnabled(s) && e.moviesOutcome.FetchFailed? ==>
      r.movies == s.movies && !r.isLoading
    ensures e.ClickGetMovies? && !GetMoviesEnabled(s) ==> r == s
    ensures e.ClickGetRandom? && e.randomOutcome.Fetched? ==>
      r.movies == e.randomOutcome.data && !r.isLoading
    ensures e.ClickGetRandom? && e.randomOutcome.FetchFailed? ==>
      r.movies == s.movies && !r.isLoading
    ensures !e.ClickGenre? ==> r.selection == s.selection
    ensures !e.ChooseMatchType? ==> r.matchType == s.matchType
    ensures e.ClickGenre? || e.ChooseMatchType? ==> r.movies == s.movies && r.isLoading == s.isLoading
    ensures !s.isLoading ==> !r.isLoading
    ensures e.ClickGenre? && Legal(s.selection) ==> Legal(r.selection)
  {
    match e
    case ClickGenre(g) => s.(selection := GatedToggle(s.selection, g))
    case ChooseMatchType(v) => s.(matchType := v)
    case ClickGetMovies(outcome) =>
      if GetMoviesEnabled(s) then HandleGetMovies(s, outcome).done else s
    case ClickGetRandom(outcome) => HandleGetRandom(s, outcome).done
  }

  /** The page after a sequence of user actions. */
  function RunEvents(s: AppState, events: seq<Event>): AppState
    decreases |events|
  {
    if |events| == 0 then s else RunEvents(Step(s, events[0]), events[1..])
  }

  /** The actions the page's controls can produce: a click on a catalog
      check-box, or one of the drop-down's two option values. */
  predicate PageEvent(e: Event) {
    match e
    case ClickGenre(g) => InCatalog(g)
    case ChooseMatchType(v) => v == "contains" || v == "exact"
    case _ => true
  }

  /** What holds of every state the page can reach between actions. */
  predicate AppReachable(s: AppState) {
    && Reachable(s.selection)
    && !s.isLoading
    && (Lower(s.matchType) == "contains" || Lower(s.matchType) == "exact")
  }

  lemma InitialStateReachable()
    ensures AppReachable(InitialState)
  {
    assert Lower("Contains") == "contains";
  }

  lemma StepKeepsReachable(s: AppState, e: Event)
    requires AppReachable(s) && PageEvent(e)
    ensures AppReachable(Step(s, e))
  {
    match e
    case ClickGenre(g) =>
      ClickKeepsReachable(s.selection, g);
    case ChooseMatchType(v) =>
      assert Lower("contains") == "contains";
      assert Lower("exact") == "exact";
    case _ =>
  }

  lemma {:induction false} RunEventsKeepsReachable(s: AppState, events: seq<Event>)
    requires AppReachable(s)
    requires forall i :: 0 <= i < |events| ==> PageEvent(events[i])
    ensures AppReachable(RunEvents(s, events))
    decreases |events|
  {
    if |events| > 0 {
      StepKeepsReachable(s, events[0]);
      RunEventsKeepsReachable(Step(s, events[0]), events[1..]);
    }
  }

  /** In every state the page can reach from its start: nothing is loading,
      "Get Movies" is enabled, and the filtered request it would send carries
      a genre parameter that decodes to the lower-cased selection with the
      empty placeholder first, and a match type of `contains` or `exact`. */
  lemma ReachableRequest(events: seq<Event>, outcome: FetchOutcome)
    requires forall i :: 0 <= i < |events| ==> PageEvent(events[i])
    ensures !RunEvents(InitialState, events).isLoading
    ensures GetMoviesEnabled(RunEvents(InitialState, events))
    ensures Split(HandleGetMovies(RunEvents(InitialState, events), outcome).request.genre)
         == LowerAll(RunEvents(InitialState, events).selection)
    ensures Split(HandleGetMovies(RunEvents(InitialState, events), outcome).request.genre)[0] == ""
    ensures HandleGetMovies(RunEvents(InitialState, events), outcome).request.matchType in ["contains", "exact"]
  {
    InitialStateReachable();
    RunEventsKeepsReachable(InitialState, events);
    var s := RunEvents(InitialState, events);
    forall i | 0 <= i < |s.selection|
      ensures '%' !in s.selection[i]
    {
      if i > 0 {
        CatalogNamesPlain(s.selection[i]);
      }
    }
    assert Lower("") == "";
  }
}
