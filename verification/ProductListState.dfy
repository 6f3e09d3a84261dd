/**
 The state of the product list component (src/components/ProductList.jsx)
 as an immutable record updated by reducer-style transitions: the filter
 controls, the fetch lifecycle, what is rendered from them, and which
 events the rendered screen lets happen next.

 The fetch is sequential: a request is started, then it finishes before
 the next one starts (the Refresh button is disabled while one is
 outstanding). What the request returns is given as an event, since the
 network is not modelled; the time of a successful load is a parameter
 of that event, since the clock is not modelled.
 */
module ProductListState {
  import opened Products
  import opened Optional
  import ProductApi
  import Pipeline
  import Csv
  import Text

  // ---------------------------------------------------------------------
  // Filter controls

  datatype Controls = Controls(searchTerm: string, selectedCategory: string, priceSort: string)

  /** The controls when the component mounts. */
  const InitialControls: Controls := Controls("", Pipeline.AllCategories, "asc")

  predicate ValidSort(priceSort: string) {
    priceSort == "asc" || priceSort == "desc"
  }

  /** `prev === "asc" ? "desc" : "asc"`. */
  function ToggleSort(prev: string): (next: string)
    ensures ValidSort(next)
    ensures next == "desc" <==> prev == "asc"
  {
    if prev == "asc" then "desc" else "asc"
  }

  /** Toggling twice restores the direction exactly when it was one of
      the two directions; any other value settles on "asc". */
  lemma ToggleSortTwice(prev: string)
    ensures ToggleSort(ToggleSort(prev)) == prev <==> ValidSort(prev)
    ensures !ValidSort(prev) ==> ToggleSort(prev) == "asc"
  {
  }

  /** "Clear Filters": back to the mount-time controls, whatever they were. */
  function ClearFilters(c: Controls): (r: Controls)
    ensures r == InitialControls
    ensures r.searchTerm == "" && r.selectedCategory == Pipeline.AllCategories && r.priceSort == "asc"
  {
    Controls("", Pipeline.AllCategories, "asc")
  }

  lemma ClearFiltersIdempotent(c: Controls)
    ensures ClearFilters(ClearFilters(c)) == ClearFilters(c)
  {
  }

  datatype UiAction =
    | TypeSearch(term: string)
    | PickCategory(category: string)
    | ToggleSortClicked
    | ClearFiltersClicked

  /** The effect of one control on the controls. */
  function ApplyUi(c: Controls, a: UiAction): (r: Controls)
    ensures a.TypeSearch? ==> r == c.(searchTerm := a.term)
    ensures a.PickCategory? ==> r == c.(selectedCategory := a.category)
    ensures a.ToggleSortClicked? ==> r == c.(priceSort := ToggleSort(c.priceSort))
    ensures a.ClearFiltersClicked? ==> r == InitialControls
    ensures ValidSort(c.priceSort) ==> ValidSort(r.priceSort)
  {
    match a
    case TypeSearch(term) => c.(searchTerm := term)
    case PickCategory(category) => c.(selectedCategory := category)
    case ToggleSortClicked => c.(priceSort := ToggleSort(c.priceSort))
    case ClearFiltersClicked => ClearFilters(c)
  }

  // ---------------------------------------------------------------------
  // Fetch lifecycle

  datatype FetchState = FetchState(
    products: seq<Product>,
    loading: bool,
    refreshing: bool,
    error: Option<string>,
    lastUpdated: Option<int>)

  /** The state before the mount effect has run. */
  const InitialFetch: FetchState := FetchState([], true, false, None, None)

  /** The one message every failed load collapses to. */
  const LoadError: string := "Failed to load products"

  /** How a request ended: a response body, or a rejection (transport
      error or non-2xx status). */
  datatype FetchResult = Loaded(body: ProductApi.Json) | Failed

  /** `fetchProducts` up to the request: refreshing on, error cleared;
      the products on screen stay. */
  function BeginFetch(s: FetchState): (r: FetchState)
    ensures r.refreshing && r.error.None?
    ensures r.products == s.products && r.loading == s.loading && r.lastUpdated == s.lastUpdated
  {
    s.(refreshing := true, error := None)
  }

  /** The request settles. A load replaces the product list wholesale with
      the corrected decoding of the body, `ProductApi.NormalizeProducts`
      (the code stores what `getProducts` returned, which is not a list
      for an envelope without one), and stamps the time; a failure sets the message
      and keeps the old list. Either way loading and refreshing end. */
  function FinishFetch(s: FetchState, result: FetchResult, now: int): (r: FetchState)
    ensures !r.loading && !r.refreshing
    ensures result.Loaded? ==>
      (r.products == ProductApi.NormalizeProducts(result.body) && r.lastUpdated == Some(now) && r.error == s.error)
    ensures result.Failed? ==>
      (r.products == s.products && r.lastUpdated == s.lastUpdated && r.error == Some(LoadError))
  {
    var settled := match result
      case Loaded(body) => s.(products := ProductApi.NormalizeProducts(body), lastUpdated := Some(now))
      case Failed => s.(error := Some(LoadError));
    settled.(loading := false, refreshing := false)
  }

  /** `if (error)`: a message is shown when there is a non-empty one. */
  predicate ErrorShown(f: FetchState) {
    f.error.Some? && f.error.value != ""
  }

  // ---------------------------------------------------------------------
  // Rendering

  datatype BrowserView = BrowserView(
    categories: seq<string>,
    rows: seq<Product>,
    shown: nat,
    total: nat,
    refreshDisabled: bool,
    exportDisabled: bool,
    lastUpdated: Option<int>)

  datatype Screen =
    | LoadingMessage
    | ErrorMessage(text: string)
    | Browser(view: BrowserView)

  /** What the component renders: the loading message takes precedence over
      the error message, and either replaces the controls and the table. */
  function Render(f: FetchState, c: Controls): (r: Screen)
    ensures r.LoadingMessage? <==> f.loading
    ensures r.ErrorMessage? <==> !f.loading && ErrorShown(f)
    ensures r.ErrorMessage? ==> r.text == f.error.value
    ensures r.Browser? ==> r.view.total == |f.products| && r.view.shown <= r.view.total
    ensures r.Browser? ==> r.view.shown == |r.view.rows|
    ensures r.Browser? ==> (r.view.exportDisabled <==> r.view.rows == [])
    ensures r.Browser? ==> (r.view.refreshDisabled <==> f.refreshing)
    ensures r.Browser? ==>
      && r.view.rows == Pipeline.VisibleProducts(f.products, c.searchTerm, c.selectedCategory, c.priceSort)
      && r.view.categories == Pipeline.CategoryOptions(f.products)
      && r.view.lastUpdated == f.lastUpdated
  {
    if f.loading then LoadingMessage
    else if ErrorShown(f) then ErrorMessage(f.error.value)
    else
      var rows := Pipeline.VisibleProducts(f.products, c.searchTerm, c.selectedCategory, c.priceSort);
      Browser(BrowserView(
        Pipeline.CategoryOptions(f.products),
        rows,
        |rows|,
        |f.products|,
        f.refreshing,
        |rows| == 0,
        f.lastUpdated))
  }

  /** "Export CSV": the text of the rows on screen, none when there are none. */
  function ExportText(f: FetchState, c: Controls): (r: Option<string>)
    ensures r.Some? ==> Text.StartsWith(r.value, Csv.Header)
    ensures Render(f, c).Browser? ==> (r.None? <==> Render(f, c).view.exportDisabled)
    ensures Render(f, c).Browser? ==> r == Csv.ExportCsv(Render(f, c).view.rows)
  {
    Csv.ExportCsv(Pipeline.VisibleProducts(f.products, c.searchTerm, c.selectedCategory, c.priceSort))
  }

  // ---------------------------------------------------------------------
  // The component as a whole

  datatype ListState = ListState(fetch: FetchState, controls: Controls)

  const Initial: ListState := ListState(InitialFetch, InitialControls)

  datatype Event =
    | FetchStarted
    | FetchFinished(result: FetchResult, now: int)
    | Ui(action: UiAction)

  /** One transition. Fetch events touch only the fetch state, control
      events only the controls. */
  function Step(s: ListState, e: Event): (r: ListState)
    ensures e.Ui? ==> r.fetch == s.fetch
    ensures !e.Ui? ==> r.controls == s.controls
  {
    match e
    case FetchStarted => s.(fetch := BeginFetch(s.fetch))
    case FetchFinished(result, now) => s.(fetch := FinishFetch(s.fetch, result, now))
    case Ui(action) => s.(controls := ApplyUi(s.controls, action))
  }

  /** Whether the event can happen next. The mount effect starts the first
      request; later requests come only from the Refresh button, which is
      rendered with the table and disabled while a request is outstanding.
      A request can finish only while it is outstanding. The controls are
      rendered only with the table. */
  predicate Enabled(s: ListState, e: Event) {
    match e
    case FetchStarted =>
      !s.fetch.refreshing
      && (s.fetch == InitialFetch || Render(s.fetch, s.controls).Browser?)
    case FetchFinished(_, _) => s.fetch.refreshing
    case Ui(_) => Render(s.fetch, s.controls).Browser?
  }

  /** What holds in every state the component can reach. */
  predicate Invariant(s: ListState) {
    && ValidSort(s.controls.priceSort)
    && (s.fetch.error.Some? ==> s.fetch.error == Some(LoadError) && !s.fetch.refreshing && !s.fetch.loading)
    && (s.fetch.loading ==> s.fetch.products == [] && s.fetch.lastUpdated.None?)
    && (s.fetch.loading && !s.fetch.refreshing ==> s.fetch == InitialFetch)
  }

  lemma InitialInvariant()
    ensures Invariant(Initial)
  {
  }

  /** Every enabled event keeps the invariant. */
  lemma StepKeepsInvariant(s: ListState, e: Event)
    requires Invariant(s) && Enabled(s, e)
    ensures Invariant(Step(s, e))
  {
  }

  /** Applies a sequence of events in order. */
  function Run(s: ListState, events: seq<Event>): ListState
    decreases |events|
  {
    if |events| == 0 then s else Run(Step(s, events[0]), events[1..])
  }

  /** Every event of the sequence is enabled when its turn comes. */
  predicate Feasible(s: ListState, events: seq<Event>)
    decreases |events|
  {
    |events| == 0 || (Enabled(s, events[0]) && Feasible(Step(s, events[0]), events[1..]))
  }

  lemma {:induction false} RunKeepsInvariant(s: ListState, events: seq<Event>)
    requires Invariant(s) && Feasible(s, events)
    ensures Invariant(Run(s, events))
    decreases |events|
  {
    if |events| > 0 {
      StepKeepsInvariant(s, events[0]);
      RunKeepsInvariant(Step(s, events[0]), events[1..]);
    }
  }

  /** In every reachable state the sort direction is "asc" or "desc", and
      an error, when present, is the load-failure message. */
  lemma ReachableStates(events: seq<Event>)
    requires Feasible(Initial, events)
    ensures ValidSort(Run(Initial, events).controls.priceSort)
    ensures Run(Initial, events).fetch.error.Some? ==> Run(Initial, events).fetch.error.value == LoadError
  {
    InitialInvariant();
    RunKeepsInvariant(Initial, events);
  }

  /** The error screen offers no way out: it renders no Refresh button and
      no controls, and no request is outstanding, so no event can follow. */
  lemma ErrorIsFinal(s: ListState, e: Event)
    requires Invariant(s) && s.fetch.error.Some?
    ensures Render(s.fetch, s.controls).ErrorMessage?
    ensures !Enabled(s, e)
  {
  }

  /** One full request from a state showing the table: a load shows the
      new list with no error; a failure replaces the table with the error
      message. */
  lemma FetchCycle(s: ListState, result: FetchResult, now: int)
    requires Invariant(s) && Enabled(s, FetchStarted)
    ensures var done := Step(Step(s, FetchStarted), FetchFinished(result, now));
      && (result.Loaded? ==>
            && Render(done.fetch, done.controls).Browser?
            && done.fetch.products == ProductApi.NormalizeProducts(result.body)
            && Render(done.fetch, done.controls).view.rows
                 == Pipeline.VisibleProducts(ProductApi.NormalizeProducts(result.body),
                      s.controls.searchTerm, s.controls.selectedCategory, s.controls.priceSort))
      && (result.Failed? ==> Render(done.fetch, done.controls) == ErrorMessage(LoadError))
  {
  }

  /** While the first request is outstanding only the loading message is
      shown; while a later one is, the table stays up with Refresh disabled. */
  lemma WhileRequestOutstanding(s: ListState)
    requires Invariant(s) && Enabled(s, FetchStarted)
    ensures var busy := Step(s, FetchStarted);
      && (s.fetch == InitialFetch ==> Render(busy.fetch, busy.controls) == LoadingMessage)
      && (s.fetch != InitialFetch ==>
            Render(busy.fetch, busy.controls).Browser?
            && Render(busy.fetch, busy.controls).view.refreshDisabled)
  {
  }
}
