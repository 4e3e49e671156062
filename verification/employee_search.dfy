/** The employee-search dialog as a state machine: the search term, the selection inside the
    dialog and the current page, driven by opening, typing, clicking an employee, the page
    buttons, cancel and confirm. React's effects become explicit steps: opening resets the
    state, a changed term resets the page, and `Settle` is the page clamp that runs after
    the filtered list changes. */
module EmployeeSearch {
  import opened Wrappers
  import opened Text
  import opened Lists
  import opened Paging
  import opened Picker

  datatype Mode = Single | Multiple

  /** The dialog's props that the state depends on. */
  datatype Props = Props(mode: Mode, selectedIds: seq<string>, excludeIds: seq<string>, isLoading: bool)

  datatype State = State(searchTerm: string, selected: seq<string>, page: nat)

  function NotExcluded(excludeIds: seq<string>): Employee -> bool {
    (e: Employee) => e.id !in excludeIds
  }

  function MatchesSearch(term: string): Employee -> bool {
    (e: Employee) => MatchesTerm(e, term)
  }

  /** `filteredEmployees`: the excluded employees dropped, then the search applied. */
  function Filtered(employees: seq<Employee>, excludeIds: seq<string>, term: string): (r: seq<Employee>)
    ensures forall e :: e in r <==> e in employees && e.id !in excludeIds && MatchesTerm(e, term)
    ensures |r| <= |employees|
  {
    Filter(Filter(employees, NotExcluded(excludeIds)), MatchesSearch(term))
  }

  /** `paginatedEmployees`: the employees the current page lists. */
  function Shown(employees: seq<Employee>, props: Props, s: State): (r: seq<Employee>)
    ensures |r| <= PerPage
    ensures forall e :: e in r ==> e in employees && e.id !in props.excludeIds && MatchesTerm(e, s.searchTerm)
  {
    PageItems(Filtered(employees, props.excludeIds, s.searchTerm), s.page)
  }

  /** The effect that runs when the dialog opens: the props' selection, no search, first page. */
  function Opened(props: Props): (s: State)
    ensures s.selected == props.selectedIds && s.searchTerm == "" && s.page == 0
  {
    State("", props.selectedIds, 0)
  }

  /** Typing in the search box; the page goes back to the first one when the term changed. */
  function SetTerm(s: State, term: string): (r: State)
    ensures r.searchTerm == term && r.selected == s.selected
    ensures r.page == (if term == s.searchTerm then s.page else 0)
  {
    if term == s.searchTerm then s else s.(searchTerm := term, page := 0)
  }

  /** The page clamp: a non-empty filtered list whose page shows nothing moves to its last
      page. */
  function Settle(employees: seq<Employee>, props: Props, s: State): (r: State)
    ensures r.searchTerm == s.searchTerm && r.selected == s.selected
  {
    s.(page := Clamp(Filtered(employees, props.excludeIds, s.searchTerm), s.page))
  }

  /** `handleSelect`: single mode makes the clicked employee the whole selection, multiple
      mode toggles it. */
  function Click(props: Props, s: State, id: string): (r: State)
    ensures r.searchTerm == s.searchTerm && r.page == s.page
    ensures props.mode == Single ==> r.selected == [id]
    ensures props.mode == Multiple ==> r.selected == Toggle(s.selected, id)
  {
    match props.mode
    case Single => s.(selected := [id])
    case Multiple => s.(selected := Toggle(s.selected, id))
  }

  function NextPage(employees: seq<Employee>, props: Props, s: State): (r: State)
    ensures r.searchTerm == s.searchTerm && r.selected == s.selected
  {
    s.(page := Next(s.page, |Filtered(employees, props.excludeIds, s.searchTerm)|))
  }

  function PreviousPage(s: State): (r: State)
    ensures r.searchTerm == s.searchTerm && r.selected == s.selected
  {
    s.(page := Previous(s.page))
  }

  /** `handleCancel`: ignored while the parent is saving; otherwise the props' selection is
      restored, the search cleared (which resets the page) and the dialog closed. */
  function Cancel(props: Props, s: State): (r: Option<State>)
    ensures r.None? <==> props.isLoading
    ensures r.Some? ==> r.value.selected == props.selectedIds && r.value.searchTerm == "" &&
                        (r.value.page == 0 || s.searchTerm == "")
  {
    if props.isLoading then None
    else Some(SetTerm(s.(selected := props.selectedIds), ""))
  }

  /** The confirm button is disabled with nothing selected or while the parent is saving. */
  predicate ConfirmEnabled(props: Props, s: State) {
    |s.selected| > 0 && !props.isLoading
  }

  /** `handleConfirm`, reachable only through the enabled button: the selection handed to
      the parent. */
  function Confirm(props: Props, s: State): (r: Option<seq<string>>)
    ensures r.Some? <==> ConfirmEnabled(props, s)
    ensures r.Some? ==> r.value == s.selected && |r.value| > 0
  {
    if ConfirmEnabled(props, s) then Some(s.selected) else None
  }

  /** The events the dialog reacts to. */
  datatype Event = Open | Type(term: string) | ClickOn(id: string) | NextButton | PreviousButton

  /** One event, followed by the page clamp. */
  function Step(employees: seq<Employee>, props: Props, s: State, e: Event): (r: State)
  {
    var t := match e
      case Open => Opened(props)
      case Type(term) => SetTerm(s, term)
      case ClickOn(id) => Click(props, s, id)
      case NextButton => NextPage(employees, props, s)
      case PreviousButton => PreviousPage(s);
    Settle(employees, props, t)
  }

  /** What the dialog keeps true: the selection has no duplicates, a single-mode selection
      has at most one employee, and the page is one the buttons can show. */
  predicate Invariant(employees: seq<Employee>, props: Props, s: State) {
    && NoDuplicates(s.selected)
    && (props.mode == Single ==> |s.selected| <= 1)
    && InRange(s.page, |Filtered(employees, props.excludeIds, s.searchTerm)|)
  }

  /** Props whose selection the dialog can start from. */
  predicate GoodProps(props: Props) {
    NoDuplicates(props.selectedIds) && (props.mode == Single ==> |props.selectedIds| <= 1)
  }

  /** Every event keeps the invariant. */
  lemma StepKeepsInvariant(employees: seq<Employee>, props: Props, s: State, e: Event)
    requires GoodProps(props)
    requires Invariant(employees, props, s) || e == Open
    ensures Invariant(employees, props, Step(employees, props, s, e))
  {
    var t := match e
      case Open => Opened(props)
      case Type(term) => SetTerm(s, term)
      case ClickOn(id) => Click(props, s, id)
      case NextButton => NextPage(employees, props, s)
      case PreviousButton => PreviousPage(s);
    var items := Filtered(employees, props.excludeIds, t.searchTerm);
    ClampInRange(items, t.page);
    if e.NextButton? || e.PreviousButton? {
      StepsStayInRange(s.page, |items|);
    }
  }

  /** After every step a non-empty filtered list shows a non-empty page. */
  lemma StepShowsSomething(employees: seq<Employee>, props: Props, s: State, e: Event)
    ensures var r := Step(employees, props, s, e);
            |Filtered(employees, props.excludeIds, r.searchTerm)| > 0 ==> |Shown(employees, props, r)| > 0
  {
    var t := match e
      case Open => Opened(props)
      case Type(term) => SetTerm(s, term)
      case ClickOn(id) => Click(props, s, id)
      case NextButton => NextPage(employees, props, s)
      case PreviousButton => PreviousPage(s);
    ClampInRange(Filtered(employees, props.excludeIds, t.searchTerm), t.page);
  }

  /** Clicking the same employee twice in multiple mode gives back the same set of selected
      employees. */
  lemma ClickTwice(props: Props, s: State, id: string)
    requires props.mode == Multiple
    ensures forall x :: x in Click(props, Click(props, s, id), id).selected <==> x in s.selected
  {
    ToggleTwice(s.selected, id);
  }
}
