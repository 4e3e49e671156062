/** The employee-selection page of the workshop form: the mode and return target read from
    the query string, the selection it starts from, clicks, paging over the searched list,
    and what confirm and cancel do. The page hands its result to a `patchDraft` function
    that the draft store does not define, so the patch is modelled as the page's output and
    not applied to any draft. */
module SelectEmployees {
  import opened Wrappers
  import opened Text
  import opened Lists
  import opened Paging
  import opened Picker

  const ForemanMode: string := "foreman"
  const MembersMode: string := "members"

  /** `params.get("mode") || "foreman"`: a missing or empty parameter means foreman mode;
      any other value is kept as it is. */
  function Mode(param: Option<string>): (m: string)
    ensures param.None? || param.value == "" ==> m == ForemanMode
    ensures param.Some? && param.value != "" ==> m == param.value
  {
    if param.Some? && param.value != "" then param.value else ForemanMode
  }

  /** `params.get("returnTo") || "add"`. */
  function ReturnTo(param: Option<string>): (r: string)
    ensures param.None? || param.value == "" ==> r == "add"
    ensures param.Some? && param.value != "" ==> r == param.value
  {
    if param.Some? && param.value != "" then param.value else "add"
  }

  /** What the page reads from the draft: its foreman and its members. */
  datatype DraftView = DraftView(foremanId: string, memberIds: seq<string>)

  /** The selection the page starts with: the draft's foreman in foreman mode (none if it
      has none), the draft's members otherwise. */
  function InitialSelection(mode: string, draft: Option<DraftView>): (r: seq<string>)
    ensures mode == ForemanMode ==> r == (if draft.Some? && draft.value.foremanId != "" then [draft.value.foremanId] else [])
    ensures mode != ForemanMode ==> r == (if draft.Some? then draft.value.memberIds else [])
  {
    if mode == ForemanMode then
      if draft.Some? && draft.value.foremanId != "" then [draft.value.foremanId] else []
    else if draft.Some? then draft.value.memberIds else []
  }

  /** `handleSelect`: foreman mode replaces the selection, every other mode toggles. */
  function Click(mode: string, selected: seq<string>, id: string): (r: seq<string>)
    ensures mode == ForemanMode ==> r == [id]
    ensures mode != ForemanMode ==> (id in r <==> id !in selected)
    ensures mode != ForemanMode ==> forall x :: x != id ==> (x in r <==> x in selected)
  {
    if mode == ForemanMode then [id] else Toggle(selected, id)
  }

  /** `filteredEmployees`: the search, with nobody excluded. */
  function Filtered(employees: seq<Employee>, term: string): (r: seq<Employee>)
    ensures forall e :: e in r <==> e in employees && MatchesTerm(e, term)
  {
    Filter(employees, (e: Employee) => MatchesTerm(e, term))
  }

  /** The update handed to `patchDraft`. */
  datatype DraftPatch = ForemanPatch(foremanId: string) | MembersPatch(memberIds: seq<string>)

  /** Where confirm and cancel go: back to the new-workshop form for "add", else to the edit
      form of the workshop in the query string (a missing id is rendered "null"). */
  function ReturnPath(garageId: string, returnTo: string, workshopId: Option<string>): (p: string)
    ensures StartsWith(p, "/garages/" + garageId + "/workshops/")
    ensures returnTo == "add" ==> EndsWith(p, "/new")
    ensures returnTo != "add" ==> EndsWith(p, "/edit")
  {
    var base := "/garages/" + garageId + "/workshops/";
    if returnTo == "add" then base + "new"
    else base + workshopId.GetOr("null") + "/edit"
  }

  datatype Confirmed = Confirmed(patch: Option<DraftPatch>, path: string)

  /** `handleConfirm`, reachable only with a non-empty selection (the button is disabled
      otherwise): foreman mode patches the first selected id, members mode patches the whole
      selection, any other mode patches nothing; then the page navigates back. */
  function Confirm(mode: string, selected: seq<string>, garageId: string, returnTo: string,
                   workshopId: Option<string>): (r: Option<Confirmed>)
    ensures r.None? <==> |selected| == 0
    ensures r.Some? ==> r.value.path == ReturnPath(garageId, returnTo, workshopId)
    ensures r.Some? && mode == ForemanMode ==> r.value.patch == Some(ForemanPatch(selected[0]))
    ensures r.Some? && mode == MembersMode ==> r.value.patch == Some(MembersPatch(selected))
    ensures r.Some? && mode != ForemanMode && mode != MembersMode ==> r.value.patch.None?
  {
    if |selected| == 0 then None
    else
      var patch := if mode == ForemanMode then Some(ForemanPatch(selected[0]))
                   else if mode == MembersMode then Some(MembersPatch(selected))
                   else None;
      Some(Confirmed(patch, ReturnPath(garageId, returnTo, workshopId)))
  }

  /** The page's state: the search term, the selection and the page number. */
  datatype State = State(searchTerm: string, selected: seq<string>, page: nat)

  datatype Event = Type(term: string) | ClickOn(id: string) | NextButton | PreviousButton

  /** One event followed by the page clamp; a changed term first goes back to page one. */
  function Step(employees: seq<Employee>, mode: string, s: State, e: Event): (r: State)
    ensures r.searchTerm == (if e.Type? then e.term else s.searchTerm)
    ensures r.selected == (if e.ClickOn? then Click(mode, s.selected, e.id) else s.selected)
  {
    var t := match e
      case Type(term) => if term == s.searchTerm then s else s.(searchTerm := term, page := 0)
      case ClickOn(id) => s.(selected := Click(mode, s.selected, id))
      case NextButton => s.(page := Next(s.page, |Filtered(employees, s.searchTerm)|))
      case PreviousButton => s.(page := Previous(s.page));
    t.(page := Clamp(Filtered(employees, t.searchTerm), t.page))
  }

  /** The page stays one the buttons can show, and a non-empty list always shows someone. */
  lemma StepKeepsPageInRange(employees: seq<Employee>, mode: string, s: State, e: Event)
    requires InRange(s.page, |Filtered(employees, s.searchTerm)|)
    ensures var r := Step(employees, mode, s, e);
            && InRange(r.page, |Filtered(employees, r.searchTerm)|)
            && (|Filtered(employees, r.searchTerm)| > 0 ==> |PageItems(Filtered(employees, r.searchTerm), r.page)| > 0)
  {
    var t := match e
      case Type(term) => if term == s.searchTerm then s else s.(searchTerm := term, page := 0)
      case ClickOn(id) => s.(selected := Click(mode, s.selected, id))
      case NextButton => s.(page := Next(s.page, |Filtered(employees, s.searchTerm)|))
      case PreviousButton => s.(page := Previous(s.page));
    var items := Filtered(employees, t.searchTerm);
    StepsStayInRange(s.page, |Filtered(employees, s.searchTerm)|);
    ClampInRange(items, t.page);
  }

  /** In foreman mode a confirmed selection always patches exactly one foreman: the one
      clicked last. */
  lemma ForemanConfirmAfterClick(selected: seq<string>, id: string, garageId: string, returnTo: string,
                                 workshopId: Option<string>)
    ensures var r := Confirm(ForemanMode, Click(ForemanMode, selected, id), garageId, returnTo, workshopId);
            r.Some? && r.value.patch == Some(ForemanPatch(id))
  {
    assert Click(ForemanMode, selected, id) == [id];
  }

  /** Opening the page in members mode and confirming without clicking patches the draft's
      own member list back. */
  lemma MembersRoundTrip(draft: DraftView, garageId: string, returnTo: string, workshopId: Option<string>)
    requires |draft.memberIds| > 0
    ensures var r := Confirm(MembersMode, InitialSelection(MembersMode, Some(draft)), garageId, returnTo, workshopId);
            r.Some? && r.value.patch == Some(MembersPatch(draft.memberIds))
  {
    assert MembersMode != ForemanMode;
  }
}
