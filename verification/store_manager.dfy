/** The store manager's requisition dashboard: the list filtered by search term and tab, the
    per-line decisions the approval dialog starts from and edits, the request that processes
    them, and the badge colour of a status. The decisions are a JavaScript object keyed by
    line id; its `Object.values` order is modelled as insertion order. */
module StoreManager {
  import opened Wrappers
  import opened Text
  import opened Lists
  import opened OrderedMap

  /** A requisition line, reduced to what the dashboard's logic reads. */
  datatype Line = Line(id: string, quantityRequested: int)

  /** A requisition; the optional relations are present or not, as the API returned them. */
  datatype Requisition = Requisition(
    id: string, requisitionNumber: string, status: string, lines: Option<seq<Line>>,
    requesterName: Option<string>, workOrderNumber: Option<string>)

  datatype Action = Approve | Reject | Backorder

  /** `LineDecision`. A decision first created by an edit has only the fields the edit set. */
  datatype Decision = Decision(lineId: string, action: Option<Action>, quantityApproved: Option<int>, remarks: Option<string>)

  /** `Partial<LineDecision>` as the dialog's inputs send it. */
  datatype DecisionUpdate = DecisionUpdate(action: Option<Action>, quantityApproved: Option<int>, remarks: Option<string>)

  // ---------------------------------------------------------------- filtering

  /** `x?.toLowerCase().includes(t)`, false when the field is missing. */
  predicate FieldContains(field: Option<string>, t: string) {
    field.Some? && Contains(ToLower(field.value), t)
  }

  /** The search box: the requisition number, the work order number or the requester's name
      contains the term, ignoring case. */
  predicate MatchesSearch(r: Requisition, term: string) {
    var t := ToLower(term);
    Contains(ToLower(r.requisitionNumber), t) || FieldContains(r.workOrderNumber, t) || FieldContains(r.requesterName, t)
  }

  /** The tabs: pending shows requisitions waiting for the store, approved shows approved and
      waiting-for-purchase ones, rejected the rejected ones; purchase orders and all show
      everything; an unknown tab shows nothing. */
  predicate MatchesTab(tab: string, status: string) {
    || (tab == "pending" && status == "pending_store")
    || (tab == "approved" && (status == "approved" || status == "waiting_purchase"))
    || (tab == "rejected" && status == "rejected")
    || tab == "purchase_orders"
    || tab == "all"
  }

  function Visible(reqs: seq<Requisition>, tab: string, term: string): (r: seq<Requisition>)
    ensures forall q :: q in r <==> q in reqs && MatchesSearch(q, term) && MatchesTab(tab, q.status)
    ensures |r| <= |reqs|
  {
    Filter(reqs, (q: Requisition) => MatchesSearch(q, term) && MatchesTab(tab, q.status))
  }

  /** The three status tabs never share a requisition, and the "all" tab shows every
      requisition any tab shows. */
  lemma TabsDisjoint(reqs: seq<Requisition>, term: string, tab1: string, tab2: string)
    requires tab1 in ["pending", "approved", "rejected"] && tab2 in ["pending", "approved", "rejected"]
    requires tab1 != tab2
    ensures forall q :: q in Visible(reqs, tab1, term) ==> q !in Visible(reqs, tab2, term)
  {
  }

  lemma AllTabShowsEverything(reqs: seq<Requisition>, term: string, tab: string)
    ensures forall q :: q in Visible(reqs, tab, term) ==> q in Visible(reqs, "all", term)
    ensures forall q :: q in Visible(reqs, "all", term) <==> q in Visible(reqs, "purchase_orders", term)
  {
  }

  /** The status tabs and an empty search: a requisition is listed under exactly the tab its
      status belongs to. */
  lemma TabOfStatus(reqs: seq<Requisition>, q: Requisition)
    requires q in reqs
    ensures q in Visible(reqs, "pending", "") <==> q.status == "pending_store"
    ensures q in Visible(reqs, "approved", "") <==> q.status in ["approved", "waiting_purchase"]
    ensures q in Visible(reqs, "rejected", "") <==> q.status == "rejected"
  {
    assert ToLower("") == "";
    ContainsAt(ToLower(q.requisitionNumber), "", 0);
  }

  // ---------------------------------------------------------------- decisions

  /** The default decision for a line: approve the full requested quantity, no remarks. */
  function DefaultDecision(line: Line): (d: Decision)
    ensures d.lineId == line.id && d.action == Some(Approve)
    ensures d.quantityApproved == Some(line.quantityRequested) && d.remarks == Some("")
  {
    Decision(line.id, Some(Approve), Some(line.quantityRequested), Some(""))
  }

  /** The `forEach` that fills the decisions, one line after another: every decision is the
      default one for its own line id. */
  function InitialDecisions(lines: seq<Line>): (r: seq<(string, Decision)>)
    ensures DistinctKeys(r)
    ensures forall i :: 0 <= i < |r| ==> r[i].1.lineId == r[i].0 && r[i].1.action == Some(Approve) && r[i].1.remarks == Some("")
    decreases |lines|
  {
    if |lines| == 0 then []
    else Set(InitialDecisions(lines[..|lines| - 1]), lines[|lines| - 1].id, DefaultDecision(lines[|lines| - 1]))
  }

  /** The ids of the lines, in order. */
  function LineIds(lines: seq<Line>): (r: seq<string>)
    ensures |r| == |lines| && forall i :: 0 <= i < |lines| ==> r[i] == lines[i].id
  {
    Map(lines, (l: Line) => l.id)
  }

  /** The decisions have exactly the lines' ids as keys. */
  lemma {:induction false} InitialDecisionsKeys(lines: seq<Line>, k: string)
    ensures Get(InitialDecisions(lines), k).Some? <==> k in LineIds(lines)
  {
    if |lines| > 0 {
      var n := |lines| - 1;
      var front := lines[..n];
      InitialDecisionsKeys(front, k);
      assert InitialDecisions(lines) == Set(InitialDecisions(front), lines[n].id, DefaultDecision(lines[n]));
      assert LineIds(lines) == LineIds(front) + [lines[n].id];
    }
  }

  /** A line whose id no later line repeats gets the default decision, so a repeated id keeps
      the decision of its last line. */
  lemma {:induction false} InitialDecisionsLast(lines: seq<Line>, i: nat)
    requires i < |lines|
    requires forall j :: i < j < |lines| ==> lines[j].id != lines[i].id
    ensures Get(InitialDecisions(lines), lines[i].id) == Some(DefaultDecision(lines[i]))
  {
    var n := |lines| - 1;
    if i < n {
      var front := lines[..n];
      assert front[i] == lines[i];
      InitialDecisionsLast(front, i);
    }
  }

  /** The dialog's state: the requisition it was opened for and the decisions so far. */
  datatype Approval = Approval(selected: Option<Requisition>, decisions: seq<(string, Decision)>)

  /** `handleOpenApproval`: a requisition without lines starts with no decisions. */
  function OpenApproval(q: Requisition): (a: Approval)
    ensures a.selected == Some(q)
    ensures q.lines.None? ==> a.decisions == []
    ensures q.lines.Some? ==> a.decisions == InitialDecisions(q.lines.value)
  {
    Approval(Some(q), if q.lines.Some? then InitialDecisions(q.lines.value) else [])
  }

  /** `{ ...prev[lineId], ...updates, lineId }`. */
  function Merge(prev: Option<Decision>, u: DecisionUpdate, lineId: string): (d: Decision)
    ensures d.lineId == lineId
    ensures d.action == (if u.action.Some? then u.action else if prev.Some? then prev.value.action else None)
    ensures d.quantityApproved == (if u.quantityApproved.Some? then u.quantityApproved else if prev.Some? then prev.value.quantityApproved else None)
    ensures d.remarks == (if u.remarks.Some? then u.remarks else if prev.Some? then prev.value.remarks else None)
  {
    var base := if prev.Some? then prev.value else Decision(lineId, None, None, None);
    Decision(lineId,
             if u.action.Some? then u.action else base.action,
             if u.quantityApproved.Some? then u.quantityApproved else base.quantityApproved,
             if u.remarks.Some? then u.remarks else base.remarks)
  }

  /** `updateLineDecision`: the line's decision merged with the update, every other line's
      decision unchanged, and no line id entered twice. */
  function UpdateLineDecision(a: Approval, lineId: string, u: DecisionUpdate): (r: Approval)
    ensures r.selected == a.selected
    ensures Get(r.decisions, lineId) == Some(Merge(Get(a.decisions, lineId), u, lineId))
    ensures forall k :: k != lineId ==> Get(r.decisions, k) == Get(a.decisions, k)
    ensures DistinctKeys(a.decisions) ==> DistinctKeys(r.decisions)
    ensures Get(a.decisions, lineId).Some? ==> |r.decisions| == |a.decisions|
  {
    a.(decisions := Set(a.decisions, lineId, Merge(Get(a.decisions, lineId), u, lineId)))
  }

  /** An update that sets nothing leaves an opened line's decision as it was. */
  lemma EmptyUpdateKeepsDecision(a: Approval, lineId: string)
    requires Get(a.decisions, lineId).Some? && Get(a.decisions, lineId).value.lineId == lineId
    ensures Get(UpdateLineDecision(a, lineId, DecisionUpdate(None, None, None)).decisions, lineId) == Get(a.decisions, lineId)
  {
  }

  /** The request `handleProcessLines` sends. */
  datatype Payload = Payload(id: string, lineDecisions: seq<Decision>, generalRemarks: string)

  datatype Outcome = NothingSelected | NoDecisions | Process(payload: Payload)

  /** `handleProcessLines`: nothing without a selected requisition, a refusal without any
      decision, otherwise every decision, in order, for the selected requisition. */
  function ProcessLines(a: Approval, generalRemarks: string): (r: Outcome)
    ensures r == NothingSelected <==> a.selected.None?
    ensures r == NoDecisions <==> a.selected.Some? && |a.decisions| == 0
    ensures r.Process? ==> r.payload.id == a.selected.value.id && r.payload.generalRemarks == generalRemarks
    ensures r.Process? ==> |r.payload.lineDecisions| == |a.decisions| > 0
    ensures r.Process? ==> forall i :: 0 <= i < |a.decisions| ==> r.payload.lineDecisions[i] == a.decisions[i].1
  {
    if a.selected.None? then NothingSelected
    else if |a.decisions| == 0 then NoDecisions
    else Process(Payload(a.selected.value.id, Values(a.decisions), generalRemarks))
  }

  /** Opening a requisition that has lines and processing it at once approves every line,
      one decision per distinct line id. */
  lemma {:induction false} OpenThenProcessApprovesAll(q: Requisition, generalRemarks: string)
    requires q.lines.Some? && |q.lines.value| > 0
    ensures var r := ProcessLines(OpenApproval(q), generalRemarks);
            && r.Process? && r.payload.id == q.id
            && (forall d :: d in r.payload.lineDecisions ==> d.action == Some(Approve))
            && (forall line :: line in q.lines.value ==> exists d :: d in r.payload.lineDecisions && d.lineId == line.id)
  {
    var lines := q.lines.value;
    var ds := InitialDecisions(lines);
    InitialDecisionsKeys(lines, lines[0].id);
    assert LineIds(lines)[0] == lines[0].id;
    assert Get(ds, lines[0].id).Some?;
    assert |ds| > 0;
    var r := ProcessLines(OpenApproval(q), generalRemarks);
    forall line | line in lines
      ensures exists d :: d in r.payload.lineDecisions && d.lineId == line.id
    {
      var i :| 0 <= i < |lines| && lines[i] == line;
      InitialDecisionsKeys(lines, line.id);
      assert LineIds(lines)[i] == line.id;
      assert Get(ds, line.id).Some?;
      var k := KeyIndex(ds, line.id).value;
      assert r.payload.lineDecisions[k] == ds[k].1;
    }
  }

  /** A requisition without lines cannot be processed. */
  lemma NoLinesNoProcess(q: Requisition, generalRemarks: string)
    requires q.lines.None? || q.lines.value == []
    ensures ProcessLines(OpenApproval(q), generalRemarks) == NoDecisions
  {
  }

  // ---------------------------------------------------------------- badges

  datatype Variant = Secondary | Default | Destructive

  /** `getStatusColor`. */
  function StatusColor(status: string): (v: Variant)
    ensures v == Destructive <==> status == "rejected"
    ensures v == Secondary <==> status in ["pending_store", "pending_foreman", "backordered", "waiting_purchase"]
  {
    if status in ["pending_store", "pending_foreman", "backordered", "waiting_purchase"] then Secondary
    else if status == "rejected" then Destructive
    else Default
  }

  /** The badge agrees with the tab: pending requisitions are secondary, rejected ones
      destructive, and approved-tab ones are never destructive. */
  lemma BadgeMatchesTab(reqs: seq<Requisition>, term: string)
    ensures forall q :: q in Visible(reqs, "pending", term) ==> StatusColor(q.status) == Secondary
    ensures forall q :: q in Visible(reqs, "rejected", term) ==> StatusColor(q.status) == Destructive
    ensures forall q :: q in Visible(reqs, "approved", term) ==> StatusColor(q.status) != Destructive
  {
  }
}
