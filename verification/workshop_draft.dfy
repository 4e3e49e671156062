/** The workshop draft store: the draft being edited across the create/edit workshop pages,
    the session-storage key it is saved under, and the store itself. Each operation is a
    pure transition; the persistence effect (which React runs when the draft or the key
    changes) is the explicit `Persist` step that follows it. JSON encoding is abstracted: a
    stored entry is either a draft that parses back or text that does not. */
module WorkshopDraft {
  import opened Wrappers
  import opened Text

  /** `WorkshopDraft`; the optional numeric targets are whole numbers here. */
  datatype Draft = Draft(
    name: string, foremanId: string, description: string, garageId: string,
    memberIds: seq<string>,
    monthlyTarget: Option<int>, q1Target: Option<int>, q2Target: Option<int>,
    q3Target: Option<int>, q4Target: Option<int>, annualTarget: Option<int>,
    workshopId: Option<string>)

  /** `Partial<WorkshopDraft>`: a field is overwritten exactly when the patch supplies it.
      An optional field of the draft may be supplied as `undefined`, which the spread copies
      like any other value: `None` is a key the patch lacks, `Some(None)` a key present with
      value `undefined`, and `Some(Some(v))` a key carrying `v`. */
  datatype Patch = Patch(
    name: Option<string>, foremanId: Option<string>, description: Option<string>,
    garageId: Option<string>, memberIds: Option<seq<string>>,
    monthlyTarget: Option<Option<int>>, q1Target: Option<Option<int>>,
    q2Target: Option<Option<int>>, q3Target: Option<Option<int>>,
    q4Target: Option<Option<int>>, annualTarget: Option<Option<int>>,
    workshopId: Option<Option<string>>)

  const EmptyPatch: Patch := Patch(None, None, None, None, None, None, None, None, None, None, None, None)

  /** A session-storage entry. */
  datatype Stored = Parsed(draft: Draft) | Unparseable

  datatype State = State(draft: Option<Draft>, key: Option<string>, store: map<string, Stored>)

  // ---------------------------------------------------------------- the storage key

  const KeyPrefix: string := "workshop_draft_"

  /** `workshopId || "new"`. */
  function WorkshopPart(workshopId: Option<string>): (r: string)
    ensures workshopId.Some? && workshopId.value != "" ==> r == workshopId.value
    ensures workshopId.None? || workshopId.value == "" ==> r == "new"
  {
    match workshopId
    case Some(w) => if w != "" then w else "new"
    case None => "new"
  }

  /** `getStorageKey`: "workshop_draft_<garageId>_<workshopId or new>". */
  function StorageKey(garageId: string, workshopId: Option<string>): (k: string)
    ensures StartsWith(k, KeyPrefix)
    ensures k[|KeyPrefix|..] == garageId + "_" + WorkshopPart(workshopId)
  {
    KeyPrefix + garageId + "_" + WorkshopPart(workshopId)
  }

  /** Two keys agree only for the same garage and the same workshop part, when garage ids
      contain no underscore (the generated ids are UUIDs, which have none). */
  lemma StorageKeyInjective(g1: string, w1: Option<string>, g2: string, w2: Option<string>)
    requires '_' !in g1 && '_' !in g2
    requires StorageKey(g1, w1) == StorageKey(g2, w2)
    ensures g1 == g2 && WorkshopPart(w1) == WorkshopPart(w2)
  {
    var k1 := StorageKey(g1, w1)[|KeyPrefix|..];
    var k2 := StorageKey(g2, w2)[|KeyPrefix|..];
    assert k1 == k2;
    SplitAtFirst(g1, WorkshopPart(w1), g2, WorkshopPart(w2), '_');
  }

  /** A separator absent from both heads splits the joined strings in the same place. */
  lemma SplitAtFirst(a: string, b: string, a': string, b': string, c: char)
    requires c !in a && c !in a'
    requires a + [c] + b == a' + [c] + b'
    ensures a == a' && b == b'
  {
    var s := a + [c] + b;
    FirstSeparator(a, b, c);
    FirstSeparator(a', b', c);
    assert a == s[..|a|] == a';
    assert b == s[|a| + 1..] == b';
  }

  /** The first separator in `a + [c] + b` is the one after `a`, when `a` has none. */
  lemma FirstSeparator(a: string, b: string, c: char)
    requires c !in a
    ensures IndexOf(a + [c] + b, [c]) == Some(|a|)
  {
    var s := a + [c] + b;
    assert s[|a|..|a| + 1] == [c];
    forall j | 0 <= j < |a| ensures !OccursAt(s, [c], j) {
      assert s[j] == a[j];
      NotOccursAt(s, [c], j);
    }
    IndexOfAt(s, [c], |a|);
  }

  /** A workshop whose id is literally "new" shares its key with a new-workshop draft. */
  lemma NewWorkshopKey(garageId: string)
    ensures StorageKey(garageId, Some("new")) == StorageKey(garageId, None)
  {
  }

  // ---------------------------------------------------------------- transitions

  /** `{ ...prev, ...updates }`. */
  function Apply(d: Draft, p: Patch): (r: Draft)
    ensures r.name == p.name.GetOr(d.name) && r.foremanId == p.foremanId.GetOr(d.foremanId)
    ensures r.description == p.description.GetOr(d.description)
    ensures r.garageId == p.garageId.GetOr(d.garageId)
    ensures r.memberIds == p.memberIds.GetOr(d.memberIds)
    ensures r.monthlyTarget == (if p.monthlyTarget.Some? then p.monthlyTarget.value else d.monthlyTarget)
    ensures r.q1Target == (if p.q1Target.Some? then p.q1Target.value else d.q1Target)
    ensures r.q2Target == (if p.q2Target.Some? then p.q2Target.value else d.q2Target)
    ensures r.q3Target == (if p.q3Target.Some? then p.q3Target.value else d.q3Target)
    ensures r.q4Target == (if p.q4Target.Some? then p.q4Target.value else d.q4Target)
    ensures r.annualTarget == (if p.annualTarget.Some? then p.annualTarget.value else d.annualTarget)
    ensures r.workshopId == (if p.workshopId.Some? then p.workshopId.value else d.workshopId)
  {
    Draft(
      p.name.GetOr(d.name), p.foremanId.GetOr(d.foremanId), p.description.GetOr(d.description),
      p.garageId.GetOr(d.garageId), p.memberIds.GetOr(d.memberIds),
      Override(d.monthlyTarget, p.monthlyTarget), Override(d.q1Target, p.q1Target),
      Override(d.q2Target, p.q2Target), Override(d.q3Target, p.q3Target),
      Override(d.q4Target, p.q4Target), Override(d.annualTarget, p.annualTarget),
      Override(d.workshopId, p.workshopId))
  }

  /** An optional field of the spread: the update's value, `undefined` included, when the
      update has the key. */
  function Override<T>(current: Option<T>, update: Option<Option<T>>): Option<T> {
    if update.Some? then update.value else current
  }

  /** The patch that supplies every field of `e`, optional ones included, as the edit page
      does when it hands over its whole form. */
  function WholePatch(e: Draft): Patch {
    Patch(
      Some(e.name), Some(e.foremanId), Some(e.description), Some(e.garageId), Some(e.memberIds),
      Some(e.monthlyTarget), Some(e.q1Target), Some(e.q2Target), Some(e.q3Target),
      Some(e.q4Target), Some(e.annualTarget), Some(e.workshopId))
  }

  /** Spreading a whole draft replaces the previous one entirely: a target the form leaves
      unset clears the one the draft held. */
  lemma WholePatchReplaces(d: Draft, e: Draft)
    ensures Apply(d, WholePatch(e)) == e
  {
  }

  /** `initDraft`: the key for this garage and workshop becomes current and the draft is
      loaded from it, or is null when nothing usable is stored. */
  function Init(s: State, garageId: string, workshopId: Option<string>): (r: State)
    ensures r.key == Some(StorageKey(garageId, workshopId)) && r.store == s.store
    ensures r.draft.Some? <==> StorageKey(garageId, workshopId) in s.store &&
                               s.store[StorageKey(garageId, workshopId)].Parsed?
    ensures r.draft.Some? ==> s.store[StorageKey(garageId, workshopId)] == Parsed(r.draft.value)
  {
    var key := StorageKey(garageId, workshopId);
    var loaded := if key in s.store && s.store[key].Parsed? then Some(s.store[key].draft) else None;
    State(loaded, Some(key), s.store)
  }

  /** `setDraft`. */
  function SetDraft(s: State, d: Option<Draft>): (r: State)
    ensures r.draft == d && r.key == s.key && r.store == s.store
  {
    s.(draft := d)
  }

  /** `updateDraft`: a null draft stays null; otherwise the supplied fields are overwritten. */
  function Update(s: State, p: Patch): (r: State)
    ensures s.draft.None? ==> r == s
    ensures s.draft.Some? ==> r.draft == Some(Apply(s.draft.value, p))
    ensures r.key == s.key && r.store == s.store
  {
    match s.draft
    case None => s
    case Some(d) => s.(draft := Some(Apply(d, p)))
  }

  /** `setForemanId`. */
  function SetForemanId(s: State, id: string): (r: State)
    ensures s.draft.None? ==> r == s
    ensures s.draft.Some? ==> r.draft == Some(s.draft.value.(foremanId := id))
  {
    Update(s, EmptyPatch.(foremanId := Some(id)))
  }

  /** `setMemberIds`. */
  function SetMemberIds(s: State, ids: seq<string>): (r: State)
    ensures s.draft.None? ==> r == s
    ensures s.draft.Some? ==> r.draft == Some(s.draft.value.(memberIds := ids))
  {
    Update(s, EmptyPatch.(memberIds := Some(ids)))
  }

  /** `clearDraft`: the stored entry removed, and no draft and no key. */
  function Clear(s: State): (r: State)
    ensures r.draft.None? && r.key.None?
    ensures s.key.Some? ==> r.store == s.store - {s.key.value}
    ensures s.key.None? ==> r.store == s.store
  {
    var store := if s.key.Some? then s.store - {s.key.value} else s.store;
    State(None, None, store)
  }

  /** The persistence effect after a transition from `before` to `after`: when the draft or
      the key changed and a key is set, the draft is saved under it, or the entry is removed
      when the draft is null. */
  function Persist(before: State, after: State): (r: State)
    ensures r.draft == after.draft && r.key == after.key
    ensures after.key.None? ==> r.store == after.store
    ensures forall k :: after.key.Some? && k != after.key.value ==>
              (k in r.store <==> k in after.store) && (k in r.store ==> r.store[k] == after.store[k])
  {
    if (after.draft == before.draft && after.key == before.key) || after.key.None? then after
    else
      var key := after.key.value;
      match after.draft
      case Some(d) => after.(store := after.store[key := Parsed(d)])
      case None => after.(store := after.store - {key})
  }

  datatype Op =
    | InitOp(garageId: string, workshopId: Option<string>)
    | SetDraftOp(d: Option<Draft>)
    | UpdateOp(p: Patch)
    | ClearOp
    | SetForemanIdOp(id: string)
    | SetMemberIdsOp(ids: seq<string>)

  function Transition(s: State, op: Op): State {
    match op
    case InitOp(g, w) => Init(s, g, w)
    case SetDraftOp(d) => SetDraft(s, d)
    case UpdateOp(p) => Update(s, p)
    case ClearOp => Clear(s)
    case SetForemanIdOp(id) => SetForemanId(s, id)
    case SetMemberIdsOp(ids) => SetMemberIds(s, ids)
  }

  /** One operation followed by the persistence effect. */
  function Step(s: State, op: Op): State {
    Persist(s, Transition(s, op))
  }

  // ---------------------------------------------------------------- the store invariant

  /** While a key is set, the store holds the draft under it when there is one, and nothing
      under it when there is none. */
  predicate Synced(s: State) {
    s.key.Some? ==>
      (s.draft.Some? ==> s.key.value in s.store && s.store[s.key.value] == Parsed(s.draft.value))
      && (s.draft.None? ==> s.key.value !in s.store)
  }

  /** The provider starts with no draft and no key, which is synced whatever is stored. */
  lemma StartSynced(store: map<string, Stored>)
    ensures Synced(State(None, None, store))
  {
  }

  /** Every operation keeps the store in step with the draft. */
  lemma StepKeepsSynced(s: State, op: Op)
    requires Synced(s)
    ensures Synced(Step(s, op))
  {
  }

  /** A draft set while a key is current is what initialising with that key loads back. */
  lemma SavedDraftReloads(s: State, d: Draft, garageId: string, workshopId: Option<string>)
    requires Synced(s) && s.key == Some(StorageKey(garageId, workshopId))
    ensures Step(Step(s, SetDraftOp(Some(d))), InitOp(garageId, workshopId)).draft == Some(d)
  {
    StepKeepsSynced(s, SetDraftOp(Some(d)));
  }

  /** After clearing, initialising with the cleared key loads no draft. */
  lemma ClearedDraftGone(s: State, garageId: string, workshopId: Option<string>)
    requires s.key == Some(StorageKey(garageId, workshopId))
    ensures Step(Step(s, ClearOp), InitOp(garageId, workshopId)).draft.None?
  {
  }
}
