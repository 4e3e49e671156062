/** What the employee-search dialog and the employee-selection page share: the employee
    record they list, the case-insensitive search on name, employee number and role, and the
    click that toggles an employee in or out of a multiple selection. */
module Picker {
  import opened Text

  datatype Employee = Employee(id: string, fullName: string, employeeId: string, role: string)

  /** The search box: the lower-cased name, employee number or role contains the lower-cased
      term. */
  predicate MatchesTerm(e: Employee, term: string) {
    var t := ToLower(term);
    Contains(ToLower(e.fullName), t) || Contains(ToLower(e.employeeId), t) || Contains(ToLower(e.role), t)
  }

  /** An empty search term matches every employee. */
  lemma EmptyTermMatches(e: Employee)
    ensures MatchesTerm(e, "")
  {
    assert ToLower("") == "";
    ContainsAt(ToLower(e.fullName), "", 0);
  }

  /** Case does not matter: a term and its lower-cased form match the same employees. */
  lemma TermCaseInsensitive(e: Employee, term: string)
    ensures MatchesTerm(e, term) <==> MatchesTerm(e, ToLower(term))
  {
    ToLowerIdempotent(term);
  }

  /** The click in multiple mode: an employee already selected is removed (every copy), any
      other is appended. */
  function Toggle(selected: seq<string>, id: string): (r: seq<string>)
    ensures id in r <==> id !in selected
    ensures forall x :: x != id ==> (x in r <==> x in selected)
    ensures NoDuplicates(selected) ==> NoDuplicates(r)
  {
    if id in selected then
      assert NoDuplicates(selected) ==> NoDuplicates(RemoveAll(selected, id)) by {
        if NoDuplicates(selected) {
          RemoveAllNoDuplicates(selected, id);
        }
      }
      RemoveAll(selected, id)
    else
      assert NoDuplicates(selected) ==> NoDuplicates(selected + [id]) by {
        if NoDuplicates(selected) {
          forall i, j | 0 <= i < j < |selected| + 1 ensures (selected + [id])[i] != (selected + [id])[j] {
            if j == |selected| {
              assert (selected + [id])[i] == selected[i];
            }
          }
        }
      }
      selected + [id]
  }

  /** Clicking the same employee twice restores the selection as a set, and restores the list
      itself when the employee was not selected. */
  lemma ToggleTwice(selected: seq<string>, id: string)
    ensures forall x :: x in Toggle(Toggle(selected, id), id) <==> x in selected
    ensures id !in selected ==> Toggle(Toggle(selected, id), id) == selected
  {
    if id !in selected {
      RemoveAllAppend(selected, id);
    }
  }

  /** Removing a value that was just appended to a list without it gives the list back. */
  lemma {:induction false} RemoveAllAppend(s: seq<string>, x: string)
    requires x !in s
    ensures RemoveAll(s + [x], x) == s
  {
    if |s| == 0 {
      assert [x][1..] == [];
    } else {
      assert (s + [x])[0] == s[0];
      assert (s + [x])[1..] == s[1..] + [x];
      RemoveAllAppend(s[1..], x);
    }
  }
}
