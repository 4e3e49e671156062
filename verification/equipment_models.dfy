/** The equipment-models hook: from the equipment list it derives one entry per distinct
    model (with the make of the first unit seen and the number of units), sorted by model
    name, and a lookup from equipment id to model. A missing make, model or id is the empty
    string, which JavaScript treats as false. String collation is the caller's comparison. */
module EquipmentModels {
  import opened Wrappers
  import opened Lists
  import opened OrderedMap
  import opened Sorting

  datatype Equipment = Equipment(id: string, make: string, model: string)

  /** `EquipmentModelInfo`. */
  datatype ModelInfo = ModelInfo(model: string, make: string, count: nat)

  /** `eq.make || "Unknown"`. */
  function MakeOr(make: string): (r: string)
    ensures r != ""
    ensures make != "" ==> r == make
  {
    if make != "" then make else "Unknown"
  }

  function HasModel(m: string): Equipment -> bool {
    (u: Equipment) => u.model == m
  }

  /** How many units carry model `m`. */
  function CountModel(units: seq<Equipment>, m: string): nat {
    |Filter(units, HasModel(m))|
  }

  // ---------------------------------------------------------------- the models list

  /** The `forEach` that fills the model map, one unit after another: a unit without a model
      is skipped, a known model is counted once more, a new model is entered with count one. */
  function Aggregate(units: seq<Equipment>): (r: seq<(string, ModelInfo)>)
    ensures Keyed(r)
    decreases |units|
  {
    if |units| == 0 then [] else AddUnit(Aggregate(units[..|units| - 1]), units[|units| - 1])
  }

  /** Every key is a model name and its entry carries it, with at least one unit. */
  predicate Keyed(m: seq<(string, ModelInfo)>) {
    && DistinctKeys(m)
    && forall i :: 0 <= i < |m| ==> m[i].0 != "" && m[i].1.model == m[i].0 && m[i].1.count >= 1
  }

  /** One step of the `forEach`. */
  function AddUnit(acc: seq<(string, ModelInfo)>, u: Equipment): (r: seq<(string, ModelInfo)>)
    requires Keyed(acc)
    ensures Keyed(r)
    ensures u.model == "" ==> r == acc
    ensures forall k :: k != u.model ==> Get(r, k) == Get(acc, k)
    ensures u.model != "" && Get(acc, u.model).Some? ==>
              Get(r, u.model) == Some(Get(acc, u.model).value.(count := Get(acc, u.model).value.count + 1))
    ensures u.model != "" && Get(acc, u.model).None? ==> Get(r, u.model) == Some(ModelInfo(u.model, MakeOr(u.make), 1))
  {
    if u.model == "" then acc
    else match Get(acc, u.model)
      case Some(info) =>
        assert info.model == u.model && info.count >= 1 by { GetIsEntry(acc, u.model); }
        Set(acc, u.model, info.(count := info.count + 1))
      case None => Set(acc, u.model, ModelInfo(u.model, MakeOr(u.make), 1))
  }

  /** What `Get` finds is one of the entries. */
  lemma GetIsEntry<K, V>(m: seq<(K, V)>, k: K)
    requires Get(m, k).Some?
    ensures exists i :: 0 <= i < |m| && m[i] == (k, Get(m, k).value)
    ensures Get(m, k).value in Values(m)
  {
    var i := KeyIndex(m, k).value;
    assert m[i] == (k, Get(m, k).value);
    assert Values(m)[i] == m[i].1;
  }

  /** A model has an entry exactly when some unit carries it, and the entry counts those
      units. */
  lemma {:induction false} AggregateCounts(units: seq<Equipment>, m: string)
    requires m != ""
    ensures Get(Aggregate(units), m).Some? <==> CountModel(units, m) > 0
    ensures Get(Aggregate(units), m).Some? ==> Get(Aggregate(units), m).value.count == CountModel(units, m)
  {
    if |units| > 0 {
      var n := |units| - 1;
      AggregateCounts(units[..n], m);
      assert Aggregate(units) == AddUnit(Aggregate(units[..n]), units[n]);
      FilterLast(units, HasModel(m));
    }
  }

  /** The entry of a model takes the make of the first unit carrying it. */
  lemma {:induction false} AggregateMake(units: seq<Equipment>, i: nat)
    requires i < |units| && units[i].model != ""
    requires forall j :: 0 <= j < i ==> units[j].model != units[i].model
    ensures Get(Aggregate(units), units[i].model).Some?
    ensures Get(Aggregate(units), units[i].model).value.make == MakeOr(units[i].make)
  {
    var m := units[i].model;
    var n := |units| - 1;
    var front := units[..n];
    assert Aggregate(units) == AddUnit(Aggregate(front), units[n]);
    if i < n {
      assert front[i] == units[i];
      AggregateMake(front, i);
    } else {
      assert forall j :: 0 <= j < |front| ==> front[j].model != m;
      AggregateAbsent(front, m);
    }
  }

  /** A model no unit carries has no entry. */
  lemma {:induction false} AggregateAbsent(units: seq<Equipment>, m: string)
    requires forall j :: 0 <= j < |units| ==> units[j].model != m
    ensures Get(Aggregate(units), m).None?
  {
    if |units| > 0 {
      var n := |units| - 1;
      AggregateAbsent(units[..n], m);
      assert Aggregate(units) == AddUnit(Aggregate(units[..n]), units[n]);
    }
  }

  /** `byModel`: the comparison on model names, lifted to entries. */
  function ByModel(le: (string, string) -> bool): (ModelInfo, ModelInfo) -> bool {
    (a: ModelInfo, b: ModelInfo) => le(a.model, b.model)
  }

  lemma ByModelTotal(le: (string, string) -> bool)
    requires TotalPreorder(le)
    ensures TotalPreorder(ByModel(le))
  {
    forall a: ModelInfo, b: ModelInfo ensures ByModel(le)(a, b) || ByModel(le)(b, a) {
      assert le(a.model, b.model) || le(b.model, a.model);
    }
    forall a: ModelInfo, b: ModelInfo, c: ModelInfo | ByModel(le)(a, b) && ByModel(le)(b, c)
      ensures ByModel(le)(a, c)
    {
      assert le(a.model, b.model) && le(b.model, c.model);
    }
  }

  /** `models`: no equipment loaded gives no models; otherwise the map's entries sorted by
      model name. */
  function Models(data: Option<seq<Equipment>>, le: (string, string) -> bool): (r: seq<ModelInfo>)
    requires TotalPreorder(le)
    ensures data.None? ==> r == []
    ensures SortedBy(r, ByModel(le))
    ensures data.Some? ==> multiset(r) == multiset(Values(Aggregate(data.value)))
    ensures data.Some? ==> forall x :: TiedWith(r, x, ByModel(le)) ==
                                       TiedWith(Values(Aggregate(data.value)), x, ByModel(le))
  {
    ByModelTotal(le);
    match data
    case None => []
    case Some(units) =>
      var entries := Values(Aggregate(units));
      var r := Sort(entries, ByModel(le));
      assert forall x :: TiedWith(r, x, ByModel(le)) == TiedWith(entries, x, ByModel(le)) by {
        forall x ensures TiedWith(r, x, ByModel(le)) == TiedWith(entries, x, ByModel(le)) {
          SortStable(entries, x, ByModel(le));
        }
      }
      r
  }

  /** The list has one entry per distinct model a unit carries, each counting that model's
      units. */
  lemma ModelsDescribeUnits(units: seq<Equipment>, le: (string, string) -> bool)
    requires TotalPreorder(le)
    ensures forall info :: info in Models(Some(units), le) ==>
              info.model != "" && info.count == CountModel(units, info.model)
    ensures forall i :: 0 <= i < |units| && units[i].model != "" ==>
              exists info :: info in Models(Some(units), le) && info.model == units[i].model
    ensures forall i, j :: 0 <= i < j < |Models(Some(units), le)| ==>
              Models(Some(units), le)[i].model != Models(Some(units), le)[j].model
  {
    var agg := Aggregate(units);
    var r := Models(Some(units), le);
    assert forall info :: info in r <==> info in Values(agg) by {
      forall info ensures info in r <==> info in Values(agg) {
        assert info in r <==> info in multiset(r);
      }
    }
    forall info | info in r
      ensures info.model != "" && info.count == CountModel(units, info.model)
    {
      var k :| 0 <= k < |Values(agg)| && Values(agg)[k] == info;
      GetEntry(agg, k);
      AggregateCounts(units, info.model);
    }
    forall i | 0 <= i < |units| && units[i].model != ""
      ensures exists info :: info in r && info.model == units[i].model
    {
      var m := units[i].model;
      assert units[i] in Filter(units, HasModel(m));
      AggregateCounts(units, m);
      GetIsEntry(agg, m);
    }
    ModelsDistinct(agg, r);
  }

  /** The entry of a model names the make of the first unit that carries it. */
  lemma ModelsTakeFirstMake(units: seq<Equipment>, le: (string, string) -> bool, i: nat)
    requires TotalPreorder(le)
    requires i < |units| && units[i].model != ""
    requires forall j :: 0 <= j < i ==> units[j].model != units[i].model
    ensures exists info :: info in Models(Some(units), le) && info.model == units[i].model &&
                           info.make == MakeOr(units[i].make)
  {
    var agg := Aggregate(units);
    AggregateMake(units, i);
    GetIsEntry(agg, units[i].model);
    var info := Get(agg, units[i].model).value;
    assert info in multiset(Models(Some(units), le));
  }

  /** A permutation of the values of a map whose entries carry their own key has no model
      twice. */
  lemma ModelsDistinct(agg: seq<(string, ModelInfo)>, r: seq<ModelInfo>)
    requires Keyed(agg)
    requires multiset(r) == multiset(Values(agg))
    ensures forall i, j :: 0 <= i < j < |r| ==> r[i].model != r[j].model
  {
    forall i, j | 0 <= i < j < |r| ensures r[i].model != r[j].model {
      assert r[i] in multiset(r) && r[j] in multiset(r);
      SameModelSameEntry(agg, r[i], r[j]);
      MultisetTwo(r, i, j);
      ValuesCountOne(agg, r[i]);
    }
  }

  /** Two values of such a map with the same model are the same entry. */
  lemma SameModelSameEntry(agg: seq<(string, ModelInfo)>, x: ModelInfo, y: ModelInfo)
    requires Keyed(agg)
    requires x in Values(agg) && y in Values(agg)
    ensures x.model == y.model ==> x == y
  {
    var a :| 0 <= a < |agg| && Values(agg)[a] == x;
    var b :| 0 <= b < |agg| && Values(agg)[b] == y;
    assert agg[a].0 == x.model && agg[b].0 == y.model;
    assert x.model == y.model ==> a == b;
  }

  /** An element at two positions occurs at least twice. */
  lemma MultisetTwo<T>(s: seq<T>, i: nat, j: nat)
    requires i < j < |s|
    ensures s[i] == s[j] ==> multiset(s)[s[i]] >= 2
  {
    assert s == s[..j] + [s[j]] + s[j + 1..];
    assert s[i] in s[..j];
    assert multiset(s) == multiset(s[..j]) + multiset{s[j]} + multiset(s[j + 1..]);
  }

  /** Values of such a map occur once each. */
  lemma {:induction false} ValuesCountOne(agg: seq<(string, ModelInfo)>, v: ModelInfo)
    requires Keyed(agg)
    ensures multiset(Values(agg))[v] <= 1
  {
    if |agg| > 0 {
      var rest := agg[1..];
      assert Keyed(rest) by {
        forall i, j | 0 <= i < j < |rest| ensures rest[i].0 != rest[j].0 {
          assert rest[i] == agg[i + 1] && rest[j] == agg[j + 1];
        }
      }
      ValuesCountOne(rest, v);
      assert Values(agg) == [agg[0].1] + Values(rest);
      if agg[0].1 == v {
        forall k | 0 <= k < |rest| ensures rest[k].1 != v {
          assert rest[k] == agg[k + 1];
        }
        assert v !in Values(rest);
      }
    }
  }

  /** Every unit with a model is counted in exactly one entry. */
  lemma {:induction false} CountsAddUp(units: seq<Equipment>)
    ensures TotalCount(Aggregate(units)) == |Filter(units, HasSomeModel())|
  {
    if |units| > 0 {
      var n := |units| - 1;
      CountsAddUp(units[..n]);
      AggregateLastCount(units);
      FilterLast(units, HasSomeModel());
    }
  }

  lemma AggregateLastCount(units: seq<Equipment>)
    requires |units| > 0
    ensures TotalCount(Aggregate(units)) ==
              TotalCount(Aggregate(units[..|units| - 1])) + (if units[|units| - 1].model != "" then 1 else 0)
  {
    var n := |units| - 1;
    assert Aggregate(units) == AddUnit(Aggregate(units[..n]), units[n]);
    AddUnitCount(Aggregate(units[..n]), units[n]);
  }

  /** Filtering a list is filtering all but its last element, then the last one. */
  lemma FilterLast<T>(s: seq<T>, p: T -> bool)
    requires |s| > 0
    ensures |Filter(s, p)| == |Filter(s[..|s| - 1], p)| + (if p(s[|s| - 1]) then 1 else 0)
  {
    var n := |s| - 1;
    assert s == s[..n] + [s[n]];
    FilterAppend(s[..n], [s[n]], p);
  }

  function HasSomeModel(): Equipment -> bool {
    (u: Equipment) => u.model != ""
  }

  /** One step of the `forEach` adds one to the total exactly when the unit has a model. */
  lemma AddUnitCount(acc: seq<(string, ModelInfo)>, u: Equipment)
    requires Keyed(acc)
    ensures TotalCount(AddUnit(acc, u)) == TotalCount(acc) + (if u.model != "" then 1 else 0)
  {
    if u.model != "" {
      match Get(acc, u.model)
      case Some(info) =>
        var k := KeyIndex(acc, u.model).value;
        var e := (u.model, info.(count := info.count + 1));
        SetExisting(acc, u.model, e.1, k);
        TotalCountUpdate(acc, k, e);
      case None =>
        TotalCountAppend(acc, (u.model, ModelInfo(u.model, MakeOr(u.make), 1)));
    }
  }

  /** Setting a key that is present replaces its entry in place. */
  lemma SetExisting(m: seq<(string, ModelInfo)>, k: string, v: ModelInfo, i: nat)
    requires KeyIndex(m, k) == Some(i)
    ensures Set(m, k, v) == m[i := (k, v)]
  {
  }

  function TotalCount(m: seq<(string, ModelInfo)>): nat {
    if |m| == 0 then 0 else TotalCount(m[..|m| - 1]) + m[|m| - 1].1.count
  }

  lemma {:induction false} TotalCountUpdate(m: seq<(string, ModelInfo)>, k: nat, e: (string, ModelInfo))
    requires k < |m|
    ensures TotalCount(m[k := e]) == TotalCount(m) - m[k].1.count + e.1.count
  {
    var n := |m| - 1;
    if k < n {
      assert m[k := e][..n] == m[..n][k := e];
      TotalCountUpdate(m[..n], k, e);
    } else {
      assert m[k := e][..n] == m[..n];
    }
  }

  lemma TotalCountAppend(m: seq<(string, ModelInfo)>, e: (string, ModelInfo))
    ensures TotalCount(m + [e]) == TotalCount(m) + e.1.count
  {
    assert (m + [e])[..|m|] == m;
  }

  // ---------------------------------------------------------------- the id lookup

  /** `equipmentIdToModel`: each unit with an id and a model maps its id to the model, a
      later unit overriding an earlier one with the same id. */
  function IdToModel(units: seq<Equipment>): (r: seq<(string, string)>)
    ensures DistinctKeys(r)
    ensures forall i :: 0 <= i < |r| ==> r[i].0 != "" && r[i].1 != ""
    decreases |units|
  {
    if |units| == 0 then [] else AddId(IdToModel(units[..|units| - 1]), units[|units| - 1])
  }

  /** One step of the `forEach`. */
  function AddId(acc: seq<(string, string)>, u: Equipment): (r: seq<(string, string)>)
    requires DistinctKeys(acc) && forall i :: 0 <= i < |acc| ==> acc[i].0 != "" && acc[i].1 != ""
    ensures DistinctKeys(r) && forall i :: 0 <= i < |r| ==> r[i].0 != "" && r[i].1 != ""
  {
    if u.id != "" && u.model != "" then Set(acc, u.id, u.model) else acc
  }

  /** An id finds nothing exactly when no unit has it together with a model. */
  lemma {:induction false} IdToModelNone(units: seq<Equipment>, id: string)
    requires id != ""
    ensures Get(IdToModel(units), id).None? <==>
              forall j :: 0 <= j < |units| ==> units[j].id != id || units[j].model == ""
  {
    if |units| > 0 {
      var n := |units| - 1;
      var front := units[..n];
      IdToModelNone(front, id);
      assert forall j :: 0 <= j < n ==> front[j] == units[j];
      assert IdToModel(units) == AddId(IdToModel(front), units[n]);
    }
  }

  /** The lookup of an id is the model of the last unit with that id and a model. */
  lemma {:induction false} IdToModelLast(units: seq<Equipment>, i: nat)
    requires i < |units| && units[i].id != "" && units[i].model != ""
    requires forall j :: i < j < |units| ==> units[j].id != units[i].id || units[j].model == ""
    ensures Get(IdToModel(units), units[i].id) == Some(units[i].model)
  {
    var n := |units| - 1;
    var front := units[..n];
    assert IdToModel(units) == AddId(IdToModel(front), units[n]);
    if i < n {
      assert front[i] == units[i];
      IdToModelLast(front, i);
    }
  }

  /** `getModelByEquipmentId`: the model, or null for an unknown id. */
  function ModelByEquipmentId(data: Option<seq<Equipment>>, id: string): (r: Option<string>)
    ensures data.None? ==> r.None?
    ensures r.Some? ==> r.value != ""
  {
    match data
    case None => None
    case Some(units) =>
      match Get(IdToModel(units), id)
      case Some(m) => if m != "" then Some(m) else None
      case None => None
  }

  /** A looked-up model is the model of a unit with that id, and every unit with an id and a
      model can be looked up. */
  lemma ModelByEquipmentIdSound(units: seq<Equipment>, id: string)
    ensures ModelByEquipmentId(Some(units), id).Some? <==>
              exists j :: 0 <= j < |units| && units[j].id == id && id != "" && units[j].model != ""
    ensures ModelByEquipmentId(Some(units), id).Some? ==>
              exists j :: 0 <= j < |units| && units[j].id == id && units[j].model == ModelByEquipmentId(Some(units), id).value
  {
    var r := IdToModel(units);
    if id == "" {
      if Get(r, id).Some? {
        GetIsEntry(r, id);
      }
    } else {
      IdToModelNone(units, id);
      if Get(r, id).Some? {
        var j := LastWithModel(units, id);
        IdToModelLast(units, j);
      }
    }
  }

  /** The last unit with the id and a model, when there is one. */
  lemma LastWithModel(units: seq<Equipment>, id: string) returns (j: nat)
    requires exists j :: 0 <= j < |units| && units[j].id == id && units[j].model != ""
    ensures j < |units| && units[j].id == id && units[j].model != ""
    ensures forall k :: j < k < |units| ==> units[k].id != id || units[k].model == ""
  {
    j := |units| - 1;
    while units[j].id != id || units[j].model == ""
      invariant 0 <= j < |units|
      invariant forall k :: j < k < |units| ==> units[k].id != id || units[k].model == ""
      invariant exists t :: 0 <= t <= j && units[t].id == id && units[t].model != ""
      decreases j
    {
      j := j - 1;
    }
  }
}
