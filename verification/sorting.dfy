/** A stable insertion sort over sequences with a caller-supplied comparison, standing in
    for JavaScript's (stable) `Array.prototype.sort`. */
module Sorting {

  /** `le` is a total preorder: any two elements compare, and comparison chains. */
  ghost predicate TotalPreorder<T(!new)>(le: (T, T) -> bool) {
    && (forall a, b :: le(a, b) || le(b, a))
    && (forall a, b, c :: le(a, b) && le(b, c) ==> le(a, c))
  }

  predicate SortedBy<T>(s: seq<T>, le: (T, T) -> bool) {
    forall i, j :: 0 <= i < j < |s| ==> le(s[i], s[j])
  }

  /** Inserts `x` before the first element it is not greater than. */
  function Insert<T(!new)>(x: T, s: seq<T>, le: (T, T) -> bool): (r: seq<T>)
    requires TotalPreorder(le) && SortedBy(s, le)
    ensures SortedBy(r, le)
    ensures multiset(r) == multiset(s) + multiset{x}
    ensures |r| == |s| + 1
  {
    if |s| == 0 then [x]
    else if le(x, s[0]) then [x] + s
    else
      var t := Insert(x, s[1..], le);
      assert s == [s[0]] + s[1..];
      assert forall k :: 0 <= k < |t| ==> le(s[0], t[k]) by {
        forall k | 0 <= k < |t| ensures le(s[0], t[k]) {
          assert t[k] in multiset(t);
          assert t[k] == x || t[k] in multiset(s[1..]);
          if t[k] != x {
            var m :| 0 <= m < |s[1..]| && s[1..][m] == t[k];
            assert s[m + 1] == t[k];
          }
        }
      }
      [s[0]] + t
  }

  /** The elements of `s` rearranged in non-decreasing order; equal elements keep their order. */
  function Sort<T(!new)>(s: seq<T>, le: (T, T) -> bool): (r: seq<T>)
    requires TotalPreorder(le)
    ensures SortedBy(r, le)
    ensures multiset(r) == multiset(s)
    ensures |r| == |s|
  {
    if |s| == 0 then []
    else
      assert s == [s[0]] + s[1..];
      Insert(s[0], Sort(s[1..], le), le)
  }

  /** `le` ranks `a` and `b` alike. */
  predicate Tied<T>(le: (T, T) -> bool, a: T, b: T) {
    le(a, b) && le(b, a)
  }

  /** The elements of `s` ranked alike with `x`, in their order in `s`. */
  function TiedWith<T>(s: seq<T>, x: T, le: (T, T) -> bool): (r: seq<T>)
    ensures |r| <= |s|
    ensures forall k :: 0 <= k < |r| ==> Tied(le, x, r[k])
  {
    if |s| == 0 then []
    else (if Tied(le, x, s[0]) then [s[0]] else []) + TiedWith(s[1..], x, le)
  }

  lemma {:induction false} TiedWithAppend<T>(a: seq<T>, b: seq<T>, x: T, le: (T, T) -> bool)
    ensures TiedWith(a + b, x, le) == TiedWith(a, x, le) + TiedWith(b, x, le)
  {
    if |a| == 0 {
      assert a + b == b;
    } else {
      assert (a + b)[1..] == a[1..] + b;
      TiedWithAppend(a[1..], b, x, le);
    }
  }

  /** The tied elements of a one-element sequence. */
  lemma TiedWithSingle<T>(y: T, x: T, le: (T, T) -> bool)
    ensures TiedWith([y], x, le) == if Tied(le, x, y) then [y] else []
  {
    assert [y][1..] == [];
  }

  /** Inserting `y` puts it after every element ranked alike with it, so among the elements
      tied with any `x` it comes first, just as it does when prepended. */
  lemma {:induction false} InsertStable<T(!new)>(y: T, t: seq<T>, x: T, le: (T, T) -> bool)
    requires TotalPreorder(le) && SortedBy(t, le)
    ensures TiedWith(Insert(y, t, le), x, le) == TiedWith([y] + t, x, le)
  {
    if |t| > 0 && !le(y, t[0]) {
      var h, u := t[0], t[1..];
      SortedTail(t, le);
      InsertStable(y, u, x, le);
      TiedTogether(x, y, h, le);
      PassTied(y, h, u, Insert(y, u, le), x, le);
    }
  }

  lemma SortedTail<T>(t: seq<T>, le: (T, T) -> bool)
    requires |t| > 0 && SortedBy(t, le)
    ensures SortedBy(t[1..], le)
  {
    forall i, j | 0 <= i < j < |t[1..]| ensures le(t[1..][i], t[1..][j]) {
      assert t[1..][i] == t[i + 1] && t[1..][j] == t[j + 1];
    }
  }

  /** Two elements tied with the same `x` are ranked alike, so `y` ranked strictly above `h`
      cannot be tied with whatever `h` is tied with. */
  lemma TiedTogether<T(!new)>(x: T, y: T, h: T, le: (T, T) -> bool)
    requires TotalPreorder(le)
    ensures Tied(le, x, h) && Tied(le, x, y) ==> le(y, h)
  {
    if Tied(le, x, h) && Tied(le, x, y) {
      assert le(y, x) && le(x, h);
    }
  }

  /** Moving `y` past `h` leaves the tied elements alone when the two are not both tied. */
  lemma PassTied<T>(y: T, h: T, u: seq<T>, v: seq<T>, x: T, le: (T, T) -> bool)
    requires !(Tied(le, x, h) && Tied(le, x, y))
    requires TiedWith(v, x, le) == TiedWith([y] + u, x, le)
    ensures TiedWith([h] + v, x, le) == TiedWith([y] + ([h] + u), x, le)
  {
    TiedWithAppend([h], v, x, le);
    TiedWithAppend([y], u, x, le);
    TiedWithAppend([y], [h] + u, x, le);
    TiedWithAppend([h], u, x, le);
    TiedWithSingle(h, x, le);
    TiedWithSingle(y, x, le);
  }

  /** `Sort` is stable: the elements ranked alike with any `x` come out in their input order. */
  lemma {:induction false} SortStable<T(!new)>(s: seq<T>, x: T, le: (T, T) -> bool)
    requires TotalPreorder(le)
    ensures TiedWith(Sort(s, le), x, le) == TiedWith(s, x, le)
  {
    if |s| > 0 {
      SortStable(s[1..], x, le);
      InsertStable(s[0], Sort(s[1..], le), x, le);
      TiedWithAppend([s[0]], Sort(s[1..], le), x, le);
      TiedWithAppend([s[0]], s[1..], x, le);
      assert s == [s[0]] + s[1..];
    }
  }
}
