/** Array and list operations the modelled scripts apply to whole collections:
    `filter`, `map` and slicing into fixed-size batches. */
module Lists {

  /** `Array.prototype.filter` and a list comprehension with an `if`: the elements that
      satisfy `p`, in their original order. */
  function Filter<T>(s: seq<T>, p: T -> bool): (r: seq<T>)
    ensures |r| <= |s|
    ensures forall x :: x in r ==> x in s && p(x)
    ensures forall x :: x in s && p(x) ==> x in r
  {
    if |s| == 0 then []
    else if p(s[0]) then [s[0]] + Filter(s[1..], p)
    else Filter(s[1..], p)
  }

  /** Filtering distributes over concatenation, so order is kept. */
  lemma {:induction false} FilterAppend<T>(a: seq<T>, b: seq<T>, p: T -> bool)
    ensures Filter(a + b, p) == Filter(a, p) + Filter(b, p)
  {
    if |a| > 0 {
      assert (a + b)[0] == a[0];
      assert (a + b)[1..] == a[1..] + b;
      FilterAppend(a[1..], b, p);
    } else {
      assert a + b == b;
    }
  }

  /** `Array.prototype.map`. */
  function Map<T, U>(s: seq<T>, f: T -> U): (r: seq<U>)
    ensures |r| == |s|
    ensures forall i :: 0 <= i < |s| ==> r[i] == f(s[i])
  {
    if |s| == 0 then [] else [f(s[0])] + Map(s[1..], f)
  }

  lemma MapAppend<T, U>(a: seq<T>, b: seq<T>, f: T -> U)
    ensures Map(a + b, f) == Map(a, f) + Map(b, f)
  {
  }

  /** Filter, map, filter again: `y` comes out exactly when it is the image of an element
      that passes the first filter, and passes the second itself. */
  lemma FilterMapFilterMembers<T, U>(s: seq<T>, p: T -> bool, f: T -> U, q: U -> bool, y: U)
    ensures y in Filter(Map(Filter(s, p), f), q) <==> q(y) && exists x :: x in s && p(x) && f(x) == y
  {
    var kept := Filter(s, p);
    var built := Map(kept, f);
    if q(y) && exists x :: x in s && p(x) && f(x) == y {
      var x :| x in s && p(x) && f(x) == y;
      var i :| 0 <= i < |kept| && kept[i] == x;
      assert built[i] == y;
    }
    if y in Filter(built, q) {
      var i :| 0 <= i < |built| && built[i] == y;
      assert kept[i] in kept;
    }
  }

  /** `Array.prototype.every`. */
  predicate All<T>(s: seq<T>, p: T -> bool) {
    forall i :: 0 <= i < |s| ==> p(s[i])
  }

  /** Concatenation of a list of lists. */
  function Flatten<T>(ss: seq<seq<T>>): (r: seq<T>)
    ensures |ss| > 0 ==> r == ss[0] + Flatten(ss[1..])
  {
    if |ss| == 0 then [] else ss[0] + Flatten(ss[1..])
  }

  /** The consecutive slices `s.slice(i, i + size)` for `i = 0, size, 2 * size, …`. */
  function Chunks<T>(s: seq<T>, size: nat): (r: seq<seq<T>>)
    requires size > 0
    ensures forall k :: 0 <= k < |r| ==> 0 < |r[k]| <= size
    ensures forall k :: 0 <= k < |r| - 1 ==> |r[k]| == size
    decreases |s|
  {
    if |s| == 0 then []
    else if |s| <= size then [s]
    else [s[..size]] + Chunks(s[size..], size)
  }

  /** The batches, put back together, are the original list: every element is in exactly
      one batch, in order. */
  lemma {:induction false} ChunksFlatten<T>(s: seq<T>, size: nat)
    requires size > 0
    ensures Flatten(Chunks(s, size)) == s
    decreases |s|
  {
    if |s| > size {
      ChunksFlatten(s[size..], size);
      assert s == s[..size] + s[size..];
    }
  }

  /** Batch `k` is the slice that starts at `k * size`: the loop's `slice(i, i + size)` with
      `i = k * size`. */
  lemma {:induction false} ChunkAt<T>(s: seq<T>, size: nat, k: nat)
    requires size > 0 && k < |Chunks(s, size)|
    ensures k * size < |s|
    ensures Chunks(s, size)[k] == s[k * size .. Min(|s|, k * size + size)]
    decreases |s|
  {
    if k > 0 {
      assert |s| > size;
      var t := s[size..];
      ChunkAt(t, size, k - 1);
      var a := (k - 1) * size;
      assert a == k * size - size;
      DropSlice(s, size, a, Min(|t|, a + size));
    }
  }

  /** A slice of a suffix is a slice of the whole. */
  lemma DropSlice<T>(s: seq<T>, d: nat, a: nat, b: nat)
    requires d <= |s| && a <= b <= |s| - d
    ensures s[d..][a..b] == s[d + a..d + b]
  {
  }

  function Min(a: int, b: int): int {
    if a <= b then a else b
  }

  /** The key set of a list: `key(x)` for every element. */
  function KeySet<T, K>(s: seq<T>, key: T -> K): (r: set<K>)
    ensures forall x :: x in s ==> key(x) in r
    ensures forall k :: k in r ==> exists x :: x in s && key(x) == k
  {
    if |s| == 0 then {} else {key(s[0])} + KeySet(s[1..], key)
  }

  /** The loop that keeps an element when its key has not been seen and then marks the key
      as seen: the first element for every key not in `seen`, in order. */
  function DedupBy<T, K>(s: seq<T>, key: T -> K, seen: set<K>): (r: seq<T>)
    ensures |r| <= |s|
    ensures forall x :: x in r ==> x in s && key(x) !in seen
  {
    if |s| == 0 then []
    else if key(s[0]) in seen then DedupBy(s[1..], key, seen)
    else [s[0]] + DedupBy(s[1..], key, seen + {key(s[0])})
  }

  /** No two kept elements share a key. */
  lemma {:induction false} DedupByDistinct<T, K>(s: seq<T>, key: T -> K, seen: set<K>)
    ensures forall i, j :: 0 <= i < j < |DedupBy(s, key, seen)| ==>
              key(DedupBy(s, key, seen)[i]) != key(DedupBy(s, key, seen)[j])
  {
    if |s| > 0 {
      if key(s[0]) in seen {
        DedupByDistinct(s[1..], key, seen);
      } else {
        var rest := DedupBy(s[1..], key, seen + {key(s[0])});
        DedupByDistinct(s[1..], key, seen + {key(s[0])});
        var r := [s[0]] + rest;
        forall i, j | 0 <= i < j < |r| ensures key(r[i]) != key(r[j]) {
          assert r[j] == rest[j - 1] && rest[j - 1] in rest;
          assert key(rest[j - 1]) !in seen + {key(s[0])};
          if i > 0 {
            assert r[i] == rest[i - 1];
          }
        }
      }
    }
  }

  /** Keeping first occurrences distributes over concatenation: `b` is filtered against the
      keys already seen in `a`. */
  lemma {:induction false} DedupByAppend<T, K>(a: seq<T>, b: seq<T>, key: T -> K, seen: set<K>)
    ensures DedupBy(a + b, key, seen) == DedupBy(a, key, seen) + DedupBy(b, key, seen + KeySet(a, key))
  {
    if |a| == 0 {
      assert a + b == b;
      assert seen + KeySet(a, key) == seen;
    } else {
      assert (a + b)[0] == a[0];
      assert (a + b)[1..] == a[1..] + b;
      var seen' := if key(a[0]) in seen then seen else seen + {key(a[0])};
      DedupByAppend(a[1..], b, key, seen');
      assert seen' + KeySet(a[1..], key) == seen + KeySet(a, key);
    }
  }

  /** The element kept for a key is its first occurrence: an element whose key is neither
      seen nor carried by an earlier element is kept. */
  lemma {:induction false} DedupByKeepsFirst<T, K>(s: seq<T>, key: T -> K, seen: set<K>, i: nat)
    requires i < |s| && key(s[i]) !in seen
    requires forall j :: 0 <= j < i ==> key(s[j]) != key(s[i])
    ensures s[i] in DedupBy(s, key, seen)
  {
    if i == 0 {
    } else if key(s[0]) in seen {
      DedupByKeepsFirst(s[1..], key, seen, i - 1);
    } else {
      DedupByKeepsFirst(s[1..], key, seen + {key(s[0])}, i - 1);
    }
  }

  /** Every key not already seen is represented among the kept elements. */
  lemma {:induction false} DedupByCovers<T, K>(s: seq<T>, key: T -> K, seen: set<K>)
    ensures forall x :: x in s && key(x) !in seen ==>
              exists y :: y in DedupBy(s, key, seen) && key(y) == key(x)
  {
    if |s| > 0 {
      var seen' := if key(s[0]) in seen then seen else seen + {key(s[0])};
      DedupByCovers(s[1..], key, seen');
      forall x | x in s && key(x) !in seen
        ensures exists y :: y in DedupBy(s, key, seen) && key(y) == key(x)
      {
        if key(x) == key(s[0]) {
          assert s[0] in DedupBy(s, key, seen);
        } else {
          assert x in s[1..];
        }
      }
    }
  }
}
