/** Small generic helpers shared by the component models: an optional value
    (JavaScript's `undefined`/`null` versus a value), `Array.prototype.findIndex`,
    `Array.prototype.filter` with an inequality test, and duplicate-freedom. */
module Common {

  datatype Option<+T> = None | Some(value: T)

  /** `s.findIndex(p)`: the index of the first element satisfying `p`, if any. */
  function FindIndex<T>(s: seq<T>, p: T -> bool): (r: Option<nat>)
    ensures r.Some? ==> r.value < |s| && p(s[r.value])
    ensures r.Some? ==> forall j :: 0 <= j < r.value ==> !p(s[j])
    ensures r.None? <==> forall j :: 0 <= j < |s| ==> !p(s[j])
  {
    if s == [] then None
    else if p(s[0]) then Some(0)
    else match FindIndex(s[1..], p)
      case None => None
      case Some(i) => Some(i + 1)
  }

  /** `s.filter(x => x !== v)`: every occurrence of `v` removed, order kept. */
  function RemoveAll<T(==)>(s: seq<T>, v: T): (r: seq<T>)
    ensures v !in r
    ensures forall x :: x in r ==> x in s
    ensures forall i :: 0 <= i < |s| && s[i] != v ==> s[i] in r
    ensures |r| == |s| - multiset(s)[v]
    ensures multiset(r) == multiset(s)[v := 0]
    ensures v !in s ==> r == s
  {
    if s == [] then []
    else
      assert s == [s[0]] + s[1..];
      if s[0] == v then RemoveAll(s[1..], v)
      else [s[0]] + RemoveAll(s[1..], v)
  }

  /** `filter` works element by element, so it keeps the order of what it
      keeps: removing from a concatenation concatenates what is left of each
      part. */
  lemma {:induction false} RemoveAllDistributes<T>(a: seq<T>, b: seq<T>, v: T)
    ensures RemoveAll(a + b, v) == RemoveAll(a, v) + RemoveAll(b, v)
  {
    if a == [] {
      assert a + b == b;
    } else {
      assert (a + b)[0] == a[0];
      assert (a + b)[1..] == a[1..] + b;
      RemoveAllDistributes(a[1..], b, v);
    }
  }

  predicate NoDuplicates<T(==)>(s: seq<T>) {
    forall i, j :: 0 <= i < j < |s| ==> s[i] != s[j]
  }

  /** A sequence is free of duplicates exactly when its head does not occur
      in its tail and its tail is free of duplicates. */
  lemma NoDuplicatesCons<T>(x: T, t: seq<T>)
    ensures NoDuplicates([x] + t) <==> x !in t && NoDuplicates(t)
  {
    var r := [x] + t;
    if x !in t && NoDuplicates(t) {
      forall i, j | 0 <= i < j < |r| ensures r[i] != r[j] {
        assert r[j] == t[j - 1];
        if i > 0 {
          assert r[i] == t[i - 1];
        }
      }
    }
    if NoDuplicates(r) {
      forall i, j | 0 <= i < j < |t| ensures t[i] != t[j] {
        assert t[i] == r[i + 1] && t[j] == r[j + 1];
      }
      forall k | 0 <= k < |t| ensures t[k] != x {
        assert r[0] == x && t[k] == r[k + 1];
      }
    }
  }

  /** Removing an element keeps a sequence free of duplicates. */
  lemma {:induction false} RemoveAllKeepsNoDuplicates<T>(s: seq<T>, v: T)
    requires NoDuplicates(s)
    ensures NoDuplicates(RemoveAll(s, v))
  {
    if s != [] {
      assert s == [s[0]] + s[1..];
      NoDuplicatesCons(s[0], s[1..]);
      RemoveAllKeepsNoDuplicates(s[1..], v);
      if s[0] != v {
        NoDuplicatesCons(s[0], RemoveAll(s[1..], v));
      }
    }
  }

  /** Appending a value that was absent and then removing it restores the
      sequence. */
  lemma {:induction false} RemoveAllAppended<T>(s: seq<T>, x: T)
    requires x !in s
    ensures RemoveAll(s + [x], x) == s
  {
    RemoveAllDistributes(s, [x], x);
    assert RemoveAll([x], x) == RemoveAll([x][1..], x);
  }
}
