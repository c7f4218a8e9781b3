/** The two array methods the storage layer is built on, `Array.prototype.find`
    and `Array.prototype.filter`, as functions on sequences, and the `Option`
    type that stands for "a record or `undefined`". */
module JsArrays {

  datatype Option<+T> = None | Some(value: T)

  /** Index of the first element that `matches`, or `|s|` when none does:
      `find` scans from the front and stops at the first hit. */
  function FirstIndex<T>(s: seq<T>, matches: T -> bool): (k: nat)
    ensures k <= |s|
    ensures k < |s| ==> matches(s[k])
    ensures forall j :: 0 <= j < k ==> !matches(s[j])
  {
    if s == [] then 0
    else if matches(s[0]) then 0
    else 1 + FirstIndex(s[1..], matches)
  }

  /** `s.find(matches)`: the first matching element, or nothing. */
  function Find<T>(s: seq<T>, matches: T -> bool): (r: Option<T>)
    ensures r.None? <==> forall j :: 0 <= j < |s| ==> !matches(s[j])
    ensures r.Some? ==> exists k :: 0 <= k < |s| && s[k] == r.value && matches(s[k]) &&
                                    forall j :: 0 <= j < k ==> !matches(s[j])
  {
    var k := FirstIndex(s, matches);
    if k < |s| then Some(s[k]) else None
  }

  /** `s.filter(keep)`: the kept elements, in their original order. */
  function Filter<T(!new)>(s: seq<T>, keep: T -> bool): (r: seq<T>)
    ensures |r| <= |s|
    ensures forall x :: multiset(r)[x] == if keep(x) then multiset(s)[x] else 0
  {
    if s == [] then []
    else
      var rest := Filter(s[1..], keep);
      assert s == [s[0]] + s[1..];
      if keep(s[0]) then [s[0]] + rest else rest
  }

  /** Filtering keeps storage order: it distributes over concatenation. */
  lemma {:induction false} FilterAppend<T(!new)>(a: seq<T>, b: seq<T>, keep: T -> bool)
    ensures Filter(a + b, keep) == Filter(a, keep) + Filter(b, keep)
  {
    if a == [] {
      assert a + b == b;
    } else {
      assert (a + b)[1..] == a[1..] + b;
      FilterAppend(a[1..], b, keep);
    }
  }

  /** Filtering a sequence that starts with `x` keeps `x` exactly when it matches. */
  lemma FilterCons<T(!new)>(x: T, s: seq<T>, keep: T -> bool)
    ensures Filter([x] + s, keep) == if keep(x) then [x] + Filter(s, keep) else Filter(s, keep)
  {
    assert ([x] + s)[1..] == s;
  }

  /** Filtering a single element keeps it exactly when it matches. */
  lemma FilterSingle<T(!new)>(x: T, keep: T -> bool)
    ensures Filter([x], keep) == if keep(x) then [x] else []
  {
    assert [x][1..] == [];
  }

  /** Membership form of `Filter`'s contract. */
  lemma FilterMembers<T(!new)>(s: seq<T>, keep: T -> bool, x: T)
    ensures x in Filter(s, keep) <==> x in s && keep(x)
  {
    assert x in Filter(s, keep) <==> multiset(Filter(s, keep))[x] > 0;
    assert x in s <==> multiset(s)[x] > 0;
  }
}
