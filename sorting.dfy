/** `Array.prototype.sort` with a comparator, as the pages use it: the
    comparator is read as a "may come first" relation that is total and
    transitive, and the sort is modelled as an insertion sort. It is proved
    to give a sorted permutation of its input; that it is stable is not
    proved. */
module Sorting {

  /** `le` is total and transitive, so it orders every sequence. */
  ghost predicate TotalPreorder<T(!new)>(le: (T, T) -> bool) {
    && (forall x, y :: le(x, y) || le(y, x))
    && (forall x, y, z :: le(x, y) && le(y, z) ==> le(x, z))
  }

  /** Every element may come before every later one. */
  ghost predicate SortedBy<T>(le: (T, T) -> bool, s: seq<T>) {
    forall i, j :: 0 <= i < j < |s| ==> le(s[i], s[j])
  }

  /** Inserts `x` into the sorted `s` after every element that may come
      before it. */
  function Insert<T(!new)>(le: (T, T) -> bool, x: T, s: seq<T>): (r: seq<T>)
    requires TotalPreorder(le)
    requires SortedBy(le, s)
    ensures SortedBy(le, r)
    ensures multiset(r) == multiset(s) + multiset{x}
  {
    if s == [] then [x]
    else if !le(s[0], x) then
      assert [x] + s == [x] + ([s[0]] + s[1..]);
      [x] + s
    else
      assert s == [s[0]] + s[1..];
      var rest := Insert(le, x, s[1..]);
      HeadBoundsInsert(le, s[0], x, s[1..], rest);
      [s[0]] + rest
  }

  /** An element that may come before `x` and before every element of `s`
      may come before every element of `s` with `x` inserted. */
  lemma HeadBoundsInsert<T>(le: (T, T) -> bool, h: T, x: T, s: seq<T>, rest: seq<T>)
    requires le(h, x) && forall k :: 0 <= k < |s| ==> le(h, s[k])
    requires multiset(rest) == multiset(s) + multiset{x}
    ensures forall k :: 0 <= k < |rest| ==> le(h, rest[k])
  {
    forall k | 0 <= k < |rest| ensures le(h, rest[k]) {
      assert rest[k] in multiset(rest);
      if rest[k] != x {
        assert rest[k] in s;
      }
    }
  }

  /** The sorted permutation of `s`. */
  function Sort<T(!new)>(le: (T, T) -> bool, s: seq<T>): (r: seq<T>)
    requires TotalPreorder(le)
    ensures SortedBy(le, r)
    ensures multiset(r) == multiset(s)
    ensures |r| == |s|
  {
    if s == [] then []
    else
      var init, last := s[..|s| - 1], s[|s| - 1];
      assert s == init + [last];
      var r := Insert(le, last, Sort(le, init));
      assert multiset(r) == multiset(init) + multiset{last} == multiset(s);
      assert |r| == |multiset(r)| == |multiset(s)| == |s|;
      r
  }
}
