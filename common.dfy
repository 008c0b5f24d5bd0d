/** Small vocabulary shared by every module of the model: optional values,
    identifiers, string tests and the order-preserving filter used by the
    derived transaction views. */
module Common {

  datatype Option<+T> = None | Some(value: T)

  /** Identifiers issued by the banking API are non-empty strings, so the
      JavaScript truthiness test on an id coincides with its presence. */
  type Id = s: string | |s| > 0 witness "0"

  /** `s.indexOf(prefix) === 0` */
  predicate StartsWith(s: string, prefix: string) {
    |prefix| <= |s| && s[..|prefix|] == prefix
  }

  /** `s.indexOf(sub) != -1`: `sub` occurs somewhere in `s`. */
  predicate Contains(s: string, sub: string) {
    exists i | 0 <= i <= |s| - |sub| :: OccursAt(s, sub, i)
  }

  predicate OccursAt(s: string, sub: string, i: int)
    requires 0 <= i <= |s| - |sub|
  {
    s[i..i + |sub|] == sub
  }

  /** A string is truthy in JavaScript iff it is not empty. */
  predicate Truthy(s: Option<string>) {
    s.Some? && s.value != ""
  }

  /** `toLowerCase`, restricted to the ASCII letters. */
  function LowerChar(c: char): (r: char)
    ensures 'A' <= c <= 'Z' ==> r as int == c as int + 32
    ensures !('A' <= c <= 'Z') ==> r == c
  {
    if 'A' <= c <= 'Z' then (c as int + 32) as char else c
  }

  function Lower(s: string): (r: string)
    ensures |r| == |s|
    ensures forall i :: 0 <= i < |s| ==> r[i] == LowerChar(s[i])
  {
    seq(|s|, i requires 0 <= i < |s| => LowerChar(s[i]))
  }

  /** `Math.ceil(v / 100)` on an integer number of cents, computed exactly. */
  function CeilDiv100(v: int): (r: int)
    ensures 100 * (r - 1) < v <= 100 * r
  {
    -((-v) / 100)
  }

  /** `xs` is obtained from `ys` by deleting elements (greedy matching). */
  ghost predicate IsSubsequence<T>(xs: seq<T>, ys: seq<T>)
    decreases |ys|
  {
    if xs == [] then true
    else if ys == [] then false
    else if xs[0] == ys[0] then IsSubsequence(xs[1..], ys[1..])
    else IsSubsequence(xs, ys[1..])
  }

  /** `Array.prototype.filter`. */
  function Filter<T>(s: seq<T>, p: T -> bool): (r: seq<T>)
    ensures |r| <= |s|
    ensures IsSubsequence(r, s)
    ensures forall i :: 0 <= i < |r| ==> r[i] in s && p(r[i])
    ensures forall i :: 0 <= i < |s| && p(s[i]) ==> s[i] in r
  {
    if s == [] then []
    else if p(s[0]) then [s[0]] + Filter(s[1..], p)
    else Filter(s[1..], p)
  }

  /** Filtering distributes over concatenation. */
  lemma {:induction false} FilterAppend<T>(a: seq<T>, b: seq<T>, p: T -> bool)
    ensures Filter(a + b, p) == Filter(a, p) + Filter(b, p)
  {
    if a == [] {
      assert a + b == b;
    } else {
      var ab := a + b;
      assert ab[0] == a[0] && ab[1..] == a[1..] + b;
      FilterAppend(a[1..], b, p);
      if p(a[0]) {
        calc {
          Filter(ab, p);
          [a[0]] + Filter(a[1..] + b, p);
          [a[0]] + (Filter(a[1..], p) + Filter(b, p));
          ([a[0]] + Filter(a[1..], p)) + Filter(b, p);
        }
      }
    }
  }

  /** Two chained filters are one filter by the conjunction `pq`. */
  lemma {:induction false} FilterFilter<T>(s: seq<T>, p: T -> bool, q: T -> bool, pq: T -> bool)
    requires forall i :: 0 <= i < |s| ==> pq(s[i]) == (p(s[i]) && q(s[i]))
    ensures Filter(Filter(s, p), q) == Filter(s, pq)
  {
    if s != [] {
      FilterFilter(s[1..], p, q, pq);
      if p(s[0]) {
        assert Filter(s, p)[1..] == Filter(s[1..], p);
      }
    }
  }

  /** Filters by predicates that agree on every element are equal. */
  lemma {:induction false} FilterExt<T>(s: seq<T>, p: T -> bool, q: T -> bool)
    requires forall i :: 0 <= i < |s| ==> p(s[i]) == q(s[i])
    ensures Filter(s, p) == Filter(s, q)
  {
    if s != [] {
      FilterExt(s[1..], p, q);
    }
  }

  /** Concatenation of a list of lists (`push(...list)` for every list). */
  function Flatten<T>(lists: seq<seq<T>>): (r: seq<T>)
    ensures |r| == 0 <==> forall i :: 0 <= i < |lists| ==> lists[i] == []
  {
    if lists == [] then []
    else Flatten(lists[..|lists| - 1]) + lists[|lists| - 1]
  }

  /** An element of the concatenation comes from one of the lists, and every
      element of every list is in it. */
  lemma {:induction false} FlattenMembers<T>(lists: seq<seq<T>>)
    ensures forall x | x in Flatten(lists) :: exists i | 0 <= i < |lists| :: x in lists[i]
    ensures forall i, x | 0 <= i < |lists| && x in lists[i] :: x in Flatten(lists)
  {
    if lists != [] {
      var prefix := lists[..|lists| - 1];
      FlattenMembers(prefix);
      assert forall i | 0 <= i < |prefix| :: prefix[i] == lists[i];
    }
  }
}
