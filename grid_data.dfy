// The data shared by the sheet and the grid widget: a grid is a sequence of
// rows, a row a sequence of text cells. Also the two array operations the
// structural edits are built on: a copying `splice` and `filter`.
module GridData {

  datatype Option<T> = None | Some(value: T)

  type Row = seq<string>
  type Grid = seq<Row>

  function Min(a: int, b: int): int {
    if a <= b then a else b
  }

  /** `g` has exactly `rows` rows of exactly `cols` cells each. */
  ghost predicate Rectangular(g: Grid, rows: int, cols: int) {
    |g| == rows && forall i :: 0 <= i < |g| ==> |g[i]| == cols
  }

  /** A row of `n` empty cells. */
  function EmptyRow(n: nat): (r: Row)
    ensures |r| == n
    ensures forall j :: 0 <= j < n ==> r[j] == ""
  {
    seq(n, _ => "")
  }

  /** `Array.prototype.splice` on a copy, for a non-negative start: the start
      is clamped to the length, and so is the number of entries removed. */
  function Splice<T>(s: seq<T>, start: nat, deleteCount: nat, items: seq<T>): seq<T> {
    var at := Min(start, |s|);
    var removed := Min(deleteCount, |s| - at);
    s[..at] + items + s[at + removed..]
  }

  /** `splice(idx, 0, x)`: `x` lands at `idx`, or at the end when `idx` is
      past it; what was there and after moves up by one. */
  function InsertAt<T>(s: seq<T>, idx: nat, x: T): (r: seq<T>)
    ensures |r| == |s| + 1
    ensures forall k :: 0 <= k < Min(idx, |s|) ==> r[k] == s[k]
    ensures r[Min(idx, |s|)] == x
    ensures forall k :: Min(idx, |s|) <= k < |s| ==> r[k + 1] == s[k]
  {
    Splice(s, idx, 0, [x])
  }

  /** `splice(idx, 1)`: removes the entry at `idx`; past the end, removes nothing. */
  function RemoveAt<T>(s: seq<T>, idx: nat): (r: seq<T>)
    ensures idx < |s| ==> |r| == |s| - 1
    ensures idx < |s| ==> forall k :: 0 <= k < idx ==> r[k] == s[k]
    ensures idx < |s| ==> forall k :: idx <= k < |r| ==> r[k] == s[k + 1]
    ensures idx >= |s| ==> r == s
  {
    Splice(s, idx, 1, [])
  }

  /** Removing what was just inserted at the same place gives the original back. */
  lemma RemoveInserted<T>(s: seq<T>, idx: nat, x: T)
    requires idx <= |s|
    ensures RemoveAt(InsertAt(s, idx, x), idx) == s
  {
    var r := RemoveAt(InsertAt(s, idx, x), idx);
    assert forall k :: 0 <= k < |s| ==> r[k] == s[k];
  }

  /** `Array.prototype.filter`: the entries satisfying `keep`, in order. */
  function Filter<T>(s: seq<T>, keep: T -> bool): (r: seq<T>)
    decreases |s|
  {
    if s == [] then []
    else (if keep(s[0]) then [s[0]] else []) + Filter(s[1..], keep)
  }

  /** `sub` can be obtained from `s` by deleting entries, without reordering. */
  ghost predicate IsSubsequence<T>(sub: seq<T>, s: seq<T>)
    decreases |s|
  {
    if sub == [] then true
    else if s == [] then false
    else (sub[0] == s[0] && IsSubsequence(sub[1..], s[1..])) || IsSubsequence(sub, s[1..])
  }

  lemma {:induction false} FilterIsSubsequence<T>(s: seq<T>, keep: T -> bool)
    ensures IsSubsequence(Filter(s, keep), s)
    decreases |s|
  {
    if s != [] {
      FilterIsSubsequence(s[1..], keep);
      var r := Filter(s, keep);
      if keep(s[0]) {
        assert r == [s[0]] + Filter(s[1..], keep);
        assert r[0] == s[0] && r[1..] == Filter(s[1..], keep);
      } else {
        assert r == Filter(s[1..], keep);
      }
    }
  }

  /** An entry is in the filtered sequence exactly when it is in the input
      and satisfies the predicate. */
  lemma {:induction false} FilterMembers<T>(s: seq<T>, keep: T -> bool, x: T)
    ensures x in Filter(s, keep) <==> x in s && keep(x)
    decreases |s|
  {
    if s != [] {
      FilterMembers(s[1..], keep, x);
      assert s == [s[0]] + s[1..];
    }
  }

  /** The filter keeps every copy of an entry it keeps: each entry occurs in
      the result as often as in the input when it satisfies the predicate,
      and not at all otherwise. */
  lemma {:induction false} FilterMultiplicity<T>(s: seq<T>, keep: T -> bool, x: T)
    ensures multiset(Filter(s, keep))[x] == if keep(x) then multiset(s)[x] else 0
    decreases |s|
  {
    if s != [] {
      FilterMultiplicity(s[1..], keep, x);
      assert s == [s[0]] + s[1..];
      var head := if keep(s[0]) then [s[0]] else [];
      assert Filter(s, keep) == head + Filter(s[1..], keep);
      assert multiset(Filter(s, keep)) == multiset(head) + multiset(Filter(s[1..], keep));
    }
  }

  /** A filter keeping everything is the identity. */
  lemma {:induction false} FilterAll<T>(s: seq<T>, keep: T -> bool)
    requires forall x :: x in s ==> keep(x)
    ensures Filter(s, keep) == s
    decreases |s|
  {
    if s != [] {
      FilterAll(s[1..], keep);
      assert s == [s[0]] + s[1..];
    }
  }

  lemma {:induction false} FilterConcat<T>(a: seq<T>, b: seq<T>, keep: T -> bool)
    ensures Filter(a + b, keep) == Filter(a, keep) + Filter(b, keep)
    decreases |a|
  {
    if a != [] {
      FilterConcat(a[1..], b, keep);
      assert (a + b)[0] == a[0];
      assert (a + b)[1..] == a[1..] + b;
    } else {
      assert a + b == b;
    }
  }

  lemma {:induction false} FilterLength<T>(s: seq<T>, keep: T -> bool)
    ensures |Filter(s, keep)| <= |s|
    decreases |s|
  {
    if s != [] {
      FilterLength(s[1..], keep);
    }
  }
}
