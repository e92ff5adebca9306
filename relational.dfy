/** The three shapes of SQL statement the store uses, over a table held as a
    sequence of rows in rowid order:
    - SELECT ... WHERE keep       is Filter(rows, keep)
    - DELETE ... WHERE !keep      is Filter(rows, keep) too
    - SELECT ... LIMIT 1          (a `fetchone()`) is First(rows, keep)
    - UPDATE ... SET change WHERE hit   is Update(rows, hit, change)
 */
module Relational {

  datatype Option<+T> = None | Some(value: T)

  /** No two rows of `s` share a key. */
  ghost predicate DistinctKeys<T>(s: seq<T>, key: T -> nat)
  {
    forall i, j :: 0 <= i < j < |s| ==> key(s[i]) != key(s[j])
  }

  /** The rows of `s` that satisfy `keep`, in table order. */
  function Filter<T(!new)>(s: seq<T>, keep: T -> bool): (r: seq<T>)
    ensures |r| <= |s|
    ensures forall x :: x in r <==> x in s && keep(x)
  {
    if s == [] then []
    else
      var rest := Filter(s[1..], keep);
      assert s == [s[0]] + s[1..];
      if keep(s[0]) then [s[0]] + rest else rest
  }

  /** The first row of `s` that satisfies `keep`, if any. */
  function First<T(!new)>(s: seq<T>, keep: T -> bool): (r: Option<T>)
    ensures r.None? <==> forall x :: x in s ==> !keep(x)
    ensures r.Some? ==> r.value in s && keep(r.value)
  {
    if s == [] then None
    else if keep(s[0]) then Some(s[0])
    else
      assert s == [s[0]] + s[1..];
      First(s[1..], keep)
  }

  /** Every row of `s` that satisfies `hit` replaced by `change` of it; the
      others are left as they are and in place. */
  function Update<T>(s: seq<T>, hit: T -> bool, change: T -> T): (r: seq<T>)
    ensures |r| == |s|
    ensures forall i :: 0 <= i < |s| ==> r[i] == if hit(s[i]) then change(s[i]) else s[i]
  {
    if s == [] then []
    else
      var rest := Update(s[1..], hit, change);
      assert forall i :: 1 <= i < |s| ==> s[1..][i - 1] == s[i];
      [if hit(s[0]) then change(s[0]) else s[0]] + rest
  }

  /** `First` picks row `i` when it is the earliest row satisfying `keep`. */
  lemma {:induction false} FirstAt<T(!new)>(s: seq<T>, keep: T -> bool, i: nat)
    requires i < |s| && keep(s[i])
    requires forall j :: 0 <= j < i ==> !keep(s[j])
    ensures First(s, keep) == Some(s[i])
  {
    if i > 0 {
      assert !keep(s[0]);
      assert forall j :: 0 <= j < i - 1 ==> s[1..][j] == s[j + 1];
      FirstAt(s[1..], keep, i - 1);
    }
  }

  /** Keeping only some rows keeps their keys distinct. */
  lemma {:induction false} FilterKeepsKeysDistinct<T(!new)>(s: seq<T>, keep: T -> bool, key: T -> nat)
    requires DistinctKeys(s, key)
    ensures DistinctKeys(Filter(s, keep), key)
  {
    if s != [] {
      assert DistinctKeys(s[1..], key) by {
        forall i, j | 0 <= i < j < |s[1..]| ensures key(s[1..][i]) != key(s[1..][j]) {
          assert s[1..][i] == s[i + 1] && s[1..][j] == s[j + 1];
        }
      }
      FilterKeepsKeysDistinct(s[1..], keep, key);
      var rest := Filter(s[1..], keep);
      if keep(s[0]) {
        forall y | y in rest ensures key(s[0]) != key(y) {
          var k :| 0 <= k < |s[1..]| && s[1..][k] == y;
          assert s[k + 1] == y;
        }
        var r := [s[0]] + rest;
        forall i, j | 0 <= i < j < |r| ensures key(r[i]) != key(r[j]) {
          if i == 0 {
            assert r[j] == rest[j - 1] && r[j] in rest;
          } else {
            assert r[i] == rest[i - 1] && r[j] == rest[j - 1];
          }
        }
      }
    }
  }

  /** Filter keeps everything when `keep` accepts every row. */
  lemma {:induction false} FilterAll<T(!new)>(s: seq<T>, keep: T -> bool)
    requires forall i :: 0 <= i < |s| ==> keep(s[i])
    ensures Filter(s, keep) == s
  {
    if s != [] {
      assert keep(s[0]);
      assert s == [s[0]] + s[1..];
      FilterAll(s[1..], keep);
    }
  }

  /** Filter keeps nothing when `keep` rejects every row. */
  lemma {:induction false} FilterNone<T(!new)>(s: seq<T>, keep: T -> bool)
    requires forall x :: x in s ==> !keep(x)
    ensures Filter(s, keep) == []
  {
    if s != [] {
      assert s[0] in s;
      assert forall x :: x in s[1..] ==> x in s;
      FilterNone(s[1..], keep);
    }
  }

  /** Filter only looks at the rows: predicates that agree on them keep the same rows. */
  lemma {:induction false} FilterAgrees<T(!new)>(s: seq<T>, keep: T -> bool, keep': T -> bool)
    requires forall x :: x in s ==> keep(x) == keep'(x)
    ensures Filter(s, keep) == Filter(s, keep')
  {
    if s != [] {
      assert s[0] in s;
      assert forall x :: x in s[1..] ==> x in s;
      FilterAgrees(s[1..], keep, keep');
    }
  }

  /** Filtering a concatenation filters each part. */
  lemma {:induction false} FilterAppend<T(!new)>(a: seq<T>, b: seq<T>, keep: T -> bool)
    ensures Filter(a + b, keep) == Filter(a, keep) + Filter(b, keep)
  {
    if a == [] {
      assert a + b == b;
    } else {
      assert (a + b)[0] == a[0] && (a + b)[1..] == a[1..] + b;
      FilterAppend(a[1..], b, keep);
    }
  }

  /** Filter keeps every copy of a kept row and no copy of a rejected one:
      rows are neither duplicated nor merged. */
  lemma {:induction false} FilterCounts<T(!new)>(s: seq<T>, keep: T -> bool)
    ensures forall x :: multiset(Filter(s, keep))[x] == if keep(x) then multiset(s)[x] else 0
  {
    if s != [] {
      assert s == [s[0]] + s[1..];
      assert multiset(s) == multiset([s[0]]) + multiset(s[1..]);
      FilterCounts(s[1..], keep);
    }
  }

  /** Filter skips a rejected first row. */
  lemma FilterSkipsHead<T(!new)>(x: T, b: seq<T>, keep: T -> bool)
    requires !keep(x)
    ensures Filter([x] + b, keep) == Filter(b, keep)
  {
    assert ([x] + b)[0] == x && ([x] + b)[1..] == b;
  }

  /** A sequence is the rows before `i`, row `i`, and the rows after it. */
  lemma SplitAt<T>(s: seq<T>, i: nat)
    requires i < |s|
    ensures s == s[..i] + ([s[i]] + s[i + 1..])
  {
  }

  /** Filter drops a rejected row standing between two runs of accepted rows. */
  lemma FilterSplit<T(!new)>(a: seq<T>, x: T, b: seq<T>, keep: T -> bool)
    requires forall j :: 0 <= j < |a| ==> keep(a[j])
    requires forall j :: 0 <= j < |b| ==> keep(b[j])
    requires !keep(x)
    ensures Filter(a + ([x] + b), keep) == a + b
  {
    FilterAll(a, keep);
    FilterAll(b, keep);
    FilterSkipsHead(x, b, keep);
    FilterAppend(a, [x] + b, keep);
  }

  /** When row `i` is the only one `keep` rejects, Filter removes exactly that row. */
  lemma FilterRemovesOnly<T(!new)>(s: seq<T>, keep: T -> bool, i: nat)
    requires i < |s| && !keep(s[i])
    requires forall j :: 0 <= j < |s| && j != i ==> keep(s[j])
    ensures Filter(s, keep) == s[..i] + s[i + 1..]
  {
    SplitAt(s, i);
    FilterSplit(s[..i], s[i], s[i + 1..], keep);
  }

}
