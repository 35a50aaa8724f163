/**
 * Selections over a table held as a sequence of rows: the meaning of a SQL
 * `WHERE` clause (keep the rows that satisfy a condition, in table order) and
 * of the "exactly one row matched" test the data-access layer applies to a
 * result's `rowCount`.
 */
module Tables {
  import opened Wrappers

  /** The rows of `s` that satisfy `p`, in their order in `s`. */
  function Filter<T(!new)>(s: seq<T>, p: T -> bool): (r: seq<T>)
    ensures |r| <= |s|
    ensures forall x :: x in r <==> x in s && p(x)
  {
    if s == [] then []
    else if p(s[0]) then [s[0]] + Filter(s[1..], p)
    else Filter(s[1..], p)
  }

  /** `Filter` keeps every row that satisfies `p` as many times as `s` holds it, and no other row. */
  lemma {:induction false} FilterCounts<T(!new)>(s: seq<T>, p: T -> bool)
    ensures forall x :: multiset(Filter(s, p))[x] == if p(x) then multiset(s)[x] else 0
  {
    if s != [] {
      FilterCounts(s[1..], p);
      assert s == [s[0]] + s[1..];
    }
  }

  /** The positions of the rows of `s` that satisfy `p`, in increasing order. */
  function Where<T>(s: seq<T>, p: T -> bool): (r: seq<nat>)
    ensures forall k :: 0 <= k < |r| ==> r[k] < |s| && p(s[r[k]])
    ensures forall i :: 0 <= i < |s| && p(s[i]) ==> i in r
    ensures forall k, l :: 0 <= k < l < |r| ==> r[k] < r[l]
  {
    if s == [] then []
    else
      var w := Where(s[..|s| - 1], p);
      if p(s[|s| - 1]) then w + [|s| - 1] else w
  }

  /** With no matching row, the selection is empty. */
  lemma {:induction false} WhereNoMatch<T>(s: seq<T>, p: T -> bool)
    requires forall j :: 0 <= j < |s| ==> !p(s[j])
    ensures Where(s, p) == []
  {
    if s != [] {
      WhereNoMatch(s[..|s| - 1], p);
    }
  }

  /** With exactly one matching row, the selection is that row's position alone. */
  lemma {:induction false} WhereOnlyMatch<T>(s: seq<T>, p: T -> bool, i: nat)
    requires OnlyMatch(s, p, i)
    ensures Where(s, p) == [i]
  {
    var init := s[..|s| - 1];
    if i == |s| - 1 {
      WhereNoMatch(init, p);
    } else {
      assert OnlyMatch(init, p, i);
      WhereOnlyMatch(init, p, i);
    }
  }

  /** Row `i` is the one and only row of `s` that satisfies `p`. */
  ghost predicate OnlyMatch<T>(s: seq<T>, p: T -> bool, i: int)
  {
    0 <= i < |s| && p(s[i]) && forall j :: 0 <= j < |s| && p(s[j]) ==> j == i
  }

  /**
   * The position of the matching row when the selection returns exactly one
   * row (`rowCount === 1`), and nothing when it returns none or several.
   */
  function SingleRow<T>(s: seq<T>, p: T -> bool): (r: Option<nat>)
    ensures r.Some? <==> exists i :: OnlyMatch(s, p, i)
    ensures r.Some? ==> OnlyMatch(s, p, r.value)
  {
    var w := Where(s, p);
    assert forall i :: OnlyMatch(s, p, i) ==> w == [i] by {
      forall i | OnlyMatch(s, p, i) ensures w == [i] {
        WhereOnlyMatch(s, p, i);
      }
    }
    if |w| == 1 then
      assert forall j :: 0 <= j < |s| && p(s[j]) ==> j == w[0] by {
        forall j | 0 <= j < |s| && p(s[j]) ensures j == w[0] {
          assert j in w;
        }
      }
      assert OnlyMatch(s, p, w[0]);
      Some(w[0])
    else
      None
  }

  /** Some row of `s` satisfies `p` (`rows.length > 0`). */
  function AnyRow<T>(s: seq<T>, p: T -> bool): (b: bool)
    ensures b <==> exists i :: 0 <= i < |s| && p(s[i])
  {
    var w := Where(s, p);
    if |w| > 0 then
      assert p(s[w[0]]);
      true
    else
      assert forall i :: 0 <= i < |s| && p(s[i]) ==> i in w;
      false
  }
}
