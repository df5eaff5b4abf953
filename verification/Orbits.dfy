/**
 Loops that follow one link after another: `next` gives the link from each point, if any.  With finitely many
 points that have a link, such a loop ends within one step more than there are of them, or never.
 */
module Orbits {
  import opened Types

  /** Where the loop stands after `n` steps, or that it has ended. */
  function After<T>(next: T -> Option<T>, x: T, n: nat): Option<T>
    decreases n
  {
    if n == 0 then Some(x)
    else match next(x)
      case None => None
      case Some(y) => After(next, y, n - 1)
  }

  ghost predicate LinksWithin<T(!new)>(next: T -> Option<T>, points: set<T>)
  {
    forall x :: next(x).Some? ==> x in points
  }

  lemma {:induction false} AfterSplits<T>(next: T -> Option<T>, x: T, i: nat, j: nat)
    ensures After(next, x, i + j) == match After(next, x, i) case None => None case Some(y) => After(next, y, j)
    decreases i
  {
    if i > 0 && next(x).Some? {
      AfterSplits(next, next(x).value, i - 1, j);
    }
  }

  lemma {:induction false} EndedStaysEnded<T>(next: T -> Option<T>, x: T, i: nat, j: nat)
    requires After(next, x, i).None? && i <= j
    ensures After(next, x, j).None?
  {
    AfterSplits(next, x, i, j - i);
  }

  /** A loop that comes back to a point goes on for ever. */
  lemma {:induction false} RevisitNeverEnds<T>(next: T -> Option<T>, x: T, i: nat, j: nat, n: nat)
    requires i < j && After(next, x, i).Some? && After(next, x, i) == After(next, x, j)
    ensures After(next, x, n).Some?
    decreases n
  {
    if n <= j {
      AfterSplits(next, x, n, j - n);
    } else {
      RevisitNeverEnds(next, x, i, j, n - (j - i));
      AfterSplits(next, x, i, n - j);
      AfterSplits(next, x, j, n - j);
    }
  }

  /** More entries than values: two entries are equal. */
  lemma {:induction false} Repeats<T>(xs: seq<T>, values: set<T>) returns (i: nat, j: nat)
    requires |xs| > |values| && forall k | 0 <= k < |xs| :: xs[k] in values
    ensures i < j < |xs| && xs[i] == xs[j]
    decreases |xs|
  {
    var front, last := xs[..|xs| - 1], xs[|xs| - 1];
    if k :| 0 <= k < |front| && front[k] == last {
      i, j := k, |xs| - 1;
    } else {
      assert last in values;
      forall k | 0 <= k < |front| ensures front[k] in values - {last} { assert front[k] == xs[k]; }
      i, j := Repeats(front, values - {last});
    }
  }

  lemma {:induction false} LongRunRevisits<T(!new)>(next: T -> Option<T>, points: set<T>, x: T) returns (i: nat, j: nat)
    requires LinksWithin(next, points) && After(next, x, |points| + 1).Some?
    ensures i < j && After(next, x, i).Some? && After(next, x, i) == After(next, x, j)
  {
    forall k: nat | k <= |points| ensures After(next, x, k).Some? && After(next, x, k).value in points {
      AfterSplits(next, x, k, |points| + 1 - k);
      assert After(next, After(next, x, k).value, |points| + 1 - k).Some?;
    }
    var xs := seq(|points| + 1, k requires 0 <= k <= |points| => After(next, x, k).value);
    i, j := Repeats(xs, points);
    assert xs[i] == After(next, x, i).value && xs[j] == After(next, x, j).value;
  }

  /** The loop ends exactly when it ends within one step more than there are points with a link. */
  lemma {:induction false} EndsSoonOrNever<T(!new)>(next: T -> Option<T>, points: set<T>, x: T, bound: nat)
    requires LinksWithin(next, points) && |points| < bound
    ensures (exists n: nat :: After(next, x, n).None?) <==> After(next, x, bound).None?
    ensures After(next, x, bound).Some? <==>
      exists i: nat, j: nat :: i < j && After(next, x, i).Some? && After(next, x, i) == After(next, x, j)
  {
    if After(next, x, bound).Some? {
      if After(next, x, |points| + 1).None? {
        EndedStaysEnded(next, x, |points| + 1, bound);
      }
      var i, j := LongRunRevisits(next, points, x);
      forall n: nat ensures After(next, x, n).Some? { RevisitNeverEnds(next, x, i, j, n); }
    }
    if i: nat, j: nat :| i < j && After(next, x, i).Some? && After(next, x, i) == After(next, x, j) {
      RevisitNeverEnds(next, x, i, j, bound);
    }
  }
}
