/**
 What a monotone cursor lets through (src/subscriptions.rs:255-318): a version is delivered exactly when it
 exceeds the cursor, and the cursor then moves to it.
 */
module Cursors {

  function Max(a: int, b: int): int
  {
    if a < b then b else a
  }

  /** The cursor after the versions `vs` were offered to a subscriber that started at `seed`. */
  function Top(seed: int, vs: seq<nat>): int
  {
    if vs == [] then seed else Max(Top(seed, vs[..|vs| - 1]), vs[|vs| - 1])
  }

  /** The versions that got past the cursor. */
  function Accept(seed: int, vs: seq<nat>): seq<nat>
  {
    if vs == [] then []
    else
      var earlier := vs[..|vs| - 1];
      if vs[|vs| - 1] > Top(seed, earlier) then Accept(seed, earlier) + [vs[|vs| - 1]] else Accept(seed, earlier)
  }

  /** No offered version is more than one ahead of everything before it. */
  predicate NoJump(seed: int, vs: seq<nat>)
  {
    vs == [] || (NoJump(seed, vs[..|vs| - 1]) && vs[|vs| - 1] <= 1 + Top(seed, vs[..|vs| - 1]))
  }

  predicate IncreasingAbove(seed: int, ws: seq<nat>)
  {
    && (forall i | 0 <= i < |ws| :: seed < ws[i])
    && (forall i, j | 0 <= i < j < |ws| :: ws[i] < ws[j])
  }

  /** The contiguous run `seed + 1, seed + 2, ...`. */
  predicate Contiguous(seed: int, ws: seq<nat>)
  {
    forall i | 0 <= i < |ws| :: ws[i] == seed + 1 + i
  }

  lemma {:induction false} OneMore(seed: int, vs: seq<nat>, v: nat)
    ensures Top(seed, vs + [v]) == Max(Top(seed, vs), v)
    ensures Accept(seed, vs + [v]) == if v > Top(seed, vs) then Accept(seed, vs) + [v] else Accept(seed, vs)
    ensures NoJump(seed, vs + [v]) == (NoJump(seed, vs) && v <= 1 + Top(seed, vs))
  {
    assert (vs + [v])[..|vs|] == vs;
  }

  /**
   Whatever is offered, the delivered versions increase strictly above the seed, and the cursor is the last of them.
   */
  lemma {:induction false} AcceptedIncrease(seed: int, vs: seq<nat>)
    ensures IncreasingAbove(seed, Accept(seed, vs))
    ensures Top(seed, vs) == if Accept(seed, vs) == [] then seed else Accept(seed, vs)[|Accept(seed, vs)| - 1]
    ensures forall v | v in Accept(seed, vs) :: v in vs
  {
    if vs != [] {
      AcceptedIncrease(seed, vs[..|vs| - 1]);
    }
  }

  /** Delivery is the contiguous run above the seed exactly when no offered version jumps ahead. */
  lemma {:induction false} ContiguousExactlyWithoutJumps(seed: int, vs: seq<nat>)
    ensures Contiguous(seed, Accept(seed, vs)) <==> NoJump(seed, vs)
  {
    if vs != [] {
      var earlier, v := vs[..|vs| - 1], vs[|vs| - 1];
      ContiguousExactlyWithoutJumps(seed, earlier);
      AcceptedIncrease(seed, earlier);
      var before := Accept(seed, earlier);
      if v > Top(seed, earlier) {
        var after := before + [v];
        if Contiguous(seed, after) {
          forall i | 0 <= i < |before| ensures before[i] == seed + 1 + i { assert after[i] == before[i]; }
          assert after[|before|] == v;
        }
      }
    }
  }

  lemma {:induction false} TopIsAbove(seed: int, vs: seq<nat>)
    ensures seed <= Top(seed, vs)
    ensures forall v | v in vs :: v <= Top(seed, vs)
    ensures Top(seed, vs) == seed || Top(seed, vs) in vs
  {
    if vs != [] {
      var earlier := vs[..|vs| - 1];
      assert vs == earlier + [vs[|vs| - 1]];
      TopIsAbove(seed, earlier);
    }
  }

  /** Nothing jumps ahead among versions that a subscriber has already passed. */
  lemma {:induction false} OldVersionsDoNotJump(seed: int, vs: seq<nat>)
    requires forall v | v in vs :: v <= 1 + seed
    ensures NoJump(seed, vs)
  {
    if vs != [] {
      var earlier := vs[..|vs| - 1];
      assert vs[|vs| - 1] in vs;
      forall v | v in earlier ensures v <= 1 + seed { assert v in vs; }
      OldVersionsDoNotJump(seed, earlier);
      TopIsAbove(seed, earlier);
    }
  }

  lemma {:induction false} PrefixDoesNotJump(seed: int, vs: seq<nat>, more: seq<nat>)
    requires NoJump(seed, vs + more)
    ensures NoJump(seed, vs)
  {
    if more == [] {
      assert vs + more == vs;
    } else {
      assert (vs + more)[..|vs + more| - 1] == vs + more[..|more| - 1];
      PrefixDoesNotJump(seed, vs, more[..|more| - 1]);
    }
  }
}
