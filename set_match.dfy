/**
 * Matching the items of a hash set or B-tree set against the positions of an
 * array literal, where each literal position may be used by one item only.
 *
 * The problem is stated on a table: `table[k][j]` says whether item `k`
 * matches the literal at position `j`, and `wild[j]` whether position `j` is
 * a wildcard. `GreedyMatch` is the procedure of variable/mod.rs:838-872:
 * each item in iteration order takes the first remaining position whose
 * literal it matches, else the first remaining wildcard, and the position is
 * removed with `swap_remove`. `PerfectMatch` asks whether SOME one-to-one
 * assignment of items to positions exists, which is what equality of a set
 * with a set literal means.
 */
module SetMatch {
  import opened Wrappers

  /** `Vec::swap_remove(i)`: the last element takes the place of the removed one. */
  function SwapRemove<T>(s: seq<T>, i: nat): (r: seq<T>)
    requires i < |s|
    ensures |r| == |s| - 1
    ensures forall j :: 0 <= j < |r| && j != i ==> r[j] == s[j]
    ensures i < |r| ==> r[i] == s[|s| - 1]
  {
    if i == |s| - 1 then s[..i] else s[..i] + [s[|s| - 1]] + s[i + 1 .. |s| - 1]
  }

  lemma SwapRemoveMultiset<T>(s: seq<T>, i: nat)
    requires i < |s|
    ensures multiset(SwapRemove(s, i)) == multiset(s) - multiset{s[i]}
  {
    var last := |s| - 1;
    if i == last {
      assert s == s[..i] + [s[i]];
    } else {
      assert s == s[..i] + [s[i]] + s[i + 1 .. last] + [s[last]];
    }
  }

  /** `0, 1, …, n - 1`: every position of the literal, in order. */
  function Range(n: nat): (r: seq<nat>)
    ensures |r| == n && forall i :: 0 <= i < n ==> r[i] == i
  {
    seq(n, i => i)
  }

  /** Every entry of `rem` names a position below `n`. */
  predicate Slots(rem: seq<nat>, n: nat) {
    forall p :: 0 <= p < |rem| ==> rem[p] < n
  }

  /** One row per item, one column per literal position, as many items as positions. */
  predicate WellFormed(table: seq<seq<bool>>, wild: seq<bool>) {
    |table| == |wild| && forall k :: 0 <= k < |table| ==> |table[k]| == |wild|
  }

  /** Position `j` can take item `k`: its literal matches the item, or it is a wildcard. */
  predicate Fits(table: seq<seq<bool>>, wild: seq<bool>, k: nat, j: nat)
    requires WellFormed(table, wild) && k < |table| && j < |wild|
  {
    table[k][j] || wild[j]
  }

  /** `position` over the remaining positions: the first `p` whose column is set in `row`. */
  function FirstSet(row: seq<bool>, rem: seq<nat>): (r: Option<nat>)
    requires Slots(rem, |row|)
    ensures r.Some? ==> r.value < |rem| && row[rem[r.value]]
                        && forall q :: 0 <= q < r.value ==> !row[rem[q]]
    ensures r.None? ==> forall q :: 0 <= q < |rem| ==> !row[rem[q]]
  {
    if rem == [] then None
    else if row[rem[0]] then Some(0)
    else match FirstSet(row, rem[1..])
      case None => None
      case Some(p) => Some(p + 1)
  }

  /** The greedy procedure from item `k` on, with positions `rem` still free. */
  function GreedyFrom(table: seq<seq<bool>>, wild: seq<bool>, k: nat, rem: seq<nat>): bool
    requires WellFormed(table, wild) && k <= |table| && Slots(rem, |wild|)
    decreases |table| - k
  {
    if k == |table| then true
    else match FirstSet(table[k], rem)
      case Some(p) => GreedyFrom(table, wild, k + 1, SwapRemove(rem, p))
      case None =>
        match FirstSet(wild, rem)
        case Some(p) => GreedyFrom(table, wild, k + 1, SwapRemove(rem, p))
        case None => false
  }

  /** One greedy step: item `k` takes position `rem[taken]`. */
  lemma GreedyStep(table: seq<seq<bool>>, wild: seq<bool>, k: nat, rem: seq<nat>, taken: nat)
    requires WellFormed(table, wild) && k < |table| && Slots(rem, |wild|)
    requires FirstSet(table[k], rem) == Some(taken)
             || (FirstSet(table[k], rem) == None && FirstSet(wild, rem) == Some(taken))
    ensures taken < |rem| && Slots(SwapRemove(rem, taken), |wild|)
    ensures GreedyFrom(table, wild, k, rem) == GreedyFrom(table, wild, k + 1, SwapRemove(rem, taken))
  {
  }

  /** The greedy procedure fails when item `k` finds neither a literal nor a wildcard. */
  lemma GreedyStuck(table: seq<seq<bool>>, wild: seq<bool>, k: nat, rem: seq<nat>)
    requires WellFormed(table, wild) && k < |table| && Slots(rem, |wild|)
    requires FirstSet(table[k], rem) == None && FirstSet(wild, rem) == None
    ensures !GreedyFrom(table, wild, k, rem)
  {
  }

  predicate GreedyMatch(table: seq<seq<bool>>, wild: seq<bool>)
    requires WellFormed(table, wild)
  {
    GreedyFrom(table, wild, 0, Range(|wild|))
  }

  /** Whether items `k..` can be given distinct positions among `rem`, each one fitting. */
  predicate PerfectFrom(table: seq<seq<bool>>, wild: seq<bool>, k: nat, rem: seq<nat>)
    requires WellFormed(table, wild) && k <= |table| && Slots(rem, |wild|)
    decreases |table| - k, 1
  {
    k == |table| || TryFrom(table, wild, k, rem, 0)
  }

  /** Backtracking: try giving item `k` each remaining position from the `p`-th on. */
  predicate TryFrom(table: seq<seq<bool>>, wild: seq<bool>, k: nat, rem: seq<nat>, p: nat)
    requires WellFormed(table, wild) && k < |table| && Slots(rem, |wild|)
    decreases |table| - k, 0, |rem| - p
  {
    p < |rem|
    && ((Fits(table, wild, k, rem[p]) && PerfectFrom(table, wild, k + 1, SwapRemove(rem, p)))
        || TryFrom(table, wild, k, rem, p + 1))
  }

  predicate PerfectMatch(table: seq<seq<bool>>, wild: seq<bool>)
    requires WellFormed(table, wild)
  {
    PerfectFrom(table, wild, 0, Range(|wild|))
  }

  /** `tau[i]` is the position given to item `k + i`; together they use up exactly `rem`. */
  predicate AssignsFrom(table: seq<seq<bool>>, wild: seq<bool>, k: nat, rem: seq<nat>, tau: seq<nat>)
    requires WellFormed(table, wild) && k <= |table|
  {
    |tau| == |table| - k && multiset(tau) == multiset(rem)
    && forall i :: 0 <= i < |tau| ==> tau[i] < |wild| && Fits(table, wild, k + i, tau[i])
  }

  /** A one-to-one assignment of every item to a position that fits it. */
  predicate IsAssignment(table: seq<seq<bool>>, wild: seq<bool>, sigma: seq<nat>)
    requires WellFormed(table, wild)
  {
    |sigma| == |table| && multiset(sigma) == multiset(Range(|wild|))
    && forall k :: 0 <= k < |sigma| ==> sigma[k] < |wild| && Fits(table, wild, k, sigma[k])
  }

  lemma SwapRemoveSlots(rem: seq<nat>, p: nat, n: nat)
    requires p < |rem| && Slots(rem, n)
    ensures Slots(SwapRemove(rem, p), n)
  {
  }

  /** Putting back the removed position in front restores the multiset of positions. */
  lemma ConsAfterSwapRemove(rem: seq<nat>, p: nat, tau': seq<nat>)
    requires p < |rem| && multiset(tau') == multiset(SwapRemove(rem, p))
    ensures multiset([rem[p]] + tau') == multiset(rem)
  {
    SwapRemoveMultiset(rem, p);
    assert rem[p] in multiset(rem);
  }

  /** A successful search from the `p`-th position found a position `q` for item `k`. */
  lemma {:induction false} TryFromFound(table: seq<seq<bool>>, wild: seq<bool>, k: nat, rem: seq<nat>, p: nat)
    returns (q: nat)
    requires WellFormed(table, wild) && k < |table| && Slots(rem, |wild|)
    requires TryFrom(table, wild, k, rem, p)
    ensures p <= q < |rem| && Fits(table, wild, k, rem[q])
    ensures Slots(SwapRemove(rem, q), |wild|) && PerfectFrom(table, wild, k + 1, SwapRemove(rem, q))
    decreases |rem| - p
  {
    if Fits(table, wild, k, rem[p]) && PerfectFrom(table, wild, k + 1, SwapRemove(rem, p)) {
      q := p;
    } else {
      q := TryFromFound(table, wild, k, rem, p + 1);
    }
  }

  /** The search from the `p`-th position succeeds if some later position `q` works. */
  lemma {:induction false} TryFromFinds(table: seq<seq<bool>>, wild: seq<bool>, k: nat, rem: seq<nat>, p: nat, q: nat)
    requires WellFormed(table, wild) && k < |table| && Slots(rem, |wild|)
    requires p <= q < |rem| && Fits(table, wild, k, rem[q])
    requires Slots(SwapRemove(rem, q), |wild|) && PerfectFrom(table, wild, k + 1, SwapRemove(rem, q))
    ensures TryFrom(table, wild, k, rem, p)
    decreases q - p
  {
    if p < q {
      TryFromFinds(table, wild, k, rem, p + 1, q);
      assert TryFrom(table, wild, k, rem, p + 1);
    } else {
      assert Fits(table, wild, k, rem[p]) && PerfectFrom(table, wild, k + 1, SwapRemove(rem, p));
    }
  }

  /** A position used by `tau` occurs in `rem` when both hold the same positions. */
  lemma IndexOf(rem: seq<nat>, x: nat, tau: seq<nat>) returns (p: nat)
    requires multiset(tau) == multiset(rem) && x in tau
    ensures p < |rem| && rem[p] == x
  {
    assert x in multiset(tau);
    assert x in rem;
    p :| 0 <= p < |rem| && rem[p] == x;
  }

  /** Dropping the first of `tau` and its position from `rem` keeps them equal as multisets. */
  lemma TailAfterSwapRemove(rem: seq<nat>, p: nat, tau: seq<nat>)
    requires p < |rem| && tau != [] && rem[p] == tau[0] && multiset(tau) == multiset(rem)
    ensures multiset(tau[1..]) == multiset(SwapRemove(rem, p))
  {
    SwapRemoveMultiset(rem, p);
    assert tau == [tau[0]] + tau[1..];
  }

  lemma {:induction false} PerfectFromGivesAssignment(table: seq<seq<bool>>, wild: seq<bool>, k: nat, rem: seq<nat>)
    returns (tau: seq<nat>)
    requires WellFormed(table, wild) && k <= |table| && Slots(rem, |wild|) && |rem| == |table| - k
    requires PerfectFrom(table, wild, k, rem)
    ensures AssignsFrom(table, wild, k, rem, tau)
    decreases |table| - k
  {
    if k == |table| {
      tau := [];
    } else {
      var p := TryFromFound(table, wild, k, rem, 0);
      var rest := SwapRemove(rem, p);
      var tau' := PerfectFromGivesAssignment(table, wild, k + 1, rest);
      tau := [rem[p]] + tau';
      ConsAssigns(table, wild, k, rem, p, tau');
    }
  }

  /** Giving item `k` the position `rem[p]` extends an assignment of the later items. */
  lemma ConsAssigns(table: seq<seq<bool>>, wild: seq<bool>, k: nat, rem: seq<nat>, p: nat, tau': seq<nat>)
    requires WellFormed(table, wild) && k < |table| && Slots(rem, |wild|)
    requires p < |rem| && Fits(table, wild, k, rem[p])
    requires AssignsFrom(table, wild, k + 1, SwapRemove(rem, p), tau')
    ensures AssignsFrom(table, wild, k, rem, [rem[p]] + tau')
  {
    var tau := [rem[p]] + tau';
    ConsAfterSwapRemove(rem, p, tau');
    forall i | 0 <= i < |tau|
      ensures tau[i] < |wild| && Fits(table, wild, k + i, tau[i])
    {
      if i > 0 {
        assert tau[i] == tau'[i - 1];
      }
    }
  }

  lemma {:induction false} AssignmentGivesPerfectFrom(table: seq<seq<bool>>, wild: seq<bool>, k: nat, rem: seq<nat>, tau: seq<nat>)
    requires WellFormed(table, wild) && k <= |table| && Slots(rem, |wild|)
    requires AssignsFrom(table, wild, k, rem, tau)
    ensures PerfectFrom(table, wild, k, rem)
    decreases |table| - k
  {
    if k < |table| {
      var p := IndexOf(rem, tau[0], tau);
      var rest := SwapRemove(rem, p);
      SwapRemoveSlots(rem, p, |wild|);
      var tail := tau[1..];
      TailAfterSwapRemove(rem, p, tau);
      forall i | 0 <= i < |tail|
        ensures tail[i] < |wild| && Fits(table, wild, k + 1 + i, tail[i])
      {
        assert tail[i] == tau[i + 1];
      }
      AssignmentGivesPerfectFrom(table, wild, k + 1, rest, tail);
      TryFromFinds(table, wild, k, rem, 0, p);
    }
  }

  /**
   * The corrected matcher succeeds exactly when the items can be assigned
   * distinct literal positions, each matching its item or being a wildcard.
   */
  lemma PerfectMatchIffAssignment(table: seq<seq<bool>>, wild: seq<bool>)
    requires WellFormed(table, wild)
    ensures PerfectMatch(table, wild) <==> exists sigma :: IsAssignment(table, wild, sigma)
  {
    var all := Range(|wild|);
    if PerfectMatch(table, wild) {
      var tau := PerfectFromGivesAssignment(table, wild, 0, all);
      assert IsAssignment(table, wild, tau);
    }
    if sigma :| IsAssignment(table, wild, sigma) {
      assert AssignsFrom(table, wild, 0, all, sigma);
      AssignmentGivesPerfectFrom(table, wild, 0, all, sigma);
    }
  }

  lemma {:induction false} GreedyFromImpliesPerfectFrom(table: seq<seq<bool>>, wild: seq<bool>, k: nat, rem: seq<nat>)
    requires WellFormed(table, wild) && k <= |table| && Slots(rem, |wild|)
    requires GreedyFrom(table, wild, k, rem)
    ensures PerfectFrom(table, wild, k, rem)
    decreases |table| - k
  {
    if k < |table| {
      var p: nat;
      if FirstSet(table[k], rem).Some? {
        p := FirstSet(table[k], rem).value;
        assert table[k][rem[p]];
      } else {
        assert FirstSet(wild, rem).Some?;
        p := FirstSet(wild, rem).value;
        assert wild[rem[p]];
      }
      GreedyStep(table, wild, k, rem, p);
      GreedyFromImpliesPerfectFrom(table, wild, k + 1, SwapRemove(rem, p));
      TryFromFinds(table, wild, k, rem, 0, p);
    }
  }

  /** Whatever the greedy procedure accepts, the corrected matcher accepts too. */
  lemma GreedyImpliesPerfect(table: seq<seq<bool>>, wild: seq<bool>)
    requires WellFormed(table, wild)
    ensures GreedyMatch(table, wild) ==> PerfectMatch(table, wild)
  {
    if GreedyMatch(table, wild) {
      GreedyFromImpliesPerfectFrom(table, wild, 0, Range(|wild|));
    }
  }

  /**
   * The greedy procedure can reject when an assignment exists: item 0 fits
   * both positions and takes position 0, the only one item 1 fits.
   */
  lemma GreedyRejectsMatchableTable()
    ensures WellFormed([[true, true], [true, false]], [false, false])
    ensures !GreedyMatch([[true, true], [true, false]], [false, false])
    ensures PerfectMatch([[true, true], [true, false]], [false, false])
  {
    GreedyRejects([[true, true], [true, false]], [false, false]);
    TwoByTwoMatchable([[true, true], [true, false]], [false, false]);
  }

  lemma GreedyRejects(table: seq<seq<bool>>, wild: seq<bool>)
    requires table == [[true, true], [true, false]] && wild == [false, false]
    ensures WellFormed(table, wild) && !GreedyMatch(table, wild)
  {
    var all := Range(2);
    assert all == [0, 1];
    assert FirstSet(table[0], all) == Some(0);
    assert SwapRemove(all, 0) == [1];
    GreedyStep(table, wild, 0, all, 0);
    assert FirstSet(table[1], [1]) == None;
    assert FirstSet(wild, [1]) == None;
    GreedyStuck(table, wild, 1, [1]);
  }

  lemma TwoByTwoMatchable(table: seq<seq<bool>>, wild: seq<bool>)
    requires table == [[true, true], [true, false]] && wild == [false, false]
    ensures WellFormed(table, wild) && PerfectMatch(table, wild)
  {
    assert IsAssignment(table, wild, [1, 0]) by {
      assert Range(2) == [0, 1];
      assert multiset([1, 0]) == multiset(Range(2));
    }
    PerfectMatchIffAssignment(table, wild);
  }

  /** Positions that are all wildcards take any items, as many as there are positions. */
  lemma AllWildcardsMatch(table: seq<seq<bool>>, wild: seq<bool>)
    requires WellFormed(table, wild)
    requires forall j :: 0 <= j < |wild| ==> wild[j]
    ensures PerfectMatch(table, wild)
  {
    assert IsAssignment(table, wild, Range(|wild|));
    PerfectMatchIffAssignment(table, wild);
  }

  /** `s` with the elements at `i` and `j` exchanged. */
  function Swap<T>(s: seq<T>, i: nat, j: nat): (r: seq<T>)
    requires i < |s| && j < |s|
    ensures |r| == |s| && r[i] == s[j] && r[j] == s[i]
    ensures forall k :: 0 <= k < |s| && k != i && k != j ==> r[k] == s[k]
  {
    s[i := s[j]][j := s[i]]
  }

  lemma SwapMultiset<T>(s: seq<T>, i: nat, j: nat)
    requires i < |s| && j < |s|
    ensures multiset(Swap(s, i, j)) == multiset(s)
  {
  }

  /** Exchanging two items and their positions keeps an assignment valid. */
  lemma SwapAssignment(table: seq<seq<bool>>, wild: seq<bool>, sigma: seq<nat>, i: nat, j: nat)
    requires WellFormed(table, wild) && i < |table| && j < |table|
    requires IsAssignment(table, wild, sigma)
    ensures WellFormed(Swap(table, i, j), wild)
    ensures IsAssignment(Swap(table, i, j), wild, Swap(sigma, i, j))
  {
    SwapMultiset(sigma, i, j);
  }

  /** The corrected matcher does not depend on the order in which the items come. */
  lemma PerfectMatchIgnoresItemOrder(table: seq<seq<bool>>, wild: seq<bool>, i: nat, j: nat)
    requires WellFormed(table, wild) && i < |table| && j < |table|
    ensures WellFormed(Swap(table, i, j), wild)
    ensures PerfectMatch(Swap(table, i, j), wild) == PerfectMatch(table, wild)
  {
    var swapped := Swap(table, i, j);
    PerfectMatchIffAssignment(table, wild);
    PerfectMatchIffAssignment(swapped, wild);
    if sigma :| IsAssignment(table, wild, sigma) {
      SwapAssignment(table, wild, sigma, i, j);
    }
    if sigma :| IsAssignment(swapped, wild, sigma) {
      SwapAssignment(swapped, wild, sigma, i, j);
      assert Swap(swapped, i, j) == table;
    }
  }

  /**
   * The greedy procedure does depend on it: the table of
   * `GreedyRejectsMatchableTable` with its two items exchanged is accepted.
   */
  lemma GreedyDependsOnItemOrder()
    ensures WellFormed([[true, false], [true, true]], [false, false])
    ensures GreedyMatch([[true, false], [true, true]], [false, false])
    ensures Swap([[true, false], [true, true]], 0, 1) == [[true, true], [true, false]]
    ensures !GreedyMatch([[true, true], [true, false]], [false, false])
  {
    var all := Range(2);
    assert all == [0, 1];
    assert FirstSet([true, false], all) == Some(0);
    assert SwapRemove(all, 0) == [1];
    assert FirstSet([true, true], [1]) == Some(0);
    assert SwapRemove([1], 0) == [];
    GreedyRejectsMatchableTable();
  }
}
