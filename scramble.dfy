/**
 * The deal `scramble-teams` makes (src/TerminalCommands.cs): every player
 * who is in a team, in registration order, is moved to one of the teams
 * that have received the fewest players so far, the one among them picked
 * by `Random.Range`. Counts are indexed by the teams' registration order;
 * the random draw for the player at position `k` is `pick(k)`, reduced to
 * the size of the group of smallest teams.
 */
module Scramble {
  import opened Wrappers
  import Selection

  /** The team a player is dealt to: a member of the smallest group, chosen by `choice`. */
  function Smallest(counts: seq<int>, choice: nat): (t: nat)
    requires |counts| > 0
    ensures t < |counts|
  {
    var group := Selection.MinimalIndices(counts);
    group[choice % |group|]
  }

  /** The team dealt to has no more players than any other. */
  lemma SmallestIsMinimal(counts: seq<int>, choice: nat)
    requires |counts| > 0
    ensures forall j :: 0 <= j < |counts| ==> counts[Smallest(counts, choice)] <= counts[j]
  {
    Selection.MinimalIndicesSpec(counts);
    Selection.MinOfSpec(counts);
  }

  /** Every team with the fewest players can be dealt to, for some random draw. */
  lemma SmallestReachesEvery(counts: seq<int>, t: nat) returns (choice: nat)
    requires t < |counts| && forall j :: 0 <= j < |counts| ==> counts[t] <= counts[j]
    ensures Smallest(counts, choice) == t
  {
    choice := Selection.MinimalIndexReachable(counts, t);
    Selection.SmallModulo(choice, |Selection.MinimalIndices(counts)|);
  }

  /** No two counts differ by more than one. */
  predicate Balanced(counts: seq<int>) {
    forall i, j :: 0 <= i < |counts| && 0 <= j < |counts| ==> counts[i] <= counts[j] + 1
  }

  /** `new Dictionary<Team, int>` with every team set to zero. */
  function Zeros(n: nat): (counts: seq<int>)
    ensures |counts| == n && forall j :: 0 <= j < n ==> counts[j] == 0
  {
    if n == 0 then [] else Zeros(n - 1) + [0]
  }

  /**
   * The first `n` steps of the deal from the counts `start`: for each player
   * the team it is dealt to (`None` for a player in no team, who is
   * skipped), and the counts afterwards.
   */
  function Dealt(teamed: seq<bool>, start: seq<int>, pick: nat -> nat, n: nat): (r: (seq<Option<nat>>, seq<int>))
    requires n <= |teamed|
    requires |start| > 0 || forall k :: 0 <= k < |teamed| ==> !teamed[k]
    ensures |r.0| == n && |r.1| == |start|
    ensures forall k :: 0 <= k < n ==> (r.0[k].Some? <==> teamed[k]) && (r.0[k].Some? ==> r.0[k].value < |start|)
    decreases n
  {
    if n == 0 then ([], start)
    else
      var prev := Dealt(teamed, start, pick, n - 1);
      var dealt, counts := prev.0, prev.1;
      if teamed[n - 1] then
        var t := Smallest(counts, pick(n - 1));
        (dealt + [Some(t)], counts[t := counts[t] + 1])
      else (dealt + [None], counts)
  }

  /** One more step of the deal: a teamed player goes to a smallest team, any other player is skipped. */
  lemma DealtStep(teamed: seq<bool>, start: seq<int>, pick: nat -> nat, n: nat, dealt: seq<Option<nat>>, counts: seq<int>)
    requires n < |teamed|
    requires |start| > 0 || forall k :: 0 <= k < |teamed| ==> !teamed[k]
    requires dealt == Dealt(teamed, start, pick, n).0 && counts == Dealt(teamed, start, pick, n).1
    ensures teamed[n] ==> |counts| > 0
    ensures teamed[n] ==> var t := Smallest(counts, pick(n));
      Dealt(teamed, start, pick, n + 1) == (dealt + [Some(t)], counts[t := counts[t] + 1])
    ensures !teamed[n] ==> Dealt(teamed, start, pick, n + 1) == (dealt + [None], counts)
  {
  }

  /** Adding a player to a team with the fewest players keeps the counts balanced. */
  lemma AddToSmallestKeepsBalance(counts: seq<int>, t: nat)
    requires Balanced(counts)
    requires t < |counts| && forall j :: 0 <= j < |counts| ==> counts[t] <= counts[j]
    ensures Balanced(counts[t := counts[t] + 1])
  {
    var after := counts[t := counts[t] + 1];
    forall i, j | 0 <= i < |after| && 0 <= j < |after|
      ensures after[i] <= after[j] + 1
    {
      if i == t && j != t {
        assert counts[t] <= counts[j];
      } else if i != t && j == t {
        assert counts[i] <= counts[t] + 1;
      }
    }
  }

  /** From balanced counts (such as all zeros) the deal ends with team sizes that differ by at most one. */
  lemma {:induction false} DealtBalanced(teamed: seq<bool>, start: seq<int>, pick: nat -> nat, n: nat)
    requires n <= |teamed|
    requires |start| > 0 || forall k :: 0 <= k < |teamed| ==> !teamed[k]
    requires Balanced(start)
    ensures Balanced(Dealt(teamed, start, pick, n).1)
    decreases n
  {
    if n > 0 {
      DealtBalanced(teamed, start, pick, n - 1);
      var (_, counts) := Dealt(teamed, start, pick, n - 1);
      if teamed[n - 1] {
        SmallestIsMinimal(counts, pick(n - 1));
        AddToSmallestKeepsBalance(counts, Smallest(counts, pick(n - 1)));
      }
    }
  }

  /** How many of the dealt players went to team `j`. */
  function Tally(dealt: seq<Option<nat>>, j: nat): (c: nat)
    ensures c <= |dealt|
  {
    if dealt == [] then 0
    else Tally(dealt[..|dealt| - 1], j) + (if dealt[|dealt| - 1] == Some(j) then 1 else 0)
  }

  /** The counts the deal ends with are the starting counts plus the players dealt to each team. */
  lemma {:induction false} DealtTallies(teamed: seq<bool>, start: seq<int>, pick: nat -> nat, n: nat)
    requires n <= |teamed|
    requires |start| > 0 || forall k :: 0 <= k < |teamed| ==> !teamed[k]
    ensures forall j :: 0 <= j < |start| ==> Dealt(teamed, start, pick, n).1[j] == start[j] + Tally(Dealt(teamed, start, pick, n).0, j)
    decreases n
  {
    if n > 0 {
      var prev := Dealt(teamed, start, pick, n - 1);
      var cur := Dealt(teamed, start, pick, n);
      DealtTallies(teamed, start, pick, n - 1);
      DealtStep(teamed, start, pick, n - 1, prev.0, prev.1);
      assert cur.0[..n - 1] == prev.0;
      forall j | 0 <= j < |start|
        ensures cur.1[j] == start[j] + Tally(cur.0, j)
      {
        assert Tally(cur.0, j) == Tally(prev.0, j) + (if cur.0[n - 1] == Some(j) then 1 else 0);
      }
    }
  }

  /** How many of the flags are set. */
  function CountTrue(flags: seq<bool>): (c: nat)
    ensures c <= |flags|
  {
    if flags == [] then 0
    else CountTrue(flags[..|flags| - 1]) + (if flags[|flags| - 1] then 1 else 0)
  }

  /** The sum of the counts. */
  function Sum(counts: seq<int>): int {
    if counts == [] then 0 else Sum(counts[..|counts| - 1]) + counts[|counts| - 1]
  }

  /** Raising one count by one raises the sum by one. */
  lemma {:induction false} SumIncrement(counts: seq<int>, t: nat)
    requires t < |counts|
    ensures Sum(counts[t := counts[t] + 1]) == Sum(counts) + 1
    decreases |counts|
  {
    var after := counts[t := counts[t] + 1];
    var last := |counts| - 1;
    if t < last {
      SumIncrement(counts[..last], t);
      assert after[..last] == counts[..last][t := counts[t] + 1];
    } else {
      assert after[..last] == counts[..last];
    }
  }

  /** Every player in a team is dealt exactly once: the counts grow by the number of teamed players. */
  lemma {:induction false} DealtPlacesEveryTeamed(teamed: seq<bool>, start: seq<int>, pick: nat -> nat, n: nat)
    requires n <= |teamed|
    requires |start| > 0 || forall k :: 0 <= k < |teamed| ==> !teamed[k]
    ensures Sum(Dealt(teamed, start, pick, n).1) == Sum(start) + CountTrue(teamed[..n])
    decreases n
  {
    if n > 0 {
      DealtPlacesEveryTeamed(teamed, start, pick, n - 1);
      assert teamed[..n][..n - 1] == teamed[..n - 1];
      var (_, counts) := Dealt(teamed, start, pick, n - 1);
      if teamed[n - 1] {
        SumIncrement(counts, Smallest(counts, pick(n - 1)));
      }
    }
  }

  /** The whole deal, from empty teams: every two team sizes differ by at most one. */
  lemma DealEndsBalanced(teamed: seq<bool>, teams: nat, pick: nat -> nat)
    requires teams > 0 || forall k :: 0 <= k < |teamed| ==> !teamed[k]
    ensures Balanced(Dealt(teamed, Zeros(teams), pick, |teamed|).1)
  {
    DealtBalanced(teamed, Zeros(teams), pick, |teamed|);
  }
}
