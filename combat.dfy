/**
 * The damage-predicate chain (src/Game/Combat.cs): an ordered, mutable list
 * of predicates consulted in order; the first one that denies decides.
 *
 * A predicate is any value of type `P`; `eval` gives its verdict for the
 * attacker/victim pair of the current call (the C# delegate applied to them).
 */
module Combat {
  import opened Wrappers
  import Lists

  /** The verdict of one predicate: `Result` and an optional `Reason`. */
  datatype DamagePredicateResult = DamagePredicateResult(result: bool, reason: Option<string>)
  {
    /** The implicit conversion to `bool`. */
    predicate AsBool() {
      result
    }
  }

  /** `DamagePredicateResult.Allow()`. */
  function Allow(): (r: DamagePredicateResult)
    ensures r.AsBool() && r.result && r.reason == None
  {
    DamagePredicateResult(true, None)
  }

  /** `DamagePredicateResult.Deny(reason)`. */
  function Deny(reason: string): (r: DamagePredicateResult)
    ensures !r.AsBool() && !r.result && r.reason == Some(reason)
  {
    DamagePredicateResult(false, Some(reason))
  }

  /** The verdict of a chain: the first denial in list order, or `Allow()` when none denies. */
  function Verdict<P>(predicates: seq<P>, eval: P -> DamagePredicateResult): DamagePredicateResult {
    if predicates == [] then Allow()
    else if !eval(predicates[0]).AsBool() then eval(predicates[0])
    else Verdict(predicates[1..], eval)
  }

  /** The chain allows iff no predicate denies, and then the verdict is exactly `Allow()`. */
  lemma {:induction false} AllowsIffNoneDenies<P>(predicates: seq<P>, eval: P -> DamagePredicateResult)
    ensures Verdict(predicates, eval).AsBool() <==> forall i :: 0 <= i < |predicates| ==> eval(predicates[i]).AsBool()
    ensures Verdict(predicates, eval).AsBool() ==> Verdict(predicates, eval) == Allow()
  {
    if predicates != [] {
      AllowsIffNoneDenies(predicates[1..], eval);
      if eval(predicates[0]).AsBool() {
        forall i | 1 <= i < |predicates| ensures predicates[i] == predicates[1..][i - 1] { }
      }
    }
  }

  /** If the predicate at `k` denies and all before it allow, the verdict is that predicate's result. */
  lemma {:induction false} FirstDenialDecides<P>(predicates: seq<P>, eval: P -> DamagePredicateResult, k: nat)
    requires k < |predicates| && !eval(predicates[k]).AsBool()
    requires forall i :: 0 <= i < k ==> eval(predicates[i]).AsBool()
    ensures Verdict(predicates, eval) == eval(predicates[k])
  {
    if k > 0 {
      FirstDenialDecides(predicates[1..], eval, k - 1);
    }
  }

  /** Nothing after a denial is consulted: a chain that denies decides for any extension of it. */
  lemma {:induction false} LaterPredicatesIgnored<P>(front: seq<P>, back: seq<P>, eval: P -> DamagePredicateResult)
    ensures Verdict(front + back, eval) == if Verdict(front, eval).AsBool() then Verdict(back, eval) else Verdict(front, eval)
  {
    if front == [] {
      assert front + back == back;
    } else {
      assert (front + back)[1..] == front[1..] + back;
      LaterPredicatesIgnored(front[1..], back, eval);
    }
  }

  /** The verdict depends on position: two denying predicates, in either order. */
  lemma OrderDecides<P>(a: P, b: P, eval: P -> DamagePredicateResult)
    requires eval(a) == Deny("x") && eval(b) == Deny("y")
    ensures Verdict([a, b], eval) == Deny("x")
    ensures Verdict([b, a], eval) == Deny("y")
  {
  }

  /** The chain held by the session: `Combat` with its `_predicates` list. */
  class Combat<P(==)> {
    var predicates: seq<P>

    /** An empty chain, which allows everything. */
    constructor ()
      ensures predicates == []
    {
      predicates := [];
    }

    /** A chain holding the given predicates in order. */
    constructor FromList(initial: seq<P>)
      ensures predicates == initial
    {
      predicates := initial;
    }

    /**
     * `AddPredicate(pred, index)`: a negative index appends; otherwise the
     * predicate is inserted at `index`. `List.Insert` throws for an index past
     * the end: then `ok` is false and the chain is unchanged.
     */
    method AddPredicate(pred: P, index: int) returns (ok: bool)
      modifies this
      ensures ok <==> index <= |old(predicates)|
      ensures !ok ==> predicates == old(predicates)
      ensures ok && index < 0 ==> predicates == old(predicates) + [pred]
      ensures ok && 0 <= index ==> predicates == Lists.InsertAt(old(predicates), index, pred)
    {
      var at := if index < 0 then |predicates| else index;
      if at > |predicates| {
        return false;
      }
      predicates := Lists.InsertAt(predicates, at, pred);
      assert index < 0 ==> predicates == old(predicates) + [pred];
      return true;
    }

    /** `RemovePredicate(pred)`: removes the first occurrence; true iff there was one. */
    method RemovePredicate(pred: P) returns (removed: bool)
      modifies this
      ensures removed <==> pred in old(predicates)
      ensures predicates == Lists.RemoveFirst(old(predicates), pred)
    {
      removed := pred in predicates;
      predicates := Lists.RemoveFirst(predicates, pred);
    }

    /** `CanDamage`: consults the predicates in order and returns the first denial. */
    method CanDamage(eval: P -> DamagePredicateResult) returns (r: DamagePredicateResult)
      ensures r == Verdict(predicates, eval)
      ensures !r.AsBool() ==> exists k :: 0 <= k < |predicates| && r == eval(predicates[k])
    {
      var i := 0;
      while i < |predicates|
        invariant 0 <= i <= |predicates|
        invariant Verdict(predicates, eval) == Verdict(predicates[i..], eval)
      {
        var result := eval(predicates[i]);
        if !result.AsBool() {
          return result;
        }
        assert predicates[i..][1..] == predicates[i + 1..];
        i := i + 1;
      }
      return Allow();
    }
  }
}
