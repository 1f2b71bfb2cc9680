/**
 Letter case: an entry of the exception list converts its pattern to lower case and compares
 paths as they are. On which patterns that makes a difference.
 */
module LetterCase {
  import opened Options
  import opened Text
  import opened Wildcard
  import opened WildcardLaws

  /** towlower of the current locale: a second time it does nothing, and it leaves these units alone. */
  ghost predicate Lowers(lower: Unit -> Unit) {
    && (forall u: Unit :: lower(lower(u)) == lower(u))
    && Leaves(lower, NUL) && Leaves(lower, STAR) && Leaves(lower, ANY) && Leaves(lower, BACKSLASH)
  }

  ghost predicate Leaves(lower: Unit -> Unit, v: Unit) {
    forall u: Unit :: lower(u) == v <==> u == v
  }

  function Lower(lower: Unit -> Unit, t: seq<Unit>): seq<Unit> {
    seq(|t|, i requires 0 <= i < |t| => lower(t[i]))
  }

  lemma LowerKeeps(lower: Unit -> Unit, t: seq<Unit>, v: Unit)
    requires Leaves(lower, v)
    ensures v in Lower(lower, t) <==> v in t
  {
    var t' := Lower(lower, t);
    forall i | 0 <= i < |t|
      ensures t'[i] == v <==> t[i] == v
    {
    }
  }

  lemma LowerFrom(lower: Unit -> Unit, t: seq<Unit>, n: nat)
    requires n <= |t|
    ensures Lower(lower, t[n..]) == Lower(lower, t)[n..]
  {
  }

  lemma FirstLower(lower: Unit -> Unit, t: seq<Unit>, u: Unit)
    requires Leaves(lower, u)
    ensures First(Lower(lower, t), u) == First(t, u)
  {
    var t' := Lower(lower, t);
    assert forall k | 0 <= k < |t| :: t'[k] == u <==> t[k] == u;
  }

  // ---------------------------------------------------- patterns that ignore the case

  /** No other unit has a unit of the pattern as its lower case. */
  ghost predicate AllLeft(lower: Unit -> Unit, p: seq<Unit>) {
    forall k | 0 <= k < |p| :: Leaves(lower, p[k])
  }

  /** A `?` behind a star or a wildcard behind a `?`: no path gets over it, save one that ends before. */
  predicate Blocked(p: seq<Unit>)
    requires p != []
  {
    |p| > 1 && (if p[0] == ANY then IsWildcard(p[1]) else p[0] == STAR && p[1] == ANY)
  }

  /** The same up to where a path can get. */
  ghost predicate CaseFree(lower: Unit -> Unit, p: seq<Unit>) {
    p == [] || (Leaves(lower, p[0]) && (Blocked(p) || CaseFree(lower, p[1..])))
  }

  lemma {:induction false} AllLeftIsFree(lower: Unit -> Unit, p: seq<Unit>)
    requires AllLeft(lower, p)
    ensures CaseFree(lower, p)
  {
    if p != [] {
      AllLeftIsFree(lower, p[1..]);
    }
  }

  lemma BlockedMisses(p: seq<Unit>, t: seq<Unit>)
    requires p != [] && Blocked(p) && Ordinary(t) && t != []
    ensures Walk(p, t).Mismatch?
  {
    if p[0] == ANY {
      assert |t| > 1 ==> t[1] in t;
    } else {
      assert Stars(p) == 1 + Stars(p[1..]) == 1;
      assert First(t, ANY) == |t|;
    }
  }

  /** The walk on a path and on its lower case do the same, step by step. */
  lemma {:induction false} SameCase(lower: Unit -> Unit, p: seq<Unit>, t: seq<Unit>)
    requires Lowers(lower) && CaseFree(lower, p) && (Ordinary(t) || AllLeft(lower, p))
    ensures Walk(p, t).Mismatch? <==> Walk(p, Lower(lower, t)).Mismatch?
    decreases |p| + |t|
  {
    var t' := Lower(lower, t);
    if t == [] || p == [] {
    } else if Blocked(p) && Ordinary(t) {
      LowerOrdinary(lower, t);
      BlockedMisses(p, t);
      BlockedMisses(p, t');
    } else {
      if Blocked(p) {
        AllLeftIsFree(lower, p[1..]);
      }
      if p[0] == STAR {
        SameCaseStar(lower, p, t);
      } else {
        LowerFrom(lower, t, 1);
        SameCase(lower, p[1..], t[1..]);
        SameLookahead(lower, p, t);
      }
    }
  }

  lemma {:induction false} SameCaseStar(lower: Unit -> Unit, p: seq<Unit>, t: seq<Unit>)
    requires p != [] && p[0] == STAR && t != []
    requires Lowers(lower) && CaseFree(lower, p[1..]) && (Ordinary(t) || AllLeft(lower, p))
    ensures Walk(p, t).Mismatch? <==> Walk(p, Lower(lower, t)).Mismatch?
    decreases |p| + |t|, 0
  {
    var t' := Lower(lower, t);
    if |p| > 1 && p[1] == STAR {
      WalkStar(p, t);
      WalkStar(p, t');
      SameCase(lower, p[1..], t);
    } else if |p| > 1 {
      var n := First(t, p[1]);
      FirstLower(lower, t, p[1]);
      LowerFrom(lower, t, n);
      WalkStarUnit(p, t);
      WalkStarUnit(p, t');
      SameCase(lower, p[1..], t[n..]);
    }
  }

  /** A star in front of a unit: the walk goes on at the first such unit of the target. */
  lemma WalkStarUnit(p: seq<Unit>, t: seq<Unit>)
    requires |p| > 1 && p[0] == STAR && p[1] != STAR && t != []
    ensures var n := First(t, p[1]);
            Walk(p, t).Mismatch? <==> n == |t| || Walk(p[1..], t[n..]).Mismatch?
  {
    assert Stars(p) == 1 + Stars(p[1..]) == 1;
  }

  lemma SameLookahead(lower: Unit -> Unit, p: seq<Unit>, t: seq<Unit>)
    requires Lowers(lower) && p != [] && t != [] && p[0] != STAR && Leaves(lower, p[0])
    requires |p| > 1 ==> Leaves(lower, p[1])
    requires Walk(p[1..], t[1..]).Mismatch? <==> Walk(p[1..], Lower(lower, t)[1..]).Mismatch?
    ensures Walk(p, t).Mismatch? <==> Walk(p, Lower(lower, t)).Mismatch?
  {
    var t' := Lower(lower, t);
    assert At(t', 1) == if |t| > 1 then lower(t[1]) else NUL;
    assert At(t', 1) == At(p, 1) <==> At(t, 1) == At(p, 1);
    assert t'[0] == p[0] <==> t[0] == p[0];
  }

  lemma LowerOrdinary(lower: Unit -> Unit, t: seq<Unit>)
    requires Lowers(lower)
    ensures Ordinary(Lower(lower, t)) <==> Ordinary(t)
  {
    LowerKeeps(lower, t, STAR);
    LowerKeeps(lower, t, ANY);
    LowerKeeps(lower, t, NUL);
  }

  // ------------------------------------------------- a wrong answer for all the others

  /** A unit other than v with v as its lower case. */
  ghost function Upper(lower: Unit -> Unit, v: Unit): (u: Unit)
    requires lower(v) == v && !Leaves(lower, v)
    ensures lower(u) == v && u != v
  {
    var u: Unit :| lower(u) == v && u != v;
    u
  }

  /** The beginning of a pattern, read as a text, is matched; and with another last unit it is not. */
  lemma {:induction false} WalkBeginning(p: seq<Unit>, k: nat, u: Unit)
    requires k < |p| && !IsWildcard(p[k])
    ensures Walk(p, p[..k] + [u]).Mismatch? <==> u != p[k]
    decreases |p|
  {
    var t := p[..k] + [u];
    if p[0] == STAR {
      var s := Stars(p);
      assert forall i | 0 <= i < s :: t[i] == STAR;
      if s < k {
        assert t[s] == p[s] && First(t, p[s]) == s;
        assert t[s..] == p[s..][..k - s] + [u];
        WalkBeginning(p[s..], k - s, u);
      } else {
        assert s == k && t[k] == u && |t| == k + 1;
        assert First(t, p[k]) == if u == p[k] then k else |t|;
        assert t[k..] == [u] && t[k..][1..] == [];
        assert u == p[k] ==> !Walk(p[k..], t[k..]).Mismatch?;
      }
    } else if k > 0 {
      assert t[1..] == p[1..][..k - 1] + [u];
      WalkBeginning(p[1..], k - 1, u);
    } else {
      assert t == [u] && t[1..] == [];
    }
  }

  /** The same for paths: the pattern without its stars up to the unit whose case matters. */
  ghost function WrongCase(lower: Unit -> Unit, p: seq<Unit>): seq<Unit>
    requires Lower(lower, p) == p && !CaseFree(lower, p)
  {
    assert Lower(lower, p)[0] == p[0] && Lower(lower, p[1..]) == Lower(lower, p)[1..];
    if !Leaves(lower, p[0]) then [Upper(lower, p[0])]
    else (if p[0] == STAR then [] else if p[0] == ANY then [SOME] else [p[0]]) + WrongCase(lower, p[1..])
  }

  /** How such a target begins: with what the pattern asks for, or with the wrong unit alone. */
  ghost predicate Begins(lower: Unit -> Unit, p: seq<Unit>, t: seq<Unit>) {
    && p != [] && t != []
    && (!IsWildcard(p[0]) ==> lower(t[0]) == p[0] && (t[0] == p[0] || |t| == 1))
  }

  lemma {:induction false} WrongCaseMissed(lower: Unit -> Unit, p: seq<Unit>)
    requires Lowers(lower) && Lower(lower, p) == p && NUL !in p && !CaseFree(lower, p)
    ensures var t := WrongCase(lower, p);
            && Begins(lower, p, t) && Ordinary(t)
            && Walk(p, t).Mismatch? && !Walk(p, Lower(lower, t)).Mismatch?
  {
    assert Lower(lower, p)[0] == p[0] && Lower(lower, p[1..]) == Lower(lower, p)[1..];
    assert p[0] in p;
    if !Leaves(lower, p[0]) {
      WrongUnit(lower, p, Upper(lower, p[0]));
    } else {
      WrongCaseMissed(lower, p[1..]);
      WrongCaseLater(lower, p, WrongCase(lower, p[1..]));
    }
  }

  lemma WrongUnit(lower: Unit -> Unit, p: seq<Unit>, u: Unit)
    requires Lowers(lower) && p != [] && NUL !in p && !Leaves(lower, p[0]) && lower(u) == p[0] != u
    ensures Begins(lower, p, [u]) && Ordinary([u])
    ensures Walk(p, [u]).Mismatch? && !Walk(p, Lower(lower, [u])).Mismatch?
  {
    assert p[0] in p;
    var t': seq<Unit> := [p[0]];
    assert Lower(lower, [u]) == t' && t'[1..] == [];
  }

  lemma WrongCaseLater(lower: Unit -> Unit, p: seq<Unit>, rest: seq<Unit>)
    requires Lowers(lower) && p != [] && p[0] != NUL && Leaves(lower, p[0]) && lower(p[0]) == p[0] && !Blocked(p)
    requires Begins(lower, p[1..], rest) && Ordinary(rest)
    requires Walk(p[1..], rest).Mismatch? && !Walk(p[1..], Lower(lower, rest)).Mismatch?
    ensures var t := (if p[0] == STAR then [] else if p[0] == ANY then [SOME] else [p[0]]) + rest;
            && Begins(lower, p, t) && Ordinary(t)
            && Walk(p, t).Mismatch? && !Walk(p, Lower(lower, t)).Mismatch?
  {
    if p[0] == STAR {
      assert [] + rest == rest;
      WrongCaseStar(lower, p, rest);
    } else {
      var u := if p[0] == ANY then SOME else p[0];
      OrdinaryFront(u, rest);
      TailLower(lower, u, rest);
      WrongCaseStep(lower, p, [u] + rest);
    }
  }

  lemma OrdinaryFront(u: Unit, rest: seq<Unit>)
    requires u != NUL && !IsWildcard(u) && Ordinary(rest)
    ensures Ordinary([u] + rest)
  {
  }

  lemma TailLower(lower: Unit -> Unit, u: Unit, rest: seq<Unit>)
    ensures ([u] + rest)[1..] == rest && Lower(lower, [u] + rest)[1..] == Lower(lower, rest)
  {
  }

  lemma WrongCaseStar(lower: Unit -> Unit, p: seq<Unit>, t: seq<Unit>)
    requires |p| > 1 && p[0] == STAR && p[1] != ANY && t != [] && (p[1] != STAR ==> lower(t[0]) == p[1])
    requires Walk(p[1..], t).Mismatch? && !Walk(p[1..], Lower(lower, t)).Mismatch?
    requires p[1] != STAR && t[0] != p[1] ==> |t| == 1
    ensures Walk(p, t).Mismatch? && !Walk(p, Lower(lower, t)).Mismatch?
  {
    WalkStar(p, Lower(lower, t));
    if p[1] == STAR || p[1] == t[0] {
      WalkStar(p, t);
    } else {
      WalkStarUnit(p, t);
      assert First(t, p[1]) == |t|;
    }
  }

  lemma WrongCaseStep(lower: Unit -> Unit, p: seq<Unit>, t: seq<Unit>)
    requires |p| > 1 && p[0] != STAR && |t| > 1 && (p[0] == ANY || t[0] == p[0] == lower(p[0]))
    requires p[0] == ANY ==> !IsWildcard(p[1]) && lower(t[1]) == p[1]
    requires Walk(p[1..], t[1..]).Mismatch? && !Walk(p[1..], Lower(lower, t)[1..]).Mismatch?
    ensures Walk(p, t).Mismatch? && !Walk(p, Lower(lower, t)).Mismatch?
  {
    var t' := Lower(lower, t);
    assert At(t', 1) == lower(t[1]) && t'[0] == lower(t[0]);
  }

  /**
   The case of the target never matters if and only if no unit of the pattern is the lower
   case of another unit.
   */
  lemma CaseIgnored(lower: Unit -> Unit, p: seq<Unit>)
    requires Lowers(lower) && Lower(lower, p) == p
    ensures AllLeft(lower, p) <==> forall t :: Walk(p, t).Mismatch? <==> Walk(p, Lower(lower, t)).Mismatch?
  {
    if AllLeft(lower, p) {
      AllLeftIsFree(lower, p);
      forall t
        ensures Walk(p, t).Mismatch? <==> Walk(p, Lower(lower, t)).Mismatch?
      {
        SameCase(lower, p, t);
      }
    } else {
      var k :| 0 <= k < |p| && !Leaves(lower, p[k]);
      var t := CaseWitness(lower, p, k);
    }
  }

  /** A target that is missed, and accepted in lower case. */
  lemma CaseWitness(lower: Unit -> Unit, p: seq<Unit>, k: nat) returns (t: seq<Unit>)
    requires Lowers(lower) && Lower(lower, p) == p && k < |p| && !Leaves(lower, p[k])
    ensures t != [] && Walk(p, t).Mismatch? && !Walk(p, Lower(lower, t)).Mismatch?
    ensures BACKSLASH !in p ==> BACKSLASH !in t
  {
    assert Lower(lower, p)[k] == p[k];
    var u := Upper(lower, p[k]);
    t := p[..k] + [u];
    assert Lower(lower, t) == p[..k] + [p[k]] by {
      forall i | 0 <= i < k
        ensures lower(p[i]) == p[i]
      {
        assert Lower(lower, p)[i] == p[i];
      }
    }
    WalkBeginning(p, k, u);
    WalkBeginning(p, k, p[k]);
    assert u != BACKSLASH;
  }

  /** On paths: if and only if that holds of the units a path can be compared with. */
  lemma CaseIgnoredOnPaths(lower: Unit -> Unit, p: seq<Unit>)
    requires Lowers(lower) && Lower(lower, p) == p && NUL !in p
    ensures CaseFree(lower, p) <==>
            forall t | Ordinary(t) :: Walk(p, t).Mismatch? <==> Walk(p, Lower(lower, t)).Mismatch?
  {
    if CaseFree(lower, p) {
      forall t | Ordinary(t)
        ensures Walk(p, t).Mismatch? <==> Walk(p, Lower(lower, t)).Mismatch?
      {
        SameCase(lower, p, t);
      }
    } else {
      WrongCaseMissed(lower, p);
    }
  }

  // ------------------------------------------------------- one target, without stars

  /** Every unit of t that p meets with something other than a `?` is in lower case. */
  predicate MetInLower(lower: Unit -> Unit, p: seq<Unit>, t: seq<Unit>) {
    forall k | 0 <= k < |t| && k < |p| && p[k] != ANY :: lower(t[k]) == t[k]
  }

  /**
   The entry lower-cases its pattern but not the path. A pattern without stars matches a path
   if and only if it matches the path in lower case, and the path has no upper case but where
   the pattern has a `?`.
   */
  lemma {:induction false} UpperCaseNotMet(lower: Unit -> Unit, p: seq<Unit>, t: seq<Unit>)
    requires Lowers(lower) && Lower(lower, p) == p && STAR !in p
    ensures !Walk(p, t).Mismatch? <==> !Walk(p, Lower(lower, t)).Mismatch? && MetInLower(lower, p, t)
    decreases |t|
  {
    var t' := Lower(lower, t);
    if t != [] && p != [] {
      assert p[0] in p && Lower(lower, p)[0] == p[0] && (|p| > 1 ==> Lower(lower, p)[1] == p[1]);
      assert t'[1..] == Lower(lower, t[1..]);
      assert Lower(lower, p[1..]) == Lower(lower, p)[1..];
      UpperCaseNotMet(lower, p[1..], t[1..]);
      MetInLowerStep(lower, p, t);
      if p[0] == ANY {
        assert |t| > 1 && |p| > 1 && MetInLower(lower, p[1..], t[1..]) && p[1] != ANY ==> lower(t[1]) == t[1];
        assert At(t', 1) == if |t| > 1 then lower(t[1]) else NUL;
        assert At(t, 1) == At(p, 1) ==> At(t', 1) == At(p, 1);
        assert MetInLower(lower, p[1..], t[1..]) && At(t', 1) == At(p, 1) ==> At(t, 1) == At(p, 1);
      }
    }
  }

  lemma MetInLowerStep(lower: Unit -> Unit, p: seq<Unit>, t: seq<Unit>)
    requires p != [] && t != []
    ensures MetInLower(lower, p, t) <==> (p[0] != ANY ==> lower(t[0]) == t[0]) && MetInLower(lower, p[1..], t[1..])
  {
    forall k | 1 <= k < |t| && k < |p|
      ensures t[k] == t[1..][k - 1] && p[k] == p[1..][k - 1]
    {
    }
  }
}
