/**
 On which patterns the answer of Match is the answer of the glob: exact conditions on the
 pattern alone, for FALSE, for TRUE and for both.
 */
module WildcardLaws {
  import opened Options
  import opened Text
  import opened Wildcard

  predicate IsWildcard(u: Unit) {
    u == STAR || u == ANY
  }

  /** A text that could be a path: no unit of it is a wildcard or the terminator. */
  predicate Ordinary(t: seq<Unit>) {
    STAR !in t && ANY !in t && NUL !in t
  }

  // ------------------------------------------------------------- when FALSE is right

  /** What Sparse asks of the first unit of a pattern. */
  predicate SparseHead(p: seq<Unit>)
    requires p != []
  {
    if p[0] == ANY then |p| == 1 || !IsWildcard(p[1])
    else if p[0] == STAR && |p| > 1 && p[1] != STAR then p[1] != ANY && |p| > 2 && p[2] == STAR
    else true
  }

  /**
   No wildcard behind a `?`, and every other unit behind a star is no `?` and stands alone
   between two stars.
   */
  predicate Sparse(p: seq<Unit>) {
    p == [] || (SparseHead(p) && Sparse(p[1..]))
  }

  lemma {:induction false} SparseFrom(p: seq<Unit>, k: nat)
    requires Sparse(p) && k <= |p|
    ensures Sparse(p[k..])
  {
    if k == 0 {
      assert p[0..] == p;
    } else {
      SparseFrom(p[1..], k - 1);
      assert p[1..][k - 1..] == p[k..];
    }
  }

  /** For a sparse pattern the first place behind a star that fits is as good as any other. */
  lemma {:induction false} SparseFound(p: seq<Unit>, t: seq<Unit>)
    requires Sparse(p) && Glob(p, t)
    ensures !Walk(p, t).Mismatch?
    decreases |p| + |t|
  {
    if t == [] {
    } else if At(p, 0) == STAR {
      var s := Stars(p);
      if s < |p| {
        var j := GlobSplit(p, s, t);
        SparseAtStar(p, s);
        EarlierIsFine(p[s..], t, First(t, p[s]), j);
        SparseFrom(p, s);
        SparseFound(p[s..], t[First(t, p[s])..]);
      }
    } else if p[0] == ANY {
      SparseFound(p[1..], t[1..]);
    } else {
      SparseFound(p[1..], t[1..]);
    }
  }

  lemma SparseAtStar(p: seq<Unit>, s: nat)
    requires Sparse(p) && 0 < s < |p| && p[s - 1] == STAR && p[s] != STAR
    ensures p[s] != ANY && s + 1 < |p| && p[s + 1] == STAR
  {
    SparseFrom(p, s - 1);
    assert p[s - 1..][1] == p[s] && (s + 1 < |p| ==> p[s - 1..][2] == p[s + 1]);
  }

  lemma EarlierIsFine(p: seq<Unit>, t: seq<Unit>, n: nat, j: nat)
    requires |p| > 1 && !IsWildcard(p[0]) && p[1] == STAR
    requires j <= |t| && Glob(p, t[j..]) && n == First(t, p[0])
    ensures n < |t| && Glob(p, t[n..])
  {
    assert t[j] == p[0];
    assert t[j..][1..] == t[n + 1..][j - n..];
    GlobSkip(p[1..], t[n + 1..], j - n);
    assert t[n..][1..] == t[n + 1..];
  }

  // ------------------------------------------- a missed target for all other patterns

  const SOME: Unit := 0x78

  /** The pattern with its stars left out and SOME for every `?`. */
  function Instance(p: seq<Unit>): seq<Unit> {
    if p == [] then []
    else (if p[0] == STAR then [] else if p[0] == ANY then [SOME] else [p[0]]) + Instance(p[1..])
  }

  /** A unit other than a and b. */
  function Other(a: Unit, b: Unit): (z: Unit)
    ensures z != a && z != b && z != NUL && !IsWildcard(z)
  {
    if a != 0x70 && b != 0x70 then 0x70 else if a != 0x71 && b != 0x71 then 0x71 else 0x72
  }

  /** A target that the pattern matches and the walk misses, up to the first unit that is not sparse. */
  function Missed(p: seq<Unit>): seq<Unit> {
    if p == [] then []
    else if SparseHead(p) then
      (if p[0] == STAR then [] else if p[0] == ANY then [SOME] else [p[0]]) + Missed(p[1..])
    else if p[0] == STAR && p[1] != ANY then
      var z := Other(At(p, 2), At(p, 3));
      [p[1], z, z] + Instance(p)
    else Instance(p)
  }

  lemma {:induction false} InstanceMatches(p: seq<Unit>)
    requires NUL !in p
    ensures Glob(p, Instance(p)) && Ordinary(Instance(p))
  {
    if p != [] {
      InstanceMatches(p[1..]);
      assert p[0] in p;
      assert p[0] != STAR ==> Instance(p)[1..] == Instance(p[1..]);
      assert p[0] == STAR ==> Instance(p) == Instance(p[1..]);
    }
  }

  lemma {:induction false} MissedMatches(p: seq<Unit>)
    requires NUL !in p && !Sparse(p)
    ensures Glob(p, Missed(p)) && Ordinary(Missed(p))
  {
    var t := Missed(p);
    assert p[0] in p;
    if SparseHead(p) {
      MissedMatches(p[1..]);
      assert p[0] == STAR ==> t == Missed(p[1..]);
      assert p[0] != STAR ==> t[1..] == Missed(p[1..]);
    } else {
      InstanceMatches(p);
      if p[0] == STAR && p[1] != ANY {
        assert p[1] in p;
        assert t[3..] == Instance(p);
        GlobSkip(p, t, 3);
      }
    }
  }

  /** A star in front of more stars, or of the unit at hand, changes nothing for the walk. */
  lemma WalkStar(p: seq<Unit>, t: seq<Unit>)
    requires |p| > 1 && p[0] == STAR && t != [] && (p[1] == STAR || p[1] == t[0])
    ensures Walk(p, t).Mismatch? == Walk(p[1..], t).Mismatch?
  {
    var s := Stars(p);
    if p[1] == STAR {
      assert s == 1 + Stars(p[1..]);
      assert p[1..][s - 1..] == p[s..];
    } else {
      assert s == 1 + Stars(p[1..]) == 1 && First(t, p[1]) == 0 && t[0..] == t;
    }
  }

  lemma {:induction false} MissedIsMissed(p: seq<Unit>)
    requires NUL !in p && !Sparse(p)
    ensures Missed(p) != [] && Walk(p, Missed(p)).Mismatch?
  {
    var t := Missed(p);
    if SparseHead(p) {
      MissedIsMissed(p[1..]);
      if p[0] == STAR {
        assert t == Missed(p[1..]);
        WalkStar(p, t);
      } else {
        assert t[1..] == Missed(p[1..]);
        assert p[0] == ANY ==> t[1] == p[1];
      }
    } else if p[0] == STAR && p[1] != ANY {
      MissedAtStar(p, t);
    } else {
      MissedAtAny(p);
    }
  }

  /** The walk takes the first unit that fits, and there it does not go on. */
  lemma MissedAtStar(p: seq<Unit>, t: seq<Unit>)
    requires |p| > 1 && p[0] == STAR && !IsWildcard(p[1]) && !(|p| > 2 && p[2] == STAR)
    requires |t| > 2 && t[0] == p[1] && t[1] == t[2] == Other(At(p, 2), At(p, 3))
    ensures Walk(p, t).Mismatch?
  {
    WalkStar(p, t);
    var q, r := p[1..], t[1..];
    assert At(q[1..], 0) == At(p, 2) && At(q[1..], 1) == At(p, 3) && At(r, 1) == t[2];
    assert Walk(q[1..], r).Mismatch?;
  }

  /** A `?` behind a star, or a wildcard behind a `?`, asks for a wildcard in the target. */
  lemma MissedAtAny(p: seq<Unit>)
    requires NUL !in p && |p| > 1
    requires (p[0] == STAR && p[1] == ANY) || (p[0] == ANY && IsWildcard(p[1]))
    ensures Instance(p) != [] && Walk(p, Instance(p)).Mismatch?
  {
    var t := Instance(p);
    InstanceMatches(p);
    if p[0] == STAR {
      assert p[1..] != [] && Instance(p[1..]) != [];
      assert Stars(p) == 1 + Stars(p[1..]) == 1;
      assert First(t, ANY) == |t|;
    } else {
      assert t[0] == SOME;
      assert At(t, 1) == NUL || At(t, 1) in t;
    }
  }

  /** FALSE is the answer of the glob on every path if and only if the pattern is sparse. */
  lemma FalseIsRight(p: seq<Unit>)
    requires NUL !in p
    ensures Sparse(p) <==> forall t | Ordinary(t) :: Walk(p, t).Mismatch? ==> !Glob(p, t)
    ensures Sparse(p) ==> forall t :: Walk(p, t).Mismatch? ==> !Glob(p, t)
  {
    if Sparse(p) {
      forall t | Glob(p, t)
        ensures !Walk(p, t).Mismatch?
      {
        SparseFound(p, t);
      }
    } else {
      MissedMatches(p);
      MissedIsMissed(p);
    }
  }

  // -------------------------------------------------------------- when TRUE is right

  /** The wildcards in front of the first unit that Match compares, as far as it can get over them. */
  function Front(p: seq<Unit>): (f: nat)
    ensures f <= |p|
  {
    if p != [] && p[0] == ANY then 1 else Stars(p)
  }

  /** Nothing but stars behind the first unit that Match compares. */
  predicate OneUnit(p: seq<Unit>) {
    var f := Front(p);
    f < |p| && !IsWildcard(p[f]) ==> OnlyStars(p[f + 1..])
  }

  /** The walk behind the one unit: at the end of the target, at a star, or nowhere. */
  lemma WalkOneUnit(p: seq<Unit>, t: seq<Unit>)
    requires p != [] && !IsWildcard(p[0]) && OnlyStars(p[1..]) && t != [] && !Walk(p, t).Mismatch?
    ensures Walk(p, t).TrailingStar? || Walk(p, t) == TargetEnded(1)
  {
    var q := p[1..];
    assert Walk(p, t) == Behind(Walk(q, t[1..]), 1);
    assert OnlyStars(q) && (q != [] ==> q[0] == STAR);
  }

  lemma OneUnitUsed(p: seq<Unit>, t: seq<Unit>)
    requires NUL !in p && OneUnit(p) && Ordinary(t) && t != [] && !Walk(p, t).Mismatch?
    ensures Walk(p, t).TargetEnded? ==> OnlyStars(p[Walk(p, t).used..])
  {
    var f := Front(p);
    if p != [] && p[0] == ANY {
      assert At(t, 1) == NUL || At(t, 1) in t;
      assert |p| > 1 ==> p[1] in p;
      if |p| > 1 {
        assert p[1..][1..] == p[2..];
        WalkOneUnit(p[1..], t[1..]);
      }
    } else if f < |p| {
      assert First(t, ANY) == |t|;
      assert p[f..][1..] == p[f + 1..];
      if p[0] == STAR {
        WalkOneUnit(p[f..], t[First(t, p[f])..]);
      } else {
        WalkOneUnit(p, t);
      }
    }
  }

  /** The walk gets as far as the first unit it compares, and if the target ends there it is content. */
  function Accepted(p: seq<Unit>): seq<Unit>
    requires Front(p) < |p|
  {
    (if p[0] == ANY then [SOME] else []) + [p[Front(p)]]
  }

  lemma AcceptedTooSoon(p: seq<Unit>)
    requires NUL !in p && !OneUnit(p)
    ensures var t := Accepted(p);
            Ordinary(t) && !Walk(p, t).Mismatch? && !Glob(p, t)
  {
    var t, f := Accepted(p), Front(p);
    var u := p[f];
    assert u in p;
    var q := p[f..];
    assert Walk(q[1..], []) == TargetEnded(0) && Walk(q, [u]) == TargetEnded(1) by {
      var one: seq<Unit> := [u];
      assert one[1..] == [];
    }
    if p[0] == ANY {
      assert t[1..] == [u] && q == p[1..];
    } else if p[0] == STAR {
      assert First(t, u) == 0 && t[0..] == t;
    } else {
      assert q == p;
    }
    assert Walk(p, t) == TargetEnded(f + 1);
    TrueMeansGlob(p, t);
  }

  /**
   TRUE is the answer of the glob on every path, but for the empty one, if and only if
   nothing but stars stands behind the first unit compared.
   */
  lemma TrueIsRight(p: seq<Unit>)
    requires NUL !in p
    ensures OneUnit(p) <==> forall t | Ordinary(t) && t != [] :: !Walk(p, t).Mismatch? ==> Glob(p, t)
  {
    if OneUnit(p) {
      forall t | Ordinary(t) && t != [] && !Walk(p, t).Mismatch?
        ensures Glob(p, t)
      {
        OneUnitUsed(p, t);
        TrueMeansGlob(p, t);
      }
    } else {
      AcceptedTooSoon(p);
    }
  }

  /** The patterns on which Match is the glob. */
  lemma MatchIsGlob(p: seq<Unit>)
    requires NUL !in p
    ensures Sparse(p) && OneUnit(p) <==> forall t | Ordinary(t) && t != [] :: !Walk(p, t).Mismatch? <==> Glob(p, t)
  {
    FalseIsRight(p);
    TrueIsRight(p);
    if !Sparse(p) {
      MissedMatches(p);
      MissedIsMissed(p);
    }
  }

  // -------------------------------------------------- the conditions in plain words

  /** Sparse, unit by unit. */
  lemma {:induction false} SparseIs(p: seq<Unit>)
    ensures Sparse(p) <==> forall k | 0 <= k < |p| :: SparseHead(p[k..])
  {
    if p != [] {
      SparseIs(p[1..]);
      forall k | 1 <= k < |p|
        ensures p[1..][k - 1..] == p[k..]
      {
      }
      assert p[0..] == p;
      assert forall k | 0 <= k < |p| :: k == 0 || SparseHead(p[k..]) == SparseHead(p[1..][k - 1..]);
      assert forall k | 0 <= k < |p[1..]| :: p[1..][k..] == p[k + 1..];
    }
  }

  /** A unit between two stars, or no star in front of it. */
  predicate StandsAlone(p: seq<Unit>, k: nat)
    requires k < |p|
  {
    p[k] == STAR && k + 1 < |p| && p[k + 1] != STAR ==> k + 2 < |p| && p[k + 2] == STAR
  }

  lemma StandsAloneIs(p: seq<Unit>)
    requires ANY !in p
    ensures Sparse(p) <==> forall k | 0 <= k < |p| :: StandsAlone(p, k)
  {
    SparseIs(p);
    forall k | 0 <= k < |p|
      ensures SparseHead(p[k..]) <==> StandsAlone(p, k)
    {
      assert p[k] in p && (k + 1 < |p| ==> p[k + 1] in p);
    }
  }

  /** Without a `?`: no star at all, or a star at the end and no two units in a row behind the first. */
  lemma SparseWithoutAny(p: seq<Unit>)
    requires ANY !in p
    ensures Sparse(p) <==> STAR !in p || LoneUnits(p, First(p, STAR))
  {
    StandsAloneIs(p);
    var f := First(p, STAR);
    if STAR in p {
      assert f < |p|;
      if Sparse(p) {
        SparseRuns(p, f);
      } else {
        var k :| 0 <= k < |p| && !StandsAlone(p, k);
        assert f <= k;
      }
    }
  }

  predicate LoneUnits(p: seq<Unit>, f: nat) {
    p != [] && p[|p| - 1] == STAR && forall k | f < k < |p| - 1 :: p[k] == STAR || p[k + 1] == STAR
  }

  /** Behind a star a sparse pattern goes on with stars and lone units, up to a last star. */
  lemma {:induction false} SparseRuns(p: seq<Unit>, f: nat)
    requires f < |p| && p[f] == STAR
    requires forall k | f <= k < |p| :: StandsAlone(p, k)
    ensures LoneUnits(p, f)
    decreases |p| - f
  {
    assert StandsAlone(p, f);
    if f + 1 < |p| {
      SparseRuns(p, if p[f + 1] == STAR then f + 1 else f + 2);
    }
  }

  /** Without a `?`: at most one unit is not a star. */
  lemma OneUnitWithoutAny(p: seq<Unit>)
    requires ANY !in p
    ensures OneUnit(p) <==> forall i, j | 0 <= i < j < |p| :: p[i] == STAR || p[j] == STAR
  {
    var f := Front(p);
    assert p != [] ==> p[0] in p;
    if f < |p| {
      assert p[f] in p;
      assert forall j | f < j < |p| :: p[f + 1..][j - f - 1] == p[j];
    }
  }

  // ----------------------------------------------------------- patterns without stars

  /** The target ends inside the pattern, behind a unit that is no `?`, or at once. */
  ghost predicate EndsInside(p: seq<Unit>, t: seq<Unit>) {
    exists u :: 0 <= u < |p| && EndsAt(p, t, u)
  }

  predicate EndsAt(p: seq<Unit>, t: seq<Unit>, u: nat)
    requires u <= |p|
  {
    (u == 0 || p[u - 1] != ANY) && Glob(p[..u], t)
  }

  /**
   For a pattern with no star but at its end, Match is right on every target except the
   matches of the proper beginnings of its part without stars, which it accepts as well,
   unless they end in a `?`.
   */
  lemma {:induction false} HeadExact(head: seq<Unit>, stars: seq<Unit>, t: seq<Unit>)
    requires STAR !in head && NUL !in head && OnlyStars(stars) && Sparse(head + stars)
    ensures !Walk(head + stars, t).Mismatch? <==> Glob(head + stars, t) || EndsInside(head, t)
    decreases |head|
  {
    var p := head + stars;
    if Glob(p, t) {
      SparseFound(p, t);
    } else if t == [] {
      assert head[..0] == [];
      assert head != [] ==> EndsAt(head, t, 0);
      if head == [] {
        assert p == stars;
        GlobEmptyTarget(stars);
      }
    } else if head == [] {
      assert p == stars;
      if stars != [] {
        GlobOnlyStars(stars, t);
      }
    } else {
      assert p[0] == head[0] && p[1..] == head[1..] + stars;
      if head[0] == ANY || head[0] == t[0] {
        HeadExact(head[1..], stars, t[1..]);
      }
      EndsInsideStep(head, t);
    }
  }

  lemma EndsInsideStep(head: seq<Unit>, t: seq<Unit>)
    requires head != [] && STAR !in head && t != []
    ensures EndsInside(head, t) <==>
            && (head[0] == ANY || head[0] == t[0])
            && (t[1..] == [] ==> head[0] != ANY) && EndsInside(head[1..], t[1..])
  {
    if EndsInside(head, t) {
      var u :| 0 <= u < |head| && EndsAt(head, t, u);
      assert head[..u][1..] == head[1..][..u - 1];
      assert EndsAt(head[1..], t[1..], u - 1);
    }
    if (head[0] == ANY || head[0] == t[0]) && (t[1..] == [] ==> head[0] != ANY) && EndsInside(head[1..], t[1..]) {
      var u :| 0 <= u < |head[1..]| && EndsAt(head[1..], t[1..], u);
      assert head[..u + 1][1..] == head[1..][..u];
      assert EndsAt(head, t, u + 1);
    }
  }
}
