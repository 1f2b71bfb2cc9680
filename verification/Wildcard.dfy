/**
 The wildcard matcher of the exception list: what globbing means, what the one-pass walk
 of MatchEntry::Match does, and what its answer says about the glob.
 */
module Wildcard {
  import opened Options
  import opened Text

  const ANY: Unit := 0x3F

  // ------------------------------------------------------------- what globbing means

  /** The whole of t is matched by the whole of p. */
  predicate Glob(p: seq<Unit>, t: seq<Unit>)
    decreases |p| + |t|
  {
    if p == [] then t == []
    else if p[0] == STAR then Glob(p[1..], t) || (t != [] && Glob(p, t[1..]))
    else t != [] && (p[0] == ANY || p[0] == t[0]) && Glob(p[1..], t[1..])
  }

  // ---------------------------------------------------------------- what Match does

  /** How Match returns: FALSE, TRUE behind used units of the pattern at the end of the target, TRUE at a last star. */
  datatype Verdict = Mismatch | TargetEnded(used: nat) | TrailingStar

  function Behind(v: Verdict, n: nat): Verdict {
    if v.TargetEnded? then TargetEnded(v.used + n) else v
  }

  function Stars(p: seq<Unit>): (n: nat)
    ensures n <= |p| && (n < |p| ==> p[n] != STAR)
    ensures forall k | 0 <= k < n :: p[k] == STAR
  {
    if p != [] && p[0] == STAR then 1 + Stars(p[1..]) else 0
  }

  /** The first u in t, or the length of t. */
  function First(t: seq<Unit>, u: Unit): (n: nat)
    ensures n <= |t| && (n < |t| ==> t[n] == u)
    ensures forall k | 0 <= k < n :: t[k] != u
  {
    if t != [] && t[0] != u then 1 + First(t[1..], u) else 0
  }

  function Walk(p: seq<Unit>, t: seq<Unit>): (v: Verdict)
    ensures v.TargetEnded? ==> v.used <= |p|
    decreases |p| + |t|
  {
    if t == [] then TargetEnded(0)
    else if At(p, 0) == STAR then
      var s := Stars(p);
      if s == |p| then TrailingStar
      else
        var n := First(t, p[s]);
        if n == |t| then Mismatch else Behind(Walk(p[s..], t[n..]), s)
    else if At(p, 0) == ANY then
      if At(t, 1) != At(p, 1) then Mismatch else Behind(Walk(p[1..], t[1..]), 1)
    else if p == [] || p[0] != t[0] then Mismatch
    else Behind(Walk(p[1..], t[1..]), 1)
  }

  /** FALSE, from positions m and t on. */
  predicate Fails(p: seq<Unit>, m: nat, target: seq<Unit>, t: nat)
    requires m <= |p| && t <= |target|
  {
    Walk(p[m..], target[t..]).Mismatch?
  }

  /** One turn of the walk, at the program's positions. */
  lemma WalkAt(p: seq<Unit>, m: nat, target: seq<Unit>, t: nat)
    requires m <= |p| && t < |target| && NUL !in target && NUL !in p
    ensures At(p, m) == STAR ==>
              var m' := m + Stars(p[m..]);
              if m' == |p| then !Fails(p, m, target, t)
              else
                var t' := t + First(target[t..], p[m']);
                Fails(p, m, target, t) == (t' == |target| || Fails(p, m', target, t'))
    ensures At(p, m) == ANY ==>
              Fails(p, m, target, t) == (At(target, t + 1) != At(p, m + 1) || Fails(p, m + 1, target, t + 1))
    ensures At(p, m) != STAR && At(p, m) != ANY ==>
              Fails(p, m, target, t) == (At(p, m) != target[t] || Fails(p, m + 1, target, t + 1))
  {
    var q, rest := p[m..], target[t..];
    assert At(q, 0) == At(p, m) && At(q, 1) == At(p, m + 1) && At(rest, 1) == At(target, t + 1);
    assert m < |p| ==> q[1..] == p[m + 1..];
    assert rest[1..] == target[t + 1..];
    if At(p, m) == STAR && m + Stars(q) < |p| {
      assert q[Stars(q)..] == p[m + Stars(q)..];
      assert rest[First(rest, p[m + Stars(q)])..] == target[t + First(rest, p[m + Stars(q)])..];
    }
  }

  // ------------------------------------------------------------------------ soundness

  lemma {:induction false} GlobSkip(p: seq<Unit>, t: seq<Unit>, n: nat)
    requires p != [] && p[0] == STAR && n <= |t| && Glob(p, t[n..])
    ensures Glob(p, t)
  {
    if n == 0 {
      assert t[0..] == t;
    } else {
      assert t[1..][n - 1..] == t[n..];
      GlobSkip(p, t[1..], n - 1);
    }
  }

  lemma {:induction false} GlobStars(p: seq<Unit>, s: nat, t: seq<Unit>)
    requires s <= |p| && (forall k | 0 <= k < s :: p[k] == STAR) && Glob(p[s..], t)
    ensures Glob(p, t)
  {
    if s == 0 {
      assert p[0..] == p;
    } else {
      assert p[1..][s - 1..] == p[s..];
      GlobStars(p[1..], s - 1, t);
    }
  }

  /** A star in front of a match anywhere further on in the target is a match. */
  lemma GlobStarThen(p: seq<Unit>, s: nat, t: seq<Unit>, n: nat)
    requires 0 < s <= |p| && (forall k | 0 <= k < s :: p[k] == STAR)
    requires n <= |t| && Glob(p[s..], t[n..])
    ensures Glob(p, t)
  {
    GlobStars(p, s, t[n..]);
    GlobSkip(p, t, n);
  }

  /** Nothing but stars matches everything. */
  lemma GlobOnlyStars(p: seq<Unit>, t: seq<Unit>)
    requires p != [] && forall k | 0 <= k < |p| :: p[k] == STAR
    ensures Glob(p, t)
  {
    assert p[|p|..] == [] && t[|t|..] == [];
    GlobStarThen(p, |p|, t, |t|);
  }

  /** The part of the pattern a verdict vouches for. */
  function Used(p: seq<Unit>, v: Verdict): seq<Unit>
    requires v.TargetEnded? ==> v.used <= |p|
  {
    if v.TargetEnded? then p[..v.used] else p
  }

  /**
   TRUE is sound: the target is matched by the part of the pattern that was walked, which
   is all of it when Match returns at a trailing star.
   */
  lemma {:induction false} WalkSound(p: seq<Unit>, t: seq<Unit>)
    ensures var v := Walk(p, t);
            !v.Mismatch? ==> Glob(Used(p, v), t)
    decreases |p| + |t|
  {
    var v := Walk(p, t);
    if t == [] {
    } else if At(p, 0) == STAR {
      var s := Stars(p);
      if s == |p| {
        GlobOnlyStars(p, t);
      } else if !v.Mismatch? {
        var n := First(t, p[s]);
        WalkSound(p[s..], t[n..]);
        var q, w := Used(p, v), Walk(p[s..], t[n..]);
        assert q[s..] == Used(p[s..], w);
        GlobStarThen(q, s, t, n);
      }
    } else if !v.Mismatch? {
      WalkSound(p[1..], t[1..]);
      var q, w := Used(p, v), Walk(p[1..], t[1..]);
      assert q[1..] == Used(p[1..], w);
    }
  }

  // ------------------------------------------------------------------- completeness

  predicate OnlyStars(p: seq<Unit>) {
    forall k | 0 <= k < |p| :: p[k] == STAR
  }

  lemma {:induction false} GlobEmptyTarget(p: seq<Unit>)
    ensures Glob(p, []) <==> OnlyStars(p)
  {
    if p != [] {
      GlobEmptyTarget(p[1..]);
      if p[0] == STAR && OnlyStars(p[1..]) {
        assert p == [p[0]] + p[1..];
      }
    }
  }

  /** A match of stars and a rest is a match of the rest further on. */
  lemma {:induction false} GlobSplit(p: seq<Unit>, s: nat, t: seq<Unit>) returns (j: nat)
    requires s <= |p| && (forall k | 0 <= k < s :: p[k] == STAR) && Glob(p, t)
    ensures j <= |t| && Glob(p[s..], t[j..])
    decreases s, |t|
  {
    if s == 0 {
      assert p[0..] == p && t[0..] == t;
      j := 0;
    } else if Glob(p[1..], t) {
      j := GlobSplit(p[1..], s - 1, t);
      assert p[1..][s - 1..] == p[s..];
    } else {
      j := GlobSplit(p, s, t[1..]);
      assert t[1..][j..] == t[j + 1..];
      j := j + 1;
    }
  }

  /**
   When Match returns TRUE at the end of the target with something other than stars left
   of the pattern, the pattern matches neither the target nor any end of it.
   */
  lemma {:induction false} WalkedShort(p: seq<Unit>, t: seq<Unit>, k: nat)
    requires (ANY !in p || ANY !in t) && k <= |t|
    requires Walk(p, t).TargetEnded? && !OnlyStars(p[Walk(p, t).used..])
    ensures !Glob(p, t[k..])
    decreases |p| + |t|, 1
  {
    if t == [] {
      GlobEmptyTarget(p);
      assert p[0..] == p;
    } else if Stars(p) == 0 {
      WalkedShortLiteral(p, t, k);
    } else {
      WalkedShortStar(p, t, k);
    }
  }

  lemma {:induction false} WalkedShortStar(p: seq<Unit>, t: seq<Unit>, k: nat)
    requires (ANY !in p || ANY !in t) && k <= |t| && t != [] && Stars(p) != 0
    requires Walk(p, t).TargetEnded? && !OnlyStars(p[Walk(p, t).used..])
    ensures !Glob(p, t[k..])
    decreases |p| + |t|, 0
  {
    var s := Stars(p);
    var n, u := First(t, p[s]), Walk(p, t).used;
    assert p[s..][u - s..] == p[u..];
    if Glob(p, t[k..]) {
      var j := GlobSplit(p, s, t[k..]);
      assert t[k..][j..] == t[k + j..];
      assert k + j < |t| && t[k + j] == p[s];
      assert t[n..][k + j - n..] == t[k + j..];
      WalkedShort(p[s..], t[n..], k + j - n);
    }
  }

  lemma {:induction false} WalkedShortLiteral(p: seq<Unit>, t: seq<Unit>, k: nat)
    requires (ANY !in p || ANY !in t) && k <= |t| && t != [] && Stars(p) == 0
    requires Walk(p, t).TargetEnded? && !OnlyStars(p[Walk(p, t).used..])
    ensures !Glob(p, t[k..])
    decreases |p| + |t|, 0
  {
    if k < |t| {
      assert p[1..][Walk(p, t).used - 1..] == p[Walk(p, t).used..];
      WalkedShort(p[1..], t[1..], k);
      assert t[1..][k..] == t[k..][1..];
    }
  }

  /**
   What TRUE means, unless both texts hold a `?`: the whole pattern matches exactly when
   Match returned at a trailing star or had nothing but stars left.
   */
  lemma TrueMeansGlob(p: seq<Unit>, t: seq<Unit>)
    requires (ANY !in p || ANY !in t) && !Walk(p, t).Mismatch?
    ensures Glob(p, t) <==> (Walk(p, t).TargetEnded? ==> OnlyStars(p[Walk(p, t).used..]))
  {
    var v := Walk(p, t);
    WalkSound(p, t);
    if v.TargetEnded? {
      if OnlyStars(p[v.used..]) {
        GlobThenStars(p[..v.used], p[v.used..], t);
        assert p[..v.used] + p[v.used..] == p;
      } else {
        WalkedShort(p, t, 0);
        assert t[0..] == t;
      }
    }
  }

  lemma {:induction false} GlobThenStars(p: seq<Unit>, stars: seq<Unit>, t: seq<Unit>)
    requires Glob(p, t) && OnlyStars(stars)
    ensures Glob(p + stars, t)
    decreases |p| + |t|
  {
    var q := p + stars;
    if p == [] {
      assert q == stars;
      GlobEmptyTarget(stars);
    } else {
      assert q[1..] == p[1..] + stars;
      if p[0] == STAR {
        if Glob(p[1..], t) {
          GlobThenStars(p[1..], stars, t);
        } else {
          GlobThenStars(p, stars, t[1..]);
        }
      } else {
        GlobThenStars(p[1..], stars, t[1..]);
      }
    }
  }

  /** A pattern of ordinary characters, then at most stars. */
  ghost predicate LiteralThenStars(literal: seq<Unit>, stars: seq<Unit>) {
    STAR !in literal && ANY !in literal && OnlyStars(stars)
  }

  /**
   For a pattern with no wildcard but at its end, Match is right on every target except
   the proper beginnings of its literal part, which it accepts as well.
   */
  lemma {:induction false} LiteralExact(literal: seq<Unit>, stars: seq<Unit>, t: seq<Unit>)
    requires LiteralThenStars(literal, stars)
    ensures !Walk(literal + stars, t).Mismatch? <==> (Glob(literal + stars, t) || t < literal)
    decreases |literal|
  {
    var p := literal + stars;
    if literal == [] {
      assert p == stars;
      if t == [] {
        GlobEmptyTarget(stars);
      } else if stars != [] {
        GlobOnlyStars(stars, t);
      }
    } else {
      assert p[0] == literal[0] && p[1..] == literal[1..] + stars;
      if t != [] && t[0] == p[0] {
        LiteralExact(literal[1..], stars, t[1..]);
        assert t < literal <==> t[1..] < literal[1..] by {
          assert t == [t[0]] + t[1..] && literal == [literal[0]] + literal[1..];
        }
      }
    }
  }

  /** Match does not go back: it takes the first a of the target for the a of the pattern. */
  lemma StarDoesNotBacktrack(a: Unit, b: Unit)
    requires a != STAR && a != ANY && b != STAR && b != ANY && a != b
    ensures Glob([STAR, a, b], [a, a, b]) && Walk([STAR, a, b], [a, a, b]).Mismatch?
  {
    var p, t: seq<Unit> := [STAR, a, b], [a, a, b];
    assert p[1..] == [a, b] && t[0..] == t && t[1..] == [a, b];
    assert p[1..][1..] == [b] && t[1..][1..] == [b] && [b][1..] == [];
    GlobStarThen(p, 1, t, 1);
    assert Stars(p) == 1;
    assert Walk([b], t[1..]) == Mismatch;
    assert Walk([a, b], t) == Mismatch;
  }

  /**
   A `?` compares the unit behind it as it is, so two of them in a row ask for a `?` in the
   target.
   */
  lemma TwoAnysWantAny(a: Unit, b: Unit)
    ensures Glob([ANY, ANY], [a, b])
    ensures Walk([ANY, ANY], [a, b]).Mismatch? <==> b != ANY
  {
    var p, t: seq<Unit> := [ANY, ANY], [a, b];
    assert p[1..] == [ANY] && t[1..] == [b] && p[1..][1..] == [] && t[1..][1..] == [];
    assert Glob(p[1..], t[1..]);
    assert b == ANY ==> Walk(p[1..], t[1..]) == TargetEnded(1);
  }
}
