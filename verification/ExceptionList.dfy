/**
 The exception list of an image capture: the entries, which part of a path each of them
 compares, the list as wimg_set_exceptions builds it, and the callback that looks a path
 up in it.
 */
module ExceptionList {
  import opened Options
  import opened Text
  import opened Wildcard
  import opened WildcardLaws
  import opened LetterCase

  // ------------------------------------------------- which part of the path is compared

  /** The last backslash that is not the last unit, or the start. */
  function NameStart(t: seq<Unit>): (k: nat)
    ensures k == 0 || (k + 1 < |t| && t[k] == BACKSLASH)
    ensures forall j | k < j && j + 1 < |t| :: t[j] != BACKSLASH
  {
    NameStartFrom(t, if |t| < 2 then 0 else |t| - 2)
  }

  function NameStartFrom(t: seq<Unit>, k: nat): (r: nat)
    requires k == 0 || k < |t|
    ensures r <= k && (r == 0 || (r < |t| && t[r] == BACKSLASH))
    ensures forall j | r < j <= k :: t[j] != BACKSLASH
  {
    if k == 0 || t[k] == BACKSLASH then k else NameStartFrom(t, k - 1)
  }

  /** Behind the first backslash, unless there is nothing behind it. */
  function PathStart(t: seq<Unit>): (k: nat)
    ensures k <= |t|
  {
    var b := First(t, BACKSLASH);
    if b == |t| then 0 else if b + 1 < |t| then b + 1 else b
  }

  function Compared(fileName: bool, t: seq<Unit>): seq<Unit> {
    if fileName then t[NameStart(t)..] else t[PathStart(t)..]
  }

  /** There is a backslash before the last unit. */
  predicate InFolder(t: seq<Unit>) {
    exists k :: 0 <= k < |t| - 1 && t[k] == BACKSLASH
  }

  /** What is left of a path behind the backslash that ends its folder. */
  predicate IsNameOf(name: seq<Unit>, folder: seq<Unit>, target: seq<Unit>) {
    name != [] && !InFolder(name) && (target == name || target == folder + [BACKSLASH] + name)
  }

  /** The name is compared with the backslash in front of it, so it is the bare name only outside folders. */
  lemma ComparedName(name: seq<Unit>, folder: seq<Unit>, target: seq<Unit>)
    requires IsNameOf(name, folder, target)
    ensures Compared(true, target) == if InFolder(target) then [BACKSLASH] + name else name
    ensures Compared(true, target) == name <==> !InFolder(target)
  {
    var k := |folder|;
    if target != name {
      assert target[k] == BACKSLASH && 0 <= k < |target| - 1;
      forall j | k < j && j + 1 < |target|
        ensures target[j] != BACKSLASH
      {
        assert target[j] == name[j - k - 1];
      }
      assert NameStart(target) == k;
    }
  }

  /** A path pattern is compared with what follows the first backslash, or with the path if it has none. */
  lemma ComparedPath(volume: seq<Unit>, rest: seq<Unit>)
    requires BACKSLASH !in volume
    ensures Compared(false, volume) == volume
    ensures Compared(false, volume + [BACKSLASH] + rest) == if rest == [] then [BACKSLASH] else rest
  {
    var t := volume + [BACKSLASH] + rest;
    FirstIs(volume, BACKSLASH, |volume|);
    assert volume[0..] == volume;
    FirstIs(t, BACKSLASH, |volume|);
    if rest == [] {
      assert t[|volume|..] == [BACKSLASH];
    } else {
      assert t[|volume| + 1..] == rest;
    }
  }

  lemma FirstIs(t: seq<Unit>, u: Unit, n: nat)
    requires n <= |t| && (n < |t| ==> t[n] == u) && u !in t[..n]
    ensures First(t, u) == n
  {
    forall k | 0 <= k < n
      ensures t[k] != u
    {
      assert t[k] == t[..n][k];
    }
  }

  /** The part of a path that an entry with pattern p compares. */
  function Part(p: seq<Unit>, target: seq<Unit>): seq<Unit> {
    Compared(BACKSLASH !in p, target)
  }

  /** The verdict of Match for a pattern and a path. */
  predicate Matched(p: seq<Unit>, target: seq<Unit>) {
    !Walk(p, Part(p, target)).Mismatch?
  }

  /** The compared part is empty only for the empty path, which every pattern accepts. */
  lemma ComparedEmpty(fileName: bool, target: seq<Unit>)
    ensures Compared(fileName, target) == [] <==> target == []
  {
  }

  lemma ComparedInFolder(target: seq<Unit>)
    requires InFolder(target)
    ensures |Compared(true, target)| > 1 && Compared(true, target)[0] == BACKSLASH
  {
    var k :| 0 <= k < |target| - 1 && target[k] == BACKSLASH;
    assert k <= NameStart(target);
  }

  lemma RootOf(name: seq<Unit>)
    requires name != [] && BACKSLASH !in name
    ensures InFolder([BACKSLASH] + name) && Compared(true, [BACKSLASH] + name) == [BACKSLASH] + name
  {
    var t := [BACKSLASH] + name;
    assert t[0] == BACKSLASH;
    forall j | 0 < j && j + 1 < |t|
      ensures t[j] != BACKSLASH
    {
      assert t[j] == name[j - 1];
    }
    assert NameStart(t) == 0 && t[0..] == t;
  }

  /** A pattern read as a text is matched by itself. */
  lemma {:induction false} WalkItself(p: seq<Unit>)
    ensures !Walk(p, p).Mismatch?
    decreases |p|
  {
    if p != [] {
      if p[0] == STAR && Stars(p) < |p| {
        assert First(p, p[Stars(p)]) == Stars(p);
        WalkItself(p[Stars(p)..]);
      } else if p[0] != STAR {
        WalkItself(p[1..]);
      }
    }
  }

  /**
   A pattern without a backslash matches in some folder if and only if a star or a `?` with
   something behind it can take the backslash.
   */
  lemma FileNameInFolder(p: seq<Unit>)
    requires BACKSLASH !in p
    ensures (exists t :: InFolder(t) && Matched(p, t)) <==> p != [] && (p[0] == STAR || (p[0] == ANY && |p| > 1))
  {
    if p != [] && (p[0] == STAR || (p[0] == ANY && |p| > 1)) {
      var name := if p[0] == STAR then p else p[1..];
      var t := [BACKSLASH] + name;
      RootOf(name);
      WalkPastBackslash(p, name);
      assert InFolder(t) && Matched(p, t);
    }
    forall t | InFolder(t) && Matched(p, t)
      ensures p != [] && (p[0] == STAR || (p[0] == ANY && |p| > 1))
    {
      ComparedInFolder(t);
      assert p != [] ==> p[0] in p;
      assert Walk([], Compared(true, t)[1..]).Mismatch?;
    }
  }

  lemma WalkPastBackslash(p: seq<Unit>, name: seq<Unit>)
    requires BACKSLASH !in p && p != []
    requires (p[0] == STAR && name == p) || (p[0] == ANY && |p| > 1 && name == p[1..])
    ensures !Walk(p, [BACKSLASH] + name).Mismatch?
  {
    var t := [BACKSLASH] + name;
    if p[0] == ANY {
      assert t[1..] == name;
      WalkItself(name);
    } else if Stars(p) < |p| {
      WalkPastStars(p, Stars(p));
    }
  }

  lemma WalkPastStars(p: seq<Unit>, s: nat)
    requires BACKSLASH !in p && 0 < s == Stars(p) < |p|
    ensures !Walk(p, [BACKSLASH] + p).Mismatch?
  {
    var t, u := [BACKSLASH] + p, p[s];
    assert u in p;
    assert t[..s + 1] == [BACKSLASH] + p[..s];
    FirstIs(t, u, s + 1);
    assert t[s + 1..] == p[s..];
    WalkItself(p[s..]);
  }

  /** The same for paths that hold no wildcards: there a `?` has to be the only one in front. */
  lemma FileNameInRealFolder(p: seq<Unit>)
    requires BACKSLASH !in p && NUL !in p
    ensures (exists t :: Ordinary(t) && InFolder(t) && Matched(p, t)) <==> TakesBackslash(p)
  {
    if TakesBackslash(p) {
      var t := TakenName(p);
      assert Matched(p, t);
    }
    forall t | Ordinary(t) && InFolder(t) && Matched(p, t)
      ensures TakesBackslash(p)
    {
      ComparedInFolder(t);
      NotTaken(p, Compared(true, t));
    }
  }

  /** A path in a folder that such a pattern matches. */
  lemma TakenName(p: seq<Unit>) returns (t: seq<Unit>)
    requires BACKSLASH !in p && NUL !in p && TakesBackslash(p)
    ensures Ordinary(t) && InFolder(t) && Matched(p, t)
  {
    var u := if Front(p) < |p| then p[Front(p)] else SOME;
    t := [BACKSLASH, u];
    assert Front(p) < |p| ==> u in p;
    assert t == [BACKSLASH] + [u];
    RootOf([u]);
    WalkTwoUnits(p, t);
  }

  /** Stars and no `?` behind them, or one `?` and a unit that is no wildcard behind it. */
  predicate TakesBackslash(p: seq<Unit>) {
    p != [] && IsWildcard(p[0]) && (if Front(p) < |p| then !IsWildcard(p[Front(p)]) else p[0] == STAR)
  }

  lemma WalkTwoUnits(p: seq<Unit>, t: seq<Unit>)
    requires BACKSLASH !in p && TakesBackslash(p) && |t| == 2 && t[0] == BACKSLASH
    requires Front(p) < |p| ==> t[1] == p[Front(p)]
    ensures !Walk(p, t).Mismatch?
  {
    var f := Front(p);
    if f < |p| {
      var q, rest := p[f..], t[1..];
      assert p[f] in p;
      assert rest[1..] == [] && !Walk(q, rest).Mismatch?;
      if p[0] == STAR {
        assert First(t, p[f]) == 1;
      }
    } else {
      assert Stars(p) == |p|;
    }
  }

  lemma NotTaken(p: seq<Unit>, t: seq<Unit>)
    requires BACKSLASH !in p && |t| > 1 && t[0] == BACKSLASH && Ordinary(t) && !Walk(p, t).Mismatch?
    ensures TakesBackslash(p)
  {
    assert p != [] ==> p[0] in p;
    assert t[1] in t;
    if p[0] == STAR && Stars(p) < |p| {
      assert First(t, ANY) == |t|;
    }
  }

  /**
   A pattern that starts with a backslash is compared with what follows the first backslash
   of the path. So what matches is a path with two backslashes in a row there, or with nothing
   behind its only one.
   */
  lemma LeadingBackslash(p: seq<Unit>, volume: seq<Unit>, rest: seq<Unit>)
    requires p != [] && p[0] == BACKSLASH && BACKSLASH !in volume
    ensures Matched(p, volume) <==> volume == []
    ensures Matched(p, volume + [BACKSLASH] + rest) <==>
            rest == [] || (rest[0] == BACKSLASH && !Walk(p[1..], rest[1..]).Mismatch?)
  {
    assert BACKSLASH in p;
    assert volume != [] ==> volume[0] in volume;
    ComparedPath(volume, rest);
    var one: seq<Unit> := [BACKSLASH];
    assert one[1..] == [];
    assert Walk(p, one) == Behind(Walk(p[1..], []), 1);
  }

  // ---------------------------------------------- the conditions of the walk, on paths

  /** A path of which x is the part compared. */
  function PathTo(p: seq<Unit>, x: seq<Unit>): seq<Unit> {
    if BACKSLASH in p then [BACKSLASH] + x else x
  }

  lemma PathToIs(p: seq<Unit>, x: seq<Unit>)
    requires x != [] && (BACKSLASH in p || BACKSLASH !in x)
    ensures PathTo(p, x) != [] && Part(p, PathTo(p, x)) == x
    ensures Ordinary(x) ==> Ordinary(PathTo(p, x))
  {
    var t := PathTo(p, x);
    if BACKSLASH in p {
      assert First(t, BACKSLASH) == 0 && t[1..] == x;
    } else {
      assert NameStart(t) == 0 && t[0..] == t;
    }
  }

  lemma ComparedOrdinary(fileName: bool, t: seq<Unit>)
    requires Ordinary(t)
    ensures Ordinary(Compared(fileName, t))
  {
  }

  lemma {:induction false} NoNewBackslash(p: seq<Unit>)
    requires BACKSLASH !in p
    ensures BACKSLASH !in Instance(p) && BACKSLASH !in Missed(p)
  {
    if p != [] {
      assert p[0] in p && (|p| > 1 ==> p[1] in p);
      NoNewBackslash(p[1..]);
    }
  }

  /**
   On which patterns Match is right, for whole paths without wildcards in them: in its FALSE,
   in its TRUE on all paths but the empty one, and in both.
   */
  lemma MatchIsGlobOnPaths(p: seq<Unit>)
    requires NUL !in p
    ensures Sparse(p) <==>
            forall t | Ordinary(t) :: !Matched(p, t) ==> !Glob(p, Part(p, t))
    ensures OneUnit(p) <==>
            forall t | Ordinary(t) && t != [] :: Matched(p, t) ==> Glob(p, Part(p, t))
    ensures Sparse(p) && OneUnit(p) <==>
            forall t | Ordinary(t) && t != [] :: Matched(p, t) <==> Glob(p, Part(p, t))
  {
    var fileName := BACKSLASH !in p;
    FalseIsRight(p);
    TrueIsRight(p);
    forall t | Ordinary(t)
      ensures Ordinary(Part(p, t)) && (t != [] ==> Part(p, t) != [])
    {
      ComparedOrdinary(fileName, t);
      ComparedEmpty(fileName, t);
    }
    if !Sparse(p) {
      MissedOnPath(p);
    }
    if !OneUnit(p) {
      AcceptedOnPath(p);
    }
  }

  lemma MissedOnPath(p: seq<Unit>)
    requires NUL !in p && !Sparse(p)
    ensures exists t :: Ordinary(t) && t != [] && !Matched(p, t) && Glob(p, Part(p, t))
  {
    MissedMatches(p);
    MissedIsMissed(p);
    if BACKSLASH !in p {
      NoNewBackslash(p);
    }
    PathToIs(p, Missed(p));
    assert !Matched(p, PathTo(p, Missed(p)));
  }

  lemma AcceptedOnPath(p: seq<Unit>)
    requires NUL !in p && !OneUnit(p)
    ensures exists t :: Ordinary(t) && t != [] && Matched(p, t) && !Glob(p, Part(p, t))
  {
    AcceptedTooSoon(p);
    assert p[Front(p)] in p;
    PathToIs(p, Accepted(p));
    assert Matched(p, PathTo(p, Accepted(p)));
  }

  lemma ComparedLower(lower: Unit -> Unit, fileName: bool, t: seq<Unit>)
    requires Lowers(lower)
    ensures Compared(fileName, Lower(lower, t)) == Lower(lower, Compared(fileName, t))
  {
    var t' := Lower(lower, t);
    assert forall k | 0 <= k < |t| :: t'[k] == BACKSLASH <==> t[k] == BACKSLASH;
    FirstLower(lower, t, BACKSLASH);
    if fileName {
      assert NameStart(t') == NameStart(t);
      LowerFrom(lower, t, NameStart(t));
    } else {
      LowerFrom(lower, t, PathStart(t));
    }
  }

  /**
   The case of a path never matters if and only if no unit of the pattern is the lower case
   of another unit; and for paths without wildcards in them, if and only if that holds as far
   as a path can be compared.
   */
  lemma CaseIgnoredByMatch(lower: Unit -> Unit, p: seq<Unit>)
    requires Lowers(lower) && Lower(lower, p) == p && NUL !in p
    ensures AllLeft(lower, p) <==> forall t :: Matched(p, t) <==> Matched(p, Lower(lower, t))
    ensures CaseFree(lower, p) <==> forall t | Ordinary(t) :: Matched(p, t) <==> Matched(p, Lower(lower, t))
  {
    if AllLeft(lower, p) {
      forall t
        ensures Matched(p, t) <==> Matched(p, Lower(lower, t))
      {
        CaseIgnored(lower, p);
        ComparedLower(lower, BACKSLASH !in p, t);
      }
    } else {
      var k :| 0 <= k < |p| && !Leaves(lower, p[k]);
      var x := CaseWitness(lower, p, k);
      CaseOnPath(lower, p, x);
    }
    CaseIgnoredByMatchOnPaths(lower, p);
  }

  lemma CaseIgnoredByMatchOnPaths(lower: Unit -> Unit, p: seq<Unit>)
    requires Lowers(lower) && Lower(lower, p) == p && NUL !in p
    ensures CaseFree(lower, p) <==> forall t | Ordinary(t) :: Matched(p, t) <==> Matched(p, Lower(lower, t))
  {
    if CaseFree(lower, p) {
      forall t | Ordinary(t)
        ensures Matched(p, t) <==> Matched(p, Lower(lower, t))
      {
        SameCase(lower, p, Part(p, t));
        ComparedLower(lower, BACKSLASH !in p, t);
      }
    } else {
      WrongCaseMissed(lower, p);
      WrongCaseNoBackslash(lower, p);
      CaseOnPath(lower, p, WrongCase(lower, p));
    }
  }

  lemma CaseOnPath(lower: Unit -> Unit, p: seq<Unit>, x: seq<Unit>)
    requires Lowers(lower) && x != [] && (BACKSLASH !in p ==> BACKSLASH !in x)
    requires Walk(p, x).Mismatch? && !Walk(p, Lower(lower, x)).Mismatch?
    ensures var t := PathTo(p, x);
            !Matched(p, t) && Matched(p, Lower(lower, t)) && (Ordinary(x) ==> Ordinary(t))
  {
    PathToIs(p, x);
    ComparedLower(lower, BACKSLASH !in p, PathTo(p, x));
  }

  lemma {:induction false} WrongCaseNoBackslash(lower: Unit -> Unit, p: seq<Unit>)
    requires Lowers(lower) && Lower(lower, p) == p && !CaseFree(lower, p)
    ensures BACKSLASH !in p ==> BACKSLASH !in WrongCase(lower, p)
  {
    assert Lower(lower, p)[0] == p[0] && Lower(lower, p[1..]) == Lower(lower, p)[1..];
    assert p[0] in p;
    if Leaves(lower, p[0]) {
      WrongCaseNoBackslash(lower, p[1..]);
    }
  }

  // ------------------------------------------------------------------- the entries

  class MatchEntry {
    var next: MatchEntry?
    var matchString: seq<Unit>
    var fileName: bool

    constructor (copyFrom: seq<Unit>, lower: Unit -> Unit)
      requires Lowers(lower)
      ensures next == null && matchString == Lower(lower, copyFrom) == Lower(lower, matchString)
      ensures Valid()
    {
      next := null;
      fileName := FindLast(copyFrom, BACKSLASH).None?;
      matchString := Lower(lower, copyFrom);
      LowerKeeps(lower, copyFrom, BACKSLASH);
    }

    /** An entry is a file-name pattern exactly when the pattern it compares has no backslash. */
    predicate Valid()
      reads this
    {
      fileName <==> BACKSLASH !in matchString
    }

    /** The verdict of Match on a target. */
    predicate Matches(target: seq<Unit>)
      reads this
    {
      !Walk(matchString, Compared(fileName, target)).Mismatch?
    }

    /** The first half of Match: where the comparison starts. */
    method Start(target: seq<Unit>) returns (t: nat)
      requires NUL !in target
      ensures t <= |target| && target[t..] == Compared(fileName, target)
    {
      t := 0;
      if fileName {
        var sp := 0;
        while t < |target|
          invariant t <= |target| && sp <= t && (sp == 0 || (sp + 1 < |target| && target[sp] == BACKSLASH))
          invariant forall j | sp < j < t && j + 1 < |target| :: target[j] != BACKSLASH
          invariant sp < t || t == 0
        {
          if target[t] == BACKSLASH && At(target, t + 1) != NUL {
            sp := t;
          }
          t := t + 1;
        }
        t := sp;
        assert sp == NameStart(target);
      } else {
        while t < |target| && target[t] != BACKSLASH
          invariant t <= |target|
          invariant forall j | 0 <= j < t :: target[j] != BACKSLASH
        {
          t := t + 1;
        }
        if t == |target| {
          t := 0;
        } else if At(target, t + 1) != NUL {
          t := t + 1;
        }
      }
    }

    /** The first position from m on that holds no star. */
    method SkipStars(m: nat) returns (m': nat)
      requires m <= |matchString|
      ensures m' == m + Stars(matchString[m..])
    {
      m' := m;
      ghost var p := matchString[m..];
      while At(matchString, m') == STAR
        invariant m <= m' <= m + Stars(p)
        decreases |matchString| - m'
      {
        m' := m' + 1;
      }
    }

    /** The first position from t on that holds u, or the end of the target. */
    static method SkipTo(target: seq<Unit>, t: nat, u: Unit) returns (t': nat)
      requires t <= |target|
      ensures t' == t + First(target[t..], u)
    {
      t' := t;
      ghost var rest := target[t..];
      while t' < |target| && target[t'] != u
        invariant t <= t' <= t + First(rest, u)
      {
        t' := t' + 1;
      }
    }

    /** One turn of the outer loop; the result is there if Match returns in it. */
    method Turn(target: seq<Unit>, t: nat, m: nat) returns (t': nat, m': nat, result: Option<bool>)
      requires NUL !in target && NUL !in matchString && t < |target| && m <= |matchString|
      ensures match result
              case Some(b) => b == !Fails(matchString, m, target, t)
              case None => && t <= t' <= |target| && m < m' <= |matchString|
                           && Fails(matchString, m', target, t') == Fails(matchString, m, target, t)
    {
      WalkAt(matchString, m, target, t);
      t', m', result := t, m, None;
      if At(matchString, m) == STAR {
        m' := SkipStars(m);
        if m' == |matchString| {
          return t', m', Some(true);
        }
        t' := SkipTo(target, t, matchString[m']);
        if t' == |target| {
          return t', m', Some(false);
        }
      } else if At(matchString, m) == ANY {
        m' := m + 1;
        t' := t + 1;
        if At(target, t') != At(matchString, m') {
          return t', m', Some(false);
        }
      } else {
        if At(matchString, m) != target[t] {
          return t', m', Some(false);
        }
        m' := m + 1;
        t' := t + 1;
      }
    }

    /** The second half: the walk, and how many turns of the outer loop it takes. */
    method Compare(target: seq<Unit>, start: nat) returns (matched: bool, ghost turns: nat)
      requires NUL !in target && NUL !in matchString && start <= |target|
      ensures matched <==> !Walk(matchString, target[start..]).Mismatch?
      ensures turns <= |matchString| + 1
    {
      var t: nat, m: nat := start, 0;
      turns := 0;
      assert matchString[0..] == matchString;
      while t < |target|
        invariant t <= |target| && m <= |matchString| && turns <= m
        invariant Fails(matchString, m, target, t) == Fails(matchString, 0, target, start)
        decreases |matchString| - m
      {
        turns := turns + 1;
        var result;
        t, m, result := Turn(target, t, m);
        if result.Some? {
          return result.value, turns;
        }
      }
      matched := true;
    }

    method Match(target: seq<Unit>) returns (matched: bool)
      requires NUL !in target && NUL !in matchString
      ensures matched <==> Matches(target)
    {
      var t := Start(target);
      ghost var turns;
      matched, turns := Compare(target, t);
    }
  }

  /** The entries from head on, as the next pointers chain them. */
  ghost predicate Chain(head: MatchEntry?, entries: seq<MatchEntry>)
    reads entries
  {
    if entries == [] then head == null
    else head == entries[0] && Chain(entries[0].next, entries[1..])
  }

  /** Some pattern of a list matches the path. */
  predicate Excepted(lower: Unit -> Unit, patterns: seq<seq<Unit>>, target: seq<Unit>) {
    exists i :: 0 <= i < |patterns| && Matched(Lower(lower, patterns[i]), target)
  }

  /**
   The list wimg_set_exceptions builds, each new entry in front. It excepts exactly the paths
   that some pattern, in lower case, matches.
   */
  method SetExceptions(patterns: seq<seq<Unit>>, lower: Unit -> Unit)
    returns (head: MatchEntry?, ghost entries: seq<MatchEntry>)
    requires Lowers(lower) && forall p | p in patterns :: NUL !in p
    ensures Chain(head, entries) && |entries| == |patterns| && fresh(entries)
    ensures forall e | e in entries :: e.Valid() && NUL !in e.matchString
    ensures forall i | 0 <= i < |patterns| :: entries[|patterns| - 1 - i].matchString == Lower(lower, patterns[i])
    ensures forall target :: (exists e :: e in entries && e.Matches(target)) <==> Excepted(lower, patterns, target)
  {
    head, entries := null, [];
    for j := 0 to |patterns|
      invariant Chain(head, entries) && |entries| == j && fresh(entries)
      invariant forall e | e in entries :: e.Valid() && NUL !in e.matchString
      invariant forall i | 0 <= i < j :: entries[j - 1 - i].matchString == Lower(lower, patterns[i])
    {
      var me := new MatchEntry(patterns[j], lower);
      LowerKeeps(lower, patterns[j], NUL);
      me.next := head;
      assert Chain(head, entries) && ([me] + entries)[1..] == entries;
      entries := [me] + entries;
      head := me;
    }
    ListExcepts(lower, patterns, entries);
  }

  lemma ListExcepts(lower: Unit -> Unit, patterns: seq<seq<Unit>>, entries: seq<MatchEntry>)
    requires |entries| == |patterns| && forall e | e in entries :: e.Valid()
    requires forall i | 0 <= i < |patterns| :: entries[|patterns| - 1 - i].matchString == Lower(lower, patterns[i])
    ensures forall target :: (exists e :: e in entries && e.Matches(target)) <==> Excepted(lower, patterns, target)
  {
    forall target
      ensures (exists e :: e in entries && e.Matches(target)) <==> Excepted(lower, patterns, target)
    {
      if e :| e in entries && e.Matches(target) {
        var k :| 0 <= k < |entries| && entries[k] == e;
        var i := |patterns| - 1 - k;
        assert entries[|patterns| - 1 - i].matchString == Lower(lower, patterns[i]);
        assert Matched(Lower(lower, patterns[i]), target);
      }
      if Excepted(lower, patterns, target) {
        var i :| 0 <= i < |patterns| && Matched(Lower(lower, patterns[i]), target);
        assert entries[|patterns| - 1 - i] in entries && entries[|patterns| - 1 - i].Matches(target);
      }
    }
  }

  /** The third message behind WIM_MSG, which is WM_APP + 0x1476. */
  const WIM_MSG_PROCESS: nat := 0x8000 + 0x1476 + 3

  /**
   ExceptionCallback: for a file about to be captured, the verdict is whether no entry of
   the list matches its path; for any other message the verdict is left alone.
   */
  method ExceptionCallback(messageID: nat, head: MatchEntry?, file: seq<Unit>, processThis: bool,
                           ghost entries: seq<MatchEntry>)
    returns (verdict: bool)
    requires Chain(head, entries) && NUL !in file && forall e | e in entries :: NUL !in e.matchString
    ensures messageID == WIM_MSG_PROCESS ==> (verdict <==> forall e | e in entries :: !e.Matches(file))
    ensures messageID != WIM_MSG_PROCESS ==> verdict == processThis
  {
    if messageID != WIM_MSG_PROCESS {
      return processThis;
    }
    var myHead := head;
    ghost var i := 0;
    while myHead != null
      invariant 0 <= i <= |entries| && Chain(myHead, entries[i..])
      invariant forall j | 0 <= j < i :: !entries[j].Matches(file)
      decreases |entries| - i
    {
      assert myHead == entries[i] && entries[i..][1..] == entries[i + 1..];
      var matched := myHead.Match(file);
      if matched {
        break;
      }
      myHead := myHead.next;
      i := i + 1;
    }
    verdict := myHead == null;
  }
}
