/** The ring of a party (white-box/party.go, modFloor and getNeighbors): members in sorted
    order, each linked to the positions one before, one after and two after it. */
module Ring {

  // ------------------------------------------------------------------ modFloor

  /** Go's `%` for a positive divisor: the result takes the sign of the dividend. */
  function GoRem(a: int, m: int): int
    requires m > 0
  {
    if a >= 0 then a % m else -((-a) % m)
  }

  function ModFloor(i: int, m: int): int
    requires m > 0
  {
    GoRem(GoRem(i, m) + m, m)
  }

  lemma SmallMod(x: int, m: int)
    requires 0 <= x < 2 * m
    ensures x % m == if x < m then x else x - m
  {
    if x >= m {
      ModUnique(x, m, 1, x - m);
    } else {
      ModUnique(x, m, 0, x);
    }
  }

  lemma {:induction false} MulAtLeast(k: int, m: int)
    requires k >= 1 && m > 0
    ensures k * m >= m
  {
    if k > 1 {
      MulAtLeast(k - 1, m);
      assert k * m == (k - 1) * m + m;
    }
  }

  lemma ModUnique(x: int, m: int, q: int, r: int)
    requires m > 0 && x == q * m + r && 0 <= r < m
    ensures x % m == r
  {
    QuotientUnique(m, q, r, x / m, x % m);
  }

  lemma QuotientUnique(m: int, q: int, r: int, q': int, r': int)
    requires m > 0 && q * m + r == q' * m + r' && 0 <= r < m && 0 <= r' < m
    ensures r == r'
  {
    assert (q - q') * m == q * m - q' * m;
    assert (q' - q) * m == q' * m - q * m;
    if q > q' {
      MulAtLeast(q - q', m);
    } else if q < q' {
      MulAtLeast(q' - q, m);
    }
  }

  /** modFloor is the mathematical modulus, for negative numbers too. */
  lemma ModFloorIsMod(i: int, m: int)
    requires m > 0
    ensures ModFloor(i, m) == i % m
    ensures 0 <= ModFloor(i, m) < m
  {
    if i >= 0 {
      SmallMod(i % m + m, m);
    } else {
      var q, r := (-i) / m, (-i) % m;
      assert -i == q * m + r;
      SmallMod(m - r, m);
      if r == 0 {
        assert i == (-q) * m + 0;
        ModUnique(i, m, -q, 0);
      } else {
        assert i == (-q - 1) * m + (m - r);
        ModUnique(i, m, -q - 1, m - r);
      }
    }
  }

  // ------------------------------------------------------------------ positions

  /** k places after i, for k up to n. */
  function After(n: nat, i: nat, k: nat): (r: nat)
    requires i < n && k <= n
    ensures r < n
  {
    if i + k < n then i + k else i + k - n
  }

  function Before(n: nat, i: nat): (r: nat)
    requires i < n
    ensures r < n
  {
    if i == 0 then n - 1 else i - 1
  }

  /** The neighbours of position i among n; a ring of one has nothing two places on but itself. */
  function Neighbors(n: nat, i: nat): (r: set<nat>)
    requires i < n
    ensures forall j :: j in r ==> j < n
  {
    {Before(n, i), After(n, i, 1), if n == 1 then 0 else After(n, i, 2)}
  }

  /** These are the positions that the code computes, in rings of every size. */
  lemma NeighborsAreModFloors(n: nat, i: nat)
    requires i < n
    ensures 0 <= ModFloor(i - 1, n) < n && 0 <= ModFloor(i + 1, n) < n && 0 <= ModFloor(i + 2, n) < n
    ensures Neighbors(n, i) == {ModFloor(i - 1, n), ModFloor(i + 1, n), ModFloor(i + 2, n)}
  {
    ModFloorIsMod(i - 1, n);
    ModFloorIsMod(i + 1, n);
    ModFloorIsMod(i + 2, n);
    if i == 0 {
      ModUnique(-1, n, -1, n - 1);
    } else {
      SmallMod(i - 1, n);
    }
    SmallMod(i + 1, n);
    if n > 1 {
      SmallMod(i + 2, n);
    }
  }

  lemma NeighborsAre(n: nat, i: nat, k: nat)
    requires i < n
    ensures k + 1 <= n ==> After(n, i, k + 1) in Neighbors(n, After(n, i, k))
    ensures k + 2 <= n ==> After(n, i, k + 2) in Neighbors(n, After(n, i, k))
    ensures k + 1 <= n ==> After(n, i, k) in Neighbors(n, After(n, i, k + 1))
  {
  }

  lemma ReachedFrom(n: nat, i: nat, j: nat) returns (k: nat)
    requires i < n && j < n
    ensures k < n && After(n, i, k) == j
  {
    k := if j >= i then j - i else j + n - i;
  }

  // ------------------------------------------------------------------ fault tolerance

  /** c holds every surviving neighbour of its surviving members. */
  ghost predicate ClosedUnder(n: nat, dead: set<nat>, c: set<nat>) {
    forall i, j :: i in c && i < n && i !in dead && j in Neighbors(n, i) && j !in dead ==> j in c
  }

  ghost predicate AdjacentDead(n: nat, dead: set<nat>, r: nat) {
    r < n && r in dead && After(n, r, 1) in dead
  }

  /** No two adjacent members are dead: the links +1 and +2 lead all the way round. */
  lemma {:induction false} RoundTheRing(n: nat, dead: set<nat>, c: set<nat>, a: nat, k: nat)
    requires a < n && a in c && a !in dead && k < n && ClosedUnder(n, dead, c)
    requires forall r :: !AdjacentDead(n, dead, r)
    ensures After(n, a, k) !in dead ==> After(n, a, k) in c
    decreases k
  {
    if k > 0 && After(n, a, k) !in dead {
      RoundTheRing(n, dead, c, a, k - 1);
      NeighborsAre(n, a, k - 1);
      if After(n, a, k - 1) in dead {
        assert k >= 2;
        RoundTheRing(n, dead, c, a, k - 2);
        assert After(n, After(n, a, k - 2), 1) == After(n, a, k - 1);
        assert !AdjacentDead(n, dead, After(n, a, k - 2));
        NeighborsAre(n, a, k - 2);
      }
    }
  }

  /** Two adjacent members are dead: the others form a line, walked by +1 and by -1. */
  lemma {:induction false} AlongTheLine(n: nat, dead: set<nat>, c: set<nat>, s: nat, d: nat, k: nat)
    requires s < n && d < n && k < n && After(n, s, d) in c && ClosedUnder(n, dead, c)
    requires forall l :: (d <= l <= k || k <= l <= d) ==> After(n, s, l) !in dead
    ensures After(n, s, k) in c
    decreases if k >= d then k - d else d - k
  {
    if k > d {
      AlongTheLine(n, dead, c, s, d, k - 1);
      NeighborsAre(n, s, k - 1);
    } else if k < d {
      AlongTheLine(n, dead, c, s, d, k + 1);
      NeighborsAre(n, s, k);
    }
  }

  /** Whatever one or two members die, a closed set with one survivor has them all. */
  lemma ClosedIsAll(n: nat, dead: set<nat>, c: set<nat>, a: nat, b: nat)
    requires |dead| <= 2 && ClosedUnder(n, dead, c)
    requires a < n && a in c && a !in dead && b < n && b !in dead
    ensures b in c
  {
    if r: nat :| AdjacentDead(n, dead, r) {
      var r1 := After(n, r, 1);
      assert a != r && a != r1 && n > 2;
      OnlyTwo(dead, r, r1);
      var s := After(n, r, 2);
      var d := ReachedFrom(n, s, a);
      var k := ReachedFrom(n, s, b);
      assert After(n, s, n - 2) == r && After(n, s, n - 1) == r1;
      assert d < n - 2 && k < n - 2;
      AlongTheLine(n, dead, c, s, d, k);
    } else {
      var k := ReachedFrom(n, a, b);
      RoundTheRing(n, dead, c, a, k);
    }
  }

  lemma OnlyTwo(dead: set<nat>, r: nat, s: nat)
    requires |dead| <= 2 && r in dead && s in dead && r != s
    ensures dead == {r, s}
  {
    var rest := dead - {r, s};
    assert |dead| == |rest| + 2 by {
      assert dead == rest + {r, s};
    }
  }

  ghost predicate StepAt(n: nat, path: seq<nat>, k: int) {
    0 <= k < |path| - 1 && path[k] < n && path[k + 1] in Neighbors(n, path[k])
  }

  /** A path over surviving neighbours. */
  ghost predicate IsPath(n: nat, dead: set<nat>, path: seq<nat>) {
    && (forall k :: 0 <= k < |path| ==> path[k] < n && path[k] !in dead)
    && (forall k :: 0 <= k < |path| - 1 ==> StepAt(n, path, k))
  }

  ghost predicate PathFromTo(n: nat, dead: set<nat>, path: seq<nat>, a: nat, b: nat) {
    IsPath(n, dead, path) && path != [] && path[0] == a && path[|path| - 1] == b
  }

  ghost predicate Reaches(n: nat, dead: set<nat>, a: nat, b: nat) {
    exists path :: PathFromTo(n, dead, path, a, b)
  }

  lemma ExtendPath(n: nat, dead: set<nat>, path: seq<nat>, a: nat, i: nat, j: nat)
    requires PathFromTo(n, dead, path, a, i) && j < n && j in Neighbors(n, i) && j !in dead
    ensures PathFromTo(n, dead, path + [j], a, j)
  {
    var longer := path + [j];
    forall k | 0 <= k < |longer| - 1
      ensures StepAt(n, longer, k)
    {
      assert k < |path| - 1 ==> StepAt(n, path, k);
    }
  }

  lemma ReachesNext(n: nat, dead: set<nat>, a: nat, i: nat, j: nat)
    requires Reaches(n, dead, a, i) && i < n && j in Neighbors(n, i) && j !in dead
    ensures j < n && Reaches(n, dead, a, j)
  {
    var path :| PathFromTo(n, dead, path, a, i);
    ExtendPath(n, dead, path, a, i, j);
  }

  /** A path does not leave a closed set. */
  lemma {:induction false} PathStaysIn(n: nat, dead: set<nat>, c: set<nat>, path: seq<nat>, k: nat)
    requires IsPath(n, dead, path) && ClosedUnder(n, dead, c) && k < |path| && path[0] in c
    ensures path[k] in c
    decreases k
  {
    if k > 0 {
      PathStaysIn(n, dead, c, path, k - 1);
      assert StepAt(n, path, k - 1);
    }
  }

  /** The ring stays strongly connected among the survivors when any one or two members are
      taken out, for rings of every size. */
  lemma SurvivorsConnected(n: nat, dead: set<nat>, a: nat, b: nat)
    requires |dead| <= 2 && a < n && a !in dead && b < n && b !in dead
    ensures Reaches(n, dead, a, b)
  {
    var c := set i: nat | i < n && Reaches(n, dead, a, i);
    assert PathFromTo(n, dead, [a], a, a);
    forall i, j | i in c && i < n && i !in dead && j in Neighbors(n, i) && j !in dead
      ensures j in c
    {
      ReachesNext(n, dead, a, i, j);
    }
    ClosedIsAll(n, dead, c, a, b);
  }

  /** Two is the most: of five members, three can die so that position 0 no longer reaches
      position 3, although 3 still reaches 0. */
  lemma ThreeCanCut()
    ensures !Reaches(5, {1, 2, 4}, 0, 3)
    ensures Reaches(5, {1, 2, 4}, 3, 0)
  {
    assert Neighbors(5, 0) == {4, 1, 2};
    assert ClosedUnder(5, {1, 2, 4}, {0});
    if Reaches(5, {1, 2, 4}, 0, 3) {
      var path :| PathFromTo(5, {1, 2, 4}, path, 0, 3);
      PathStaysIn(5, {1, 2, 4}, {0}, path, |path| - 1);
    }
    assert IsPath(5, {1, 2, 4}, [3]);
    ExtendPath(5, {1, 2, 4}, [3], 3, 3, 0);
  }
}
