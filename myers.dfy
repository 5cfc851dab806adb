/**
 * The greedy diff of diff/myers.go (section 3 of Myers, "An O(ND)
 * Difference Algorithm", 1986).
 *
 * Round i visits the diagonals j = -i, -i + 2, ..., i. On diagonal j a path
 * ends at (x, y) with y = x - j, where x counts elements of oldSeq and y
 * elements of newSeq. The path for diagonal j either steps down from
 * diagonal j + 1 (an Added entry) or right from diagonal j - 1 (a Removed
 * entry), then follows equal elements as Common entries (the snake). The
 * first path to reach x >= len(oldSeq) and y >= len(newSeq) is returned.
 *
 * The frontier map keeps, per diagonal, the furthest x and the script that
 * got there; a missing key reads as Go's zero value.
 *
 * A down step may leave newSeq (y > len(newSeq)); myers.go then falls into
 * its Removed branch and repeats an old element. Such paths are proved never
 * to be returned: the path two diagonals to the right is always further
 * along, so no path ever steps right off one of them.
 */
module Myers {
  import opened Wrappers
  import opened DiffResult

  /** Frontier: the furthest x reached on a diagonal and the script that reached it. */
  datatype Frontier<T> = Frontier(x: int, history: seq<Entry<T>>)

  /** frontier[k]: a missing key reads as the zero Frontier. */
  function Lookup<T>(frontier: map<int, Frontier<T>>, k: int): (f: Frontier<T>)
    ensures k !in frontier ==> f == Frontier(0, [])
    ensures k in frontier ==> f == frontier[k]
  {
    if k in frontier then frontier[k] else Frontier(0, [])
  }

  function Min(a: int, b: int): int { if a <= b then a else b }

  /** Diagonal k is visited in round r; before round 0 (r = -1) only the seed on diagonal 1 exists. */
  predicate InRound(k: int, r: int)
  {
    if r < 0 then k == 1 else -r <= k <= r && (k + r) % 2 == 0
  }

  /**
   * A script for the point (x, y) inside newSeq: its old side is the first
   * x elements of oldSeq (all of them once x passes the end), its new side
   * the first y elements of newSeq, and it is numbered from (0, 0).
   */
  ghost predicate Rebuilds<T>(oldSeq: seq<T>, newSeq: seq<T>, x: int, y: int, h: seq<Entry<T>>)
    requires 0 <= x && 0 <= y <= |newSeq|
  {
    OldSide(h) == oldSeq[..Min(x, |oldSeq|)] && NewSide(h) == newSeq[..y] && Numbered(h, 0, 0)
  }

  /**
   * What holds of the path kept on diagonal k after round r: it lies in the
   * quadrant, has taken at least r steps (x + y >= r), has not reached the
   * end, and rebuilds the prefixes it covers unless it has left newSeq.
   */
  ghost predicate Good<T>(oldSeq: seq<T>, newSeq: seq<T>, k: int, f: Frontier<T>, r: int)
  {
    var y := f.x - k;
    && 0 <= f.x && 0 <= y && f.x + y >= r
    && !(f.x >= |oldSeq| && y >= |newSeq|)
    && (y <= |newSeq| ==> Rebuilds(oldSeq, newSeq, f.x, y, f.history))
  }

  /**
   * The frontier after round r: every diagonal of the round holds a Good
   * path; a path that has left newSeq is behind the one two diagonals to
   * its right; the rightmost path has not left newSeq.
   */
  ghost predicate RoundDone<T>(oldSeq: seq<T>, newSeq: seq<T>, frontier: map<int, Frontier<T>>, r: int)
  {
    && (forall k :: InRound(k, r) ==> Good(oldSeq, newSeq, k, Lookup(frontier, k), r))
    && (forall k :: InRound(k, r) && k < r && Lookup(frontier, k).x - k > |newSeq| ==>
          Lookup(frontier, k + 2).x > Lookup(frontier, k).x)
    && Lookup(frontier, r).x - r <= |newSeq|
  }

  /** What the path for diagonal j in round d needs of the paths it may extend. */
  ghost predicate ParentsOk<T>(oldSeq: seq<T>, newSeq: seq<T>, frontier: map<int, Frontier<T>>, d: int, j: int)
  {
    && d >= 0 && InRound(j, d)
    && (d == 0 ==> Lookup(frontier, 1) == Frontier(0, []))
    && (d > 0 ==>
        && (j > -d ==> Good(oldSeq, newSeq, j - 1, Lookup(frontier, j - 1), d - 1))
        && (j < d ==> Good(oldSeq, newSeq, j + 1, Lookup(frontier, j + 1), d - 1))
        && (-d < j < d && Lookup(frontier, j - 1).x - (j - 1) > |newSeq| ==>
              Lookup(frontier, j + 1).x > Lookup(frontier, j - 1).x)
        && (j == d ==> Lookup(frontier, j - 1).x - (j - 1) <= |newSeq|))
  }

  /**
   * Round d up to diagonal j: the previous round's paths (in `prev`) are
   * untouched, the diagonals before j hold Good paths, a path before j that
   * has left newSeq is behind the one two diagonals to its right, and the
   * last one written, if it has left newSeq, came down from diagonal j - 1.
   */
  ghost predicate Partial<T>(oldSeq: seq<T>, newSeq: seq<T>, prev: map<int, Frontier<T>>, frontier: map<int, Frontier<T>>, d: int, j: int)
  {
    && d >= 0 && -d <= j <= d + 2 && (j + d) % 2 == 0
    && (d == 0 ==> prev == map[1 := Frontier(0, [])])
    && (d > 0 ==> RoundDone(oldSeq, newSeq, prev, d - 1))
    && Kept(prev, frontier, d)
    && GoodBefore(oldSeq, newSeq, frontier, d, j)
    && BehindBefore(newSeq, frontier, d, j)
    && (-d < j <= d && Lookup(frontier, j - 2).x - (j - 2) > |newSeq| ==>
          Lookup(frontier, j - 2).x == Lookup(prev, j - 1).x)
    && (j == d + 2 ==> Lookup(frontier, d).x - d <= |newSeq|)
  }

  /**
   * What the path f computed for diagonal j in round d satisfies: it lies
   * in the quadrant and has taken at least d steps; it rebuilds the
   * prefixes it covers unless it has left newSeq; it does not stop past the
   * end of newSeq once it has passed the end of oldSeq; it is further along
   * than the path on diagonal j - 1; a path that has left newSeq kept the x
   * of the path on diagonal j + 1; the rightmost path stays inside newSeq.
   */
  ghost predicate Extends<T>(oldSeq: seq<T>, newSeq: seq<T>, frontier: map<int, Frontier<T>>, d: int, j: int, f: Frontier<T>)
  {
    && 0 <= f.x && 0 <= f.x - j && f.x + (f.x - j) >= d
    && (f.x - j <= |newSeq| ==> Rebuilds(oldSeq, newSeq, f.x, f.x - j, f.history))
    && (f.x >= |oldSeq| && f.x - j >= |newSeq| ==> f.x - j == |newSeq|)
    && (j > -d ==> f.x > Lookup(frontier, j - 1).x)
    && (j < d && f.x - j > |newSeq| ==> f.x == Lookup(frontier, j + 1).x)
    && (j == d ==> f.x - j <= |newSeq|)
  }

  /** The previous round's paths are untouched. */
  ghost predicate Kept<T>(prev: map<int, Frontier<T>>, frontier: map<int, Frontier<T>>, d: int)
  {
    forall k :: InRound(k, d - 1) ==> Lookup(frontier, k) == Lookup(prev, k)
  }

  /** The diagonals of round d before j hold Good paths. */
  ghost predicate GoodBefore<T>(oldSeq: seq<T>, newSeq: seq<T>, frontier: map<int, Frontier<T>>, d: int, j: int)
  {
    forall k :: InRound(k, d) && k < j ==> Good(oldSeq, newSeq, k, Lookup(frontier, k), d)
  }

  /** A path of round d before j - 2 that has left newSeq is behind the one two diagonals to its right. */
  ghost predicate BehindBefore<T>(newSeq: seq<T>, frontier: map<int, Frontier<T>>, d: int, j: int)
  {
    forall k :: InRound(k, d) && k + 2 < j && Lookup(frontier, k).x - k > |newSeq| ==>
      Lookup(frontier, k + 2).x > Lookup(frontier, k).x
  }

  /**
   * MyersDiff. The rounds never run out: the final panic of myers.go is
   * unreachable, and the script returned rebuilds both inputs.
   */
  method MyersDiff<T(==)>(oldSeq: seq<T>, newSeq: seq<T>) returns (r: Outcome<seq<Entry<T>>>)
    ensures r.Ok?
    ensures OldSide(r.value) == oldSeq && NewSide(r.value) == newSeq && Numbered(r.value, 0, 0)
  {
    var frontier: map<int, Frontier<T>> := map[1 := Frontier(0, [])];
    var oldLen, newLen := |oldSeq|, |newSeq|;
    for i := 0 to oldLen + newLen + 1
      invariant i <= oldLen + newLen
      invariant i == 0 ==> frontier == map[1 := Frontier(0, [])]
      invariant i > 0 ==> RoundDone(oldSeq, newSeq, frontier, i - 1) == true
    {
      var found;
      found, frontier := Round(oldSeq, newSeq, frontier, i);
      if found.Some? {
        return Ok(found.value);
      }
    }
    assert false;
    r := Panic("unreachable!");
  }

  /**
   * Round d of MyersDiff: the diagonals -d, -d + 2, ..., d in turn. It
   * returns the first script that reaches the end of both sides, or else
   * the frontier with every diagonal of the round written.
   */
  method Round<T(==)>(oldSeq: seq<T>, newSeq: seq<T>, frontier0: map<int, Frontier<T>>, d: int)
    returns (found: Option<seq<Entry<T>>>, frontier: map<int, Frontier<T>>)
    requires d >= 0
    requires d == 0 ==> frontier0 == map[1 := Frontier(0, [])]
    requires d > 0 ==> RoundDone(oldSeq, newSeq, frontier0, d - 1) == true
    ensures found.Some? ==> OldSide(found.value) == oldSeq && NewSide(found.value) == newSeq && Numbered(found.value, 0, 0)
    ensures found.None? ==> RoundDone(oldSeq, newSeq, frontier, d) == true && d != |oldSeq| + |newSeq|
  {
    frontier, found := frontier0, None;
    var j := -d;
    PartialStart(oldSeq, newSeq, frontier, d);
    while j <= d && found.None?
      invariant j <= d + 2
      invariant found.None? ==> Partial(oldSeq, newSeq, frontier0, frontier, d, j) == true
      invariant found.Some? ==> OldSide(found.value) == oldSeq && NewSide(found.value) == newSeq && Numbered(found.value, 0, 0)
      decreases d + 2 - j, if found.None? then 1 else 0
    {
      PartialParents(oldSeq, newSeq, frontier0, frontier, d, j);
      var f := Advance(oldSeq, newSeq, frontier, d, j);
      if f.x >= |oldSeq| && f.x - j >= |newSeq| {
        Finished(oldSeq, newSeq, frontier, d, j, f);
        found := Some(f.history);
      } else {
        PartialStep(oldSeq, newSeq, frontier0, frontier, d, j, f);
        frontier := frontier[j := f];
        j := j + 2;
      }
    }
    if found.None? {
      PartialEnd(oldSeq, newSeq, frontier0, frontier, d);
      NotLastRound(oldSeq, newSeq, frontier, d);
    }
  }

  /**
   * Round len(oldSeq) + len(newSeq) always returns: its path on diagonal
   * len(oldSeq) - len(newSeq) has taken enough steps to reach the end.
   */
  lemma NotLastRound<T>(oldSeq: seq<T>, newSeq: seq<T>, frontier: map<int, Frontier<T>>, d: int)
    requires RoundDone(oldSeq, newSeq, frontier, d)
    ensures d != |oldSeq| + |newSeq|
  {
    if d == |oldSeq| + |newSeq| {
      var k := |oldSeq| - |newSeq|;
      assert k + d == 2 * |oldSeq|;
      assert InRound(k, d);
      RoundsSuffice(oldSeq, newSeq, k, Lookup(frontier, k));
    }
  }

  /** A round starts with nothing of its own written. */
  lemma PartialStart<T>(oldSeq: seq<T>, newSeq: seq<T>, frontier: map<int, Frontier<T>>, d: int)
    requires d >= 0
    requires d == 0 ==> frontier == map[1 := Frontier(0, [])]
    requires d > 0 ==> RoundDone(oldSeq, newSeq, frontier, d - 1)
    ensures Partial(oldSeq, newSeq, frontier, frontier, d, -d) == true
  {
  }

  /** The parents of diagonal j are paths of the previous round, which this round has not overwritten. */
  lemma PartialParents<T>(oldSeq: seq<T>, newSeq: seq<T>, prev: map<int, Frontier<T>>, frontier: map<int, Frontier<T>>, d: int, j: int)
    requires Partial(oldSeq, newSeq, prev, frontier, d, j) == true && j <= d
    ensures ParentsOk(oldSeq, newSeq, frontier, d, j) == true
  {
    if d == 0 {
      assert InRound(1, d - 1);
    } else {
      if j > -d {
        assert InRound(j - 1, d - 1);
      }
      if j < d {
        assert InRound(j + 1, d - 1);
      }
    }
  }

  /** Storing the path for diagonal j, when it has not reached the end, moves the round on to j + 2. */
  lemma PartialStep<T>(oldSeq: seq<T>, newSeq: seq<T>, prev: map<int, Frontier<T>>, frontier: map<int, Frontier<T>>,
                       d: int, j: int, f: Frontier<T>)
    requires Partial(oldSeq, newSeq, prev, frontier, d, j) == true && j <= d
    requires Extends(oldSeq, newSeq, frontier, d, j, f) == true
    requires !(f.x >= |oldSeq| && f.x - j >= |newSeq|)
    ensures Partial(oldSeq, newSeq, prev, frontier[j := f], d, j + 2) == true
  {
    var fr := frontier[j := f];
    assert Lookup(fr, j) == f;
    StepKept(prev, frontier, d, j, f);
    StepGood(oldSeq, newSeq, frontier, d, j, f);
    StepAhead(oldSeq, newSeq, prev, frontier, d, j, f);
    StepBehind(newSeq, prev, frontier, d, j, f);
    StepEdges(oldSeq, newSeq, prev, frontier, d, j, f);
  }

  /** The new path is ahead of the one two diagonals to its left, when that one has left newSeq. */
  lemma StepAhead<T>(oldSeq: seq<T>, newSeq: seq<T>, prev: map<int, Frontier<T>>, frontier: map<int, Frontier<T>>,
                     d: int, j: int, f: Frontier<T>)
    requires Partial(oldSeq, newSeq, prev, frontier, d, j) == true && j <= d
    requires Extends(oldSeq, newSeq, frontier, d, j, f) == true
    ensures -d < j && Lookup(frontier, j - 2).x - (j - 2) > |newSeq| ==> f.x > Lookup(frontier, j - 2).x
  {
    if j > -d {
      KeptAt(prev, frontier, d, j - 1);
    }
  }

  /** The new path, if it has left newSeq, came down from diagonal j + 1; the rightmost one has not left it. */
  lemma StepEdges<T>(oldSeq: seq<T>, newSeq: seq<T>, prev: map<int, Frontier<T>>, frontier: map<int, Frontier<T>>,
                     d: int, j: int, f: Frontier<T>)
    requires Partial(oldSeq, newSeq, prev, frontier, d, j) == true && j <= d
    requires Extends(oldSeq, newSeq, frontier, d, j, f) == true
    ensures -d < j + 2 <= d && f.x - j > |newSeq| ==> f.x == Lookup(prev, j + 1).x
    ensures j == d ==> f.x - d <= |newSeq|
  {
    if -d < j + 2 <= d && f.x - j > |newSeq| {
      KeptAt(prev, frontier, d, j + 1);
    }
  }

  /** One diagonal of the previous round, untouched. */
  lemma KeptAt<T>(prev: map<int, Frontier<T>>, frontier: map<int, Frontier<T>>, d: int, k: int)
    requires Kept(prev, frontier, d) && -(d - 1) <= k <= d - 1 && (k + d - 1) % 2 == 0
    ensures Lookup(frontier, k) == Lookup(prev, k)
  {
    assert InRound(k, d - 1);
  }

  lemma StepKept<T>(prev: map<int, Frontier<T>>, frontier: map<int, Frontier<T>>, d: int, j: int, f: Frontier<T>)
    requires Kept(prev, frontier, d) && d >= 0 && (j + d) % 2 == 0
    ensures Kept(prev, frontier[j := f], d)
  {
    forall k | InRound(k, d - 1)
      ensures Lookup(frontier[j := f], k) == Lookup(prev, k)
    {
      assert k != j by {
        if d > 0 {
          assert (k + d - 1) % 2 == 0 && (j + d) % 2 == 0;
        } else {
          assert k == 1 && j % 2 == 0;
        }
      }
    }
  }

  lemma StepGood<T>(oldSeq: seq<T>, newSeq: seq<T>, frontier: map<int, Frontier<T>>, d: int, j: int, f: Frontier<T>)
    requires GoodBefore(oldSeq, newSeq, frontier, d, j) && Good(oldSeq, newSeq, j, f, d) && d >= 0 && (j + d) % 2 == 0
    ensures GoodBefore(oldSeq, newSeq, frontier[j := f], d, j + 2)
  {
    forall k | InRound(k, d) && k < j + 2
      ensures Good(oldSeq, newSeq, k, Lookup(frontier[j := f], k), d)
    {
      if k != j {
        assert (k + d) % 2 == 0;
        assert k < j;
        assert Lookup(frontier[j := f], k) == Lookup(frontier, k);
      }
    }
  }

  lemma StepBehind<T>(newSeq: seq<T>, prev: map<int, Frontier<T>>, frontier: map<int, Frontier<T>>, d: int, j: int, f: Frontier<T>)
    requires BehindBefore(newSeq, frontier, d, j) && d >= 0 && (j + d) % 2 == 0
    requires -d < j && Lookup(frontier, j - 2).x - (j - 2) > |newSeq| ==> f.x > Lookup(frontier, j - 2).x
    ensures BehindBefore(newSeq, frontier[j := f], d, j + 2)
  {
    var fr := frontier[j := f];
    forall k | InRound(k, d) && k + 2 < j + 2 && Lookup(fr, k).x - k > |newSeq|
      ensures Lookup(fr, k + 2).x > Lookup(fr, k).x
    {
      if k + 2 == j {
        assert Lookup(fr, k) == Lookup(frontier, j - 2);
      } else {
        assert (k + d) % 2 == 0;
        assert k + 2 < j;
        assert Lookup(fr, k) == Lookup(frontier, k) && Lookup(fr, k + 2) == Lookup(frontier, k + 2);
      }
    }
  }

  /** Once diagonal d is written, the round is done. */
  lemma PartialEnd<T>(oldSeq: seq<T>, newSeq: seq<T>, prev: map<int, Frontier<T>>, frontier: map<int, Frontier<T>>, d: int)
    requires Partial(oldSeq, newSeq, prev, frontier, d, d + 2) == true
    ensures RoundDone(oldSeq, newSeq, frontier, d)
  {
  }

  /** A finished path is never past the end of newSeq, so it rebuilds both inputs. */
  lemma Finished<T>(oldSeq: seq<T>, newSeq: seq<T>, frontier: map<int, Frontier<T>>, d: int, j: int, f: Frontier<T>)
    requires Extends(oldSeq, newSeq, frontier, d, j, f) == true
    requires f.x >= |oldSeq| && f.x - j >= |newSeq|
    ensures OldSide(f.history) == oldSeq && NewSide(f.history) == newSeq && Numbered(f.history, 0, 0)
  {
    assert oldSeq[..|oldSeq|] == oldSeq && newSeq[..|newSeq|] == newSeq;
  }

  /**
   * A path on diagonal len(oldSeq) - len(newSeq) that has taken
   * len(oldSeq) + len(newSeq) steps has reached the end of both sides, so
   * round len(oldSeq) + len(newSeq) always returns.
   */
  lemma RoundsSuffice<T>(oldSeq: seq<T>, newSeq: seq<T>, k: int, f: Frontier<T>)
    requires k == |oldSeq| - |newSeq| && f.x + (f.x - k) >= |oldSeq| + |newSeq|
    ensures f.x >= |oldSeq| && f.x - k >= |newSeq|
  {
  }

  /**
   * The path for diagonal j in round d: step down from diagonal j + 1 on the
   * leftmost diagonal or when that path is further along, otherwise right
   * from diagonal j - 1; record the step; then follow the snake.
   */
  method Advance<T(==)>(oldSeq: seq<T>, newSeq: seq<T>, frontier: map<int, Frontier<T>>, d: int, j: int)
    returns (f: Frontier<T>)
    requires ParentsOk(oldSeq, newSeq, frontier, d, j) == true
    ensures Extends(oldSeq, newSeq, frontier, d, j, f)
  {
    var oldX, history := StepFrom(oldSeq, newSeq, frontier, d, j);
    var x, y, h := Snake(oldSeq, newSeq, oldX, oldX - j, history);
    f := Frontier(x, h);
  }

  /**
   * The first step of the path for diagonal j in round d: down from
   * diagonal j + 1 on the leftmost diagonal or when that path is further
   * along, otherwise right from diagonal j - 1; the step is recorded as an
   * Added or a Removed entry.
   */
  method StepFrom<T(==)>(oldSeq: seq<T>, newSeq: seq<T>, frontier: map<int, Frontier<T>>, d: int, j: int)
    returns (oldX: int, history: seq<Entry<T>>)
    requires ParentsOk(oldSeq, newSeq, frontier, d, j) == true
    ensures 0 <= oldX && 0 <= oldX - j && oldX + (oldX - j) >= d
    ensures oldX - j <= |newSeq| ==> Rebuilds(oldSeq, newSeq, oldX, oldX - j, history)
    ensures oldX - j > |newSeq| ==> oldX < |oldSeq|
    ensures j > -d ==> oldX > Lookup(frontier, j - 1).x
    ensures j < d && oldX - j > |newSeq| ==> oldX == Lookup(frontier, j + 1).x
    ensures j == d ==> oldX - j <= |newSeq|
  {
    var goDown := j == -d || (j != d && Lookup(frontier, j - 1).x < Lookup(frontier, j + 1).x);
    Parent(oldSeq, newSeq, frontier, d, j, goDown);
    if goDown {
      oldX, history := Lookup(frontier, j + 1).x, Lookup(frontier, j + 1).history;
    } else {
      oldX, history := Lookup(frontier, j - 1).x, Lookup(frontier, j - 1).history;
      oldX := oldX + 1;
    }
    history := Record(oldSeq, newSeq, oldX, oldX - j, goDown, history);
  }

  /**
   * Recording the first step at (x, y): a down step from (x, y - 1) adds
   * newSeq[y - 1], a right step from (x - 1, y) removes oldSeq[x - 1];
   * either extends the parent's script to one for (x, y).
   */
  method Record<T>(oldSeq: seq<T>, newSeq: seq<T>, x: int, y: int, goDown: bool, h0: seq<Entry<T>>)
    returns (h: seq<Entry<T>>)
    requires 0 <= x && 0 <= y
    requires goDown && y == 0 ==> x == 0 && h0 == []
    requires goDown && 1 <= y <= |newSeq| + 1 ==> Rebuilds(oldSeq, newSeq, x, y - 1, h0)
    requires !goDown ==> 1 <= x && y <= |newSeq| && Rebuilds(oldSeq, newSeq, x - 1, y, h0)
    ensures y <= |newSeq| ==> Rebuilds(oldSeq, newSeq, x, y, h)
  {
    h := h0;
    if 1 <= y <= |newSeq| && goDown {
      StepAdded(oldSeq, newSeq, x, y - 1, h);
      h := h + [Added(None, Some(y - 1), newSeq[y - 1])];
    } else if 1 <= x <= |oldSeq| {
      if y <= |newSeq| {
        StepRemoved(oldSeq, newSeq, x - 1, y, h);
      }
      h := h + [Removed(Some(x - 1), None, oldSeq[x - 1])];
    } else if y <= |newSeq| && !goDown {
      assert Min(x, |oldSeq|) == Min(x - 1, |oldSeq|);
    }
  }

  /**
   * The path a step starts from: the seed in round 0, otherwise a Good path
   * of the previous round; a right step never starts outside newSeq, and a
   * down step off any diagonal but the leftmost starts from the path that
   * is further along.
   */
  lemma Parent<T>(oldSeq: seq<T>, newSeq: seq<T>, frontier: map<int, Frontier<T>>, d: int, j: int, goDown: bool)
    requires ParentsOk(oldSeq, newSeq, frontier, d, j) == true
    requires goDown == (j == -d || (j != d && Lookup(frontier, j - 1).x < Lookup(frontier, j + 1).x))
    ensures d == 0 ==> goDown && j == 0 && Lookup(frontier, 1) == Frontier(0, [])
    ensures d > 0 && goDown ==> Good(oldSeq, newSeq, j + 1, Lookup(frontier, j + 1), d - 1)
    ensures d > 0 && !goDown ==> Good(oldSeq, newSeq, j - 1, Lookup(frontier, j - 1), d - 1)
    ensures !goDown ==> j > -d && Lookup(frontier, j - 1).x - (j - 1) <= |newSeq|
    ensures goDown && j > -d ==> Lookup(frontier, j + 1).x > Lookup(frontier, j - 1).x
  {
  }

  /** The snake: while both sides go on and their next elements agree, take a Common entry. */
  method Snake<T(==)>(oldSeq: seq<T>, newSeq: seq<T>, x0: int, y0: int, h0: seq<Entry<T>>)
    returns (x: int, y: int, h: seq<Entry<T>>)
    requires 0 <= x0 && 0 <= y0
    requires y0 <= |newSeq| ==> Rebuilds(oldSeq, newSeq, x0, y0, h0)
    ensures x - x0 == y - y0 >= 0
    ensures x == x0 ==> h == h0
    ensures x0 >= |oldSeq| || y0 >= |newSeq| ==> x == x0
    ensures y <= |newSeq| ==> Rebuilds(oldSeq, newSeq, x, y, h)
    ensures y0 <= |newSeq| ==> y <= |newSeq|
    ensures x < |oldSeq| && y < |newSeq| ==> oldSeq[x] != newSeq[y]
  {
    x, y, h := x0, y0, h0;
    while x < |oldSeq| && y < |newSeq| && oldSeq[x] == newSeq[y]
      invariant x - x0 == y - y0 >= 0
      invariant x == x0 ==> h == h0
      invariant x0 >= |oldSeq| || y0 >= |newSeq| ==> x == x0
      invariant y0 <= |newSeq| ==> y <= |newSeq|
      invariant y <= |newSeq| ==> Rebuilds(oldSeq, newSeq, x, y, h)
      decreases |oldSeq| - x
    {
      StepCommon(oldSeq, newSeq, x, y, h);
      x := x + 1;
      y := y + 1;
      h := h + [Common(Some(x - 1), Some(y - 1), oldSeq[x - 1])];
    }
  }

  /** Appending one entry: the sides grow by its contribution and the numbering goes on. */
  lemma AppendOne<T>(h: seq<Entry<T>>, e: Entry<T>)
    requires Numbered(h, 0, 0) && Numbered([e], |OldSide(h)|, |NewSide(h)|)
    ensures OldSide(h + [e]) == OldSide(h) + OldSide([e]) && NewSide(h + [e]) == NewSide(h) + NewSide([e])
    ensures Numbered(h + [e], 0, 0)
  {
    OldSideAppend(h, [e]);
    NewSideAppend(h, [e]);
    NumberedAppend(h, [e], 0, 0);
  }

  /** A Common entry at (x, y) on equal elements extends a script for (x, y) to one for (x + 1, y + 1). */
  lemma StepCommon<T>(oldSeq: seq<T>, newSeq: seq<T>, x: int, y: int, h: seq<Entry<T>>)
    requires 0 <= x < |oldSeq| && 0 <= y < |newSeq| && oldSeq[x] == newSeq[y]
    requires Rebuilds(oldSeq, newSeq, x, y, h)
    ensures Rebuilds(oldSeq, newSeq, x + 1, y + 1, h + [Common(Some(x), Some(y), oldSeq[x])])
  {
    AppendOne(h, Common(Some(x), Some(y), oldSeq[x]));
    assert oldSeq[..x + 1] == oldSeq[..x] + [oldSeq[x]];
    assert newSeq[..y + 1] == newSeq[..y] + [newSeq[y]];
  }

  /** An Added entry for newSeq[y] extends a script for (x, y) to one for (x, y + 1). */
  lemma StepAdded<T>(oldSeq: seq<T>, newSeq: seq<T>, x: int, y: int, h: seq<Entry<T>>)
    requires 0 <= x && 0 <= y < |newSeq|
    requires Rebuilds(oldSeq, newSeq, x, y, h)
    ensures Rebuilds(oldSeq, newSeq, x, y + 1, h + [Added(None, Some(y), newSeq[y])])
  {
    AppendOne(h, Added(None, Some(y), newSeq[y]));
    assert newSeq[..y + 1] == newSeq[..y] + [newSeq[y]];
  }

  /** A Removed entry for oldSeq[x] extends a script for (x, y) to one for (x + 1, y). */
  lemma StepRemoved<T>(oldSeq: seq<T>, newSeq: seq<T>, x: int, y: int, h: seq<Entry<T>>)
    requires 0 <= x < |oldSeq| && 0 <= y <= |newSeq|
    requires Rebuilds(oldSeq, newSeq, x, y, h)
    ensures Rebuilds(oldSeq, newSeq, x + 1, y, h + [Removed(Some(x), None, oldSeq[x])])
  {
    AppendOne(h, Removed(Some(x), None, oldSeq[x]));
    assert oldSeq[..x + 1] == oldSeq[..x] + [oldSeq[x]];
  }
}
