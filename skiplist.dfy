/**
 * The span skip list of skiplist/skiplist.go, a port of the Redis sorted-set
 * skip list: elements ordered by score, each level's pointers carrying the
 * number of level-0 steps they cover, so that ranks can be computed on the
 * way down.
 *
 * Nodes live in the arena `nodes` (see SkipShape); `order` lists the nodes
 * after the head along level 0. Scores are modelled as integers and values
 * as integers.
 */
module SkipLists {
  import opened Wrappers
  import opened SkipShape
  import opened SkipSteps

  /** The number of leading heads in a run of coin flips. */
  function Heads(coins: seq<bool>): (n: nat)
    ensures n <= |coins| && forall k :: 0 <= k < n ==> coins[k]
    ensures n < |coins| ==> !coins[n]
  {
    if coins == [] || !coins[0] then 0 else 1 + Heads(coins[1..])
  }

  /** The height randomLevel draws from the coin flips: one plus the leading heads, at most MaxLevel. */
  function CoinHeight(coins: seq<bool>): (h: nat)
    ensures 1 <= h <= MaxLevel
    ensures h < MaxLevel ==> h == 1 + Heads(coins)
  {
    if 1 + Heads(coins) < MaxLevel then 1 + Heads(coins) else MaxLevel
  }

  /**
   * randomLevel with its coin flips as a parameter (true for a draw below
   * one half): one level, plus one per such flip, stopping at the first
   * other flip or at MaxLevel.
   */
  method RandomLevel(coins: seq<bool>) returns (lvl: nat)
    ensures lvl == CoinHeight(coins)
  {
    lvl := 1;
    while lvl - 1 < |coins| && coins[lvl - 1] && lvl < MaxLevel
      invariant 1 <= lvl <= MaxLevel && lvl - 1 <= Heads(coins)
    {
      lvl := lvl + 1;
    }
  }

  /**
   * The walk Insert, Delete and Search share, over the arena: from the top
   * level down, move along each level while the next node is one a walk
   * for (s, v) moves past, and record where each level was left (`update`)
   * and its position (`rank`).
   */
  method Descend(ns: seq<Node>, head: nat, ghost order: seq<nat>, level: nat, s: int, v: int, cmp: Cmp)
    returns (update: seq<nat>, rank: seq<nat>)
    requires Wf(ns, head, order, level) && Links(ns, head, order)
    ensures |rank| == MaxLevel && Walked(ns, head, order, rank[0], update, rank, level)
    ensures WalkEnd(Keys(ns, order), cmp, s, v, rank[0])
    ensures forall l :: 0 <= l < level ==> Blocked(ns, head, order, cmp, s, v, rank[l], l)
  {
    var x := head;
    var px: nat := 0;
    update := seq(MaxLevel, _ => head);
    rank := seq(MaxLevel, _ => 0);
    var i := level;
    while i > 0
      invariant 0 <= i <= level
      invariant |update| == MaxLevel && |rank| == MaxLevel
      invariant px <= |order| && x == Idx(head, order, px) && i <= |ns[x].level|
      invariant i < level ==> rank[i] == px
      invariant px == 0 || Ahead(cmp, Keys(ns, order)[px - 1].0, Keys(ns, order)[px - 1].1, s, v)
      invariant forall l :: i <= l < level ==>
        Stop(ns, head, order, cmp, s, v, rank[l], l, px) && update[l] == Idx(head, order, rank[l])
    {
      i := i - 1;
      x, px := Along(ns, head, order, s, v, cmp, x, px, i, level, rank);
      update := update[i := x];
      rank := rank[i := px];
    }
    LevelZero(ns, head, order, px);
    assert Lk(ns, head, order, px, 0) == ns[x].level[0];
  }

  /**
   * One level of a walk: from position px, move along level i while the
   * next node is one the walk for (s, v) moves past. Where the walk left
   * the levels i + 1 to top - 1 stays as it was: their pointers still lead
   * past the new position.
   */
  method Along(ns: seq<Node>, head: nat, ghost order: seq<nat>, s: int, v: int, cmp: Cmp,
               x: nat, px: nat, i: nat, ghost top: nat, ghost rank: seq<nat>) returns (y: nat, py: nat)
    requires Arena(ns, head, order) && Links(ns, head, order)
    requires px <= |order| && x == Idx(head, order, px) && i < |ns[x].level|
    requires Behind(ns, order, cmp, s, v, px) && Above(ns, head, order, cmp, s, v, i, top, rank, px)
    ensures px <= py <= |order| && y == Idx(head, order, py) && i < |ns[y].level|
    ensures Behind(ns, order, cmp, s, v, py) && Above(ns, head, order, cmp, s, v, i, top, rank, py)
    ensures Stop(ns, head, order, cmp, s, v, py, i, py)
  {
    y, py := x, px;
    Step(ns, head, order, py, i);
    while ns[y].level[i].forward.Some? &&
          Ahead(cmp, ns[ns[y].level[i].forward.value].score, ns[ns[y].level[i].forward.value].value, s, v)
      invariant px <= py <= |order| && y == Idx(head, order, py) && i < |ns[y].level|
      invariant Next(ns, head, order, py, i)
      invariant Behind(ns, order, cmp, s, v, py) && Above(ns, head, order, cmp, s, v, i, top, rank, py)
      decreases |order| - py
    {
      var lk := ns[y].level[i];
      AlongStep(ns, head, order, s, v, cmp, py, i, top, rank);
      py := py + lk.span;
      y := lk.forward.value;
    }
    assert Lk(ns, head, order, py, i) == ns[y].level[i];
  }

  /** Every key before position p lies before (s, v) in the order cmp walks by. */
  ghost predicate Behind(ns: seq<Node>, order: seq<nat>, cmp: Cmp, s: int, v: int, p: nat)
    requires Listed(ns, order) && p <= |order|
  {
    p == 0 || Ahead(cmp, Keys(ns, order)[p - 1].0, Keys(ns, order)[p - 1].1, s, v)
  }

  /** On every level between i and top, the recorded position still stops the walk at position p. */
  ghost predicate Above(ns: seq<Node>, head: nat, order: seq<nat>, cmp: Cmp, s: int, v: int,
                        i: nat, top: nat, rank: seq<nat>, p: nat)
    requires head < |ns| && Listed(ns, order)
  {
    top <= |rank| && forall l :: i < l < top ==> Stop(ns, head, order, cmp, s, v, rank[l], l, p)
  }

  /** One move of Along: the walk passes the next node on level i, and what Along keeps holds there. */
  lemma AlongStep(ns: seq<Node>, head: nat, order: seq<nat>, s: int, v: int, cmp: Cmp,
                  py: nat, i: nat, top: nat, rank: seq<nat>)
    requires Arena(ns, head, order) && Links(ns, head, order)
    requires py <= |order| && i < |ns[Idx(head, order, py)].level| && Next(ns, head, order, py, i)
    requires var lk := ns[Idx(head, order, py)].level[i];
      lk.forward.Some? && Ahead(cmp, ns[lk.forward.value].score, ns[lk.forward.value].value, s, v)
    requires Above(ns, head, order, cmp, s, v, i, top, rank, py)
    ensures var lk := ns[Idx(head, order, py)].level[i]; var q := py + lk.span;
      py < q <= |order| && lk.forward.value == Idx(head, order, q) && i < |ns[Idx(head, order, q)].level| &&
      Next(ns, head, order, q, i) &&
      Behind(ns, order, cmp, s, v, q) && Above(ns, head, order, cmp, s, v, i, top, rank, q)
  {
    var lk := Lk(ns, head, order, py, i);
    assert Keys(ns, order)[py + lk.span - 1] == (ns[lk.forward.value].score, ns[lk.forward.value].value);
    forall l | i < l < top
      ensures Stop(ns, head, order, cmp, s, v, rank[l], l, py + lk.span)
    {
      StopStep(ns, head, order, cmp, s, v, py, i, rank[l], l);
    }
    Step(ns, head, order, py + lk.span, i);
  }

  /**
   * The walk of GetElementByRank: on each level, from the top down, move
   * along while the pointer does not overshoot position r; stop at the
   * first level where position r is reached.
   */
  method ByRank(ns: seq<Node>, head: nat, ghost order: seq<nat>, level: nat, r: nat) returns (n: Option<nat>)
    requires Wf(ns, head, order, level) && Links(ns, head, order)
    ensures r <= |order| ==> n == Some(Idx(head, order, r))
    ensures r > |order| ==> n == None
  {
    var traversed: nat := 0;
    var x := head;
    var i := level;
    while i > 0
      invariant 0 <= i <= level
      invariant traversed <= |order| && traversed <= r && x == Idx(head, order, traversed) && i <= |ns[x].level|
      invariant i == 0 ==> r > |order|
    {
      i := i - 1;
      Step(ns, head, order, traversed, i);
      while ns[x].level[i].forward.Some? && traversed + ns[x].level[i].span <= r
        invariant traversed <= |order| && traversed <= r && x == Idx(head, order, traversed) && i < |ns[x].level|
        invariant Next(ns, head, order, traversed, i)
        decreases |order| - traversed
      {
        var lk := ns[x].level[i];
        traversed := traversed + lk.span;
        x := lk.forward.value;
        Step(ns, head, order, traversed, i);
      }
      if traversed == r {
        return Some(x);
      }
      if i == 0 {
        LevelZero(ns, head, order, traversed);
      }
    }
    return None;
  }

  /**
   * The walk of GetRank: the walk with `<=`, answering the position reached
   * as soon as the node there holds (s, v), and 0 if none does. When it
   * answers 0, the level-0 walk ended at position c and the node there
   * (the head, for c = 0) does not hold (s, v), or c = 0 and (s, v) is the
   * head's (0, 0).
   */
  method RankOf(ns: seq<Node>, head: nat, ghost order: seq<nat>, level: nat, s: int, v: int)
    returns (r: nat, ghost c: nat)
    requires Wf(ns, head, order, level) && Links(ns, head, order) && ns[head].score == 0 && ns[head].value == 0
    ensures r > 0 ==> r <= |order| && Keys(ns, order)[r - 1] == (s, v)
    ensures r == 0 && (s, v) != (0, 0) ==>
      WalkEnd(Keys(ns, order), Le, s, v, c) && (c == 0 || Keys(ns, order)[c - 1] != (s, v))
  {
    var rank: nat := 0;
    var x := head;
    var i := level;
    c := 0;
    while i > 0
      invariant 0 <= i <= level
      invariant rank <= |order| && x == Idx(head, order, rank) && i <= |ns[x].level|
      invariant rank == 0 || Ahead(Le, Keys(ns, order)[rank - 1].0, Keys(ns, order)[rank - 1].1, s, v)
      invariant i == 0 && (s, v) != (0, 0) ==>
        WalkEnd(Keys(ns, order), Le, s, v, rank) && (rank == 0 || Keys(ns, order)[rank - 1] != (s, v)) && c == rank
    {
      i := i - 1;
      x, rank := Along(ns, head, order, s, v, Le, x, rank, i, i + 1, seq(i + 1, _ => 0));
      if ns[x].score == s && ns[x].value == v {
        return rank, c;
      }
      if i == 0 {
        LevelZero(ns, head, order, rank);
        c := rank;
      }
    }
    return 0, c;
  }

  /**
   * Insert's new levels, when the new node is taller than the list: each
   * starts at the head, at position 0, and the head's span there is set to
   * the list's length (the span of a nil pointer, never read).
   */
  method Grow(ns: seq<Node>, head: nat, ghost order: seq<nat>, ghost c: nat, update: seq<nat>, rank: seq<nat>,
              level: nat, lvl: nat, length: nat) returns (ns2: seq<Node>, update2: seq<nat>, rank2: seq<nat>)
    requires Walked(ns, head, order, c, update, rank, level) && Wf(ns, head, order, level) && Links(ns, head, order)
    requires level < lvl <= MaxLevel
    ensures Walked(ns2, head, order, c, update2, rank2, lvl) && Wf(ns2, head, order, lvl) && Links(ns2, head, order)
    ensures SameKeys(ns, ns2) && rank2[0] == rank[0] && update2[0] == update[0]
  {
    ns2, update2, rank2 := ns, update, rank;
    var i := level;
    while i < lvl
      invariant level <= i <= lvl
      invariant Walked(ns2, head, order, c, update2, rank2, i) && Links(ns2, head, order) && SameKeys(ns, ns2)
      invariant forall k :: 0 <= k < |order| ==> |ns2[order[k]].level| <= level
      invariant rank2[0] == rank[0] && update2[0] == update[0]
    {
      GrowStep(ns2, head, order, c, update2, rank2, i, length);
      rank2 := rank2[i := 0];
      update2 := update2[i := head];
      ns2 := SetLevel(ns2, head, i, ns2[head].level[i].(span := length));
      i := i + 1;
    }
  }

  /**
   * Insert's splice: on each of its levels the new node x takes the pointer
   * of the node the walk left that level at, which then points to x; the
   * span splits at x's position, c + 1.
   */
  method Splice(ns: seq<Node>, head: nat, ghost order: seq<nat>, ghost c: nat, x: nat, update: seq<nat>, rank: seq<nat>,
                level: nat, lvl: nat) returns (ns2: seq<Node>)
    requires Splicing(ns, head, order, c, x, update, rank, level, 0) && |ns[x].level| == lvl && rank[0] == c
    ensures Splicing(ns2, head, order, c, x, update, rank, level, lvl) && SameKeys(ns, ns2)
  {
    ns2 := ns;
    var i := 0;
    while i < lvl
      invariant 0 <= i <= lvl
      invariant Splicing(ns2, head, order, c, x, update, rank, level, i) && SameKeys(ns, ns2) && |ns2[x].level| == lvl
    {
      var u := update[i];
      var lk := ns2[u].level[i];
      ghost var ns1 := ns2;
      ns2 := SetLevel(ns2, x, i, Level(lk.forward, lk.span - (rank[0] - rank[i])));
      ns2 := SetLevel(ns2, u, i, Level(Some(x), rank[0] - rank[i] + 1));
      SpliceStep(ns1, ns2, head, order, c, x, update, rank, level, i);
      i := i + 1;
    }
  }

  /** Insert's levels above the new node: the pointer the walk left each at now covers one step more. */
  method Widen(ns: seq<Node>, head: nat, ghost order: seq<nat>, ghost c: nat, x: nat, update: seq<nat>, rank: seq<nat>,
               level: nat, lvl: nat) returns (ns2: seq<Node>)
    requires Splicing(ns, head, order, c, x, update, rank, level, lvl) && |ns[x].level| == lvl
    ensures Splicing(ns2, head, order, c, x, update, rank, level, level) && SameKeys(ns, ns2)
  {
    ns2 := ns;
    var i := lvl;
    while i < level
      invariant lvl <= i <= level
      invariant Splicing(ns2, head, order, c, x, update, rank, level, i) && SameKeys(ns, ns2) && |ns2[x].level| == lvl
    {
      var u := update[i];
      ghost var ns1 := ns2;
      ns2 := SetLevel(ns2, u, i, ns2[u].level[i].(span := ns2[u].level[i].span + 1));
      BumpStep(ns1, ns2, head, order, c, x, update, rank, level, i);
      i := i + 1;
    }
  }

  /**
   * Insert's new node and its splice: a node of height lvl holding (s, v)
   * joins the arena and is linked in at position c + 1 on every level.
   */
  method Link(ghost ns0: seq<Node>, ns: seq<Node>, head: nat, ghost order: seq<nat>, ghost c: nat,
              update: seq<nat>, rank: seq<nat>, level: nat, lvl: nat, s: int, v: int) returns (ns1: seq<Node>, x: nat)
    requires Walked(ns, head, order, c, update, rank, level) && Wf(ns, head, order, level) && Links(ns, head, order)
    requires 1 <= lvl <= level && rank[0] == c && SameKeys(ns0, ns)
    ensures x == |ns| && |ns1| == x + 1 && |ns1[x].level| == lvl
    ensures SameKeys(ns0 + [NewNode(lvl, s, v)], ns1)
    ensures Wf(ns1, head, Ins(order, c, x), level) && Links(ns1, head, Ins(order, c, x))
  {
    var n := NewNode(lvl, s, v);
    Append(ns, n, head, order, c, update, rank, level);
    ns1 := ns + [n];
    x := |ns|;
    assert SameKeys(ns0 + [n], ns1);
    SpliceStart(ns1, head, order, c, x, update, rank, level);
    ns1 := Splice(ns1, head, order, c, x, update, rank, level, lvl);
    ns1 := Widen(ns1, head, order, c, x, update, rank, level, lvl);
    SpliceDone(ns1, head, order, c, x, update, rank, level);
  }

  /**
   * Insert's backward pointers: the new node x points back to the node u
   * before it, unless that is the head; the node after x points back to x,
   * and if there is none, x is the new tail.
   */
  method Backlink(ns1: seq<Node>, head: nat, ghost order: seq<nat>, ghost c: nat, x: nat, u: nat, tail: Option<nat>)
    returns (ns3: seq<Node>, tail2: Option<nat>)
    requires c <= |order| && Arena(ns1, head, Ins(order, c, x)) && Links(ns1, head, Ins(order, c, x))
    requires Listed(ns1, order) && x < |ns1| && u == Idx(head, order, c) && ns1[x].backward == None
    ensures |ns3| == |ns1|
    ensures forall k :: 0 <= k < |ns1| ==>
      ns3[k].level == ns1[k].level && ns3[k].score == ns1[k].score && ns3[k].value == ns1[k].value
    ensures ns3[x].backward == (if c == 0 then None else Some(order[c - 1]))
    ensures c < |order| ==> ns3[order[c]].backward == Some(x)
    ensures forall k :: 0 <= k < |ns1| && k != x && (c < |order| ==> k != order[c]) ==> ns3[k].backward == ns1[k].backward
    ensures tail2 == if c < |order| then tail else Some(x)
  {
    ghost var o2 := Ins(order, c, x);
    assert o2[c] == x && (c > 0 ==> o2[c - 1] == order[c - 1]);
    ns3 := ns1;
    if u != head {
      ns3 := SetBackward(ns3, x, Some(u));
    }
    LevelZero(ns1, head, o2, c + 1);
    assert Lk(ns1, head, o2, c + 1, 0) == ns3[x].level[0];
    var next := ns3[x].level[0].forward;
    if next.Some? {
      assert o2[c + 1] == order[c];
      ns3 := SetBackward(ns3, next.value, Some(x));
      tail2 := tail;
    } else {
      tail2 := Some(x);
    }
  }

  /**
   * Insert on the arena: the walk with `!=`, a height drawn from the coin
   * flips, new levels started at the head when that height exceeds the
   * list's, then the new node (s, v) spliced in where the walk ended and
   * its backward pointers set. Answers the new arena, tail and level, the
   * new node and the position c it follows.
   */
  method Inserted(ns0: seq<Node>, head: nat, ghost order: seq<nat>, tail: Option<nat>, level: nat, length: nat,
                  s: int, v: int, coins: seq<bool>)
    returns (ns3: seq<Node>, tail2: Option<nat>, top: nat, x: nat, ghost c: nat)
    requires Inv(ns0, head, order, tail, level)
    ensures c <= |order| && Inv(ns3, head, Ins(order, c, x), tail2, top)
    ensures WalkEnd(Keys(ns0, order), Ne, s, v, c)
    ensures Keys(ns3, Ins(order, c, x)) == Keys(ns0, order)[..c] + [(s, v)] + Keys(ns0, order)[c..]
    ensures x == |ns0| && |ns3[x].level| == CoinHeight(coins)
    ensures top == if CoinHeight(coins) > level then CoinHeight(coins) else level
  {
    var update, rank := Descend(ns0, head, order, level, s, v, Ne);
    c := rank[0];
    var lvl := RandomLevel(coins);
    ghost var y: nat := head;
    if level > 1 {
      TopNode(ns0, head, order, tail, level);
      y := ns0[head].level[level - 1].forward.value;
    }
    var ns := ns0;
    top := level;
    if lvl > level {
      ns, update, rank := Grow(ns, head, order, c, update, rank, level, lvl, length);
      top := lvl;
    }
    var ns1;
    ns1, x := Link(ns0, ns, head, order, c, update, rank, top, lvl, s, v);
    if lvl == top {
      y := x;
    }
    ns3, tail2 := Backlink(ns1, head, order, c, x, update[0], tail);
    InsertFinish(ns0, ns1, ns3, head, order, tail, level, top, c, x, s, v, y, tail2);
  }

  /**
   * Delete's unlink: on every level of the list, the node the walk left it
   * at takes over x's pointer if it pointed to x, and otherwise covers one
   * step less.
   */
  method Unlink(ns: seq<Node>, head: nat, ghost order: seq<nat>, ghost c: nat, x: nat,
                update: seq<nat>, rank: seq<nat>, level: nat) returns (ns2: seq<Node>)
    requires Unlinking(ns, head, order, c, update, rank, level, 0) && Links(ns, head, order) && x == order[c]
    ensures Unlinking(ns2, head, order, c, update, rank, level, level) && SameKeys(ns, ns2) && ns2[x] == ns[x]
  {
    ns2 := ns;
    var i := 0;
    while i < level
      invariant 0 <= i <= level
      invariant Unlinking(ns2, head, order, c, update, rank, level, i) && SameKeys(ns, ns2) && ns2[x] == ns[x]
    {
      var u := update[i];
      var lk := ns2[u].level[i];
      ghost var ns1 := ns2;
      assert LinksAt(ns2, head, order, i);
      PointsToRemoved(ns2, head, order, c, rank[i], i);
      IdxInjective(ns2, head, order, rank[i], c + 1);
      if lk.forward == Some(x) {
        ns2 := SetLevel(ns2, u, i, Level(ns2[x].level[i].forward, lk.span + ns2[x].level[i].span - 1));
      } else {
        ns2 := SetLevel(ns2, u, i, lk.(span := lk.span - 1));
      }
      assert ns2[x] == ns1[x];
      UnlinkStep(ns1, ns2, head, order, c, update, rank, level, i);
      i := i + 1;
    }
  }

  /** Delete's last step: while the top level is above 1 and empty at the head, drop it. */
  method Lower(ns: seq<Node>, head: nat, ghost order: seq<nat>, level: nat) returns (top: nat)
    requires Wf(ns, head, order, level) && Links(ns, head, order)
    ensures 1 <= top <= level && Wf(ns, head, order, top)
    ensures top == 1 || ns[head].level[top - 1].forward.Some?
  {
    top := level;
    while top > 1 && ns[head].level[top - 1].forward.None?
      invariant 1 <= top <= level && Wf(ns, head, order, top)
    {
      Shrink(ns, head, order, top);
      top := top - 1;
    }
  }

  /**
   * Delete on the arena: the walk with `<`; if the next node holds (s, v),
   * it is unlinked from every level, the node after it points back to its
   * predecessor (or the predecessor becomes the tail), and empty top levels
   * are dropped. Answers whether (s, v) was found, the new arena, tail and
   * level, and the position c where the walk ended.
   */
  method Deleted(ns0: seq<Node>, head: nat, ghost order: seq<nat>, tail: Option<nat>, level: nat, s: int, v: int)
    returns (found: bool, ns3: seq<Node>, tail2: Option<nat>, top: nat, ghost c: nat)
    requires Inv(ns0, head, order, tail, level)
    ensures WalkEnd(Keys(ns0, order), Lt, s, v, c)
    ensures found <==> c < |order| && Keys(ns0, order)[c] == (s, v)
    ensures found ==>
      c < |order| && Inv(ns3, head, Del(order, c), tail2, top) && top <= level &&
      Keys(ns3, Del(order, c)) == Keys(ns0, order)[..c] + Keys(ns0, order)[c + 1..]
    ensures !found ==> ns3 == ns0 && tail2 == tail && top == level
  {
    var update, rank := Descend(ns0, head, order, level, s, v, Lt);
    c := rank[0];
    LevelZero(ns0, head, order, c);
    assert Lk(ns0, head, order, c, 0) == ns0[update[0]].level[0];
    var y := ns0[update[0]].level[0].forward;
    if y.Some? && ns0[y.value].score == s && ns0[y.value].value == v {
      found := true;
      ns3, tail2, top := Excise(ns0, head, order, tail, level, c, y.value, update, rank);
    } else {
      found, ns3, tail2, top := false, ns0, tail, level;
    }
  }

  /**
   * The found branch of Delete: node x, at position c, is unlinked from
   * every level, the node after it points back to x's predecessor (or that
   * predecessor becomes the tail), and empty top levels are dropped.
   */
  method Excise(ns0: seq<Node>, head: nat, ghost order: seq<nat>, tail: Option<nat>, level: nat,
                ghost c: nat, x: nat, update: seq<nat>, rank: seq<nat>)
    returns (ns3: seq<Node>, tail2: Option<nat>, top: nat)
    requires Inv(ns0, head, order, tail, level) && Walked(ns0, head, order, c, update, rank, level)
    requires c < |order| && x == order[c]
    ensures Inv(ns3, head, Del(order, c), tail2, top) && top <= level
    ensures Keys(ns3, Del(order, c)) == Keys(ns0, order)[..c] + Keys(ns0, order)[c + 1..]
  {
    LevelZero(ns0, head, order, c + 1);
    assert Lk(ns0, head, order, c + 1, 0) == ns0[x].level[0];
    UnlinkStart(ns0, head, order, c, update, rank, level);
    var ns2 := Unlink(ns0, head, order, c, x, update, rank, level);
    UnlinkDone(ns2, head, order, c, update, rank, level);
    var next := ns2[x].level[0].forward;
    if next.Some? {
      ns3 := SetBackward(ns2, next.value, ns2[x].backward);
      tail2 := tail;
    } else {
      ns3 := ns2;
      tail2 := ns2[x].backward;
    }
    KeepLinks(ns2, ns3, head, Del(order, c), level);
    top := Lower(ns3, head, Del(order, c), level);
    DeleteFinish(ns0, ns2, ns3, head, order, tail, level, top, c, tail2);
  }

  class SkipList {
    var nodes: seq<Node>
    var head: nat
    var tail: Option<nat>
    var length: nat
    var level: nat
    /** The listed nodes after the head, along level 0. */
    ghost var order: seq<nat>
    /** How many deletions `length` still counts. */
    ghost var removed: nat

    /** The skip list invariant; `length` counts the listed nodes and the deleted ones. */
    ghost predicate Valid()
      reads this
    {
      Inv(nodes, head, order, tail, level) && length == |order| + removed
    }

    /** Score and value of each element, in list order. */
    ghost function Entries(): seq<(int, int)>
      reads this
      requires Valid()
    {
      Keys(nodes, order)
    }

    /** NewSkipList: a head of height MaxLevel, no elements, level 1. */
    constructor ()
      ensures Valid() && Entries() == [] && length == 0 && level == 1 && tail == None && removed == 0
    {
      nodes := [NewNode(MaxLevel, 0, 0)];
      head := 0;
      tail := None;
      length := 0;
      level := 1;
      order := [];
      removed := 0;
      new;
      EmptyInv(nodes, head);
    }

    /** Clear: a fresh head, no elements, level 1. */
    method Clear()
      modifies this
      ensures Valid() && Entries() == [] && length == 0 && level == 1 && tail == None && removed == 0
    {
      nodes := nodes + [NewNode(MaxLevel, 0, 0)];
      head := |nodes| - 1;
      tail := None;
      length := 0;
      level := 1;
      order := [];
      removed := 0;
      EmptyInv(nodes, head);
    }

    /** Len: the number of elements, plus the deletions it still counts. */
    method Len() returns (r: nat)
      requires Valid()
      ensures r == |Entries()| + removed
    {
      r := length;
    }

    /**
     * Search: the walk with `!=`, then the node after where it ended, if that
     * node holds (s, v). With distinct scores this finds (s, v) exactly when
     * it is an element.
     */
    method Search(s: int, v: int) returns (r: Option<nat>, ghost c: nat)
      requires Valid()
      ensures WalkEnd(Entries(), Ne, s, v, c)
      ensures r.Some? <==> c < |Entries()| && Entries()[c] == (s, v)
      ensures r.Some? ==> r.value == order[c]
      ensures DistinctScores(Entries()) ==> (r.Some? <==> (s, v) in Entries())
    {
      var update, rank := Descend(nodes, head, order, level, s, v, Ne);
      c := rank[0];
      LevelZero(nodes, head, order, c);
      var y := nodes[update[0]].level[0].forward;
      if y.Some? && nodes[y.value].score == s && nodes[y.value].value == v {
        r := y;
      } else {
        r := None;
      }
      if DistinctScores(Entries()) && (s, v) in Entries() {
        WalkEndFinds(Entries(), Ne, s, v, c);
      }
    }

    /**
     * Insert: the walk with `!=`, a height drawn from the coin flips, new
     * levels started at the head when that height exceeds the list's, then
     * the new node (s, v) spliced in where the walk ended, its backward
     * pointers set and the length counted. The node is the walk's end plus
     * one; with the walk's order kept, the elements are the old ones with
     * (s, v) at index c.
     */
    method Insert(s: int, v: int, coins: seq<bool>) returns (x: nat, ghost c: nat)
      requires Valid()
      modifies this
      ensures Valid()
      ensures WalkEnd(old(Entries()), Ne, s, v, c)
      ensures Entries() == old(Entries())[..c] + [(s, v)] + old(Entries())[c..]
      ensures order == Ins(old(order), c, x) && x == |old(nodes)| && head == old(head)
      ensures |nodes[x].level| == CoinHeight(coins)
      ensures level == if CoinHeight(coins) > old(level) then CoinHeight(coins) else old(level)
      ensures length == old(length) + 1 && removed == old(removed)
    {
      var ns, tail2, top;
      ns, tail2, top, x, c := Inserted(nodes, head, order, tail, level, length, s, v, coins);
      nodes := ns;
      tail := tail2;
      level := top;
      length := length + 1;
      order := Ins(order, c, x);
    }

    /**
     * Delete: the walk with `<`; if the node after where it ended holds
     * (s, v), that node is unlinked and Delete answers true. The length is
     * left as it was: the deletion stays counted in `removed`.
     */
    method Delete(s: int, v: int) returns (r: bool, ghost c: nat)
      requires Valid()
      modifies this
      ensures Valid()
      ensures WalkEnd(old(Entries()), Lt, s, v, c)
      ensures r <==> c < |old(Entries())| && old(Entries())[c] == (s, v)
      ensures r ==> Entries() == old(Entries())[..c] + old(Entries())[c + 1..] && order == Del(old(order), c)
      ensures r ==> removed == old(removed) + 1 && level <= old(level)
      ensures !r ==> nodes == old(nodes) && order == old(order) && removed == old(removed) && level == old(level)
      ensures DistinctScores(old(Entries())) ==> (r <==> (s, v) in old(Entries()))
      ensures length == old(length) && head == old(head)
    {
      var ns, tail2, top;
      r, ns, tail2, top, c := Deleted(nodes, head, order, tail, level, s, v);
      if DistinctScores(Entries()) && (s, v) in Entries() {
        WalkEndFinds(Entries(), Lt, s, v, c);
      }
      if r {
        nodes := ns;
        tail := tail2;
        level := top;
        order := Del(order, c);
        removed := removed + 1;
      }
    }

    /**
     * Delete as its comment evidently intends, with the length counting
     * the elements: a successful deletion also decrements `length`.
     */
    method DeleteCounted(s: int, v: int) returns (r: bool, ghost c: nat)
      requires Valid()
      modifies this
      ensures Valid()
      ensures r <==> c < |old(Entries())| && old(Entries())[c] == (s, v)
      ensures r ==> Entries() == old(Entries())[..c] + old(Entries())[c + 1..]
      ensures !r ==> Entries() == old(Entries())
      ensures removed == old(removed) && length == |Entries()| + removed
    {
      r, c := Delete(s, v);
      if r {
        length := length - 1;
        removed := removed - 1;
      }
    }

    /**
     * GetElementByRank: the node at 1-based position r (the head for 0), or
     * nil past the last element.
     */
    method GetElementByRank(r: nat) returns (n: Option<nat>)
      requires Valid()
      ensures r <= |Entries()| ==> n == Some(if r == 0 then head else order[r - 1])
      ensures r > |Entries()| ==> n == None
    {
      n := ByRank(nodes, head, order, level, r);
    }

    /**
     * GetRank: the walk with `<=`, answering the rank walked so far as soon
     * as the node reached holds (s, v), and 0 if none does. A positive answer
     * is the element's 1-based position; with distinct scores every element
     * other than (0, 0) is found.
     */
    method GetRank(s: int, v: int) returns (r: nat)
      requires Valid()
      ensures r > 0 ==> r <= |Entries()| && Entries()[r - 1] == (s, v)
      ensures DistinctScores(Entries()) && (s, v) in Entries() && (s, v) != (0, 0) ==> r > 0
    {
      ghost var c;
      r, c := RankOf(nodes, head, order, level, s, v);
      if r == 0 && DistinctScores(Entries()) && (s, v) in Entries() && (s, v) != (0, 0) {
        WalkEndFinds(Entries(), Le, s, v, c);
      }
    }
  }
}
