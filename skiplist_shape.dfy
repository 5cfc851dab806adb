/**
 * The shape of the span skip list of skiplist/skiplist.go, as values.
 *
 * Nodes live in an arena (`seq<Node>`); a pointer is an index into it and
 * nil is `None`. The nodes on level 0, after the head, are listed by the
 * ghost sequence `order`; a node's position is 0 for the head and k + 1 for
 * `order[k]`. Position p's height is the number of its levels.
 *
 * The invariant `Inv` says what the list operations keep: each level-l
 * pointer leads to the next position whose height exceeds l, with a span of
 * exactly the positions between them; backward pointers mirror level 0;
 * the tail is the last node; scores do not decrease along level 0; and
 * `level` is the greatest height in use, at least 1. A nil pointer's span
 * is left free: the list writes stale values there (the length that Delete
 * never decrements) and never reads them.
 */
module SkipShape {
  import opened Wrappers

  /** MaxLevel: the head's height and the bound on every level. */
  const MaxLevel: nat := 32

  /** One level of a node: the next node on it and the level-0 steps it covers. */
  datatype Level = Level(forward: Option<nat>, span: int)

  /** A node: value, score, its levels (their number is its height) and the node before it on level 0. */
  datatype Node = Node(value: int, score: int, level: seq<Level>, backward: Option<nat>)

  /** A node of the given height with every pointer nil, as NewNode allocates it. */
  function NewNode(height: nat, score: int, value: int): (n: Node)
    ensures n.score == score && n.value == value && n.backward == None && |n.level| == height
    ensures forall l :: 0 <= l < height ==> n.level[l].forward == None
  {
    Node(value, score, seq(height, _ => Level(None, 0)), None)
  }

  /**
   * The value test a walk applies to a node with an equal score: `!=` in
   * Insert and Search, `<` in Delete, `<=` in GetRank.
   */
  datatype Cmp = Ne | Lt | Le

  /** A walk looking for (s, v) moves past a node with this score and value. */
  predicate Ahead(cmp: Cmp, score: int, value: int, s: int, v: int)
  {
    score < s ||
    (score == s && match cmp
      case Ne => value != v
      case Lt => value < v
      case Le => value <= v)
  }

  /** The node at position p: the head, or an element of `order`. */
  function Idx(head: nat, order: seq<nat>, p: nat): nat
    requires p <= |order|
  {
    if p == 0 then head else order[p - 1]
  }

  /** Every listed node is in the arena. */
  predicate Listed(ns: seq<Node>, order: seq<nat>)
  {
    forall k :: 0 <= k < |order| ==> order[k] < |ns|
  }

  /** The arena holds the head, of height MaxLevel, and the listed nodes, each once and at least one level high. */
  predicate Arena(ns: seq<Node>, head: nat, order: seq<nat>)
  {
    head < |ns| && |ns[head].level| == MaxLevel && Listed(ns, order) &&
    (forall k :: 0 <= k < |order| ==> order[k] < |ns| && order[k] != head && 1 <= |ns[order[k]].level|) &&
    (forall a, b :: 0 <= a < b < |order| ==> order[a] != order[b])
  }

  /** An arena whose listed nodes are at most `level` high, with 1 <= level <= MaxLevel. */
  predicate Wf(ns: seq<Node>, head: nat, order: seq<nat>, level: nat)
  {
    Arena(ns, head, order) && 1 <= level <= MaxLevel &&
    forall k :: 0 <= k < |order| ==> |ns[order[k]].level| <= level
  }

  /** The level-l pointer of the node at position p. */
  function Lk(ns: seq<Node>, head: nat, order: seq<nat>, p: nat, l: nat): Level
    requires head < |ns| && Listed(ns, order)
    requires p <= |order| && l < |ns[Idx(head, order, p)].level|
  {
    ns[Idx(head, order, p)].level[l]
  }

  /** Heights by position. */
  ghost function Hs(ns: seq<Node>, head: nat, order: seq<nat>): (hs: seq<nat>)
    requires head < |ns| && Listed(ns, order)
    ensures |hs| == |order| + 1
    ensures forall p :: 0 <= p <= |order| ==> hs[p] == |ns[Idx(head, order, p)].level|
  {
    seq(|order| + 1, p requires 0 <= p <= |order| => |ns[Idx(head, order, p)].level|)
  }

  /** Score and value of each listed node, in level-0 order. */
  ghost function Keys(ns: seq<Node>, order: seq<nat>): (ks: seq<(int, int)>)
    requires Listed(ns, order)
    ensures |ks| == |order|
    ensures forall k {:trigger ks[k]} :: 0 <= k < |order| ==> ks[k] == (ns[order[k]].score, ns[order[k]].value)
  {
    seq(|order|, k requires 0 <= k < |order| => (ns[order[k]].score, ns[order[k]].value))
  }

  /** No position strictly between a and b is taller than l. */
  ghost predicate Gap(hs: seq<nat>, a: nat, b: nat, l: nat)
  {
    forall r :: a < r < b && r < |hs| ==> hs[r] <= l
  }

  /**
   * Position p's level-l pointer: nil when no later position is taller
   * than l, otherwise the first such position, `span` positions ahead.
   */
  ghost predicate LinkOk(hs: seq<nat>, head: nat, order: seq<nat>, p: nat, l: nat, lk: Level)
    requires |hs| == |order| + 1
  {
    match lk.forward
    case None => Gap(hs, p, |hs|, l)
    case Some(y) =>
      0 < lk.span && p + lk.span < |hs| && y == Idx(head, order, p + lk.span) &&
      hs[p + lk.span] > l && Gap(hs, p, p + lk.span, l)
  }

  /** Level l of every position at least l + 1 high is linked as LinkOk says. */
  ghost predicate LinksAt(ns: seq<Node>, head: nat, order: seq<nat>, l: nat)
    requires head < |ns| && Listed(ns, order)
  {
    var hs := Hs(ns, head, order);
    forall p: nat {:trigger Lk(ns, head, order, p, l)} :: p <= |order| && l < hs[p] ==>
      LinkOk(hs, head, order, p, l, Lk(ns, head, order, p, l))
  }

  /** Every level is linked as LinkOk says. */
  ghost predicate Links(ns: seq<Node>, head: nat, order: seq<nat>)
    requires head < |ns| && Listed(ns, order)
  {
    forall l: nat :: LinksAt(ns, head, order, l)
  }

  /** Each listed node's backward pointer is the node before it, nil for the first. */
  ghost predicate Backs(ns: seq<Node>, order: seq<nat>)
    requires Listed(ns, order)
  {
    forall k :: 0 <= k < |order| ==> ns[order[k]].backward == (if k == 0 then None else Some(order[k - 1]))
  }

  /** Scores never decrease along level 0. */
  ghost predicate Sorted(ks: seq<(int, int)>)
  {
    forall a, b :: 0 <= a < b < |ks| ==> ks[a].0 <= ks[b].0
  }

  /** No two elements share a score. */
  ghost predicate DistinctScores(ks: seq<(int, int)>)
  {
    forall a, b :: 0 <= a < b < |ks| ==> ks[a].0 != ks[b].0
  }

  /** The last node, or nil for an empty list. */
  function Last(order: seq<nat>): Option<nat>
  {
    if order == [] then None else Some(order[|order| - 1])
  }

  /** The skip list invariant (see the module comment). */
  ghost predicate Inv(ns: seq<Node>, head: nat, order: seq<nat>, tail: Option<nat>, level: nat)
  {
    Wf(ns, head, order, level) &&
    ns[head].score == 0 && ns[head].value == 0 &&
    Links(ns, head, order) && Backs(ns, order) && Sorted(Keys(ns, order)) &&
    (level == 1 || ns[head].level[level - 1].forward.Some?) &&
    tail == Last(order)
  }

  /**
   * Where a walk for (s, v) ends on level 0: at position c, with the node
   * there (if any) one it moves past and the next node (if any) one it
   * does not.
   */
  ghost predicate WalkEnd(ks: seq<(int, int)>, cmp: Cmp, s: int, v: int, c: nat)
  {
    c <= |ks| &&
    (c == 0 || Ahead(cmp, ks[c - 1].0, ks[c - 1].1, s, v)) &&
    (c == |ks| || !Ahead(cmp, ks[c].0, ks[c].1, s, v))
  }

  /**
   * Position u is where a walk left level j, and the walk is now at position
   * px: the level-j pointer at u is nil or leads past px.
   */
  ghost predicate Ready(ns: seq<Node>, head: nat, order: seq<nat>, u: nat, j: nat, px: nat)
    requires head < |ns| && Listed(ns, order)
  {
    u <= px <= |order| && j < |ns[Idx(head, order, u)].level| &&
    (Lk(ns, head, order, u, j).forward.Some? ==> u + Lk(ns, head, order, u, j).span > px)
  }

  /**
   * A walk for (s, v) stopped on level j at position u and is now at px:
   * Ready, and the node the level-j pointer leads to is one the walk does
   * not move past.
   */
  ghost predicate Stop(ns: seq<Node>, head: nat, order: seq<nat>, cmp: Cmp, s: int, v: int, u: nat, j: nat, px: nat)
    requires head < |ns| && Listed(ns, order)
  {
    Ready(ns, head, order, u, j, px) && Blocked(ns, head, order, cmp, s, v, u, j)
  }

  /** The level-j pointer at position u leads to a node a walk for (s, v) does not move past. */
  ghost predicate Blocked(ns: seq<Node>, head: nat, order: seq<nat>, cmp: Cmp, s: int, v: int, u: nat, j: nat)
    requires head < |ns| && Listed(ns, order)
    requires u <= |order| && j < |ns[Idx(head, order, u)].level|
  {
    var q := u + Lk(ns, head, order, u, j).span;
    (Lk(ns, head, order, u, j).forward.Some? && 0 < q <= |order| ==>
      !Ahead(cmp, Keys(ns, order)[q - 1].0, Keys(ns, order)[q - 1].1, s, v))
  }

  // ---------------------------------------------------------------------
  // Walks

  /** On level 0 the pointer of position p leads to position p + 1, and is nil only at the last position. */
  lemma LevelZero(ns: seq<Node>, head: nat, order: seq<nat>, p: nat)
    requires Arena(ns, head, order) && Links(ns, head, order) && p <= |order|
    ensures Lk(ns, head, order, p, 0).forward.Some? <==> p < |order|
    ensures p < |order| ==>
      Lk(ns, head, order, p, 0).span == 1 && Lk(ns, head, order, p, 0).forward == Some(order[p])
  {
    assert LinksAt(ns, head, order, 0);
    var hs := Hs(ns, head, order);
    var lk := Lk(ns, head, order, p, 0);
    assert LinkOk(hs, head, order, p, 0, lk);
    if p < |order| {
      assert hs[p + 1] >= 1;
    }
  }

  /** Where the level-l pointer of position p leads: a later position, at least l + 1 high, span steps on. */
  ghost predicate Next(ns: seq<Node>, head: nat, order: seq<nat>, p: nat, l: nat)
    requires head < |ns| && Listed(ns, order)
    requires p <= |order| && l < |ns[Idx(head, order, p)].level|
  {
    var lk := Lk(ns, head, order, p, l);
    lk.forward.Some? ==>
      0 < lk.span && p + lk.span <= |order| && lk.forward.value == Idx(head, order, p + lk.span) &&
      l < |ns[lk.forward.value].level|
  }

  /** Next follows from the links. */
  lemma Step(ns: seq<Node>, head: nat, order: seq<nat>, p: nat, l: nat)
    requires Arena(ns, head, order) && Links(ns, head, order)
    requires p <= |order| && l < |ns[Idx(head, order, p)].level|
    ensures Next(ns, head, order, p, l)
  {
    assert LinksAt(ns, head, order, l);
    assert LinkOk(Hs(ns, head, order), head, order, p, l, Lk(ns, head, order, p, l));
  }

  /**
   * One move of a walk on level i, from position px to position q: every
   * level j above, stopped at or before px, is still stopped at or before q.
   */
  lemma StopStep(ns: seq<Node>, head: nat, order: seq<nat>, cmp: Cmp, s: int, v: int,
                 px: nat, i: nat, u: nat, j: nat)
    requires Arena(ns, head, order) && Links(ns, head, order)
    requires px <= |order| && i < |ns[Idx(head, order, px)].level|
    requires Lk(ns, head, order, px, i).forward.Some?
    requires var q := px + Lk(ns, head, order, px, i).span;
      0 < q <= |order| && Ahead(cmp, Keys(ns, order)[q - 1].0, Keys(ns, order)[q - 1].1, s, v)
    requires i < j && Stop(ns, head, order, cmp, s, v, u, j, px)
    ensures Stop(ns, head, order, cmp, s, v, u, j, px + Lk(ns, head, order, px, i).span)
  {
    assert LinksAt(ns, head, order, i) && LinksAt(ns, head, order, j);
    var hs := Hs(ns, head, order);
    var lk := Lk(ns, head, order, u, j);
    assert LinkOk(hs, head, order, px, i, Lk(ns, head, order, px, i));
    if lk.forward.Some? {
      assert LinkOk(hs, head, order, u, j, lk);
      var ks := Keys(ns, order);
      PastTarget(hs, ks, cmp, s, v, px, px + Lk(ns, head, order, px, i).span, i, u + lk.span, j);
    }
  }

  /**
   * A taller target r, past px and not moved past, is also past q when the
   * walk moves from px to q over positions no taller than i.
   */
  lemma PastTarget(hs: seq<nat>, ks: seq<(int, int)>, cmp: Cmp, s: int, v: int, px: nat, q: nat, i: nat, r: nat, j: nat)
    requires |hs| == |ks| + 1 && px < q < |hs| && Gap(hs, px, q, i) && i < j
    requires 0 < q && Ahead(cmp, ks[q - 1].0, ks[q - 1].1, s, v)
    requires px < r < |hs| && hs[r] > j && !Ahead(cmp, ks[r - 1].0, ks[r - 1].1, s, v)
    ensures r > q
  {
  }

  /** With distinct scores, a walk's end is fixed: the element itself, or the one after it for `<=`. */
  lemma WalkEndFinds(ks: seq<(int, int)>, cmp: Cmp, s: int, v: int, c: nat)
    requires Sorted(ks) && DistinctScores(ks) && WalkEnd(ks, cmp, s, v, c) && (s, v) in ks
    ensures cmp != Le ==> c < |ks| && ks[c] == (s, v)
    ensures cmp == Le ==> 0 < c && ks[c - 1] == (s, v)
  {
    var j :| 0 <= j < |ks| && ks[j] == (s, v);
    assert forall k | 0 <= k < j :: ks[k].0 < s;
    assert forall k | j < k < |ks| :: ks[k].0 > s;
  }

  // ---------------------------------------------------------------------
  // Updates in place

  /** The arena with the level-i pointer of node k replaced by lk. */
  function SetLevel(ns: seq<Node>, k: nat, i: nat, lk: Level): (r: seq<Node>)
    requires k < |ns| && i < |ns[k].level|
    ensures |r| == |ns|
    ensures forall j :: 0 <= j < |ns| ==>
      r[j].score == ns[j].score && r[j].value == ns[j].value && r[j].backward == ns[j].backward &&
      |r[j].level| == |ns[j].level|
    ensures forall j, m :: 0 <= j < |ns| && 0 <= m < |ns[j].level| ==>
      r[j].level[m] == if j == k && m == i then lk else ns[j].level[m]
  {
    ns[k := ns[k].(level := ns[k].level[i := lk])]
  }

  /** The arena with the backward pointer of node k replaced by b. */
  function SetBackward(ns: seq<Node>, k: nat, b: Option<nat>): (r: seq<Node>)
    requires k < |ns|
    ensures |r| == |ns| && r[k].backward == b
    ensures forall j :: 0 <= j < |ns| ==>
      r[j].score == ns[j].score && r[j].value == ns[j].value && r[j].level == ns[j].level &&
      (j != k ==> r[j].backward == ns[j].backward)
  {
    ns[k := ns[k].(backward := b)]
  }

  /**
   * Arenas a and b hold the same nodes with the same keys and heights and
   * the same level-l pointers, up to the span of a nil pointer.
   */
  ghost predicate AgreeAt(a: seq<Node>, b: seq<Node>, l: nat)
  {
    |a| == |b| &&
    forall k :: 0 <= k < |a| ==>
      |a[k].level| == |b[k].level| && a[k].score == b[k].score && a[k].value == b[k].value &&
      (l < |a[k].level| ==> b[k].level[l] == a[k].level[l] || (a[k].level[l].forward.None? && b[k].level[l].forward.None?))
  }

  /** What AgreeAt keeps: the arena, heights, keys, the level-l links and the level-l walk facts. */
  lemma Agree(a: seq<Node>, b: seq<Node>, head: nat, order: seq<nat>, l: nat)
    requires Arena(a, head, order) && AgreeAt(a, b, l)
    ensures Arena(b, head, order) && Hs(b, head, order) == Hs(a, head, order) && Keys(b, order) == Keys(a, order)
    ensures LinksAt(a, head, order, l) ==> LinksAt(b, head, order, l)
    ensures forall u: nat, px: nat :: Ready(a, head, order, u, l, px) ==> Ready(b, head, order, u, l, px)
  {
    AgreeArena(a, b, head, order, l);
    if LinksAt(a, head, order, l) {
      AgreeLinks(a, b, head, order, l);
    }
    AgreeReady(a, b, head, order, l);
  }

  /** AgreeAt keeps the arena, the heights and the keys. */
  lemma AgreeArena(a: seq<Node>, b: seq<Node>, head: nat, order: seq<nat>, l: nat)
    requires Arena(a, head, order) && AgreeAt(a, b, l)
    ensures Arena(b, head, order) && Hs(b, head, order) == Hs(a, head, order) && Keys(b, order) == Keys(a, order)
  {
  }

  /** AgreeAt keeps the level-l links. */
  lemma AgreeLinks(a: seq<Node>, b: seq<Node>, head: nat, order: seq<nat>, l: nat)
    requires Arena(a, head, order) && AgreeAt(a, b, l) && LinksAt(a, head, order, l)
    ensures LinksAt(b, head, order, l)
  {
    AgreeArena(a, b, head, order, l);
    var hs := Hs(a, head, order);
    forall p: nat | p <= |order| && l < hs[p]
      ensures LinkOk(hs, head, order, p, l, Lk(b, head, order, p, l))
    {
      assert LinkOk(hs, head, order, p, l, Lk(a, head, order, p, l));
    }
  }

  /** AgreeAt keeps where walks may have left level l. */
  lemma AgreeReady(a: seq<Node>, b: seq<Node>, head: nat, order: seq<nat>, l: nat)
    requires Arena(a, head, order) && AgreeAt(a, b, l)
    ensures forall u: nat, px: nat :: Ready(a, head, order, u, l, px) ==> Ready(b, head, order, u, l, px)
  {
  }

  /** Nothing listed is taller than level: the head's pointers from level up are nil. */
  lemma HighNil(ns: seq<Node>, head: nat, order: seq<nat>, level: nat, l: nat)
    requires Wf(ns, head, order, level) && LinksAt(ns, head, order, l) && level <= l < MaxLevel
    ensures Lk(ns, head, order, 0, l).forward.None?
  {
    assert LinkOk(Hs(ns, head, order), head, order, 0, l, Lk(ns, head, order, 0, l));
  }

  /** A level no listed node reaches is linked when the head's pointer on it is nil. */
  lemma NilLinks(ns: seq<Node>, head: nat, order: seq<nat>, l: nat)
    requires Arena(ns, head, order) && l < MaxLevel && Lk(ns, head, order, 0, l).forward.None?
    requires forall k :: 0 <= k < |order| ==> |ns[order[k]].level| <= l
    ensures LinksAt(ns, head, order, l)
  {
  }

  /** The head comes first and each listed node at one position only. */
  lemma IdxInjective(ns: seq<Node>, head: nat, order: seq<nat>, p: nat, q: nat)
    requires Arena(ns, head, order) && p <= |order| && q <= |order|
    ensures Idx(head, order, p) == Idx(head, order, q) <==> p == q
  {
  }

  /** The list with x inserted after position c. */
  function Ins(order: seq<nat>, c: nat, x: nat): (o: seq<nat>)
    requires c <= |order|
    ensures |o| == |order| + 1
    ensures forall k :: 0 <= k < |o| ==> o[k] == if k < c then order[k] else if k == c then x else order[k - 1]
  {
    order[..c] + [x] + order[c..]
  }

  /** The list without the node at position c + 1. */
  function Del(order: seq<nat>, c: nat): (o: seq<nat>)
    requires c < |order|
    ensures |o| == |order| - 1
    ensures forall k :: 0 <= k < |o| ==> o[k] == if k < c then order[k] else order[k + 1]
  {
    order[..c] + order[c + 1..]
  }

  /** Arenas with the same nodes and heights. */
  ghost predicate SameHeights(a: seq<Node>, b: seq<Node>)
  {
    |a| == |b| && forall k :: 0 <= k < |a| ==> |a[k].level| == |b[k].level|
  }

  /** Inserting x after position c inserts its height into the heights. */
  lemma HsIns(ns: seq<Node>, ns2: seq<Node>, head: nat, order: seq<nat>, c: nat, x: nat)
    requires Arena(ns, head, order) && SameHeights(ns, ns2) && c <= |order| && x < |ns|
    ensures InsAt(Hs(ns, head, order), Hs(ns2, head, Ins(order, c, x)), c, |ns[x].level|)
  {
    var o2 := Ins(order, c, x);
    forall p | c + 1 < p <= |o2|
      ensures Idx(head, o2, p) == Idx(head, order, p - 1)
    {
    }
  }

  /** Removing the node at position c + 1 removes its height from the heights. */
  lemma HsDel(ns: seq<Node>, ns2: seq<Node>, head: nat, order: seq<nat>, c: nat)
    requires Arena(ns, head, order) && SameHeights(ns, ns2) && c < |order|
    ensures DelAt(Hs(ns, head, order), Hs(ns2, head, Del(order, c)), c)
  {
    var o2 := Del(order, c);
    forall p | c < p <= |o2|
      ensures Idx(head, o2, p) == Idx(head, order, p + 1)
    {
    }
  }

  /** hs2 is hs with height h inserted after position c. */
  ghost predicate InsAt(hs: seq<nat>, hs2: seq<nat>, c: nat, h: nat)
  {
    |hs2| == |hs| + 1 && c < |hs| &&
    forall q {:trigger hs2[q]} :: 0 <= q < |hs2| ==> hs2[q] == if q <= c then hs[q] else if q == c + 1 then h else hs[q - 1]
  }

  /** hs2 is hs without the height at position c + 1. */
  ghost predicate DelAt(hs: seq<nat>, hs2: seq<nat>, c: nat)
  {
    |hs2| + 1 == |hs| && c + 1 < |hs| &&
    forall q {:trigger hs2[q]} :: 0 <= q < |hs2| ==> hs2[q] == if q <= c then hs[q] else hs[q + 1]
  }

  /** Gaps before, after and across the insertion point. */
  lemma GapIns(hs: seq<nat>, hs2: seq<nat>, c: nat, h: nat, a: nat, b: nat, l: nat)
    requires InsAt(hs, hs2, c, h) && Gap(hs, a, b, l) && b <= |hs|
    ensures b <= c + 1 ==> Gap(hs2, a, b, l)
    ensures c < a ==> Gap(hs2, a + 1, b + 1, l)
    ensures a <= c < b ==> Gap(hs2, a, c + 1, l) && Gap(hs2, c + 1, b + 1, l)
    ensures a <= c < b && h <= l ==> Gap(hs2, a, b + 1, l)
  {
    forall q | 0 <= q < |hs2| && q != c + 1
      ensures hs2[q] == hs[if q <= c then q else q - 1]
    {
    }
  }

  /** A pointer from before the insertion point to a node no later than c is unchanged. */
  lemma InsBefore(hs: seq<nat>, hs2: seq<nat>, head: nat, order: seq<nat>, c: nat, x: nat, h: nat, p: nat, r: nat, l: nat, a: Level)
    requires |hs| == |order| + 1 && c <= |order| && InsAt(hs, hs2, c, h)
    requires p < r <= c && hs[r] > l && LinkOk(hs, head, order, p, l, a)
    ensures LinkOk(hs2, head, Ins(order, c, x), p, l, a)
  {
    assert a.forward.Some? && p + a.span <= r;
    GapIns(hs, hs2, c, h, p, p + a.span, l);
  }

  /** A pointer from after the insertion point keeps its span and moves one position on, to p. */
  lemma InsAfter(hs: seq<nat>, hs2: seq<nat>, head: nat, order: seq<nat>, c: nat, x: nat, h: nat, p: nat, l: nat, a: Level)
    requires |hs| == |order| + 1 && c + 1 < p <= |order| + 1 && InsAt(hs, hs2, c, h)
    requires LinkOk(hs, head, order, p - 1, l, a)
    ensures LinkOk(hs2, head, Ins(order, c, x), p, l, a)
  {
    var o2 := Ins(order, c, x);
    if a.forward.Some? {
      GapIns(hs, hs2, c, h, p - 1, p - 1 + a.span, l);
      assert Idx(head, o2, p + a.span) == Idx(head, order, p - 1 + a.span);
    } else {
      GapIns(hs, hs2, c, h, p - 1, |hs|, l);
    }
  }

  /** The walk's node on level l, at r, now points to x at c + 1. */
  lemma InsToNew(hs: seq<nat>, hs2: seq<nat>, head: nat, order: seq<nat>, c: nat, x: nat, h: nat, r: nat, l: nat)
    requires |hs| == |order| + 1 && c <= |order| && InsAt(hs, hs2, c, h)
    requires r <= c && l < h && Gap(hs, r, c + 1, l)
    ensures LinkOk(hs2, head, Ins(order, c, x), r, l, Level(Some(x), c - r + 1))
  {
    GapIns(hs, hs2, c, h, r, c + 1, l);
  }

  /** x, at c + 1, takes over the walk node's pointer with the rest of its span. */
  lemma InsFromNew(hs: seq<nat>, hs2: seq<nat>, head: nat, order: seq<nat>, c: nat, x: nat, h: nat, r: nat, l: nat, lk: Level)
    requires |hs| == |order| + 1 && c <= |order| && InsAt(hs, hs2, c, h)
    requires r <= c && LinkOk(hs, head, order, r, l, lk) && (lk.forward.Some? ==> r + lk.span > c)
    ensures LinkOk(hs2, head, Ins(order, c, x), c + 1, l, Level(lk.forward, lk.span - (c - r)))
  {
    var o2 := Ins(order, c, x);
    if lk.forward.Some? {
      GapIns(hs, hs2, c, h, r, r + lk.span, l);
      assert Idx(head, o2, r + lk.span + 1) == Idx(head, order, r + lk.span);
    } else {
      GapIns(hs, hs2, c, h, r, |hs|, l);
    }
  }

  /** On a level x does not reach, the walk node's pointer now covers one more step. */
  lemma InsOver(hs: seq<nat>, hs2: seq<nat>, head: nat, order: seq<nat>, c: nat, x: nat, h: nat, r: nat, l: nat, lk: Level)
    requires |hs| == |order| + 1 && c <= |order| && InsAt(hs, hs2, c, h)
    requires r <= c && h <= l && LinkOk(hs, head, order, r, l, lk) && (lk.forward.Some? ==> r + lk.span > c)
    ensures LinkOk(hs2, head, Ins(order, c, x), r, l, lk.(span := lk.span + 1))
  {
    var o2 := Ins(order, c, x);
    if lk.forward.Some? {
      GapIns(hs, hs2, c, h, r, r + lk.span, l);
      assert Idx(head, o2, r + lk.span + 1) == Idx(head, order, r + lk.span);
    } else {
      GapIns(hs, hs2, c, h, r, |hs|, l);
    }
  }

  /** Listing a new node x, at least one level high, keeps the arena. */
  lemma ArenaIns(ns: seq<Node>, ns2: seq<Node>, head: nat, order: seq<nat>, c: nat, x: nat)
    requires Arena(ns, head, order) && SameHeights(ns, ns2) && c <= |order|
    requires x < |ns| && x != head && x !in order && 1 <= |ns[x].level|
    ensures Arena(ns2, head, Ins(order, c, x))
  {
    var o2 := Ins(order, c, x);
    forall a, b | 0 <= a < b < |o2| ensures o2[a] != o2[b] {
      if b < c || a > c {
      } else if a == c || b == c {
        assert order[if a == c then b - 1 else a] in order;
      }
    }
  }

  /**
   * Splicing node x in after position c on level l, as Insert does: the
   * node at position r, where the walk left level l, now points to x with a
   * span of c - r + 1, and x takes over its old pointer with the rest of
   * the span.
   */
  ghost predicate Spliced(ns: seq<Node>, ns2: seq<Node>, head: nat, order: seq<nat>, c: nat, x: nat, r: nat, l: nat)
    requires Arena(ns, head, order) && x < |ns| && l < |ns[x].level|
    requires r <= |order| && l < |ns[Idx(head, order, r)].level|
  {
    var lk := Lk(ns, head, order, r, l);
    ns2 == SetLevel(SetLevel(ns, x, l, Level(lk.forward, lk.span - (c - r))), Idx(head, order, r), l, Level(Some(x), c - r + 1))
  }

  /** After the splice, level l is linked for the list with x inserted. */
  lemma SpliceLevel(ns: seq<Node>, ns2: seq<Node>, head: nat, order: seq<nat>, c: nat, x: nat, r: nat, l: nat)
    requires Arena(ns, head, order) && LinksAt(ns, head, order, l)
    requires x < |ns| && x != head && x !in order && l < |ns[x].level|
    requires Ready(ns, head, order, r, l, c) && Spliced(ns, ns2, head, order, c, x, r, l)
    ensures Arena(ns2, head, Ins(order, c, x)) && LinksAt(ns2, head, Ins(order, c, x), l)
  {
    var o2 := Ins(order, c, x);
    ArenaIns(ns, ns2, head, order, c, x);
    HsIns(ns, ns2, head, order, c, x);
    var hs := Hs(ns, head, order);
    var hs2 := Hs(ns2, head, o2);
    var lk := Lk(ns, head, order, r, l);
    assert Keeps(ns, ns2, l, Idx(head, order, r), x);
    assert InsCtx(ns, ns2, head, order, c, x, r, l);
    assert LinkOk(hs, head, order, r, l, lk);
    assert Gap(hs, r, c + 1, l);
    forall p: nat | p <= |o2| && l < hs2[p]
      ensures LinkOk(hs2, head, o2, p, l, Lk(ns2, head, o2, p, l))
    {
      assert p <= r || p > c;
      if p < r {
        KeptBefore(ns, ns2, head, order, c, x, r, l, p);
      } else if p == r {
        SpliceFrom(ns, ns2, head, order, c, x, r, l, p);
      } else if p == c + 1 {
        SpliceNew(ns, ns2, head, order, c, x, r, l, p);
      } else {
        KeptAfter(ns, ns2, head, order, c, x, r, l, p);
      }
    }
  }

  /**
   * On a level l that x does not reach, Insert adds one to the span of the
   * pointer where the walk left level l: level l is then linked for the
   * list with x inserted.
   */
  lemma BumpLevel(ns: seq<Node>, ns2: seq<Node>, head: nat, order: seq<nat>, c: nat, x: nat, r: nat, l: nat)
    requires Arena(ns, head, order) && LinksAt(ns, head, order, l)
    requires x < |ns| && x != head && x !in order && 1 <= |ns[x].level| <= l
    requires Ready(ns, head, order, r, l, c)
    requires var lk := Lk(ns, head, order, r, l); ns2 == SetLevel(ns, Idx(head, order, r), l, lk.(span := lk.span + 1))
    ensures Arena(ns2, head, Ins(order, c, x)) && LinksAt(ns2, head, Ins(order, c, x), l)
  {
    var o2 := Ins(order, c, x);
    ArenaIns(ns, ns2, head, order, c, x);
    HsIns(ns, ns2, head, order, c, x);
    var hs := Hs(ns, head, order);
    var hs2 := Hs(ns2, head, o2);
    var lk := Lk(ns, head, order, r, l);
    assert Keeps(ns, ns2, l, Idx(head, order, r), x);
    assert InsCtx(ns, ns2, head, order, c, x, r, l);
    assert LinkOk(hs, head, order, r, l, lk);
    assert Gap(hs, r, c + 1, l);
    forall p: nat | p <= |o2| && l < hs2[p]
      ensures LinkOk(hs2, head, o2, p, l, Lk(ns2, head, o2, p, l))
    {
      assert p <= r || p > c + 1;
      if p < r {
        KeptBefore(ns, ns2, head, order, c, x, r, l, p);
      } else if p == r {
        BumpFrom(ns, ns2, head, order, c, x, r, l, p);
      } else {
        KeptAfter(ns, ns2, head, order, c, x, r, l, p);
      }
    }
  }

  /** Level l of ns2 is that of ns but at nodes u and x. */
  ghost predicate Keeps(ns: seq<Node>, ns2: seq<Node>, l: nat, u: nat, x: nat)
  {
    SameHeights(ns, ns2) && u < |ns| && x < |ns| && l < |ns[u].level| &&
    forall k :: 0 <= k < |ns| && k != u && k != x && l < |ns[k].level| ==> ns2[k].level[l] == ns[k].level[l]
  }

  /** What the insertion lemmas know about the arenas before and after x is listed after position c. */
  ghost predicate InsCtx(ns: seq<Node>, ns2: seq<Node>, head: nat, order: seq<nat>, c: nat, x: nat, r: nat, l: nat)
  {
    Arena(ns, head, order) && LinksAt(ns, head, order, l) &&
    x < |ns| && x != head && x !in order &&
    Ready(ns, head, order, r, l, c) && Keeps(ns, ns2, l, Idx(head, order, r), x) &&
    Arena(ns2, head, Ins(order, c, x)) &&
    InsAt(Hs(ns, head, order), Hs(ns2, head, Ins(order, c, x)), c, |ns[x].level|)
  }

  /** At a position before the walk's node, the level-l pointer is kept. */
  lemma KeptBefore(ns: seq<Node>, ns2: seq<Node>, head: nat, order: seq<nat>, c: nat, x: nat, r: nat, l: nat, p: nat)
    requires InsCtx(ns, ns2, head, order, c, x, r, l)
    requires p < r && l < Hs(ns2, head, Ins(order, c, x))[p]
    ensures LinkOk(Hs(ns2, head, Ins(order, c, x)), head, Ins(order, c, x), p, l, Lk(ns2, head, Ins(order, c, x), p, l))
  {
    var o2 := Ins(order, c, x);
    IdxInjective(ns, head, order, p, r);
    var a := Lk(ns, head, order, p, l);
    assert Lk(ns2, head, o2, p, l) == a;
    InsBefore(Hs(ns, head, order), Hs(ns2, head, o2), head, order, c, x, |ns[x].level|, p, r, l, a);
  }

  /** At a position after the new node, the level-l pointer is kept. */
  lemma KeptAfter(ns: seq<Node>, ns2: seq<Node>, head: nat, order: seq<nat>, c: nat, x: nat, r: nat, l: nat, p: nat)
    requires InsCtx(ns, ns2, head, order, c, x, r, l)
    requires c + 1 < p <= |order| + 1 && l < Hs(ns2, head, Ins(order, c, x))[p]
    ensures LinkOk(Hs(ns2, head, Ins(order, c, x)), head, Ins(order, c, x), p, l, Lk(ns2, head, Ins(order, c, x), p, l))
  {
    var o2 := Ins(order, c, x);
    var hs := Hs(ns, head, order);
    var a := Lk(ns, head, order, p - 1, l);
    IdxInjective(ns, head, order, p - 1, r);
    assert order[p - 2] in order;
    assert Idx(head, o2, p) == Idx(head, order, p - 1) != x;
    assert Lk(ns2, head, o2, p, l) == a;
    assert LinkOk(hs, head, order, p - 1, l, a);
    InsAfter(hs, Hs(ns2, head, o2), head, order, c, x, |ns[x].level|, p, l, a);
  }

  /** SpliceLevel at the walk's node, which now points to x. */
  lemma SpliceFrom(ns: seq<Node>, ns2: seq<Node>, head: nat, order: seq<nat>, c: nat, x: nat, r: nat, l: nat, p: nat)
    requires InsCtx(ns, ns2, head, order, c, x, r, l) && p == r && l < |ns[x].level|
    requires ns2[Idx(head, order, r)].level[l] == Level(Some(x), c - r + 1)
    ensures LinkOk(Hs(ns2, head, Ins(order, c, x)), head, Ins(order, c, x), p, l, Lk(ns2, head, Ins(order, c, x), p, l))
  {
    var o2 := Ins(order, c, x);
    var hs := Hs(ns, head, order);
    assert LinkOk(hs, head, order, r, l, Lk(ns, head, order, r, l));
    assert Idx(head, o2, r) == Idx(head, order, r);
    InsToNew(hs, Hs(ns2, head, o2), head, order, c, x, |ns[x].level|, r, l);
  }

  /** SpliceLevel at the new node, which takes over the walk node's pointer. */
  lemma SpliceNew(ns: seq<Node>, ns2: seq<Node>, head: nat, order: seq<nat>, c: nat, x: nat, r: nat, l: nat, p: nat)
    requires InsCtx(ns, ns2, head, order, c, x, r, l) && p == c + 1 && l < |ns[x].level|
    requires var lk := Lk(ns, head, order, r, l); ns2[x].level[l] == Level(lk.forward, lk.span - (c - r))
    ensures LinkOk(Hs(ns2, head, Ins(order, c, x)), head, Ins(order, c, x), p, l, Lk(ns2, head, Ins(order, c, x), p, l))
  {
    var o2 := Ins(order, c, x);
    var hs := Hs(ns, head, order);
    var lk := Lk(ns, head, order, r, l);
    assert LinkOk(hs, head, order, r, l, lk);
    assert Idx(head, o2, c + 1) == x;
    InsFromNew(hs, Hs(ns2, head, o2), head, order, c, x, |ns[x].level|, r, l, lk);
  }

  /** BumpLevel at the walk's node, whose pointer now spans one more step. */
  lemma BumpFrom(ns: seq<Node>, ns2: seq<Node>, head: nat, order: seq<nat>, c: nat, x: nat, r: nat, l: nat, p: nat)
    requires InsCtx(ns, ns2, head, order, c, x, r, l) && p == r && |ns[x].level| <= l
    requires var lk := Lk(ns, head, order, r, l); ns2[Idx(head, order, r)].level[l] == lk.(span := lk.span + 1)
    ensures LinkOk(Hs(ns2, head, Ins(order, c, x)), head, Ins(order, c, x), p, l, Lk(ns2, head, Ins(order, c, x), p, l))
  {
    var o2 := Ins(order, c, x);
    var hs := Hs(ns, head, order);
    var lk := Lk(ns, head, order, r, l);
    assert LinkOk(hs, head, order, r, l, lk);
    assert Idx(head, o2, r) == Idx(head, order, r);
    InsOver(hs, Hs(ns2, head, o2), head, order, c, x, |ns[x].level|, r, l, lk);
  }

  // ---------------------------------------------------------------------
  // Delete

  /** Gaps before, after and across the removed position c + 1. */
  lemma GapDel(hs: seq<nat>, hs2: seq<nat>, c: nat, a: nat, b: nat, l: nat)
    requires DelAt(hs, hs2, c) && b <= |hs|
    ensures Gap(hs, a, b, l) && b <= c + 1 ==> Gap(hs2, a, b, l)
    ensures Gap(hs, a, b, l) && c + 1 < a < b ==> Gap(hs2, a - 1, b - 1, l)
    ensures Gap(hs, a, b, l) && a <= c + 1 < b ==> Gap(hs2, a, b - 1, l)
    ensures a <= c && c + 1 < b && Gap(hs, a, c + 1, l) && Gap(hs, c + 1, b, l) ==> Gap(hs2, a, b - 1, l)
  {
    forall q | 0 <= q < |hs2|
      ensures hs2[q] == hs[if q <= c then q else q + 1]
    {
    }
  }

  /** A pointer from before the walk's node r is unchanged by removing position c + 1. */
  lemma DelBefore(hs: seq<nat>, hs2: seq<nat>, head: nat, order: seq<nat>, c: nat, p: nat, r: nat, l: nat, a: Level)
    requires |hs| == |order| + 1 && c < |order| && DelAt(hs, hs2, c)
    requires p < r <= c && hs[r] > l && LinkOk(hs, head, order, p, l, a)
    ensures LinkOk(hs2, head, Del(order, c), p, l, a)
  {
    assert a.forward.Some? && p + a.span <= r;
    GapDel(hs, hs2, c, p, p + a.span, l);
  }

  /** A pointer from after the removed position keeps its span and moves one position back, to p. */
  lemma DelAfter(hs: seq<nat>, hs2: seq<nat>, head: nat, order: seq<nat>, c: nat, p: nat, l: nat, a: Level)
    requires |hs| == |order| + 1 && c < p < |order| && DelAt(hs, hs2, c)
    requires LinkOk(hs, head, order, p + 1, l, a)
    ensures LinkOk(hs2, head, Del(order, c), p, l, a)
  {
    var o2 := Del(order, c);
    if a.forward.Some? {
      GapDel(hs, hs2, c, p + 1, p + 1 + a.span, l);
      assert Idx(head, o2, p + a.span) == Idx(head, order, p + 1 + a.span);
    } else {
      GapDel(hs, hs2, c, p + 1, |hs|, l);
    }
  }

  /** The walk's node r, which pointed to the removed node, takes over that node's pointer. */
  lemma DelThrough(hs: seq<nat>, hs2: seq<nat>, head: nat, order: seq<nat>, c: nat, r: nat, l: nat, lk: Level, xk: Level)
    requires |hs| == |order| + 1 && c < |order| && DelAt(hs, hs2, c)
    requires r <= c && l < hs[c + 1] && LinkOk(hs, head, order, r, l, lk) && (lk.forward.Some? ==> r + lk.span > c)
    requires LinkOk(hs, head, order, c + 1, l, xk)
    ensures LinkOk(hs2, head, Del(order, c), r, l, Level(xk.forward, lk.span + xk.span - 1))
  {
    var o2 := Del(order, c);
    assert lk.forward.Some? && r + lk.span == c + 1;
    if xk.forward.Some? {
      GapDel(hs, hs2, c, r, c + 1 + xk.span, l);
      assert Idx(head, o2, c + xk.span) == Idx(head, order, c + 1 + xk.span);
    } else {
      GapDel(hs, hs2, c, r, |hs|, l);
    }
  }

  /** On a level the removed node does not reach, the walk node's pointer covers one step less. */
  lemma DelOver(hs: seq<nat>, hs2: seq<nat>, head: nat, order: seq<nat>, c: nat, r: nat, l: nat, lk: Level)
    requires |hs| == |order| + 1 && c < |order| && DelAt(hs, hs2, c)
    requires r <= c && hs[c + 1] <= l && LinkOk(hs, head, order, r, l, lk) && (lk.forward.Some? ==> r + lk.span > c)
    ensures LinkOk(hs2, head, Del(order, c), r, l, lk.(span := lk.span - 1))
  {
    var o2 := Del(order, c);
    if lk.forward.Some? {
      assert r + lk.span > c + 1;
      GapDel(hs, hs2, c, r, r + lk.span, l);
      assert Idx(head, o2, r + lk.span - 1) == Idx(head, order, r + lk.span);
    } else {
      GapDel(hs, hs2, c, r, |hs|, l);
    }
  }

  /** Unlisting the node at position c + 1 keeps the arena. */
  lemma ArenaDel(ns: seq<Node>, ns2: seq<Node>, head: nat, order: seq<nat>, c: nat)
    requires Arena(ns, head, order) && SameHeights(ns, ns2) && c < |order|
    ensures Arena(ns2, head, Del(order, c))
  {
  }

  /**
   * Unlinking the node x at position c + 1 on level l, as Delete does: the
   * node at position r, where the walk left level l, takes over x's pointer
   * if it pointed to x, and otherwise covers one step less.
   */
  ghost predicate Unlinked(ns: seq<Node>, ns2: seq<Node>, head: nat, order: seq<nat>, c: nat, r: nat, l: nat)
    requires Arena(ns, head, order) && c < |order| && r <= |order| && l < |ns[Idx(head, order, r)].level|
  {
    var lk := Lk(ns, head, order, r, l);
    var x := order[c];
    if lk.forward == Some(x) && l < |ns[x].level| then
      ns2 == SetLevel(ns, Idx(head, order, r), l, Level(ns[x].level[l].forward, lk.span + ns[x].level[l].span - 1))
    else
      ns2 == SetLevel(ns, Idx(head, order, r), l, lk.(span := lk.span - 1))
  }

  /** After the unlink, level l is linked for the list without position c + 1. */
  lemma UnlinkLevel(ns: seq<Node>, ns2: seq<Node>, head: nat, order: seq<nat>, c: nat, r: nat, l: nat)
    requires Arena(ns, head, order) && LinksAt(ns, head, order, l) && c < |order|
    requires Ready(ns, head, order, r, l, c) && Unlinked(ns, ns2, head, order, c, r, l)
    ensures Arena(ns2, head, Del(order, c)) && LinksAt(ns2, head, Del(order, c), l)
  {
    var o2 := Del(order, c);
    ArenaDel(ns, ns2, head, order, c);
    HsDel(ns, ns2, head, order, c);
    var hs := Hs(ns, head, order);
    var hs2 := Hs(ns2, head, o2);
    var lk := Lk(ns, head, order, r, l);
    assert DelCtx(ns, ns2, head, order, c, r, l);
    assert LinkOk(hs, head, order, r, l, lk);
    forall p: nat | p <= |o2| && l < hs2[p]
      ensures LinkOk(hs2, head, o2, p, l, Lk(ns2, head, o2, p, l))
    {
      assert p <= r || p > c;
      if p < r {
        DelKeptBefore(ns, ns2, head, order, c, r, l, p);
      } else if p == r {
        DelFrom(ns, ns2, head, order, c, r, l, p);
      } else {
        DelKeptAfter(ns, ns2, head, order, c, r, l, p);
      }
    }
  }

  /** What the deletion lemmas know about the arenas before and after position c + 1 is unlisted. */
  ghost predicate DelCtx(ns: seq<Node>, ns2: seq<Node>, head: nat, order: seq<nat>, c: nat, r: nat, l: nat)
  {
    Arena(ns, head, order) && LinksAt(ns, head, order, l) && c < |order| &&
    Ready(ns, head, order, r, l, c) && Keeps(ns, ns2, l, Idx(head, order, r), Idx(head, order, r)) &&
    Arena(ns2, head, Del(order, c)) &&
    DelAt(Hs(ns, head, order), Hs(ns2, head, Del(order, c)), c)
  }

  /** UnlinkLevel before the walk's node. */
  lemma DelKeptBefore(ns: seq<Node>, ns2: seq<Node>, head: nat, order: seq<nat>, c: nat, r: nat, l: nat, p: nat)
    requires DelCtx(ns, ns2, head, order, c, r, l)
    requires p < r && l < Hs(ns2, head, Del(order, c))[p]
    ensures LinkOk(Hs(ns2, head, Del(order, c)), head, Del(order, c), p, l, Lk(ns2, head, Del(order, c), p, l))
  {
    IdxInjective(ns, head, order, p, r);
    var a := Lk(ns, head, order, p, l);
    assert Lk(ns2, head, Del(order, c), p, l) == a;
    DelBefore(Hs(ns, head, order), Hs(ns2, head, Del(order, c)), head, order, c, p, r, l, a);
  }

  /** UnlinkLevel after the removed position. */
  lemma DelKeptAfter(ns: seq<Node>, ns2: seq<Node>, head: nat, order: seq<nat>, c: nat, r: nat, l: nat, p: nat)
    requires DelCtx(ns, ns2, head, order, c, r, l)
    requires c < p < |order| && l < Hs(ns2, head, Del(order, c))[p]
    ensures LinkOk(Hs(ns2, head, Del(order, c)), head, Del(order, c), p, l, Lk(ns2, head, Del(order, c), p, l))
  {
    var o2 := Del(order, c);
    var hs := Hs(ns, head, order);
    var a := Lk(ns, head, order, p + 1, l);
    IdxInjective(ns, head, order, p + 1, r);
    assert Idx(head, o2, p) == Idx(head, order, p + 1);
    assert Lk(ns2, head, o2, p, l) == a;
    assert LinkOk(hs, head, order, p + 1, l, a);
    DelAfter(hs, Hs(ns2, head, o2), head, order, c, p, l, a);
  }

  /** UnlinkLevel at the walk's node. */
  lemma DelFrom(ns: seq<Node>, ns2: seq<Node>, head: nat, order: seq<nat>, c: nat, r: nat, l: nat, p: nat)
    requires DelCtx(ns, ns2, head, order, c, r, l) && p == r && Unlinked(ns, ns2, head, order, c, r, l)
    ensures LinkOk(Hs(ns2, head, Del(order, c)), head, Del(order, c), p, l, Lk(ns2, head, Del(order, c), p, l))
  {
    var lk := Lk(ns, head, order, r, l);
    PointsToRemoved(ns, head, order, c, r, l);
    if l < Hs(ns, head, order)[c + 1] {
      var xk := Lk(ns, head, order, c + 1, l);
      assert ns2[Idx(head, order, r)].level[l] == Level(xk.forward, lk.span + xk.span - 1);
      DelFromThrough(ns, ns2, head, order, c, r, l, p);
    } else {
      assert ns2[Idx(head, order, r)].level[l] == lk.(span := lk.span - 1);
      DelFromOver(ns, ns2, head, order, c, r, l, p);
    }
  }

  /** DelFrom where the walk's node pointed to the removed node. */
  lemma DelFromThrough(ns: seq<Node>, ns2: seq<Node>, head: nat, order: seq<nat>, c: nat, r: nat, l: nat, p: nat)
    requires DelCtx(ns, ns2, head, order, c, r, l) && p == r && l < Hs(ns, head, order)[c + 1]
    requires var lk := Lk(ns, head, order, r, l); var xk := Lk(ns, head, order, c + 1, l);
      ns2[Idx(head, order, r)].level[l] == Level(xk.forward, lk.span + xk.span - 1)
    ensures LinkOk(Hs(ns2, head, Del(order, c)), head, Del(order, c), p, l, Lk(ns2, head, Del(order, c), p, l))
  {
    var o2 := Del(order, c);
    var hs := Hs(ns, head, order);
    var lk := Lk(ns, head, order, r, l);
    assert LinkOk(hs, head, order, r, l, lk);
    assert Idx(head, o2, r) == Idx(head, order, r);
    assert LinkOk(hs, head, order, c + 1, l, Lk(ns, head, order, c + 1, l));
    DelThrough(hs, Hs(ns2, head, o2), head, order, c, r, l, lk, Lk(ns, head, order, c + 1, l));
  }

  /** DelFrom where the removed node does not reach level l. */
  lemma DelFromOver(ns: seq<Node>, ns2: seq<Node>, head: nat, order: seq<nat>, c: nat, r: nat, l: nat, p: nat)
    requires DelCtx(ns, ns2, head, order, c, r, l) && p == r && Hs(ns, head, order)[c + 1] <= l
    requires var lk := Lk(ns, head, order, r, l); ns2[Idx(head, order, r)].level[l] == lk.(span := lk.span - 1)
    ensures LinkOk(Hs(ns2, head, Del(order, c)), head, Del(order, c), p, l, Lk(ns2, head, Del(order, c), p, l))
  {
    var o2 := Del(order, c);
    var hs := Hs(ns, head, order);
    var lk := Lk(ns, head, order, r, l);
    assert LinkOk(hs, head, order, r, l, lk);
    assert Idx(head, o2, r) == Idx(head, order, r);
    DelOver(hs, Hs(ns2, head, o2), head, order, c, r, l, lk);
  }

  /** The walk's pointer on level l leads to the node at position c + 1 exactly when that node reaches level l. */
  lemma PointsToRemoved(ns: seq<Node>, head: nat, order: seq<nat>, c: nat, r: nat, l: nat)
    requires Arena(ns, head, order) && LinksAt(ns, head, order, l) && c < |order| && Ready(ns, head, order, r, l, c)
    ensures (Lk(ns, head, order, r, l).forward == Some(order[c]) && l < |ns[order[c]].level|) <==> l < Hs(ns, head, order)[c + 1]
    ensures Lk(ns, head, order, r, l).forward == Some(order[c]) ==> l < |ns[order[c]].level|
  {
    var hs := Hs(ns, head, order);
    var lk := Lk(ns, head, order, r, l);
    assert LinkOk(hs, head, order, r, l, lk);
    if lk.forward.Some? {
      IdxInjective(ns, head, order, c + 1, r + lk.span);
    }
  }

  // ---------------------------------------------------------------------
  // Keys, order and backward pointers

  /** Arenas with the same nodes, keys, heights and backward pointers: only level pointers may differ. */
  ghost predicate SameKeys(a: seq<Node>, b: seq<Node>)
  {
    |a| == |b| &&
    forall k :: 0 <= k < |a| ==>
      a[k].score == b[k].score && a[k].value == b[k].value && a[k].backward == b[k].backward &&
      |a[k].level| == |b[k].level|
  }

  /** Listing x after position c inserts its key after the first c keys. */
  lemma KeysIns(ns: seq<Node>, ns2: seq<Node>, order: seq<nat>, c: nat, x: nat)
    requires Listed(ns, order) && x < |ns| && c <= |order| && |ns2| == |ns|
    requires forall k :: 0 <= k < |ns| ==> ns2[k].score == ns[k].score && ns2[k].value == ns[k].value
    ensures Keys(ns2, Ins(order, c, x)) == Keys(ns, order)[..c] + [(ns[x].score, ns[x].value)] + Keys(ns, order)[c..]
  {
  }

  /** Unlisting position c + 1 removes key c. */
  lemma KeysDel(ns: seq<Node>, ns2: seq<Node>, order: seq<nat>, c: nat)
    requires Listed(ns, order) && c < |order| && |ns2| == |ns|
    requires forall k :: 0 <= k < |ns| ==> ns2[k].score == ns[k].score && ns2[k].value == ns[k].value
    ensures Keys(ns2, Del(order, c)) == Keys(ns, order)[..c] + Keys(ns, order)[c + 1..]
  {
  }

  /** A key placed where a walk for it ends keeps the scores in order. */
  lemma SortedIns(ks: seq<(int, int)>, cmp: Cmp, s: int, v: int, c: nat)
    requires Sorted(ks) && WalkEnd(ks, cmp, s, v, c)
    ensures Sorted(ks[..c] + [(s, v)] + ks[c..])
  {
    var ks2 := ks[..c] + [(s, v)] + ks[c..];
    forall a, b | 0 <= a < b < |ks2| ensures ks2[a].0 <= ks2[b].0 {
      if b < c || a > c {
      } else if a == c {
        assert ks2[b] == ks[b - 1];
        assert ks[c].0 >= s;
      } else if b == c {
        assert ks[c - 1].0 <= s;
      } else {
        assert ks2[b] == ks[b - 1];
      }
    }
  }

  /** Removing a key keeps the scores in order. */
  lemma SortedDel(ks: seq<(int, int)>, c: nat)
    requires Sorted(ks) && c < |ks|
    ensures Sorted(ks[..c] + ks[c + 1..])
  {
    var ks2 := ks[..c] + ks[c + 1..];
    forall a, b | 0 <= a < b < |ks2| ensures ks2[a].0 <= ks2[b].0 {
      assert ks2[a] == ks[if a < c then a else a + 1];
      assert ks2[b] == ks[if b < c then b else b + 1];
    }
  }

  /**
   * Insert's backward pointers: x points back to the node before it (nil
   * after the head) and its successor, if any, points back to x.
   */
  lemma BacksIns(ns: seq<Node>, ns2: seq<Node>, head: nat, order: seq<nat>, c: nat, x: nat)
    requires Arena(ns, head, order) && Backs(ns, order) && x < |ns| && x !in order && c <= |order| && |ns2| == |ns|
    requires ns2[x].backward == (if c == 0 then None else Some(order[c - 1]))
    requires c < |order| ==> ns2[order[c]].backward == Some(x)
    requires forall k :: 0 <= k < |ns| && k != x && (c < |order| ==> k != order[c]) ==> ns2[k].backward == ns[k].backward
    ensures Backs(ns2, Ins(order, c, x))
  {
    var o2 := Ins(order, c, x);
    assert Listed(ns2, o2);
    forall k | 0 <= k < |o2| ensures ns2[o2[k]].backward == (if k == 0 then None else Some(o2[k - 1])) {
      if k < c {
        assert order[k] != x by { assert order[k] in order; }
        if c < |order| {
          assert order[k] != order[c];
        }
        if 0 < k {
          assert o2[k - 1] == order[k - 1];
        }
      } else if c + 1 < k {
        assert order[k - 1] != x by { assert order[k - 1] in order; }
        assert o2[k - 1] == order[k - 2];
      }
    }
    assert Backs(ns2, o2);
  }

  /** Delete's backward pointers: the removed node's successor, if any, takes over its backward pointer. */
  lemma BacksDel(ns: seq<Node>, ns2: seq<Node>, head: nat, order: seq<nat>, c: nat)
    requires Arena(ns, head, order) && Backs(ns, order) && c < |order| && |ns2| == |ns|
    requires c + 1 < |order| ==> ns2[order[c + 1]].backward == ns[order[c]].backward
    requires forall k :: 0 <= k < |ns| && (c + 1 < |order| ==> k != order[c + 1]) ==> ns2[k].backward == ns[k].backward
    ensures Backs(ns2, Del(order, c))
  {
    var o2 := Del(order, c);
    assert Listed(ns2, o2);
    forall k | 0 <= k < |o2| ensures ns2[o2[k]].backward == (if k == 0 then None else Some(o2[k - 1])) {
      if k < c {
        if c + 1 < |order| {
          assert order[k] != order[c + 1];
        }
        assert ns2[o2[k]].backward == ns[order[k]].backward;
        assert ns[order[k]].backward == (if k == 0 then None else Some(order[k - 1]));
        if 0 < k {
          assert o2[k - 1] == order[k - 1];
        }
        assert ns2[o2[k]].backward == (if k == 0 then None else Some(o2[k - 1]));
      } else if k == c {
        assert o2[k] == order[c + 1];
        assert ns2[o2[k]].backward == ns[order[c]].backward;
        if 0 < k {
          assert o2[k - 1] == order[k - 1];
        }
        assert ns2[o2[k]].backward == (if k == 0 then None else Some(o2[k - 1]));
      } else {
        assert o2[k] == order[k + 1] != order[c + 1];
        assert ns2[o2[k]].backward == ns[order[k + 1]].backward;
        assert o2[k - 1] == order[k];
      }
    }
    assert Backs(ns2, o2);
  }
}
