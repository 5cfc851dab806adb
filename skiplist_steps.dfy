/**
 * The steps of SkipList.Insert and SkipList.Delete (skiplist/skiplist.go),
 * level by level: what each loop of those methods keeps, and why each
 * pointer update keeps it.
 */
module SkipSteps {
  import opened Wrappers
  import opened SkipShape

  /** A fresh list: a head of height MaxLevel with nil pointers and no other node listed. */
  lemma EmptyInv(ns: seq<Node>, head: nat)
    requires head < |ns| && ns[head] == NewNode(MaxLevel, 0, 0)
    ensures Inv(ns, head, [], None, 1)
  {
    forall l: nat ensures LinksAt(ns, head, [], l) {
      if l < MaxLevel {
        NilLinks(ns, head, [], l);
      }
    }
  }

  /**
   * The walk's record for the levels below top: on level l it left the
   * level at position rank[l], whose node is update[l], and is now at c.
   */
  ghost predicate Walked(ns: seq<Node>, head: nat, order: seq<nat>, c: nat, update: seq<nat>, rank: seq<nat>, top: nat)
  {
    Arena(ns, head, order) && c <= |order| && |update| == MaxLevel && |rank| == MaxLevel && top <= MaxLevel &&
    forall l :: 0 <= l < top ==> Ready(ns, head, order, rank[l], l, c) && update[l] == Idx(head, order, rank[l])
  }

  /** Allocating a node keeps everything stated about the listed nodes and the walk's record. */
  lemma Append(ns: seq<Node>, n: Node, head: nat, order: seq<nat>, c: nat, update: seq<nat>, rank: seq<nat>, top: nat)
    requires Arena(ns, head, order)
    ensures Arena(ns + [n], head, order) && SameKeys(ns, (ns + [n])[..|ns|])
    ensures Keys(ns + [n], order) == Keys(ns, order) && Hs(ns + [n], head, order) == Hs(ns, head, order)
    ensures Links(ns, head, order) ==> Links(ns + [n], head, order)
    ensures Walked(ns, head, order, c, update, rank, top) ==> Walked(ns + [n], head, order, c, update, rank, top)
  {
    var ns2 := ns + [n];
    assert Hs(ns2, head, order) == Hs(ns, head, order);
    forall l: nat | LinksAt(ns, head, order, l) ensures LinksAt(ns2, head, order, l) {
      var hs := Hs(ns, head, order);
      forall p: nat | p <= |order| && l < hs[p]
        ensures LinkOk(hs, head, order, p, l, Lk(ns2, head, order, p, l))
      {
        assert LinkOk(hs, head, order, p, l, Lk(ns, head, order, p, l));
      }
    }
  }

  /** Arenas that differ only in level pointers list the same keys, heights and backward pointers. */
  lemma KeepKeys(a: seq<Node>, b: seq<Node>, head: nat, order: seq<nat>)
    requires Arena(a, head, order) && SameKeys(a, b)
    ensures Arena(b, head, order) && Keys(b, order) == Keys(a, order) && Hs(b, head, order) == Hs(a, head, order)
    ensures b[head].score == a[head].score && b[head].value == a[head].value
    ensures Backs(a, order) ==> Backs(b, order)
  {
  }

  /** Arenas that differ only in backward pointers have the same links. */
  lemma KeepLinks(a: seq<Node>, b: seq<Node>, head: nat, order: seq<nat>, level: nat)
    requires Arena(a, head, order) && |a| == |b|
    requires forall k :: 0 <= k < |a| ==> a[k].level == b[k].level && a[k].score == b[k].score && a[k].value == b[k].value
    ensures Arena(b, head, order) && Keys(b, order) == Keys(a, order) && Hs(b, head, order) == Hs(a, head, order)
    ensures Wf(a, head, order, level) ==> Wf(b, head, order, level)
    ensures Links(a, head, order) ==> Links(b, head, order)
  {
    assert Hs(b, head, order) == Hs(a, head, order);
    forall l: nat | LinksAt(a, head, order, l) ensures LinksAt(b, head, order, l) {
      var hs := Hs(a, head, order);
      forall p: nat | p <= |order| && l < hs[p]
        ensures LinkOk(hs, head, order, p, l, Lk(b, head, order, p, l))
      {
        assert LinkOk(hs, head, order, p, l, Lk(a, head, order, p, l));
      }
    }
  }

  /**
   * Insert's new top levels: on a level i above every listed node the walk
   * is taken to have left at the head, whose pointer there is nil and
   * whose span is overwritten.
   */
  lemma GrowStep(ns: seq<Node>, head: nat, order: seq<nat>, c: nat, update: seq<nat>, rank: seq<nat>, i: nat, len: int)
    requires Walked(ns, head, order, c, update, rank, i) && Links(ns, head, order) && 1 <= i < MaxLevel
    requires forall k :: 0 <= k < |order| ==> |ns[order[k]].level| <= i
    ensures var ns2 := SetLevel(ns, head, i, ns[head].level[i].(span := len));
      Walked(ns2, head, order, c, update[i := head], rank[i := 0], i + 1) && Links(ns2, head, order) && SameKeys(ns, ns2)
  {
    var ns2 := SetLevel(ns, head, i, ns[head].level[i].(span := len));
    assert LinksAt(ns, head, order, i);
    HighNil(ns, head, order, i, i);
    forall l: nat ensures LinksAt(ns2, head, order, l) {
      Agree(ns, ns2, head, order, l);
    }
    forall l | 0 <= l < i ensures Ready(ns2, head, order, rank[l], l, c) {
      Agree(ns, ns2, head, order, l);
    }
    Agree(ns, ns2, head, order, i);
  }

  /**
   * Insert's splice loop has linked x in on the levels below i; the levels
   * from i up are as the walk left them.
   */
  ghost predicate Splicing(ns: seq<Node>, head: nat, order: seq<nat>, c: nat, x: nat, update: seq<nat>, rank: seq<nat>, level: nat, i: nat)
  {
    Wf(ns, head, order, level) && x < |ns| && x != head && x !in order && 1 <= |ns[x].level| <= level &&
    c <= |order| && |update| == MaxLevel && |rank| == MaxLevel && i <= level &&
    Arena(ns, head, Ins(order, c, x)) &&
    (forall l: nat :: l < i ==> LinksAt(ns, head, Ins(order, c, x), l)) &&
    (forall l: nat :: i <= l ==> LinksAt(ns, head, order, l)) &&
    (forall l :: i <= l < level ==> Ready(ns, head, order, rank[l], l, c) && update[l] == Idx(head, order, rank[l]))
  }

  /** The splice loop starts from the walk's record and a fresh node x. */
  lemma SpliceStart(ns: seq<Node>, head: nat, order: seq<nat>, c: nat, x: nat, update: seq<nat>, rank: seq<nat>, level: nat)
    requires Walked(ns, head, order, c, update, rank, level) && Links(ns, head, order) && Wf(ns, head, order, level)
    requires x < |ns| && x != head && x !in order && 1 <= |ns[x].level| <= level
    ensures Splicing(ns, head, order, c, x, update, rank, level, 0)
  {
    ArenaIns(ns, ns, head, order, c, x);
  }

  /** One iteration of the splice loop, on a level x reaches. */
  lemma SpliceStep(ns: seq<Node>, ns2: seq<Node>, head: nat, order: seq<nat>, c: nat, x: nat, update: seq<nat>, rank: seq<nat>, level: nat, i: nat)
    requires Splicing(ns, head, order, c, x, update, rank, level, i) && i < |ns[x].level|
    requires Spliced(ns, ns2, head, order, c, x, rank[i], i)
    ensures Splicing(ns2, head, order, c, x, update, rank, level, i + 1) && SameKeys(ns, ns2)
  {
    var o2 := Ins(order, c, x);
    SpliceLevel(ns, ns2, head, order, c, x, rank[i], i);
    forall l: nat | l != i ensures AgreeAt(ns, ns2, l) {
    }
    forall l: nat | l < i ensures LinksAt(ns2, head, o2, l) {
      Agree(ns, ns2, head, o2, l);
    }
    forall l: nat | i < l ensures LinksAt(ns2, head, order, l) {
      Agree(ns, ns2, head, order, l);
    }
    forall l | i < l < level ensures Ready(ns2, head, order, rank[l], l, c) {
      Agree(ns, ns2, head, order, l);
    }
    Agree(ns, ns2, head, order, i + 1);
  }

  /** One iteration of the bump loop, on a level x does not reach. */
  lemma BumpStep(ns: seq<Node>, ns2: seq<Node>, head: nat, order: seq<nat>, c: nat, x: nat, update: seq<nat>, rank: seq<nat>, level: nat, i: nat)
    requires Splicing(ns, head, order, c, x, update, rank, level, i) && |ns[x].level| <= i < level
    requires var lk := Lk(ns, head, order, rank[i], i); ns2 == SetLevel(ns, update[i], i, lk.(span := lk.span + 1))
    ensures Splicing(ns2, head, order, c, x, update, rank, level, i + 1) && SameKeys(ns, ns2)
  {
    var o2 := Ins(order, c, x);
    BumpLevel(ns, ns2, head, order, c, x, rank[i], i);
    forall l: nat | l != i ensures AgreeAt(ns, ns2, l) {
    }
    forall l: nat | l < i ensures LinksAt(ns2, head, o2, l) {
      Agree(ns, ns2, head, o2, l);
    }
    forall l: nat | i < l ensures LinksAt(ns2, head, order, l) {
      Agree(ns, ns2, head, order, l);
    }
    forall l | i < l < level ensures Ready(ns2, head, order, rank[l], l, c) {
      Agree(ns, ns2, head, order, l);
    }
    Agree(ns, ns2, head, order, i + 1);
  }

  /** After the last level in use, every level is linked for the list with x inserted. */
  lemma SpliceDone(ns: seq<Node>, head: nat, order: seq<nat>, c: nat, x: nat, update: seq<nat>, rank: seq<nat>, level: nat)
    requires Splicing(ns, head, order, c, x, update, rank, level, level)
    ensures Wf(ns, head, Ins(order, c, x), level) && Links(ns, head, Ins(order, c, x))
  {
    var o2 := Ins(order, c, x);
    forall l: nat | level <= l ensures LinksAt(ns, head, o2, l) {
      if l < MaxLevel {
        HighNil(ns, head, order, level, l);
        NilLinks(ns, head, o2, l);
      }
    }
  }

  /** Delete's unlink loop has taken position c + 1 out of the levels below i. */
  ghost predicate Unlinking(ns: seq<Node>, head: nat, order: seq<nat>, c: nat, update: seq<nat>, rank: seq<nat>, level: nat, i: nat)
  {
    Wf(ns, head, order, level) && c < |order| && |update| == MaxLevel && |rank| == MaxLevel && i <= level &&
    Arena(ns, head, Del(order, c)) &&
    (forall l: nat :: l < i ==> LinksAt(ns, head, Del(order, c), l)) &&
    (forall l: nat :: i <= l ==> LinksAt(ns, head, order, l)) &&
    (forall l :: i <= l < level ==> Ready(ns, head, order, rank[l], l, c) && update[l] == Idx(head, order, rank[l]))
  }

  /** The unlink loop starts from the walk's record. */
  lemma UnlinkStart(ns: seq<Node>, head: nat, order: seq<nat>, c: nat, update: seq<nat>, rank: seq<nat>, level: nat)
    requires Walked(ns, head, order, c, update, rank, level) && Links(ns, head, order) && Wf(ns, head, order, level)
    requires c < |order|
    ensures Unlinking(ns, head, order, c, update, rank, level, 0)
  {
    ArenaDel(ns, ns, head, order, c);
  }

  /** One iteration of the unlink loop. */
  lemma UnlinkStep(ns: seq<Node>, ns2: seq<Node>, head: nat, order: seq<nat>, c: nat, update: seq<nat>, rank: seq<nat>, level: nat, i: nat)
    requires Unlinking(ns, head, order, c, update, rank, level, i) && i < level
    requires Unlinked(ns, ns2, head, order, c, rank[i], i)
    ensures Unlinking(ns2, head, order, c, update, rank, level, i + 1) && SameKeys(ns, ns2)
  {
    var o2 := Del(order, c);
    UnlinkLevel(ns, ns2, head, order, c, rank[i], i);
    forall l: nat | l != i ensures AgreeAt(ns, ns2, l) {
    }
    forall l: nat | l < i ensures LinksAt(ns2, head, o2, l) {
      Agree(ns, ns2, head, o2, l);
    }
    forall l: nat | i < l ensures LinksAt(ns2, head, order, l) {
      Agree(ns, ns2, head, order, l);
    }
    forall l | i < l < level ensures Ready(ns2, head, order, rank[l], l, c) {
      Agree(ns, ns2, head, order, l);
    }
    Agree(ns, ns2, head, order, i + 1);
  }

  /** After the last level in use, every level is linked for the list without position c + 1. */
  lemma UnlinkDone(ns: seq<Node>, head: nat, order: seq<nat>, c: nat, update: seq<nat>, rank: seq<nat>, level: nat)
    requires Unlinking(ns, head, order, c, update, rank, level, level)
    ensures Wf(ns, head, Del(order, c), level) && Links(ns, head, Del(order, c))
  {
    var o2 := Del(order, c);
    forall l: nat | level <= l ensures LinksAt(ns, head, o2, l) {
      if l < MaxLevel {
        HighNil(ns, head, order, level, l);
        NilLinks(ns, head, o2, l);
      }
    }
  }

  /** A nil head pointer on the top level in use means no listed node reaches it: the level can drop. */
  lemma Shrink(ns: seq<Node>, head: nat, order: seq<nat>, level: nat)
    requires Wf(ns, head, order, level) && Links(ns, head, order) && 1 < level
    requires Lk(ns, head, order, 0, level - 1).forward.None?
    ensures Wf(ns, head, order, level - 1)
  {
    assert LinksAt(ns, head, order, level - 1);
    var hs := Hs(ns, head, order);
    assert LinkOk(hs, head, order, 0, level - 1, Lk(ns, head, order, 0, level - 1));
    forall k | 0 <= k < |order| ensures |ns[order[k]].level| <= level - 1 {
      assert hs[k + 1] == |ns[order[k]].level|;
    }
  }

  /** A listed node y reaching above level l makes the head's level-l pointer non-nil. */
  lemma TopSome(ns: seq<Node>, head: nat, order: seq<nat>, l: nat, y: nat)
    requires Arena(ns, head, order) && LinksAt(ns, head, order, l) && l < MaxLevel && y in order && l < |ns[y].level|
    ensures Lk(ns, head, order, 0, l).forward.Some?
  {
    var k :| 0 <= k < |order| && order[k] == y;
    var hs := Hs(ns, head, order);
    assert hs[k + 1] == |ns[y].level|;
    assert LinkOk(hs, head, order, 0, l, Lk(ns, head, order, 0, l));
  }

  /** The node the head's top pointer leads to is listed and reaches the top level. */
  lemma TopNode(ns: seq<Node>, head: nat, order: seq<nat>, tail: Option<nat>, level: nat)
    requires Inv(ns, head, order, tail, level) && 1 < level
    ensures var y := ns[head].level[level - 1].forward.value; y in order && level <= |ns[y].level|
  {
    var hs := Hs(ns, head, order);
    assert LinksAt(ns, head, order, level - 1);
    var lk := Lk(ns, head, order, 0, level - 1);
    assert LinkOk(hs, head, order, 0, level - 1, lk);
    assert order[lk.span - 1] in order;
  }

  /** Insert's keys: the old ones with (s, v) at index c. */
  lemma InsertKeys(ns0: seq<Node>, ns1: seq<Node>, ns3: seq<Node>, head: nat, order: seq<nat>, c: nat, x: nat, s: int, v: int)
    requires Arena(ns0, head, order) && c <= |order|
    requires x == |ns0| && |ns1| == x + 1 && SameKeys(ns0 + [NewNode(|ns1[x].level|, s, v)], ns1)
    requires |ns3| == |ns1| && forall k :: 0 <= k < |ns1| ==> ns3[k].score == ns1[k].score && ns3[k].value == ns1[k].value
    ensures Keys(ns3, Ins(order, c, x)) == Keys(ns0, order)[..c] + [(s, v)] + Keys(ns0, order)[c..]
  {
    var n := NewNode(|ns1[x].level|, s, v);
    Append(ns0, n, head, order, c, [], [], 0);
    KeepKeys(ns0 + [n], ns1, head, order);
    KeysIns(ns1, ns3, order, c, x);
  }

  /** Insert's backward pointers: x's is the node before it, and the node after it now points back to x. */
  lemma InsertBacks(ns0: seq<Node>, ns1: seq<Node>, ns3: seq<Node>, head: nat, order: seq<nat>, c: nat, x: nat, s: int, v: int)
    requires Arena(ns0, head, order) && Backs(ns0, order) && c <= |order|
    requires x == |ns0| && |ns1| == x + 1 && SameKeys(ns0 + [NewNode(|ns1[x].level|, s, v)], ns1)
    requires |ns3| == |ns1|
    requires ns3[x].backward == (if c == 0 then None else Some(order[c - 1]))
    requires c < |order| ==> ns3[order[c]].backward == Some(x)
    requires forall k :: 0 <= k < |ns1| && k != x && (c < |order| ==> k != order[c]) ==> ns3[k].backward == ns1[k].backward
    ensures Backs(ns3, Ins(order, c, x))
  {
    var n := NewNode(|ns1[x].level|, s, v);
    Append(ns0, n, head, order, c, [], [], 0);
    assert Backs(ns0 + [n], order);
    KeepKeys(ns0 + [n], ns1, head, order);
    BacksIns(ns1, ns3, head, order, c, x);
  }

  /**
   * After Insert's splice and its backward-pointer updates, the list with x
   * at position c + 1 keeps the invariant, and its keys are the old ones
   * with (s, v) at index c.
   */
  lemma InsertFinish(ns0: seq<Node>, ns1: seq<Node>, ns3: seq<Node>, head: nat, order: seq<nat>, tail: Option<nat>,
                     level: nat, top: nat, c: nat, x: nat, s: int, v: int, y: nat, tail2: Option<nat>)
    requires Inv(ns0, head, order, tail, level) && WalkEnd(Keys(ns0, order), Ne, s, v, c)
    requires x == |ns0| && |ns1| == x + 1 && SameKeys(ns0 + [NewNode(|ns1[x].level|, s, v)], ns1)
    requires Wf(ns1, head, Ins(order, c, x), top) && Links(ns1, head, Ins(order, c, x))
    requires top == 1 || (y == x && top <= |ns1[x].level|) || (y in order && top <= |ns1[y].level|)
    requires |ns3| == |ns1|
    requires forall k :: 0 <= k < |ns1| ==>
      ns3[k].level == ns1[k].level && ns3[k].score == ns1[k].score && ns3[k].value == ns1[k].value
    requires ns3[x].backward == (if c == 0 then None else Some(order[c - 1]))
    requires c < |order| ==> ns3[order[c]].backward == Some(x)
    requires forall k :: 0 <= k < |ns1| && k != x && (c < |order| ==> k != order[c]) ==> ns3[k].backward == ns1[k].backward
    requires tail2 == if c < |order| then tail else Some(x)
    ensures Inv(ns3, head, Ins(order, c, x), tail2, top)
    ensures Keys(ns3, Ins(order, c, x)) == Keys(ns0, order)[..c] + [(s, v)] + Keys(ns0, order)[c..]
  {
    var o2 := Ins(order, c, x);
    KeepLinks(ns1, ns3, head, o2, top);
    InsertKeys(ns0, ns1, ns3, head, order, c, x, s, v);
    SortedIns(Keys(ns0, order), Ne, s, v, c);
    InsertBacks(ns0, ns1, ns3, head, order, c, x, s, v);
    assert ns3[head].score == 0 && ns3[head].value == 0;
    assert tail2 == Last(o2);
    if top > 1 {
      if y in order {
        var k :| 0 <= k < |order| && order[k] == y;
        assert o2[if k < c then k else k + 1] == y;
      } else {
        assert o2[c] == y;
      }
      assert LinksAt(ns3, head, o2, top - 1);
      TopSome(ns3, head, o2, top - 1, y);
    }
  }

  /**
   * After Delete's unlink, backward-pointer update and level shrink, the
   * list without position c + 1 keeps the invariant, and its keys are the
   * old ones without index c.
   */
  lemma DeleteFinish(ns0: seq<Node>, ns2: seq<Node>, ns3: seq<Node>, head: nat, order: seq<nat>, tail: Option<nat>,
                     level: nat, top: nat, c: nat, tail2: Option<nat>)
    requires Inv(ns0, head, order, tail, level) && c < |order| && SameKeys(ns0, ns2)
    requires Wf(ns3, head, Del(order, c), top) && Links(ns3, head, Del(order, c))
    requires top == 1 || ns3[head].level[top - 1].forward.Some?
    requires |ns3| == |ns2|
    requires forall k :: 0 <= k < |ns2| ==> ns3[k].score == ns2[k].score && ns3[k].value == ns2[k].value
    requires c + 1 < |order| ==> ns3[order[c + 1]].backward == ns2[order[c]].backward
    requires forall k :: 0 <= k < |ns2| && (c + 1 < |order| ==> k != order[c + 1]) ==> ns3[k].backward == ns2[k].backward
    requires tail2 == if c + 1 < |order| then tail else ns2[order[c]].backward
    ensures Inv(ns3, head, Del(order, c), tail2, top)
    ensures Keys(ns3, Del(order, c)) == Keys(ns0, order)[..c] + Keys(ns0, order)[c + 1..]
  {
    var o2 := Del(order, c);
    KeepKeys(ns0, ns2, head, order);
    KeysDel(ns2, ns3, order, c);
    SortedDel(Keys(ns0, order), c);
    BacksDel(ns2, ns3, head, order, c);
    assert ns3[head].score == 0 && ns3[head].value == 0;
    if c + 1 < |order| {
      assert o2[|o2| - 1] == order[|order| - 1];
    } else {
      assert ns0[order[c]].backward == (if c == 0 then None else Some(order[c - 1]));
      assert c > 0 ==> o2[|o2| - 1] == order[c - 1];
    }
  }
}
