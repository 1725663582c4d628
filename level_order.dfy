/**
 * The level-order `buildTree` helper shared, character for character, by the
 * maximum-depth, preorder, invert, same-tree and flatten study guides.
 * The array lists slots level by level; an absent slot (`null`) is `None`.
 */
module LevelOrder {
  import opened Wrappers
  import opened Trees

  type Slot = Option<int>

  /** Number of present slots before position `p`. */
  function Rank(arr: seq<Slot>, p: nat): (k: nat)
    requires p <= |arr|
    ensures k <= p
  {
    if p == 0 then 0 else Rank(arr, p - 1) + (if arr[p - 1].Some? then 1 else 0)
  }

  lemma {:induction false} RankMono(arr: seq<Slot>, p: nat, q: nat)
    requires p <= q <= |arr|
    ensures Rank(arr, p) <= Rank(arr, q)
    ensures p < q && arr[p].Some? ==> Rank(arr, p) < Rank(arr, q)
    decreases q - p
  {
    if p < q {
      RankMono(arr, p, q - 1);
    }
  }

  /** Slot `p` holds a node whose child slots lie after it. */
  predicate Grows(arr: seq<Slot>, p: nat)
  {
    p < |arr| && arr[p].Some? && p <= 2 * Rank(arr, p)
  }

  lemma ChildGrows(arr: seq<Slot>, p: nat, c: nat)
    requires Grows(arr, p)
    requires c == 2 * Rank(arr, p) + 1 || c == 2 * Rank(arr, p) + 2
    requires c < |arr| && arr[c].Some?
    ensures p < c && Grows(arr, c)
  {
    RankMono(arr, p, c);
  }

  /**
   * The subtree rooted at slot `p`: the node of rank k (the k-th present slot)
   * takes its children from slots 2k+1 and 2k+2, because every dequeued node
   * consumes exactly two slots.
   */
  function SubtreeAt(arr: seq<Slot>, p: nat): Tree<int>
    requires Grows(arr, p)
    decreases |arr| - p, 1
  {
    Node(ChildAt(arr, p, 2 * Rank(arr, p) + 1), arr[p].value, ChildAt(arr, p, 2 * Rank(arr, p) + 2))
  }

  /** The child of the node at slot `p` held by its child slot `c`: empty when `c` is absent. */
  function ChildAt(arr: seq<Slot>, p: nat, c: nat): Tree<int>
    requires Grows(arr, p) && (c == 2 * Rank(arr, p) + 1 || c == 2 * Rank(arr, p) + 2)
    decreases |arr| - p, 0
  {
    if c < |arr| && arr[c].Some? then ChildGrows(arr, p, c); SubtreeAt(arr, c) else Nil
  }

  /** The tree an array describes: empty for `[]` or an absent first slot. */
  function Build(arr: seq<Slot>): Tree<int>
  {
    if |arr| == 0 || arr[0].None? then Nil else SubtreeAt(arr, 0)
  }

  /** The present slots before position `n`, in order. */
  function Positions(arr: seq<Slot>, n: nat): (ps: seq<nat>)
    requires n <= |arr|
    ensures |ps| == Rank(arr, n)
  {
    if n == 0 then [] else Positions(arr, n - 1) + (if arr[n - 1].Some? then [n - 1] else [])
  }

  lemma {:induction false} PositionsRank(arr: seq<Slot>, n: nat)
    requires n <= |arr|
    ensures |Positions(arr, n)| == Rank(arr, n)
    ensures forall j :: 0 <= j < |Positions(arr, n)| ==>
      Positions(arr, n)[j] < n && arr[Positions(arr, n)[j]].Some? && Rank(arr, Positions(arr, n)[j]) == j
  {
    if n > 0 {
      PositionsRank(arr, n - 1);
    }
  }

  function Min(a: int, b: int): int { if a < b then a else b }

  /** Joins the recorded child links into a tree, starting at slot `p`. */
  function Assemble(arr: seq<Slot>, lk: map<nat, nat>, rk: map<nat, nat>, p: nat): Tree<int>
    requires p < |arr| && arr[p].Some?
    requires forall x :: x in lk ==> x < lk[x] < |arr| && arr[lk[x]].Some?
    requires forall x :: x in rk ==> x < rk[x] < |arr| && arr[rk[x]].Some?
    decreases |arr| - p
  {
    Node(if p in lk then Assemble(arr, lk, rk, lk[p]) else Nil,
         arr[p].value,
         if p in rk then Assemble(arr, lk, rk, rk[p]) else Nil)
  }

  /** Slot `x` holds one of the first `d` dequeued nodes, and its child slot `2k+side` is present. */
  predicate TookChild(arr: seq<Slot>, d: nat, x: nat, side: nat)
  {
    x < |arr| && arr[x].Some? && Rank(arr, x) < d
    && 2 * Rank(arr, x) + side < |arr| && arr[2 * Rank(arr, x) + side].Some?
  }

  /** The links recorded once the first `d` present slots have been dequeued. */
  ghost predicate Linked(arr: seq<Slot>, lk: map<nat, nat>, rk: map<nat, nat>, d: nat)
  {
    LinkedSide(arr, lk, d, 1) && LinkedSide(arr, rk, d, 2)
  }

  /** The links of one side (1 for left, 2 for right) after `d` dequeues. */
  ghost predicate LinkedSide(arr: seq<Slot>, links: map<nat, nat>, d: nat, side: nat)
  {
    && (forall x :: x in links <==> TookChild(arr, d, x, side))
    && (forall x :: x in links ==> x < |arr| && links[x] == 2 * Rank(arr, x) + side)
  }

  /** Below the scan front, slot `p` recorded exactly its present child slot 2k+side. */
  lemma LinkOf(arr: seq<Slot>, links: map<nat, nat>, d: nat, i: nat, p: nat, side: nat)
    requires LinkedSide(arr, links, d, side) && i == 2 * d + 1 && (side == 1 || side == 2)
    requires d == Rank(arr, Min(i, |arr|)) || i >= |arr|
    requires Grows(arr, p) && p < i
    ensures p in links <==> 2 * Rank(arr, p) + side < |arr| && arr[2 * Rank(arr, p) + side].Some?
    ensures p in links ==> links[p] == 2 * Rank(arr, p) + side
  {
    var k := Rank(arr, p);
    if k >= d && i < |arr| {
      RankMono(arr, p, i);
      assert false;
    }
    assert TookChild(arr, d, p, side) <==> 2 * k + side < |arr| && arr[2 * k + side].Some?;
  }

  /** The links recorded for the node at slot `x` are its present child slots 2k+1 and 2k+2. */
  ghost predicate LinksAt(arr: seq<Slot>, lk: map<nat, nat>, rk: map<nat, nat>, x: nat)
    requires Grows(arr, x)
  {
    && (x in lk <==> 2 * Rank(arr, x) + 1 < |arr| && arr[2 * Rank(arr, x) + 1].Some?)
    && (x in lk ==> lk[x] == 2 * Rank(arr, x) + 1)
    && (x in rk <==> 2 * Rank(arr, x) + 2 < |arr| && arr[2 * Rank(arr, x) + 2].Some?)
    && (x in rk ==> rk[x] == 2 * Rank(arr, x) + 2)
  }

  /** Every node reachable from the root, below slot `i`, has its links recorded; their children lie below `i` too. */
  ghost predicate Recorded(arr: seq<Slot>, lk: map<nat, nat>, rk: map<nat, nat>, i: nat)
  {
    forall x: nat {:trigger Grows(arr, x)} :: Grows(arr, x) && x < i ==>
      LinksAt(arr, lk, rk, x) && (2 * Rank(arr, x) + 2 < i || |arr| <= i)
  }

  lemma LinkedRecorded(arr: seq<Slot>, lk: map<nat, nat>, rk: map<nat, nat>, d: nat, i: nat)
    requires Linked(arr, lk, rk, d) && i == 2 * d + 1
    requires d == Rank(arr, Min(i, |arr|)) || i >= |arr|
    ensures Recorded(arr, lk, rk, i)
  {
    forall x: nat | Grows(arr, x) && x < i
      ensures LinksAt(arr, lk, rk, x) && (2 * Rank(arr, x) + 2 < i || |arr| <= i)
    {
      LinkOf(arr, lk, d, i, x, 1);
      LinkOf(arr, rk, d, i, x, 2);
      if i < |arr| {
        RankMono(arr, x, i);
        RankMono(arr, x + 1, i);
      }
    }
  }

  lemma {:induction false} AssembleIsSubtree(arr: seq<Slot>, lk: map<nat, nat>, rk: map<nat, nat>, i: nat, p: nat)
    requires Recorded(arr, lk, rk, i)
    requires Grows(arr, p) && p < i
    requires forall x :: x in lk ==> x < lk[x] < |arr| && arr[lk[x]].Some?
    requires forall x :: x in rk ==> x < rk[x] < |arr| && arr[rk[x]].Some?
    ensures Assemble(arr, lk, rk, p) == SubtreeAt(arr, p)
    decreases |arr| - p
  {
    assert LinksAt(arr, lk, rk, p);
    var k := Rank(arr, p);
    var lc, rc := 2 * k + 1, 2 * k + 2;
    var al := if p in lk then Assemble(arr, lk, rk, lk[p]) else Nil;
    var ar := if p in rk then Assemble(arr, lk, rk, rk[p]) else Nil;
    assert al == ChildAt(arr, p, lc) by {
      if lc < |arr| && arr[lc].Some? {
        ChildGrows(arr, p, lc);
        AssembleIsSubtree(arr, lk, rk, i, lc);
      }
    }
    assert ar == ChildAt(arr, p, rc) by {
      if rc < |arr| && arr[rc].Some? {
        ChildGrows(arr, p, rc);
        AssembleIsSubtree(arr, lk, rk, i, rc);
      }
    }
    assert Assemble(arr, lk, rk, p) == Node(al, arr[p].value, ar);
  }

  lemma RankInjective(arr: seq<Slot>, x: nat, y: nat)
    requires x < |arr| && y < |arr| && arr[x].Some? && arr[y].Some? && Rank(arr, x) == Rank(arr, y)
    ensures x == y
  {
    if x < y { RankMono(arr, x, y); }
    if y < x { RankMono(arr, y, x); }
  }

  /** Dequeuing the node of rank `d` records its link on one side when slot `2d + side` is present. */
  lemma SideStep(arr: seq<Slot>, links: map<nat, nat>, d: nat, p: nat, side: nat, links2: map<nat, nat>)
    requires LinkedSide(arr, links, d, side)
    requires p < |arr| && arr[p].Some? && Rank(arr, p) == d
    requires links2 == if 2 * d + side < |arr| && arr[2 * d + side].Some? then links[p := 2 * d + side] else links
    ensures LinkedSide(arr, links2, d + 1, side)
  {
    SideKeys(arr, links, d, p, side, links2);
    SideValues(arr, links, d, p, side, links2);
  }

  lemma SideKeys(arr: seq<Slot>, links: map<nat, nat>, d: nat, p: nat, side: nat, links2: map<nat, nat>)
    requires LinkedSide(arr, links, d, side)
    requires p < |arr| && arr[p].Some? && Rank(arr, p) == d
    requires links2 == if 2 * d + side < |arr| && arr[2 * d + side].Some? then links[p := 2 * d + side] else links
    ensures forall x :: x in links2 <==> TookChild(arr, d + 1, x, side)
  {
    forall x: nat
      ensures x in links2 <==> TookChild(arr, d + 1, x, side)
    {
      if x != p && x < |arr| && arr[x].Some? && Rank(arr, x) == d {
        RankInjective(arr, x, p);
      }
      if x != p {
        assert x in links2 <==> x in links;
        assert TookChild(arr, d + 1, x, side) <==> TookChild(arr, d, x, side);
      }
    }
  }

  lemma SideValues(arr: seq<Slot>, links: map<nat, nat>, d: nat, p: nat, side: nat, links2: map<nat, nat>)
    requires LinkedSide(arr, links, d, side)
    requires p < |arr| && arr[p].Some? && Rank(arr, p) == d
    requires links2 == if 2 * d + side < |arr| && arr[2 * d + side].Some? then links[p := 2 * d + side] else links
    ensures forall x :: x in links2 ==> x < |arr| && links2[x] == 2 * Rank(arr, x) + side
  {
    forall x | x in links2 ensures x < |arr| && links2[x] == 2 * Rank(arr, x) + side {
      if x != p { assert x in links; }
    }
  }

  /** Dequeuing the node of rank `d` records the links to slots `i` and `i + 1`. */
  lemma LinkedStep(arr: seq<Slot>, lk: map<nat, nat>, rk: map<nat, nat>, d: nat, p: nat, i: nat,
                   lk2: map<nat, nat>, rk2: map<nat, nat>)
    requires Linked(arr, lk, rk, d) && i == 2 * d + 1
    requires p < |arr| && arr[p].Some? && Rank(arr, p) == d
    requires lk2 == if i < |arr| && arr[i].Some? then lk[p := i] else lk
    requires rk2 == if i + 1 < |arr| && arr[i + 1].Some? then rk[p := i + 1] else rk
    ensures Linked(arr, lk2, rk2, d + 1)
  {
    SideStep(arr, lk, d, p, 1, lk2);
    SideStep(arr, rk, d, p, 2, rk2);
  }

  lemma PositionsStep(arr: seq<Slot>, i: nat)
    requires i < |arr|
    ensures Positions(arr, Min(i + 2, |arr|)) ==
      Positions(arr, i) + (if arr[i].Some? then [i] else [])
                        + (if i + 1 < |arr| && arr[i + 1].Some? then [i + 1] else [])
  {
  }

  /** The state of the queue loop after `d` nodes have been dequeued and slots before `i` consumed. */
  ghost predicate QueueState(arr: seq<Slot>, queue: seq<nat>, lk: map<nat, nat>, rk: map<nat, nat>, i: nat, d: nat)
  {
    && i == 2 * d + 1
    && d <= Rank(arr, Min(i, |arr|))
    && queue == Positions(arr, Min(i, |arr|))[d..]
    && Linked(arr, lk, rk, d)
    && (forall x :: x in lk ==> x < lk[x] < |arr| && arr[lk[x]].Some?)
    && (forall x :: x in rk ==> x < rk[x] < |arr| && arr[rk[x]].Some?)
  }

  /** Dequeuing advances the queue past the node of rank `d` and appends the present slots `i`, `i + 1`. */
  lemma QueueStep(arr: seq<Slot>, queue: seq<nat>, i: nat, d: nat, queue2: seq<nat>)
    requires i == 2 * d + 1 && i < |arr| && d < Rank(arr, i) && queue == Positions(arr, i)[d..]
    requires queue2 == queue[1..] + (if arr[i].Some? then [i] else [])
                                  + (if i + 1 < |arr| && arr[i + 1].Some? then [i + 1] else [])
    ensures d + 1 <= Rank(arr, Min(i + 2, |arr|))
    ensures queue2 == Positions(arr, Min(i + 2, |arr|))[d + 1..]
  {
    PositionsStep(arr, i);
    var P := Positions(arr, i);
    var added := (if arr[i].Some? then [i] else [])
                 + (if i + 1 < |arr| && arr[i + 1].Some? then [i + 1] else []);
    assert queue2 == P[d + 1..] + added;
    assert (P + added)[d + 1..] == P[d + 1..] + added;
  }

  /** Recorded links always point forward to present slots. */
  lemma LinksForward(arr: seq<Slot>, lk: map<nat, nat>, p: nat, c: nat, lk2: map<nat, nat>)
    requires forall x :: x in lk ==> x < lk[x] < |arr| && arr[lk[x]].Some?
    requires p < c < |arr| && arr[c].Some? && lk2 == lk[p := c]
    ensures forall x :: x in lk2 ==> x < lk2[x] < |arr| && arr[lk2[x]].Some?
  {
    forall x | x in lk2 ensures x < lk2[x] < |arr| && arr[lk2[x]].Some? {
      if x != p { assert x in lk; }
    }
  }

  /** One turn of the loop: dequeue a node and offer it slots `i` and `i + 1`. */
  lemma DequeueStep(arr: seq<Slot>, queue: seq<nat>, lk: map<nat, nat>, rk: map<nat, nat>, i: nat, d: nat,
                    queue2: seq<nat>, lk2: map<nat, nat>, rk2: map<nat, nat>)
    requires QueueState(arr, queue, lk, rk, i, d) && |queue| > 0 && i < |arr|
    requires lk2 == if arr[i].Some? then lk[queue[0] := i] else lk
    requires rk2 == if i + 1 < |arr| && arr[i + 1].Some? then rk[queue[0] := i + 1] else rk
    requires queue2 == queue[1..] + (if arr[i].Some? then [i] else [])
                                  + (if i + 1 < |arr| && arr[i + 1].Some? then [i + 1] else [])
    ensures QueueState(arr, queue2, lk2, rk2, i + 2, d + 1)
  {
    PositionsRank(arr, i);
    var p := queue[0];
    assert p == Positions(arr, i)[d] && p < i && arr[p].Some? && Rank(arr, p) == d;
    QueueStep(arr, queue, i, d, queue2);
    LinkedStep(arr, lk, rk, d, p, i, lk2, rk2);
    if arr[i].Some? { LinksForward(arr, lk, p, i, lk2); }
    if i + 1 < |arr| && arr[i + 1].Some? { LinksForward(arr, rk, p, i + 1, rk2); }
  }

  /** When the queue runs dry or the slots run out, the recorded links describe `Build(arr)`. */
  lemma LoopExit(arr: seq<Slot>, queue: seq<nat>, lk: map<nat, nat>, rk: map<nat, nat>, i: nat, d: nat)
    requires QueueState(arr, queue, lk, rk, i, d) && !(|queue| > 0 && i < |arr|)
    requires |arr| > 0 && arr[0].Some?
    ensures forall x :: x in lk ==> x < lk[x] < |arr| && arr[lk[x]].Some?
    ensures forall x :: x in rk ==> x < rk[x] < |arr| && arr[rk[x]].Some?
    ensures Assemble(arr, lk, rk, 0) == Build(arr)
  {
    PositionsRank(arr, Min(i, |arr|));
    LinkedRecorded(arr, lk, rk, d, i);
    AssembleIsSubtree(arr, lk, rk, i, 0);
  }

  /**
   * The queue loop of `buildTree`: nodes are named by their slot, the queue
   * holds slots, and each dequeued node records the slots it takes as children.
   */
  method BuildTree(arr: seq<Slot>) returns (t: Tree<int>)
    ensures t == Build(arr)
  {
    if |arr| == 0 || arr[0].None? {
      return Nil;
    }
    var queue: seq<nat> := [0];
    var lk: map<nat, nat> := map[];
    var rk: map<nat, nat> := map[];
    var i: nat := 1;
    ghost var d := 0;
    while |queue| > 0 && i < |arr|
      invariant QueueState(arr, queue, lk, rk, i, d)
      decreases |arr| - i
    {
      ghost var queue0, lk0, rk0, i0 := queue, lk, rk, i;
      var p := queue[0];
      queue := queue[1..];
      if i < |arr| && arr[i].Some? {
        lk := lk[p := i];
        queue := queue + [i];
      }
      ghost var queue1 := queue;
      assert queue1 == queue0[1..] + (if arr[i0].Some? then [i0] else []);
      i := i + 1;
      if i < |arr| && arr[i].Some? {
        rk := rk[p := i];
        queue := queue + [i];
      }
      assert queue == queue1 + (if i0 + 1 < |arr| && arr[i0 + 1].Some? then [i0 + 1] else []);
      i := i + 1;
      DequeueStep(arr, queue0, lk0, rk0, i0, d, queue, lk, rk);
      d := d + 1;
    }
    LoopExit(arr, queue, lk, rk, i, d);
    t := Assemble(arr, lk, rk, 0);
  }
}
