/** The cache of parent nodes of a device tree (`Parent_cache` and `Node::parent_node` in
    server/src/dt.h). The flattened device tree is given as the stream of nodes that the library
    yields. */
module ParentCache {

  /* ---- trees and their streams ---- */

  /** A row of sibling nodes: the offset of the first, its children, and its further siblings. */
  datatype Forest = Empty | Grow(off: nat, children: Forest, rest: Forest)

  /** A node as the library reports it. */
  datatype Node = Node(off: nat, depth: nat)

  /** The stream of nodes, in pre-order. */
  function Stream(f: Forest, depth: nat): seq<Node> {
    match f
    case Empty => []
    case Grow(off, children, rest) => [Node(off, depth)] + Stream(children, depth + 1) + Stream(rest, depth)
  }

  /** The last offset of the stream, or `lo` if there is none. */
  function Last(f: Forest, lo: int): int {
    match f
    case Empty => lo
    case Grow(off, children, rest) => Last(rest, Last(children, off))
  }

  /** Offsets grow along the stream, from above `lo`. */
  predicate Ordered(f: Forest, lo: int) {
    match f
    case Empty => true
    case Grow(off, children, rest) => lo < off && Ordered(children, off) && Ordered(rest, Last(children, off))
  }

  predicate Occurs(f: Forest, x: int) {
    match f
    case Empty => false
    case Grow(off, children, rest) => x == off || Occurs(children, x) || Occurs(rest, x)
  }

  /** The parent of the node at offset `x`, where `p` is the parent of the row. */
  function TrueParent(f: Forest, p: int, x: int): int
    requires Occurs(f, x)
  {
    if x == f.off then p
    else if Occurs(f.children, x) then TrueParent(f.children, f.off, x)
    else TrueParent(f.rest, p, x)
  }

  /* ---- what the scan collects ---- */

  const STACK: nat := 16
  const CAPACITY: nat := 1024

  datatype Elem = Elem(node: int, parent: int)

  /** The stack of the nodes on the way to the current one, and the cache. */
  datatype State = State(stack: seq<int>, cache: seq<Elem>) {
    predicate Valid() { |stack| == STACK && |cache| <= CAPACITY }
  }

  /** One node: nothing once the cache is full, and nothing for nodes that are too deep. */
  function Step(st: State, n: Node): (r: State)
    requires st.Valid()
    ensures r.Valid()
  {
    if |st.cache| >= CAPACITY || n.depth >= STACK then st
    else
      var parent := if n.depth > 0 then st.stack[n.depth - 1] else -1;
      State(st.stack[n.depth := n.off], st.cache + [Elem(n.off, parent)])
  }

  function Run(st: State, s: seq<Node>): (r: State)
    requires st.Valid()
    ensures r.Valid()
    decreases |s|
  {
    if s == [] then st else Run(Step(st, s[0]), s[1..])
  }

  lemma {:induction false} RunConcat(st: State, a: seq<Node>, b: seq<Node>)
    requires st.Valid()
    ensures Run(st, a + b) == Run(Run(st, a), b)
    decreases |a|
  {
    if a == [] {
      assert a + b == b;
    } else {
      assert (a + b)[0] == a[0] && (a + b)[1..] == a[1..] + b;
      RunConcat(Step(st, a[0]), a[1..], b);
    }
  }

  /** All nodes that are not too deep, each with its parent. */
  function Known(f: Forest, depth: nat, p: int): seq<Elem> {
    match f
    case Empty => []
    case Grow(off, children, rest) =>
      (if depth < STACK then [Elem(off, p)] else []) + Known(children, depth + 1, off) + Known(rest, depth, p)
  }

  /** As many of the elements as still fit. */
  function Fill(cache: seq<Elem>, more: seq<Elem>): (r: seq<Elem>)
    requires |cache| <= CAPACITY
    ensures |r| <= CAPACITY
  {
    cache + more[..if |cache| + |more| <= CAPACITY then |more| else CAPACITY - |cache|]
  }

  lemma FillTwice(cache: seq<Elem>, a: seq<Elem>, b: seq<Elem>)
    requires |cache| <= CAPACITY
    ensures Fill(Fill(cache, a), b) == Fill(cache, a + b)
  {
  }

  /* The stack knows the parent of a row of nodes, as long as it matters. */
  predicate Parented(st: State, depth: nat, p: int)
    requires st.Valid()
  {
    |st.cache| < CAPACITY ==> if depth == 0 then p == -1 else depth <= STACK ==> st.stack[depth - 1] == p
  }

  /* The part of the stack above a row of nodes. */
  function Upper(depth: nat): nat { if depth <= STACK then depth else STACK }

  /** Scanning a row of nodes of any depth and length: the cache takes up the nodes that are not too deep,
      with their parents, as far as there is room, and the stack above the row is left as it was. */
  lemma {:induction false} ScanForest(f: Forest, depth: nat, p: int, st: State)
    requires st.Valid() && Parented(st, depth, p)
    ensures var r := Run(st, Stream(f, depth));
      r.cache == Fill(st.cache, Known(f, depth, p)) && r.stack[..Upper(depth)] == st.stack[..Upper(depth)]
    decreases f
  {
    match f
    case Empty =>
      assert Fill(st.cache, []) == st.cache;
    case Grow(off, children, rest) =>
      var one := Step(st, Node(off, depth));
      var own := if depth < STACK then [Elem(off, p)] else [];
      OneNode(st, depth, p, off);
      hide Step, Fill, Run, Upper;
      ScanForest(children, depth + 1, off, one);
      var two := Run(one, Stream(children, depth + 1));
      StackKept(one, two, depth);
      FillTwice(st.cache, own, Known(children, depth + 1, off));
      FullStays(st.cache, own + Known(children, depth + 1, off));
      StillParented(st, two, depth, p);
      ScanForest(rest, depth, p, two);
      FillTwice(st.cache, own + Known(children, depth + 1, off), Known(rest, depth, p));
      StreamRuns(st, off, children, rest, depth);
  }

  lemma StillParented(a: State, b: State, depth: nat, p: int)
    requires a.Valid() && b.Valid() && Parented(a, depth, p) && |a.cache| <= |b.cache|
    requires b.stack[..Upper(depth)] == a.stack[..Upper(depth)]
    ensures Parented(b, depth, p)
  {
    assert 0 < depth <= STACK ==>
      b.stack[depth - 1] == b.stack[..Upper(depth)][depth - 1] &&
        a.stack[depth - 1] == a.stack[..Upper(depth)][depth - 1];
  }

  lemma FullStays(cache: seq<Elem>, more: seq<Elem>)
    requires |cache| <= CAPACITY
    ensures |Fill(cache, more)| >= |cache|
  {
  }

  lemma {:induction false} StreamRuns(st: State, off: nat, children: Forest, rest: Forest, depth: nat)
    requires st.Valid()
    ensures Run(st, Stream(Grow(off, children, rest), depth)) ==
      Run(Run(Step(st, Node(off, depth)), Stream(children, depth + 1)), Stream(rest, depth))
  {
    hide Step;
    var a, b := Stream(children, depth + 1), Stream(rest, depth);
    RunConcat(st, [Node(off, depth)] + a, b);
    RunConcat(st, [Node(off, depth)], a);
    assert [Node(off, depth)][1..] == [];
  }

  lemma OneNode(st: State, depth: nat, p: int, off: nat)
    requires st.Valid() && Parented(st, depth, p)
    ensures var r := Step(st, Node(off, depth));
      && r.cache == Fill(st.cache, if depth < STACK then [Elem(off, p)] else [])
      && Parented(r, depth + 1, off) && r.stack[..Upper(depth)] == st.stack[..Upper(depth)] && |r.cache| >= |st.cache|
  {
  }

  lemma StackKept(a: State, b: State, depth: nat)
    requires a.Valid() && b.Valid() && b.stack[..Upper(depth + 1)] == a.stack[..Upper(depth + 1)]
    ensures b.stack[..Upper(depth)] == a.stack[..Upper(depth)]
  {
    assert a.stack[..Upper(depth)] == a.stack[..Upper(depth + 1)][..Upper(depth)];
    assert b.stack[..Upper(depth)] == b.stack[..Upper(depth + 1)][..Upper(depth)];
  }

  /* ---- the meaning of what is collected ---- */

  lemma {:induction false} OffsetBounds(f: Forest, lo: int, x: int)
    requires Ordered(f, lo)
    ensures lo <= Last(f, lo) && (Occurs(f, x) ==> lo < x <= Last(f, lo))
  {
    match f
    case Empty =>
    case Grow(off, children, rest) =>
      OffsetBounds(children, off, x);
      OffsetBounds(rest, Last(children, off), x);
  }

  /** What is collected about a node is its place in the tree. */
  lemma {:induction false} KnownIsTrue(f: Forest, depth: nat, p: int, lo: int, k: nat)
    requires Ordered(f, lo) && k < |Known(f, depth, p)|
    ensures var e := Known(f, depth, p)[k];
      lo < e.node <= Last(f, lo) && Occurs(f, e.node) && TrueParent(f, p, e.node) == e.parent
  {
    match f
    case Empty =>
    case Grow(off, children, rest) =>
      var own := if depth < STACK then [Elem(off, p)] else [];
      var a, b := Known(children, depth + 1, off), Known(rest, depth, p);
      var e := Known(f, depth, p)[k];
      OffsetBounds(children, off, e.node);
      OffsetBounds(rest, Last(children, off), e.node);
      if |own| <= k < |own| + |a| {
        KnownIsTrue(children, depth + 1, off, off, k - |own|);
      } else if |own| + |a| <= k {
        KnownIsTrue(rest, depth, p, Last(children, off), k - |own| - |a|);
      }
  }

  /** How deep the node at offset `x` lies, where the row has depth `depth`. */
  ghost function DepthOf(f: Forest, depth: nat, x: int): nat
    requires Occurs(f, x)
  {
    if x == f.off then depth
    else if Occurs(f.children, x) then DepthOf(f.children, depth + 1, x)
    else DepthOf(f.rest, depth, x)
  }

  ghost predicate Listed(c: seq<Elem>, x: int) {
    exists k :: 0 <= k < |c| && c[k].node == x
  }

  lemma ListedIn(a: seq<Elem>, b: seq<Elem>, x: int)
    ensures Listed(a + b, x) <==> Listed(a, x) || Listed(b, x)
  {
    forall k | 0 <= k < |b| && b[k].node == x ensures Listed(a + b, x) {
      assert (a + b)[|a| + k] == b[k];
    }
    forall k | 0 <= k < |a| && a[k].node == x ensures Listed(a + b, x) {
      assert (a + b)[k] == a[k];
    }
  }

  /** Exactly the nodes on the first sixteen levels are collected. */
  lemma {:induction false} KnownExact(f: Forest, depth: nat, p: int, lo: int, x: int)
    requires Ordered(f, lo)
    ensures Listed(Known(f, depth, p), x) <==> Occurs(f, x) && DepthOf(f, depth, x) < 16
  {
    match f
    case Empty =>
    case Grow(off, children, rest) =>
      var own := if depth < STACK then [Elem(off, p)] else [];
      var a, b := Known(children, depth + 1, off), Known(rest, depth, p);
      OffsetBounds(children, off, x);
      OffsetBounds(rest, Last(children, off), x);
      ListedIn(own + a, b, x);
      ListedIn(own, a, x);
      assert Listed(own, x) <==> x == off && depth < 16 by {
        assert depth < STACK ==> own[0].node == off;
      }
      KnownExact(children, depth + 1, off, off, x);
      KnownExact(rest, depth, p, Last(children, off), x);
  }

  predicate SortedElems(c: seq<Elem>) {
    forall i, j :: 0 <= i < j < |c| ==> c[i].node < c[j].node
  }

  lemma {:induction false} KnownSorted(f: Forest, depth: nat, p: int, lo: int)
    requires Ordered(f, lo)
    ensures SortedElems(Known(f, depth, p)) && lo <= Last(f, lo)
    ensures forall k :: 0 <= k < |Known(f, depth, p)| ==> lo < Known(f, depth, p)[k].node <= Last(f, lo)
  {
    match f
    case Empty =>
    case Grow(off, children, rest) =>
      KnownSorted(children, depth + 1, off, off);
      KnownSorted(rest, depth, p, Last(children, off));
      var own := if depth < STACK then [Elem(off, p)] else [];
      var a, b := Known(children, depth + 1, off), Known(rest, depth, p);
      assert Known(f, depth, p) == own + a + b;
  }

  /** What the binary search yields. */
  ghost predicate Found(c: seq<Elem>, x: int, r: int) {
    && (forall k :: 0 <= k < |c| && c[k].node == x ==> r == c[k].parent)
    && ((forall k :: 0 <= k < |c| ==> c[k].node != x) ==> r == -1)
  }

  /** A whole tree: one root without siblings. The library counts its depth from `base`, zero or one; the
      stack entry that is read for the root at depth one was never written. */
  ghost predicate CacheOf(c: seq<Elem>, tree: Forest, base: nat, unset: int) {
    var all := Known(tree, base, if base == 0 then -1 else unset);
    c == if |all| <= 1024 then all else all[..1024]
  }

  predicate IsTree(tree: Forest) {
    tree.Grow? && tree.rest == Empty && Ordered(tree, -1)
  }

  /** For every node but the root, a look-up gives the true parent if the node is in the cache, and -1,
      which is no offset, if it is not. For the root it gives -1 only when the depth counts from zero. */
  lemma LookUpAgrees(c: seq<Elem>, tree: Forest, base: nat, unset: int, x: int, r: int)
    requires IsTree(tree) && base <= 1 && CacheOf(c, tree, base, unset) && Found(c, x, r)
    ensures SortedElems(c) && |c| <= 1024
    ensures Occurs(tree, x) && x != tree.off ==> r == -1 || (r == TrueParent(tree, -1, x) && r >= 0)
    ensures Occurs(tree, x) && x != tree.off && Listed(c, x) ==>
      r == TrueParent(tree, -1, x)
    ensures Occurs(tree, x) && |c| < 1024 ==>
      (Listed(c, x) <==> DepthOf(tree, base, x) < 16)
    ensures !Occurs(tree, x) ==> r == -1
    ensures x == tree.off ==> r == if base == 0 then -1 else unset
  {
    var p := if base == 0 then -1 else unset;
    var all := Known(tree, base, p);
    KnownSorted(tree, base, p, -1);
    assert all[0] == Elem(tree.off, p);
    assert |c| > 0 && c[0] == all[0];
    forall k | 0 <= k < |c| && c[k].node == x
      ensures Occurs(tree, x) && r == TrueParent(tree, p, x)
    {
      assert c[k] == all[k];
      KnownIsTrue(tree, base, p, -1, k);
    }
    if Occurs(tree, x) {
      KnownExact(tree, base, p, -1, x);
    }
    if Occurs(tree, x) && x != tree.off {
      assert !Occurs(tree.rest, x);
      ParentIsOffset(tree.children, tree.off, tree.off, x);
      assert TrueParent(tree, p, x) == TrueParent(tree, -1, x);
    }
  }

  lemma {:induction false} ParentIsOffset(f: Forest, p: nat, lo: int, x: int)
    requires Ordered(f, lo) && Occurs(f, x)
    ensures TrueParent(f, p, x) >= 0
  {
    if x != f.off {
      if Occurs(f.children, x) {
        ParentIsOffset(f.children, f.off, f.off, x);
      } else {
        ParentIsOffset(f.rest, p, Last(f.children, f.off), x);
      }
    }
  }

  /* ---- the cache ---- */

  class Cache {
    const cache: array<Elem>
    var num: nat

    ghost predicate Valid()
      reads this, cache
    {
      cache.Length == CAPACITY && num <= CAPACITY
    }

    ghost function Contents(): seq<Elem>
      reads this, cache
      requires Valid()
    {
      cache[..num]
    }

    constructor ()
      ensures Valid() && Contents() == [] && fresh(cache)
    {
      cache := new Elem[CAPACITY](_ => Elem(-1, -1));
      num := 0;
    }

    /** Go through the stream of nodes; `unset` is what the stack held before. */
    method Scan(nodes: seq<Node>) returns (ghost unset: seq<int>)
      requires Valid() && num == 0
      modifies this, cache
      ensures Valid() && cache.Length == 1024 && |unset| == 16
      ensures Contents() == Run(State(unset, []), nodes).cache
    {
      hide Run, Step;
      var stack := new int[STACK];
      unset := stack[..];
      ghost var st := State(unset, []);
      var i := 0;
      assert nodes[0..] == nodes;
      while i < |nodes|
        invariant i <= |nodes| && Valid() && fresh(stack) && st.Valid()
        invariant st == State(stack[..], Contents()) && Run(State(unset, []), nodes) == Run(st, nodes[i..])
      {
        var n := nodes[i];
        RunNext(st, nodes, i);
        var parent := if 0 < n.depth <= STACK then stack[n.depth - 1] else -1;
        if num < CAPACITY {
          if n.depth < STACK {
            cache[num] := Elem(n.off, parent);
            stack[n.depth] := n.off;
            num := num + 1;
          }
        } else {
          RunFull(st, nodes[i..]);
          return;
        }
        StepIs(st, n, parent);
        st := Step(st, n);
        i := i + 1;
      }
      RunEnd(st, nodes[i..]);
    }

    method GetParent(node: int) returns (r: int)
      requires Valid() && SortedElems(Contents())
      ensures Found(Contents(), node, r)
    {
      var min, max := 0, num - 1;
      while max >= min
        invariant 0 <= min <= num && -1 <= max < num
        invariant forall k :: 0 <= k < min ==> cache[k].node < node
        invariant forall k :: max < k < num ==> node < cache[k].node
        decreases max - min + 1
      {
        var idx := min + (max - min) / 2;
        assert forall k :: 0 <= k < num ==> cache[k] == Contents()[k];
        if cache[idx].node == node {
          return cache[idx].parent;
        } else if cache[idx].node > node {
          max := idx - 1;
        } else {
          min := idx + 1;
        }
      }
      return -1;
    }

    /** The parent of a node, from the cache or, when the cache does not know it, from a search through the
        tree, whose result is `searched`. */
    method ParentNode(node: int, searched: int, ghost tree: Forest, ghost base: nat, ghost unset: int) returns (r: int)
      requires Valid() && IsTree(tree) && base <= 1 && CacheOf(Contents(), tree, base, unset)
      requires Occurs(tree, node) && node != tree.off && searched == TrueParent(tree, -1, node)
      ensures r == TrueParent(tree, -1, node)
    {
      KnownSorted(tree, base, if base == 0 then -1 else unset, -1);
      r := GetParent(node);
      LookUpAgrees(Contents(), tree, base, unset, node, r);
      if r == -1 {
        r := searched;
      }
    }

    /** From the stream of a whole tree to the parent of any of its nodes but the root, however deep or large
        the tree is. */
    method ScanAndAsk(nodes: seq<Node>, node: int, searched: int, ghost tree: Forest, ghost base: nat) returns (r: int)
      requires Valid() && num == 0 && IsTree(tree) && base <= 1 && nodes == Stream(tree, base)
      requires Occurs(tree, node) && node != tree.off && searched == TrueParent(tree, -1, node)
      modifies this, cache
      ensures Valid() && r == TrueParent(tree, -1, node)
    {
      ghost var unset := Scan(nodes);
      ScanOfTree(tree, base, unset);
      r := ParentNode(node, searched, tree, base, unset[0]);
    }
  }

  lemma RunNext(st: State, s: seq<Node>, i: nat)
    requires st.Valid() && i < |s|
    ensures Run(st, s[i..]) == Run(Step(st, s[i]), s[i + 1..])
  {
    assert s[i..][0] == s[i] && s[i..][1..] == s[i + 1..];
  }

  lemma {:induction false} RunFull(st: State, s: seq<Node>)
    requires st.Valid() && |st.cache| >= CAPACITY
    ensures Run(st, s) == st
    decreases |s|
  {
    if s != [] {
      RunFull(st, s[1..]);
    }
  }

  lemma RunEnd(st: State, s: seq<Node>)
    requires st.Valid() && s == []
    ensures Run(st, s) == st
  {
  }

  lemma StepIs(st: State, n: Node, parent: int)
    requires st.Valid() && |st.cache| < CAPACITY
    requires parent == if 0 < n.depth <= STACK then st.stack[n.depth - 1] else -1
    ensures Step(st, n) ==
      if n.depth < STACK then State(st.stack[n.depth := n.off], st.cache + [Elem(n.off, parent)]) else st
  {
  }

  /** Scanning a whole tree leaves the cache that the look-up needs. */
  lemma ScanOfTree(tree: Forest, base: nat, unset: seq<int>)
    requires IsTree(tree) && base <= 1 && |unset| == STACK
    ensures CacheOf(Run(State(unset, []), Stream(tree, base)).cache, tree, base, unset[0])
  {
    ScanForest(tree, base, if base == 0 then -1 else unset[0], State(unset, []));
  }
}
