/** The interval tree as linked nodes that are updated in place.  Every node carries, as
    specification, the tree of module Intervals that it is the root of. */
module IntervalNodes {
  import opened Wrappers
  import opened Intervals

  class INode {
    const item: Interval
    var left: INode?
    var right: INode?
    /** highest interval end in subtree */
    var end: nat
    ghost var repr: set<INode>
    ghost var tree: Tree

    ghost predicate Valid()
      reads this, repr
      decreases repr
    {
      && this in repr
      && (left != null ==> left in repr && left.repr <= repr && this !in left.repr && left.Valid())
      && (right != null ==> right in repr && right.repr <= repr && this !in right.repr && right.Valid())
      && Repr(left) !! Repr(right)
      && repr == {this} + Repr(left) + Repr(right)
      && tree == Node(TreeOf(left), item, end, TreeOf(right))
    }

    /** A node that is in no tree. */
    constructor (item: Interval)
      ensures Valid() && this.item == item && repr == {this} && tree == Update(Nil, item, Nil)
    {
      this.item, left, right, end := item, null, null, item.End();
      new;
      repr, tree := {this}, Update(Nil, item, Nil);
    }

    method HighestEnd() returns (e: nat)
      requires Good(left) && Good(right)
      ensures e == Update(TreeOf(left), item, TreeOf(right)).end
    {
      e := item.End();
      if left != null && left.end > e {
        e := left.end;
      }
      if right != null && right.end > e {
        e := right.end;
      }
    }

    /** update_interval_end, after a child has changed */
    method UpdateEnd()
      requires Good(left) && Good(right) && this !in Repr(left) && this !in Repr(right) && Repr(left) !! Repr(right)
      modifies this`end, this`repr, this`tree
      ensures Valid() && repr == {this} + Repr(left) + Repr(right)
      ensures tree == Update(TreeOf(left), item, TreeOf(right))
    {
      end := HighestEnd();
      repr, tree := {this} + Repr(left) + Repr(right), Update(TreeOf(left), item, TreeOf(right));
    }

    method SetLeft(child: INode?)
      requires Good(child) && this !in Repr(child) && Good(right) && this !in Repr(right) && Repr(child) !! Repr(right)
      modifies this
      ensures Valid() && left == child && right == old(right) && repr == {this} + Repr(child) + Repr(right)
      ensures tree == Update(TreeOf(child), item, TreeOf(right))
    {
      left := child;
      UpdateEnd();
    }

    method SetRight(child: INode?)
      requires Good(child) && this !in Repr(child) && Good(left) && this !in Repr(left) && Repr(child) !! Repr(left)
      modifies this
      ensures Valid() && right == child && left == old(left) && repr == {this} + Repr(left) + Repr(child)
      ensures tree == Update(TreeOf(left), item, TreeOf(child))
    {
      right := child;
      UpdateEnd();
    }

    method SetBoth(l: INode?, r: INode?)
      requires Good(l) && this !in Repr(l) && Good(r) && this !in Repr(r) && Repr(l) !! Repr(r)
      modifies this
      ensures Valid() && repr == {this} + Repr(l) + Repr(r) && tree == Update(TreeOf(l), item, TreeOf(r))
    {
      left, right := l, r;
      UpdateEnd();
    }
  }

  ghost function Repr(n: INode?): set<INode>
    reads n
  {
    if n == null then {} else n.repr
  }

  ghost function TreeOf(n: INode?): Tree
    reads n
  {
    if n == null then Nil else n.tree
  }

  ghost predicate Good(n: INode?)
    reads n, Repr(n)
  {
    n != null ==> n.Valid()
  }

  // ----- searches -----

  /** drbd_contains_interval */
  method Contains(root: INode?, sector: nat, addr: nat) returns (found: bool)
    requires Good(root) && Intervals.Valid(TreeOf(root))
    ensures found <==> exists y :: y in Items(TreeOf(root)) && y.sector == sector && y.addr == addr
  {
    var node := root;
    while node != null
      invariant Good(node) && Intervals.Valid(TreeOf(node))
      invariant (exists y :: y in Items(TreeOf(root)) && y.sector == sector && y.addr == addr) <==>
                (exists y :: y in Items(TreeOf(node)) && y.sector == sector && y.addr == addr)
      decreases TreeOf(node)
    {
      ValidParts(node.tree);
      assert node.item in Items(node.tree);
      if sector < node.item.sector || (sector == node.item.sector && addr < node.item.addr) {
        node := node.left;
      } else if sector > node.item.sector || addr > node.item.addr {
        node := node.right;
      } else {
        return true;
      }
    }
    found := false;
  }

  /** drbd_find_overlap */
  method FindOverlap(root: INode?, sector: nat, len: nat) returns (r: INode?)
    requires Good(root) && Intervals.Valid(TreeOf(root))
    ensures r == null ==> First(Items(TreeOf(root)), sector, sector + len).None?
    ensures r != null ==> First(Items(TreeOf(root)), sector, sector + len) == Some(r.item)
  {
    var end := sector + len;
    var node := root;
    while node != null
      invariant Good(node) && Intervals.Valid(TreeOf(node))
      invariant First(Items(TreeOf(node)), sector, end) == First(Items(TreeOf(root)), sector, end)
      decreases TreeOf(node)
    {
      ValidParts(node.tree);
      assert node.left != null ==> node.left.Valid();
      if node.left != null && sector < node.left.end {
        GoLeft(node.tree, sector, end);
        node := node.left;
      } else {
        NotLeft(node.tree, sector, end);
        if node.item.Overlaps(sector, end) {
          return node;
        } else if sector >= node.item.sector {
          node := node.right;
        } else {
          return null;
        }
      }
    }
    r := null;
  }

  /** rb_next: the node behind x in tree order */
  method NextNode(root: INode?, x: Interval) returns (r: INode?)
    requires Good(root) && Intervals.Valid(TreeOf(root))
    ensures r == null <==> After(Items(TreeOf(root)), x).None?
    ensures r != null ==> After(Items(TreeOf(root)), x) == Some(r.item)
  {
    r := null;
    var node := root;
    while node != null
      invariant Good(node) && Intervals.Valid(TreeOf(node))
      invariant After(Items(TreeOf(root)), x) ==
        var a := After(Items(TreeOf(node)), x);
        if a.Some? then a else if r != null then Some(r.item) else None
      decreases TreeOf(node)
    {
      ValidParts(node.tree);
      AfterOfNode(node.tree, x);
      if x.Less(node.item) {
        r := node;
        node := node.left;
      } else {
        node := node.right;
      }
    }
  }

  /** drbd_next_overlap, from the interval at index k of the tree order */
  method NextOverlap(root: INode?, x: Interval, ghost k: nat, sector: nat, len: nat) returns (r: INode?)
    requires Good(root) && Intervals.Valid(TreeOf(root)) && k < |Items(TreeOf(root))| && Items(TreeOf(root))[k] == x
    ensures var s := Items(TreeOf(root)); var j := Scan(s, sector, sector + len, k + 1);
            if j == |s| then r == null else r != null && r.item == s[j]
  {
    ghost var s, j := Items(TreeOf(root)), k;
    var i, end := x, sector + len;
    while true
      invariant k <= j < |s| && s[j] == i && Scan(s, sector, end, j + 1) == Scan(s, sector, end, k + 1)
      decreases |s| - j
    {
      AfterAt(s, j);
      r := NextNode(root, i);
      if r == null {
        return;
      }
      i, j := r.item, j + 1;
      if i.sector >= end {
        NothingBeyond(s, j, sector, end);
        return null;
      }
      if sector < i.End() {
        return;
      }
    }
  }

  /** drbd_for_each_overlap visits every overlapping interval once, in ascending order. */
  method ForEachOverlap(root: INode?, sector: nat, len: nat) returns (visited: seq<Interval>)
    requires Good(root) && Intervals.Valid(TreeOf(root))
    ensures visited == Overlapping(Items(TreeOf(root)), sector, sector + len)
  {
    ghost var s, end := Items(TreeOf(root)), sector + len;
    visited := [];
    var i := FindOverlap(root, sector, len);
    ghost var k := Scan(s, sector, end);
    OverlappingScan(s, sector, end, 0);
    while i != null
      invariant k <= |s| && (k < |s| <==> i != null)
      invariant i != null ==> i.item == s[k] && s[k].Overlaps(sector, end)
      invariant visited + Overlapping(s, sector, end, k) == Overlapping(s, sector, end)
      decreases |s| - k
    {
      VisitOne(visited, s, sector, end, k);
      visited := visited + [i.item];
      OverlappingScan(s, sector, end, k + 1);
      i := NextOverlap(root, i.item, k, sector, len);
      k := Scan(s, sector, end, k + 1);
    }
  }

  lemma {:induction false} VisitOne(visited: seq<Interval>, s: seq<Interval>, from: nat, to: nat, k: nat)
    requires k < |s| && s[k].Overlaps(from, to)
    ensures visited + Overlapping(s, from, to, k) == (visited + [s[k]]) + Overlapping(s, from, to, k + 1)
  {}

  // ----- updates -----

  /** A node that is not linked yet. */
  ghost predicate Loose(x: INode)
    reads x, x.repr
  {
    x.Valid() && x.tree == Update(Nil, x.item, Nil) && x.repr == {x}
  }

  /** drbd_insert_interval: links the node and updates the ends on the way back to the root. */
  method InsertNode(root: INode?, x: INode) returns (r: INode?, ok: bool)
    requires Good(root) && Loose(x) && x !in Repr(root)
    modifies Repr(root)
    ensures Good(r) && (ok <==> old(Insert(TreeOf(root), x.item)).Some?)
    ensures ok ==> Some(TreeOf(r)) == old(Insert(TreeOf(root), x.item)) && Repr(r) == old(Repr(root)) + {x}
    ensures !ok ==> r == root && unchanged(old(Repr(root)))
    decreases Repr(root), 1
  {
    if root == null {
      return x, true;
    }
    r := root;
    if x.item.Less(root.item) {
      ok := InsertLeft(root, x);
    } else if root.item.Less(x.item) {
      ok := InsertRight(root, x);
    } else {
      ok := false;
    }
  }

  method InsertLeft(root: INode, x: INode) returns (ok: bool)
    requires root.Valid() && Loose(x) && x !in root.repr
    modifies root.repr
    ensures ok <==> old(Insert(root.tree.left, x.item)).Some?
    ensures ok ==>
      root.Valid() && root.tree == old(Update(Insert(root.tree.left, x.item).value, root.item, root.tree.right))
      && root.repr == old(root.repr) + {x}
    ensures !ok ==> unchanged(old(root.repr))
    decreases root.repr, 0
  {
    assert root.right != null ==> root.right.Valid();
    var l;
    l, ok := InsertNode(root.left, x);
    if ok {
      root.SetLeft(l);
    }
  }

  method InsertRight(root: INode, x: INode) returns (ok: bool)
    requires root.Valid() && Loose(x) && x !in root.repr
    modifies root.repr
    ensures ok <==> old(Insert(root.tree.right, x.item)).Some?
    ensures ok ==>
      root.Valid() && root.tree == old(Update(root.tree.left, root.item, Insert(root.tree.right, x.item).value))
      && root.repr == old(root.repr) + {x}
    ensures !ok ==> unchanged(old(root.repr))
    decreases root.repr, 0
  {
    assert root.left != null ==> root.left.Valid();
    var n;
    n, ok := InsertNode(root.right, x);
    if ok {
      root.SetRight(n);
    }
  }

  /** Unlinks the leftmost node of a subtree. */
  method TakeMinNode(n: INode) returns (m: INode, rest: INode?)
    requires n.Valid()
    modifies n.repr
    ensures m in old(n.repr) && Good(rest) && Repr(rest) == old(n.repr) - {m}
    ensures (m.item, TreeOf(rest)) == old(TakeMin(n.tree))
    decreases n.repr
  {
    assert n.left != null ==> n.left.Valid();
    assert n.right != null ==> n.right.Valid();
    if n.left == null {
      return n, n.right;
    }
    var l;
    m, l := TakeMinNode(n.left);
    n.SetLeft(l);
    rest := n;
  }

  /** drbd_remove_interval: unlinks the interval's node and updates the ends above it. */
  method RemoveNode(root: INode?, x: Interval) returns (r: INode?)
    requires Good(root)
    modifies Repr(root)
    ensures Good(r) && TreeOf(r) == old(Remove(TreeOf(root), x)) && Repr(r) <= old(Repr(root))
    decreases Repr(root), 1
  {
    if root == null {
      return null;
    }
    if x.Less(root.item) {
      RemoveLeft(root, x);
      r := root;
    } else if root.item.Less(x) {
      RemoveRight(root, x);
      r := root;
    } else {
      r := RemoveRootNode(root);
    }
  }

  method RemoveLeft(root: INode, x: Interval)
    requires root.Valid()
    modifies root.repr
    ensures root.Valid() && root.tree == old(Update(Remove(root.tree.left, x), root.item, root.tree.right))
      && root.repr <= old(root.repr)
    decreases root.repr, 0
  {
    assert root.right != null ==> root.right.Valid();
    var l := RemoveNode(root.left, x);
    root.SetLeft(l);
  }

  method RemoveRight(root: INode, x: Interval)
    requires root.Valid()
    modifies root.repr
    ensures root.Valid() && root.tree == old(Update(root.tree.left, root.item, Remove(root.tree.right, x)))
      && root.repr <= old(root.repr)
    decreases root.repr, 0
  {
    assert root.left != null ==> root.left.Valid();
    var n := RemoveNode(root.right, x);
    root.SetRight(n);
  }

  /** The root itself goes; its successor takes its place if it has two children. */
  method RemoveRootNode(root: INode) returns (r: INode?)
    requires root.Valid()
    modifies root.repr
    ensures Good(r) && Repr(r) <= old(root.repr)
    ensures TreeOf(r) ==
      old(if root.tree.left.Nil? then root.tree.right else if root.tree.right.Nil? then root.tree.left
                             else Update(root.tree.left, TakeMin(root.tree.right).0, TakeMin(root.tree.right).1))
  {
    assert root.left != null ==> root.left.Valid();
    assert root.right != null ==> root.right.Valid();
    if root.left == null {
      return root.right;
    }
    if root.right == null {
      return root.left;
    }
    var m, rest := TakeMinNode(root.right);
    m.SetBoth(root.left, rest);
    r := m;
  }

  /** The first half of a rotation: n gives its child up and takes the child's inner subtree. */
  method GiveUpLeft(n: INode) returns (r: INode)
    requires n.Valid() && n.left != null && n.left.Valid()
    modifies n
    ensures r == old(n.left) && n.Valid() && n.tree == old(Update(n.tree.left.right, n.tree.item, n.tree.right))
    ensures Good(r.left) && TreeOf(r.left) == old(n.tree.left.left) && r.item == old(n.tree.left.item)
    ensures r !in Repr(r.left) && r !in n.repr && Repr(r.left) !! n.repr
    ensures {r} + Repr(r.left) + n.repr == old(n.repr)
  {
    r := n.left;
    n.SetLeft(r.right);
  }

  method GiveUpRight(n: INode) returns (r: INode)
    requires n.Valid() && n.right != null && n.right.Valid()
    modifies n
    ensures r == old(n.right) && n.Valid() && n.tree == old(Update(n.tree.left, n.tree.item, n.tree.right.left))
    ensures Good(r.right) && TreeOf(r.right) == old(n.tree.right.right) && r.item == old(n.tree.right.item)
    ensures r !in Repr(r.right) && r !in n.repr && Repr(r.right) !! n.repr
    ensures {r} + Repr(r.right) + n.repr == old(n.repr)
  {
    r := n.right;
    n.SetRight(r.left);
  }

  /** A right rotation, with the ends of both nodes updated. */
  method RotateNodeRight(n: INode) returns (r: INode)
    requires n.Valid() && n.left != null
    modifies n, n.left
    ensures r.Valid() && r.repr == old(n.repr) && r.tree == old(RotateRight(n.tree))
  {
    r := GiveUpLeft(n);
    r.SetRight(n);
  }

  method RotateNodeLeft(n: INode) returns (r: INode)
    requires n.Valid() && n.right != null
    modifies n, n.right
    ensures r.Valid() && r.repr == old(n.repr) && r.tree == old(RotateLeft(n.tree))
  {
    r := GiveUpRight(n);
    r.SetLeft(n);
  }

  /** A rotation at the end of a path from the root. */
  method RotateNodeAt(root: INode?, path: seq<Dir>, right: bool) returns (r: INode?)
    requires Good(root)
    modifies Repr(root)
    ensures Good(r) && Repr(r) == old(Repr(root)) && TreeOf(r) == old(RotateAt(TreeOf(root), path, right))
    decreases |path|, 1
  {
    if root == null {
      return null;
    }
    if path == [] {
      r := RotateHere(root, right);
    } else if path[0] == Left {
      RotateInLeft(root, path, right);
      r := root;
    } else {
      RotateInRight(root, path, right);
      r := root;
    }
  }

  /** Without a child to come up, nothing changes. */
  method RotateHere(n: INode, right: bool) returns (r: INode)
    requires n.Valid()
    modifies n.repr
    ensures r.Valid() && r.repr == old(n.repr)
    ensures r.tree == old(if right then RotateRight(n.tree) else RotateLeft(n.tree))
  {
    r := n;
    if right && n.left != null {
      r := RotateNodeRight(n);
    } else if !right && n.right != null {
      r := RotateNodeLeft(n);
    }
  }

  method RotateInLeft(root: INode, path: seq<Dir>, right: bool)
    requires root.Valid() && path != []
    modifies root.repr
    ensures root.Valid() && root.repr == old(root.repr)
    ensures root.tree == old(Update(RotateAt(root.tree.left, path[1..], right), root.item, root.tree.right))
    decreases |path|, 0
  {
    assert root.right != null ==> root.right.Valid();
    var l := RotateNodeAt(root.left, path[1..], right);
    root.SetLeft(l);
  }

  method RotateInRight(root: INode, path: seq<Dir>, right: bool)
    requires root.Valid() && path != []
    modifies root.repr
    ensures root.Valid() && root.repr == old(root.repr)
    ensures root.tree == old(Update(root.tree.left, root.item, RotateAt(root.tree.right, path[1..], right)))
    decreases |path|, 0
  {
    assert root.left != null ==> root.left.Valid();
    var n := RotateNodeAt(root.right, path[1..], right);
    root.SetRight(n);
  }
}
