/** drbd_interval.c: a search tree of intervals in which every node knows the highest interval
    end of its subtree, against a plain scan of the same intervals in order. */
module Intervals {
  import opened Wrappers

  /** A drbd_interval: start sector, size in sectors, and the address that tells apart intervals
      with the same start. */
  datatype Interval = Interval(sector: nat, len: nat, addr: nat) {
    function End(): nat { sector + len }
    predicate Less(that: Interval) { sector < that.sector || (sector == that.sector && addr < that.addr) }
    /** The test for an overlap with sectors from..to. */
    predicate Overlaps(from: nat, to: nat) { sector < to && from < End() }
  }

  datatype Tree = Nil | Node(left: Tree, item: Interval, end: nat, right: Tree)

  function Max(a: nat, b: nat): nat { if a < b then b else a }

  /** interval_end, 0 for no subtree */
  function EndOf(t: Tree): nat { if t.Nil? then 0 else t.end }

  /** update_interval_end */
  function Update(l: Tree, x: Interval, r: Tree): Tree {
    Node(l, x, Max(Max(x.End(), EndOf(l)), EndOf(r)), r)
  }

  /** The intervals in tree order, which is the order of rb_next. */
  function Items(t: Tree): seq<Interval> {
    if t.Nil? then [] else Items(t.left) + [t.item] + Items(t.right)
  }

  predicate Ascending(s: seq<Interval>) {
    forall i, j :: 0 <= i < j < |s| ==> s[i].Less(s[j])
  }

  /** Every node has the exact end of its subtree. */
  predicate Exact(t: Tree) {
    t.Node? ==> Exact(t.left) && Exact(t.right) && t == Update(t.left, t.item, t.right)
  }

  predicate Valid(t: Tree) { Exact(t) && Ascending(Items(t)) }

  // ----- sequences in order -----

  lemma {:induction false} AscendingParts(a: seq<Interval>, m: Interval, b: seq<Interval>)
    ensures Ascending(a + [m] + b) <==>
      Ascending(a) && Ascending(b) && (forall x :: x in a ==> x.Less(m)) && (forall x :: x in b ==> m.Less(x))
  {
    var s := a + [m] + b;
    if Ascending(s) {
      assert forall i :: 0 <= i < |a| ==> s[i] == a[i];
      assert forall i :: 0 <= i < |b| ==> s[|a| + 1 + i] == b[i];
      assert s[|a|] == m;
      forall i, j | 0 <= i < j < |b| ensures b[i].Less(b[j]) { assert s[|a| + 1 + i].Less(s[|a| + 1 + j]); }
      forall x | x in a ensures x.Less(m) { var i :| 0 <= i < |a| && a[i] == x; assert s[i].Less(s[|a|]); }
      forall x | x in b ensures m.Less(x) { var i :| 0 <= i < |b| && b[i] == x; assert s[|a|].Less(s[|a| + 1 + i]); }
    } else {
      var i, j :| 0 <= i < j < |s| && !s[i].Less(s[j]);
      assert i < |a| ==> s[i] in a;
      assert j > |a| ==> s[j] in b;
    }
  }

  lemma {:induction false} ValidParts(t: Tree)
    requires Valid(t) && t.Node?
    ensures Valid(t.left) && Valid(t.right)
    ensures (forall x :: x in Items(t.left) ==> x.Less(t.item)) && (forall x :: x in Items(t.right) ==> t.item.Less(x))
  {
    AscendingParts(Items(t.left), t.item, Items(t.right));
  }

  lemma {:induction false} ValidNode(l: Tree, m: Interval, r: Tree)
    requires Valid(l) && Valid(r)
    requires (forall x :: x in Items(l) ==> x.Less(m)) && (forall x :: x in Items(r) ==> m.Less(x))
    ensures Valid(Update(l, m, r))
  {
    AscendingParts(Items(l), m, Items(r));
  }

  /** The end of a tree is the highest end in it. */
  lemma {:induction false} EndIsMax(t: Tree)
    requires Exact(t)
    ensures forall x :: x in Items(t) ==> x.End() <= EndOf(t)
    ensures t.Node? ==> exists x :: x in Items(t) && x.End() == t.end
  {
    if t.Node? {
      EndIsMax(t.left);
      EndIsMax(t.right);
      assert t.item in Items(t);
      if t.end == EndOf(t.left) && t.left.Node? {
        var x :| x in Items(t.left) && x.End() == t.left.end;
        assert x in Items(t);
      } else if t.end == EndOf(t.right) && t.right.Node? {
        var x :| x in Items(t.right) && x.End() == t.right.end;
        assert x in Items(t);
      }
    }
  }

  // ----- insert, contains, remove -----

  predicate SameKey(x: Interval, y: Interval) { x.sector == y.sector && x.addr == y.addr }

  /** drbd_insert_interval before the rebalancing: None when the interval is there already. */
  function Insert(t: Tree, x: Interval): Option<Tree> {
    if t.Nil? then Some(Update(Nil, x, Nil))
    else if x.Less(t.item) then
      var l := Insert(t.left, x);
      if l.None? then None else Some(Update(l.value, t.item, t.right))
    else if t.item.Less(x) then
      var r := Insert(t.right, x);
      if r.None? then None else Some(Update(t.left, t.item, r.value))
    else None
  }

  lemma {:induction false} InsertItems(t: Tree, x: Interval)
    requires Valid(t)
    ensures Insert(t, x).None? <==> exists y :: y in Items(t) && SameKey(x, y)
    ensures Insert(t, x).Some? ==>
      Valid(Insert(t, x).value) && forall y :: y in Items(Insert(t, x).value) <==> y in Items(t) || y == x
  {
    if t.Node? {
      ValidParts(t);
      assert t.item in Items(t);
      if x.Less(t.item) {
        InsertItems(t.left, x);
        var l := Insert(t.left, x);
        if l.Some? { ValidNode(l.value, t.item, t.right); }
      } else if t.item.Less(x) {
        InsertItems(t.right, x);
        var r := Insert(t.right, x);
        if r.Some? { ValidNode(t.left, t.item, r.value); }
      }
    } else {
      ValidNode(Nil, x, Nil);
    }
  }

  /** The leftmost interval, and the tree without it. */
  function TakeMin(t: Tree): (Interval, Tree)
    requires t.Node?
  {
    if t.left.Nil? then (t.item, t.right)
    else
      var (m, l) := TakeMin(t.left);
      (m, Update(l, t.item, t.right))
  }

  lemma {:induction false} TakeMinItems(t: Tree)
    requires Exact(t) && t.Node?
    ensures var (m, r) := TakeMin(t); Exact(r) && Items(t) == [m] + Items(r)
  {
    if t.left.Node? { TakeMinItems(t.left); }
  }

  /** drbd_remove_interval before the rebalancing; the successor replaces a node with two children */
  function Remove(t: Tree, x: Interval): Tree {
    if t.Nil? then Nil
    else if x.Less(t.item) then Update(Remove(t.left, x), t.item, t.right)
    else if t.item.Less(x) then Update(t.left, t.item, Remove(t.right, x))
    else if t.left.Nil? then t.right
    else if t.right.Nil? then t.left
    else
      var (m, r) := TakeMin(t.right);
      Update(t.left, m, r)
  }

  lemma {:induction false} RemoveRoot(t: Tree)
    requires Valid(t) && t.Node?
    ensures var r := if t.left.Nil? then t.right else if t.right.Nil? then t.left
      else Update(t.left, TakeMin(t.right).0, TakeMin(t.right).1);
            Valid(r) && Items(r) == Items(t.left) + Items(t.right)
  {
    ValidParts(t);
    if t.left.Node? && t.right.Node? {
      TakeMinItems(t.right);
      var (m, r) := TakeMin(t.right);
      assert Items(Update(t.left, m, r)) == Items(t.left) + Items(t.right);
      assert m in Items(t.right);
      AscendingParts([], m, Items(r));
      assert [] + [m] + Items(r) == [m] + Items(r);
      ValidNode(t.left, m, r);
    }
  }

  lemma {:induction false} RemoveItems(t: Tree, x: Interval)
    requires Valid(t)
    ensures Valid(Remove(t, x)) && forall y :: y in Items(Remove(t, x)) <==> y in Items(t) && !SameKey(x, y)
  {
    if t.Node? {
      ValidParts(t);
      if x.Less(t.item) {
        RemoveItems(t.left, x);
        ValidNode(Remove(t.left, x), t.item, t.right);
      } else if t.item.Less(x) {
        RemoveItems(t.right, x);
        ValidNode(t.left, t.item, Remove(t.right, x));
      } else {
        RemoveRoot(t);
      }
    }
  }

  // ----- rebalancing -----

  function RotateRight(t: Tree): Tree {
    if t.Node? && t.left.Node? then Update(t.left.left, t.left.item, Update(t.left.right, t.item, t.right)) else t
  }
  function RotateLeft(t: Tree): Tree {
    if t.Node? && t.right.Node? then Update(Update(t.left, t.item, t.right.left), t.right.item, t.right.right) else t
  }

  datatype Dir = Left | Right

  /** A rotation at the end of a path from the root, with the ends updated up to the root. */
  function RotateAt(t: Tree, path: seq<Dir>, right: bool): Tree {
    if t.Nil? then t
    else if path == [] then if right then RotateRight(t) else RotateLeft(t)
    else if path[0] == Left then Update(RotateAt(t.left, path[1..], right), t.item, t.right)
    else Update(t.left, t.item, RotateAt(t.right, path[1..], right))
  }

  /** Rotations change neither the order nor the exactness of the ends. */
  lemma {:induction false} RotateKeeps(t: Tree, path: seq<Dir>, right: bool)
    requires Exact(t)
    ensures Exact(RotateAt(t, path, right)) && Items(RotateAt(t, path, right)) == Items(t)
    decreases t
  {
    if t.Node? && path != [] {
      if path[0] == Left { RotateKeeps(t.left, path[1..], right); } else { RotateKeeps(t.right, path[1..], right); }
    } else if t.Node? && right && t.left.Node? {
      var a, b, c := Items(t.left.left), Items(t.left.right), Items(t.right);
      assert (a + [t.left.item] + b) + [t.item] + c == a + [t.left.item] + (b + [t.item] + c);
    } else if t.Node? && !right && t.right.Node? {
      var a, b, c := Items(t.left), Items(t.right.left), Items(t.right.right);
      assert a + [t.item] + (b + [t.right.item] + c) == (a + [t.item] + b) + [t.right.item] + c;
    }
  }

  /** A tree operation, followed by whatever rotations the kernel makes. */
  datatype Op = Add(x: Interval) | Drop(x: Interval) | Rotate(path: seq<Dir>, right: bool)

  function Apply(t: Tree, op: Op): Tree {
    match op
    case Add(x) => (match Insert(t, x) case Some(u) => u case None => t)
    case Drop(x) => Remove(t, x)
    case Rotate(path, right) => RotateAt(t, path, right)
  }

  function ApplyAll(ops: seq<Op>): Tree {
    if ops == [] then Nil else Apply(ApplyAll(ops[..|ops| - 1]), ops[|ops| - 1])
  }

  /** The set that the tree stands for; an interval that is there already is not added again. */
  function Contents(ops: seq<Op>): set<Interval> {
    if ops == [] then {}
    else
      var c := Contents(ops[..|ops| - 1]);
      match ops[|ops| - 1]
      case Add(x) => if exists y :: y in c && SameKey(x, y) then c else c + {x}
      case Drop(x) => set y | y in c && !SameKey(x, y)
      case Rotate(_, _) => c
  }

  /** After any inserts, removes and rotations the tree is in order with exact ends, and holds
      exactly the intervals it should. */
  lemma {:induction false} AlwaysValid(ops: seq<Op>)
    ensures Valid(ApplyAll(ops)) && forall x :: x in Items(ApplyAll(ops)) <==> x in Contents(ops)
  {
    if ops != [] {
      var n := |ops| - 1;
      AlwaysValid(ops[..n]);
      var t := ApplyAll(ops[..n]);
      match ops[n]
      case Add(x) => InsertItems(t, x);
      case Drop(x) => RemoveItems(t, x);
      case Rotate(path, right) => RotateKeeps(t, path, right);
    }
  }

  // ----- overlaps -----

  /** The index of the first interval from k on that overlaps, by a linear scan. */
  function Scan(s: seq<Interval>, from: nat, to: nat, k: nat := 0): (r: nat)
    requires k <= |s|
    ensures k <= r <= |s| && (r < |s| ==> s[r].Overlaps(from, to)) && forall i :: k <= i < r ==>
      !s[i].Overlaps(from, to)
    decreases |s| - k
  {
    if k == |s| || s[k].Overlaps(from, to) then k else Scan(s, from, to, k + 1)
  }

  /** What the scan finds. */
  function First(s: seq<Interval>, from: nat, to: nat): Option<Interval> {
    var k := Scan(s, from, to);
    if k < |s| then Some(s[k]) else None
  }

  lemma {:induction false} FirstIs(s: seq<Interval>, from: nat, to: nat, k: nat)
    requires k < |s| && s[k].Overlaps(from, to) && forall i :: 0 <= i < k ==> !s[i].Overlaps(from, to)
    ensures First(s, from, to) == Some(s[k])
  {}

  lemma {:induction false} FirstAppend(a: seq<Interval>, b: seq<Interval>, from: nat, to: nat)
    ensures First(a + b, from, to) == if First(a, from, to).Some? then First(a, from, to) else First(b, from, to)
  {
    var k := Scan(a, from, to);
    if k < |a| {
      assert (a + b)[k] == a[k];
      FirstIs(a + b, from, to, k);
    } else {
      var j := Scan(b, from, to);
      assert forall i :: 0 <= i < |a| ==> (a + b)[i] == a[i];
      assert forall i :: |a| <= i < |a| + |b| ==> (a + b)[i] == b[i - |a|];
      if j < |b| { FirstIs(a + b, from, to, |a| + j); }
    }
  }

  lemma {:induction false} NoneOverlaps(s: seq<Interval>, from: nat, to: nat)
    requires forall x :: x in s ==> !x.Overlaps(from, to)
    ensures First(s, from, to).None?
  {}

  lemma {:induction false} FirstOfNode(t: Tree, from: nat, to: nat)
    requires t.Node?
    ensures First(Items(t), from, to) ==
      var l := First(Items(t.left), from, to);
      if l.Some? then l else if t.item.Overlaps(from, to) then Some(t.item) else First(Items(t.right), from, to)
  {
    FirstAppend(Items(t.left) + [t.item], Items(t.right), from, to);
    FirstAppend(Items(t.left), [t.item], from, to);
    assert First([t.item], from, to) == if t.item.Overlaps(from, to) then Some(t.item) else None;
  }

  /** An end beyond the start on the left: an overlap, if any, is on the left. */
  lemma {:induction false} GoLeft(t: Tree, from: nat, to: nat)
    requires Valid(t) && t.Node? && t.left.Node? && from < t.left.end
    ensures First(Items(t), from, to) == First(Items(t.left), from, to)
  {
    ValidParts(t);
    EndIsMax(t.left);
    FirstOfNode(t, from, to);
    var x :| x in Items(t.left) && x.End() == t.left.end;
    if First(Items(t.left), from, to).None? {
      assert !x.Overlaps(from, to);
      NoneOverlaps(Items(t.right), from, to);
    }
  }

  /** No end beyond the start on the left: nothing on the left overlaps. */
  lemma {:induction false} NotLeft(t: Tree, from: nat, to: nat)
    requires Valid(t) && t.Node? && from >= EndOf(t.left)
    ensures First(Items(t), from, to) ==
      if t.item.Overlaps(from, to) then Some(t.item) else First(Items(t.right), from, to)
    ensures from < t.item.sector && !t.item.Overlaps(from, to) ==> First(Items(t.right), from, to).None?
  {
    ValidParts(t);
    EndIsMax(t.left);
    NoneOverlaps(Items(t.left), from, to);
    FirstOfNode(t, from, to);
    if from < t.item.sector && !t.item.Overlaps(from, to) { NoneOverlaps(Items(t.right), from, to); }
  }

  lemma {:induction false} NothingBeyond(s: seq<Interval>, k: nat, from: nat, to: nat)
    requires Ascending(s) && k < |s| && s[k].sector >= to
    ensures Scan(s, from, to, k) == |s|
  {}

  /** The overlapping intervals of s from k on, in order. */
  function Overlapping(s: seq<Interval>, from: nat, to: nat, k: nat := 0): seq<Interval>
    requires k <= |s|
    decreases |s| - k
  {
    if k == |s| then []
    else if s[k].Overlaps(from, to) then [s[k]] + Overlapping(s, from, to, k + 1)
    else Overlapping(s, from, to, k + 1)
  }

  /** Nothing is missed by going on to the next overlap. */
  lemma {:induction false} OverlappingScan(s: seq<Interval>, from: nat, to: nat, k: nat)
    requires k <= |s|
    ensures Overlapping(s, from, to, k) == Overlapping(s, from, to, Scan(s, from, to, k))
    decreases |s| - k
  {
    if k < |s| && !s[k].Overlaps(from, to) { OverlappingScan(s, from, to, k + 1); }
  }

  // ----- the next interval in order -----

  /** The first interval of s that comes after x. */
  function After(s: seq<Interval>, x: Interval): Option<Interval> {
    if s == [] then None else if x.Less(s[0]) then Some(s[0]) else After(s[1..], x)
  }

  lemma {:induction false} AfterAppend(a: seq<Interval>, b: seq<Interval>, x: Interval)
    ensures After(a + b, x) == if After(a, x).Some? then After(a, x) else After(b, x)
  {
    if a == [] {
      assert a + b == b;
    } else {
      assert (a + b)[1..] == a[1..] + b;
      AfterAppend(a[1..], b, x);
    }
  }

  lemma {:induction false} NoneAfter(s: seq<Interval>, x: Interval)
    requires forall y :: y in s ==> !x.Less(y)
    ensures After(s, x).None?
  {
    if s != [] { NoneAfter(s[1..], x); }
  }

  /** In an ordered sequence it is the neighbour. */
  lemma {:induction false} AfterAt(s: seq<Interval>, k: nat)
    requires Ascending(s) && k < |s|
    ensures After(s, s[k]) == if k + 1 < |s| then Some(s[k + 1]) else None
  {
    var a, b := s[..k + 1], s[k + 1..];
    assert s == a + b;
    forall y | y in a ensures !s[k].Less(y) {
      var i :| 0 <= i < |a| && a[i] == y;
      if i < k { assert s[i].Less(s[k]); }
    }
    NoneAfter(a, s[k]);
    AfterAppend(a, b, s[k]);
    if b != [] { assert s[k].Less(s[k + 1]) && b[0] == s[k + 1]; }
  }

  lemma {:induction false} AfterOfNode(t: Tree, x: Interval)
    requires Valid(t) && t.Node?
    ensures x.Less(t.item) ==>
      After(Items(t), x) == if After(Items(t.left), x).Some? then After(Items(t.left), x) else Some(t.item)
    ensures !x.Less(t.item) ==> After(Items(t), x) == After(Items(t.right), x)
  {
    ValidParts(t);
    AfterAppend(Items(t.left) + [t.item], Items(t.right), x);
    AfterAppend(Items(t.left), [t.item], x);
    assert After([t.item], x) == if x.Less(t.item) then Some(t.item) else None;
    if !x.Less(t.item) { NoneAfter(Items(t.left), x); }
  }
}
