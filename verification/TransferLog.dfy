/** The primary's side of the barrier protocol: the transfer log, the worker that sends it out
    and closes epochs with barriers, and tl_release, which checks every barrier ack. */
module TransferLog {

  datatype Packet = Write | Barrier(nr: nat)

  /** A request on the transfer log; done stands for RQ_NET_DONE, which a barrier ack sets. */
  datatype Req = Req(write: bool, net: bool, done: bool, epoch: nat) {
    predicate Pending() { write && net && !done }
  }

  /** An epoch number and a number of writes. */
  type Group = (nat, nat)

  /** The epochs of the writes that wait for a barrier ack, with their sizes, oldest first. */
  function Groups(tl: seq<Req>): seq<Group> {
    if tl == [] then []
    else if !tl[0].Pending() then Groups(tl[1..])
    else Before(tl[0].epoch, Groups(tl[1..]))
  }

  /** One write of epoch e in front. */
  function Before(e: nat, g: seq<Group>): seq<Group> {
    if g != [] && g[0].0 == e then [(e, g[0].1 + 1)] + g[1..] else [(e, 1)] + g
  }

  /** One more write in epoch e. */
  function Add(g: seq<Group>, e: nat): seq<Group> {
    if g != [] && g[|g| - 1].0 == e then g[..|g| - 1] + [(e, g[|g| - 1].1 + 1)] else g + [(e, 1)]
  }

  predicate Sorted(tl: seq<Req>) {
    forall i, j :: 0 <= i < j < |tl| ==> tl[i].epoch <= tl[j].epoch
  }

  /** Writes are sent to the peer, and acked ones belong to earlier epochs than the others. */
  predicate LogOk(tl: seq<Req>) {
    && Sorted(tl)
    && (forall i :: 0 <= i < |tl| && tl[i].write ==> tl[i].net)
    && (forall i, j :: 0 <= i < |tl| && 0 <= j < |tl| && tl[i].write && tl[i].done && tl[j].Pending() ==>
      tl[i].epoch < tl[j].epoch)
  }

  lemma {:induction false} TailOk(tl: seq<Req>)
    requires LogOk(tl) && tl != []
    ensures LogOk(tl[1..]) && forall i :: 0 <= i < |tl[1..]| ==> tl[0].epoch <= tl[1..][i].epoch
  {}

  lemma {:induction false} AddBehind(x: Group, h: seq<Group>, f: nat)
    requires h != []
    ensures Add([x] + h, f) == [x] + Add(h, f)
  {}

  lemma {:induction false} BeforeAdd(e: nat, g: seq<Group>, f: nat)
    ensures Before(e, Add(g, f)) == Add(Before(e, g), f)
  {
    if |g| > 1 {
      var h := g[1..];
      assert g == [g[0]] + h;
      AddBehind(g[0], h, f);
      AddBehind((e, g[0].1 + 1), h, f);
      AddBehind((e, 1), g, f);
    } else if |g| == 1 {
      AddBehind((e, 1), g, f);
    }
  }

  lemma {:induction false} GroupsSnoc(tl: seq<Req>, r: Req)
    ensures Groups(tl + [r]) == if r.Pending() then Add(Groups(tl), r.epoch) else Groups(tl)
  {
    if tl == [] {
      assert tl + [r] == [r] && [r][1..] == [];
    } else {
      assert (tl + [r])[1..] == tl[1..] + [r];
      GroupsSnoc(tl[1..], r);
      BeforeAdd(tl[0].epoch, Groups(tl[1..]), r.epoch);
    }
  }

  /** Marks the writes of one epoch. */
  function Acked(tl: seq<Req>, nr: nat): (r: seq<Req>)
    ensures |r| == |tl|
  {
    seq(|tl|, i requires 0 <= i < |tl| => if tl[i].epoch == nr && tl[i].write then tl[i].(done := true) else tl[i])
  }

  /** The first pending write is in the first group, so earlier epochs are done. */
  lemma {:induction false} FirstGroup(tl: seq<Req>)
    requires LogOk(tl) && Groups(tl) != []
    ensures exists i :: 0 <= i < |tl| && tl[i].Pending() && tl[i].epoch == Groups(tl)[0].0
    ensures forall j :: 0 <= j < |tl| && tl[j].Pending() ==> Groups(tl)[0].0 <= tl[j].epoch
  {
    TailOk(tl);
    if !tl[0].Pending() {
      FirstGroup(tl[1..]);
      var i :| 0 <= i < |tl[1..]| && tl[1..][i].Pending() && tl[1..][i].epoch == Groups(tl)[0].0;
      assert tl[i + 1].Pending();
      forall j | 0 <= j < |tl| && tl[j].Pending() ensures Groups(tl)[0].0 <= tl[j].epoch {
        if j > 0 { assert tl[1..][j - 1] == tl[j]; }
      }
    }
  }

  lemma {:induction false} NoGroups(tl: seq<Req>, i: nat)
    requires Groups(tl) == [] && i < |tl|
    ensures !tl[i].Pending()
  {
    if i > 0 { NoGroups(tl[1..], i - 1); }
  }

  lemma {:induction false} AckedOk(tl: seq<Req>)
    requires LogOk(tl) && Groups(tl) != []
    ensures LogOk(Acked(tl, Groups(tl)[0].0))
  {
    FirstGroup(tl);
  }

  /** No pending write is in the epoch: nothing changes. */
  lemma {:induction false} NotAcked(tl: seq<Req>, nr: nat)
    requires forall i :: 0 <= i < |tl| && tl[i].Pending() ==> tl[i].epoch != nr
    ensures Groups(Acked(tl, nr)) == Groups(tl)
  {
    if tl != [] {
      assert Acked(tl, nr)[1..] == Acked(tl[1..], nr);
      NotAcked(tl[1..], nr);
    }
  }

  /** An ack for the oldest epoch takes that epoch off the front. */
  lemma {:induction false} AckedGroups(tl: seq<Req>)
    requires LogOk(tl) && Groups(tl) != []
    ensures Groups(Acked(tl, Groups(tl)[0].0)) == Groups(tl)[1..]
  {
    var t := tl[1..];
    var nr := Groups(tl)[0].0;
    TailOk(tl);
    assert Acked(tl, nr)[1..] == Acked(t, nr);
    if !tl[0].Pending() || (Groups(t) != [] && Groups(t)[0].0 == nr) {
      AckedGroups(t);
    } else {
      forall i | 0 <= i < |t| && t[i].Pending() ensures t[i].epoch != nr {
        if Groups(t) == [] { NoGroups(t, i); } else { FirstGroup(t); }
      }
      NotAcked(t, nr);
    }
  }

  // ----- tl_release -----

  /** The first write that waits for its ack, or the end. */
  function First(tl: seq<Req>, i: nat := 0): (k: nat)
    requires i <= |tl|
    ensures i <= k <= |tl| && (k < |tl| ==> tl[k].Pending()) && forall j :: i <= j < k ==> !tl[j].Pending()
    decreases |tl| - i
  {
    if i == |tl| || tl[i].Pending() then i else First(tl, i + 1)
  }

  /** The number of writes from i on, up to the end of epoch e. */
  function CountFrom(tl: seq<Req>, i: nat, e: nat): nat
    requires i <= |tl|
    decreases |tl| - i
  {
    if i == |tl| || tl[i].epoch != e then 0 else (if tl[i].write then 1 else 0) + CountFrom(tl, i + 1, e)
  }

  lemma {:induction false} CountShift(tl: seq<Req>, i: nat, e: nat)
    requires 0 < i <= |tl|
    ensures CountFrom(tl[1..], i - 1, e) == CountFrom(tl, i, e)
    decreases |tl| - i
  {
    if i < |tl| { CountShift(tl, i + 1, e); }
  }

  /** In the epoch of the first pending write, counting stops where the group does. */
  lemma {:induction false} CountIsGroup(tl: seq<Req>, e: nat)
    requires LogOk(tl) && (forall i :: 0 <= i < |tl| ==> e <= tl[i].epoch)
    requires forall i :: 0 <= i < |tl| && tl[i].write && tl[i].epoch == e ==> !tl[i].done
    ensures CountFrom(tl, 0, e) == if Groups(tl) != [] && Groups(tl)[0].0 == e then Groups(tl)[0].1 else 0
    decreases |tl|
  {
    if tl != [] {
      TailOk(tl);
      if tl[0].epoch == e {
        CountIsGroup(tl[1..], e);
        CountShift(tl, 1, e);
      } else {
        if Groups(tl) != [] { FirstGroup(tl); }
      }
    }
  }

  lemma {:induction false} FirstIsGroup(tl: seq<Req>)
    requires LogOk(tl)
    ensures var k := First(tl);
            if k == |tl| then Groups(tl) == []
            else Groups(tl) != [] && Groups(tl)[0] == (tl[k].epoch, CountFrom(tl, k, tl[k].epoch))
    decreases |tl|
  {
    if tl != [] {
      TailOk(tl);
      if tl[0].Pending() {
        CountIsGroup(tl, tl[0].epoch);
      } else {
        FirstIsGroup(tl[1..]);
        FirstShift(tl, 1);
        var k := First(tl);
        if k < |tl| { CountShift(tl, k, tl[k].epoch); }
      }
    }
  }

  lemma {:induction false} FirstShift(tl: seq<Req>, i: nat)
    requires 0 < i <= |tl|
    ensures First(tl[1..], i - 1) + 1 == First(tl, i)
    decreases |tl| - i
  {}

  /** tl_release: accepts an ack exactly when it names the oldest epoch that waits for one, with
      its exact number of writes, and then marks that epoch.  Otherwise the connection is torn down. */
  method TlRelease(tl: seq<Req>, nr: nat, size: nat) returns (ok: bool, tl': seq<Req>)
    requires LogOk(tl)
    ensures ok <==> Groups(tl) != [] && Groups(tl)[0] == (nr, size)
    ensures tl' == if ok then Acked(tl, nr) else tl
    ensures ok ==> Groups(tl') == Groups(tl)[1..] && LogOk(tl')
  {
    FirstIsGroup(tl);
    var found, epoch, count := Expect(tl);
    ok, tl' := found && epoch == nr && count == size, tl;
    if ok {
      AckedGroups(tl);
      AckedOk(tl);
      tl' := Mark(tl, nr);
    }
  }

  /** The first walk: the oldest write not acked yet, and the number of writes in its epoch. */
  method Expect(tl: seq<Req>) returns (found: bool, epoch: nat, count: nat)
    ensures var k := First(tl);
            && (found <==> k < |tl|)
            && (found ==> epoch == tl[k].epoch && count == CountFrom(tl, k, epoch))
  {
    found, epoch, count := false, 0, 0;
    var i := 0;
    while i < |tl|
      invariant i <= |tl|
      invariant !found ==> First(tl, i) == First(tl)
      invariant found ==>
        First(tl) < i && epoch == tl[First(tl)].epoch
        && count + CountFrom(tl, i, epoch) == CountFrom(tl, First(tl), epoch)
    {
      if !found {
        if tl[i].Pending() {
          found, epoch, count := true, tl[i].epoch, 1;
        }
      } else {
        if tl[i].epoch != epoch {
          return;
        }
        if tl[i].write {
          count := count + 1;
        }
      }
      i := i + 1;
    }
  }

  /** The second walk: from the first request of the epoch to the last. */
  method Mark(tl: seq<Req>, nr: nat) returns (r: seq<Req>)
    requires Sorted(tl)
    ensures r == Acked(tl, nr)
  {
    var i := 0;
    while i < |tl| && tl[i].epoch != nr
      invariant i <= |tl| && forall j :: 0 <= j < i ==> tl[j].epoch != nr
    {
      i := i + 1;
    }
    r := tl;
    ghost var from := i;
    while i < |tl| && tl[i].epoch == nr
      invariant from <= i <= |tl| == |r|
      invariant forall j :: from <= j < i ==> tl[j].epoch == nr
      invariant forall j :: 0 <= j < |tl| ==>
        r[j] == if j < i && tl[j].epoch == nr && tl[j].write then tl[j].(done := true) else tl[j]
    {
      if r[i].write {
        r := r[i := r[i].(done := true)];
      }
      i := i + 1;
    }
    forall j | i <= j < |tl| ensures tl[j].epoch != nr {
      if i < |tl| && j > i { assert tl[i].epoch <= tl[j].epoch; }
      if from < i { assert tl[from].epoch <= tl[j].epoch; }
    }
  }
}
