/** The loops of _al_write_transaction: from the cache to the block that goes to disk. */
module AlTransaction {
  import opened Lru
  import opened LruObject
  import opened AlRing
  import opened ActivityLog

  /** The pages that the first k changes mark for writing. */
  ghost function PagesUpTo(c: Cache, k: nat): set<nat>
    requires k <= |c.changing| && forall x :: x in c.changing ==> x < |c.elems|
  {
    set i | 0 <= i < k && c.changing[i] in c.changing && c.elems[c.changing[i]].number != FREE ::
      ExtentPage(c.elems[c.changing[i]].number)
  }

  lemma {:induction false} PagesAll(c: Cache)
    requires forall x :: x in c.changing ==> x < |c.elems|
    ensures PagesUpTo(c, |c.changing|) == EvictedPages(c)
  {}

  /** The walk over to_be_changed.  It never meets more changes than a block can hold, so the
      BUG_ON behind it cannot fire. */
  method CopyChanges(lc: LruCache) returns (updates: seq<(nat, nat)>, pages: set<nat>, tooMany: bool)
    requires lc.Valid() && lc.maxPending == UPDATES
    ensures !tooMany && updates == Changes(lc.Abs(), lc.changing) && pages == EvictedPages(lc.Abs())
  {
    ghost var c := lc.Abs();
    updates, pages, tooMany := [], {}, false;
    var list := lc.changing;
    var i := 0;
    while i < |list|
      invariant 0 <= i <= |list| && lc.Abs() == c && list == c.changing
      invariant |updates| == i && forall k :: 0 <= k < i ==> updates[k] == Changes(c, c.changing)[k]
      invariant pages == PagesUpTo(c, i)
    {
      if i == UPDATES {
        tooMany := true;
        break;
      }
      assert list[i] in c.changing;
      var e := lc.elems[list[i]];
      updates := updates + [(list[i], e.newNumber)];
      if e.number != FREE {
        pages := pages + {ExtentPage(e.number)};
      }
      i := i + 1;
    }
    PagesAll(c);
  }

  /** The rotating window of labels. */
  method CopyContext(lc: LruCache, cycle: nat) returns (context: seq<nat>)
    requires cycle <= |lc.elems|
    ensures context == Numbers(lc.Abs())[cycle..(if cycle + CONTEXT < |lc.elems| then cycle + CONTEXT else |lc.elems|)]
  {
    var mx := if CONTEXT < |lc.elems| - cycle then CONTEXT else |lc.elems| - cycle;
    context := [];
    for i := 0 to mx
      invariant |context| == i && forall k :: 0 <= k < i ==> context[k] == lc.elems[cycle + k].number
    {
      context := context + [lc.elems[cycle + i].number];
    }
  }

  /** The whole block, the bitmap pages to write before it, and the next start of the window. */
  method Assemble(conf: Conf, lc: LruCache, count: nat, cycle: nat) returns (b: Block, pages: set<nat>, cycle': nat)
    requires lc.Valid() && lc.maxPending == UPDATES && |lc.elems| == conf.slots && cycle <= conf.slots
    ensures b == Transaction(conf, lc.Abs(), count, cycle) && pages == EvictedPages(lc.Abs())
      && cycle' == NextCycle(conf, cycle)
  {
    var updates, p, tooMany := CopyChanges(lc);
    var context := CopyContext(lc, cycle);
    b, pages := Block(count % U32, updates, cycle, context), p;
    cycle' := cycle + CONTEXT;
    if cycle' >= conf.slots {
      cycle' := 0;
    }
  }
}
