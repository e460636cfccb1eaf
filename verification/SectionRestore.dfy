/** Removing sections and putting them back where their stale links say they were. */
module SectionRestore {
  import opened Optional
  import opened SectionChain

  /** Put a removed section back where its stale links say it was. */
  function RestoreOp(c: Chain, s: Section): Op
    requires s in Pool(c)
  {
    var p := LinksOf(c, s).prev;
    if p == null then Prepend(s) else InsertAfter(p, s)
  }

  function Restore(c: Chain, s: Section): Option<Chain> {
    if s in c.stale then Step(c, RestoreOp(c, s)) else None
  }

  function RemoveAll(c: Chain, xs: seq<Section>): Option<Chain>
    decreases xs
  {
    if xs == [] then Some(c)
    else if xs[0] in c.list then RemoveAll(Removed(c, xs[0]), xs[1..])
    else None
  }

  /** Restore the last section of `xs` first. */
  function RestoreLastFirst(c: Chain, xs: seq<Section>): Option<Chain>
    decreases xs
  {
    if xs == [] then Some(c)
    else
      match RestoreLastFirst(c, xs[1..])
      case None => None
      case Some(d) => Restore(d, xs[0])
  }

  lemma InsertAtUndoesRemoveAt<T>(list: seq<T>, i: nat)
    requires i < |list|
    ensures InsertAt(RemoveAt(list, i), i, list[i]) == list
  {
  }

  /** Removing leaves enough in the removed section to undo the removal exactly. */
  lemma RestoreUndoesRemove(c: Chain, s: Section)
    requires WellFormed(c) && s in c.list
    ensures Restore(Removed(c, s), s) == Some(c)
  {
    var i, d := IndexOf(c.list, s), Removed(c, s);
    RemovedPool(c, s);
    InsertAtUndoesRemoveAt(c.list, i);
    assert d.stale - {s} == c.stale;
    assert Inserted(d, i, s) == c;
    if i > 0 {
      assert d.list[i - 1] == c.list[i - 1];
      IndexIs(d.list, i - 1);
    }
  }

  /** Any sections, removed one after the other and restored in reverse order from their own stale
      links, give back the chain and with it every pointer. */
  lemma {:induction false} RestoreLastFirstUndoesRemoveAll(c: Chain, xs: seq<Section>)
    requires WellFormed(c) && RemoveAll(c, xs).Some?
    ensures RestoreLastFirst(RemoveAll(c, xs).value, xs) == Some(c)
    decreases xs
  {
    if xs == [] {
    } else {
      RemovedKeeps(c, xs[0]);
      RestoreLastFirstUndoesRemoveAll(Removed(c, xs[0]), xs[1..]);
      RestoreUndoesRemove(c, xs[0]);
    }
  }

  /** Restore the first section of `xs` first. */
  function RestoreInOrder(c: Chain, xs: seq<Section>): Option<Chain>
    decreases xs
  {
    if xs == [] then Some(c)
    else
      match Restore(c, xs[0])
      case None => None
      case Some(d) => RestoreInOrder(d, xs[1..])
  }

  lemma {:induction false} RestoreInOrderAppend(c: Chain, xs: seq<Section>, ys: seq<Section>)
    ensures RestoreInOrder(c, xs + ys) ==
            match RestoreInOrder(c, xs) case None => None case Some(d) => RestoreInOrder(d, ys)
    decreases xs
  {
    hide Restore;
    if xs == [] {
      assert xs + ys == ys;
    } else {
      assert (xs + ys)[1..] == xs[1..] + ys && (xs + ys)[0] == xs[0];
      match Restore(c, xs[0])
      case None =>
      case Some(d) => RestoreInOrderAppend(d, xs[1..], ys);
    }
  }

  lemma RestoreOnly(c: Chain, s: Section)
    ensures RestoreInOrder(c, [s]) == Restore(c, s)
  {
    assert [s][1..] == [];
    if Restore(c, s).Some? {
      assert RestoreInOrder(Restore(c, s).value, []) == Restore(c, s);
    }
  }

  lemma {:induction false} ReverseEndsWithFirst<T>(xs: seq<T>)
    requires xs != []
    ensures Reverse(xs) == Reverse(xs[1..]) + [xs[0]]
    decreases xs
  {
    if |xs| == 1 {
    } else {
      var front := xs[..|xs| - 1];
      ReverseEndsWithFirst(front);
      assert front[1..] == xs[1..][..|xs| - 2];
    }
  }

  /** Restoring the last one first is restoring in the reverse order. */
  lemma {:induction false} RestoreLastFirstIsReverse(c: Chain, xs: seq<Section>)
    ensures RestoreLastFirst(c, xs) == RestoreInOrder(c, Reverse(xs))
    decreases xs
  {
    if xs == [] {
    } else {
      RestoreLastFirstIsReverse(c, xs[1..]);
      ReverseEndsWithFirst(xs);
      RestoreInOrderAppend(c, Reverse(xs[1..]), [xs[0]]);
      hide Restore, Reverse, RestoreInOrder;
      match RestoreLastFirst(c, xs[1..])
      case None =>
      case Some(d) => RestoreOnly(d, xs[0]);
    }
  }

  // ----- what removing several sections does

  /** The macro uses that take out the sections one after the other. */
  function Removes(xs: seq<Section>): seq<Op> {
    seq(|xs|, i requires 0 <= i < |xs| => Remove(xs[i]))
  }

  lemma {:induction false} RemoveAllIsRun(c: Chain, xs: seq<Section>)
    ensures RemoveAll(c, xs) == Run(c, Removes(xs))
    decreases xs
  {
    hide Removed;
    if xs == [] {
    } else {
      assert Removes(xs)[0] == Remove(xs[0]) && Removes(xs)[1..] == Removes(xs[1..]);
      if xs[0] in c.list {
        RemoveAllIsRun(Removed(c, xs[0]), xs[1..]);
      }
    }
  }

  lemma {:induction false} RemoveAllKeeps(c: Chain, xs: seq<Section>)
    requires WellFormed(c) && RemoveAll(c, xs).Some?
    ensures WellFormed(RemoveAll(c, xs).value) && Pool(RemoveAll(c, xs).value) == Pool(c)
    decreases xs
  {
    if xs == [] {
    } else {
      RemovedKeeps(c, xs[0]);
      hide WellFormed, Removed;
      RemoveAllKeeps(Removed(c, xs[0]), xs[1..]);
    }
  }

  lemma {:induction false} RemoveAllMember(c: Chain, xs: seq<Section>, x: Section)
    requires WellFormed(c) && RemoveAll(c, xs).Some?
    ensures x in xs ==> x in c.list && x !in RemoveAll(c, xs).value.list
    ensures x in RemoveAll(c, xs).value.list ==> x in c.list
    decreases xs
  {
    if xs == [] {
    } else {
      RemovedKeeps(c, xs[0]);
      RemovedPool(c, xs[0]);
      assert xs == [xs[0]] + xs[1..];
      RemoveAllMember(Removed(c, xs[0]), xs[1..], x);
    }
  }

  lemma {:induction false} RemoveAllDistinct(c: Chain, xs: seq<Section>)
    requires WellFormed(c) && RemoveAll(c, xs).Some?
    ensures Distinct(xs)
    decreases xs
  {
    if xs == [] {
    } else {
      RemovedKeeps(c, xs[0]);
      RemovedPool(c, xs[0]);
      RemoveAllDistinct(Removed(c, xs[0]), xs[1..]);
      RemoveAllMember(Removed(c, xs[0]), xs[1..], xs[0]);
      hide WellFormed, Removed, Closed, Pool;
      assert xs == [xs[0]] + xs[1..];
    }
  }

  /** Removing others does not change the links of a removed section. */
  lemma {:induction false} StaleKept(c: Chain, xs: seq<Section>, s: Section)
    requires WellFormed(c) && RemoveAll(c, xs).Some? && s in c.stale
    ensures LinksOf(RemoveAll(c, xs).value, s) == c.stale[s]
    decreases xs
  {
    if xs == [] {
    } else {
      RemovedKeeps(c, xs[0]);
      StaleKept(Removed(c, xs[0]), xs[1..], s);
    }
  }
}
