/** The `bfd_section_list_*` macros: pointer surgery on a BFD's doubly linked list of sections. */
module SectionList {
  import opened Optional
  import opened SectionChain
  import opened SectionRestore

  class Bfd {
    var sections: Section?
    var sectionLast: Section?

    /** The members, in order. */
    ghost var Contents: seq<Section>

    /** The sections used with this BFD, whether in its list or not. */
    ghost const Pool: set<Section>

    /** The value of the list together with the links of the sections outside it. */
    ghost function Model(): Chain
      reads this, Pool
    {
      Chain(Contents, map s | s in Pool && s !in Contents :: Links(s.next, s.prev))
    }

    /** Every pointer in the heap is the one that `c` calls for. */
    ghost predicate PointersAre(c: Chain)
      reads this, Pool
    {
      && sections == First(c) && sectionLast == Last(c)
      && forall s :: s in Pool ==> Links(s.next, s.prev) == LinksOf(c, s)
    }

    ghost predicate Valid()
      reads this, Pool
    {
      && WellFormed(Model())
      && (forall s :: s in Contents ==> s in Pool)
      && PointersAre(Model())
    }

    constructor (ghost pool: set<Section>)
      requires forall s :: s in pool ==> s.next == null && s.prev == null
      ensures Valid() && Pool == pool && Model() == Fresh(pool)
    {
      sections, sectionLast := null, null;
      Contents, Pool := [], pool;
    }

    /** bfd_section_removed_from_list */
    predicate RemovedFromList(s: Section)
      requires Valid() && s in Pool
      reads this, Pool
      ensures RemovedFromList(s) <==> s !in Contents
    {
      TestIsExact(Model(), s);
      if s.next == null then sectionLast != s else s.next.prev != s
    }

    /** Once every pointer is the one expected of a removal, the list is the one without `s`. */
    lemma Removal(c: Chain, s: Section)
      requires WellFormed(c) && SectionChain.Pool(c) == Pool && s in c.list
      requires Contents == Removed(c, s).list
      requires sections == if LinksOf(c, s).prev == null then LinksOf(c, s).next else First(c)
      requires sectionLast == if LinksOf(c, s).next == null then LinksOf(c, s).prev else Last(c)
      requires forall t :: t in Pool ==> Links(t.next, t.prev) == Unlinked(c, s, t)
      ensures Valid() && Model() == Removed(c, s)
    {
      var d := Removed(c, s);
      RemovedKeeps(c, s);
      EndsAfterRemove(c, s);
      forall t | t in Pool
        ensures Links(t.next, t.prev) == LinksOf(d, t)
      {
        RemovedIsUnlinked(c, s, t);
      }
      IsModel(d);
    }

    /** Once every pointer is the one expected of an insertion, the list is the one with `s`. */
    lemma Insertion(c: Chain, i: nat, s: Section)
      requires WellFormed(c) && SectionChain.Pool(c) == Pool && s in c.stale && i <= |c.list|
      requires Contents == InsertAt(c.list, i, s)
      requires sections == if i == 0 then s else First(c)
      requires sectionLast == if i == |c.list| then s else Last(c)
      requires forall t :: t in Pool ==> Links(t.next, t.prev) == LinkedIn(c, i, s, t)
      ensures Valid() && Model() == Inserted(c, i, s)
    {
      var d := Inserted(c, i, s);
      InsertedKeeps(c, i, s);
      EndsAfterInsert(c, i, s);
      forall t | t in Pool
        ensures Links(t.next, t.prev) == LinksOf(d, t)
      {
        InsertedIsLinkedIn(c, i, s, t);
      }
      hide Inserted, LinkedIn, First, Last, IndexOf, Around;
      IsModel(d);
    }

    lemma IsModel(d: Chain)
      requires WellFormed(d) && SectionChain.Pool(d) == Pool && d.list == Contents && PointersAre(d)
      ensures Valid() && Model() == d
    {
      hide First, Last, IndexOf, Around, Closed, NoStalePair, Distinct;
      assert Model().stale == d.stale;
    }

    // ----- the macros

    /** The sections that removing `s` touches differ. */
    lemma AroundMember(s: Section)
      requires Valid() && s in Contents
      ensures s in Pool && Links(s.next, s.prev) == LinksOf(Model(), s)
      ensures Step(Model(), Op.Remove(s)) == Some(Removed(Model(), s))
      ensures s.next != s && s.prev != s && (s.next != null ==> s.next != s.prev)
      ensures s.next != null ==> s.next in Pool
      ensures s.prev != null ==> s.prev in Pool
    {
      PositionsDiffer(Contents, IndexOf(Contents, s), IndexOf(Contents, s));
    }

    method Remove(s: Section)
      requires Valid() && s in Contents
      modifies this, s.prev, s.next
      ensures Valid()
      ensures Some(Model()) == old(Step(Model(), Op.Remove(s)))
    {
      ghost var c := Model();
      AroundMember(s);
      assert PointersAre(c);
      hide Valid, Model, WellFormed, Closed, NoStalePair, Distinct, Step, RemoveAt, IndexOf, At, LinksOf, First, Last;
      var next, prev := s.next, s.prev;
      if prev != null {
        prev.next := next;
      } else {
        sections := next;
      }
      if next != null {
        next.prev := prev;
      } else {
        sectionLast := prev;
      }
      Contents := Removed(c, s).list;
      Removal(c, s);
    }

    method Append(s: Section)
      requires Valid() && s in Pool && s !in Contents
      modifies this, s, sectionLast
      ensures Valid()
      ensures Some(Model()) == old(Step(Model(), Op.Append(s)))
    {
      ghost var c := Model();
      hide InsertAt, Distinct, NoStalePair, Closed;
      s.next := null;
      if sectionLast != null {
        s.prev := sectionLast;
        sectionLast.next := s;
      } else {
        s.prev := null;
        sections := s;
      }
      sectionLast := s;
      Contents := InsertAt(Contents, |Contents|, s);
      Insertion(c, |c.list|, s);
    }

    method Prepend(s: Section)
      requires Valid() && s in Pool && s !in Contents
      modifies this, s, sections
      ensures Valid()
      ensures Some(Model()) == old(Step(Model(), Op.Prepend(s)))
    {
      ghost var c := Model();
      hide InsertAt, Distinct, NoStalePair, Closed;
      s.prev := null;
      if sections != null {
        s.next := sections;
        sections.prev := s;
      } else {
        s.next := null;
        sectionLast := s;
      }
      sections := s;
      Contents := InsertAt(Contents, 0, s);
      Insertion(c, 0, s);
    }

    /** Where an insertion behind `a` goes, and that the sections it touches differ. */
    lemma BehindAnchor(a: Section, s: Section)
      requires Valid() && a in Contents && s in Pool && s !in Contents
      ensures var i := IndexOf(Contents, a) + 1;
              && a == At(Contents, i - 1) && a.next == At(Contents, i)
              && (a.next == null <==> i == |Contents|)
              && Step(Model(), Op.InsertAfter(a, s)) == Some(Inserted(Model(), i, s))
      ensures s != a && a.next != a && a.next != s
      ensures a.next != null ==> a.next in Pool
    {
      PositionsDiffer(Contents, IndexOf(Contents, a), IndexOf(Contents, a));
    }

    /** Where an insertion before `b` goes, and that the sections it touches differ. */
    lemma BeforeAnchor(b: Section, s: Section)
      requires Valid() && b in Contents && s in Pool && s !in Contents
      ensures var i: int := IndexOf(Contents, b);
              && b == At(Contents, i) && b.prev == At(Contents, i - 1)
              && (b.prev == null <==> i == 0)
              && Step(Model(), Op.InsertBefore(b, s)) == Some(Inserted(Model(), i, s))
      ensures s != b && b.prev != b && b.prev != s
      ensures b.prev != null ==> b.prev in Pool
    {
      PositionsDiffer(Contents, IndexOf(Contents, b), IndexOf(Contents, b));
    }

    method InsertAfter(a: Section, s: Section)
      requires Valid() && a in Contents && s in Pool && s !in Contents
      modifies this, s, a, a.next
      ensures Valid()
      ensures Some(Model()) == old(Step(Model(), Op.InsertAfter(a, s)))
    {
      ghost var c, i := Model(), IndexOf(Contents, a) + 1;
      BehindAnchor(a, s);
      assert PointersAre(c);
      hide Valid, Model, WellFormed, Closed, NoStalePair, Distinct, Step, InsertAt, IndexOf, At, LinksOf, First, Last;
      var next := a.next;
      s.next := next;
      s.prev := a;
      a.next := s;
      if next != null {
        next.prev := s;
      } else {
        sectionLast := s;
      }
      Contents := InsertAt(Contents, i, s);
      Insertion(c, i, s);
    }

    method InsertBefore(b: Section, s: Section)
      requires Valid() && b in Contents && s in Pool && s !in Contents
      modifies this, s, b, b.prev
      ensures Valid()
      ensures Some(Model()) == old(Step(Model(), Op.InsertBefore(b, s)))
    {
      ghost var c, i := Model(), IndexOf(Contents, b);
      BeforeAnchor(b, s);
      assert PointersAre(c);
      hide Valid, Model, WellFormed, Closed, NoStalePair, Distinct, Step, InsertAt, IndexOf, At, LinksOf, First, Last;
      var prev := b.prev;
      s.prev := prev;
      s.next := b;
      b.prev := s;
      if prev != null {
        prev.next := s;
      } else {
        sections := s;
      }
      Contents := InsertAt(Contents, i, s);
      Insertion(c, i, s);
    }

    /** One use of a macro, where the macro allows it. */
    method Use(op: Op)
      requires Valid() && Step(Model(), op).Some?
      modifies this, Pool
      ensures Valid()
      ensures Some(Model()) == old(Step(Model(), op))
    {
      match op
      case Remove(s) => Remove(s);
      case Append(s) => Append(s);
      case Prepend(s) => Prepend(s);
      case InsertAfter(a, s) => InsertAfter(a, s);
      case InsertBefore(b, s) => InsertBefore(b, s);
    }

    /** Any client: a run of macro uses, each where the macro allows it. */
    method Perform(ops: seq<Op>)
      requires Valid() && Run(Model(), ops).Some?
      modifies this, Pool
      ensures Valid()
      ensures Some(Model()) == old(Run(Model(), ops))
    {
      hide Valid, Model, Step;
      ghost var start := Model();
      for n := 0 to |ops|
        invariant Valid()
        invariant Run(Model(), ops[n..]) == Run(start, ops)
      {
        assert ops[n..][0] == ops[n] && ops[n..][1..] == ops[n + 1..];
        Use(ops[n]);
      }
    }

    /** Takes sections out, the first one first. */
    method RemoveEach(xs: seq<Section>)
      requires Valid() && RemoveAll(Model(), xs).Some?
      modifies this, Pool
      ensures Valid()
      ensures Some(Model()) == old(RemoveAll(Model(), xs))
    {
      hide Valid, Model;
      ghost var start := Model();
      for n := 0 to |xs|
        invariant Valid()
        invariant RemoveAll(Model(), xs[n..]) == RemoveAll(start, xs)
      {
        assert xs[n..][0] == xs[n] && xs[n..][1..] == xs[n + 1..];
        Use(Op.Remove(xs[n]));
      }
    }

    /** Puts a section back behind the one its stale `prev` names, or first if that is NULL. */
    method PutBack(s: Section)
      requires Valid() && Restore(Model(), s).Some?
      modifies this, Pool
      ensures Valid()
      ensures Some(Model()) == old(Restore(Model(), s))
    {
      if s.prev == null {
        Prepend(s);
      } else {
        InsertAfter(s.prev, s);
      }
    }

    /** Puts sections back, the last one first. */
    method PutBackLastFirst(xs: seq<Section>)
      requires Valid() && RestoreLastFirst(Model(), xs).Some?
      modifies this, Pool
      ensures Valid()
      ensures Some(Model()) == old(RestoreLastFirst(Model(), xs))
      decreases xs
    {
      hide Valid, Model, Restore;
      if xs != [] {
        PutBackLastFirst(xs[1..]);
        PutBack(xs[0]);
      }
    }

    /** A client that takes sections out and puts them back. Nothing shows that it was ever there. */
    method RemoveAndRestore(xs: seq<Section>)
      requires Valid() && RemoveAll(Model(), xs).Some?
      modifies this, Pool
      ensures Valid() && Contents == old(Contents)
      ensures sections == old(sections) && sectionLast == old(sectionLast)
      ensures forall t :: t in Pool ==> t.next == old(t.next) && t.prev == old(t.prev)
    {
      ghost var c := Model();
      RestoreLastFirstUndoesRemoveAll(c, xs);
      RemoveEach(xs);
      PutBackLastFirst(xs);
      assert Model() == c;
    }

    // ----- the list as a reader finds it

    /** Links are mutually inverse along the list and NULL at its ends. */
    lemma Shape()
      requires Valid()
      ensures Distinct(Contents)
      ensures Contents == [] <==> sections == null
      ensures Contents == [] <==> sectionLast == null
      ensures Contents != [] ==> sections == Contents[0] && sectionLast == Contents[|Contents| - 1]
      ensures Contents != [] ==> sections.prev == null && sectionLast.next == null
      ensures forall i {:trigger Contents[i].next} :: 0 <= i < |Contents| - 1 ==> Contents[i].next == Contents[i + 1]
      ensures forall i {:trigger Contents[i].prev} :: 0 < i < |Contents| ==> Contents[i].prev == Contents[i - 1]
    {
    }

    /** The sections met on at most `steps` steps along `next`. */
    ghost function WalkNext(p: Section?, steps: nat): seq<Section>
      requires Valid() && (p == null || p in Pool)
      reads this, Pool
    {
      if p == null || steps == 0 then []
      else
        NextInPool(Model(), p);
        [p] + WalkNext(p.next, steps - 1)
    }

    /** The sections met on at most `steps` steps along `prev`. */
    ghost function WalkPrev(p: Section?, steps: nat): seq<Section>
      requires Valid() && (p == null || p in Pool)
      reads this, Pool
    {
      if p == null || steps == 0 then []
      else
        NextInPool(Model(), p);
        [p] + WalkPrev(p.prev, steps - 1)
    }

    lemma LinksOfMember(i: nat)
      requires Valid() && i < |Contents|
      ensures Contents[i] in Pool
      ensures Contents[i].next == At(Contents, i + 1) && Contents[i].prev == At(Contents, i - 1)
    {
      IndexIs(Contents, i);
    }

    lemma {:induction false} WalkNextFrom(i: nat, steps: nat)
      requires Valid() && i <= |Contents| <= i + steps
      ensures At(Contents, i) == null || At(Contents, i) in Pool
      ensures WalkNext(At(Contents, i), steps) == Contents[i..]
      decreases steps
    {
      hide Valid;
      if i == |Contents| {
      } else {
        LinksOfMember(i);
        WalkNextFrom(i + 1, steps - 1);
      }
    }

    lemma {:induction false} WalkPrevFrom(n: nat, steps: nat)
      requires Valid() && n <= |Contents| && n <= steps
      ensures At(Contents, n - 1) == null || At(Contents, n - 1) in Pool
      ensures WalkPrev(At(Contents, n - 1), steps) == Reverse(Contents[..n])
      decreases steps
    {
      hide Valid;
      if n == 0 {
      } else {
        LinksOfMember(n - 1);
        WalkPrevFrom(n - 1, steps - 1);
        assert Contents[..n][..n - 1] == Contents[..n - 1];
      }
    }

    /** However long one walks, both walks end at NULL after exactly the members, in opposite orders. */
    lemma WalksVisitTheMembers(steps: nat)
      requires Valid() && |Contents| <= steps
      ensures sections == null || sections in Pool
      ensures sectionLast == null || sectionLast in Pool
      ensures WalkNext(sections, steps) == Contents
      ensures WalkPrev(sectionLast, steps) == Reverse(Contents)
    {
      assert Contents[0..] == Contents && Contents[..|Contents|] == Contents;
      assert sections == At(Contents, 0) && sectionLast == At(Contents, |Contents| - 1);
      hide Valid, WalkNext, WalkPrev, Reverse, At;
      WalkNextFrom(0, steps);
      WalkPrevFrom(|Contents|, steps);
    }
  }
}
