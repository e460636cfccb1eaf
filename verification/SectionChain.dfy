/** BFD sections, and what a BFD's section list amounts to as a value.

    The list is intrusive: the links live in the sections, and removing a section leaves its own
    links as they were. A `Chain` therefore holds the members in order and, for every section that
    is not a member, the links it still carries. Together they determine every pointer in the heap.
*/
module SectionChain {
  import opened Optional

  /** The two link fields of `asection`. */
  class Section {
    var next: Section?
    var prev: Section?

    constructor ()
      ensures next == null && prev == null
    {
      next, prev := null, null;
    }
  }

  datatype Links = Links(next: Section?, prev: Section?)

  datatype Chain = Chain(list: seq<Section>, stale: map<Section, Links>)

  /** One use of one of the list macros. */
  datatype Op =
    | Remove(s: Section)
    | Append(s: Section)
    | Prepend(s: Section)
    | InsertAfter(a: Section, s: Section)
    | InsertBefore(b: Section, s: Section)

  // ----- positions

  predicate Distinct(list: seq<Section>) {
    forall i, j :: 0 <= i < j < |list| ==> list[i] != list[j]
  }

  function At(list: seq<Section>, i: int): Section? {
    if 0 <= i < |list| then list[i] else null
  }

  /** The links of the section at position i. */
  function Around(list: seq<Section>, i: int): Links {
    Links(At(list, i + 1), At(list, i - 1))
  }

  function IndexOf(list: seq<Section>, s: Section): (i: nat)
    requires s in list
    ensures i < |list| && list[i] == s
  {
    if list[0] == s then 0 else 1 + IndexOf(list[1..], s)
  }

  lemma IndexIs(list: seq<Section>, i: nat)
    requires Distinct(list) && i < |list|
    ensures IndexOf(list, list[i]) == i
  {
  }

  function RemoveAt<T>(list: seq<T>, i: nat): seq<T>
    requires i < |list|
  {
    list[..i] + list[i + 1..]
  }

  function InsertAt<T>(list: seq<T>, i: nat, s: T): seq<T>
    requires i <= |list|
  {
    list[..i] + [s] + list[i..]
  }

  function Reverse<T>(list: seq<T>): seq<T> {
    if list == [] then [] else [list[|list| - 1]] + Reverse(list[..|list| - 1])
  }

  // ----- the pointers a chain stands for

  function First(c: Chain): Section? {
    At(c.list, 0)
  }

  function Last(c: Chain): Section? {
    At(c.list, |c.list| - 1)
  }

  function Pool(c: Chain): set<Section> {
    (set s | s in c.list) + c.stale.Keys
  }

  /** A member points at its neighbours; any other section at whatever it pointed at last. */
  function LinksOf(c: Chain, s: Section): Links {
    if s in c.list then Around(c.list, IndexOf(c.list, s))
    else if s in c.stale then c.stale[s]
    else Links(null, null)
  }

  ghost predicate Closed(c: Chain) {
    forall s :: s in c.stale ==>
      && (c.stale[s].next == null || c.stale[s].next in Pool(c))
      && (c.stale[s].prev == null || c.stale[s].prev in Pool(c))
  }

  /** The constant-time membership test, on the pointers alone. */
  predicate RemovedFromList(c: Chain, s: Section)
    requires s in Pool(c) && Closed(c)
  {
    var n := LinksOf(c, s).next;
    if n == null then Last(c) != s else PrevOfNext(c, s) != s
  }

  function PrevOfNext(c: Chain, s: Section): Section?
    requires s in Pool(c) && Closed(c)
    requires LinksOf(c, s).next != null
  {
    NextInPool(c, s);
    LinksOf(c, LinksOf(c, s).next).prev
  }

  lemma NextInPool(c: Chain, s: Section)
    requires s in Pool(c) && Closed(c)
    ensures LinksOf(c, s).next == null || LinksOf(c, s).next in Pool(c)
    ensures LinksOf(c, s).prev == null || LinksOf(c, s).prev in Pool(c)
  {
  }

  /** No section outside the list points at one that points back at it. This is what keeps the
      membership test exact, and it survives every operation. */
  ghost predicate NoStalePair(c: Chain)
    requires Closed(c)
  {
    forall s :: s in c.stale && s !in c.list && c.stale[s].next != null ==> PrevOfNext(c, s) != s
  }

  ghost predicate WellFormed(c: Chain) {
    && Distinct(c.list)
    && (forall s :: s in c.stale ==> s !in c.list)
    && Closed(c)
    && NoStalePair(c)
  }

  // ----- the operations

  function Removed(c: Chain, s: Section): Chain
    requires s in c.list
  {
    Chain(RemoveAt(c.list, IndexOf(c.list, s)), c.stale[s := LinksOf(c, s)])
  }

  function Inserted(c: Chain, i: nat, s: Section): Chain
    requires i <= |c.list|
  {
    Chain(InsertAt(c.list, i, s), c.stale - {s})
  }

  /** `None` when the macro is used on a section that is not where the macro needs it. */
  function Step(c: Chain, op: Op): Option<Chain> {
    match op
    case Remove(s) =>
      if s in c.list then Some(Removed(c, s)) else None
    case Append(s) =>
      if s in c.stale then Some(Inserted(c, |c.list|, s)) else None
    case Prepend(s) =>
      if s in c.stale then Some(Inserted(c, 0, s)) else None
    case InsertAfter(a, s) =>
      if s in c.stale && a in c.list then Some(Inserted(c, IndexOf(c.list, a) + 1, s)) else None
    case InsertBefore(b, s) =>
      if s in c.stale && b in c.list then Some(Inserted(c, IndexOf(c.list, b), s)) else None
  }

  function Run(c: Chain, ops: seq<Op>): Option<Chain>
    decreases ops
  {
    if ops == [] then Some(c)
    else
      match Step(c, ops[0])
      case None => None
      case Some(d) => Run(d, ops[1..])
  }

  /** An empty BFD over sections whose links are NULL. */
  function Fresh(pool: set<Section>): Chain {
    Chain([], map s | s in pool :: Links(null, null))
  }

  // ----- every step keeps the invariant

  lemma RemoveAtMembers(list: seq<Section>, i: nat)
    requires Distinct(list) && i < |list|
    ensures Distinct(RemoveAt(list, i))
    ensures forall t :: t in RemoveAt(list, i) <==> t in list && t != list[i]
  {
  }

  lemma RemovedPool(c: Chain, s: Section)
    requires WellFormed(c) && s in c.list
    ensures Distinct(Removed(c, s).list)
    ensures forall t :: t in Removed(c, s).list <==> t in c.list && t != s
    ensures Removed(c, s).stale == c.stale[s := LinksOf(c, s)]
    ensures Pool(Removed(c, s)) == Pool(c)
    ensures Closed(Removed(c, s))
  {
    RemoveAtMembers(c.list, IndexOf(c.list, s));
  }

  lemma RemovedKeeps(c: Chain, s: Section)
    requires WellFormed(c) && s in c.list
    ensures WellFormed(Removed(c, s))
    ensures Pool(Removed(c, s)) == Pool(c)
  {
    RemovedPool(c, s);
    hide Removed, Distinct;
  }

  lemma InsertAtMembers(list: seq<Section>, i: nat, s: Section)
    requires Distinct(list) && s !in list && i <= |list|
    ensures Distinct(InsertAt(list, i, s))
    ensures forall t :: t in InsertAt(list, i, s) <==> t in list || t == s
  {
  }

  lemma InsertedKeeps(c: Chain, i: nat, s: Section)
    requires WellFormed(c) && s in c.stale && i <= |c.list|
    ensures WellFormed(Inserted(c, i, s))
    ensures Pool(Inserted(c, i, s)) == Pool(c)
  {
  }

  lemma StepKeeps(c: Chain, op: Op)
    requires WellFormed(c) && Step(c, op).Some?
    ensures WellFormed(Step(c, op).value)
    ensures Pool(Step(c, op).value) == Pool(c)
  {
    match op
    case Remove(s) => RemovedKeeps(c, s);
    case Append(s) => InsertedKeeps(c, |c.list|, s);
    case Prepend(s) => InsertedKeeps(c, 0, s);
    case InsertAfter(a, s) => InsertedKeeps(c, IndexOf(c.list, a) + 1, s);
    case InsertBefore(b, s) => InsertedKeeps(c, IndexOf(c.list, b), s);
  }

  lemma {:induction false} RunKeeps(c: Chain, ops: seq<Op>)
    requires WellFormed(c) && Run(c, ops).Some?
    ensures WellFormed(Run(c, ops).value)
    ensures Pool(Run(c, ops).value) == Pool(c)
    decreases ops
  {
    if ops == [] {
    } else {
      StepKeeps(c, ops[0]);
      RunKeeps(Step(c, ops[0]).value, ops[1..]);
    }
  }

  // ----- what a step and a run amount to

  /** Where each operation is allowed, and which list it leaves, by the positions of the sections named. */
  lemma StepMeaning(c: Chain, op: Op)
    requires WellFormed(c)
    ensures Step(c, op).Some? <==>
            match op
            case Remove(s) => s in c.list
            case Append(s) => s in c.stale
            case Prepend(s) => s in c.stale
            case InsertAfter(a, s) => a in c.list && s in c.stale
            case InsertBefore(b, s) => b in c.list && s in c.stale
    ensures Step(c, op).Some? ==>
            var after := Step(c, op).value.list;
            match op
            case Remove(s) => forall i {:trigger c.list[i]} :: 0 <= i < |c.list| && c.list[i] == s ==>
              after == c.list[..i] + c.list[i + 1..]
            case Append(s) => after == c.list + [s]
            case Prepend(s) => after == [s] + c.list
            case InsertAfter(a, s) => forall i {:trigger c.list[i]} :: 0 <= i < |c.list| && c.list[i] == a ==>
              after == c.list[..i + 1] + [s] + c.list[i + 1..]
            case InsertBefore(b, s) => forall i {:trigger c.list[i]} :: 0 <= i < |c.list| && c.list[i] == b ==>
              after == c.list[..i] + [s] + c.list[i..]
  {
    forall i | 0 <= i < |c.list|
      ensures IndexOf(c.list, c.list[i]) == i
    {
      IndexIs(c.list, i);
    }
    hide IndexOf, Closed, NoStalePair, LinksOf, Distinct;
    assert c.list[..|c.list|] == c.list;
  }

  lemma OneStep(c: Chain, op: Op)
    ensures Run(c, [op]) == Step(c, op)
  {
    assert [op][1..] == [];
    if Step(c, op).Some? {
      assert Run(Step(c, op).value, []) == Step(c, op);
    }
  }

  /** A run of two pieces of code is a run of the second from where the first one ends. */
  lemma {:induction false} RunAppend(c: Chain, ops: seq<Op>, more: seq<Op>)
    ensures Run(c, ops + more) == match Run(c, ops) case None => None case Some(d) => Run(d, more)
    decreases ops
  {
    hide Step;
    if ops == [] {
      assert ops + more == more;
    } else {
      assert (ops + more)[1..] == ops[1..] + more && (ops + more)[0] == ops[0];
      match Step(c, ops[0])
      case None =>
      case Some(d) => RunAppend(d, ops[1..], more);
    }
  }

  /** The chains that `ops` lead through from `c`, one for each step. */
  ghost predicate IsTrace(c: Chain, ops: seq<Op>, trace: seq<Chain>) {
    && |trace| == |ops| + 1 && trace[0] == c
    && forall n :: 0 <= n < |ops| ==> Step(trace[n], ops[n]) == Some(trace[n + 1])
  }

  /** A run takes every step: it leads from `c` to `d` exactly when some chains do, one for each step. */
  lemma {:induction false} RunIsTrace(c: Chain, ops: seq<Op>, d: Chain)
    ensures Run(c, ops) == Some(d) <==> exists trace :: IsTrace(c, ops, trace) && trace[|ops|] == d
    decreases ops
  {
    hide Step;
    if ops == [] {
      assert Run(c, ops) == Some(d) ==> IsTrace(c, ops, [c]) && [c][0] == d;
    } else {
      if Run(c, ops) == Some(d) {
        var e := Step(c, ops[0]).value;
        RunIsTrace(e, ops[1..], d);
        var rest :| IsTrace(e, ops[1..], rest) && rest[|ops| - 1] == d;
        TraceCons(c, ops, rest);
      }
      if trace :| IsTrace(c, ops, trace) && trace[|ops|] == d {
        TraceTail(c, ops, trace);
        RunIsTrace(trace[1], ops[1..], d);
        assert trace[1..][|ops| - 1] == d;
        assert Step(trace[0], ops[0]) == Some(trace[1]);
      }
    }
  }

  lemma TraceCons(c: Chain, ops: seq<Op>, rest: seq<Chain>)
    requires ops != [] && rest != [] && Step(c, ops[0]) == Some(rest[0]) && IsTrace(rest[0], ops[1..], rest)
    ensures IsTrace(c, ops, [c] + rest)
  {
    hide Step;
    var trace := [c] + rest;
    forall n | 0 <= n < |ops|
      ensures Step(trace[n], ops[n]) == Some(trace[n + 1])
    {
      if n > 0 {
        assert Step(rest[n - 1], ops[1..][n - 1]) == Some(rest[n]);
      }
    }
  }

  lemma TraceTail(c: Chain, ops: seq<Op>, trace: seq<Chain>)
    requires ops != [] && IsTrace(c, ops, trace)
    ensures IsTrace(trace[1], ops[1..], trace[1..])
  {
    hide Step;
    forall n | 0 <= n < |ops| - 1
      ensures Step(trace[1..][n], ops[1..][n]) == Some(trace[1..][n + 1])
    {
      assert Step(trace[n + 1], ops[n + 1]) == Some(trace[n + 2]);
    }
  }

  // ----- which links each operation changes

  lemma IndexAfterRemoveAt(list: seq<Section>, i: nat, j: nat)
    requires Distinct(list) && i < |list| && j < |list| && i != j
    ensures var rest := RemoveAt(list, i);
            list[j] in rest && IndexOf(rest, list[j]) == if j < i then j else j - 1
  {
  }

  lemma IndexAfterInsertAt(list: seq<Section>, i: nat, s: Section, j: nat)
    requires Distinct(list) && s !in list && i <= |list| && j < |list|
    ensures var more := InsertAt(list, i, s);
            list[j] in more && IndexOf(more, list[j]) == if j < i then j else j + 1
  {
  }

  /** The links after `s` is unlinked: one link is rerouted in each neighbour, and nothing else
      changes, not even the links of `s`. */
  function Unlinked(c: Chain, s: Section, t: Section): Links
    requires s in c.list
  {
    var l, was := LinksOf(c, s), LinksOf(c, t);
    Links(if t == l.prev then l.next else was.next, if t == l.next then l.prev else was.prev)
  }

  lemma MemberLinksAfterRemove(c: Chain, s: Section, j: nat)
    requires WellFormed(c) && s in c.list && j < |c.list| && c.list[j] != s
    ensures LinksOf(Removed(c, s), c.list[j]) == Unlinked(c, s, c.list[j])
  {
    var i := IndexOf(c.list, s);
    IndexIs(c.list, j);
    PositionsDiffer(c.list, i, j);
    IndexAfterRemoveAt(c.list, i, j);
    AroundAfterRemoveAt(c.list, i, j);
    hide RemoveAt, Distinct, IndexOf, NoStalePair, Closed;
  }

  lemma RemovedIsUnlinked(c: Chain, s: Section, t: Section)
    requires WellFormed(c) && s in c.list && t in Pool(c)
    ensures Pool(Removed(c, s)) == Pool(c)
    ensures LinksOf(Removed(c, s), t) == Unlinked(c, s, t)
  {
    RemovedPool(c, s);
    if t in c.list && t != s {
      MemberLinksAfterRemove(c, s, IndexOf(c.list, t));
    } else {
      var i := IndexOf(c.list, s);
      PositionsDiffer(c.list, i, i);
      hide RemoveAt, Distinct, IndexOf, NoStalePair, Closed;
    }
  }

  lemma AroundAfterRemoveAt(list: seq<Section>, i: nat, j: nat)
    requires i < |list| && j < |list| && i != j
    ensures Around(RemoveAt(list, i), if j < i then j else j - 1) ==
            Links(if j + 1 == i then At(list, i + 1) else At(list, j + 1),
                  if j - 1 == i then At(list, i - 1) else At(list, j - 1))
  {
  }

  /** The links after `s` is linked in at position i: one link is rerouted in each neighbour, and
      otherwise only those of `s` are set. */
  function LinkedIn(c: Chain, i: nat, s: Section, t: Section): Links
    requires i <= |c.list|
  {
    var before, after, was := At(c.list, i - 1), At(c.list, i), LinksOf(c, t);
    if t == s then Links(after, before)
    else Links(if t == before then s else was.next, if t == after then s else was.prev)
  }

  lemma InsertedLinks(c: Chain, i: nat, s: Section)
    requires WellFormed(c) && s in c.stale && i <= |c.list|
    ensures LinksOf(Inserted(c, i, s), s) == LinkedIn(c, i, s, s)
  {
    InsertAtMembers(c.list, i, s);
    AroundInserted(c.list, i, s);
    IndexIs(InsertAt(c.list, i, s), i);
    hide InsertAt, Distinct, IndexOf, WellFormed;
  }

  lemma MemberLinksAfterInsert(c: Chain, i: nat, s: Section, j: nat)
    requires WellFormed(c) && s in c.stale && i <= |c.list| && j < |c.list|
    ensures LinksOf(Inserted(c, i, s), c.list[j]) == LinkedIn(c, i, s, c.list[j])
  {
    IndexIs(c.list, j);
    PositionsDiffer(c.list, i, j);
    IndexAfterInsertAt(c.list, i, s, j);
    AroundAfterInsertAt(c.list, i, s, j);
    hide InsertAt, Distinct, IndexOf, NoStalePair, Closed;
  }

  lemma InsertedIsLinkedIn(c: Chain, i: nat, s: Section, t: Section)
    requires WellFormed(c) && s in c.stale && i <= |c.list| && t in Pool(c)
    ensures Pool(Inserted(c, i, s)) == Pool(c)
    ensures LinksOf(Inserted(c, i, s), t) == LinkedIn(c, i, s, t)
  {
    InsertedKeeps(c, i, s);
    if t == s {
      InsertedLinks(c, i, s);
    } else if t in c.list {
      MemberLinksAfterInsert(c, i, s, IndexOf(c.list, t));
    } else {
      InsertAtMembers(c.list, i, s);
      hide InsertAt, Distinct, IndexOf, NoStalePair, Closed;
    }
  }

  lemma AroundInserted(list: seq<Section>, i: nat, s: Section)
    requires i <= |list|
    ensures InsertAt(list, i, s)[i] == s
    ensures Around(InsertAt(list, i, s), i) == Links(At(list, i), At(list, i - 1))
  {
  }

  lemma AroundAfterInsertAt(list: seq<Section>, i: nat, s: Section, j: nat)
    requires i <= |list| && j < |list|
    ensures Around(InsertAt(list, i, s), if j < i then j else j + 1) ==
            Links(if j + 1 == i then s else At(list, j + 1), if j == i then s else At(list, j - 1))
  {
  }

  lemma EndsAfterInsertAt(list: seq<Section>, i: nat, s: Section)
    requires i <= |list|
    ensures var more := InsertAt(list, i, s);
            && At(more, 0) == (if i == 0 then s else At(list, 0))
            && At(more, |more| - 1) == if i == |list| then s else At(list, |list| - 1)
  {
  }

  lemma EndsAfterInsert(c: Chain, i: nat, s: Section)
    requires i <= |c.list|
    ensures First(Inserted(c, i, s)) == if i == 0 then s else First(c)
    ensures Last(Inserted(c, i, s)) == if i == |c.list| then s else Last(c)
  {
    EndsAfterInsertAt(c.list, i, s);
  }

  lemma EndsAfterRemoveAt(list: seq<Section>, i: nat)
    requires i < |list|
    ensures var rest := RemoveAt(list, i);
            && At(rest, 0) == (if i == 0 then At(list, 1) else At(list, 0))
            && At(rest, |rest| - 1) == At(list, if i == |list| - 1 then i - 1 else |list| - 1)
  {
  }

  lemma EndsAfterRemove(c: Chain, s: Section)
    requires s in c.list && Distinct(c.list)
    ensures First(Removed(c, s)) == if LinksOf(c, s).prev == null then LinksOf(c, s).next else First(c)
    ensures Last(Removed(c, s)) == if LinksOf(c, s).next == null then LinksOf(c, s).prev else Last(c)
  {
    EndsAfterRemoveAt(c.list, IndexOf(c.list, s));
  }

  /** Being somebody's neighbour is a matter of position. */
  lemma PositionsDiffer(list: seq<Section>, i: nat, j: nat)
    requires Distinct(list) && i <= |list| && j < |list|
    ensures list[j] == At(list, i) <==> j == i
    ensures list[j] == At(list, i - 1) <==> j == i - 1
    ensures list[j] == At(list, i + 1) <==> j == i + 1
  {
  }

  // ----- the membership test

  lemma TestIsExact(c: Chain, s: Section)
    requires WellFormed(c) && s in Pool(c)
    ensures RemovedFromList(c, s) <==> s !in c.list
  {
  }

  /** For every run of the list operations from an empty BFD over fresh sections, the test says
      "removed" of exactly the sections that are not in the list. */
  lemma TestIsExactInEveryRun(pool: set<Section>, ops: seq<Op>, s: Section)
    requires Run(Fresh(pool), ops).Some? && s in pool
    ensures WellFormed(Run(Fresh(pool), ops).value)
    ensures Pool(Run(Fresh(pool), ops).value) == pool
    ensures RemovedFromList(Run(Fresh(pool), ops).value, s) <==> s !in Run(Fresh(pool), ops).value.list
  {
    RunKeeps(Fresh(pool), ops);
    TestIsExact(Run(Fresh(pool), ops).value, s);
  }

  // ----- the operations in terms of each other

  lemma InsertBeforeIsInsertAfterPrevious(c: Chain, b: Section, s: Section)
    requires WellFormed(c) && b in c.list && LinksOf(c, b).prev != null
    ensures Step(c, InsertBefore(b, s)) == Step(c, InsertAfter(LinksOf(c, b).prev, s))
  {
  }

  lemma AppendIsInsertAfterLast(c: Chain, s: Section)
    requires WellFormed(c) && Last(c) != null
    ensures Step(c, Append(s)) == Step(c, InsertAfter(Last(c), s))
  {
  }

  lemma PrependIsInsertBeforeFirst(c: Chain, s: Section)
    requires WellFormed(c) && First(c) != null
    ensures Step(c, Prepend(s)) == Step(c, InsertBefore(First(c), s))
  {
  }

  lemma RemoveAtUndoesInsertAt<T>(list: seq<T>, i: nat, s: T)
    requires i <= |list|
    ensures InsertAt(list, i, s)[i] == s
    ensures RemoveAt(InsertAt(list, i, s), i) == list
  {
  }

  lemma RemoveUndoesInserted(c: Chain, i: nat, s: Section)
    requires WellFormed(c) && s in c.stale && i <= |c.list|
    ensures var d := Inserted(c, i, s);
            && s in d.list
            && Removed(d, s) == c.(stale := c.stale[s := LinksOf(d, s)])
  {
    var d := Inserted(c, i, s);
    InsertedKeeps(c, i, s);
    RemoveAtUndoesInsertAt(c.list, i, s);
    IndexIs(d.list, i);
  }

  /** Taking an inserted section out again leaves only its own links changed. */
  lemma RemoveUndoesInsert(c: Chain, op: Op)
    requires WellFormed(c) && !op.Remove? && Step(c, op).Some?
    ensures var d := Step(c, op).value;
            && op.s in d.list
            && Removed(d, op.s) == c.(stale := c.stale[op.s := LinksOf(d, op.s)])
  {
    match op
    case Append(s) => RemoveUndoesInserted(c, |c.list|, s);
    case Prepend(s) => RemoveUndoesInserted(c, 0, s);
    case InsertAfter(a, s) => RemoveUndoesInserted(c, IndexOf(c.list, a) + 1, s);
    case InsertBefore(b, s) => RemoveUndoesInserted(c, IndexOf(c.list, b), s);
  }
}
