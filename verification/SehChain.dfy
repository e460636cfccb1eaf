/** Runs of `__try1` and `__except1` with other code in between, and the chain of registrations
    that they thread through the stack.
*/
module SehChain {
  import opened Optional
  import opened SehMachine
  import opened Words

  datatype Registration = Registration(addr: Word, handler: Word)

  /** A step of the thread: one of the primitives, or an effect of the code between them. */
  datatype Op =
    | Try1(handler: Word)
    | Except1
    | Push(value: Word)
    | Release(words: nat)
    | Store(addr: Word, value: Word)
    | LoadEax(value: Word)

  /** The machine, and the registrations installed and not yet removed, newest first. */
  datatype Thread = Thread(m: Machine, live: seq<Registration>)

  /** Where the run starts: its part of the stack lies below `base`, and the registrations already
      there above it, linked up to the marker `end`. */
  datatype Origin = Origin(base: Word, chain: seq<Registration>, end: Word)

  // ----- what the code may do

  /** The lowest address above the stack of the code that runs now. */
  function Limit(live: seq<Registration>, base: Word): Word {
    if live == [] then base else live[0].addr
  }

  /** The word at `a` belongs to none of the registrations. */
  ghost predicate Spares(a: int, regs: seq<Registration>) {
    forall i :: 0 <= i < |regs| ==> a != regs[i].addr + PREV && a != regs[i].addr + HANDLER
  }

  /** There is room on the stack, the stack is popped only as far as the live registration, no
      registration is overwritten, and `__except1` finds the stack as `__try1` left it. */
  ghost predicate Legal(o: Origin, t: Thread, op: Op) {
    match op
    case Try1(_) => t.m.esp >= 8
    case Except1 => t.live != [] && t.m.esp == t.live[0].addr
    case Push(_) => t.m.esp >= 4
    case Release(n) => t.m.esp + 4 * n <= Limit(t.live, o.base)
    case Store(a, _) => a % 4 == 0 && Spares(a, t.live + o.chain)
    case LoadEax(_) => true
  }

  function Effect(t: Thread, op: Op): Thread {
    match op
    case Try1(h) => Thread(Installed(t.m, h), [Registration(Wrap(t.m.esp - 8), h)] + t.live)
    case Except1 => Thread(Uninstalled(t.m), if t.live == [] then [] else t.live[1..])
    case Push(v) => t.(m := Pushed(t.m, v))
    case Release(n) => t.(m := t.m.(esp := Wrap(t.m.esp + 4 * n)))
    case Store(a, v) => t.(m := t.m.(mem := t.m.mem[a := v]))
    case LoadEax(v) => t.(m := t.m.(eax := v))
  }

  /** `None` when the run does something it may not do. */
  ghost function Run(o: Origin, t: Thread, ops: seq<Op>): Option<Thread>
    decreases ops
  {
    if ops == [] then Some(t)
    else if Legal(o, t, ops[0]) then Run(o, Effect(t, ops[0]), ops[1..])
    else None
  }

  // ----- the chain

  /** Following PREV from `p` meets exactly `regs`, each with its handler, and then `end`. */
  ghost predicate Linked(mem: Memory, p: Word, regs: seq<Registration>, end: Word)
    decreases regs
  {
    if regs == [] then p == end
    else
      && p != end && p == regs[0].addr
      && Read(mem, Wrap(p + HANDLER)) == regs[0].handler
      && Linked(mem, Read(mem, Wrap(p + PREV)), regs[1..], end)
  }

  /** Registrations on the stack, newest first, each wholly below the next. */
  ghost predicate Stacked(live: seq<Registration>, base: Word)
    decreases live
  {
    live != [] ==>
      && live[0].addr % 4 == 0
      && live[0].addr + 8 <= Limit(live[1..], base)
      && Stacked(live[1..], base)
  }

  ghost predicate WellPlaced(o: Origin) {
    && o.base % 4 == 0
    && (o.end % 4 == 0 ==> o.base <= o.end)
    && forall i :: 0 <= i < |o.chain| ==>
         o.chain[i].addr % 4 == 0 && o.base <= o.chain[i].addr && o.chain[i].addr + 8 <= 0x1_0000_0000
  }

  /** The stack pointer is aligned, and the stack has not been popped beyond `live`. */
  ghost predicate StackAt(esp: Word, live: seq<Registration>, base: Word) {
    esp % 4 == 0 && esp <= Limit(live, base)
  }

  ghost predicate Inv(o: Origin, t: Thread) {
    && WellPlaced(o)
    && Stacked(t.live, o.base)
    && StackAt(t.m.esp, t.live, o.base)
    && Linked(t.m.mem, t.m.fs0, t.live + o.chain, o.end)
  }

  /** A thread before it uses the primitives. */
  ghost predicate Start(o: Origin, m: Machine) {
    && WellPlaced(o)
    && m.esp == o.base
    && Linked(m.mem, m.fs0, o.chain, o.end)
  }

  lemma StartIsInv(o: Origin, m: Machine)
    requires Start(o, m)
    ensures Inv(o, Thread(m, []))
  {
    assert [] + o.chain == o.chain;
  }

  lemma {:induction false} StackedAbove(live: seq<Registration>, base: Word)
    requires Stacked(live, base)
    ensures Limit(live, base) <= base
    ensures forall i :: 0 <= i < |live| ==> Limit(live, base) <= live[i].addr && live[i].addr + 8 <= base
    ensures forall i, j :: 0 <= i < j < |live| ==> live[i].addr + 8 <= live[j].addr
    decreases live
  {
    if live == [] {
    } else {
      StackedAbove(live[1..], base);
      assert live == [live[0]] + live[1..];
    }
  }

  /** Addresses below the live registration belong to no registration. */
  lemma BelowLimitSpares(o: Origin, live: seq<Registration>, a: int)
    requires WellPlaced(o) && Stacked(live, o.base) && a < Limit(live, o.base)
    ensures Spares(a, live + o.chain)
  {
    StackedAbove(live, o.base);
  }

  /** The chain is not disturbed by a write that spares it. */
  lemma {:induction false} LinkedFrame(mem: Memory, p: Word, regs: seq<Registration>, end: Word, a: Word, v: Word)
    requires Linked(mem, p, regs, end) && Spares(a, regs)
    requires forall i :: 0 <= i < |regs| ==> regs[i].addr + 8 <= 0x1_0000_0000
    ensures Linked(mem[a := v], p, regs, end)
    decreases regs
  {
    if regs == [] {
    } else {
      assert forall i :: 0 <= i < |regs[1..]| ==> regs[1..][i] == regs[i + 1];
      LinkedFrame(mem, Read(mem, p), regs[1..], end, a, v);
    }
  }

  lemma AllFit(o: Origin, live: seq<Registration>)
    requires WellPlaced(o) && Stacked(live, o.base)
    ensures forall i :: 0 <= i < |live + o.chain| ==> (live + o.chain)[i].addr + 8 <= 0x1_0000_0000
  {
    StackedAbove(live, o.base);
  }

  lemma WriteKeepsChain(o: Origin, t: Thread, a: Word, v: Word)
    requires Inv(o, t) && Spares(a, t.live + o.chain)
    ensures Linked(t.m.mem[a := v], t.m.fs0, t.live + o.chain, o.end)
  {
    AllFit(o, t.live);
    LinkedFrame(t.m.mem, t.m.fs0, t.live + o.chain, o.end, a, v);
  }

  /** A new registration below the others, with the link and the handler written, heads the chain. */
  lemma LinkedCons(mem: Memory, r: Word, handler: Word, fs0: Word, regs: seq<Registration>, end: Word)
    requires r + 8 <= 0x1_0000_0000 && r != end
    requires Linked(mem, fs0, regs, end) && Spares(r, regs) && Spares(r + 4, regs)
    requires forall i :: 0 <= i < |regs| ==> regs[i].addr + 8 <= 0x1_0000_0000
    ensures Linked(mem[r + 4 := handler][r := fs0], r, [Registration(r, handler)] + regs, end)
  {
    LinkedFrame(mem, fs0, regs, end, r + 4, handler);
    LinkedFrame(mem[r + 4 := handler], fs0, regs, end, r, fs0);
    assert ([Registration(r, handler)] + regs)[1..] == regs;
  }

  /** A frame pushed where the stack is stacks on top of the others. */
  lemma StackedCons(r: Word, handler: Word, esp: Word, live: seq<Registration>, base: Word)
    requires Stacked(live, base) && StackAt(esp, live, base) && r + 8 == esp
    ensures Stacked([Registration(r, handler)] + live, base)
    ensures StackAt(r, [Registration(r, handler)] + live, base)
  {
    assert ([Registration(r, handler)] + live)[1..] == live;
    hide Limit;
  }

  lemma BelowIsNoMarker(o: Origin, live: seq<Registration>, r: Word)
    requires WellPlaced(o) && Stacked(live, o.base) && StackAt(r, live, o.base) && r < Limit(live, o.base)
    ensures r != o.end
  {
    StackedAbove(live, o.base);
  }

  lemma InstallKeepsChain(o: Origin, t: Thread, handler: Word)
    requires Inv(o, t) && t.m.esp >= 8
    ensures var r := t.m.esp - 8;
            Linked(t.m.mem[r + 4 := handler][r := t.m.fs0], r, [Registration(r, handler)] + (t.live + o.chain), o.end)
  {
    var r := t.m.esp - 8;
    BelowIsNoMarker(o, t.live, r);
    BelowLimitSpares(o, t.live, r);
    BelowLimitSpares(o, t.live, r + 4);
    AllFit(o, t.live);
    hide Linked, Spares, Stacked, WellPlaced;
    LinkedCons(t.m.mem, r, handler, t.m.fs0, t.live + o.chain, o.end);
  }

  lemma EffectOfTry1(t: Thread, handler: Word)
    requires t.m.esp >= 8
    ensures var r: Word := t.m.esp - 8;
            Effect(t, Try1(handler)) ==
            Thread(Machine(r, t.m.eax, r, t.m.mem[r + 4 := handler][r := t.m.fs0]), [Registration(r, handler)] + t.live)
  {
    InstalledBelow(t.m, handler);
  }

  lemma AllParts(o: Origin, t: Thread)
    requires WellPlaced(o) && Stacked(t.live, o.base) && StackAt(t.m.esp, t.live, o.base)
    requires Linked(t.m.mem, t.m.fs0, t.live + o.chain, o.end)
    ensures Inv(o, t)
  {
  }

  lemma InstallKeeps(o: Origin, t: Thread, handler: Word)
    requires Inv(o, t) && Legal(o, t, Try1(handler))
    ensures Inv(o, Effect(t, Try1(handler)))
  {
    var r: Word := t.m.esp - 8;
    var live := [Registration(r, handler)] + t.live;
    assert WellPlaced(o) && Stacked(t.live, o.base) && StackAt(t.m.esp, t.live, o.base);
    hide *;
    EffectOfTry1(t, handler);
    InstallKeepsChain(o, t, handler);
    StackedCons(r, handler, t.m.esp, t.live, o.base);
    assert live + o.chain == [Registration(r, handler)] + (t.live + o.chain);
    AllParts(o, Effect(t, Try1(handler)));
  }

  /** Dropping the frame that the stack pointer is at leaves the stack at or below the next one. */
  lemma StackedTail(live: seq<Registration>, base: Word)
    requires Stacked(live, base) && live != []
    ensures live[0].addr + 8 < 0x1_0000_0000
    ensures Stacked(live[1..], base) && StackAt(live[0].addr + 8, live[1..], base)
  {
    StackedAbove(live, base);
  }

  lemma LinkedTail(mem: Memory, p: Word, live: seq<Registration>, chain: seq<Registration>, end: Word)
    requires Linked(mem, p, live + chain, end) && live != []
    ensures p == live[0].addr
    ensures Linked(mem, Read(mem, p), live[1..] + chain, end)
  {
    assert (live + chain)[1..] == live[1..] + chain;
  }

  lemma UninstallKeeps(o: Origin, t: Thread)
    requires Inv(o, t) && Legal(o, t, Except1)
    ensures Inv(o, Effect(t, Except1))
    ensures Wrap(t.m.esp + 8) == t.m.esp + 8
  {
    StackedTail(t.live, o.base);
    LinkedTail(t.m.mem, t.m.fs0, t.live, o.chain, o.end);
    hide Linked, Stacked, StackAt, WellPlaced;
  }

  lemma PushKeeps(o: Origin, t: Thread, v: Word)
    requires Inv(o, t) && Legal(o, t, Push(v))
    ensures Inv(o, Effect(t, Push(v)))
  {
    var r: Word := t.m.esp - 4;
    assert StackAt(r, t.live, o.base);
    PushedBelow(t.m, v);
    BelowLimitSpares(o, t.live, r);
    WriteKeepsChain(o, t, r, v);
    hide Linked, Spares, Stacked, StackAt, WellPlaced, Pushed;
  }

  lemma ReleaseKeeps(o: Origin, t: Thread, n: nat)
    requires Inv(o, t) && Legal(o, t, Release(n))
    ensures Inv(o, Effect(t, Release(n)))
  {
    hide Linked, Spares, Stacked, WellPlaced;
  }

  lemma StoreKeeps(o: Origin, t: Thread, a: Word, v: Word)
    requires Inv(o, t) && Legal(o, t, Store(a, v))
    ensures Inv(o, Effect(t, Store(a, v)))
  {
    WriteKeepsChain(o, t, a, v);
    hide Linked, Spares, Stacked, StackAt, WellPlaced;
  }

  lemma StepKeeps(o: Origin, t: Thread, op: Op)
    requires Inv(o, t) && Legal(o, t, op)
    ensures Inv(o, Effect(t, op))
  {
    hide Linked, Spares, Stacked, StackAt, WellPlaced;
    match op
    case Try1(h) => InstallKeeps(o, t, h);
    case Except1 => UninstallKeeps(o, t);
    case Push(v) => PushKeeps(o, t, v);
    case Release(n) => ReleaseKeeps(o, t, n);
    case Store(a, v) => StoreKeeps(o, t, a, v);
    case LoadEax(v) =>
  }

  lemma {:induction false} RunKeeps(o: Origin, t: Thread, ops: seq<Op>)
    requires Inv(o, t) && Run(o, t, ops).Some?
    ensures Inv(o, Run(o, t, ops).value)
    decreases ops
  {
    if ops == [] {
    } else {
      StepKeeps(o, t, ops[0]);
      RunKeeps(o, Effect(t, ops[0]), ops[1..]);
    }
  }

  // ----- bracketing

  /** How many installed handlers are left after the steps, from `d` on; `None` if the steps remove
      more than that. */
  function DepthAfter(d: nat, ops: seq<Op>): Option<nat>
    decreases ops
  {
    if ops == [] then Some(d)
    else
      match ops[0]
      case Try1(_) => DepthAfter(d + 1, ops[1..])
      case Except1 => if d == 0 then None else DepthAfter(d - 1, ops[1..])
      case _ => DepthAfter(d, ops[1..])
  }

  /** Every `__except1` has its `__try1` before it, and every `__try1` its `__except1` after it. */
  predicate Bracketed(ops: seq<Op>) {
    DepthAfter(0, ops) == Some(0)
  }

  /** The addresses the code between the primitives stores to, pushes not included. */
  function Stored(ops: seq<Op>): set<Word>
    decreases ops
  {
    if ops == [] then {} else (if ops[0].Store? then {ops[0].addr} else {}) + Stored(ops[1..])
  }

  lemma {:induction false} StoredMeaning(ops: seq<Op>, a: Word)
    ensures a in Stored(ops) <==> exists op :: op in ops && op.Store? && op.addr == a
    decreases ops
  {
    if ops == [] {
    } else {
      StoredMeaning(ops[1..], a);
      assert ops == [ops[0]] + ops[1..];
    }
  }

  lemma LimitOfOuter(live: seq<Registration>, base: Word, d: nat)
    requires Stacked(live, base) && d <= |live|
    ensures Limit(live, base) <= Limit(live[d..], base)
  {
    StackedAbove(live, base);
  }

  /** A step neither pops the registrations below depth `d` nor writes at or above them, unless it
      is a store there. */
  lemma StepKeepsOuter(o: Origin, t: Thread, op: Op, d: nat, a: Word)
    requires Inv(o, t) && Legal(o, t, op) && d <= |t.live|
    requires Limit(t.live[d..], o.base) <= a && !(op.Store? && op.addr == a)
    ensures Read(Effect(t, op).m.mem, a) == Read(t.m.mem, a)
  {
    LimitOfOuter(t.live, o.base, d);
    hide Linked, Spares, Stacked, WellPlaced, Installed, Pushed;
    match op
    case Try1(h) => InstalledBelow(t.m, h);
    case Push(v) => PushedBelow(t.m, v);
    case _ =>
  }

  /** Code that removes no more handlers than it installs keeps the ones installed before. */
  lemma {:induction false} RunKeepsOuter(o: Origin, t: Thread, ops: seq<Op>, d: nat, a: Word)
    requires Inv(o, t) && Run(o, t, ops).Some?
    requires d <= |t.live| && DepthAfter(d, ops).Some?
    ensures var u, e := Run(o, t, ops).value, DepthAfter(d, ops).value;
            && e <= |u.live| && u.live[e..] == t.live[d..]
            && (Limit(t.live[d..], o.base) <= a && a !in Stored(ops) ==> Read(u.m.mem, a) == Read(t.m.mem, a))
    decreases ops
  {
    if ops == [] {
    } else {
      var op := ops[0];
      var next := Effect(t, op);
      var n := if op.Try1? then d + 1 else if op.Except1? then d - 1 else d;
      StepKeeps(o, t, op);
      assert next.live[n..] == t.live[d..];
      if Limit(t.live[d..], o.base) <= a && a !in Stored(ops) {
        StepKeepsOuter(o, t, op, d, a);
      }
      hide Inv, Legal, Effect;
      RunKeepsOuter(o, next, ops[1..], n, a);
    }
  }

  lemma {:induction false} RunAppend(o: Origin, t: Thread, ops: seq<Op>, more: seq<Op>)
    ensures Run(o, t, ops + more) ==
            match Run(o, t, ops) case None => None case Some(u) => Run(o, u, more)
    decreases ops
  {
    hide Legal, Effect;
    if ops == [] {
      assert ops + more == more;
    } else {
      assert (ops + more)[1..] == ops[1..] + more;
      RunAppend(o, Effect(t, ops[0]), ops[1..], more);
    }
  }

  lemma HeadOfChain(o: Origin, t: Thread)
    requires Inv(o, t)
    ensures t.m.fs0 == if t.live + o.chain == [] then o.end else (t.live + o.chain)[0].addr
  {
  }

  /** A bracketed piece of code, taken apart. */
  lemma BracketParts(o: Origin, t: Thread, handler: Word, body: seq<Op>)
    requires Run(o, t, [Try1(handler)] + body + [Except1]).Some?
    ensures Legal(o, t, Try1(handler))
    ensures Run(o, Effect(t, Try1(handler)), body).Some?
    ensures var t2 := Run(o, Effect(t, Try1(handler)), body).value;
            && Legal(o, t2, Except1)
            && Run(o, t, [Try1(handler)] + body + [Except1]) == Some(Effect(t2, Except1))
  {
    var t1 := Effect(t, Try1(handler));
    RunAppend(o, t, [Try1(handler)] + body, [Except1]);
    RunAppend(o, t, [Try1(handler)], body);
    hide Legal, Effect;
    OneStep(o, t, Try1(handler));
    var t2 := Run(o, t1, body).value;
    OneStep(o, t2, Except1);
  }

  lemma OneStep(o: Origin, t: Thread, op: Op)
    ensures Run(o, t, [op]) == if Legal(o, t, op) then Some(Effect(t, op)) else None
  {
  }

  lemma Try1Meaning(o: Origin, t: Thread, h: Word)
    ensures t.m.esp < 8 ==> Run(o, t, [Try1(h)]) == None
    ensures t.m.esp >= 8 ==>
      var m := Machine(t.m.esp - 8, t.m.eax, t.m.esp - 8, t.m.mem[t.m.esp - 4 := h][t.m.esp - 8 := t.m.fs0]);
      Run(o, t, [Try1(h)]) == Some(Thread(m, [Registration(t.m.esp - 8, h)] + t.live))
  {
    OneStep(o, t, Try1(h));
    hide Run;
    if t.m.esp >= 8 {
      InstalledBelow(t.m, h);
    }
  }

  lemma Except1Meaning(o: Origin, t: Thread)
    requires Inv(o, t)
    ensures t.live == [] || t.m.esp != t.live[0].addr ==> Run(o, t, [Except1]) == None
    ensures t.live != [] && t.m.esp == t.live[0].addr ==>
      && t.m.esp + 8 < 0x1_0000_0000
      && var prev := Read(t.m.mem, t.m.esp);
      Run(o, t, [Except1]) == Some(Thread(Machine(t.m.esp + 8, prev, prev, t.m.mem), t.live[1..]))
  {
    OneStep(o, t, Except1);
    StackedAbove(t.live, o.base);
    hide Run, Inv, Stacked;
  }

  lemma PushMeaning(o: Origin, t: Thread, v: Word)
    ensures t.m.esp < 4 ==> Run(o, t, [Push(v)]) == None
    ensures t.m.esp >= 4 ==>
      var m := Machine(t.m.esp - 4, t.m.eax, t.m.fs0, t.m.mem[t.m.esp - 4 := v]);
      Run(o, t, [Push(v)]) == Some(Thread(m, t.live))
  {
    OneStep(o, t, Push(v));
    hide Run;
    if t.m.esp >= 4 {
      PushedBelow(t.m, v);
    }
  }

  lemma ReleaseMeaning(o: Origin, t: Thread, n: nat)
    requires Inv(o, t)
    ensures Limit(t.live, o.base) == if t.live == [] then o.base else t.live[0].addr
    ensures t.m.esp + 4 * n > Limit(t.live, o.base) ==> Run(o, t, [Release(n)]) == None
    ensures t.m.esp + 4 * n <= Limit(t.live, o.base) ==>
      Run(o, t, [Release(n)]) == Some(Thread(Machine(t.m.esp + 4 * n, t.m.eax, t.m.fs0, t.m.mem), t.live))
  {
    OneStep(o, t, Release(n));
    StackedAbove(t.live, o.base);
    hide Run, Inv, Stacked;
  }

  /** One step, register by register: when it is allowed, and what it leaves. Nothing wraps. */
  lemma StepMeaning(o: Origin, t: Thread, op: Op)
    requires Inv(o, t)
    ensures var (esp, eax, fs0, mem) := (t.m.esp, t.m.eax, t.m.fs0, t.m.mem);
            Run(o, t, [op]) ==
            match op
            case Try1(h) =>
              if esp < 8 then None
              else Some(Thread(Machine(esp - 8, eax, esp - 8, mem[esp - 4 := h][esp - 8 := fs0]),
                               [Registration(esp - 8, h)] + t.live))
            case Except1 =>
              if t.live == [] || esp != t.live[0].addr then None
              else Some(Thread(Machine(esp + 8, Read(mem, esp), Read(mem, esp), mem), t.live[1..]))
            case Push(v) =>
              if esp < 4 then None else Some(Thread(Machine(esp - 4, eax, fs0, mem[esp - 4 := v]), t.live))
            case Release(n) =>
              if esp + 4 * n > (if t.live == [] then o.base else t.live[0].addr) then None
              else Some(Thread(Machine(esp + 4 * n, eax, fs0, mem), t.live))
            case Store(a, v) =>
              if a % 4 != 0 || exists r :: r in t.live + o.chain && (a == r.addr || a == r.addr + 4) then None
              else Some(Thread(Machine(esp, eax, fs0, mem[a := v]), t.live))
            case LoadEax(v) => Some(Thread(Machine(esp, v, fs0, mem), t.live))
  {
    match op
    case Try1(h) => Try1Meaning(o, t, h);
    case Except1 => Except1Meaning(o, t);
    case Push(v) => PushMeaning(o, t, v);
    case Release(n) => ReleaseMeaning(o, t, n);
    case Store(a, v) =>
      OneStep(o, t, op);
      hide Inv, Run;
      SparesMeaning(a, t.live + o.chain);
    case LoadEax(v) => OneStep(o, t, op);
  }

  lemma SparesMeaning(a: int, regs: seq<Registration>)
    ensures Spares(a, regs) <==> !exists r :: r in regs && (a == r.addr || a == r.addr + 4)
  {
  }

  /** After bracketed code the removal can be carried out exactly when the stack is back where the
      installation left it. */
  lemma ExceptRunsExactly(o: Origin, t: Thread, handler: Word, body: seq<Op>)
    requires Inv(o, t) && Bracketed(body) && Run(o, t, [Try1(handler)] + body).Some?
    ensures Run(o, t, [Try1(handler)] + body + [Except1]).Some? <==>
            Run(o, t, [Try1(handler)] + body).value.m.esp == t.m.esp - 8
  {
    RunAppend(o, t, [Try1(handler)], body);
    RunAppend(o, t, [Try1(handler)] + body, [Except1]);
    StepMeaning(o, t, Try1(handler));
    OneStep(o, t, Try1(handler));
    InstallKeeps(o, t, handler);
    var t1 := Run(o, t, [Try1(handler)]).value;
    BracketedKeepsHandlers(o, t1, body);
    OneStep(o, Run(o, t1, body).value, Except1);
  }

  // ----- main results

  /** After any bracketed code the same handlers are installed as before, and fs:0 is as before. */
  lemma BracketedKeepsHandlers(o: Origin, t: Thread, body: seq<Op>)
    requires Inv(o, t) && Run(o, t, body).Some? && Bracketed(body)
    ensures Run(o, t, body).value.live == t.live
    ensures Run(o, t, body).value.m.fs0 == t.m.fs0
  {
    var u := Run(o, t, body).value;
    RunKeeps(o, t, body);
    RunKeepsOuter(o, t, body, 0, 0);
    assert u.live[0..] == u.live && t.live[0..] == t.live;
    HeadOfChain(o, t);
    HeadOfChain(o, u);
  }

  lemma ExceptRestoresMemory(o: Origin, t: Thread, handler: Word, body: seq<Op>, u: Thread, a: Word)
    requires Inv(o, t) && Bracketed(body)
    requires Run(o, t, [Try1(handler)] + body + [Except1]) == Some(u)
    requires a >= t.m.esp && a !in Stored(body)
    ensures Read(u.m.mem, a) == Read(t.m.mem, a)
  {
    BracketParts(o, t, handler, body);
    InstallKeeps(o, t, handler);
    InstalledBelow(t.m, handler);
    hide Inv, Installed, Run;
    var t1 := Effect(t, Try1(handler));
    assert t1.live[0..] == t1.live;
    RunKeepsOuter(o, t1, body, 0, a);
  }

  /** `__except1` returns fs:0 and esp to what they were before the matching `__try1`, whatever
      bracketed code ran in between; memory from there upwards is as that code's stores left it. */
  lemma ExceptRestores(o: Origin, t: Thread, handler: Word, body: seq<Op>, u: Thread)
    requires Inv(o, t) && Bracketed(body)
    requires Run(o, t, [Try1(handler)] + body + [Except1]) == Some(u)
    ensures u.m.fs0 == t.m.fs0 && u.m.esp == t.m.esp && u.live == t.live
    ensures forall a: Word :: a >= t.m.esp && a !in Stored(body) ==> Read(u.m.mem, a) == Read(t.m.mem, a)
  {
    forall a: Word | a >= t.m.esp && a !in Stored(body)
      ensures Read(u.m.mem, a) == Read(t.m.mem, a)
    {
      ExceptRestoresMemory(o, t, handler, body, u, a);
    }
    BracketParts(o, t, handler, body);
    var t1 := Effect(t, Try1(handler));
    var t2 := Run(o, t1, body).value;
    InstallKeeps(o, t, handler);
    BracketedKeepsHandlers(o, t1, body);
    RunKeeps(o, t1, body);
    UninstallKeeps(o, t2);
    HeadOfChain(o, t);
    HeadOfChain(o, u);
    InstalledBelow(t.m, handler);
    hide Inv, Installed, Run;
    assert t1.live[1..] == t.live && t1.m.esp == t1.live[0].addr == t.m.esp - 8;
  }

  // ----- when the stack is not as `__try1` left it

  lemma HeadDetermined(mem: Memory, p: Word, q: Word, regs: seq<Registration>, end: Word)
    requires Linked(mem, p, regs, end) && Linked(mem, q, regs, end)
    ensures p == q
  {
  }

  /** Wherever esp points, `__except1` leaves the other registrations linked exactly when the word
      there is the link of the newest one; otherwise the chain is smashed. */
  lemma ExceptKeepsChainExactly(o: Origin, t: Thread)
    requires Inv(o, t) && t.live != []
    ensures Linked(Uninstalled(t.m).mem, Uninstalled(t.m).fs0, t.live[1..] + o.chain, o.end)
            <==> Read(t.m.mem, t.m.esp) == Read(t.m.mem, t.live[0].addr)
  {
    LinkedTail(t.m.mem, t.m.fs0, t.live, o.chain, o.end);
    var regs, prev := t.live[1..] + o.chain, Read(t.m.mem, t.live[0].addr);
    if Linked(t.m.mem, Read(t.m.mem, t.m.esp), regs, o.end) {
      HeadDetermined(t.m.mem, Read(t.m.mem, t.m.esp), prev, regs, o.end);
    }
  }

  /** A word left on the stack smashes the chain unless it happens to be the old fs:0. */
  lemma LeftoverPush(o: Origin, t: Thread, handler: Word, v: Word)
    requires Inv(o, t) && t.m.esp >= 12
    ensures Run(o, t, [Try1(handler), Push(v)]).Some?
    ensures var n := Uninstalled(Run(o, t, [Try1(handler), Push(v)]).value.m);
            && n.fs0 == v
            && (Linked(n.mem, n.fs0, t.live + o.chain, o.end) <==> v == t.m.fs0)
  {
    var t1 := Effect(t, Try1(handler));
    var t2 := Effect(t1, Push(v));
    InstalledBelow(t.m, handler);
    PushedBelow(t1.m, v);
    InstallKeeps(o, t, handler);
    PushKeeps(o, t1, v);
    assert t2.live[1..] == t.live;
    hide Inv, Installed, Pushed, Linked, Run;
    assert [Try1(handler), Push(v)] == [Try1(handler)] + [Push(v)];
    RunAppend(o, t, [Try1(handler)], [Push(v)]);
    OneStep(o, t, Try1(handler));
    OneStep(o, t1, Push(v));
    ExceptKeepsChainExactly(o, t2);
  }

  /** A run that smashes the chain: fs:0 ends up at a word the code in between had pushed. */
  lemma SmashedChain()
    ensures var o, m := Origin(0x1000, [], 0xFFFF_FFFF), Machine(0x1000, 0, 0xFFFF_FFFF, map[]);
            && Start(o, m)
            && Run(o, Thread(m, []), [Try1(7), Push(5)]).Some?
            && var n := Uninstalled(Run(o, Thread(m, []), [Try1(7), Push(5)]).value.m);
               n.fs0 == 5 && !Linked(n.mem, n.fs0, o.chain, o.end)
  {
    var o, m := Origin(0x1000, [], 0xFFFF_FFFF), Machine(0x1000, 0, 0xFFFF_FFFF, map[]);
    StartIsInv(o, m);
    LeftoverPush(o, Thread(m, []), 7, 5);
  }

  // ----- the chain in every reachable state

  function HandlersOf(live: seq<Registration>): (hs: seq<Word>)
    ensures |hs| == |live| && forall i :: 0 <= i < |hs| ==> hs[i] == live[i].handler
  {
    seq(|live|, i requires 0 <= i < |live| => live[i].handler)
  }

  /** The handlers that the steps leave installed, newest first. */
  function HandlersAfter(hs: seq<Word>, ops: seq<Op>): seq<Word>
    decreases ops
  {
    if ops == [] then hs
    else
      match ops[0]
      case Try1(h) => HandlersAfter([h] + hs, ops[1..])
      case Except1 => HandlersAfter(if hs == [] then [] else hs[1..], ops[1..])
      case _ => HandlersAfter(hs, ops[1..])
  }

  lemma {:induction false} RunTracksHandlers(o: Origin, t: Thread, ops: seq<Op>)
    requires Run(o, t, ops).Some?
    ensures HandlersOf(Run(o, t, ops).value.live) == HandlersAfter(HandlersOf(t.live), ops)
    decreases ops
  {
    if ops == [] {
    } else {
      var next := Effect(t, ops[0]);
      RunTracksHandlers(o, next, ops[1..]);
      match ops[0]
      case Try1(h) => assert HandlersOf(next.live) == [h] + HandlersOf(t.live);
      case Except1 => assert HandlersOf(next.live) == if t.live == [] then [] else HandlersOf(t.live)[1..];
      case _ => assert next.live == t.live;
    }
  }

  /** The registrations met on at most `steps` steps along PREV, up to the marker. */
  function Walk(mem: Memory, p: Word, end: Word, steps: nat): seq<Registration>
    decreases steps
  {
    if p == end || steps == 0 then []
    else [Registration(p, Read(mem, Wrap(p + HANDLER)))] + Walk(mem, Read(mem, Wrap(p + PREV)), end, steps - 1)
  }

  lemma {:induction false} WalkMeetsLinked(mem: Memory, p: Word, regs: seq<Registration>, end: Word, steps: nat)
    requires Linked(mem, p, regs, end) && |regs| <= steps
    ensures Walk(mem, p, end, steps) == regs
    decreases regs
  {
    if regs == [] {
    } else {
      WalkMeetsLinked(mem, Read(mem, Wrap(p + PREV)), regs[1..], end, steps - 1);
      assert regs == [regs[0]] + regs[1..];
    }
  }

  /** In every state reached, walking from fs:0 ends, and meets the handlers installed and not yet
      removed, newest first and at rising addresses, and then the original chain. */
  lemma WalkListsHandlers(o: Origin, m: Machine, ops: seq<Op>, steps: nat)
    requires Start(o, m) && Run(o, Thread(m, []), ops).Some?
    requires var u := Run(o, Thread(m, []), ops).value; |u.live| + |o.chain| <= steps
    ensures var u := Run(o, Thread(m, []), ops).value;
            && Walk(u.m.mem, u.m.fs0, o.end, steps) == u.live + o.chain
            && HandlersOf(u.live) == HandlersAfter([], ops)
            && (forall i, j :: 0 <= i < j < |u.live| ==> u.live[i].addr + 8 <= u.live[j].addr)
            && (forall i :: 0 <= i < |u.live| ==> u.live[i].addr + 8 <= o.base)
  {
    var t, u := Thread(m, []), Run(o, Thread(m, []), ops).value;
    StartIsInv(o, m);
    RunKeeps(o, t, ops);
    RunTracksHandlers(o, t, ops);
    StackedAbove(u.live, o.base);
    WalkMeetsLinked(u.m.mem, u.m.fs0, u.live + o.chain, o.end, steps);
    assert HandlersOf([]) == [];
  }

  // ----- every removal has its installation

  lemma {:induction false} DepthAppend(d: nat, ops: seq<Op>, more: seq<Op>)
    ensures DepthAfter(d, ops + more) ==
            match DepthAfter(d, ops) case None => None case Some(e) => DepthAfter(e, more)
    decreases ops
  {
    if ops == [] {
      assert ops + more == more;
    } else {
      var e := if ops[0].Try1? then d + 1 else if ops[0].Except1? && d > 0 then d - 1 else d;
      assert (ops + more)[1..] == ops[1..] + more;
      DepthAppend(e, ops[1..], more);
    }
  }

  lemma {:induction false} DepthShift(d: nat, ops: seq<Op>, k: nat)
    requires DepthAfter(d, ops).Some?
    ensures DepthAfter(d + k, ops) == Some(DepthAfter(d, ops).value + k)
    decreases ops
  {
    if ops == [] {
    } else {
      var e := if ops[0].Try1? then d + 1 else if ops[0].Except1? then d - 1 else d;
      DepthShift(e, ops[1..], k);
    }
  }

  lemma {:induction false} RunTracksDepth(o: Origin, t: Thread, ops: seq<Op>)
    requires Run(o, t, ops).Some?
    ensures DepthAfter(|t.live|, ops) == Some(|Run(o, t, ops).value.live|)
    decreases ops
  {
    if ops == [] {
    } else {
      RunTracksDepth(o, Effect(t, ops[0]), ops[1..]);
    }
  }

  lemma BracketedAround(body: seq<Op>, handler: Word, inner: seq<Op>)
    requires Bracketed(body) && Bracketed(inner)
    ensures Bracketed(body + [Try1(handler)] + inner + [Except1])
  {
    DepthAppend(0, body + [Try1(handler)] + inner, [Except1]);
    DepthAppend(0, body + [Try1(handler)], inner);
    DepthAppend(0, body, [Try1(handler)]);
    DepthShift(0, inner, 1);
    assert [Except1][1..] == [] && [Try1(handler)][1..] == [];
  }

  /** Where handlers are installed, there is a last `__try1` that is still open. */
  lemma {:induction false} LastOpenTry1(ops: seq<Op>)
    returns (before: seq<Op>, handler: Word, body: seq<Op>)
    requires DepthAfter(0, ops).Some? && DepthAfter(0, ops).value > 0
    ensures ops == before + [Try1(handler)] + body
    ensures DepthAfter(0, before) == Some(DepthAfter(0, ops).value - 1)
    ensures Bracketed(body)
    decreases |ops|
  {
    var n := |ops| - 1;
    var front, op := ops[..n], ops[n];
    assert ops == front + [op] && [op][1..] == [];
    DepthAppend(0, front, [op]);
    if op.Try1? {
      before, handler, body := front, op.handler, [];
    } else if op.Except1? {
      var outer, h, inner := LastOpenTry1(front);
      before, handler, body := LastOpenTry1(outer);
      BracketedAround(body, h, inner);
      assert ops == before + [Try1(handler)] + (body + [Try1(h)] + inner + [Except1]);
      body := body + [Try1(h)] + inner + [Except1];
    } else {
      before, handler, body := LastOpenTry1(front);
      DepthAppend(0, body, [op]);
      assert ops == before + [Try1(handler)] + (body + [op]);
      body := body + [op];
    }
  }

  /** Every `__except1` of a run that starts with the primitives unused has its `__try1`: the code
      between the two is bracketed, and fs:0, esp, the installed handlers and, but for that code's own
      stores, memory from esp upwards are as they were before. */
  lemma EveryExceptRestores(o: Origin, m: Machine, ops: seq<Op>)
    returns (before: seq<Op>, handler: Word, body: seq<Op>)
    requires Start(o, m) && Run(o, Thread(m, []), ops + [Except1]).Some?
    ensures ops == before + [Try1(handler)] + body && Bracketed(body)
    ensures Run(o, Thread(m, []), before).Some?
    ensures var t := Run(o, Thread(m, []), before).value;
            var u := Run(o, Thread(m, []), ops + [Except1]).value;
            && u.m.fs0 == t.m.fs0 && u.m.esp == t.m.esp && u.live == t.live
            && forall a: Word :: a >= t.m.esp && a !in Stored(body) ==> Read(u.m.mem, a) == Read(t.m.mem, a)
  {
    var start := Thread(m, []);
    StartIsInv(o, m);
    RunAppend(o, start, ops, [Except1]);
    OneStep(o, Run(o, start, ops).value, Except1);
    RunTracksDepth(o, start, ops);
    before, handler, body := LastOpenTry1(ops);
    hide Inv, Start, Legal, Effect;
    assert ops + [Except1] == before + ([Try1(handler)] + body + [Except1]);
    RunAppend(o, start, before, [Try1(handler)] + body + [Except1]);
    RunKeeps(o, start, before);
    var t := Run(o, start, before).value;
    ExceptRestores(o, t, handler, body, Run(o, t, [Try1(handler)] + body + [Except1]).value);
  }
}
