/** `__try1` and `__except1` instruction by instruction, on a thread's registers and memory. */
module SehCpu {
  import opened Optional
  import opened SehMachine
  import opened SehChain
  import opened Words

  class Cpu {
    var esp: Word
    var eax: Word
    var fs0: Word
    var mem: Memory

    /** The registrations installed and not yet removed, newest first. */
    ghost var Live: seq<Registration>

    /** The stack and the chain of registrations that the thread started with. */
    ghost const origin: Origin

    function State(): Machine
      reads this
    {
      Machine(esp, eax, fs0, mem)
    }

    ghost function Current(): Thread
      reads this
    {
      Thread(State(), Live)
    }

    /** The chain from fs:0 through memory is the live registrations and then the original ones. */
    ghost predicate Valid()
      reads this
    {
      Inv(origin, Current())
    }

    constructor (m: Machine, ghost o: Origin)
      requires Start(o, m)
      ensures Valid() && origin == o && Current() == Thread(m, [])
    {
      esp, eax, fs0, mem := m.esp, m.eax, m.fs0, m.mem;
      Live, origin := [], o;
      new;
      StartIsInv(o, m);
    }

    /** pushl value */
    method Pushl(value: Word)
      modifies this`esp, this`mem
      ensures State() == Pushed(old(State()), value)
    {
      esp := Wrap(esp - 4);
      mem := mem[esp := value];
    }

    /** pushl handler; pushl %fs:0; movl %esp,%fs:0. Given room, the chain is the old one with the new
        registration, linked to the old fs:0, before it. */
    method Try1(handler: Word)
      modifies this
      ensures State() == Installed(old(State()), handler)
      ensures Live == [Registration(fs0, handler)] + old(Live)
      ensures old(Valid() && esp >= 8) ==>
        && Valid()
        && esp == fs0 == old(esp) - 8
        && Read(mem, fs0 + PREV) == old(fs0) && Read(mem, fs0 + HANDLER) == handler
    {
      Pushl(handler);
      Pushl(fs0);
      fs0 := esp;
      Live := [Registration(esp, handler)] + Live;
      TwoPushesInstall(old(State()), handler);
      if old(Valid() && esp >= 8) {
        InstalledBelow(old(State()), handler);
        hide Pushed, Installed, Inv;
        InstallKeeps(origin, old(Current()), handler);
      }
    }

    /** movl (%esp),%eax; movl %eax,%fs:0; addl $8,%esp. Where the stack is as `__try1` left it, the
        chain is the old one without its newest registration, and no word of memory changes. */
    method Except1()
      modifies this`esp, this`eax, this`fs0, this`Live
      ensures State() == Uninstalled(old(State()))
      ensures Live == if old(Live) == [] then [] else old(Live)[1..]
      ensures old(Valid() && Live != [] && esp == Live[0].addr) ==>
        && Valid()
        && esp == old(esp) + 8
        && fs0 == if Live + origin.chain == [] then origin.end else (Live + origin.chain)[0].addr
    {
      eax := Read(mem, esp);
      fs0 := eax;
      esp := Wrap(esp + 8);
      Live := if Live == [] then [] else Live[1..];
      if old(Valid() && Live != [] && esp == Live[0].addr) {
        UninstallKeeps(origin, old(Current()));
        assert Current() == Effect(old(Current()), Op.Except1);
        HeadOfChain(origin, Current());
      }
    }

    /** One step: a primitive, or an instruction of the code between them. */
    method Step(op: Op)
      requires Valid() && Legal(origin, Current(), op)
      modifies this
      ensures Valid() && Current() == Effect(old(Current()), op)
    {
      StepKeeps(origin, Current(), op);
      match op
      case Try1(h) => Try1(h);
      case Except1 => Except1();
      case Push(v) => Pushl(v);
      case Release(n) => esp := Wrap(esp + 4 * n);
      case Store(a, v) => mem := mem[a := v];
      case LoadEax(v) => eax := v;
    }

    /** Any code that keeps the rules: the thread ends where the run says, its chain in order. */
    method Perform(ops: seq<Op>)
      requires Valid() && Run(origin, Current(), ops).Some?
      modifies this
      ensures Valid()
      ensures Some(Current()) == old(Run(origin, Current(), ops))
      ensures forall n: nat :: ops == [Release(n)] ==> esp == old(esp) + 4 * n && mem == old(mem)
      ensures forall a, v: Word :: ops == [Store(a, v)] ==> mem == old(mem)[a := v] && esp == old(esp)
    {
      ghost var start := Current();
      if |ops| == 1 {
        StepMeaning(origin, start, ops[0]);
        assert ops == [ops[0]];
      }
      for n := 0 to |ops|
        invariant Valid()
        invariant Run(origin, Current(), ops[n..]) == Run(origin, start, ops)
      {
        assert ops[n..][0] == ops[n] && ops[n..][1..] == ops[n + 1..];
        Step(ops[n]);
      }
    }

    /** A walk from fs:0 through memory. */
    lemma WalkFromFs0(steps: nat)
      requires Valid() && |Live| + |origin.chain| <= steps
      ensures Walk(mem, fs0, origin.end, steps) == Live + origin.chain
    {
      WalkMeetsLinked(mem, fs0, Live + origin.chain, origin.end, steps);
    }
  }
}
