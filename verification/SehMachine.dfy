/** The x86 state that `__try1` and `__except1` work on, and what the two primitives do to it. */
module SehMachine {
  import opened Words

  function Wrap(x: int): Word {
    x % 0x1_0000_0000
  }

  /** Memory as 32-bit words at the addresses they were written to; all else reads as 0. */
  type Memory = map<Word, Word>

  function Read(mem: Memory, a: Word): Word {
    if a in mem then mem[a] else 0
  }

  datatype Machine = Machine(esp: Word, eax: Word, fs0: Word, mem: Memory)

  /** EXCEPTION_REGISTRATION: the link to the previous one, then the handler. */
  const PREV := 0
  const HANDLER := 4

  // ----- what each primitive does to the state

  function Pushed(m: Machine, value: Word): Machine {
    var esp := Wrap(m.esp - 4);
    m.(esp := esp, mem := m.mem[esp := value])
  }

  /** A registration at the new top of the stack, linked to the old one and made the current one. */
  function Installed(m: Machine, handler: Word): Machine {
    var r := Wrap(m.esp - 8);
    m.(esp := r, fs0 := r, mem := m.mem[Wrap(r + HANDLER) := handler][r := m.fs0])
  }

  /** The registration at the top of the stack dropped, and the one it links to made current. */
  function Uninstalled(m: Machine): Machine {
    var prev := Read(m.mem, m.esp);
    m.(esp := Wrap(m.esp + 8), fs0 := prev, eax := prev)
  }

  /** Two pushes and a move of esp make an installation, wrapping or not. */
  lemma TwoPushesInstall(m: Machine, handler: Word)
    ensures var n := Pushed(Pushed(m, handler), m.fs0);
            n.(fs0 := n.esp) == Installed(m, handler)
  {
    assert Wrap(Wrap(m.esp - 4) - 4) == Wrap(m.esp - 8);
    assert Wrap(Wrap(m.esp - 8) + HANDLER) == Wrap(m.esp - 4);
    hide Wrap;
  }

  /** The pair pushed has the layout of a registration, for every stack pointer. */
  lemma InstalledLayout(m: Machine, handler: Word)
    ensures var n := Installed(m, handler);
            && n.fs0 == n.esp && Wrap(n.esp + 8) == m.esp
            && Read(n.mem, Wrap(n.fs0 + PREV)) == m.fs0
            && Read(n.mem, Wrap(n.fs0 + HANDLER)) == handler
            && forall a: Word :: a != n.fs0 && a != Wrap(n.fs0 + HANDLER) ==> Read(n.mem, a) == Read(m.mem, a)
  {
  }

  /** Removing a handler at once undoes installing it, but for eax and the words below the stack. */
  lemma UninstallUndoesInstall(m: Machine, handler: Word)
    ensures var n := Uninstalled(Installed(m, handler));
            && n.esp == m.esp && n.fs0 == m.fs0
            && forall a: Word :: a != Wrap(m.esp - 4) && a != Wrap(m.esp - 8) ==> Read(n.mem, a) == Read(m.mem, a)
  {
  }

  /** With room on the stack, nothing wraps. */
  lemma PushedBelow(m: Machine, value: Word)
    requires m.esp >= 4
    ensures Pushed(m, value) == Machine(m.esp - 4, m.eax, m.fs0, m.mem[m.esp - 4 := value])
  {
  }

  lemma InstalledBelow(m: Machine, handler: Word)
    requires m.esp >= 8
    ensures Installed(m, handler) ==
            Machine(m.esp - 8, m.eax, m.esp - 8, m.mem[m.esp - 4 := handler][m.esp - 8 := m.fs0])
  {
  }
}
