/** The program being debugged: a deterministic machine over bytes. It runs the instruction
    at its pc, or traps one byte further on if that byte is int3. */
module Debugee {
  import opened Memory

  /** Registers other than the pc, and the memory the program itself writes. */
  type Data(==, !new)

  datatype Cpu = Cpu(pc: int, data: Data)
  datatype Executed = Next(cpu: Cpu) | Exits

  /** The program as loaded: its bytes, where instructions start, how long each is and what it does. */
  datatype Program = Program(text: Memory, starts: set<int>, size: int -> nat, exec: Cpu -> Executed)

  /** Instructions do not overlap, none is int3 already, and control goes from start to start. */
  ghost predicate WellFormed(p: Program) {
    && (forall s | s in p.starts :: p.size(s) >= 1 && s in p.text && p.text[s] != INT3)
    && (forall s, x | s in p.starts && s <= x < s + p.size(s) :: x in p.text && (x in p.starts ==> x == s))
    && (forall c: Cpu | c.pc in p.starts && p.exec(c).Next? :: p.exec(c).cpu.pc in p.starts)
  }

  /** The uninstrumented program after k instructions. */
  function Original(p: Program, c: Cpu, k: nat): Executed
    decreases k
  {
    if k == 0 then Next(c)
    else match p.exec(c) {
      case Exits => Exits
      case Next(d) => Original(p, d, k - 1)
    }
  }

  datatype Event = Stepped(cpu: Cpu) | Trapped(cpu: Cpu) | Exited | Wild

  predicate Intact(p: Program, mem: Memory, pc: int) {
    forall x :: pc <= x < pc + p.size(pc) ==> x in mem && x in p.text && mem[x] == p.text[x]
  }

  /** One instruction of the program in the given memory. Wild is everything the model says
      nothing about: unmapped or altered instruction bytes. */
  function CpuStep(p: Program, mem: Memory, c: Cpu): Event {
    if c.pc !in mem then Wild
    else if mem[c.pc] == INT3 then Trapped(c.(pc := c.pc + 1))
    else if !Intact(p, mem, c.pc) then Wild
    else match p.exec(c) {
      case Exits => Exited
      case Next(d) => Stepped(d)
    }
  }

  /** PTRACE_CONT and the wait: up to n instructions, ending early at a stop. Stepped means
      the program was still running. */
  function RunOn(p: Program, mem: Memory, c: Cpu, n: nat): Event
    decreases n
  {
    if n == 0 then Stepped(c)
    else match CpuStep(p, mem, c) {
      case Stepped(d) => RunOn(p, mem, d, n - 1)
      case e => e
    }
  }

  lemma {:induction false} OriginalAdd(p: Program, c: Cpu, j: nat, k: nat)
    ensures Original(p, c, j + k) == match Original(p, c, j) { case Exits => Exits case Next(d) => Original(p, d, k) }
    decreases j
  {
    if j > 0 {
      match p.exec(c)
      case Exits =>
      case Next(d) => OriginalAdd(p, d, j - 1, k);
    }
  }

  /** Memory a debugger may leave behind: original bytes, and traps only where instructions start. */
  ghost predicate Sound(p: Program, mem: Memory) {
    mem.Keys == p.text.Keys && forall x | x in mem :: mem[x] == p.text[x] || (x in p.starts && mem[x] == INT3)
  }

  /** In sound memory an instruction that does not trap is the original one. */
  lemma StepIsOriginal(p: Program, mem: Memory, c: Cpu)
    requires WellFormed(p) && Sound(p, mem) && c.pc in p.starts
    ensures CpuStep(p, mem, c) ==
            if mem[c.pc] == INT3 then Trapped(c.(pc := c.pc + 1))
            else match p.exec(c) { case Exits => Exited case Next(d) => Stepped(d) }
  {
  }

  /** What a run of up to n instructions does, in terms of the original program: it passes
      k instruction starts without a trap and stops at the one it ends on. */
  ghost predicate RanTo(p: Program, mem: Memory, c: Cpu, n: nat, e: Event, k: nat) {
    && k <= n
    && (forall j: nat | j < k :: Original(p, c, j).Next? && Untrapped(mem, Original(p, c, j).cpu.pc))
    && match e {
         case Stepped(d) => k == n && Original(p, c, k) == Next(d) && d.pc in p.starts
         case Trapped(d) =>
           var stop := d.(pc := d.pc - 1);
           Original(p, c, k) == Next(stop) && stop.pc in p.starts && stop.pc in mem && mem[stop.pc] == INT3
         case Exited => k > 0 && Original(p, c, k) == Exits
         case Wild => false
       }
  }

  predicate Untrapped(mem: Memory, a: int) { a in mem && mem[a] != INT3 }

  lemma {:induction false} RunFollows(p: Program, mem: Memory, c: Cpu, n: nat) returns (k: nat)
    requires WellFormed(p) && Sound(p, mem) && c.pc in p.starts
    ensures RanTo(p, mem, c, n, RunOn(p, mem, c, n), k)
    decreases n
  {
    k := 0;
    if n > 0 {
      StepIsOriginal(p, mem, c);
      match CpuStep(p, mem, c)
      case Stepped(d) =>
        var m := RunFollows(p, mem, d, n - 1);
        k := m + 1;
        forall j: nat | j < k ensures Original(p, c, j).Next? && Untrapped(mem, Original(p, c, j).cpu.pc) {
          if j > 0 { assert Original(p, c, j) == Original(p, d, j - 1); }
        }
      case Trapped(d) => assert d.(pc := d.pc - 1) == c;
      case Exited =>
        k := 1;
        assert Original(p, c, 1) == Exits;
    }
  }
}
