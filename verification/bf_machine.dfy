/**
 * Brainfuck, with a strict machine: leaving the tape on the left, or taking a
 * cell outside 0..255, is a fault. A run that halts here therefore prints the
 * same on machines with wrapping or with unbounded cells.
 */
module BfMachine {
  import opened Wrappers

  /** Cells not in `tape` hold 0. */
  datatype State = State(tape: map<nat, nat>, ptr: nat, out: seq<nat>)

  datatype Outcome = Running(pc: nat, state: State) | Halted(out: seq<nat>) | Fault

  const START := State(map[], 0, [])

  function Cell(s: State, i: nat): nat {
    if i in s.tape then s.tape[i] else 0
  }

  /** A command other than a bracket; characters that are no commands do nothing. */
  function Simple(c: char, s: State): Option<State> {
    match c
    case '>' => Some(s.(ptr := s.ptr + 1))
    case '<' => if s.ptr == 0 then None else Some(s.(ptr := s.ptr - 1))
    case '+' => if Cell(s, s.ptr) >= 255 then None else Some(s.(tape := s.tape[s.ptr := Cell(s, s.ptr) + 1]))
    case '-' => if Cell(s, s.ptr) == 0 then None else Some(s.(tape := s.tape[s.ptr := Cell(s, s.ptr) - 1]))
    case '.' => Some(s.(out := s.out + [Cell(s, s.ptr)]))
    case ',' => None
    case _ => Some(s)
  }

  /** The bracket that closes the one whose body continues at `i`. */
  function CloseOf(prog: string, i: nat, depth: nat): Option<nat>
    decreases |prog| - i
  {
    if i >= |prog| then None
    else if prog[i] == '[' then CloseOf(prog, i + 1, depth + 1)
    else if prog[i] == ']' then (if depth == 0 then Some(i) else CloseOf(prog, i + 1, depth - 1))
    else CloseOf(prog, i + 1, depth)
  }

  /** The bracket that opens the one whose body ends before `i`. */
  function OpenOf(prog: string, i: nat, depth: nat): Option<nat>
    requires i <= |prog|
    decreases i
  {
    if i == 0 then None
    else if prog[i - 1] == ']' then OpenOf(prog, i - 1, depth + 1)
    else if prog[i - 1] == '[' then (if depth == 0 then Some(i - 1) else OpenOf(prog, i - 1, depth - 1))
    else OpenOf(prog, i - 1, depth)
  }

  function Step(prog: string, pc: nat, s: State): Outcome
    requires pc < |prog|
  {
    if prog[pc] == '[' then
      if Cell(s, s.ptr) != 0 then Running(pc + 1, s)
      else if CloseOf(prog, pc + 1, 0).None? then Fault
      else Running(CloseOf(prog, pc + 1, 0).value + 1, s)
    else if prog[pc] == ']' then
      if Cell(s, s.ptr) == 0 then Running(pc + 1, s)
      else if OpenOf(prog, pc, 0).None? then Fault
      else Running(OpenOf(prog, pc, 0).value + 1, s)
    else if Simple(prog[pc], s).None? then Fault
    else Running(pc + 1, Simple(prog[pc], s).value)
  }

  function Run(prog: string, pc: nat, s: State, fuel: nat): Outcome
    decreases fuel
  {
    if pc >= |prog| then Halted(s.out)
    else if fuel == 0 then Running(pc, s)
    else
      match Step(prog, pc, s)
      case Running(pc', s') => Run(prog, pc', s', fuel - 1)
      case o => o
  }

  /** The program terminates without a fault and prints `out`. */
  ghost predicate Prints(prog: string, out: seq<nat>) {
    exists fuel: nat :: Run(prog, 0, START, fuel) == Halted(out)
  }

  lemma {:induction false} MoreFuel(prog: string, pc: nat, s: State, fuel: nat, more: nat)
    requires Run(prog, pc, s, fuel).Halted? && fuel <= more
    ensures Run(prog, pc, s, more) == Run(prog, pc, s, fuel)
    decreases fuel
  {
    if pc < |prog| && fuel > 0 {
      var next := Step(prog, pc, s);
      if next.Running? {
        MoreFuel(prog, next.pc, next.state, fuel - 1, more - 1);
      }
    }
  }

  lemma OutputIsUnique(prog: string, a: seq<nat>, b: seq<nat>)
    requires Prints(prog, a) && Prints(prog, b)
    ensures a == b
  {
    var m: nat :| Run(prog, 0, START, m) == Halted(a);
    var n: nat :| Run(prog, 0, START, n) == Halted(b);
    MoreFuel(prog, 0, START, m, m + n);
    MoreFuel(prog, 0, START, n, m + n);
  }

  // ---- Straight-line code

  predicate Straight(ops: string) {
    '[' !in ops && ']' !in ops
  }

  function Exec(ops: string, s: State): Option<State> {
    if ops == [] then Some(s)
    else if Simple(ops[0], s).None? then None
    else Exec(ops[1..], Simple(ops[0], s).value)
  }

  lemma {:induction false} ExecConcat(a: string, b: string, s: State)
    ensures Exec(a + b, s) == if Exec(a, s).None? then None else Exec(b, Exec(a, s).value)
    decreases |a|
  {
    if a == [] {
      assert a + b == b;
    } else {
      assert (a + b)[0] == a[0] && (a + b)[1..] == a[1..] + b;
      if Simple(a[0], s).Some? {
        ExecConcat(a[1..], b, Simple(a[0], s).value);
      }
    }
  }

  lemma ExecThen(a: string, b: string, s: State, t: State)
    requires Exec(a, s) == Some(t)
    ensures Exec(a + b, s) == Exec(b, t)
  {
    ExecConcat(a, b, s);
  }

  lemma StraightConcat(a: string, b: string)
    requires Straight(a) && Straight(b)
    ensures Straight(a + b)
  {}

  lemma ExecOne(c: char, s: State)
    ensures Exec([c], s) == Simple(c, s)
  {
    assert [c][1..] == [];
  }

  /** Running a stretch of straight-line code is executing it. */
  lemma {:induction false} RunStraight(prog: string, pc: nat, ops: string, s: State, fuel: nat)
    requires pc + |ops| <= |prog| && prog[pc..pc + |ops|] == ops
    requires Straight(ops) && Exec(ops, s).Some?
    ensures Run(prog, pc, s, |ops| + fuel) == Run(prog, pc + |ops|, Exec(ops, s).value, fuel)
    decreases |ops|
  {
    if ops != [] {
      assert prog[pc] == prog[pc..pc + |ops|][0] == ops[0];
      assert prog[pc + 1..pc + |ops|] == prog[pc..pc + |ops|][1..] == ops[1..];
      assert ops[0] in ops;
      assert Straight(ops[1..]) by {
        assert forall c :: c in ops[1..] ==> c in ops;
      }
      var next := Simple(ops[0], s).value;
      RunStraight(prog, pc + 1, ops[1..], next, fuel);
      assert Run(prog, pc, s, |ops| + fuel) == Run(prog, pc + 1, next, |ops[1..]| + fuel);
    }
  }

  /** A closing bracket whose body has no brackets leads back to the body's start. */
  lemma {:induction false} OpenOfStraight(prog: string, start: nat, i: nat)
    requires 0 < start <= i <= |prog| && prog[start - 1] == '['
    requires forall k :: start <= k < i ==> prog[k] != '[' && prog[k] != ']'
    ensures OpenOf(prog, i, 0) == Some(start - 1)
    decreases i
  {
    if i > start {
      OpenOfStraight(prog, start, i - 1);
    }
  }

  function Repeat(c: char, n: nat): (r: string)
    ensures |r| == n && forall i :: 0 <= i < n ==> r[i] == c
  {
    seq(n, _ => c)
  }

  /** The two states agree on every cell but `i`. */
  ghost predicate SameBut(a: State, b: State, i: nat) {
    forall k: nat :: k != i ==> Cell(a, k) == Cell(b, k)
  }

  lemma {:induction false} ExecPlus(n: nat, s: State)
    requires Cell(s, s.ptr) + n <= 255
    ensures Exec(Repeat('+', n), s).Some?
    ensures var t := Exec(Repeat('+', n), s).value;
            t.ptr == s.ptr && t.out == s.out && Cell(t, s.ptr) == Cell(s, s.ptr) + n && SameBut(t, s, s.ptr)
    decreases n
  {
    if n > 0 {
      assert Repeat('+', n)[1..] == Repeat('+', n - 1);
      ExecPlus(n - 1, Simple('+', s).value);
    }
  }

  lemma {:induction false} ExecMinus(n: nat, s: State)
    requires n <= Cell(s, s.ptr)
    ensures Exec(Repeat('-', n), s).Some?
    ensures var t := Exec(Repeat('-', n), s).value;
            t.ptr == s.ptr && t.out == s.out && Cell(t, s.ptr) == Cell(s, s.ptr) - n && SameBut(t, s, s.ptr)
    decreases n
  {
    if n > 0 {
      assert Repeat('-', n)[1..] == Repeat('-', n - 1);
      ExecMinus(n - 1, Simple('-', s).value);
    }
  }

  lemma {:induction false} ExecRight(n: nat, s: State)
    ensures Exec(Repeat('>', n), s) == Some(s.(ptr := s.ptr + n))
    decreases n
  {
    if n > 0 {
      assert Repeat('>', n)[1..] == Repeat('>', n - 1);
      ExecRight(n - 1, s.(ptr := s.ptr + 1));
    }
  }

  lemma {:induction false} ExecLeft(n: nat, s: State)
    requires n <= s.ptr
    ensures Exec(Repeat('<', n), s) == Some(s.(ptr := s.ptr - n))
    decreases n
  {
    if n > 0 {
      assert Repeat('<', n)[1..] == Repeat('<', n - 1);
      ExecLeft(n - 1, s.(ptr := s.ptr - 1));
    }
  }

  /** Characters that no machine acts on. */
  predicate Ignored(ops: string) {
    forall c :: c in ops ==> c !in "><+-.,[]"
  }

  lemma {:induction false} ExecIgnored(ops: string, s: State)
    requires Ignored(ops)
    ensures Straight(ops) && Exec(ops, s) == Some(s)
    decreases |ops|
  {
    if ops != [] {
      assert ops[0] in ops;
      assert Ignored(ops[1..]) by {
        assert forall c :: c in ops[1..] ==> c in ops;
      }
      ExecIgnored(ops[1..], s);
      assert ops == [ops[0]] + ops[1..];
    }
  }
}
