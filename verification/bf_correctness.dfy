/** The programs of bf.py print what they were made from. */
module BfCorrectness {
  import opened Bytes
  import opened BfMachine
  import opened BfEncoder
  import opened Wrappers

  // ---- Bounds of the planner

  predicate Ascending(s: seq<Code>) {
    forall i, j :: 0 <= i < j < |s| ==> s[i] <= s[j]
  }

  lemma {:induction false} InsertAdds(s: seq<Code>, x: Code)
    ensures multiset(Insert(s, x)) == multiset(s) + multiset{x}
    decreases |s|
  {
    if s != [] {
      InsertAdds(s[1..], x);
      assert s == [s[0]] + s[1..];
    }
  }

  lemma {:induction false} InsertAscends(s: seq<Code>, x: Code)
    requires Ascending(s)
    ensures Ascending(Insert(s, x))
    ensures Insert(s, x)[0] == if s == [] || x <= s[0] then x else s[0]
    decreases |s|
  {
    if s != [] && x > s[0] {
      InsertAscends(s[1..], x);
      var rest := Insert(s[1..], x);
      assert forall i :: 0 <= i < |rest| ==> s[0] <= rest[0] <= rest[i];
    }
  }

  /** The planner's `sorted` is an ordered permutation. */
  lemma {:induction false} SortedSorts(s: seq<Code>)
    ensures multiset(Sorted(s)) == multiset(s) && Ascending(Sorted(s))
    decreases |s|
  {
    if s != [] {
      SortedSorts(s[1..]);
      InsertAdds(Sorted(s[1..]), s[0]);
      InsertAscends(Sorted(s[1..]), s[0]);
      assert s == [s[0]] + s[1..];
    }
  }

  lemma SquareOf33(x: nat)
    requires x >= 33
    ensures x * x >= 33 * 33
  {
    assert x * x >= 33 * x;
  }

  lemma RoundSqrtAtMost16(twice: nat)
    requires twice <= 2 * MAX_CODE
    ensures RoundSqrt(twice, 0) <= 16
  {
    var k := RoundSqrt(twice, 0);
    if k >= 17 {
      SquareOf33(2 * k - 1);
    }
  }

  lemma LoopFactorAtMost16(targets: seq<Code>)
    ensures LoopFactor(targets) <= 16
  {
    hide RoundSqrt, TwiceMedian;
    if targets != [] { RoundSqrtAtMost16(TwiceMedian(targets)); }
  }

  /** The loop factor is the square root of the median, rounded to the nearest number, but at least 1. */
  lemma FactorIsNearest(targets: seq<Code>)
    requires targets != []
    ensures exists s: seq<Code> ::
              && multiset(s) == multiset(targets) && |s| == |targets| && Ascending(s)
              && var twice, l := s[(|s| - 1) / 2] as int + s[|s| / 2], LoopFactor(targets);
              && 2 * twice < (2 * l + 1) * (2 * l + 1) && (l == 1 || (2 * l - 1) * (2 * l - 1) <= 2 * twice)
  {
    hide RoundSqrt, Sorted;
    SortedSorts(targets);
    var s := Sorted(targets);
    assert s[(|s| - 1) / 2] as int + s[|s| / 2] == TwiceMedian(targets);
  }

  /** Counting `Increment` times up to `l` comes as close to the target as possible; halves are rounded up. */
  lemma IncrementIsNearest(target: Code, l: nat)
    requires l >= 1
    ensures 2 * target - l < 2 * (Increment(target, l) * l) <= 2 * target + l
  {
    var q, r := Increment(target, l), (2 * target + l) % (2 * l);
    assert 2 * target + l == q * (2 * l) + r;
    assert q * (2 * l) == 2 * (q * l);
  }

  lemma ProductAtMost255(target: Code, l: nat)
    requires 1 <= l <= 16
    ensures Increment(target, l) * l <= 255
  {
    var inc := Increment(target, l);
    assert inc * (2 * l) <= 2 * target + l;
  }

  // ---- The initialisation loop

  /** Cell 0 is the counter, cell `i + 1` holds `values[i]`, nothing has been printed. */
  ghost predicate Loaded(s: State, counter: nat, values: seq<nat>) {
    && s.ptr == 0 && s.out == [] && Cell(s, 0) == counter
    && forall i :: 0 <= i < |values| ==> Cell(s, i + 1) == values[i]
  }

  /** The next cell grows by `n`. */
  lemma ExecFirst(n: nat, s: State)
    requires Cell(s, s.ptr + 1) + n <= 255
    ensures Exec(">" + Repeat('+', n), s).Some?
    ensures var t := Exec(">" + Repeat('+', n), s).value;
            && t.ptr == s.ptr + 1 && t.out == s.out && Cell(t, t.ptr) == Cell(s, t.ptr) + n
            && forall k: nat :: k != t.ptr ==> Cell(t, k) == Cell(s, k)
  {
    ExecPlus(n, s.(ptr := s.ptr + 1));
    assert (">" + Repeat('+', n))[1..] == Repeat('+', n);
  }

  lemma {:induction false} ExecInit(inits: seq<nat>, s: State)
    requires forall i :: 0 <= i < |inits| ==> Cell(s, s.ptr + 1 + i) + inits[i] <= 255
    ensures Exec(InitCode(inits), s).Some?
    ensures var t := Exec(InitCode(inits), s).value;
            && t.ptr == s.ptr + |inits| && t.out == s.out
            && (forall i :: 0 <= i < |inits| ==> Cell(t, s.ptr + 1 + i) == Cell(s, s.ptr + 1 + i) + inits[i])
            && forall k: nat :: k <= s.ptr ==> Cell(t, k) == Cell(s, k)
    decreases |inits|
  {
    if inits == [] { return; }
    ExecFirst(inits[0], s);
    var added := Exec(">" + Repeat('+', inits[0]), s).value;
    forall i | 0 <= i < |inits| - 1
      ensures Cell(added, added.ptr + 1 + i) + inits[1..][i] <= 255
    {
      assert Cell(added, added.ptr + 1 + i) == Cell(s, s.ptr + 1 + (i + 1));
    }
    ExecInit(inits[1..], added);
    ExecConcat(">" + Repeat('+', inits[0]), InitCode(inits[1..]), s);
    hide Exec, Repeat, Cell;
    var t := Exec(InitCode(inits), s).value;
    forall i | 0 <= i < |inits|
      ensures Cell(t, s.ptr + 1 + i) == Cell(s, s.ptr + 1 + i) + inits[i]
    {
      if i > 0 {
        assert Cell(t, added.ptr + 1 + (i - 1)) == Cell(added, added.ptr + 1 + (i - 1)) + inits[1..][i - 1];
      }
    }
  }

  function Plus(values: seq<nat>, n: nat, inits: seq<nat>): (r: seq<nat>)
    requires |values| == |inits|
    ensures |r| == |inits|
  {
    seq(|inits|, i requires 0 <= i < |inits| => values[i] + n * inits[i])
  }

  lemma ExecBody(inits: seq<nat>, s: State, counter: nat, values: seq<nat>)
    requires Loaded(s, counter, values) && |values| == |inits| && counter > 0
    requires forall i :: 0 <= i < |inits| ==> values[i] + inits[i] <= 255
    ensures Exec(LoopBody(inits), s).Some?
    ensures Loaded(Exec(LoopBody(inits), s).value, counter - 1, Plus(values, 1, inits))
  {
    ExecInit(inits, s);
    var a := Exec(InitCode(inits), s).value;
    ExecLeft(|inits|, a);
    var b := a.(ptr := 0);
    ExecConcat(InitCode(inits), Repeat('<', |inits|), s);
    ExecConcat(InitCode(inits) + Repeat('<', |inits|), "-", s);
    assert "-"[1..] == "";
    assert Exec("-", b) == Simple('-', b);
  }

  lemma {:induction false} InitIsStraight(inits: seq<nat>)
    ensures Straight(InitCode(inits))
    decreases |inits|
  {
    if inits != [] { InitIsStraight(inits[1..]); }
  }

  lemma PlusOnce(values: seq<nat>, n: nat, inits: seq<nat>)
    requires |values| == |inits| && n > 0
    ensures Plus(Plus(values, 1, inits), n - 1, inits) == Plus(values, n, inits)
    ensures forall i :: 0 <= i < |inits| ==>
            Plus(values, 1, inits)[i] == values[i] + inits[i] <= Plus(values, n, inits)[i]
  {
    forall i | 0 <= i < |inits|
      ensures values[i] + inits[i] + (n - 1) * inits[i] == values[i] + n * inits[i] >= values[i] + inits[i]
    {
      Multiple(n, inits[i]);
    }
  }

  /** The loop's body stands at `start` of `prog`, between brackets. */
  ghost predicate LoopAt(prog: string, start: nat, body: string) {
    && 0 < start && start + |body| < |prog| && prog[start - 1] == '[' && prog[start + |body|] == ']'
    && prog[start..start + |body|] == body
  }

  /** One round: the body, and the bracket behind it. */
  lemma RunRound(
    prog: string, start: nat, inits: seq<nat>, s: State, n: nat, values: seq<nat>, more: nat)
    returns (u: State)
    requires LoopAt(prog, start, LoopBody(inits)) && n > 0 && Loaded(s, n, values) && |values| == |inits|
    requires forall i :: 0 <= i < |inits| ==> values[i] + inits[i] <= 255
    ensures Loaded(u, n - 1, Plus(values, 1, inits))
    ensures Run(prog, start, s, |LoopBody(inits)| + 1 + more)
         == Run(prog, if n == 1 then start + |LoopBody(inits)| + 1 else start, u, more)
  {
    var body := LoopBody(inits);
    ExecBody(inits, s, n, values);
    InitIsStraight(inits);
    u := Exec(body, s).value;
    RunStraight(prog, start, body, s, 1 + more);
    BodyHasNoBrackets(prog, start, body);
    OpenOfStraight(prog, start, start + |body|);
    hide LoopBody, Exec;
    assert Run(prog, start, s, |body| + (1 + more)) == Run(prog, start + |body|, u, 1 + more);
  }

  function Steps(n: nat, body: string): nat {
    if n == 0 then 0 else |body| + 1 + Steps(n - 1, body)
  }

  /** `n` more rounds of the loop, from the start of its body. */
  lemma {:induction false} RunLoop(
    prog: string, start: nat, inits: seq<nat>, s: State, n: nat, values: seq<nat>, more: nat)
    returns (t: State)
    requires LoopAt(prog, start, LoopBody(inits)) && n > 0 && Loaded(s, n, values) && |values| == |inits|
    requires forall i :: 0 <= i < |inits| ==> Plus(values, n, inits)[i] <= 255
    ensures Loaded(t, 0, Plus(values, n, inits))
    ensures Run(prog, start, s, Steps(n, LoopBody(inits)) + more) == Run(prog, start + |LoopBody(inits)| + 1, t, more)
    decreases n
  {
    hide Run, LoopAt, LoopBody, Loaded, Plus;
    PlusOnce(values, n, inits);
    t := RunRound(prog, start, inits, s, n, values, Steps(n - 1, LoopBody(inits)) + more);
    if n > 1 {
      t := RunLoop(prog, start, inits, t, n - 1, Plus(values, 1, inits), more);
    } else {
      assert Steps(0, LoopBody(inits)) == 0;
    }
  }

  lemma Multiple(n: nat, x: nat)
    requires n > 0
    ensures x <= n * x && x + (n - 1) * x == n * x
  {}

  lemma BodyHasNoBrackets(prog: string, start: nat, body: string)
    requires start + |body| <= |prog| && prog[start..start + |body|] == body && Straight(body)
    ensures forall k :: start <= k < start + |body| ==> prog[k] != '[' && prog[k] != ']'
  {
    forall k | start <= k < start + |body|
      ensures prog[k] != '[' && prog[k] != ']'
    {
      assert prog[k] == prog[start..start + |body|][k - start] == body[k - start];
      assert body[k - start] in body;
    }
  }

  // ---- The print loop

  /** The planner reuses the first cell of minimal cost, and only one that is cheaper than counting up. */
  lemma {:induction false} ReusableIsFirstMinimum(values: seq<Code>, pos: nat, tc: Code, n: nat)
    requires n <= |values|
    ensures var (cost, index) := Reusable(values, pos, tc, n);
            && cost <= tc && (index.None? ==> cost == tc)
            && (forall i :: 0 <= i < n ==> cost <= Abs(values[i] - tc) + Abs(i - pos))
            && (index.Some? ==>
                  && index.value < n && cost == Abs(values[index.value] - tc) + Abs(index.value - pos) < tc
                  && forall i :: 0 <= i < index.value ==> cost < Abs(values[i] - tc) + Abs(i - pos))
  {
    hide Abs;
    if n > 0 { ReusableIsFirstMinimum(values, pos, tc, n - 1); }
  }

  lemma {:induction false} CeilSqrtIs(n: nat, k: nat, from: nat)
    requires k * k >= n && from <= k && (k == 0 || (k - 1) * (k - 1) < n)
    ensures CeilSqrt(n, from) == k
    decreases k - from
  {
    if from < k {
      assert from * from <= (k - 1) * (k - 1);
      CeilSqrtIs(n, k, from + 1);
    }
  }

  /**
   * A cell is planned for code `tc` by reusing the first of the cheapest cells if it
   * costs less than counting up, in a loop or not, and else by adding one.
   */
  lemma CodeIsPlanned(plan: Plan, tc: Code, root: nat)
    requires ValidPlan(plan) && root * root >= tc && (root == 0 || (root - 1) * (root - 1) < tc)
    ensures var limit := if tc == 0 then 0 else if root + 1 < tc then root + 1 else tc;
            var next := PlanCode(plan, tc);
            if forall i :: 0 <= i < |plan.values| ==> Abs(plan.values[i] - tc) + Abs(i - plan.pos) >= limit
            then next == Plan(plan.targets + [tc], plan.values + [tc], |plan.targets|)
            else
              exists i :: 0 <= i < |plan.values| && next == Plan(plan.targets, plan.values[i := tc], i)
                && forall j :: 0 <= j < |plan.values| ==>
                     if j < i
                     then Abs(plan.values[j] - tc) + Abs(j - plan.pos) > Abs(plan.values[i] - tc) + Abs(i - plan.pos)
                     else Abs(plan.values[j] - tc) + Abs(j - plan.pos) >= Abs(plan.values[i] - tc) + Abs(i - plan.pos)
  {
    hide Abs, Reusable, CeilSqrt;
    CeilSqrtIs(tc, root, 0);
    ReusableIsFirstMinimum(plan.values, plan.pos, tc, |plan.values|);
  }

  /** The cost search finds the first of the cheapest cells. */
  lemma {:induction false} CheapestIsFirstMinimum(values: seq<nat>, ptr: nat, tc: Code, n: nat)
    requires 0 < n <= |values|
    ensures var best := Cheapest(values, ptr, tc, n);
            forall i :: 0 <= i < n ==>
              if i < best then PrintCost(values, ptr, tc, best) < PrintCost(values, ptr, tc, i)
              else PrintCost(values, ptr, tc, best) <= PrintCost(values, ptr, tc, i)
    decreases n
  {
    hide PrintCost;
    if n > 1 { CheapestIsFirstMinimum(values, ptr, tc, n - 1); }
  }

  /** The pointer is at cell `ptr + 1`, cells from 1 on hold `values`. */
  ghost predicate Printing(s: State, values: seq<nat>, ptr: nat, out: seq<nat>) {
    && s.ptr == ptr + 1 && s.out == out && ptr < |values|
    && forall i :: 0 <= i < |values| ==> Cell(s, i + 1) == values[i] <= 255
  }

  lemma ExecMove(from: nat, to: nat, s: State)
    requires from <= s.ptr
    ensures Exec(MoveCode(from, to), s) == Some(s.(ptr := s.ptr + to - from))
  {
    hide Exec, Repeat;
    if from > to { ExecLeft(from - to, s); } else { ExecRight(to - from, s); }
  }

  lemma ExecAdjust(from: nat, to: nat, s: State)
    requires Cell(s, s.ptr) == from && from <= 255 && to <= 255
    ensures Exec(AdjustCode(from, to), s).Some?
    ensures var t := Exec(AdjustCode(from, to), s).value;
            t.ptr == s.ptr && t.out == s.out && Cell(t, s.ptr) == to && SameBut(t, s, s.ptr)
  {
    if from > to { ExecMinus(from - to, s); } else { ExecPlus(to - from, s); }
  }

  lemma ExecPrint(values: seq<nat>, ptr: nat, tc: Code, s: State, out: seq<nat>) returns (after: State, best: nat)
    requires Printing(s, values, ptr, out)
    ensures best == Cheapest(values, ptr, tc, |values|) < |values|
    ensures Exec(PrintCode(values, ptr, tc), s) == Some(after)
    ensures Printing(after, values[best := tc], best, out + [tc])
  {
    best := Cheapest(values, ptr, tc, |values|);
    ExecMove(ptr, best, s);
    var a := s.(ptr := best + 1);
    ExecAdjust(values[best], tc, a);
    var b := Exec(AdjustCode(values[best], tc), a).value;
    ExecThen(MoveCode(ptr, best), AdjustCode(values[best], tc), s, a);
    ExecThen(MoveCode(ptr, best) + AdjustCode(values[best], tc), ".", s, b);
    ExecOne('.', b);
    after := b.(out := out + [tc]);
    var values' := values[best := tc];
    forall i | 0 <= i < |values'|
      ensures Cell(after, i + 1) == values'[i] <= 255
    {
      assert Cell(after, i + 1) == Cell(b, i + 1);
      if i != best { assert Cell(b, i + 1) == Cell(a, i + 1) == Cell(s, i + 1); }
    }
  }

  lemma PrintCodeIsStraight(values: seq<nat>, ptr: nat, tc: Code)
    requires values != []
    ensures Straight(PrintCode(values, ptr, tc))
  {}

  lemma {:induction false} PrintsAreStraight(codes: seq<Code>, values: seq<nat>, ptr: nat)
    requires values != []
    ensures Straight(PrintAll(codes, values, ptr))
    decreases |codes|
  {
    if codes != [] {
      var best := Cheapest(values, ptr, codes[0], |values|);
      PrintCodeIsStraight(values, ptr, codes[0]);
      PrintsAreStraight(codes[1..], values[best := codes[0]], best);
    }
  }

  lemma MoveFirst(a: seq<nat>, b: seq<nat>)
    requires b != []
    ensures a + [b[0]] + b[1..] == a + b
  {}

  /** The first code's piece, executed, and the rest's. */
  lemma PrintsStep(codes: seq<Code>, values: seq<nat>, ptr: nat, best: nat, s: State, t: State, end: State)
    requires codes != [] && values != [] && best == Cheapest(values, ptr, codes[0], |values|)
    requires Exec(PrintCode(values, ptr, codes[0]), s) == Some(t)
    requires Exec(PrintAll(codes[1..], values[best := codes[0]], best), t) == Some(end)
    ensures Exec(PrintAll(codes, values, ptr), s) == Some(end)
  {
    hide Exec, PrintCode, Cheapest;
    ExecThen(PrintCode(values, ptr, codes[0]), PrintAll(codes[1..], values[best := codes[0]], best), s, t);
  }

  /** Whichever cells the cost search picks, the print loop prints the codes. */
  lemma {:induction false} ExecPrints(
    codes: seq<Code>, values: seq<nat>, ptr: nat, s: State, out: seq<nat>)
    returns (end: State)
    requires Printing(s, values, ptr, out)
    ensures Exec(PrintAll(codes, values, ptr), s) == Some(end) && end.out == out + codes
    decreases |codes|
  {
    if codes == [] {
      assert out + codes == out;
      return s;
    }
    hide Exec, PrintAll, PrintCode, Cheapest, Printing;
    var t, best := ExecPrint(values, ptr, codes[0], s, out);
    end := ExecPrints(codes[1..], values[best := codes[0]], best, t, out + [codes[0]]);
    PrintsStep(codes, values, ptr, best, s, t, end);
    MoveFirst(out, codes);
  }

  // ---- The whole program

  /** The rest of a program that is straight-line code runs to the end. */
  lemma RunToEnd(prog: string, pc: nat, ops: string, s: State)
    requires pc + |ops| == |prog| && prog[pc..] == ops && Straight(ops) && Exec(ops, s).Some?
    ensures Run(prog, pc, s, |ops|) == Halted(Exec(ops, s).value.out)
  {
    assert prog[pc..pc + |ops|] == ops;
    RunStraight(prog, pc, ops, s, 0);
  }

  lemma PlusIsProducts(inits: seq<nat>, l: nat)
    ensures Plus(seq(|inits|, i => 0), l, inits) == Products(inits, l)
  {
    forall i | 0 <= i < |inits|
      ensures 0 + l * inits[i] == inits[i] * l
    {}
  }

  /** A counter, a loop and straight-line code behind it. */
  lemma RunProgram(prog: string, count: string, inits: seq<nat>, l: nat, rest: string, out: seq<nat>)
    requires prog == count + ("[" + LoopBody(inits) + "]" + rest) && l > 0
    requires Straight(count) && Exec(count, START).Some? && Loaded(Exec(count, START).value, l, seq(|inits|, i => 0))
    requires forall i :: 0 <= i < |inits| ==> Products(inits, l)[i] <= 255
    requires forall t: State :: Loaded(t, 0, Products(inits, l)) ==>
               Straight(rest) && Exec(rest, t).Some? && Exec(rest, t).value.out == out
    ensures Prints(prog, out)
  {
    hide Run, LoopBody, Products, Plus, Straight, Exec, LoopAt, Loaded, Cell, Prints;
    var body, s := LoopBody(inits), Exec(count, START).value;
    ProgramParts(prog, count, body, rest);
    PlusIsProducts(inits, l);
    CounterCell(s, l, seq(|inits|, i => 0));
    var t := RunLoop(prog, |count| + 1, inits, s, l, seq(|inits|, i => 0), |rest|);
    RunToEnd(prog, |count| + |body| + 2, rest, t);
    FromTheStart(prog, count, s, Steps(l, body) + |rest|);
  }

  lemma CounterCell(s: State, counter: nat, values: seq<nat>)
    requires Loaded(s, counter, values)
    ensures Cell(s, s.ptr) == counter
  {}

  lemma FromTheStart(prog: string, count: string, s: State, steps: nat)
    requires |count| < |prog| && prog[0..0 + |count|] == count && prog[|count|] == '['
    requires Straight(count) && Exec(count, START) == Some(s) && Cell(s, s.ptr) != 0
    requires Run(prog, |count| + 1, s, steps).Halted?
    ensures Prints(prog, Run(prog, |count| + 1, s, steps).out)
  {
    RunStraight(prog, 0, count, START, 1 + steps);
    EnterLoop(prog, |count|, s, steps);
    hide Run;
    assert Run(prog, 0, START, |count| + (1 + steps)).Halted?;
  }

  lemma EnterLoop(prog: string, pc: nat, s: State, steps: nat)
    requires pc < |prog| && prog[pc] == '[' && Cell(s, s.ptr) != 0
    ensures Run(prog, pc, s, 1 + steps) == Run(prog, pc + 1, s, steps)
  {}

  lemma ProgramParts(prog: string, count: string, body: string, rest: string)
    requires prog == count + ("[" + body + "]" + rest)
    ensures LoopAt(prog, |count| + 1, body) && prog[|count|] == '['
    ensures |prog| == |count| + |body| + 2 + |rest| && prog[|count| + |body| + 2..] == rest
    ensures prog[0..0 + |count|] == count
  {
    var tail := "[" + body + "]" + rest;
    assert tail[1..1 + |body|] == body && tail[|body| + 2..] == rest && tail[0] == '[' && tail[|body| + 1] == ']';
    assert forall i :: 0 <= i < |tail| ==> prog[|count| + i] == tail[i];
  }

  lemma {:induction false} PlanIsBounded(codes: seq<Code>)
    ensures var l := LoopFactor(PlanCodes(codes).targets);
            var inits := Increments(PlanCodes(codes).targets, l);
            forall i :: 0 <= i < |inits| ==> inits[i] * l <= 255
  {
    var targets := PlanCodes(codes).targets;
    LoopFactorAtMost16(targets);
    forall i | 0 <= i < |targets|
      ensures Increments(targets, LoopFactor(targets))[i] * LoopFactor(targets) <= 255
    {
      ProductAtMost255(targets[i], LoopFactor(targets));
    }
  }

  lemma RestPrints(codes: seq<Code>, inits: seq<nat>, l: nat, tail: string, t: State)
    requires (codes == [] <==> inits == []) && Loaded(t, 0, Products(inits, l)) && Ignored(tail)
    requires forall i :: 0 <= i < |inits| ==> inits[i] * l <= 255
    ensures var rest := (if inits != [] then ">" else "") + PrintAll(codes, Products(inits, l), 0) + tail;
            Straight(rest) && Exec(rest, t).Some? && Exec(rest, t).value.out == codes
  {
    var values := Products(inits, l);
    var prints := PrintAll(codes, values, 0);
    if inits == [] {
      assert "" + prints + tail == tail;
      ExecIgnored(tail, t);
    } else {
      var moved := t.(ptr := 1);
      var printed := ExecPrints(codes, values, 0, moved, []);
      PrintsAreStraight(codes, values, 0);
      assert ">"[1..] == "";
      assert Exec(">", t) == Some(moved);
      ExecConcat(">", prints, t);
      ExecIgnored(tail, Exec(prints, moved).value);
      ExecConcat(">" + prints, tail, t);
      assert [] + codes == codes;
    }
  }

  /**
   * The program of `_encode_bf_normal`, alone or between ignored characters,
   * terminates and prints exactly the given bytes; the machine is strict, so the
   * pointer never leaves the tape and no cell ever leaves 0..255.
   */
  lemma NormalPrints(codes: seq<Code>, head: string, tail: string)
    requires Ignored(head) && Ignored(tail)
    ensures Prints(head + Normal(codes) + tail, codes)
  {
    var targets := PlanCodes(codes).targets;
    var l := LoopFactor(targets);
    var inits := Increments(targets, l);
    var rest := (if inits != [] then ">" else "") + PrintAll(codes, Products(inits, l), 0) + tail;
    var count := head + Repeat('+', l);
    PlanIsBounded(codes);
    LoopFactorAtMost16(targets);
    NormalParts(codes, head, tail);
    hide PlanCodes, LoopFactor, Increments, PrintAll, LoopBody, Normal, Straight, Exec;
    CountLoads(head, l, |inits|);
    forall t: State | Loaded(t, 0, Products(inits, l))
      ensures Straight(rest) && Exec(rest, t).Some? && Exec(rest, t).value.out == codes
    {
      RestPrints(codes, inits, l, tail, t);
    }
    RunProgram(head + Normal(codes) + tail, count, inits, l, rest, codes);
  }

  lemma NormalParts(codes: seq<Code>, head: string, tail: string)
    ensures var targets := PlanCodes(codes).targets;
            var l := LoopFactor(targets);
            var inits := Increments(targets, l);
            head + Normal(codes) + tail ==
            head + Repeat('+', l) + ("[" + LoopBody(inits) + "]" +
              ((if inits != [] then ">" else "") + PrintAll(codes, Products(inits, l), 0) + tail))
  {
    hide PlanCodes, LoopFactor, Increments, PrintAll, LoopBody, Products;
    var targets := PlanCodes(codes).targets;
    var l := LoopFactor(targets);
    var inits := Increments(targets, l);
    var count, body, prints := Repeat('+', l), LoopBody(inits), PrintAll(codes, Products(inits, l), 0);
    var move := if inits != [] then ">" else "";
    assert Normal(codes) == count + "[" + body + "]" + move + prints;
    Regroup(head, count, body, move, prints, tail);
  }

  lemma Regroup(head: string, count: string, body: string, move: string, prints: string, tail: string)
    ensures head + (count + "[" + body + "]" + move + prints) + tail
         == head + count + ("[" + body + "]" + (move + prints + tail))
  {
    assert count + "[" + body + "]" + move + prints == count + ("[" + body + "]" + (move + prints));
    assert "[" + body + "]" + (move + prints) + tail == "[" + body + "]" + (move + prints + tail);
  }

  lemma CountLoads(head: string, l: nat, n: nat)
    requires Ignored(head) && l <= 255
    ensures var count := head + Repeat('+', l);
            Straight(count) && Exec(count, START).Some? && Loaded(Exec(count, START).value, l, seq(n, i => 0))
  {
    ExecIgnored(head, START);
    ExecPlus(l, START);
    ExecConcat(head, Repeat('+', l), START);
  }

  /** The same for text, through UTF-8. */
  lemma EncodedTextPrints(text: seq<Scalar>)
    ensures Prints(Normal(Utf8(text)), Utf8(text))
  {
    hide Normal, Utf8, Prints;
    NormalPrints(Utf8(text), "", "");
    assert "" + Normal(Utf8(text)) + "" == Normal(Utf8(text));
  }

  // ---- The simple encoder

  lemma {:induction false} ExecSimple(codes: seq<nat>, prev: nat, s: State) returns (end: State)
    requires s.ptr == 0 && Cell(s, 0) == prev <= 255
    requires forall i :: 0 <= i < |codes| ==> codes[i] <= 255
    ensures Straight(SimpleFrom(codes, prev))
    ensures Exec(SimpleFrom(codes, prev), s) == Some(end) && end.out == s.out + codes
    decreases |codes|
  {
    if codes == [] {
      assert s.out + codes == s.out;
      end := s;
    } else {
      var adjust, rest := AdjustCode(prev, codes[0]), SimpleFrom(codes[1..], codes[0]);
      assert SimpleFrom(codes, prev) == adjust + "." + rest;
      assert Straight(adjust + ".");
      ExecAdjust(prev, codes[0], s);
      var a := Exec(adjust, s).value;
      var b := a.(out := a.out + [codes[0]]);
      ExecOne('.', a);
      assert Cell(b, 0) == codes[0];
      hide Exec, AdjustCode, SimpleFrom, Straight;
      ExecThen(adjust, ".", s, a);
      end := ExecSimple(codes[1..], codes[0], b);
      ExecThen(adjust + ".", rest, s, b);
      StraightConcat(adjust + ".", rest);
      MoveFirst(s.out, codes);
    }
  }

  lemma SimplePrints(codes: seq<nat>, head: string, tail: string)
    requires forall i :: 0 <= i < |codes| ==> codes[i] <= 255
    requires Ignored(head) && Ignored(tail)
    ensures Prints(head + SimpleFrom(codes, 0) + tail, codes)
  {
    hide SimpleFrom, Exec, Straight;
    var code := SimpleFrom(codes, 0);
    ExecIgnored(head, START);
    var s := ExecSimple(codes, 0, START);
    StraightConcat(head, code);
    ExecConcat(head, code, START);
    ExecIgnored(tail, s);
    StraightConcat(head + code, tail);
    ExecConcat(head + code, tail, START);
    assert [] + codes == codes;
    RunToEnd(head + code + tail, 0, head + code + tail, START);
  }

  // ---- Flags

  /** What the interpreter prints for a program that terminates without a fault. */
  ghost function Interpret(prog: string): (out: seq<nat>)
    requires exists o :: Prints(prog, o)
    ensures Prints(prog, out)
  {
    var o :| Prints(prog, o);
    o
  }

  /** The flag is stored as the compressed short program for the text it prints. */
  ghost function Encode(flag: string, compress: string -> seq<u8>): seq<u8>
    requires exists o :: Prints(flag, o)
  {
    compress("@" + SimpleFrom(Interpret(flag), 0) + "@")
  }

  predicate IsAscii(codes: seq<nat>) {
    forall i :: 0 <= i < |codes| ==> codes[i] < 0x80
  }

  /** Printed cells, which become the characters of a string. */
  predicate AreBytes(codes: seq<nat>) {
    forall i :: 0 <= i < |codes| ==> codes[i] < 0x100
  }

  /** The flag that is rebuilt from the text that the stored program prints. */
  ghost function Decode(stored: seq<u8>, decompress: seq<u8> -> string): string
    requires exists o :: Prints(decompress(stored), o) && AreBytes(o)
  {
    var text := Interpret(decompress(stored));
    OutputIsUnique(decompress(stored), text, ByteOutput(decompress(stored)));
    "@" + Normal(Utf8(text)) + "@"
  }

  ghost function ByteOutput(prog: string): (out: seq<nat>)
    requires exists o :: Prints(prog, o) && AreBytes(o)
    ensures Prints(prog, out) && AreBytes(out)
  {
    var o :| Prints(prog, o) && AreBytes(o);
    o
  }

  /**
   * A flag made from text survives storing and decoding unchanged if and only if
   * the text is ASCII: the bytes that the program prints are encoded once more.
   */
  lemma FlagRoundTrip(text: seq<Scalar>, compress: string -> seq<u8>, decompress: seq<u8> -> string)
    requires forall s :: decompress(compress(s)) == s
    ensures var flag := "@" + Normal(Utf8(text)) + "@";
            && Prints(flag, Utf8(text)) && AreBytes(Utf8(text))
            && Prints(decompress(Encode(flag, compress)), Utf8(text))
            && (Decode(Encode(flag, compress), decompress) == flag <==> IsAscii(text))
  {
    hide Normal, SimpleFrom, Prints, Utf8;
    var bytes: seq<nat> := Utf8(text);
    var flag := "@" + Normal(Utf8(text)) + "@";
    assert Ignored("@");
    NormalPrints(Utf8(text), "@", "@");
    OutputIsUnique(flag, Interpret(flag), bytes);
    var short := "@" + SimpleFrom(bytes, 0) + "@";
    SimplePrints(bytes, "@", "@");
    assert decompress(Encode(flag, compress)) == short;
    OutputIsUnique(short, Interpret(short), bytes);
    var again := "@" + Normal(Utf8(bytes)) + "@";
    NormalPrints(Utf8(bytes), "@", "@");
    if again == flag { OutputIsUnique(flag, Utf8(bytes), bytes); }
    Utf8Grows(text);
    Utf8Grows(bytes);
    if IsAscii(text) {
      AsciiIsItself(text);
    } else if |Utf8(bytes)| == |bytes| {
      NotAscii(text);
    }
  }

  lemma {:induction false} Utf8Grows(text: seq<Scalar>)
    ensures |Utf8(text)| >= |text|
    ensures |Utf8(text)| == |text| <==> IsAscii(text)
    decreases |text|
  {
    if text != [] {
      Utf8Grows(text[1..]);
      assert text == [text[0]] + text[1..];
      assert IsAscii(text) <==> text[0] < 0x80 && IsAscii(text[1..]);
    }
  }

  /** The bytes of text that is not ASCII are not all ASCII codes. */
  lemma {:induction false} NotAscii(text: seq<Scalar>)
    requires !IsAscii(text)
    ensures !IsAscii(Utf8(text))
    decreases |text|
  {
    var first, rest := Utf8Char(text[0]), Utf8(text[1..]);
    if text[0] >= 0x80 {
      assert Utf8(text)[0] == first[0] >= 0x80;
    } else {
      assert text == [text[0]] + text[1..];
      NotAscii(text[1..]);
      var i :| 0 <= i < |rest| && rest[i] >= 0x80;
      assert Utf8(text)[|first| + i] == rest[i];
    }
  }

  lemma {:induction false} AsciiIsItself(text: seq<Scalar>)
    requires IsAscii(text)
    ensures Utf8(text) == text
    decreases |text|
  {
    if text != [] {
      AsciiIsItself(text[1..]);
      assert text == [text[0]] + text[1..];
    }
  }

  // ---- UTF-8

  predicate Continues(s: seq<int>, n: nat) {
    n <= |s| && forall i :: 1 <= i < n ==> 0x80 <= s[i] < 0xc0
  }

  /** The first character and its number of bytes, shortest forms only; see section 3 of RFC 3629. */
  function FirstScalar(s: seq<int>): (r: Option<(int, nat)>)
    ensures r.Some? ==> 0 < r.value.1 <= |s|
  {
    if s == [] then None
    else if 0 <= s[0] < 0x80 then Some((s[0], 1))
    else if 0xc2 <= s[0] < 0xe0 && Continues(s, 2) then Some(((s[0] - 0xc0) * 64 + (s[1] - 0x80), 2))
    else if 0xe0 <= s[0] < 0xf0 && Continues(s, 3) && (s[0] > 0xe0 || s[1] >= 0xa0) then
      Some((((s[0] - 0xe0) * 64 + (s[1] - 0x80)) * 64 + (s[2] - 0x80), 3))
    else if 0xf0 <= s[0] < 0xf8 && Continues(s, 4) && (s[0] > 0xf0 || s[1] >= 0x90) then
      Some(((((s[0] - 0xf0) * 64 + (s[1] - 0x80)) * 64 + (s[2] - 0x80)) * 64 + (s[3] - 0x80), 4))
    else None
  }

  function FromUtf8(s: seq<int>): Option<seq<int>>
    decreases |s|
  {
    if s == [] then Some([])
    else
      match FirstScalar(s)
      case None => None
      case Some((c, n)) =>
        match FromUtf8(s[n..])
        case None => None
        case Some(rest) => Some([c] + rest)
  }

  lemma FirstIsScalar(c: Scalar, rest: seq<int>)
    ensures FirstScalar(Utf8Char(c) + rest) == Some((c, |Utf8Char(c)|))
  {
    var s: seq<int> := Utf8Char(c) + rest;
    if c < 0x800 {
    } else if c < 0x1_0000 {
      ThreeBytes(c);
      assert s[0] == 0xe0 + c / 0x1000 && s[1] == 0x80 + c / 0x40 % 0x40 && s[2] == 0x80 + c % 0x40;
    } else {
      FourBytes(c);
      assert s[0] == 0xf0 + c / 0x4_0000 && s[1] == 0x80 + c / 0x1000 % 0x40;
      assert s[2] == 0x80 + c / 0x40 % 0x40 && s[3] == 0x80 + c % 0x40;
    }
  }

  lemma ThreeBytes(c: nat)
    requires 0x800 <= c < 0x1_0000
    ensures (c / 0x1000 * 64 + c / 0x40 % 0x40) * 64 + c % 0x40 == c
    ensures c / 0x1000 < 16 && (c / 0x1000 == 0 ==> c / 0x40 % 0x40 >= 32)
  {
    var high, low := c / 0x40, c % 0x40;
    assert c == high * 0x40 + low;
    assert high / 0x40 == c / 0x1000 && high == high / 0x40 * 0x40 + high % 0x40;
  }

  lemma FourBytes(c: nat)
    requires 0x1_0000 <= c < 0x11_0000
    ensures ((c / 0x4_0000 * 64 + c / 0x1000 % 0x40) * 64 + c / 0x40 % 0x40) * 64 + c % 0x40 == c
    ensures c / 0x4_0000 < 8 && (c / 0x4_0000 == 0 ==> c / 0x1000 % 0x40 >= 16)
  {
    var top, high, low := c / 0x1000, c / 0x40, c % 0x40;
    assert c == high * 0x40 + low;
    assert high / 0x40 == top && high == top * 0x40 + high % 0x40;
    assert top / 0x40 == c / 0x4_0000 && top == top / 0x40 * 0x40 + top % 0x40;
  }

  /** The bytes that a program prints are the text's UTF-8. */
  lemma {:induction false} Utf8IsDecoded(text: seq<Scalar>)
    ensures FromUtf8(Utf8(text)) == Some(text)
    decreases |text|
  {
    if text != [] {
      var first, rest := Utf8Char(text[0]), Utf8(text[1..]);
      FirstIsScalar(text[0], rest);
      Utf8IsDecoded(text[1..]);
      hide Utf8Char, FirstScalar;
      assert (first + rest)[|first|..] == rest;
      assert text == [text[0]] + text[1..];
    }
  }
}
