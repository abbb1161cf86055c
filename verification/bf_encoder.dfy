/**
 * The encoders of bf.py. The floating-point arithmetic of the planner is exact
 * on its small operands and is written here on integers: `CeilSqrt` for
 * `ceil(sqrt(n))`, `RoundSqrt` for `floor(sqrt(x) + 0.5)` at half-integers `x`,
 * `Increment` for `floor(t / l + 0.5)`.
 */
module BfEncoder {
  import opened BfMachine
  import opened Wrappers

  /** No UTF-8 byte is larger. */
  const MAX_CODE: nat := 0xf4

  type Code = x: int | 0 <= x <= MAX_CODE

  type Scalar = x: int | 0 <= x < 0xd800 || 0xe000 <= x < 0x11_0000

  function Utf8Char(c: Scalar): (r: seq<Code>)
    ensures c < 0x80 ==> r == [c]
  {
    if c < 0x80 then [c]
    else if c < 0x800 then [0xc0 + c / 0x40, 0x80 + c % 0x40]
    else if c < 0x1_0000 then [0xe0 + c / 0x1000, 0x80 + c / 0x40 % 0x40, 0x80 + c % 0x40]
    else [0xf0 + c / 0x4_0000, 0x80 + c / 0x1000 % 0x40, 0x80 + c / 0x40 % 0x40, 0x80 + c % 0x40]
  }

  function Utf8(text: seq<Scalar>): seq<Code> {
    if text == [] then [] else Utf8Char(text[0]) + Utf8(text[1..])
  }

  function Abs(x: int): nat {
    if x < 0 then -x else x
  }

  // ---- Planning cells

  /** The least `k` from `from` on with `k * k >= n`. */
  function CeilSqrt(n: nat, from: nat): (k: nat)
    ensures k * k >= n && (k > from ==> (k - 1) * (k - 1) < n)
    decreases n - from * from
  {
    if from * from >= n then from else CeilSqrt(n, from + 1)
  }

  /** `targets` are the cells to initialise, `values` what they are assumed to hold. */
  datatype Plan = Plan(targets: seq<Code>, values: seq<Code>, pos: nat)

  /** The cheapest of the first `n` cells to reuse for `tc`, if cheaper than a fresh count. */
  function Reusable(values: seq<Code>, pos: nat, tc: Code, n: nat): (r: (nat, Option<nat>))
    requires n <= |values|
    ensures r.1.Some? ==> r.1.value < n
  {
    if n == 0 then (tc, None)
    else
      var before := Reusable(values, pos, tc, n - 1);
      var cost := Abs(values[n - 1] - tc) + Abs(n - 1 - pos);
      if cost < before.0 then (cost, Some(n - 1)) else before
  }

  function CostOfNew(tc: Code): nat {
    if tc == 0 then 0 else if CeilSqrt(tc, 0) + 1 < tc then CeilSqrt(tc, 0) + 1 else tc
  }

  predicate ValidPlan(plan: Plan) {
    |plan.values| == |plan.targets|
  }

  function PlanCode(plan: Plan, tc: Code): (next: Plan)
    requires ValidPlan(plan)
    ensures ValidPlan(next) && next.targets != []
  {
    var (cost, index) := Reusable(plan.values, plan.pos, tc, |plan.values|);
    if index.None? || cost >= CostOfNew(tc) then
      Plan(plan.targets + [tc], plan.values + [tc], |plan.targets|)
    else
      Plan(plan.targets, plan.values[index.value := tc], index.value)
  }

  function PlanCodes(codes: seq<Code>): (plan: Plan)
    ensures ValidPlan(plan)
    ensures codes == [] <==> plan.targets == []
  {
    if codes == [] then Plan([], [], 0)
    else PlanCode(PlanCodes(codes[..|codes| - 1]), codes[|codes| - 1])
  }

  // ---- The loop factor

  function Insert(s: seq<Code>, x: Code): (r: seq<Code>)
    ensures |r| == |s| + 1
  {
    if s == [] then [x] else if x <= s[0] then [x] + s else [s[0]] + Insert(s[1..], x)
  }

  /** `sorted(s)` */
  function Sorted(s: seq<Code>): (r: seq<Code>)
    ensures |r| == |s|
  {
    if s == [] then [] else Insert(Sorted(s[1..]), s[0])
  }

  /** Twice the median. */
  function TwiceMedian(s: seq<Code>): (m: nat)
    requires s != []
    ensures m <= 2 * MAX_CODE
  {
    var sorted, n := Sorted(s), |s|;
    if n % 2 == 1 then 2 * (sorted[n / 2] as int) else (sorted[n / 2 - 1] as int) + sorted[n / 2]
  }

  /** The `k` from `from` on with `k - 1/2 <= sqrt(twice / 2) < k + 1/2`. */
  function RoundSqrt(twice: nat, from: nat): (k: nat)
    requires from == 0 || (2 * from - 1) * (2 * from - 1) <= 2 * twice
    ensures 2 * twice < (2 * k + 1) * (2 * k + 1)
    ensures k == 0 || (2 * k - 1) * (2 * k - 1) <= 2 * twice
    decreases 2 * twice - from
  {
    if 2 * twice < (2 * from + 1) * (2 * from + 1) then from else RoundSqrt(twice, from + 1)
  }

  function LoopFactor(targets: seq<Code>): (l: nat)
    ensures 1 <= l
  {
    if targets == [] || TwiceMedian(targets) == 0 then 1
    else
      var k := RoundSqrt(TwiceMedian(targets), 0);
      if k < 1 then 1 else k
  }

  function Increment(target: Code, l: nat): nat
    requires l >= 1
  {
    (2 * target + l) / (2 * l)
  }

  function Increments(targets: seq<Code>, l: nat): (inits: seq<nat>)
    requires l >= 1
    ensures |inits| == |targets|
  {
    seq(|targets|, i requires 0 <= i < |targets| => Increment(targets[i], l))
  }

  /** What the initialisation loop leaves in the cells. */
  function Products(inits: seq<nat>, l: nat): (values: seq<nat>)
    ensures |values| == |inits|
  {
    seq(|inits|, i requires 0 <= i < |inits| => inits[i] * l)
  }

  // ---- Code

  function InitCode(inits: seq<nat>): string {
    if inits == [] then "" else ">" + Repeat('+', inits[0]) + InitCode(inits[1..])
  }

  /** The cheapest of the first `n` cells to print `tc` from; the first among equals. */
  function Cheapest(values: seq<nat>, ptr: nat, tc: Code, n: nat): (best: nat)
    requires n <= |values|
    ensures n > 0 ==> best < n
  {
    if n <= 1 then 0
    else
      var best := Cheapest(values, ptr, tc, n - 1);
      if PrintCost(values, ptr, tc, n - 1) < PrintCost(values, ptr, tc, best) then n - 1 else best
  }

  function PrintCost(values: seq<nat>, ptr: nat, tc: Code, i: nat): nat
    requires i < |values|
  {
    Abs(values[i] - tc) + Abs(i - ptr)
  }

  function MoveCode(from: nat, to: nat): string {
    if from > to then Repeat('<', from - to) else Repeat('>', to - from)
  }

  function AdjustCode(from: nat, to: nat): string {
    if from > to then Repeat('-', from - to) else Repeat('+', to - from)
  }

  function PrintCode(values: seq<nat>, ptr: nat, tc: Code): string
    requires values != []
  {
    var best := Cheapest(values, ptr, tc, |values|);
    MoveCode(ptr, best) + AdjustCode(values[best], tc) + "."
  }

  function PrintAll(codes: seq<Code>, values: seq<nat>, ptr: nat): string
    requires codes != [] ==> values != []
  {
    if codes == [] then ""
    else
      var best := Cheapest(values, ptr, codes[0], |values|);
      PrintCode(values, ptr, codes[0]) + PrintAll(codes[1..], values[best := codes[0]], best)
  }

  function LoopBody(inits: seq<nat>): string {
    InitCode(inits) + Repeat('<', |inits|) + "-"
  }

  function Normal(codes: seq<Code>): string {
    var targets := PlanCodes(codes).targets;
    var l := LoopFactor(targets);
    var inits := Increments(targets, l);
    Repeat('+', l) + "[" + LoopBody(inits) + "]" + (if inits != [] then ">" else "")
    + PrintAll(codes, Products(inits, l), 0)
  }

  // ---- The encoder as it runs

  method PlanTargets(codes: seq<Code>) returns (targets: seq<Code>)
    ensures targets == PlanCodes(codes).targets
  {
    targets := [];
    var values: seq<Code>, pos: nat := [], 0;
    assert codes[..0] == [];
    for k := 0 to |codes|
      invariant Plan(targets, values, pos) == PlanCodes(codes[..k])
    {
      var tc := codes[k];
      var reuse, cost: nat := -1, tc;
      for i := 0 to |values|
        invariant Reusable(values, pos, tc, i) == (cost, if reuse < 0 then None else Some(reuse))
        invariant -1 <= reuse < i
      {
        var c := Abs(values[i] as int - tc) + Abs(i - pos);
        if c < cost {
          cost, reuse := c, i;
        }
      }
      assert codes[..k + 1][..k] == codes[..k];
      if reuse == -1 || cost >= CostOfNew(tc) {
        pos := |targets|;
        targets := targets + [tc];
        values := values + [tc];
      } else {
        pos := reuse;
        values := values[pos := tc];
      }
    }
    assert codes[..|codes|] == codes;
  }

  method EncodeInit(inits: seq<nat>) returns (bf: string)
    ensures bf == InitCode(inits)
  {
    bf := "";
    assert inits[0..] == inits;
    for k := 0 to |inits|
      invariant InitCode(inits) == bf + InitCode(inits[k..])
    {
      assert inits[k..][1..] == inits[k + 1..];
      ghost var before, rest := bf, InitCode(inits[k + 1..]);
      bf := bf + ">" + Repeat('+', inits[k]);
      assert before + (">" + Repeat('+', inits[k]) + rest) == bf + rest;
    }
  }

  method CheapestCell(values: seq<nat>, ptr: nat, tc: Code) returns (best: nat)
    ensures best == Cheapest(values, ptr, tc, |values|)
  {
    best := 0;
    for i := 0 to |values|
      invariant best == Cheapest(values, ptr, tc, i)
      invariant i > 0 ==> best < i
    {
      if i == 0 || PrintCost(values, ptr, tc, i) < PrintCost(values, ptr, tc, best) {
        best := i;
      }
    }
  }

  lemma ConcatAssociates(a: string, b: string, c: string)
    ensures a + (b + c) == a + b + c
  {}

  /** The code for the codes from `k` on begins with the code for code `k`. */
  lemma PrintAllStep(codes: seq<Code>, k: nat, values: seq<nat>, ptr: nat)
    requires k < |codes| && values != []
    ensures var best := Cheapest(values, ptr, codes[k], |values|);
            PrintAll(codes[k..], values, ptr)
            == PrintCode(values, ptr, codes[k]) + PrintAll(codes[k + 1..], values[best := codes[k]], best)
  {
    assert codes[k..][1..] == codes[k + 1..];
  }

  /** The print loop; `values` follows the cells. */
  method EncodePrints(codes: seq<Code>, cells: seq<nat>) returns (bf: string)
    requires codes != [] ==> cells != []
    ensures bf == PrintAll(codes, cells, 0)
  {
    bf := "";
    var values: seq<nat>, ptr: nat := cells, 0;
    assert codes[0..] == codes;
    for k := 0 to |codes|
      invariant |values| == |cells|
      invariant PrintAll(codes, cells, 0) == bf + PrintAll(codes[k..], values, ptr)
    {
      PrintAllStep(codes, k, values, ptr);
      hide Cheapest, MoveCode, AdjustCode, PrintAll;
      var tc := codes[k];
      var best := CheapestCell(values, ptr, tc);
      ConcatAssociates(bf, PrintCode(values, ptr, tc), PrintAll(codes[k + 1..], values[best := tc], best));
      bf := bf + (MoveCode(ptr, best) + AdjustCode(values[best], tc) + ".");
      ptr := best;
      values := values[ptr := tc];
    }
  }

  /** How often each cell is incremented per round, and what it holds afterwards. */
  method PlanInits(targets: seq<Code>, l: nat) returns (inits: seq<nat>, values: seq<nat>)
    requires l >= 1
    ensures inits == Increments(targets, l) && values == Products(inits, l)
  {
    inits, values := [], [];
    for k := 0 to |targets|
      invariant inits == Increments(targets[..k], l) && values == Products(inits, l)
    {
      inits := inits + [Increment(targets[k], l)];
      values := values + [Increment(targets[k], l) * l];
    }
    assert targets[..|targets|] == targets;
  }

  method EncodeNormal(codes: seq<Code>) returns (bf: string)
    ensures bf == Normal(codes)
  {
    hide PlanCodes, LoopFactor, Increments, Products, InitCode, PrintAll;
    var targets := PlanTargets(codes);
    var l := LoopFactor(targets);
    var inits, values := PlanInits(targets, l);
    var init := EncodeInit(inits);
    bf := Repeat('+', l) + "[" + (init + Repeat('<', |inits|) + "-") + "]";
    if inits != [] {
      bf := bf + ">";
    }
    var prints := EncodePrints(codes, values);
    bf := bf + prints;
  }

  // ---- The simple encoder: one cell, differences only

  function SimpleFrom(codes: seq<nat>, prev: nat): string {
    if codes == [] then "" else AdjustCode(prev, codes[0]) + "." + SimpleFrom(codes[1..], codes[0])
  }

  lemma SimpleStep(codes: seq<nat>, k: nat, prev: nat)
    requires k < |codes|
    ensures SimpleFrom(codes[k..], prev) == AdjustCode(prev, codes[k]) + "." + SimpleFrom(codes[k + 1..], codes[k])
  {
    assert codes[k..][1..] == codes[k + 1..];
  }

  method EncodeSimple(codes: seq<nat>) returns (bf: string)
    ensures bf == SimpleFrom(codes, 0)
  {
    bf := "";
    var prev := 0;
    assert codes[0..] == codes;
    for k := 0 to |codes|
      invariant SimpleFrom(codes, 0) == bf + SimpleFrom(codes[k..], prev)
    {
      SimpleStep(codes, k, prev);
      hide SimpleFrom, Repeat, AdjustCode;
      ConcatAssociates(bf, AdjustCode(prev, codes[k]) + ".", SimpleFrom(codes[k + 1..], codes[k]));
      AdjustIs(prev, codes[k]);
      var diff := codes[k] as int - prev;
      var adjust := if diff > 0 then Repeat('+', diff) else Repeat('-', -diff);
      bf := bf + (adjust + ".");
      prev := codes[k];
    }
  }

  lemma AdjustIs(from: nat, to: nat)
    ensures AdjustCode(from, to) == if to > from then Repeat('+', to - from) else Repeat('-', from - to)
  {
    assert Repeat('-', 0) == Repeat('+', 0);
  }
}
