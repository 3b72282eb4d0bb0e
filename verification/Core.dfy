/**
 src/multiplier.cpp, modules MULT and CORE, clock edge by clock edge.  A state holds the
 registers and the latched operands of the multiplier; wires are functions of it.  Between
 edges all combinational processes have settled; at an edge every register takes a value
 computed from the settled old state.  Reset is inactive and mode is 0, 1 or 2.
 */
module Core {
  import opened Gf2Poly
  import opened BinaryField
  import opened SystolicChain

  const WIDTH: nat := 8

  // ---------- MULT ----------

  /** b and p are the operands as last copied while busy. */
  datatype Mult = Mult(state: nat, counter: nat, w: nat, b: nat, p: nat)

  datatype MultIn = MultIn(start: bool, a: bool, b: nat, p: nat, isMul: bool)

  predicate MultFinish(m: Mult) {
    m.state == 2
  }

  function MultOut(m: Mult): nat {
    if m.state == 1 || m.state == 2 then m.w else 0
  }

  function MultState(m: Mult, inp: MultIn): nat {
    if m.state == 0 then (if inp.start then 1 else 0)
    else if m.state == 1 then (if m.counter == (if inp.isMul then 7 else 1) then 2 else 1)
    else 0
  }

  function MultCounter(m: Mult, inp: MultIn): nat {
    if m.state == 1 then
      (if m.counter == (if inp.isMul then 7 else 1) then 0 else (m.counter + 1) % 256)
    else 0
  }

  /** The registers after an edge, before the operands are copied again. */
  function MultEdge(m: Mult, inp: MultIn, clean: bool): Mult {
    Mult(MultState(m, inp), MultCounter(m, inp), ChainNext(m.w, inp.a, m.b, m.p, inp.isMul, clean, WIDTH), m.b, m.p)
  }

  /** Operands follow the inputs while busy and are held otherwise. */
  function Settle(m: Mult, inp: MultIn): Mult {
    if m.state == 1 then m.(b := inp.b, p := inp.p) else m
  }

  // ---------- CORE ----------

  datatype Core = Core(state: nat, cntA: nat, cntMult: nat, addSecond: bool, c: nat, sqr: nat,
                       clean: bool, newstart: bool, out: nat, finish: bool, mult: Mult)

  datatype Inputs = Inputs(mode: nat, a: nat, b: nat, p: nat)

  predicate GoodInputs(io: Inputs) {
    io.mode <= 2 && Len(io.a) <= WIDTH && Len(io.b) <= WIDTH && Len(io.p) <= WIDTH
  }

  /** Process proc: what the multiplier is given. */
  function Proc(s: Core, io: Inputs, start: bool): MultIn {
    if s.state == 0 then MultIn(start, false, 0, 0, false)
    else if s.state == 1 then
      if io.mode == 0 then MultIn(false, true, if s.addSecond then io.a else io.b, 0, false)
      else if io.mode == 1 then MultIn(false, Bit(io.a, s.cntA), io.b, io.p, true)
      else if s.cntMult == 0 then MultIn(s.newstart, Bit(io.a, s.cntA), io.a, io.p, true)
      else if s.cntMult % 2 == 1 then MultIn(s.newstart, Bit(s.sqr, s.cntA), s.sqr, io.p, true)
      else MultIn(s.newstart, Bit(s.c, s.cntA), s.sqr, io.p, true)
    else MultIn(false, false, 0, 0, false)
  }

  /** Process fsm. */
  function NextState(s: Core, io: Inputs, start: bool): nat {
    var done := MultFinish(s.mult);
    if s.state == 0 then (if start then 1 else 0)
    else if s.state == 1 then
      (if io.mode <= 1 then (if done then 2 else 1) else (if s.cntMult == 12 && done then 2 else 1))
    else 0
  }

  /** Process count, for cnt_a. */
  function NextCntA(s: Core, io: Inputs): nat {
    if s.state != 1 then 7
    else if io.mode <= 1 then (if s.cntA == 0 then 7 else s.cntA - 1)
    else if s.cntA == 0 then (if s.newstart then 7 else 0)
    else s.cntA - 1
  }

  /** Process count, for cnt_mult. */
  function NextCntMult(s: Core, io: Inputs): nat {
    if s.state != 1 then 0
    else if io.mode <= 1 then s.cntMult
    else if s.cntMult == 12 && MultFinish(s.mult) then 0
    else if s.newstart then (s.cntMult + 1) % 256
    else s.cntMult
  }

  datatype Results = Results(clean: bool, c: nat, sqr: nat, out: nat, finish: bool)

  /** Process done. */
  function Done(s: Core, io: Inputs): Results {
    var keep := Results(s.clean, s.c, s.sqr, s.out, s.finish);
    var v := MultOut(s.mult);
    if s.state != 1 then Results(false, 0, 0, 0, false)
    else if io.mode <= 1 then
      (if MultFinish(s.mult) then keep.(clean := true, out := v, finish := true) else keep)
    else if !MultFinish(s.mult) then keep.(clean := false)
    else if s.cntMult == 12 then keep.(clean := true, out := v, finish := true)
    else if s.cntMult == 0 then keep.(clean := true, c := v, sqr := v)
    else if s.cntMult % 2 == 1 then keep.(clean := true, sqr := v)
    else keep.(clean := true, c := v)
  }

  /** The registers after a rising edge. */
  function Registers(s: Core, io: Inputs, start: bool): Core {
    var d := Done(s, io);
    var newstart := s.cntMult != 12 && MultFinish(s.mult);
    Core(NextState(s, io, start), NextCntA(s, io), NextCntMult(s, io), s.state == 1 && !s.addSecond,
         d.c, d.sqr, d.clean, newstart, d.out, d.finish,
         MultEdge(s.mult, Proc(s, io, start), s.clean))
  }

  /** One rising edge of the clock, and the settling of the operands after it. */
  function Edge(s: Core, io: Inputs, start: bool): Core {
    var next := Registers(s, io, start);
    next.(mult := Settle(next.mult, Proc(next, io, false)))
  }

  /** The state after n edges with the inputs held and any start signal. */
  function After(s: Core, io: Inputs, start: nat -> bool, n: nat): Core {
    if n == 0 then s else Edge(After(s, io, start, n - 1), io, start(n - 1))
  }

  /** Idle, with a cleared multiplier. */
  predicate Idle(s: Core) {
    s.state == 0 && s.mult.state == 0 && s.mult.w == 0
  }

  // ---------- Waiting for the start ----------

  /** Without a start an idle core stays idle, its multiplier cleared and finish down. */
  lemma IdleStays(s: Core, io: Inputs)
    requires Idle(s)
    ensures Idle(Edge(s, io, false)) && !Edge(s, io, false).finish && Edge(s, io, false).out == 0
  {
    IdleChain(s.mult, s.clean);
    hide ChainNext, Bit;
  }

  /** In the idle cycle a cleared chain stays cleared. */
  lemma IdleChain(m: Mult, clean: bool)
    requires m.w == 0
    ensures ChainNext(0, false, m.b, m.p, false, clean, WIDTH) == 0
  {
    forall i: nat ensures !Bit(0, i) { BitZero(i); }
    LenZero(0);
    ChainBits(0, false, m.b, m.p, false, clean, WIDTH, 0);
  }

  lemma {:induction false} IdleUntil(s: Core, io: Inputs, start: nat -> bool, w: nat)
    requires Idle(s) && forall i: nat :: i < w ==> !start(i)
    ensures Idle(After(s, io, start, w)) && (w > 0 ==> !After(s, io, start, w).finish)
  {
    hide Edge, Idle;
    if w > 0 {
      IdleUntil(s, io, start, w - 1);
      IdleStays(After(s, io, start, w - 1), io);
    }
  }

  /** The start signal as seen from edge w on. */
  function Later(start: nat -> bool, w: nat): nat -> bool {
    (i: nat) => start(w + i)
  }

  lemma {:induction false} AfterLater(s: Core, io: Inputs, start: nat -> bool, w: nat, n: nat)
    ensures After(s, io, start, w + n) == After(After(s, io, start, w), io, Later(start, w), n)
  {
    hide Edge;
    if n > 0 {
      AfterLater(s, io, start, w, n - 1);
      assert Later(start, w)(n - 1) == start(w + (n - 1));
      assert w + n - 1 == w + (n - 1);
    }
  }

  /** A first start at edge w, seen from there, is a start at edge 0, with finish down before. */
  lemma StartLater(s: Core, io: Inputs, start: nat -> bool, w: nat, n: nat)
    requires Idle(s) && forall i: nat :: i < w ==> !start(i)
    requires forall i: nat :: 1 <= i <= n ==> !After(After(s, io, start, w), io, Later(start, w), i).finish
    ensures forall i: nat :: 1 <= i <= w + n ==> !After(s, io, start, i).finish
  {
    hide After, Idle;
    forall i: nat | 1 <= i <= w + n ensures !After(s, io, start, i).finish {
      if i <= w {
        IdleUntil(s, io, start, i);
      } else {
        AfterLater(s, io, start, w, i - w);
      }
    }
  }

  // ---------- Mode 2: inversion ----------

  /** The multiplier operand read digit by digit in product j. */
  function LeftOperand(io: Inputs, j: nat, c: nat, sqr: nat): nat {
    if j == 0 then io.a else if j % 2 == 1 then sqr else c
  }

  /** The operand latched as a whole in product j. */
  function RightOperand(io: Inputs, j: nat, sqr: nat): nat {
    if j == 0 then io.a else sqr
  }

  /** The reduction polynomial x^8 + p. */
  function Poly(io: Inputs): (f: Modulus)
    requires GoodInputs(io)
  {
    MonicPositive(WIDTH, io.p);
    Monic(WIDTH, io.p)
  }

  /** The registers common to all states of product j. */
  predicate InProduct(s: Core, io: Inputs, j: nat, c: nat, sqr: nat) {
    && s.state == 1 && s.cntMult == j <= 12 && s.c == c && s.sqr == sqr && !s.finish && s.out == 0
    && Len(c) <= WIDTH && Len(sqr) <= WIDTH
  }

  /** i digits of product j have been used. */
  predicate AtStep(s: Core, io: Inputs, j: nat, c: nat, sqr: nat, i: nat)
    requires GoodInputs(io)
  {
    && InProduct(s, io, j, c, sqr) && i <= 7
    && !s.clean && !s.newstart && s.cntA == 7 - i
    && s.mult.state == 1 && s.mult.counter == i
    && s.mult.b == RightOperand(io, j, sqr) && s.mult.p == io.p
    && s.mult.w == Partial(LeftOperand(io, j, c, sqr), RightOperand(io, j, sqr), Poly(io), 8 - i)
  }

  /** Product j stands in the registers. */
  predicate AtProduct(s: Core, io: Inputs, j: nat, c: nat, sqr: nat)
    requires GoodInputs(io)
  {
    && InProduct(s, io, j, c, sqr)
    && !s.clean && !s.newstart && s.cntA == 0
    && s.mult.state == 2 && s.mult.counter == 0
    && s.mult.w == MulMod(LeftOperand(io, j, c, sqr), RightOperand(io, j, sqr), Poly(io))
  }

  /** The result of product j has been stored, and the registers are about to be cleared. */
  predicate AtGap(s: Core, io: Inputs, j: nat, c: nat, sqr: nat) {
    && InProduct(s, io, j, c, sqr)
    && s.clean && s.newstart && s.cntA == 0
    && s.mult.state == 0 && s.mult.counter == 0
  }

  lemma OperandsShort(io: Inputs, j: nat, c: nat, sqr: nat)
    requires GoodInputs(io) && Len(c) <= WIDTH && Len(sqr) <= WIDTH
    ensures Len(LeftOperand(io, j, c, sqr)) <= WIDTH && Len(RightOperand(io, j, sqr)) <= WIDTH
  {
  }

  lemma PartialShort(a: nat, b: nat, p: nat, i: nat)
    requires Len(p) <= 8 && Monic(8, p) > 0
    ensures Len(Partial(a, b, Monic(8, p), i)) <= 8
  {
    RemFold(0, 8, p);
    hide CMul, Xor;
  }

  /** One digit. */
  lemma DigitStep(a: nat, b: nat, p: nat, i: nat, w: nat)
    requires i < 8 && Len(a) <= 8 && Len(b) <= 8 && Len(p) <= 8 && Monic(8, p) > 0
    requires w == Partial(a, b, Monic(8, p), 8 - i)
    ensures ChainNext(w, Bit(a, 7 - i), b, p, true, false, 8) == Partial(a, b, Monic(8, p), 7 - i)
  {
    hide Rem, CMul, Len, Xor, Low, ChainNext, Monic, Partial;
    PartialShort(a, b, p, 8 - i);
    ChainMultiplies(w, Bit(a, 7 - i), b, p, 8);
    PartialNext(a, b, 8, p, 7 - i);
  }

  lemma StepToStep(s: Core, io: Inputs, start: bool, j: nat, c: nat, sqr: nat, i: nat)
    requires GoodInputs(io) && io.mode == 2 && AtStep(s, io, j, c, sqr, i) && i < 7
    ensures AtStep(Edge(s, io, start), io, j, c, sqr, i + 1)
  {
    hide Len, ChainNext, Partial, Monic, Bit;
    OperandsShort(io, j, c, sqr);
    DigitStep(LeftOperand(io, j, c, sqr), RightOperand(io, j, sqr), io.p, i, s.mult.w);
  }

  lemma StepToProduct(s: Core, io: Inputs, start: bool, j: nat, c: nat, sqr: nat)
    requires GoodInputs(io) && io.mode == 2 && AtStep(s, io, j, c, sqr, 7)
    ensures AtProduct(Edge(s, io, start), io, j, c, sqr)
  {
    hide Len, ChainNext, Partial, Monic, Bit, MulMod;
    OperandsShort(io, j, c, sqr);
    var a, b := LeftOperand(io, j, c, sqr), RightOperand(io, j, sqr);
    DigitStep(a, b, io.p, 7, s.mult.w);
    LastPartial(a, b, Poly(io));
  }

  lemma LastPartial(a: nat, b: nat, f: Modulus)
    ensures Partial(a, b, f, 0) == MulMod(a, b, f)
  {
    assert High(a, 0) == a;
  }

  /** What c and sqr become when product j is stored. */
  function NextC(io: Inputs, j: nat, c: nat, v: nat): nat {
    if j % 2 == 1 then c else v
  }

  function NextSqr(io: Inputs, j: nat, sqr: nat, v: nat): nat {
    if j == 0 || j % 2 == 1 then v else sqr
  }

  lemma ProductToGap(s: Core, io: Inputs, start: bool, j: nat, c: nat, sqr: nat)
    requires GoodInputs(io) && io.mode == 2 && AtProduct(s, io, j, c, sqr) && j < 12
    ensures var v := MulMod(LeftOperand(io, j, c, sqr), RightOperand(io, j, sqr), Poly(io));
            AtGap(Edge(s, io, start), io, j, NextC(io, j, c, v), NextSqr(io, j, sqr, v))
  {
    hide Len, ChainNext, Monic, Bit, MulMod;
    ProductShort(LeftOperand(io, j, c, sqr), RightOperand(io, j, sqr), io);
  }

  lemma ProductShort(a: nat, b: nat, io: Inputs)
    requires GoodInputs(io)
    ensures Len(MulMod(a, b, Poly(io))) <= WIDTH
  {
    RemFold(0, WIDTH, io.p);
  }

  lemma GapToStep(s: Core, io: Inputs, start: bool, j: nat, c: nat, sqr: nat)
    requires GoodInputs(io) && io.mode == 2 && AtGap(s, io, j, c, sqr) && j < 12
    ensures AtStep(Edge(s, io, start), io, j + 1, c, sqr, 0)
  {
    hide Len, ChainNext, Monic, Bit, Partial;
    OperandsShort(io, j + 1, c, sqr);
    ChainCleans(s.mult.w, Proc(s, io, start).a, s.mult.b, s.mult.p, true, WIDTH);
    StartPartial(LeftOperand(io, j + 1, c, sqr), RightOperand(io, j + 1, sqr), Poly(io), 8);
  }

  /** finish is up with the result, and the multiplier is about to be cleared. */
  predicate AtEnd(s: Core, v: nat) {
    s.state == 2 && s.finish && s.out == v && s.clean && s.mult.state == 0
  }

  lemma ProductToEnd(s: Core, io: Inputs, start: bool, c: nat, sqr: nat)
    requires GoodInputs(io) && io.mode == 2 && AtProduct(s, io, 12, c, sqr)
    ensures AtEnd(Edge(s, io, start), MulMod(c, sqr, Poly(io)))
  {
    hide Len, ChainNext, Monic, Bit, MulMod;
  }

  lemma EndToIdle(s: Core, io: Inputs, start: bool, v: nat)
    requires AtEnd(s, v)
    ensures Idle(Edge(s, io, start)) && !Edge(s, io, start).finish && Edge(s, io, start).out == 0
  {
    hide ChainNext, Bit;
    ChainCleans(s.mult.w, false, s.mult.b, s.mult.p, false, WIDTH);
  }

  lemma StartInversion(s: Core, io: Inputs)
    requires GoodInputs(io) && io.mode == 2 && Idle(s)
    ensures AtStep(Edge(s, io, true), io, 0, 0, 0, 0)
  {
    IdleChain(s.mult, s.clean);
    LenZero(0);
    hide Len, ChainNext, Monic, Bit, Partial;
    StartPartial(io.a, io.a, Poly(io), 8);
  }

  /** c and sqr during product j >= 1 are a^(2^t - 2) and a^(2^u). */
  ghost function CAt(io: Inputs, j: nat): nat
    requires GoodInputs(io)
  {
    if j == 0 then 0 else InversePower(Poly(io), io.a, (j + 1) / 2 + 1)
  }

  ghost function SqrAt(io: Inputs, j: nat): nat
    requires GoodInputs(io)
  {
    if j == 0 then 0 else SquarePower(Poly(io), io.a, j / 2 + 1)
  }

  /** Storing product j gives the operands of product j + 1. */
  lemma OperandsAdvance(io: Inputs, j: nat)
    requires GoodInputs(io)
    ensures var c, sqr := CAt(io, j), SqrAt(io, j);
            var v := MulMod(LeftOperand(io, j, c, sqr), RightOperand(io, j, sqr), Poly(io));
            NextC(io, j, c, v) == CAt(io, j + 1) && NextSqr(io, j, sqr, v) == SqrAt(io, j + 1)
  {
    hide MulMod, InversePower, SquarePower, Monic;
    var f := Poly(io);
    if j == 0 {
      PolyElem(io);
      InversionStart(f, io.a);
    } else {
      InversionRound(f, io.a, j / 2 + 1);
      InversionRound(f, io.a, (j + 1) / 2 + 1);
      if j % 2 == 1 {
        assert (j + 1) / 2 == j / 2 + 1 && (j + 1 + 1) / 2 == (j + 1) / 2;
      } else {
        assert (j + 1) / 2 == j / 2 && (j + 1 + 1) / 2 == (j + 1) / 2 + 1;
      }
    }
  }

  lemma PolyElem(io: Inputs)
    requires GoodInputs(io)
    ensures Degree(Poly(io)) == 8 && io.a < Pow2(8)
  {
    RemFold(0, WIDTH, io.p);
    LenPow2(io.a, 8);
  }

  /** Edges since the start after which product j has used i digits. */
  function Time(j: nat, i: nat): nat {
    1 + 10 * j + i
  }

  /** Product j is computed from the right operands in the ten edges from Time(j, 0) on. */
  lemma {:induction false} InversionTimeline(s: Core, io: Inputs, start: nat -> bool, j: nat, i: nat)
    requires GoodInputs(io) && io.mode == 2 && Idle(s) && start(0)
    requires j <= 12 && i <= 7
    ensures AtStep(After(s, io, start, Time(j, i)), io, j, CAt(io, j), SqrAt(io, j), i)
    decreases j, i
  {
    hide Edge, AtStep, AtProduct, AtGap, CAt, SqrAt, Idle;
    if i > 0 {
      InversionTimeline(s, io, start, j, i - 1);
      StepToStep(After(s, io, start, Time(j, i - 1)), io, start(Time(j, i - 1)), j, CAt(io, j), SqrAt(io, j), i - 1);
    } else if j > 0 {
      GapTimeline(s, io, start, j - 1);
      GapToStep(After(s, io, start, Time(j, 0) - 1), io, start(Time(j, 0) - 1), j - 1, CAt(io, j), SqrAt(io, j));
    } else {
      StartInversion(s, io);
      assert CAt(io, 0) == 0 && SqrAt(io, 0) == 0 by { AtZero(io); }
      assert After(s, io, start, 0) == s;
    }
  }

  lemma AtZero(io: Inputs)
    requires GoodInputs(io)
    ensures CAt(io, 0) == 0 && SqrAt(io, 0) == 0
  {
  }

  lemma {:induction false} ProductTimeline(s: Core, io: Inputs, start: nat -> bool, j: nat)
    requires GoodInputs(io) && io.mode == 2 && Idle(s) && start(0) && j <= 12
    ensures AtProduct(After(s, io, start, Time(j, 8)), io, j, CAt(io, j), SqrAt(io, j))
    decreases j, 8
  {
    hide Edge, AtStep, AtProduct, AtGap, CAt, SqrAt, Idle;
    InversionTimeline(s, io, start, j, 7);
    StepToProduct(After(s, io, start, Time(j, 7)), io, start(Time(j, 7)), j, CAt(io, j), SqrAt(io, j));
  }

  lemma {:induction false} GapTimeline(s: Core, io: Inputs, start: nat -> bool, j: nat)
    requires GoodInputs(io) && io.mode == 2 && Idle(s) && start(0) && j < 12
    ensures AtGap(After(s, io, start, Time(j, 9)), io, j, CAt(io, j + 1), SqrAt(io, j + 1))
    decreases j, 9
  {
    hide Edge, AtStep, AtProduct, AtGap, CAt, SqrAt, Idle, MulMod;
    ProductTimeline(s, io, start, j);
    OperandsAdvance(io, j);
    ProductToGap(After(s, io, start, Time(j, 8)), io, start(Time(j, 8)), j, CAt(io, j), SqrAt(io, j));
  }

  /** finish stays down for the first 129 edges. */
  lemma NotYet(s: Core, io: Inputs, start: nat -> bool, n: nat)
    requires GoodInputs(io) && io.mode == 2 && Idle(s) && start(0) && 1 <= n <= 129
    ensures !After(s, io, start, n).finish
  {
    hide After;
    var j, i := (n - 1) / 10, (n - 1) % 10;
    assert n == Time(j, i) && j <= 12;
    if i <= 7 {
      InversionTimeline(s, io, start, j, i);
    } else if i == 8 {
      ProductTimeline(s, io, start, j);
    } else {
      GapTimeline(s, io, start, j);
    }
  }

  /** An inversion started at once. */
  lemma InversionFromStart(s: Core, io: Inputs, start: nat -> bool)
    requires GoodInputs(io) && io.mode == 2 && Idle(s) && start(0)
    ensures AtEnd(After(s, io, start, 130), Inverse(io.a, Poly(io)))
    ensures forall n: nat :: 1 <= n <= 129 ==> !After(s, io, start, n).finish
    ensures Idle(After(s, io, start, 131)) && !After(s, io, start, 131).finish && After(s, io, start, 131).out == 0
  {
    hide Edge, AtStep, AtProduct, AtGap, AtEnd, CAt, SqrAt, Idle, MulMod, Inverse;
    ProductTimeline(s, io, start, 12);
    ProductToEnd(After(s, io, start, 129), io, start(129), CAt(io, 12), SqrAt(io, 12));
    LastOperands(io);
    EndToIdle(After(s, io, start, 130), io, start(130), Inverse(io.a, Poly(io)));
    forall n: nat | 1 <= n <= 129 ensures !After(s, io, start, n).finish {
      NotYet(s, io, start, n);
    }
  }

  /**
   From idle, however long the start is in coming: finish comes up exactly 130 edges after it,
   with a^254 modulo x^8 + p on the output, and the core is idle with a cleared multiplier one
   edge later.
   */
  lemma InversionRun(s: Core, io: Inputs, start: nat -> bool, w: nat)
    requires GoodInputs(io) && io.mode == 2 && Idle(s)
    requires start(w) && forall i: nat :: i < w ==> !start(i)
    ensures forall n: nat :: 1 <= n <= w + 129 ==> !After(s, io, start, n).finish
    ensures After(s, io, start, w + 130).finish && After(s, io, start, w + 130).out == Inverse(io.a, Poly(io))
    ensures Idle(After(s, io, start, w + 131)) && !After(s, io, start, w + 131).finish
    ensures After(s, io, start, w + 131).out == 0
  {
    hide Edge, MulMod, Inverse, Xor, After, Idle;
    IdleUntil(s, io, start, w);
    var u, later := After(s, io, start, w), Later(start, w);
    InversionFromStart(u, io, later);
    StartLater(s, io, start, w, 129);
    AfterLater(s, io, start, w, 130);
    AfterLater(s, io, start, w, 131);
  }

  lemma LastOperands(io: Inputs)
    requires GoodInputs(io)
    ensures MulMod(CAt(io, 12), SqrAt(io, 12), Poly(io)) == Inverse(io.a, Poly(io))
  {
    hide MulMod, InversePower, SquarePower, Inverse;
    PolyElem(io);
    InversionRound(Poly(io), io.a, 7);
    InversionEnd(Poly(io), io.a);
  }

  // ---------- Mode 1: one product ----------

  predicate MulStep(s: Core, io: Inputs, i: nat)
    requires GoodInputs(io)
  {
    && s.state == 1 && !s.finish && s.out == 0 && !s.clean && s.cntA == 7 - i && i <= 7
    && s.mult.state == 1 && s.mult.counter == i && s.mult.b == io.b && s.mult.p == io.p
    && s.mult.w == Partial(io.a, io.b, Poly(io), 8 - i)
  }

  lemma {:induction false} MulTimeline(s: Core, io: Inputs, start: nat -> bool, i: nat)
    requires GoodInputs(io) && io.mode == 1 && Idle(s) && start(0) && i <= 7
    ensures MulStep(After(s, io, start, i + 1), io, i)
  {
    hide Len, ChainNext, Monic, Bit, Partial;
    if i == 0 {
      IdleChain(s.mult, s.clean);
      assert Len(0) <= 8 by { LowZero(8); }
      StartPartial(io.a, io.b, Poly(io), 8);
      assert After(s, io, start, 0) == s;
    } else {
      MulTimeline(s, io, start, i - 1);
      DigitStep(io.a, io.b, io.p, i - 1, After(s, io, start, i).mult.w);
    }
  }

  /** The product stands in the registers and has not been sampled yet. */
  predicate MulDone(s: Core, io: Inputs, v: nat) {
    s.state == 1 && !s.finish && !s.clean && s.mult.state == 2 && s.mult.w == v
  }

  lemma MulLast(s: Core, io: Inputs, start: bool)
    requires GoodInputs(io) && io.mode == 1 && MulStep(s, io, 7)
    ensures MulDone(Edge(s, io, start), io, MulMod(io.a, io.b, Poly(io)))
  {
    hide Len, ChainNext, Monic, Bit, Partial, MulMod;
    DigitStep(io.a, io.b, io.p, 7, s.mult.w);
    LastPartial(io.a, io.b, Poly(io));
  }

  lemma DoneToEnd(s: Core, io: Inputs, start: bool, v: nat)
    requires io.mode <= 1 && MulDone(s, io, v)
    ensures AtEnd(Edge(s, io, start), v)
  {
    hide ChainNext, Bit;
  }

  /** What MULT is doing n edges after a product is started: busy for eight cycles, then finishing for one. */
  function MultPhase(n: nat): nat {
    if n == 0 || n >= 10 then 0 else if n <= 8 then 1 else 2
  }

  /** A product started at once. */
  lemma MultiplicationFromStart(s: Core, io: Inputs, start: nat -> bool)
    requires GoodInputs(io) && io.mode == 1 && Idle(s) && start(0)
    ensures AtEnd(After(s, io, start, 10), MulMod(io.a, io.b, Poly(io)))
    ensures forall n: nat :: 1 <= n <= 9 ==> !After(s, io, start, n).finish
    ensures forall n: nat :: n <= 11 ==> After(s, io, start, n).mult.state == MultPhase(n)
    ensures Idle(After(s, io, start, 11)) && !After(s, io, start, 11).finish && After(s, io, start, 11).out == 0
    ensures After(s, io, start, 9).mult.w == MulMod(io.a, io.b, Poly(io))
  {
    hide Edge, MulMod;
    assert After(s, io, start, 0) == s;
    var v := MulMod(io.a, io.b, Poly(io));
    MulTimeline(s, io, start, 7);
    MulLast(After(s, io, start, 8), io, start(8));
    DoneToEnd(After(s, io, start, 9), io, start(9), v);
    EndToIdle(After(s, io, start, 10), io, start(10), v);
    forall n: nat | 1 <= n <= 9 ensures !After(s, io, start, n).finish {
      if n <= 8 { MulTimeline(s, io, start, n - 1); }
    }
    forall n: nat | n <= 11 ensures After(s, io, start, n).mult.state == MultPhase(n) {
      if 1 <= n <= 8 { MulTimeline(s, io, start, n - 1); }
    }
  }

  /**
   A product takes ten edges from its start, MULT being busy for eight of them and showing the
   product at the ninth; then the core is idle with a cleared multiplier.
   */
  lemma MultiplicationRun(s: Core, io: Inputs, start: nat -> bool, w: nat)
    requires GoodInputs(io) && io.mode == 1 && Idle(s)
    requires start(w) && forall i: nat :: i < w ==> !start(i)
    ensures forall n: nat :: 1 <= n <= w + 9 ==> !After(s, io, start, n).finish
    ensures After(s, io, start, w + 10).finish && After(s, io, start, w + 10).out == MulMod(io.a, io.b, Poly(io))
    ensures Idle(After(s, io, start, w + 11)) && !After(s, io, start, w + 11).finish
    ensures After(s, io, start, w + 11).out == 0
    ensures forall n: nat :: n <= 11 ==> After(s, io, start, w + n).mult.state == MultPhase(n)
    ensures MultFinish(After(s, io, start, w + 9).mult)
    ensures MultOut(After(s, io, start, w + 9).mult) == MulMod(io.a, io.b, Poly(io))
    ensures forall n: nat :: n <= w || n == w + 10 || n == w + 11 ==> MultOut(After(s, io, start, n).mult) == 0
  {
    hide Edge, MulMod, Inverse, Xor, After, Idle;
    IdleUntil(s, io, start, w);
    var u, later := After(s, io, start, w), Later(start, w);
    MultiplicationFromStart(u, io, later);
    StartLater(s, io, start, w, 9);
    AfterLater(s, io, start, w, 10);
    AfterLater(s, io, start, w, 11);
    AfterLater(s, io, start, w, 9);
    forall n: nat | n <= 11 ensures After(s, io, start, w + n).mult.state == MultPhase(n) {
      AfterLater(s, io, start, w, n);
    }
    forall n: nat | n <= w || n == w + 10 || n == w + 11 ensures MultOut(After(s, io, start, n).mult) == 0 {
      if n <= w { IdleUntil(s, io, start, n); IdleShowsNothing(After(s, io, start, n)); } else { assert MultPhase(n - w) == 0; }
    }
  }

  lemma IdleShowsNothing(s: Core)
    requires Idle(s)
    ensures MultOut(s.mult) == 0
  {
  }

  // ---------- Mode 0: one sum ----------

  predicate SumStep(s: Core, io: Inputs, second: bool) {
    && s.state == 1 && !s.finish && !s.clean && s.addSecond == second
    && s.mult.state == 1 && s.mult.counter == (if second then 1 else 0)
    && s.mult.b == (if second then io.a else io.b) && s.mult.w == if second then io.b else 0
  }

  lemma SumStart(s: Core, io: Inputs)
    requires GoodInputs(io) && io.mode == 0 && Idle(s)
    ensures SumStep(Edge(s, io, true), io, false)
  {
    IdleChain(s.mult, s.clean);
    hide ChainNext, Bit;
  }

  lemma SumSecond(s: Core, io: Inputs, start: bool)
    requires GoodInputs(io) && io.mode == 0 && SumStep(s, io, false)
    ensures SumStep(Edge(s, io, start), io, true)
  {
    LowZero(WIDTH);
    hide ChainNext, Bit, Len, Xor;
    ChainAdds(0, true, io.b, s.mult.p, WIDTH);
    assert Xor(0, io.b) == io.b by { XorIntoZero(io.b); }
  }

  lemma XorIntoZero(a: nat)
    ensures Xor(0, a) == a
  {
  }

  lemma SumDone(s: Core, io: Inputs, start: bool)
    requires GoodInputs(io) && io.mode == 0 && SumStep(s, io, true)
    ensures MulDone(Edge(s, io, start), io, Xor(io.b, io.a))
  {
    hide ChainNext, Bit, Len, Xor;
    ChainAdds(io.b, true, io.a, s.mult.p, WIDTH);
  }

  /** A sum started at once. */
  lemma AdditionFromStart(s: Core, io: Inputs, start: nat -> bool)
    requires GoodInputs(io) && io.mode == 0 && Idle(s) && start(0)
    ensures AtEnd(After(s, io, start, 4), Xor(io.a, io.b))
    ensures forall n: nat :: 1 <= n <= 3 ==> !After(s, io, start, n).finish
    ensures Idle(After(s, io, start, 5)) && !After(s, io, start, 5).finish && After(s, io, start, 5).out == 0
  {
    hide Edge, AtEnd, Xor, Idle;
    SumStart(s, io);
    assert After(s, io, start, 0) == s;
    SumSecond(After(s, io, start, 1), io, start(1));
    SumDone(After(s, io, start, 2), io, start(2));
    XorComm(io.a, io.b);
    DoneToEnd(After(s, io, start, 3), io, start(3), Xor(io.b, io.a));
    EndToIdle(After(s, io, start, 4), io, start(4), Xor(io.b, io.a));
    forall n: nat | 1 <= n <= 3 ensures !After(s, io, start, n).finish {
      assert n == 1 || n == 2 || n == 3;
    }
  }

  /**
   A sum takes four edges from its start and leaves the core idle with a cleared multiplier.
   */
  lemma AdditionRun(s: Core, io: Inputs, start: nat -> bool, w: nat)
    requires GoodInputs(io) && io.mode == 0 && Idle(s)
    requires start(w) && forall i: nat :: i < w ==> !start(i)
    ensures forall n: nat :: 1 <= n <= w + 3 ==> !After(s, io, start, n).finish
    ensures After(s, io, start, w + 4).finish && After(s, io, start, w + 4).out == Xor(io.a, io.b)
    ensures Idle(After(s, io, start, w + 5)) && !After(s, io, start, w + 5).finish
    ensures After(s, io, start, w + 5).out == 0
  {
    hide Edge, MulMod, Inverse, Xor, After, Idle;
    IdleUntil(s, io, start, w);
    var u, later := After(s, io, start, w), Later(start, w);
    AdditionFromStart(u, io, later);
    StartLater(s, io, start, w, 3);
    AfterLater(s, io, start, w, 4);
    AfterLater(s, io, start, w, 5);
  }

  // ---------- The module with its signals ----------

  /** The eight wires that carry a word. */
  function Wires(v: nat): (s: seq<bool>)
    ensures |s| == WIDTH
  {
    seq(WIDTH, i => i >= 0 && Bit(v, i))
  }

  lemma WiresValue(v: nat)
    requires Len(v) <= WIDTH
    ensures FromBits(Wires(v)) == v
  {
    HoldsValue(Wires(v), v);
  }

  /** CORE with its MULT: each process computes next values, and the edge stores them all at once. */
  class CoreModule {
    var cntA: nat
    var cntMult: nat
    var c: nat
    var sqr: nat
    var addInput2nd: bool
    var multClean: bool
    var newstart: bool
    var state: nat
    var out: nat
    var finish: bool
    var multState: nat
    var counter: nat
    var b: seq<bool>
    var p: seq<bool>
    const pes: PeChain

    ghost predicate Valid()
      reads this, pes
    {
      pes.w4.Length == WIDTH && |b| == |p| == WIDTH && Len(c) <= WIDTH && Len(sqr) <= WIDTH
    }

    function Snapshot(): Core
      reads this, pes, pes.w4
    {
      Core(state, cntA, cntMult, addInput2nd, c, sqr, multClean, newstart, out, finish,
           Mult(multState, counter, FromBits(pes.w4[..]), FromBits(b), FromBits(p)))
    }

    /** The registers after reset. */
    constructor ()
      ensures Valid() && Idle(Snapshot()) && !Snapshot().finish && Snapshot().out == 0
      ensures fresh(pes) && fresh(pes.w4)
    {
      cntA, cntMult, c, sqr, addInput2nd, multClean, newstart := 7, 0, 0, 0, false, true, false;
      state, out, finish, multState, counter := 0, 0, false, 0, 0;
      b, p := Wires(0), Wires(0);
      pes := new PeChain(WIDTH);
      new;
      LowZero(WIDTH);
    }

    method DoneProcess(io: Inputs, multFinish: bool, multOut: nat) returns (d: Results)
      requires io.mode <= 2 && multFinish == MultFinish(Snapshot().mult) && multOut == MultOut(Snapshot().mult)
      ensures d == Done(Snapshot(), io)
      ensures Len(c) <= WIDTH && Len(sqr) <= WIDTH && Len(multOut) <= WIDTH && Len(0) <= WIDTH ==>
                Len(d.c) <= WIDTH && Len(d.sqr) <= WIDTH
    {
      hide Len, FromBits;
      d := Results(multClean, c, sqr, out, finish);
      if state == 1 {
        if io.mode == 0 || io.mode == 1 {
          if multFinish {
            d := d.(clean := true, out := multOut, finish := true);
          }
        } else {
          if cntMult == 12 && multFinish {
            d := d.(clean := true, out := multOut, finish := true);
          } else if cntMult == 0 && multFinish {
            d := d.(clean := true, c := multOut, sqr := multOut);
          } else if cntMult % 2 == 1 && multFinish {
            d := d.(clean := true, sqr := multOut);
          } else if multFinish {
            d := d.(clean := true, c := multOut);
          } else {
            d := d.(clean := false);
          }
        }
      } else {
        d := Results(false, 0, 0, 0, false);
      }
    }

    method CountProcess(io: Inputs, multFinish: bool) returns (second': bool, cntA': nat, cntMult': nat)
      requires io.mode <= 2 && multFinish == MultFinish(Snapshot().mult)
      ensures second' == (state == 1 && !addInput2nd)
      ensures cntA' == NextCntA(Snapshot(), io)
      ensures cntMult' == NextCntMult(Snapshot(), io)
    {
      second', cntA', cntMult' := false, 7, 0;
      if state == 1 {
        second', cntA', cntMult' := !addInput2nd, cntA, cntMult;
        if io.mode == 0 || io.mode == 1 {
          cntA' := if cntA == 0 then 7 else cntA - 1;
        } else {
          if cntA == 0 {
            if newstart { cntA' := 7; }
          } else {
            cntA' := cntA - 1;
          }
          if cntMult == 12 && multFinish {
            cntMult' := 0;
          } else if newstart {
            cntMult' := (cntMult + 1) % 256;
          }
        }
      }
    }

    method FsmProcess(io: Inputs, start: bool, multFinish: bool) returns (state': nat)
      requires io.mode <= 2 && multFinish == MultFinish(Snapshot().mult)
      ensures state' == NextState(Snapshot(), io, start)
    {
      state' := state;
      if state == 0 {
        state' := if start then 1 else 0;
      } else if state == 1 {
        if io.mode == 0 || io.mode == 1 {
          if multFinish { state' := 2; }
        } else if cntMult == 12 && multFinish {
          state' := 2;
        }
      } else {
        state' := 0;
      }
    }

    /** The state and the counter of MULT. */
    method ClockState(inp: MultIn)
      modifies this`multState, this`counter
      ensures multState == MultState(old(Snapshot().mult), inp) && counter == MultCounter(old(Snapshot().mult), inp)
    {
      hide FromBits;
      if multState == 0 {
        multState, counter := if inp.start then 1 else 0, 0;
      } else if multState == 1 {
        if counter == (if inp.isMul then 7 else 1) {
          multState, counter := 2, 0;
        } else {
          counter := (counter + 1) % 256;
        }
      } else {
        multState, counter := 0, 0;
      }
    }

    /** The clocked processes of MULT and the chain of elements. */
    method ClockMultiplier(inp: MultIn)
      requires Valid()
      modifies this`multState, this`counter, pes.w4
      ensures Valid()
      ensures Snapshot() == old(Snapshot()).(mult := MultEdge(old(Snapshot()).mult, inp, multClean))
    {
      hide Bit, FromBits, Len, ChainNext, MultState, MultCounter;
      ClockState(inp);
      pes.Clock(inp.a, b, p, inp.isMul, multClean);
    }

    /** The writes of the clocked processes of CORE take effect. */
    method Store(state': nat, cntA': nat, cntMult': nat, second': bool, d: Results, newstart': bool)
      requires Valid() && Len(d.c) <= WIDTH && Len(d.sqr) <= WIDTH
      modifies this
      ensures Valid()
      ensures Snapshot() == Core(state', cntA', cntMult', second', d.c, d.sqr, d.clean, newstart', d.out, d.finish,
                                 old(Snapshot()).mult)
    {
      hide Len, FromBits;
      ghost var w := pes.w4[..];
      state, cntA, cntMult, addInput2nd, newstart := state', cntA', cntMult', second', newstart';
      c, sqr, multClean, out, finish := d.c, d.sqr, d.clean, d.out, d.finish;
      assert pes.w4[..] == w;
    }

    /** All clocked processes, reading the old signals. */
    method ClockRegisters(start: bool, io: Inputs)
      requires Valid() && GoodInputs(io)
      modifies this, pes.w4
      ensures Valid() && Snapshot() == Registers(old(Snapshot()), io, start)
    {
      hide Bit, FromBits, Len, ChainNext, NextState, NextCntA, NextCntMult, Done, Proc, MultEdge;
      WordShort(pes.w4[..]);
      LowZero(WIDTH);
      var multFinish := multState == 2;
      var multOut := if multState == 1 || multState == 2 then FromBits(pes.w4[..]) else 0;
      var inp := Proc(Snapshot(), io, start);
      var state' := FsmProcess(io, start, multFinish);
      var second', cntA', cntMult' := CountProcess(io, multFinish);
      var d := DoneProcess(io, multFinish, multOut);
      var newstart' := if cntMult == 12 then false else multFinish;
      ClockMultiplier(inp);
      Store(state', cntA', cntMult', second', d, newstart');
    }

    /** The multiplier's process calc: operands are copied while it is busy. */
    method CopyOperands(io: Inputs)
      requires Valid() && GoodInputs(io)
      modifies this
      ensures Valid() && Snapshot() == old(Snapshot()).(mult := Settle(old(Snapshot()).mult, Proc(old(Snapshot()), io, false)))
      ensures multState != 1 ==> b == old(b) && p == old(p)
      ensures multState == 1 ==>
                var operands := Proc(old(Snapshot()), io, false); FromBits(b) == operands.b && FromBits(p) == operands.p
    {
      LowZero(WIDTH);
      hide Bit, FromBits, Len, Wires;
      if multState == 1 {
        var operands := Proc(Snapshot(), io, false);
        WiresValue(operands.b);
        WiresValue(operands.p);
        b, p := Wires(operands.b), Wires(operands.p);
      }
    }

    /** A rising edge with the given inputs. */
    method PosEdge(start: bool, io: Inputs)
      requires Valid() && GoodInputs(io)
      modifies this, pes.w4
      ensures Valid() && Snapshot() == Edge(old(Snapshot()), io, start)
    {
      ClockRegisters(start, io);
      CopyOperands(io);
    }
  }

  lemma WordShort(s: seq<bool>)
    ensures Len(FromBits(s)) <= |s|
  {
    LenFromBits(s);
  }
}
