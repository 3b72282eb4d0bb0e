/**
 src/multiplier.cpp, module SCALAR_MULT: the sequencer around the point adder and the point
 doubler.  These two are taken as units that deliver the group operation on the points they
 are given after some number of clock edges; their finish signal is an arbitrary input that
 keeps coming up.  Reset is inactive.
 */
module ScalarMult {
  import opened Gf2Poly
  import opened Field
  import opened Curve
  import opened Multiples

  /** cnt is a signed 8-bit register. */
  datatype Sequencer = Sequencer(state: nat, cnt: int, A: Point, R: Point, out: Point, finish: bool)

  /** A value below 256 stored in 8 signed bits. */
  function Signed(n: nat): int {
    if n < 128 then n else n - 256
  }

  /** Bit 1 of the register, in two's complement. */
  predicate BitOneSet(cnt: int) {
    (cnt / 2) % 2 == 1
  }

  predicate Last(cnt: int) {
    cnt == 1 || cnt == 2
  }

  /** Process fsm. */
  function NextState(s: Sequencer, n: nat, start: bool, fin: bool): nat {
    if s.state == 0 then (if !start then 0 else if n % 2 == 1 then 1 else 2)
    else if s.state == 1 then (if fin then 2 else 1)
    else if s.state == 2 then
      (if Last(s.cnt) && fin then 3 else if BitOneSet(s.cnt) && fin then 1 else 2)
    else 0
  }

  /** Process count. */
  function NextCnt(s: Sequencer, n: nat, start: bool, fin: bool): int {
    if s.state == 0 then (if start then Signed(n) else 0)
    else if s.state == 1 then s.cnt
    else if s.state == 2 then (if Last(s.cnt) && fin then 0 else if fin then s.cnt / 2 else s.cnt)
    else 0
  }

  /** One rising edge; fin is the finish signal of the unit that is running. */
  function Edge(E: Curve, P: Point, s: Sequencer, n: nat, start: bool, fin: bool): Sequencer {
    var ending := s.state == 2 && Last(s.cnt) && fin;
    Sequencer(
      NextState(s, n, start, fin), NextCnt(s, n, start, fin),
      if s.state == 0 then P else if s.state == 2 && fin then Add(E, s.A, s.A) else if s.state <= 2 then s.A else Infinity,
      if s.state == 0 then Infinity else if s.state == 1 && fin then Add(E, s.R, s.A) else if s.state <= 2 then s.R else Infinity,
      if ending then s.R else Infinity,
      ending)
  }

  /** What is on the input ports at each edge, and whether the running unit has finished. */
  datatype Inputs = Inputs(n: nat -> nat, P: nat -> Point, start: nat -> bool, fin: nat -> bool)

  /** The state after k edges. */
  function After(E: Curve, s: Sequencer, io: Inputs, k: nat): Sequencer {
    if k == 0 then s
    else Edge(E, io.P(k - 1), After(E, s, io, k - 1), io.n(k - 1), io.start(k - 1), io.fin(k - 1))
  }

  /** Every operation finishes sooner or later. */
  ghost predicate Fair(fin: nat -> bool) {
    forall k: nat {:trigger fin(k)} :: exists j: nat :: j >= k && fin(j)
  }

  // ---------- Which multiple is collected ----------

  /** The leading digit of n is not lost: it is the only one, or the next one is set too. */
  predicate KeepsLeading(n: nat)
    requires n > 0
  {
    Len(n) == 1 || (Len(n) > 1 && Bit(n, Len(n) - 2))
  }

  /** The multiple of P in R when the run ends: the leading digit is lost unless the next one is set too. */
  function Collected(n: nat): nat
    requires n > 0
  {
    if KeepsLeading(n) then n else Low(n, Len(n) - 1)
  }

  /** Doubling 2^i P; digits 0 to i of n have been collected in R. */
  ghost predicate Doubling(E: Curve, P: Point, s: Sequencer, n: nat, i: nat) {
    && s.state == 2 && !s.finish && s.out == Infinity && s.cnt == High(n, i) && High(n, i) > 0
    && (s.cnt == 1 ==> i == 0 || Bit(n, i - 1))
    && s.A == Times(E, P, Pow2(i)) && s.R == Times(E, P, Low(n, i + 1))
  }

  /** Adding 2^i P, where digit i of n is set and digits 0 to i - 1 are in R. */
  ghost predicate Adding(E: Curve, P: Point, s: Sequencer, n: nat, i: nat) {
    && s.state == 1 && !s.finish && s.out == Infinity && s.cnt == High(n, i) && Bit(n, i)
    && (s.cnt == 1 ==> i == 0 || Bit(n, i - 1))
    && s.A == Times(E, P, Pow2(i)) && s.R == Times(E, P, Low(n, i))
  }

  /** While a unit is running, n, P and start are not looked at. */
  lemma InputsIgnored(E: Curve, P: Point, P': Point, s: Sequencer, n: nat, n': nat, start: bool, fin: bool)
    requires s.state == 1 || s.state == 2
    ensures Edge(E, P, s, n, start, fin) == Edge(E, P', s, n', false, fin)
  {
  }

  /** While the running unit has not finished nothing changes. */
  lemma {:induction false} Waiting(E: Curve, s: Sequencer, io: Inputs, k: nat, m: nat)
    requires k <= m && forall j: nat :: k <= j < m ==> !io.fin(j)
    requires var t := After(E, s, io, k); (t.state == 1 || t.state == 2) && !t.finish && t.out == Infinity
    ensures forall j: nat {:trigger After(E, s, io, j)} :: k <= j <= m ==> After(E, s, io, j) == After(E, s, io, k)
  {
    hide Add;
    if k < m {
      Waiting(E, s, io, k, m - 1);
      assert After(E, s, io, m) == Edge(E, io.P(m - 1), After(E, s, io, m - 1), io.n(m - 1), io.start(m - 1), io.fin(m - 1));
    }
  }

  lemma FirstFinish(fin: nat -> bool, k: nat) returns (m: nat)
    requires Fair(fin)
    ensures m >= k && fin(m) && forall j: nat :: k <= j < m ==> !fin(j)
  {
    assert fin(k) || !fin(k);
    var far: nat :| far >= k && fin(far);
    hide Fair;
    m := FirstBefore(fin, k, far);
  }

  lemma {:induction false} FirstBefore(fin: nat -> bool, k: nat, far: nat) returns (m: nat)
    requires k <= far && fin(far)
    ensures m >= k && fin(m) && forall j: nat :: k <= j < m ==> !fin(j)
    decreases far - k
  {
    if fin(k) { m := k; } else { m := FirstBefore(fin, k + 1, far); }
  }

  lemma DigitFacts(n: nat, i: nat)
    ensures High(n, i + 1) == High(n, i) / 2
    ensures Bit(n, i) <==> High(n, i) % 2 == 1
    ensures Low(n, i + 1) == Low(n, i) + if Bit(n, i) then Pow2(i) else 0
  {
    LowHighNext(n, i);
    BitHigh(n, i, 0);
  }

  /** A finished addition. */
  lemma AddingEnds(E: Curve, P: Point, s: Sequencer, n: nat, i: nat)
    requires Additive(E, P) && Adding(E, P, s, n, i)
    ensures Doubling(E, P, Edge(E, P, s, n, false, true), n, i)
  {
    hide Add, Times, Additive, High, Low, Bit, Pow2;
    DigitFacts(n, i);
    AddTimes(E, P, Low(n, i), Pow2(i));
  }

  /** A finished doubling that is not the last. */
  lemma DoublingEnds(E: Curve, P: Point, s: Sequencer, n: nat, i: nat)
    requires Additive(E, P) && Doubling(E, P, s, n, i) && !Last(s.cnt)
    ensures var t := Edge(E, P, s, n, false, true);
            if Bit(n, i + 1) then Adding(E, P, t, n, i + 1) else Doubling(E, P, t, n, i + 1)
  {
    hide Add, Times, Additive, High, Low, Bit, Pow2;
    DigitFacts(n, i);
    DigitFacts(n, i + 1);
    AddTimes(E, P, Pow2(i), Pow2(i));
    DoublePow2(i);
    assert s.cnt >= 3 && s.cnt / 2 > 0;
  }

  lemma ShortLengths()
    ensures Len(1) == 1 && Len(2) == 2
  {
  }

  /** What is in R at the last doubling. */
  lemma LastDigit(n: nat, i: nat)
    requires n > 0 && Last(High(n, i)) && (High(n, i) == 1 ==> i == 0 || Bit(n, i - 1))
    ensures Low(n, i + 1) == Collected(n)
  {
    hide Low, High, Bit, Len;
    ShortLengths();
    LenHigh(n, i);
    DigitFacts(n, i);
    LowHighSum(n, i + 1);
    if High(n, i) == 2 {
      assert Len(n) == i + 2;
    } else {
      assert Len(n) == i + 1 && Low(n, i + 1) == n;
      if i == 0 { LowHighSum(n, 0); LowNothing(n); }
    }
  }

  lemma LowNothing(n: nat)
    ensures High(n, 0) == n
  {
  }

  // ---------- Whole runs ----------

  /** After edge k finish comes up for the first time at edge t, with v on the output. */
  ghost predicate EndsWith(E: Curve, s: Sequencer, io: Inputs, k: nat, t: nat, v: Point) {
    && t > k && After(E, s, io, t).finish && After(E, s, io, t).out == v && After(E, s, io, t).state == 3
    && forall j: nat {:trigger After(E, s, io, j)} :: k <= j < t ==> !After(E, s, io, j).finish
  }

  /** From a running unit to the edge at which it has finished. */
  lemma NextEvent(E: Curve, P: Point, s: Sequencer, n: nat, io: Inputs, k: nat) returns (m: nat)
    requires Fair(io.fin)
    requires var u := After(E, s, io, k); (u.state == 1 || u.state == 2) && !u.finish && u.out == Infinity
    ensures m > k && After(E, s, io, m) == Edge(E, P, After(E, s, io, k), n, false, true)
    ensures forall j: nat {:trigger After(E, s, io, j)} :: k <= j < m ==> !After(E, s, io, j).finish
  {
    hide Add, Edge, Fair;
    var f := FirstFinish(io.fin, k);
    Waiting(E, s, io, k, f);
    m := f + 1;
    InputsIgnored(E, io.P(f), P, After(E, s, io, f), io.n(f), n, io.start(f), true);
    assert After(E, s, io, m) == Edge(E, io.P(f), After(E, s, io, f), io.n(f), io.start(f), io.fin(f));
  }

  lemma {:induction false} FromDoubling(E: Curve, P: Point, s: Sequencer, n: nat, io: Inputs, k: nat, i: nat) returns (t: nat)
    requires Additive(E, P) && Fair(io.fin) && n > 0
    requires Doubling(E, P, After(E, s, io, k), n, i)
    ensures EndsWith(E, s, io, k, t, Times(E, P, Collected(n)))
    decreases High(n, i), 0
  {
    hide Add, Times, Additive, High, Low, Bit, Pow2, Collected, After;
    var u := After(E, s, io, k);
    var m := NextEvent(E, P, s, n, io, k);
    if Last(u.cnt) {
      LastDigit(n, i);
      t := m;
    } else {
      DoublingEnds(E, P, u, n, i);
      DigitFacts(n, i);
      if Bit(n, i + 1) {
        t := FromAdding(E, P, s, n, io, m, i + 1);
      } else {
        t := FromDoubling(E, P, s, n, io, m, i + 1);
      }
    }
  }

  lemma {:induction false} FromAdding(E: Curve, P: Point, s: Sequencer, n: nat, io: Inputs, k: nat, i: nat) returns (t: nat)
    requires Additive(E, P) && Fair(io.fin) && n > 0
    requires Adding(E, P, After(E, s, io, k), n, i)
    ensures EndsWith(E, s, io, k, t, Times(E, P, Collected(n)))
    decreases High(n, i), 1
  {
    hide Add, Times, Additive, High, Low, Bit, Pow2, Collected, After;
    var m := NextEvent(E, P, s, n, io, k);
    AddingEnds(E, P, After(E, s, io, k), n, i);
    t := FromDoubling(E, P, s, n, io, m, i);
  }

  lemma StartFacts(E: Curve, P: Point, n: nat)
    ensures High(n, 0) == n && Low(n, 0) == 0 && Low(n, 1) == n % 2 && Bit(n, 0) == (n % 2 == 1)
    ensures Times(E, P, 0) == Infinity && Times(E, P, Pow2(0)) == P
  {
    TimesOne(E, P);
    assert Low(n, 1) == 2 * Low(n / 2, 0) + n % 2;
  }

  /** An edge without a start leaves the sequencer idle, with finish down. */
  lemma IdleStays(E: Curve, P: Point, s: Sequencer, n: nat, fin: bool)
    requires s.state == 0
    ensures Edge(E, P, s, n, false, fin).state == 0 && !Edge(E, P, s, n, false, fin).finish
  {
    hide Add;
  }

  /** One edge after finish the sequencer is idle again and finish is down, whatever start says. */
  lemma BackToIdle(E: Curve, P: Point, s: Sequencer, n: nat, start: bool, fin: bool)
    requires s.state == 3
    ensures Edge(E, P, s, n, start, fin).state == 0 && !Edge(E, P, s, n, start, fin).finish
  {
    hide Add;
  }

  /** Between an idle state at edge k and the first start at edge w nothing happens. */
  lemma {:induction false} IdleUntil(E: Curve, s: Sequencer, io: Inputs, k: nat, w: nat)
    requires k <= w && After(E, s, io, k).state == 0 && forall j: nat :: k <= j < w ==> !io.start(j)
    ensures After(E, s, io, w).state == 0 && (k < w ==> !After(E, s, io, w).finish)
    decreases w - k
  {
    hide Add, Edge;
    if k < w {
      IdleUntil(E, s, io, k, w - 1);
      IdleStays(E, io.P(w - 1), After(E, s, io, w - 1), io.n(w - 1), io.fin(w - 1));
      assert !io.start(w - 1);
    }
  }

  lemma Started(E: Curve, P: Point, s: Sequencer, n: nat, fin: bool)
    requires s.state == 0 && 1 <= n < 128
    ensures var u := Edge(E, P, s, n, true, fin); if n % 2 == 1 then Adding(E, P, u, n, 0) else Doubling(E, P, u, n, 0)
  {
    hide Add, Times, High, Low, Bit, Pow2;
    StartFacts(E, P, n);
  }

  /**
   Every start with 1 <= n < 128 in an idle state ends, with the collected multiple of the
   point that was on the port at the start, whatever is on the ports afterwards; one edge
   later the sequencer is idle again with finish down.
   */
  lemma SequencerEnds(E: Curve, s: Sequencer, io: Inputs, w: nat) returns (t: nat)
    requires Additive(E, io.P(w)) && Fair(io.fin)
    requires After(E, s, io, w).state == 0 && io.start(w) && 1 <= io.n(w) < 128
    ensures EndsWith(E, s, io, w + 1, t, Times(E, io.P(w), Collected(io.n(w))))
    ensures After(E, s, io, t + 1).state == 0 && !After(E, s, io, t + 1).finish
  {
    hide Add, Times, Additive, Collected, Edge, Doubling, Adding, After, EndsWith, Fair;
    var n, P := io.n(w), io.P(w);
    AfterNext(E, s, io, w);
    Started(E, P, After(E, s, io, w), n, io.fin(w));
    if n % 2 == 1 {
      t := FromAdding(E, P, s, n, io, w + 1, 0);
    } else {
      t := FromDoubling(E, P, s, n, io, w + 1, 0);
    }
    EndsIdle(E, s, io, w + 1, t, Times(E, P, Collected(n)));
  }

  lemma AfterNext(E: Curve, s: Sequencer, io: Inputs, k: nat)
    ensures After(E, s, io, k + 1) == Edge(E, io.P(k), After(E, s, io, k), io.n(k), io.start(k), io.fin(k))
  {
  }

  lemma EndsIdle(E: Curve, s: Sequencer, io: Inputs, k: nat, t: nat, v: Point)
    requires EndsWith(E, s, io, k, t, v)
    ensures After(E, s, io, t + 1).state == 0 && !After(E, s, io, t + 1).finish
  {
    hide Edge;
    AfterNext(E, s, io, t);
    BackToIdle(E, io.P(t), After(E, s, io, t), io.n(t), io.start(t), io.fin(t));
  }

  /** A service: idle at k, the next start at w, finish at t. */
  ghost predicate Serves(E: Curve, s: Sequencer, io: Inputs, k: nat, w: nat, t: nat) {
    && k <= w < t && io.start(w) && io.n(w) > 0
    && After(E, s, io, t).finish && After(E, s, io, t).out == Times(E, io.P(w), Collected(io.n(w)))
    && (forall j: nat {:trigger After(E, s, io, j)} :: k < j < t ==> !After(E, s, io, j).finish)
    && After(E, s, io, t + 1).state == 0 && !After(E, s, io, t + 1).finish
  }

  lemma ServesNext(E: Curve, s: Sequencer, io: Inputs, k: nat, w: nat) returns (t: nat)
    requires k <= w && After(E, s, io, k).state == 0 && forall j: nat :: k <= j < w ==> !io.start(j)
    requires Additive(E, io.P(w)) && Fair(io.fin) && io.start(w) && 1 <= io.n(w) < 128
    ensures Serves(E, s, io, k, w, t)
  {
    hide Add, Times, Additive, Collected, After, Fair;
    IdleUntil(E, s, io, k, w);
    t := SequencerEnds(E, s, io, w);
    forall j: nat | k < j < t ensures !After(E, s, io, j).finish {
      if j <= w { IdleUntil(E, s, io, k, j); }
    }
  }

  /** Scalars with which every run ends, starts that keep coming, and points the law is associative on. */
  ghost predicate GoodService(E: Curve, io: Inputs) {
    && Fair(io.fin) && Fair(io.start)
    && forall j: nat {:trigger io.start(j)} :: io.start(j) ==> 1 <= io.n(j) < 128 && Additive(E, io.P(j))
  }

  /** Each service begins where the one before has ended. */
  ghost predicate Services(E: Curve, s: Sequencer, io: Inputs, k: nat, ws: seq<nat>, ts: seq<nat>)
    requires |ws| == |ts|
    decreases |ws|
  {
    ws == [] || (Serves(E, s, io, k, ws[0], ts[0]) && Services(E, s, io, ts[0] + 1, ws[1..], ts[1..]))
  }

  /** Run after run is served, as many as one asks for. */
  lemma {:induction false} ServesForEver(E: Curve, s: Sequencer, io: Inputs, k: nat, count: nat) returns (ws: seq<nat>, ts: seq<nat>)
    requires GoodService(E, io) && After(E, s, io, k).state == 0
    ensures |ws| == |ts| == count && Services(E, s, io, k, ws, ts)
    decreases count
  {
    hide Serves, GoodService, After;
    ws, ts := [], [];
    if count > 0 {
      var w, t := OneService(E, s, io, k);
      var ws', ts' := ServesForEver(E, s, io, t + 1, count - 1);
      ws, ts := [w] + ws', [t] + ts';
      assert ws[1..] == ws' && ts[1..] == ts';
    }
  }

  lemma OneService(E: Curve, s: Sequencer, io: Inputs, k: nat) returns (w: nat, t: nat)
    requires GoodService(E, io) && After(E, s, io, k).state == 0
    ensures Serves(E, s, io, k, w, t) && After(E, s, io, t + 1).state == 0
  {
    hide After, Fair, Additive, Serves;
    w := FirstFinish(io.start, k);
    t := ServesNext(E, s, io, k, w);
    ServesIdle(E, s, io, k, w, t);
  }

  lemma ServesIdle(E: Curve, s: Sequencer, io: Inputs, k: nat, w: nat, t: nat)
    requires Serves(E, s, io, k, w, t)
    ensures After(E, s, io, t + 1).state == 0
  {
  }

  /** With n = 0 or n >= 128 the counter never reaches 1 or 2. */
  lemma {:induction false} NeverEnds(E: Curve, s: Sequencer, io: Inputs, w: nat, k: nat)
    requires After(E, s, io, w).state == 0 && io.start(w) && (io.n(w) == 0 || 128 <= io.n(w) < 256) && k > w
    ensures var u := After(E, s, io, k); (u.state == 1 || u.state == 2) && u.cnt <= 0 && !u.finish
    decreases k
  {
    hide Add;
    if k > w + 1 { NeverEnds(E, s, io, w, k - 1); }
  }

  /** A run ends exactly for 1 <= n < 128. */
  lemma EndsExactly(E: Curve, s: Sequencer, io: Inputs, w: nat)
    requires Additive(E, io.P(w)) && Fair(io.fin) && After(E, s, io, w).state == 0 && io.start(w) && io.n(w) < 256
    ensures (exists k: nat :: k > w && After(E, s, io, k).finish) <==> 1 <= io.n(w) < 128
  {
    hide Add, Times, Additive, After, Fair;
    if 1 <= io.n(w) < 128 {
      var t := SequencerEnds(E, s, io, w);
      EndIsFinish(E, s, io, w, t, Times(E, io.P(w), Collected(io.n(w))));
    } else {
      forall k: nat | k > w ensures !After(E, s, io, k).finish { NeverEnds(E, s, io, w, k); }
    }
  }

  lemma EndIsFinish(E: Curve, s: Sequencer, io: Inputs, w: nat, t: nat, v: Point)
    requires EndsWith(E, s, io, w + 1, t, v)
    ensures exists k: nat :: k > w && After(E, s, io, k).finish
  {
    assert t > w && After(E, s, io, t).finish;
  }

  lemma LeftInfinity(E: Curve, W: Point)
    ensures Add(E, Infinity, W) == W
  {
  }

  /** A self-opposite multiple rP cannot absorb a finite wP. */
  lemma NotAbsorbed(E: Curve, P: Point, r: nat, w: nat)
    requires Additive(E, P) && Times(E, P, w).Affine?
    requires var X := Times(E, P, r); Add(E, X, X) == Infinity
    ensures Add(E, Times(E, P, r), Times(E, P, w)) != Times(E, P, r)
  {
    hide Times, Additive, Add;
    var X, W := Times(E, P, r), Times(E, P, w);
    assert r + r + w == r + (r + w);
    assert Add(E, Infinity, W) == W by { LeftInfinity(E, W); }
    AddTimes(E, P, r, w);
    AddTimes(E, P, r, r);
    AddTimes(E, P, r + r, w);
    AddTimes(E, P, r, r + w);
  }

  /** Adding a multiple changes nothing exactly when that multiple is infinite. */
  lemma AddsNothing(E: Curve, P: Point, r: nat, w: nat)
    requires IsCurve(E) && OnCurve(E, P) && Additive(E, P)
    ensures Times(E, P, r + w) == Times(E, P, r) <==> Times(E, P, w) == Infinity
  {
    hide Times, Additive, Equation, IsField;
    var X, W := Times(E, P, r), Times(E, P, w);
    TimesOnCurve(E, P, r);
    TimesOnCurve(E, P, w);
    AddTimes(E, P, r, w);
    if X.Affine? && W.Affine? && Add(E, X, W) == X {
      AddInfinite(E, X, W);
      var l, m := FiniteSum(E, X, W);
      SumAboveSummand(E, l, m, X, W);
      AddInfinite(E, X, X);
      NotAbsorbed(E, P, r, w);
    }
  }

  /**
   The sequencer delivers nP, as the loop of ecc.cpp means to, exactly when its leading digit
   is kept or stands for an infinite multiple.
   */
  lemma CollectedExact(E: Curve, P: Point, n: nat)
    requires IsCurve(E) && OnCurve(E, P) && Additive(E, P) && n > 0
    ensures Times(E, P, Collected(n)) == Times(E, P, n)
       <==> KeepsLeading(n) || Times(E, P, Pow2(Len(n) - 1)) == Infinity
  {
    hide Times, Additive, IsCurve, OnCurve, Low, High, Bit, Len, Pow2;
    LenZero(n);
    var i := Len(n) - 1;
    LowHighSum(n, i);
    LenHigh(n, i);
    SmallLen(High(n, i));
    LenZero(High(n, i));
    assert High(n, i) == 1;
    AddsNothing(E, P, Low(n, i), Pow2(i));
  }

  // ---------- The module with its signals ----------

  /** SCALAR_MULT: on an edge all processes read the old signals. */
  class SequencerModule {
    var state: nat
    var cnt: int
    var A: Point
    var R: Point
    var Po: Point
    var finish: bool

    function Snapshot(): Sequencer
      reads this
    {
      Sequencer(state, cnt, A, R, Po, finish)
    }

    constructor ()
      ensures Snapshot().state == 0 && !Snapshot().finish
    {
      state, cnt, A, R, Po, finish := 0, 0, Infinity, Infinity, Infinity, false;
    }

    /** A rising edge; paOut and pdOut are what the adder and the doubler show. */
    method PosEdge(n: nat, P: Point, start: bool, paFinish: bool, paOut: Point, pdFinish: bool, pdOut: Point, ghost E: Curve)
      requires n < 256
      requires state == 1 && paFinish ==> paOut == Add(E, R, A)
      requires state == 2 && pdFinish ==> pdOut == Add(E, A, A)
      modifies this
      ensures Snapshot() == Edge(E, P, old(Snapshot()), n, start, if old(state) == 1 then paFinish else pdFinish)
    {
      hide Add;
      Po, finish := Infinity, false;
      if state == 0 {
        A, R := P, Infinity;
        if start {
          state, cnt := if n % 2 == 1 then 1 else 2, if n < 128 then n else n - 256;
        } else {
          cnt := 0;
        }
      } else if state == 1 {
        if paFinish {
          state, R := 2, paOut;
        }
      } else if state == 2 {
        if (cnt == 1 || cnt == 2) && pdFinish {
          Po, finish := R, true;
          state, cnt, A := 3, 0, pdOut;
        } else if pdFinish {
          if (cnt / 2) % 2 == 1 { state := 1; }
          cnt, A := cnt / 2, pdOut;
        }
      } else {
        state, cnt, A, R := 0, 0, Infinity, Infinity;
      }
    }
  }
}
