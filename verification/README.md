# Verified model of the elliptic-curve codesign repository

The repository computes scalar multiples of points on binary elliptic curves
(y^2 + xy = x^3 + ax^2 + b over GF(2^m)) in four ways: a bit-serial C++ program, a Python
simulation of a parallel datapath, a projective Montgomery ladder in the same script, and a clocked
SystemC design.  It also carries a SystemC distribution, from which the RSA example and the
`sc_fifo` channel are modelled.

One specification stands behind the first four.  `Gf2Poly` defines GF(2)[x] on bit masks, with the
carry-less product and a remainder that is proved to be the only one.  `BinaryField` makes the
residues modulo f a ring and, exactly when f is irreducible, a field.  `Curve` has the affine group
law of section 2.2.2 of SEC 1 over any field of characteristic 2.  Every implementation is proved
against these:

| module | models |
|---|---|
| `EccCpp`, `RawPoint` | src/sw_sim/ecc.cpp on arrays, and its points with leftover coordinates |
| `Reduction`, `SimulationPy`, `SimulationCurve` | src/sw_sim/simulation.py: reduction networks, Karatsuba, Itoh-Tsujii, points |
| `LadderAlgebra`, `Ladder` | the projective ladder of simulation.py |
| `SystolicChain`, `Core`, `ScalarMult` | src/multiplier.cpp, edge by edge: PE, MULT, CORE and the sequencer of SCALAR_MULT |
| `Modular`, `StrongTest`, `Rsa` | the RSA example |
| `ScFifo` | the FIFO channel with its update phase |
| `Gf2Poly`, `Fermat`, `Field`, `BinaryField`, `Curve`, `Multiples` | the mathematics they share |

`dafny verify dfyconfig.toml` checks the project.

## Premises

* Irreducibility of the modulus is a premise wherever an inverse must invert
  (`BinaryField.InverseIffIrreducible` shows that it cannot be dropped).  No polynomial of the
  repository is proved irreducible.
* That sums of multiples of P add up, iP + jP = (i + j)P, is the premise `Additive(E, P)` wherever
  long runs are compared with kP.  Everything else about the group law (closure, commutativity,
  inverses, (P + Q) - P = Q for secants) is proved.
* The ladder needs b different from 0, which is what makes the curve non-singular.
* `new bool[bitnum]` at src/sw_sim/ecc.cpp:42 is taken as zero-initialised, as its comment says.
* The primes of the RSA round trip are distinct; `rsa()` itself does not check this.

## Where the code differs from what it is for

These are theorems here, each with the exact condition:

* The loop of ecc.cpp loses the point when R meets a doubled point at infinity whose leftover
  coordinates match: `RawPoint.RawScalarExact`, with the example n = 3 for a point of order two in
  `RawPoint.LosesPointExample`.
* SCALAR_MULT stops when cnt is 2 as well as when it is 1, so it loses the leading digit of n unless
  the next digit is set: `ScalarMult.CollectedExact`.  It ends exactly for 1 <= n < 128, because cnt
  is signed: `ScalarMult.EndsExactly`.
* The ladder never returns infinity: where kP is infinite it returns (0, y), and one step before that
  it returns P instead of its negative: `Ladder.LadderExact`, `Ladder.LadderTotal`.  For k = 0 it
  behaves as for k = 1: `SimulationCurve.ScalarMultipleProjective`.
* The trinomial network is right exactly for widths from 11 on: `Reduction.TrinomialExact`.
* `miller_rabin` rejects the prime 2: `Rsa.AcceptsPrimes`.
* The inversion of the script exists for two fields only: it raises for every width other than 163
  and 167, and at 167 unless the polynomial argument is 6: `SimulationPy.InverseItoh`.

## Model

| member | source | states |
|---|---|---|
| `Gf2Poly.DivisionUnique` | src/sw_sim/ecc.cpp:41-58 | whatever quotient and remainder of a short remainder describe a, they are the ones defined: the reference for every reduction in the repository |
| `Gf2Poly.DelayedReduction` | src/sw_sim/ecc.cpp:44-55 | shifting in place and adding p when the flag of the lost digit is set is one reduction step modulo x^m + p |
| `Gf2Poly.PartialNext` | src/sw_sim/ecc.cpp:44-55 | one loop round takes the remainder for the digits read so far to that for one digit more, for every width and every p |
| `EccCpp.Addition` | src/sw_sim/ecc.cpp:33-39 | a fresh array with the sum of two polynomials |
| `EccCpp.ShiftUp` | src/sw_sim/ecc.cpp:52-55 | the in-place loop doubles the polynomial and drops the digit that was on top |
| `EccCpp.Multiplication` | src/sw_sim/ecc.cpp:41-58 | for every width, a, b and p: the remainder of the carry-less product by x^m + p, inputs unchanged |
| `BinaryField.MulModAssoc` | src/sw_sim/ecc.cpp:41-58 | the product of the program is associative for every modulus |
| `BinaryField.QuotientIsField` | src/sw_sim/ecc.cpp:32-68 | for an irreducible modulus, sum, product and inverse of the program make a field of characteristic 2 |
| `Fermat.FermatTheorem` | src/sw_sim/ecc.cpp:60-68 | the power of a non-zero element that the inversion rests on is one, in every finite commutative monoid with cancellation |
| `BinaryField.InversionRound` | src/sw_sim/ecc.cpp:63-66 | one loop round: a^(2^i) is squared, and a^(2^i - 2) becomes a^(2^(i+1) - 2) |
| `EccCpp.InverseOf` | src/sw_sim/ecc.cpp:60-68 | the loop returns a^(2^m - 2) |
| `BinaryField.InverseWorks` | src/sw_sim/ecc.cpp:60-68 | a times that power is 1 for a other than 0 and an irreducible modulus |
| `BinaryField.InverseIffIrreducible` | src/sw_sim/ecc.cpp:60-68 | the inversion works for all non-zero elements if and only if the modulus is irreducible |
| `EccCpp.Equal` | src/sw_sim/ecc.cpp:71-84 | true if and only if both records mean the same point, all infinite ones being the same |
| `EccCpp.PointNegation` | src/sw_sim/ecc.cpp:86-91 | (x, x + y), never flagged infinite |
| `EccCpp.PointDoubling` | src/sw_sim/ecc.cpp:93-109 | the double by the tangent, or P flagged infinite |
| `EccCpp.PointAddition` | src/sw_sim/ecc.cpp:111-138 | the sum with the program's case order, leftover coordinates included |
| `EccCpp.ScalarMultiplication` | src/sw_sim/ecc.cpp:140-154 | for an irreducible modulus and a point of the curve the loop returns nP if and only if the point is not lost |
| `RawPoint.RawDoubleCorrect` | src/sw_sim/ecc.cpp:93-109 | doubling is the group law on the curve, and a double at infinity keeps the coordinates |
| `RawPoint.RawEqualExact` | src/sw_sim/ecc.cpp:71-84 | the comparison decides equality of the points meant, leftover coordinates aside |
| `RawPoint.RawAddExact` | src/sw_sim/ecc.cpp:111-138 | addition is the group law if and only if P is not the negative of the leftover coordinates of an infinite Q; an infinite sum keeps the coordinates of P |
| `RawPoint.RawScalarExact` | src/sw_sim/ecc.cpp:140-154 | the loop gives nP if and only if P is infinite or its order is not a 2^j with n larger and n mod 2^j = 2^(j-1) |
| `RawPoint.LosesPointExample` | src/sw_sim/ecc.cpp:115-117 | three times a point of order two comes out infinite |
| `RawPoint.OddOrderIsSafe` | src/sw_sim/ecc.cpp:140-154 | from a base point of odd order no multiple is ever lost, for any scalar |
| `RawPoint.SharedPoint` | src/sw_sim/ecc.cpp:227-246 | then both parties of the exchange reach (ka kb)P for all ka and kb, infinity included, and equal says so |
| `Curve.NegOnCurve` | src/sw_sim/ecc.cpp:86-91 | the negative of a point of the curve is on the curve, and negation undoes itself |
| `Curve.SelfOpposite` | src/sw_sim/ecc.cpp:95-98 | a finite point is its own negative exactly when x = 0, so the doubling never inverts zero |
| `Curve.SameAbscissa` | src/sw_sim/ecc.cpp:114-127 | points of the curve with equal x are equal or opposite, so the addition never inverts zero |
| `Curve.SecantClosed` | src/sw_sim/ecc.cpp:125-133 | the third intersection of a line with the curve, negated, is on the curve |
| `Curve.FiniteSum` | src/sw_sim/ecc.cpp:100-133 | a sum of points that are not opposite is finite and comes from a line that meets the curve in both |
| `Curve.AddClosed` | src/sw_sim/ecc.cpp:93-138 | adding or doubling points of the curve gives a point of the curve or infinity |
| `Curve.AddInfinite` | src/sw_sim/ecc.cpp:114-117 | the sum is infinite exactly for opposite points |
| `Curve.AddComm` | src/sw_sim/ecc.cpp:111-138 | the sum does not depend on the order |
| `Curve.SubtractBack` | src/sw_sim/ecc.cpp:125-133 | adding the negative of P to P + Q gives Q back, when P + Q and P have different abscissae |
| `Reduction.PentanomialCorrect` | src/sw_sim/simulation.py:87-159 | below 2^325 the eight-case network is the remainder by x^163 + x^7 + x^6 + x^3 + 1 |
| `Reduction.PentanomialIgnoresHigh` | src/sw_sim/simulation.py:87-159 | the network does not look at digits from 325 on |
| `Reduction.TrinomialCorrect` | src/sw_sim/simulation.py:212-250 | for every width m from 11 on and every input below 2^(2m-1) the five-case network is the remainder by x^m + x^6 + 1 |
| `Reduction.TrinomialTooShort` | src/sw_sim/simulation.py:212-250 | for widths 7 to 10 it is wrong on x^(2m-2) |
| `Reduction.TrinomialExact` | src/sw_sim/simulation.py:212-250 | it reduces every product if and only if the width is at least 11 |
| `Reduction.SquareInterleaves` | src/sw_sim/simulation.py:35-41 | the digits of a square are those of the number with zeros between them |
| `Reduction.KaratsubaCorrect` | src/sw_sim/simulation.py:264-311 | three partial products of halves, recombined, are the full carry-less product, at every split |
| `SimulationPy.PadLeft` | src/sw_sim/simulation.py:32-34 | zeros in front up to the width |
| `SimulationPy.PadRight` | src/sw_sim/simulation.py:84-86 | zeros behind up to the width |
| `SimulationPy.ReversedDigits` | src/sw_sim/simulation.py:82-86 | after reversing and padding, digit i of the list is coefficient i of the number |
| `SimulationPy.PentanomialDigits` | src/sw_sim/simulation.py:88-157 | the loop appends the 163 digits of the network |
| `SimulationPy.TrinomialDigits` | src/sw_sim/simulation.py:213-248 | the loop appends the digits of the trinomial network |
| `SimulationPy.PolyModHardware` | src/sw_sim/simulation.py:81-252 | which network reduces which width, or the exception |
| `SimulationPy.NetworkIsRem` | src/sw_sim/simulation.py:81-252 | that network is the remainder for anything as short as a product |
| `SimulationPy.Square` | src/sw_sim/simulation.py:30-44 | squaring by interleaving equals the product of x with itself in the field at 163 and from width 11 on, what the network makes of it at 7 to 10, or the exception |
| `SimulationPy.ShiftAddProduct` | src/sw_sim/simulation.py:316-325 | the shift-and-add loop is the carry-less product |
| `SimulationPy.PartialProduct` | src/sw_sim/simulation.py:270-305 | the same on a reversed and padded string |
| `SimulationPy.Karatsuba` | src/sw_sim/simulation.py:255-311 | the 82/81 split with three partial products gives the full carry-less product below 2^163 |
| `SimulationPy.MultipleHardware` | src/sw_sim/simulation.py:254-328 | the product in the field at 163 and at every width from 11 on, what the network makes of the full product at 7 to 10, and exactly when it raises |
| `SimulationPy.SquareLoop` | src/sw_sim/simulation.py:56-57 | n squarings in a row |
| `SimulationPy.ChainsAreValid` | src/sw_sim/simulation.py:49-66 | the lists u and v are addition chains to 166 and to 162 |
| `BinaryField.BetaStep` | src/sw_sim/simulation.py:56-59 | squaring a^(2^u - 1) w times and multiplying by a^(2^w - 1) gives a^(2^(u+w) - 1) |
| `SimulationPy.BetaLoop` | src/sw_sim/simulation.py:51-59 | betas[i] is a^(2^c - 1) for entry c of the chain |
| `BinaryField.BetaFinish` | src/sw_sim/simulation.py:60-62 | the last square is a^(2^m - 2), the value of the loop of ecc.cpp for the same modulus |
| `BinaryField.InverseOfZero` | src/sw_sim/simulation.py:46-79 | the inversion takes 0 to 0 |
| `SimulationPy.InverseItoh` | src/sw_sim/simulation.py:46-79 | at 163 with every argument, and at 167 with argument 6, the value a^(2^m - 2); otherwise the exception |
| `SimulationCurve.XorIntBits` | src/sw_sim/simulation.py:26-28 | the sum of coordinates is xor on every bit, the sign of the infinite one included |
| `SimulationCurve.PointDoubling` | src/sw_sim/simulation.py:353-378 | the double by the tangent, or infinity, with (-1, 0) standing for infinity, and exactly when it raises |
| `SimulationCurve.DoublingIsAdd` | src/sw_sim/simulation.py:355-360 | on the curve that double is P + P |
| `SimulationCurve.ChordSum` | src/sw_sim/simulation.py:388-400 | the chord through two points |
| `SimulationCurve.PointAddition` | src/sw_sim/simulation.py:380-403 | the group law on points of the curve, infinity included; it raises exactly where a chord or a tangent is needed in an unsupported field |
| `SimulationCurve.CodeCases` | src/sw_sim/simulation.py:383-402 | the order in which the script tests its cases does not matter on the curve |
| `SimulationCurve.ScalarMultiple` | src/sw_sim/simulation.py:405-417 | double-and-add ends with kP for every k >= 0 and with infinity for negative k; it raises exactly when k > 0, x > 0 and the field is unsupported |
| `Multiples.TimesOnCurve` | src/sw_sim/simulation.py:405-417 | every multiple of a point of the curve is on the curve or infinite |
| `Multiples.DoubleAndAddIsTimes` | src/sw_sim/simulation.py:405-417 | reading the digits of k from the lowest gives the k-fold sum |
| `Multiples.TimesCompose` | src/sw_sim/simulation.py:580-598 | k(jP) = (kj)P |
| `Multiples.AdditiveOfMultiple` | src/sw_sim/simulation.py:580-585 | the premise on P carries over to its multiples, so a result can be the next base point |
| `Multiples.KeyExchange` | src/sw_sim/simulation.py:580-598 | the agreement the script checks for one pair, for all j and k: both parties reach (jk)P |
| `LadderAlgebra.DifferentialAddition` | src/sw_sim/simulation.py:457-472 | x(A + B) from x(A), x(B) and x(B - A) |
| `LadderAlgebra.DoubleAbscissa` | src/sw_sim/simulation.py:474-480 | x(2A) from x(A) and b |
| `LadderAlgebra.OrdinateRecovery` | src/sw_sim/simulation.py:510-534 | y(A) from x(A), x(A + P) and P |
| `Ladder.MAddCorrect` | src/sw_sim/simulation.py:457-472 | the projective sum represents the affine one |
| `Ladder.MDoubleCorrect` | src/sw_sim/simulation.py:474-480 | the projective double represents the affine one |
| `Ladder.SumStep` | src/sw_sim/simulation.py:456-472 | the sum half is right for all neighbours sP and (s+1)P, infinite and opposite ones included |
| `Ladder.DoubleStep` | src/sw_sim/simulation.py:473-480 | the double half is right for every multiple, infinite ones included |
| `Ladder.StepTracks` | src/sw_sim/simulation.py:455-504 | a round takes the registers of s to those of 2s or 2s + 1 |
| `Ladder.RunTracks` | src/sw_sim/simulation.py:428-504 | for every prefix s of the scalar, X1/Z1 is x(sP) and X2/Z2 is x((s+1)P), with Z = 0 for infinity |
| `Ladder.FinishFinite` | src/sw_sim/simulation.py:510-537 | the final formulas return both coordinates of kP when kP and (k+1)P are finite |
| `Ladder.FinishBeforeInfinity` | src/sw_sim/simulation.py:510-537 | when (k+1)P is infinite they return P, the negative of kP |
| `Ladder.LadderExact` | src/sw_sim/simulation.py:419-537 | for every k >= 1 the ladder returns kP if and only if kP is finite and either (k+1)P is finite or x(P) = 0 |
| `Ladder.FinishAtInfinity` | src/sw_sim/simulation.py:510-537 | when kP is infinite the final formulas return (0, y), the inverse of 0 being 0 |
| `Ladder.LadderTotal` | src/sw_sim/simulation.py:419-537 | the result for every k >= 1: (0, y) when kP is infinite, P when (k+1)P is, and kP otherwise |
| `SimulationCurve.SumHalf` | src/sw_sim/simulation.py:457-472 | the statements of the sum half compute the projective sum in the field, or raise |
| `SimulationCurve.DoubleHalf` | src/sw_sim/simulation.py:474-480 | the statements of the doubling half compute the projective double, or raise |
| `SimulationCurve.LadderRound` | src/sw_sim/simulation.py:455-504 | both branches of the loop are the ladder step for the digit |
| `SimulationCurve.ToAffine` | src/sw_sim/simulation.py:510-537 | the conversion computes the final formulas, or raises |
| `SimulationCurve.ScalarMultipleProjective` | src/sw_sim/simulation.py:419-537 | the loop over bin(k)[3:] computes the ladder, as for k = 1 when k = 0; kP exactly under the condition of LadderExact, and the values of LadderTotal in all cases; exactly when it raises |
| `SystolicChain.PeChain.Clock` | src/multiplier.cpp:9-51 | a clock edge of the chain of elements, every element reading the old values, is the function ChainNext of the register vector |
| `SystolicChain.ChainMultiplies` | src/genmult.py:2-15 | at every width, in multiply mode w becomes x w + a b modulo x^n + p |
| `SystolicChain.ChainAdds` | src/multiplier.cpp:16-37 | in add mode w becomes w + a b |
| `SystolicChain.ChainCleans` | src/multiplier.cpp:29-37 | clean clears the chain |
| `SystolicChain.FeedIsPartial` | src/genmult.py:2-15 | after each clock the chain holds the value of the software loop after the same digits |
| `SystolicChain.FeedIsProduct` | src/genmult.py:2-15 | n clocks fed with the leading digit first give the product of ecc.cpp, at every width n |
| `Core.IdleStays` | src/multiplier.cpp:309-316 | without a start an idle core stays idle and clean, finish down and nothing on out |
| `Core.IdleUntil` | src/multiplier.cpp:309-316 | so it waits for the first start, however late |
| `Core.StepToStep` | src/multiplier.cpp:472-524 | within a product one edge uses one digit of the right operand |
| `Core.ProductToGap` | src/multiplier.cpp:421-447 | a finished product is stored in c, in sqr or in both, and the chain is scheduled for clearing |
| `Core.GapToStep` | src/multiplier.cpp:463-524 | the next product starts from a cleared chain with the next operands |
| `Core.OperandsAdvance` | src/multiplier.cpp:421-447 | c and sqr run through the powers a^(2^i - 2) and a^(2^i) of the software inversion |
| `Core.InversionTimeline` | src/multiplier.cpp:302-524 | 1 + 10j + i edges after the start, product j (of 0 to 12) has used i digits of the right operands |
| `Core.ProductTimeline` | src/multiplier.cpp:302-524 | eight edges into product j it stands in the chain |
| `Core.GapTimeline` | src/multiplier.cpp:302-524 | nine edges into it, it has been stored |
| `Core.NotYet` | src/multiplier.cpp:396-461 | finish stays down for 129 edges |
| `Core.InversionRun` | src/multiplier.cpp:302-524 | mode 2, first start at any edge w: finish down until edge w + 130, where out is a^254 modulo x^8 + p, idle and clean one edge later |
| `Core.MultiplicationRun` | src/multiplier.cpp:302-524 | mode 1, first start at any edge w: MULT busy for eight cycles and finishing for one with the product on its output, finish and the product on out at edge w + 10, then idle |
| `Core.AdditionRun` | src/multiplier.cpp:302-524 | mode 0, first start at any edge w: finish and the sum on out at edge w + 4, then idle |
| `Core.CoreModule.constructor` | src/multiplier.cpp:337-403 | the registers after reset are idle and clean |
| `Core.CoreModule.FsmProcess` | src/multiplier.cpp:302-335 | the next state |
| `Core.CoreModule.CountProcess` | src/multiplier.cpp:337-394 | the next counters |
| `Core.CoreModule.DoneProcess` | src/multiplier.cpp:396-461 | what is stored, put out and cleared |
| `Core.CoreModule.ClockState` | src/multiplier.cpp:73-135 | the next state and counter of MULT |
| `Core.CoreModule.ClockMultiplier` | src/multiplier.cpp:73-135 | an edge of MULT with its chain, CORE's registers unchanged |
| `Core.CoreModule.CopyOperands` | src/multiplier.cpp:137-169 | operands follow the inputs while MULT is busy and are held otherwise |
| `Core.CoreModule.ClockRegisters` | src/multiplier.cpp:302-470 | all clocked processes read the old registers |
| `Core.CoreModule.PosEdge` | src/multiplier.cpp:277-555 | a rising edge and the settling after it is the transition the timelines are about |
| `ScalarMult.AddingEnds` | src/multiplier.cpp:1500-1613 | when the adder finishes, digit i of n has been collected in R |
| `ScalarMult.DoublingEnds` | src/multiplier.cpp:1508-1625 | when the doubler finishes short of the end, A is 2^(i+1) P and the next digit decides the next unit |
| `ScalarMult.InputsIgnored` | src/multiplier.cpp:1500-1518 | while a unit is running, n, P and start make no difference |
| `ScalarMult.IdleStays` | src/multiplier.cpp:1487-1499 | without a start state 0 is kept, finish down |
| `ScalarMult.BackToIdle` | src/multiplier.cpp:1519-1521 | one edge after finish the state is 0 and finish is down, whatever start says |
| `ScalarMult.SequencerEnds` | src/multiplier.cpp:1481-1631 | every start in an idle state with 1 <= n < 128 ends for units of any finite delay, with the collected multiple of the point read at the start and finish up for one edge; one edge later the sequencer is idle again |
| `ScalarMult.ServesNext` | src/multiplier.cpp:1481-1631 | from an idle state the next start, however late, is served: finish stays down until it comes up with that start's multiple |
| `ScalarMult.ServesForEver` | src/multiplier.cpp:1481-1631 | start after start is served, each with its own n and P, any number of them |
| `ScalarMult.NeverEnds` | src/multiplier.cpp:1525-1557 | a start with n = 0 or n of 128 to 255 never ends: cnt never reaches 1 or 2 |
| `ScalarMult.EndsExactly` | src/multiplier.cpp:1481-1588 | a start leads to a finish if and only if 1 <= n < 128 |
| `ScalarMult.CollectedExact` | src/multiplier.cpp:1509-1543 | the result is nP if and only if n = 1, or its two leading digits are set, or the leading power of two annihilates P |
| `ScalarMult.SequencerModule.PosEdge` | src/multiplier.cpp:1481-1631 | a rising edge of the four processes is the transition the run is about |
| `Rsa.StoreExact` | src/systemc-2.3.3/examples/sysc/rsa/rsa.cpp:83 | storing a number that fits into 250 bits keeps it |
| `Rsa.StoreWraps` | src/systemc-2.3.3/examples/sysc/rsa/rsa.cpp:83 | storing any number gives the one congruent to it modulo 2^250 from -2^249 up to 2^249 |
| `Rsa.RetPosReduces` | src/systemc-2.3.3/examples/sysc/rsa/rsa.cpp:178-186 | a truncated remainder is brought into [0, n) |
| `Rsa.GcdIsGreatest` | src/systemc-2.3.3/examples/sysc/rsa/rsa.cpp:191-197 | every common divisor divides gcd(a, b) and does not exceed it |
| `Rsa.GcdDivides` | src/systemc-2.3.3/examples/sysc/rsa/rsa.cpp:191-197 | gcd(a, b) is positive and divides both |
| `Rsa.BezoutIdentity` | src/systemc-2.3.3/examples/sysc/rsa/rsa.cpp:203-218 | ax + by is the gcd |
| `Rsa.BezoutBound` | src/systemc-2.3.3/examples/sysc/rsa/rsa.cpp:203-218 | the coefficients are bounded by max(1, b) and max(1, a) |
| `Rsa.Euclid` | src/systemc-2.3.3/examples/sysc/rsa/rsa.cpp:203-218 | gcd and bounded coefficients, stored in 250-bit integers without truncation |
| `Rsa.Inverse` | src/systemc-2.3.3/examples/sysc/rsa/rsa.cpp:240-251 | the inverse modulo n in [0, n), and the assertion fails exactly when a and n are not coprime |
| `Rsa.ModularExp` | src/systemc-2.3.3/examples/sysc/rsa/rsa.cpp:221-235 | a^b modulo n in [0, n) for every a and every b >= 0, without truncation |
| `Rsa.Cipher` | src/systemc-2.3.3/examples/sysc/rsa/rsa.cpp:418-424 | msg^e modulo n |
| `Rsa.Decipher` | src/systemc-2.3.3/examples/sysc/rsa/rsa.cpp:426-432 | msg^d modulo n |
| `Rsa.FermatExponent` | src/systemc-2.3.3/examples/sysc/rsa/rsa.cpp:434-529 | m^(1 + k(p-1)) = m modulo a prime p, multiples of p included |
| `Modular.DistinctPrimes` | src/systemc-2.3.3/examples/sysc/rsa/rsa.cpp:463-464 | what two distinct primes divide, their product divides |
| `Rsa.RsaCorrect` | src/systemc-2.3.3/examples/sysc/rsa/rsa.cpp:434-529 | raising to e and then to an inverse d of e gives every msg below pq back |
| `Rsa.FindRelPrime` | src/systemc-2.3.3/examples/sysc/rsa/rsa.cpp:258-273 | the least odd number from 3 on that is coprime to n; the assertion holds for every even n, and fails only when there is no such number below n |
| `Rsa.RoundTrip` | src/systemc-2.3.3/examples/sysc/rsa/rsa.cpp:462-518 | from two distinct primes the whole of key generation, cipher and decipher returns the message, with no assertion on the way failing |
| `Modular.LittleFermat` | src/systemc-2.3.3/examples/sysc/rsa/rsa.cpp:311-313 | a^(p-1) is 1 modulo a prime p that does not divide a |
| `Modular.SquareRootsOfOne` | src/systemc-2.3.3/examples/sysc/rsa/rsa.cpp:303-305 | modulo a prime only 1 and p - 1 have the square 1 |
| `StrongTest.TwosAndOdd` | src/systemc-2.3.3/examples/sysc/rsa/rsa.cpp:275-316 | every n - 1 is a power of two times an odd number |
| `StrongTest.RootBelowMinusOne` | src/systemc-2.3.3/examples/sysc/rsa/rsa.cpp:303-305 | when y^(2^r) is -1, every power of y whose square is 1 is 1 or -1 |
| `StrongTest.OnlyTrivialRoots` | src/systemc-2.3.3/examples/sysc/rsa/rsa.cpp:303-305 | in a strong probable prime to base a every power of a whose square is 1 is 1 or -1, so no position of the loop finds a root |
| `StrongTest.PassesFermat` | src/systemc-2.3.3/examples/sysc/rsa/rsa.cpp:311-313 | a strong probable prime to base a has a^(n-1) = 1 |
| `StrongTest.Descend` | src/systemc-2.3.3/examples/sysc/rsa/rsa.cpp:303-313 | conversely, from a^(n-1) = 1 and no root found the strong test follows |
| `Rsa.Witness` | src/systemc-2.3.3/examples/sysc/rsa/rsa.cpp:277-316 | true if and only if n fails the strong test to base a: with n - 1 = 2^s t and t odd, neither a^t is 1 nor any a^(2^r t) with r < s is n - 1 |
| `Rsa.WitnessExact` | src/systemc-2.3.3/examples/sysc/rsa/rsa.cpp:275-316 | the witnesses the loop finds are exactly the bases to which n fails the strong test |
| `Rsa.CoprimeOrWitness` | src/systemc-2.3.3/examples/sysc/rsa/rsa.cpp:311-313 | every base that is not coprime to n is a witness |
| `Rsa.PrimeHasNoWitness` | src/systemc-2.3.3/examples/sysc/rsa/rsa.cpp:275-316 | no a in [1, n) is a witness against a prime n |
| `Rsa.DivTest` | src/systemc-2.3.3/examples/sysc/rsa/rsa.cpp:321-338 | true if and only if no odd number from 3 to the limit divides n |
| `Rsa.PrimePassesTrial` | src/systemc-2.3.3/examples/sysc/rsa/rsa.cpp:321-338 | every prime above 2 passes, whichever limit applies |
| `Rsa.TrialFinds` | src/systemc-2.3.3/examples/sysc/rsa/rsa.cpp:327-335 | an odd divisor from 3 to n - 2, or to 1023 for n from 1023 on, makes n fail |
| `Rsa.TrialIsComplete` | src/systemc-2.3.3/examples/sysc/rsa/rsa.cpp:318-338 | an odd number below 1025^2 passes if and only if it is prime |
| `Rsa.MillerRabin` | src/systemc-2.3.3/examples/sysc/rsa/rsa.cpp:348-378 | accepts n if and only if n > 2, no odd number in the range of the trial division divides n, and n passes the strong test to all 50 bases drawn |
| `Rsa.AcceptsPrimes` | src/systemc-2.3.3/examples/sysc/rsa/rsa.cpp:340-378 | of the primes it rejects 2 alone, whatever is drawn |
| `Rsa.SmallAccepted` | src/systemc-2.3.3/examples/sysc/rsa/rsa.cpp:340-378 | of the odd numbers below 1025^2 it accepts exactly the primes |
| `Rsa.RejectsCommonDivisor` | src/systemc-2.3.3/examples/sysc/rsa/rsa.cpp:360-375 | one draw whose base is not coprime to n is enough to reject n |
| `Rsa.CompositeHasBase` | src/systemc-2.3.3/examples/sysc/rsa/rsa.cpp:340-378 | every composite number above 2 has a base such that any draws that bring it in reject the number |
| `ScFifo.ReadSucceeds` | src/systemc-2.3.3/src/sysc/communication/sc_fifo.h:218-256 | a read succeeds exactly when a sample is available, so the assertion of the blocking read never fails; all fields stay consistent |
| `ScFifo.WriteSucceeds` | src/systemc-2.3.3/src/sysc/communication/sc_fifo.h:261-289 | the same for a write and a free space |
| `ScFifo.StepRefines` | src/systemc-2.3.3/src/sysc/communication/sc_fifo.h:216-357 | each operation on the ring is the operation on a queue with delayed counters, answers included, and keeps m_size - m_free = m_num_readable - m_num_read + m_num_written |
| `ScFifo.RunRefines` | src/systemc-2.3.3/src/sysc/communication/sc_fifo.h:216-357 | the same for every sequence of operations |
| `ScFifo.RunConserves` | src/systemc-2.3.3/src/sysc/communication/sc_fifo.h:216-289 | over every run, what came out followed by what is left is what was there followed by what was accepted: nothing lost, doubled or reordered |
| `ScFifo.RunKeepsBlank` | src/systemc-2.3.3/src/sysc/communication/sc_fifo.h:394-421 | in every state of a run, every slot that holds no sample is blank |
| `ScFifo.Commute` | src/systemc-2.3.3/src/sysc/communication/sc_fifo.h:240-289 | a read and a write in either order: same answers, same fields |
| `ScFifo.WriteMovesBack` | src/systemc-2.3.3/src/sysc/communication/sc_fifo.h:240-289 | a write can be moved behind any number of reads |
| `ScFifo.Confluence` | src/systemc-2.3.3/src/sysc/communication/sc_fifo.h:240-289 | every interleaving of the calls of one phase gives reader and writer the same answers and leaves the same fields |
| `ScFifo.PhaseKeepsBlocked` | src/systemc-2.3.3/src/sysc/communication/sc_fifo.h:93-113 | within a phase an empty channel stays empty for the reader and a full one full for the writer |
| `ScFifo.WakeUp` | src/systemc-2.3.3/src/sysc/communication/sc_fifo.h:341-357 | a blocked reader or writer is notified by the update exactly when it can go on |
| `ScFifo.Channel.constructor` | src/systemc-2.3.3/src/sysc/communication/sc_fifo.h:363-392 | an empty channel with all spaces free and blank |
| `ScFifo.Channel.TakeFromBuffer` | src/systemc-2.3.3/src/sysc/communication/sc_fifo.h:408-421 | takes the oldest sample and blanks its slot |
| `ScFifo.Channel.PutIntoBuffer` | src/systemc-2.3.3/src/sysc/communication/sc_fifo.h:394-406 | puts a sample behind the newest one |
| `ScFifo.Channel.NonBlockingRead` | src/systemc-2.3.3/src/sysc/communication/sc_fifo.h:242-256 | the read of the queue, on the fields in place; free slots stay blank |
| `ScFifo.Channel.NonBlockingWrite` | src/systemc-2.3.3/src/sysc/communication/sc_fifo.h:275-289 | the write of the queue, on the fields in place; free slots stay blank |
| `ScFifo.Channel.UpdatePhase` | src/systemc-2.3.3/src/sysc/communication/sc_fifo.h:341-357 | all samples in the ring become readable, and which events are notified |

## Left out

- Ladder.LadderExact: takes iP + jP = (i + j)P as a premise; associativity of the group law is not proved.
- SimulationCurve.ScalarMultipleProjective: the base point is finite and k is not negative, because bin(k)[3:] of a negative k reads a different string.
- SimulationPy.Square: operands are shorter than the field width, as elements are; the script drops low digits of longer ones. The same holds for MultipleHardware, which fails on much longer strings.
- SimulationPy.PolyModHardware: widths up to 6 are not modelled (x^m + x^6 + 1 is no polynomial of degree m there), nor is the argument specific = 1, which the script itself marks as failing.
- SimulationPy.InverseItoh: the raise statements of the script are one exception value; which Python error they produce is not modelled.
- Rsa.ModularExp: negative exponents (their two's complement digits) are not modelled.
- Rsa.Euclid: negative arguments are not modelled; the program calls it with positive ones.
- Rsa.RoundTrip: the primes are given, and so is the message; the assertion that the message is not 0 is not modelled, as 0 comes back too.
- Rsa.MillerRabin: the 50 numbers drawn are parameters; the probability of error is not modelled.
- ScalarMult.SequencerEnds: the point adder and doubler are units that deliver the group law after any finite delay. PA and PD themselves (their register pn_P is never written) and their start signals are not part of the model, and a point at infinity has no leftover coordinates here.
- Core.CoreModule.PosEdge: reset during a run, inputs that change during a run, mode 3, and the glitches of combinational signals within one clock edge are not modelled.
- EccCpp.InverseOf: width 0 is not modelled (the loop bodies read below the array there); pointers shared between points are not, as no function writes to an array it was given.
- ScFifo.Channel.constructor: a size of 0 or less, which is reported as an error, is not modelled.
- The suspension of the blocking read and write of sc_fifo, its port registration, tracing and printing: what the two rest on is in ReadSucceeds, WriteSucceeds and WakeUp.
- find_prime, the random bit strings and the seed of the RSA example: randomness.
- File reading, printing, test benches, monitors and main functions.
- src/8051: a copy of the same hardware modules and a microcontroller around them.
- The rest of the SystemC distribution: its other examples and the scheduler.
