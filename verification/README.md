# Calculator kernel: a verified model

This project models the exact parts of a calculator kernel that runs without a C library, and proves what they
compute. `dafny verify dfyconfig.toml` checks all of it.

Code that changes state is written as Dafny methods and classes over arrays and fields, proved against functions or
relations; the theorems are lemmas about those functions, over all inputs, all runs or all reachable states.

- **Common, Words, Arithmetic, Divisibility, Fermat** carry the mathematics: bounded words with explicit wrap-around,
  congruences and powers, gcd and primes, the binomial theorem and Fermat's little theorem.
- **BinaryGcd, Primality, StrongPrimes, Totient, SignedEuclid, Bezout, ChineseRemainder** are the number theory file.
  `is_prime` never rejects a prime and is exact below 2^32; `euler_totient` counts the coprime numbers for every 64-bit
  n; the Bezout coefficients stay in int64; CRT succeeds exactly for pairwise coprime moduli.
- **Limbs, BigIntegers, BigAddition, WideDivision, LongDivision** are the multi-precision arithmetic: sums, products and
  powers in place under every aliasing, comparison, 128-by-64 division, and the digit step of long division (Knuth, The
  Art of Computer Programming, volume 2, section 4.3.1, Algorithm D).
- **PrattParser**, **PrattReading**, **PrattGrouping**, **ShuntingYard**, **DoubleMinus**, **InfixReading** and
  **InfixGrouping** print expression trees to tokens and prove for which trees the two front ends give back the tree's
  value, and, on token lists alone, which operators they do first. The Pratt parser accepts nothing else;
  the shunting-yard pair accepts any balanced token list, and the lists it gives a value are characterised too.
  Arithmetic on values is a parameter of which nothing is assumed.
- **LinearAlgebra** is LU factorisation and the solver over exact reals; a refused matrix is shown to be within the
  pivot threshold of a singular one.
- **PluginManager** is the phase-by-phase topological sort, with a real cycle found behind every stalled round, and the
  lifecycle passes as a trace of calls.
- **RingBuffer** is the single-producer, single-consumer queue as a state machine over individual reads and writes; it
  refines an atomic bounded queue in every interleaving.
- **KeyStore** is the table with an undo log; it refines a bounded map with one snapshot transaction.
- **Tetris**, **TetrisPlay**, **Sorting**, **LineRaster**, **EditDistance** and **Launcher** are the array loops: line
  clearing, cell conservation and what each key does, quicksort with its depth bound and the statistics on top, the
  half-pixel bound of the line, the edit distance as a metric and as the least number of edits, and the menu that uses
  it.

Where the code and its comments disagree, the model follows the code:

- `extended_gcd` (NumberTheory.c:216-217) is said to give the right gcd beyond 2^63, even if coefficients overflow. There
  it does exactly when neither the operands nor their casts share an odd divisor other than 1 (`Bezout.CastGcdIff`,
  `OneLargeOperandIff`; a failing input is `LargeOperandGcdWrong`), and the operands are not 2^63 and 2^64 - 1, which
  divide -2^63 by -1 (`SignedEuclid.FaultIff`). The coefficients do not overflow unless an operand is 2^63 itself
  (`SignedEuclid.EveryRoundFits`, `Bezout.MinOperandFitsIff`).
- `mod_inverse` adds the modulus to a coefficient in int64 (NumberTheory.c:269); the sum leaves it for large moduli when
  the inverse is in the lower half, as for 1 modulo 2^63 - 1 (`Bezout.ModInverse`, `InverseCanOverflow`).
- `^` is commented right-associative (Parser.c:463); it groups to the left (`PrattGrouping.CaretGroupsLeft`).
- The subtraction without a 128-bit type forgets a borrow where equal limbs meet one (BigInt.c:196-203):
  `BigAddition.SubtractExactIff` says exactly when the difference is right, `BorrowCanBeLost` gives an input.
- Two adjacent unary minuses are popped too early by the shunting-yard compiler (ShuntingYard.c:311-317):
  `ShuntingYard.CompiledIsPostfixIff` says for which trees the code is postfix, `DoubleMinus.RightInEveryArithmeticIff`
  for which the value is right, `ShuntingYard.DoubleMinusFails` gives an input.
- The portable `mul_mod` (NumberTheory.c:81-89) is exact only up to a modulus of 2^63
  (`Primality.PortableExactIff`).
- The add-back loop of the long division (BigInt.c:583-587) forgets a carry when a limb is all ones and a carry comes
  in (`LongDivision.AddBackExactIff`, `AddBackCanDrop`); `DivideDigit` says for which windows.
- A key of 16 or more characters is stored cut off and never found again (db.c:51-60, 96-101):
  `KeyStore.SetThenGetIff` and `SetUniqueIff`.
- `chinese_remainder` also refuses a modulus of 1 after the first, because `mod_inverse` does.

## Model

| member | source | states |
|---|---|---|
| BinaryGcd.BinaryGcd | Kernel/Operations/NumberTheory/NumberTheory.c:47-66 | the shift-and-subtract loop returns the greatest common divisor, zero operands included |
| Primality.MulModPortable | Kernel/Operations/NumberTheory/NumberTheory.c:81-89 | the loop without a 128-bit type computes DoubleAndAdd, wrap-around included |
| Primality.PortableExactIff | Kernel/Operations/NumberTheory/NumberTheory.c:76-91 | that loop gives a*b mod m for all operands exactly when m is at most 2^63 |
| Primality.PortableWraps | Kernel/Operations/NumberTheory/NumberTheory.c:81-89 | for every larger m the operands m-1 and 2 give a wrong residue |
| Primality.ModExp | Kernel/Operations/NumberTheory/NumberTheory.c:93-106 | square-and-multiply returns base^exp mod m, for m = 1 too |
| Fermat.FermatLittle | Kernel/Operations/NumberTheory/NumberTheory.c:107-117 | Fermat's little theorem, on which the Miller-Rabin witness rests; from the binomial theorem modulo p |
| Fermat.SquareRootOfOne | Kernel/Operations/NumberTheory/NumberTheory.c:112-115 | modulo a prime only 1 and -1 square to 1, which justifies the squaring loop |
| Primality.MillerRabinWitness | Kernel/Operations/NumberTheory/NumberTheory.c:109-117 | answers true exactly when a is a strong witness: a^d is not 1 and no a^(d*2^r), r < s, is -1 |
| Primality.PrimeHasNoWitness | Kernel/Operations/NumberTheory/NumberTheory.c:107-117 | no base is a witness against a prime that does not divide it |
| Primality.TrialDivisionDone | Kernel/Operations/NumberTheory/NumberTheory.c:128-137 | when the 6k+-1 trial division stops, an n below 2^32 is prime |
| Primality.SurvivesBases | Kernel/Operations/NumberTheory/NumberTheory.c:139-151 | the bases of the table in turn, none of them a witness; which bases they are: StrongPrimes.AcceptedIff |
| Primality.IsPrimeTest | Kernel/Operations/NumberTheory/NumberTheory.c:123-154 | is_prime answers Accepts(n), spelled out in StrongPrimes.AcceptedIff |
| StrongPrimes.AcceptedIff | Kernel/Operations/NumberTheory/NumberTheory.c:119-154 | accepted below 2^32 means no divisor between 1 and n; from 2^32 on it means exactly no divisor from 2 to 65536 and, with n - 1 = d * 2^s and d odd, for each of 2, 3, 5, ..., 37 that a^d is 1 or some a^(d*2^r), r < s, is -1 modulo n |
| StrongPrimes.SmallestAccepted | Kernel/Operations/NumberTheory/NumberTheory.c:124-125 | 0 and 1 are refused, 2 is accepted |
| StrongPrimes.OddPartUnique | Kernel/Operations/NumberTheory/NumberTheory.c:142-145 | n - 1 is an odd number times a power of two in one way only |
| StrongPrimes.AcceptedFermat | Kernel/Operations/NumberTheory/NumberTheory.c:139-151 | every accepted n from 2^32 on has a^(n - 1) = 1 modulo n for each of the twelve bases |
| StrongPrimes.CompositeIsRefused | Kernel/Operations/NumberTheory/NumberTheory.c:139-151 | 65537 * 65539, which has no divisor up to 65536, is refused |
| Primality.PrimesAreAccepted | Kernel/Operations/NumberTheory/NumberTheory.c:119-154 | no prime of any size is rejected |
| Primality.NextPrime | Kernel/Operations/NumberTheory/NumberTheory.c:342-363 | the next accepted number above n, or 0 when there is none in 64 bits |
| Primality.NextPrimeSkipsNone | Kernel/Operations/NumberTheory/NumberTheory.c:333-363 | next_prime never passes over a prime, and below 2^32 its answer is the least prime above n |
| Totient.EulerTotient | Kernel/Operations/NumberTheory/NumberTheory.c:169-194 | for every 64-bit n the result is the number of k in [1, n] coprime to n, although p*p may wrap |
| Totient.CountMultiple | Kernel/Operations/NumberTheory/NumberTheory.c:156-168 | among the first q*m numbers, q*phi(m) are coprime to m |
| Totient.SieveStep | Kernel/Operations/NumberTheory/NumberTheory.c:181-186 | result / p * (p - 1) removes exactly the multiples of p from the count |
| Totient.StripFactor | Kernel/Operations/NumberTheory/NumberTheory.c:184 | the division loop splits n into a power of p and a rest p does not divide |
| Totient.CandidateStaysBelow | Kernel/Operations/NumberTheory/NumberTheory.c:181 | the candidate p never reaches the end of the 64-bit range, so the loop ends although p*p wraps |
| Words.TruncatedDivision | Kernel/Operations/NumberTheory/NumberTheory.c:223-224 | quotient and remainder of signed operands: the remainder is smaller than the divisor and has the sign of the dividend |
| Words.CastKeepsResidue | Kernel/Operations/NumberTheory/NumberTheory.c:217-218 | the cast to int64 subtracts 2^64 or nothing |
| SignedEuclid.SignedGcdIsGcd | Kernel/Operations/NumberTheory/NumberTheory.c:213-236 | the truncating signed remainder sequence ends in the gcd of the magnitudes |
| SignedEuclid.FaultIff | Kernel/Operations/NumberTheory/NumberTheory.c:222-223 | the run divides -2^63 by -1, which the machine refuses, exactly for the operands 2^63 and 2^64 - 1 in either order |
| SignedEuclid.RemaindersFitIff | Kernel/Operations/NumberTheory/NumberTheory.c:222-227 | for any int64 pair quotients, products and remainders stay in int64 exactly when that division does not come up |
| SignedEuclid.TrackedStep | Kernel/Operations/NumberTheory/NumberTheory.c:222-236 | for operands of either sign a round keeps old_s*a + old_t*b = old_r in both columns, the signs, and the coefficient bounds |
| SignedEuclid.StepInRange | Kernel/Operations/NumberTheory/NumberTheory.c:222-236 | for magnitudes below 2^63 no quotient, product, difference or coefficient of a round leaves int64 |
| SignedEuclid.EveryRoundFits | Kernel/Operations/NumberTheory/NumberTheory.c:208-241 | for all operands other than 2^63 the whole run stays in int64, coefficients included, also beyond 2^63 |
| SignedEuclid.TrackedEnd | Kernel/Operations/NumberTheory/NumberTheory.c:238-241 | at the end old_r is the gcd up to its sign, the last column is b/g and a/g, and the coefficients before it are at most half of that |
| SignedEuclid.RunResult | Kernel/Operations/NumberTheory/NumberTheory.c:213-244 | for all operands the final x and y combine them to the gcd up to its sign, within those bounds |
| Bezout.LargeOperandGcdWrong | Kernel/Operations/NumberTheory/NumberTheory.c:216-218 | beyond 2^63 the gcd is not always right, against the comment: for 2^64 - 1 and 3 it gives 1 |
| Bezout.CastGcdIff | Kernel/Operations/NumberTheory/NumberTheory.c:213-236 | but for (0, 0): no division is refused and the gcd of the casts is the gcd exactly when both operands are below 2^63, or neither they nor their casts share an odd divisor other than 1 and they are not 2^63 and 2^64 - 1 |
| Bezout.OneLargeOperandIff | Kernel/Operations/NumberTheory/NumberTheory.c:213-236 | for a >= 2^63 > b > 0 no division is refused, and the gcd is right exactly when the odd part of b is coprime to a and to 2^64 - a |
| Bezout.MinOperandFitsIff | Kernel/Operations/NumberTheory/NumberTheory.c:213-241 | with the operand 2^63 and one below it the run stays in int64 exactly when the other is even and not 0 |
| Bezout.MinOperandEvenFits | Kernel/Operations/NumberTheory/NumberTheory.c:213-241 | with 2^63 and an even operand above it, in either order, it stays in int64 |
| Bezout.EuclidLoop | Kernel/Operations/NumberTheory/NumberTheory.c:222-236 | the loop in place computes Final |
| Bezout.ExtendedGcd | Kernel/Operations/NumberTheory/NumberTheory.c:213-244 | fails exactly for (0, 0); for all other operands bounded int64 coefficients that combine the casts to their gcd, which is the gcd, with no division refused, exactly when CastKeepsGcd |
| Bezout.ModInverse | Kernel/Operations/NumberTheory/NumberTheory.c:258-272 | for a and m below 2^63 succeeds exactly when m > 1 and a, m are coprime; the result is the inverse in [0, m) exactly when the inverse is above m/2 or below 2^63 - m, as always up to m = 2^64/3 |
| Bezout.InverseCanOverflow | Kernel/Operations/NumberTheory/NumberTheory.c:269 | for a = 1 and m = 2^63 - 1 it is not |
| Bezout.InverseUnique | Kernel/Operations/NumberTheory/NumberTheory.c:246-257 | there is at most one inverse in [0, m) |
| ChineseRemainder.FoldStep | Kernel/Operations/NumberTheory/NumberTheory.c:299-327 | folding one more equation keeps the running solution right for all equations so far |
| ChineseRemainder.FailureIsReal | Kernel/Operations/NumberTheory/NumberTheory.c:303-304 | a failing gcd means the moduli are not pairwise coprime |
| ChineseRemainder.ChineseRemainder | Kernel/Operations/NumberTheory/NumberTheory.c:291-331 | within the word size succeeds exactly for pairwise coprime moduli (none after the first being 1), and the result is below the product and solves every equation |
| ChineseRemainder.SolutionUnique | Kernel/Operations/NumberTheory/NumberTheory.c:284 | below the product there is only one solution |
| Limbs.MulPortable | Kernel/Operations/BigInt/BigInt.c:281-295 | four 32-bit products give the exact 128-bit product |
| Limbs.MulAdd128 | Kernel/Operations/BigInt/BigInt.c:377-381 | x*y + t + c as two words, by the 128-bit path |
| Limbs.MulAddPortable | Kernel/Operations/BigInt/BigInt.c:383-395 | the same two words from 64-bit sums with carry detection |
| BigIntegers.BigInt.Normalize | Kernel/Operations/BigInt/BigInt.c:32-43 | drops leading zero limbs, keeps the magnitude, clears the sign of zero |
| BigIntegers.BigInt.SetWord | Kernel/Operations/BigInt/BigInt.c:51-68 | the one-limb value |
| BigIntegers.AddRow | Kernel/Operations/BigInt/BigInt.c:371-404 | one row adds x * b * 2^(64 i) modulo the capacity and touches nothing above |
| BigIntegers.MulInto | Kernel/Operations/BigInt/BigInt.c:365-408 | the double loop into a cleared target gives abs(a)*abs(b) mod 2^(64 capacity) and the sign |
| BigIntegers.Mul | Kernel/Operations/BigInt/BigInt.c:343-414 | sign and abs(a)*abs(b) mod 2^(64 capacity) for every aliasing of a, b and result, on both paths |
| BigIntegers.PowerRound | Kernel/Operations/BigInt/BigInt.c:642-648 | one round keeps result * base^exp |
| BigIntegers.Power | Kernel/Operations/BigInt/BigInt.c:625-649 | abs(a)^exp mod 2^(64 capacity), negative only for negative a and odd exp; result may be a |
| BigAddition.FirstDifferenceDecides | Kernel/Operations/BigInt/BigInt.c:109-117 | with equal limbs above, the first different limb decides the order |
| BigAddition.Compare | Kernel/Operations/BigInt/BigInt.c:92-120 | the sign of the difference of the two signed values |
| BigAddition.AddLimb | Kernel/Operations/BigInt/BigInt.c:145-160 | sum and carry of a limb, on both paths |
| BigAddition.CarryLimb | Kernel/Operations/BigInt/BigInt.c:165-174 | the carry through one limb, on both paths |
| BigAddition.AddMagnitude | Kernel/Operations/BigInt/BigInt.c:136-183 | the exact sum of the magnitudes in place, when it fits, whichever operand the result is |
| BigAddition.SubMagnitude | Kernel/Operations/BigInt/BigInt.c:187-220 | both loops on both paths compute Subtract in place, whichever operand the result is, and leave the exact difference exactly on the 128-bit path or when no borrow meets equal limbs |
| BigAddition.BorrowOutIs | Kernel/Operations/BigInt/BigInt.c:192-204 | the borrow out of a limb on either path: right except, without a 128-bit type, when a borrow meets equal limbs |
| BigAddition.SubtractValue | Kernel/Operations/BigInt/BigInt.c:187-220 | limbs and borrow make up the difference plus what forgotten borrows left standing, which is nothing exactly when none was forgotten |
| BigAddition.SubtractExactIff | Kernel/Operations/BigInt/BigInt.c:187-220 | without a 128-bit type the difference of two magnitudes is right exactly when no limb is equal in both while the limbs below need a borrow |
| BigAddition.BorrowCanBeLost | Kernel/Operations/BigInt/BigInt.c:196-203 | limbs [0, 1, 1] less [1, 1] come out as [2^64 - 1, 2^64 - 1, 1] on that path |
| BigAddition.Add | Kernel/Operations/BigInt/BigInt.c:222-259 | normalised, also in place; within the capacity the exact signed sum, for different signs exactly when the path or the operands let no borrow get lost |
| BigAddition.Sub | Kernel/Operations/BigInt/BigInt.c:261-272 | the same for the difference, as the sum with the negated second operand |
| WideDivision.QuotientDigit | Kernel/Operations/BigInt/BigInt.c:326-328 | one 32-bit digit: the estimate and its correction give the exact quotient and remainder |
| WideDivision.Div128By64 | Kernel/Operations/BigInt/BigInt.c:319-334 | exact quotient and remainder for a normalised divisor and u1 < v, in wrapping arithmetic |
| LongDivision.EstimateDigit | Kernel/Operations/BigInt/BigInt.c:505-553 | on both paths the corrected estimate is the quotient of the top three limbs by the top two |
| LongDivision.EstimateBounds | Kernel/Operations/BigInt/BigInt.c:463-464 | for at least two limbs the corrected estimate is the true digit or one above it |
| LongDivision.MultiplySubtract | Kernel/Operations/BigInt/BigInt.c:555-576 | the window loses q_hat * v, and the borrow is exactly what was missing |
| LongDivision.AddBackLoop | Kernel/Operations/BigInt/BigInt.c:582-587 | the loop in place is AddBack, with the carry rule s < v |
| LongDivision.AddBackExactIff | Kernel/Operations/BigInt/BigInt.c:583-587 | the added-back limbs are the true sum exactly when no carry is dropped below the top limb |
| LongDivision.AddBackCanDrop | Kernel/Operations/BigInt/BigInt.c:583-587 | a real digit drops a carry: 2^192 + 1 by 2^191 + 1 |
| LongDivision.SubtractEstimate | Kernel/Operations/BigInt/BigInt.c:555-593 | subtraction and correction: the true digit always, the true remainder exactly unless the estimate was one too big and add-back drops a carry |
| LongDivision.DivideDigit | Kernel/Operations/BigInt/BigInt.c:498-595 | one whole digit under u_jn < v1: the estimate is the three-by-two quotient, the digit is the true one, and the window holds the true remainder exactly unless the estimate is one too big and adding v to the limbs of U mod V + 2^(64 n) - V drops a carry |
| PrattParser.Parser.ParsePrecedence | Application/Input/Parser.c:1210-1241 | follows the functional parser, restores the depth counter on every exit, and never has more than four live frames per value of the counter |
| PrattParser.Parser.InfixLoop | Application/Input/Parser.c:1231-1237 | the while loop is Loop, depth restored |
| PrattParser.Parser.ParsePrefix | Application/Input/Parser.c:489-513 | number, sign, grouping and root, depth restored |
| PrattParser.Parser.ParseInfix | Application/Input/Parser.c:612-690 | binary operators, factorial and implicit product, depth restored |
| PrattParser.Parser.Run | Application/Input/Parser.c:1243-1255 | parse_expression succeeds exactly when the whole input parses, with its value, restores the outer depth, has at most 1028 frames live, and raises the division flag exactly when division by zero was the failure |
| PrattParser.MeaningIsValue | Application/Input/Parser.c:1211-1218 | within the nesting limit the meaning of a tree is its value; beyond it parsing fails |
| PrattParser.ParseRendered | Application/Input/Parser.c:448-483 | wherever a readable tree stands in the input, parsing at a fitting precedence consumes exactly its tokens and gives its meaning |
| PrattParser.ParsePrinted | Application/Input/Parser.c:1243-1255 | printing a readable tree and parsing it gives its value while nesting stays within 256, and fails beyond |
| PrattParser.ParenthesiseReadable | Application/Input/Parser.c:448-483 | the inserted parentheses make any tree readable and keep its value |
| PrattParser.ParenthesiseMinimal | Application/Input/Parser.c:448-483 | a tree gets no parentheses exactly when it is readable already (that Readable is needed: PrattReading.ReadsBackIff) |
| PrattParser.PrintParse | Application/Input/Parser.c:1243-1255 | for every tree: print with the parentheses needed, parse, get its value |
| PrattGrouping.FlatExpression | Application/Input/Parser.c:448-483 | numbers with any number of operators between them are read the customary way: cut at the last + or -, else at the last * / or %, else at the last ^ or exp10, read both sides, and join them |
| PrattGrouping.OneOperator | Application/Input/Parser.c:642-681 | x op y for each of the seven operators; division and modulo refuse exactly a right operand of zero |
| PrattGrouping.OneNumber | Application/Input/Parser.c:489-513 | a number, its sign, root and factorial with their refusals, and parentheses around it |
| PrattGrouping.ImplicitProduct | Application/Input/Parser.c:683-690 | x(y) is the product |
| PrattGrouping.TwoOperators | Application/Input/Parser.c:448-483 | x op1 y op2 z for all 49 pairs: to the right exactly when op1 is + or - and op2 is not, or op1 is * / or % and op2 is a power |
| PrattGrouping.CaretGroupsLeft | Application/Input/Parser.c:463-464 | x ^ y ^ z means (x ^ y) ^ z, against the comment |
| PrattGrouping.MinusThenOperator | Application/Input/Parser.c:496-503 | - x op y negates the whole of a power and only x otherwise |
| PrattGrouping.RootThenOperator | Application/Input/Parser.c:631-639 | so does a root sign |
| PrattGrouping.OperatorThenMinus | Application/Input/Parser.c:496-503 | x op - y is x op the negated y |
| PrattGrouping.OperatorThenFactorial | Application/Input/Parser.c:475-476 | x op y ! takes the factorial of a whole power and of y alone otherwise |
| PrattGrouping.MinusThenFactorial | Application/Input/Parser.c:475-503 | - x ! is the negated factorial |
| PrattGrouping.ProductThenOperator | Application/Input/Parser.c:683-690 | x ( y ) op z leaves a power to y and multiplies first otherwise |
| PrattGrouping.OperatorThenProduct | Application/Input/Parser.c:683-690 | x op y ( z ) multiplies y and z first exactly after + and - |
| PrattGrouping.ParenthesesLeft | Application/Input/Parser.c:505-513 | ( x op1 y ) op2 z does op1 first |
| PrattGrouping.ParenthesesRight | Application/Input/Parser.c:505-513 | x op1 ( y op2 z ) does op2 first |
| PrattGrouping.DepthLimit | Application/Input/Parser.c:1210-1218 | up to 255 signs, or pairs of parentheses, around a number are read, more are refused |
| PrattReading.ParseReads | Application/Input/Parser.c:1210-1241 | whenever parse_precedence succeeds, the tokens it consumed are the print of a readable tree that fits the precedence, stops at the next token and has the value returned |
| PrattReading.AcceptedIff | Application/Input/Parser.c:1243-1255 | in every arithmetic a token list parses to v exactly when it is the print of a readable tree of nesting at most 256 and value v |
| PrattReading.TailCloses | Application/Input/Parser.c:448-483 | after the last number of a printed tree only closing parentheses and factorials can stand |
| PrattReading.ParenAlone | Application/Input/Parser.c:448-483 | only a tree in parentheses prints as one, by counting open parentheses |
| PrattReading.Unique | Application/Input/Parser.c:448-483 | over symbols, two trees with the same text and the same value are the same tree |
| PrattReading.ReadsBackIff | Application/Input/Parser.c:448-483 | over symbols a tree printed as it stands parses to its own value exactly when it is readable and nests at most 256 deep |
| PrattReading.ReadsBackInEveryArithmeticIff | Application/Input/Parser.c:448-483 | within the nesting limit a tree reads back right in every arithmetic exactly when it is readable |
| PrattReading.NoneToSpare | Application/Input/Parser.c:448-483 | a tree with its inserted parentheses becomes unreadable when any of them are left out |
| PrattReading.ParenthesesNeeded | Application/Input/Parser.c:448-483 | and then its text is refused or parses to another value |
| ShuntingYard.Compiler.PopOperators | Application/Input/Experimental/ShuntingYard.c:275-280 | the pop loop is PopWhile, shared by operators and closing parentheses |
| ShuntingYard.Compiler.Close | Application/Input/Experimental/ShuntingYard.c:273-302 | a closing parenthesis in place, with the function below it |
| ShuntingYard.Compiler.Read | Application/Input/Experimental/ShuntingYard.c:179-327 | one token in place is Step |
| ShuntingYard.Compiler.Finish | Application/Input/Experimental/ShuntingYard.c:329-348 | the final flush in place is Flush |
| ShuntingYard.InfixToRpn | Application/Input/Experimental/ShuntingYard.c:167-351 | the loops over the 64-entry stack and the 128-token queue compute Compile |
| ShuntingYard.ExecuteToken | Application/Input/Experimental/ShuntingYard.c:363-425 | one token on the 128-entry stack in place is Execute1 |
| ShuntingYard.EvaluateRpn | Application/Input/Experimental/ShuntingYard.c:353-430 | the loop over the 128-entry stack computes Evaluate |
| ShuntingYard.RunExpr | Application/Input/Experimental/ShuntingYard.c:179-327 | reading a printed tree leaves exactly its effect on queue and stack, or is refused exactly when a limit is exceeded |
| ShuntingYard.CompilePrinted | Application/Input/Experimental/ShuntingYard.c:167-351 | a printed tree compiles exactly when it keeps to the limits, and then to Compiled(e) |
| ShuntingYard.CompiledIsPostfixIff | Application/Input/Experimental/ShuntingYard.c:304-324 | that code is the postfix order exactly when no unary minus stands directly under another |
| ShuntingYard.ExecutePostfix | Application/Input/Experimental/ShuntingYard.c:353-430 | postfix code pushes the tree's value, or stops at its first division by zero |
| ShuntingYard.CompileEvaluate | Application/Input/Experimental/ShuntingYard.c:167-430 | compiling and running a printed readable tree gives its value, with one value left on the stack |
| ShuntingYard.ParenthesiseFits | Application/Input/Experimental/ShuntingYard.c:304-324 | parentheses around operands of too low a precedence and around a minus under a minus make any tree readable and free of double minus, with the same value |
| ShuntingYard.CompileAnyTree | Application/Input/Experimental/ShuntingYard.c:167-430 | for every tree so printed: within the limits compiling and running gives its value, beyond them the compiler refuses |
| ShuntingYard.DoubleMinusFails | Application/Input/Experimental/ShuntingYard.c:307-324 | --v compiles within the limits and evaluates to the error value |
| InfixGrouping.FlatExpression | Application/Input/Experimental/ShuntingYard.c:167-430 | up to 64 numbers with operators between them are read the customary way: cut at the last + or -, else at the last * or /; more are refused |
| InfixGrouping.CodeOfOneOperator | Application/Input/Experimental/ShuntingYard.c:376-396 | the four operators on two pushed numbers; / stops at division by zero exactly when the second is zero |
| InfixGrouping.CodeOfOneNumber | Application/Input/Experimental/ShuntingYard.c:364-425 | negation and call of one pushed number; a function code popped as an operator takes two numbers and leaves zero |
| InfixGrouping.CodeWithoutValue | Application/Input/Experimental/ShuntingYard.c:353-430 | empty code, two numbers left, or too few numbers end in the error value |
| InfixGrouping.StackLimit | Application/Input/Experimental/ShuntingYard.c:356-364 | 128 pushed numbers can be summed up, 129 cannot |
| InfixGrouping.OneOperator | Application/Input/Experimental/ShuntingYard.c:167-430 | x op y through compiler and machine, for each operator |
| InfixGrouping.OneNumber | Application/Input/Experimental/ShuntingYard.c:167-430 | a number, its sign, parentheses and a function call |
| InfixGrouping.TwoOperators | Application/Input/Experimental/ShuntingYard.c:304-324 | x op1 y op2 z for all sixteen pairs: to the right exactly when op1 is + or - and op2 is * or / |
| InfixGrouping.MinusThenOperator | Application/Input/Experimental/ShuntingYard.c:304-324 | - x op y negates x alone |
| InfixGrouping.OperatorThenMinus | Application/Input/Experimental/ShuntingYard.c:304-324 | x op - y is x op the negated y |
| InfixGrouping.ParenthesesLeft | Application/Input/Experimental/ShuntingYard.c:264-302 | ( x op1 y ) op2 z does op1 first |
| InfixGrouping.ParenthesesRight | Application/Input/Experimental/ShuntingYard.c:264-302 | x op1 ( y op2 z ) does op2 first |
| InfixGrouping.FunctionThenOperator | Application/Input/Experimental/ShuntingYard.c:273-302 | f(x) op y and y op f(x) call f first |
| InfixGrouping.FunctionOfOperator | Application/Input/Experimental/ShuntingYard.c:273-302 | f(x op y) calls f on the result |
| InfixGrouping.FunctionWithoutParentheses | Application/Input/Experimental/ShuntingYard.c:311-348 | f x is f(x), but f x op y ends in the error value |
| InfixReading.EvaluatesIff | Application/Input/Experimental/ShuntingYard.c:353-430 | in every arithmetic a code of at most 128 tokens evaluates to v exactly when it is the code of a tree of value v |
| InfixReading.TreeUnique | Application/Input/Experimental/ShuntingYard.c:353-430 | a code is the code of at most one tree |
| InfixReading.TreeOfIsPostfix | Application/Input/Experimental/ShuntingYard.c:353-430 | the code of a printed tree without its parentheses is its postfix order, with the same value |
| InfixReading.AcceptedShape | Application/Input/Experimental/ShuntingYard.c:167-351 | an accepted token list has balanced parentheses, at most 16 custom calls and 128 entries, and its code has as many tokens and its numbers in order |
| InfixReading.ShortAcceptedIff | Application/Input/Experimental/ShuntingYard.c:167-351 | up to 64 tokens a list is accepted exactly when its parentheses are balanced and it has at most 16 custom calls |
| InfixReading.HasValueIff | Application/Input/Experimental/ShuntingYard.c:167-430 | any token list compiles and evaluates to v exactly when it compiles to the code of a tree of value v whose leaves are its numbers in order |
| InfixReading.TwoNumbersHaveNone | Application/Input/Experimental/ShuntingYard.c:167-430 | two numbers in a row are accepted and evaluate to the error value |
| InfixReading.PostfixSumIsRead | Application/Input/Experimental/ShuntingYard.c:167-430 | two numbers and a plus after them are accepted and give the sum |
| DoubleMinus.EvaluateIsFlatten | Application/Input/Experimental/ShuntingYard.c:353-430 | over an arithmetic of symbols any code with a value has its own symbols as that value |
| DoubleMinus.TermsTellIff | Application/Input/Experimental/ShuntingYard.c:167-430 | over that arithmetic the compiled code gives the tree's value exactly when no minus stands directly under a minus |
| DoubleMinus.RightInEveryArithmeticIff | Application/Input/Experimental/ShuntingYard.c:167-430 | a tree within the limits is evaluated right in every arithmetic exactly when it has no double minus |
| LinearAlgebra.Initialise | Kernel/Operations/LinearAlgebra/LinearAlgebra.c:279-285 | identity, copy and identity permutation satisfy the elimination invariant |
| LinearAlgebra.ChoosePivot | Kernel/Operations/LinearAlgebra/LinearAlgebra.c:288-296 | a row of largest magnitude in the column |
| LinearAlgebra.ExchangeRows | Kernel/Operations/LinearAlgebra/LinearAlgebra.c:302-312 | exchanges the first entries of two rows and nothing else |
| LinearAlgebra.ExchangeKeepsStage | Kernel/Operations/LinearAlgebra/LinearAlgebra.c:302-316 | exchanging rows of U, the finished part of L, and P keeps PA = LU + rest |
| LinearAlgebra.EliminateRow | Kernel/Operations/LinearAlgebra/LinearAlgebra.c:319-326 | subtracts the multiple of the pivot row in place |
| LinearAlgebra.EliminationKeepsStage | Kernel/Operations/LinearAlgebra/LinearAlgebra.c:319-326 | eliminating a column keeps PA = LU + rest, the triangle, and multipliers of at most 1 |
| LinearAlgebra.StageFactors | Kernel/Operations/LinearAlgebra/LinearAlgebra.c:274-329 | at the end L*U is the permuted A, entry by entry |
| LinearAlgebra.StuckMeansNearlySingular | Kernel/Operations/LinearAlgebra/LinearAlgebra.c:298-300 | when no pivot reaches the threshold, a matrix within 1e-12 of A entry by entry is singular |
| LinearAlgebra.EliminationRound | Kernel/Operations/LinearAlgebra/LinearAlgebra.c:287-327 | one round of the outer loop |
| LinearAlgebra.Eliminate | Kernel/Operations/LinearAlgebra/LinearAlgebra.c:287-328 | the outer loop: the whole elimination, or a matrix that is nearly singular |
| LinearAlgebra.MatrixLu | Kernel/Operations/LinearAlgebra/LinearAlgebra.c:274-329 | success: P a permutation, L unit lower, U upper triangular with pivots of at least 1e-12 in magnitude, LU = PA; failure: bad dimension or nearly singular |
| LinearAlgebra.ForwardSubstitute | Kernel/Operations/LinearAlgebra/LinearAlgebra.c:390-402 | solves L y = P b row by row |
| LinearAlgebra.BackSubstitute | Kernel/Operations/LinearAlgebra/LinearAlgebra.c:404-413 | solves U x = y; its pivot check never fires after a factorisation |
| LinearAlgebra.Interchange | Kernel/Operations/LinearAlgebra/LinearAlgebra.c:376-415 | (L U) x = L (U x): the exchange of summation behind the solver |
| LinearAlgebra.SubstitutionSolves | Kernel/Operations/LinearAlgebra/LinearAlgebra.c:376-415 | forward then back substitution satisfies every row of A x = b |
| LinearAlgebra.SolutionUnique | Kernel/Operations/LinearAlgebra/LinearAlgebra.c:376-415 | after a successful factorisation nothing else does |
| LinearAlgebra.SolveLinear | Kernel/Operations/LinearAlgebra/LinearAlgebra.c:376-415 | success: A x = b in every row, and x is the only solution; failure: bad dimension or nearly singular |
| PluginManager.Manager.constructor | include/calc/plugin/PluginManager.hpp:31-34 | an empty manager |
| PluginManager.Manager.RegisterPlugin | include/calc/plugin/PluginManager.hpp:39-63 | appends with at most eight dependency names, refuses when full |
| PluginManager.Manager.ResolveNames | include/calc/plugin/PluginManager.hpp:67-78 | succeeds exactly when every dependency is registered, and the masks are the first matches |
| PluginManager.Manager.Round | include/calc/plugin/PluginManager.hpp:97-108 | places exactly the waiting plugins whose dependencies were loaded before the round |
| PluginManager.Manager.SortPhase | include/calc/plugin/PluginManager.hpp:84-114 | finishes the phase with a longer partial schedule, or no schedule exists |
| PluginManager.StuckHasCycle | include/calc/plugin/PluginManager.hpp:109-111 | plugins that all wait for each other contain a real dependency cycle |
| PluginManager.StallRefutes | include/calc/plugin/PluginManager.hpp:109-111 | a stalled round means a dependency on a later phase or a cycle inside the phase |
| PluginManager.ScheduledIsResolvable | include/calc/plugin/PluginManager.hpp:65-118 | any schedule rules out unknown names, later-phase dependencies and cycles |
| PluginManager.Manager.ResolveAndSort | include/calc/plugin/PluginManager.hpp:66-118 | succeeds exactly when all dependencies are known, none is in a later phase and no phase has a cycle; the order is then a permutation by phase with dependencies earlier |
| PluginManager.Manager.InitializePlugins | include/calc/plugin/PluginManager.hpp:121-131 | calls OnInit once per plugin in schedule order, or nothing |
| PluginManager.Manager.LoadPlugins | include/calc/plugin/PluginManager.hpp:134-144 | calls OnLoad once per plugin in schedule order, or nothing |
| PluginManager.Manager.ShutdownPlugins | include/calc/plugin/PluginManager.hpp:147-158 | shuts down and resets every plugin in reverse order, or nothing |
| PluginManager.TeardownAt | include/calc/plugin/PluginManager.hpp:152-157 | where each plugin stands in the teardown |
| PluginManager.DependencyOrder | include/calc/plugin/PluginManager.hpp:121-158 | a dependency is initialised and loaded before, shut down after, whatever depends on it |
| RingBuffer.StepKeepsInv | DotNetPerf/Program.cs:65-91 | every single read or write of either thread keeps the ring invariant |
| RingBuffer.EveryRun | DotNetPerf/Program.cs:65-91 | in every interleaving popped is a prefix of pushed, 0 <= tail - head <= 1024, and the buffer holds what is in between |
| RingBuffer.NoSlotShared | DotNetPerf/Program.cs:71-87 | the slot about to be written is neither being read nor unread |
| RingBuffer.RefinesQueue | DotNetPerf/Program.cs:65-91 | each step is one operation of an atomic bounded queue or invisible |
| RingBuffer.RunRefinesQueue | DotNetPerf/Program.cs:65-91 | every interleaving is a legal history of that queue |
| RingBuffer.RefusalIsHonest | DotNetPerf/Program.cs:68-84 | a push is refused exactly when full at its head read, a pop exactly when empty at its tail read |
| RingBuffer.Ring.TryPush | DotNetPerf/Program.cs:66-75 | uninterrupted: appends unless 1024 are queued |
| RingBuffer.Ring.TryPop | DotNetPerf/Program.cs:78-91 | uninterrupted: takes the oldest unless empty |
| KeyStore.KeyMatches | src/kernel/db.c:51-60 | the 16-byte comparison decides equality of the stored text and the key |
| KeyStore.CopyKey | src/kernel/db.c:96-101 | copies at most 15 characters and the terminator, keeps the rest of the buffer |
| KeyStore.NanoDatabase.constructor | src/kernel/db.c:5-12 | an empty table is the empty map |
| KeyStore.NanoDatabase.BeginTransaction | src/kernel/db.c:14-19 | as Begin |
| KeyStore.NanoDatabase.CommitTransaction | src/kernel/db.c:21-30 | the loop over the log is Commit |
| KeyStore.NanoDatabase.RollbackTransaction | src/kernel/db.c:32-43 | the reverse loop over the log is Rollback |
| KeyStore.NanoDatabase.FindKeyIndex | src/kernel/db.c:46-63 | the first active entry with that key |
| KeyStore.NanoDatabase.FindEmptySlot | src/kernel/db.c:65-73 | the first inactive entry |
| KeyStore.NanoDatabase.Write | src/kernel/db.c:75-112 | ndb_set in place is Set, refusals leaving everything alone |
| KeyStore.NanoDatabase.Read | src/kernel/db.c:114-121 | ndb_get is Get |
| KeyStore.StoredIs | src/kernel/db.c:96-101 | of a key the first 15 characters are stored, all of it when it has no more |
| KeyStore.SetGets | src/kernel/db.c:75-121 | a successful set changes the lookup of its key and no other |
| KeyStore.SetThenGetIff | src/kernel/db.c:75-121 | for any key, what was set can be read back exactly when the key has at most 15 characters |
| KeyStore.SetUniqueIff | src/kernel/db.c:75-112 | keys stay unique exactly when the key fits or its first 15 characters are free |
| KeyStore.UndoAfterSet | src/kernel/db.c:32-43 | undoing after one more set undoes to the same table, but for the key bytes of an inactive entry |
| KeyStore.SetKeepsInv | src/kernel/db.c:75-112 | unique active keys, a truthful log and truthful transaction flags survive a set |
| KeyStore.RollbackKeepsInv | src/kernel/db.c:32-43 | and a rollback |
| KeyStore.CommitKeeps | src/kernel/db.c:21-30 | a commit keeps the invariant and every lookup |
| KeyStore.TransactionFlagIff | src/kernel/db.c:103-109 | the TRANSACTION flag marks exactly the entries in the active log |
| KeyStore.RoomIff | src/kernel/db.c:65-73 | the table has room exactly when the map is smaller than the capacity |
| KeyStore.StepRefines | src/kernel/db.c:14-121 | every operation is accepted exactly when the bounded map with one snapshot accepts it, and keeps the refinement |
| KeyStore.RunRefines | src/kernel/db.c:14-121 | over every run of operations the store answers as that map: rollback restores the lookups at begin, commit keeps the writes |
| Tetris.Shape | src/apps/TetrisApp.c:26-76 | every piece and rotation has four different cells in its box |
| TetrisPlay.QuarterTurn | src/apps/TetrisApp.c:26-76 | each rotation is the one before turned clockwise by a quarter inside a box of 3 or 4 cells |
| TetrisPlay.StandingPiece | src/apps/TetrisApp.c:26-76 | the cells of the seven pieces as they come in |
| Tetris.TetrisApp.constructor | src/apps/TetrisApp.c:95-99 | the initial game |
| Tetris.TetrisApp.SpawnPiece | src/apps/TetrisApp.c:78-93 | as Spawn: piece ticks % 7 at (3, 0), game over on overlap |
| Tetris.TetrisApp.CheckCollision | src/apps/TetrisApp.c:101-115 | true exactly when a block would leave the walls or floor or hit a filled cell |
| Tetris.TetrisApp.StampPiece | src/apps/TetrisApp.c:118-124 | the four cells take the piece's colour |
| Tetris.ShiftDown | src/apps/TetrisApp.c:138-147 | the rows above y move down by one, row y goes, a blank row comes on top |
| Tetris.DropKeeps | src/apps/TetrisApp.c:137-148 | dropping a full row changes the rows to keep only by a blank on top |
| Tetris.TetrisApp.ClearLines | src/apps/TetrisApp.c:126-149 | the loop ends, with the full rows gone, the rest in order under blanks, and 100 points a row in 32 bits |
| Tetris.TetrisApp.LockPiece | src/apps/TetrisApp.c:117-152 | stamp, clear, score, spawn |
| Tetris.TetrisApp.Move | src/apps/TetrisApp.c:165-185 | sideways and turning moves as Steer; which way each key goes: TetrisPlay.SteeringKeys |
| Tetris.TetrisApp.StepDown | src/apps/TetrisApp.c:171-178 | one row down, or lock |
| Tetris.TetrisApp.Press | src/apps/TetrisApp.c:154-198 | a key press is Update, spelled out in the next six rows, and keeps the game invariant |
| TetrisPlay.SteeringKeys | src/apps/TetrisApp.c:166-186 | for every good game: left takes 1 from x, right adds 1, up adds 1 to the rotation modulo 4, each exactly when the four cells are then on the 10 by 20 board and empty; otherwise only the tick changes |
| TetrisPlay.FallingKeys | src/apps/TetrisApp.c:173-196 | down, and enter or any other key exactly on every twentieth tick, add 1 to y when the cells there are free and lock the piece otherwise |
| TetrisPlay.AfterTheEnd | src/apps/TetrisApp.c:156-163 | after the end enter starts an empty board with score 0, and other keys only tick |
| TetrisPlay.LockRows | src/apps/TetrisApp.c:126-149 | every row with a gap falls by the number of full rows under it, and the rows left at the top are empty |
| TetrisPlay.LockSpawns | src/apps/TetrisApp.c:78-93 | a hundred points per full row in 32 bits; the next piece is ticks % 7 at (3, 0), and the game is over exactly when it is not free there |
| TetrisPlay.LockStamps | src/apps/TetrisApp.c:117-124 | the four cells of a locked piece get its number plus one, the others stay |
| Tetris.StampAt | src/apps/TetrisApp.c:118-124 | exactly the cells of the piece change |
| Tetris.StampCount | src/apps/TetrisApp.c:118-124 | stamping a vacant place fills four more cells |
| Tetris.ClearedCount | src/apps/TetrisApp.c:126-149 | ten cells go with each cleared row |
| Tetris.NotBlocked | src/apps/TetrisApp.c:101-115 | a position does not collide exactly when it is in bounds and vacant |
| Tetris.UpdateGood | src/apps/TetrisApp.c:154-198 | every key keeps the piece in bounds, off the filled cells while the game lasts, and no row full |
| Tetris.PlayAllBalanced | src/apps/TetrisApp.c:117-198 | over any key sequence cells + 10 * rows = 4 * pieces and the score is 100 * rows mod 2^32 |
| Tetris.EveryGame | src/apps/TetrisApp.c:154-198 | from the start, whatever is pressed: the invariant, and cells + score/10 = 4 * locked pieces until the score wraps |
| Sorting.LessIsWeakOrder | Kernel/Operations/Statistics/Statistics.c:92-99 | nan_safe_less is a strict weak order with NaNs last |
| Sorting.SortedIff | Kernel/Operations/Statistics/Statistics.c:92-99 | sorted means: finite numbers ascend, -infinity first, +infinity after them, NaNs last |
| Sorting.ChoosePivot | Kernel/Operations/Statistics/Statistics.c:103-114 | the median-of-three exchanges only rearrange the range |
| Sorting.Partition | Kernel/Operations/Statistics/Statistics.c:116-129 | everything below the pivot left of it, nothing below it to its right, the range rearranged |
| Sorting.QuickSort | Kernel/Operations/Statistics/Statistics.c:101-140 | sorts the range, rearranges nothing else, and nests at most log2(n) + 1 calls |
| Sorting.OrderStatisticNotBelow | Kernel/Operations/Statistics/Statistics.c:155-159 | the k-th elements of any two sorted permutations are equivalent |
| Sorting.SortedUnique | Kernel/Operations/Statistics/Statistics.c:142-160 | without NaNs the sorted permutation is unique, so the median is determined |
| Sorting.Median | Kernel/Operations/Statistics/Statistics.c:142-160 | the middle of a sorted permutation of the input (on finite data its middle element or the mean of the middle two), or 0 for no input; input untouched up to 256 elements |
| Sorting.Percentile | Kernel/Operations/Statistics/Statistics.c:366-391 | on finite data: the least element for p <= 0, the greatest for p >= 100, and between them, with q = p*(n-1)/100 and k = floor(q) < n-1, t[k] + (q-k)*(t[k+1]-t[k]) for the sorted permutation t; 0 for no input; input untouched up to 256 elements |
| Sorting.InterpolatedBetween | Kernel/Operations/Statistics/Statistics.c:383-390 | on finite data the value lies between its two neighbours |
| Sorting.InterpolatedMonotone | Kernel/Operations/Statistics/Statistics.c:383-390 | and grows with the position |
| Sorting.PercentileOnTheLine | Kernel/Operations/Statistics/Statistics.c:369-390 | the percentile of finite data is the point p hundredths of the way along its sorted elements |
| Sorting.PercentileMonotone | Kernel/Operations/Statistics/Statistics.c:366-391 | on finite data p <= q gives values in that order, between the least and the greatest element |
| Sorting.HundredthIsLast | Kernel/Operations/Statistics/Statistics.c:371-389 | from 100 on the last element, whatever the data hold |
| Sorting.NotFinite | Kernel/Operations/Statistics/Statistics.c:390 | a median or percentile between infinities of different sign, or next to a NaN, is NaN |
| Sorting.FiftiethIsMedian | Kernel/Operations/Statistics/Statistics.c:142-160 | the fiftieth percentile is the median |
| LineRaster.DrawLine | Application/Interface/VESAFramebuffer.c:131-162 | terminates with exactly max(abs dx, abs dy) + 1 pixels, from the first end to the second, the k-th being the nearest pixel at step k |
| LineRaster.Advance | Application/Interface/VESAFramebuffer.c:151-160 | the error update, with every intermediate in 32 bits |
| LineRaster.RoundStaysNearest | Application/Interface/VESAFramebuffer.c:151-160 | each round steps along the longer axis and lands on the nearest pixel again |
| LineRaster.HalfPixel | Application/Interface/VESAFramebuffer.c:131-162 | the nearest pixel is within half a pixel of the ideal line along the minor axis |
| LineRaster.NearestIff | Application/Interface/VESAFramebuffer.c:149-161 | the nearest pixel as a rounded quotient, exact halves going to the smaller minor coordinate |
| LineRaster.NearestUnique | Application/Interface/VESAFramebuffer.c:131-162 | the step along the longer axis fixes the pixel |
| LineRaster.EndsOnCorner | Application/Interface/VESAFramebuffer.c:149 | at the end of the longer axis the loop stands on the end point |
| LineRaster.RoundFits | Application/Interface/VESAFramebuffer.c:151-160 | up to 715827882 along each axis no 32-bit value overflows |
| LineRaster.ReversedIff | Application/Interface/VESAFramebuffer.c:131-162 | drawn from the other end the same pixel is chosen exactly when the line does not pass half way between two |
| EditDistance.LevenshteinDistance | src/kernel/wal.c:19-61 | the two-row loop computes the edit distance of the case-folded first 32 characters; 999 for a missing name |
| EditDistance.FillRow | src/kernel/wal.c:35-53 | row i of the table from row i - 1 |
| EditDistance.Triangle | src/kernel/wal.c:43-52 | the triangle inequality, by induction over three strings |
| EditDistance.EditsExist | src/kernel/wal.c:43-52 | that many single edits suffice |
| EditDistance.EditsNeeded | src/kernel/wal.c:43-52 | and no chain of edits is shorter |
| EditDistance.DistanceIsLeast | src/kernel/wal.c:18-61 | the distance is the least number of insertions, deletions and substitutions |
| EditDistance.DistanceIsMetric | src/kernel/wal.c:19-61 | symmetric, triangle inequality, zero exactly for equal texts, at most 32 |
| EditDistance.DistanceZeroIff | src/kernel/wal.c:19-52 | zero exactly when the names agree, whatever the case of A to Z, in the first 32 characters and, if shorter, in length |
| Launcher.WindowManager.FindBest | src/kernel/wal.c:106-117 | the scan returns the first nearest application |
| Launcher.WindowManager.SearchFindBestMatch | src/kernel/wal.c:101-125 | selects it and scrolls the page as little as needed |
| Launcher.BestUnique | src/kernel/wal.c:106-117 | the best match is determined |
| Launcher.ExactNameWins | src/kernel/wal.c:106-117 | typing a name in full selects an application of that name |
| Launcher.WindowManager.DispatchInput | src/kernel/wal.c:127-175 | a key is one step of Dispatches and keeps the menu invariant |
| Launcher.DispatchKeepsGood | src/kernel/wal.c:127-175 | every key keeps the selection valid and on the page |
| Launcher.ReachableGood | src/kernel/wal.c:127-175 | page_offset <= selected < page_offset + 10 in every reachable state |
| Launcher.DownMoves | src/kernel/wal.c:151-157 | k times down from the start selects application min(k, n - 1), shown as the last of ten |
| Launcher.UpMoves | src/kernel/wal.c:144-150 | k times up from any reachable state goes up k places, stopping at the first, and scrolls only when it has to |
| Launcher.EnterAndLeave | src/kernel/wal.c:127-162 | enter opens the selected application, which keeps the menu still until F12 returns to it with the search cleared |
| Launcher.TypingSpells | src/kernel/wal.c:169-174 | up to 31 printable keys spell the search text and select its best match |
| Launcher.SearchKeys | src/kernel/wal.c:163-174 | backspace takes one character away and selects the best match of the rest; at 31 characters printable keys do nothing |

## Left out

- Primality.IsPrimeTest: above 2^32 it is proved that every prime is accepted and every number with a divisor up to 65536 or a base among the twelve as a witness rejected; that the twelve bases leave no composite rests on a published search and is not modelled.
- Primality.NextPrime: above 2^32 the answer is the next accepted number, for the same reason; that no prime is passed over is proved for all n.
- Primality.MulMod: the 128-bit path is the meaning of mul_mod everywhere; the portable path beyond a modulus of 2^63 is shown wrong, not used.
- BinaryGcd.BinaryGcd: the count of trailing zeros of the disjunction is taken as the smaller of the two counts; the bit tricks that count zeros are not modelled.
- Bezout.ExtendedGcd: for the operands 2^63 and 2^64 - 1, whose run divides -2^63 by -1, what follows that division is not modelled. With the operand 2^63 and an odd one above it, whether the discarded last column fits int64 depends on the number of rounds and is not stated.
- Bezout.ModInverse: nothing is said of operands from 2^63 on, whose casts are negative; a sum that leaves int64 is taken to wrap.
- ChineseRemainder.ChineseRemainder: the answer is stated for products below 2^64 with the later moduli at most 2^32; beyond that k and M wrap.
- BigIntegers.Mul: disjunctions of disjoint bit fields are written as sums; the capacity is a parameter, so both builds (64 and 4 limbs) are covered.
- LongDivision.DivideDigit: a single digit under u_jn < v1 and a normalised divisor of two or more limbs; the whole run of bigint_div_mod, which appends a limb only when u.len <= v.len, is not modelled.
- BigAddition.AddMagnitude: the sum must fit the capacity; beyond it the code writes past its limbs.
- BigAddition.Add: for equal signs the sum must fit the capacity, as for AddMagnitude.
- BigAddition.Sub: for different signs the difference must fit the capacity, as for AddMagnitude.
- BigInt factorial, gcd and the string conversions: loops over what is modelled, or code that clears an operand it still reads.
- PrattParser.ParsePrinted: tokens instead of characters; identifiers, assignments, function calls, solve and rk4 are not part of the model, so a parenthesis or a root stands where an identifier could start an implicit product.
- PrattParser.Parser.ParseInfix: the int64 casts of % and the size test of factorial are part of the abstract arithmetic, which may refuse.
- ShuntingYard.InfixToRpn: tokens instead of characters; the custom functions are identities, not pointers, and a missing one is a lexing failure.
- InfixReading.ShortAcceptedIff: beyond 64 tokens acceptance also depends on how deep the operator stack gets; AcceptedShape is what is then necessary.
- ShuntingYard.CompileEvaluate: stated for readable trees without a minus directly under a minus; CompileAnyTree covers the others with parentheses, and without them some arithmetic shows the difference (DoubleMinus.RightInEveryArithmeticIff).
- The small shunting-yard pair of Program.cs: the same algorithm over four operators, without functions or unary minus.
- LinearAlgebra.MatrixLu: exact reals for doubles, a two-dimensional array for the flat one, buffers L and U apart from each other and L apart from A; null pointers are not modelled.
- LinearAlgebra.SolveLinear: determinant, inverse, QR and least squares are not modelled.
- PluginManager.Manager.ResolveAndSort: bit masks are sets of indexes; null names and callbacks that call the manager again are not modelled.
- PluginManager.Manager.InitializePlugins: a pass is the trace of calls it makes; what a plugin does in its call is not modelled.
- RingBuffer.EveryRun: each shared read or write is one atomic step in program order; memory ordering below that and counters beyond 2^63 are not modelled.
- KeyStore.RunRefines: keys of at most 15 characters without NUL, capacity at most 65536, entries present; for longer keys see SetThenGetIff and SetUniqueIff.
- KeyStore.NanoDatabase.constructor: a capacity of at most 65536, beyond which the 16-bit index of a log entry wraps.
- KeyStore.NanoDatabase.Write: the three flags are a record; padding bytes are not modelled.
- Tetris.TetrisApp.Press: drawing is not modelled; keys are the five the game tells apart and one for all others.
- Sorting.Percentile: its position is an exact real; rounding of p/100*(len-1) and of the interpolation is not modelled.
- Sorting.Median: the two zeros are one value, means of doubles are exact; lengths of 2^31 and more, whose cast to int32 is negative, are not modelled.
- LineRaster.DrawLine: pixels are a trace of signed coordinates; clipping and the write to the framebuffer are not modelled, nor lines longer than 715827882 along an axis, where err may leave int32.
- EditDistance.LevenshteinDistance: characters are compared as code points; the signedness of char does not matter to it.
- Launcher.WindowManager.DispatchInput: initialising, updating and drawing the focused application are not modelled.
- Floating-point error of the series for sin, cos, exp, ln and sqrt, Runge-Kutta step control, random distributions, SIMD variants, unit tables, hardware, bootloader and rendering: nothing exact to state, or foreign to the model.
