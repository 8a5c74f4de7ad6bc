# google_foobar core, modelled in Dafny

This project models four of the puzzle solutions in the repository and proves what each one computes.

- **doomsday_fuel**: an absorbing Markov chain.
  - Ore starts in state 0 and moves between states with the given integer weights.
  - A row of zeros is an absorbing state.
  - `solution(matrix)` returns the probability of ending in each absorbing state, as numerators over their least common denominator, followed by that denominator.
  - The chain object sorts the states (transient first) and builds P, Q and R.
  - It computes the fundamental matrix N = (I - Q)^-1 by Gauss-Jordan elimination on exact fractions, then takes row 0 of N·R.
- **dont_get_volunteered**: a breadth-first search over a 64-square chessboard.
  - It returns the fewest knight moves from square `src` to square `dest`.
  - The `Chessboard` object maps between square numbers and (row, column).
- **lovely_lucky_lambs**: pay henchmen out of a budget of LAMBs.
  - Generous payments double (1, 2, 4, ...). Stingy payments are Fibonacci numbers (1, 1, 2, 3, ...).
  - The answer is the stingy head count minus the generous one.
- **solar_doomsday**: split an area greedily into square panels, each time the largest square that fits into what is left.

Files:
- `fractions.dfy`: Python's `Fraction` as a normalised numerator/denominator pair, with its meaning `Value` as a real.
- `matrices.dfy`: real dot products and columns.
- `gauss_jordan.dfy`: the `invert_matrix` algorithm as functions, with its correctness proof.
- `doomsday_fuel.dfy`: the pipeline as specification functions and the `AbsorbingMarkovChain` class that mutates its fields and works in place on `array2`s.
- `dont_get_volunteered.dfy`, `lovely_lucky_lambs.dfy`, `solar_doomsday.dfy`: the other three solutions.

## Model

| member | source | states |
|---|---|---|
| Fractions.Make | doomsday_fuel/doomsday_fuel.py:69 | `Fraction(n, d)` has the value n/d and is in lowest terms with a positive denominator |
| Fractions.FromInt | doomsday_fuel/doomsday_fuel.py:124 | `Fraction(k, 1)` has value k and is in lowest terms |
| Fractions.Add | doomsday_fuel/doomsday_fuel.py:112 | the sum of two fractions has the sum of their values and is in lowest terms |
| Fractions.Sub | doomsday_fuel/doomsday_fuel.py:143 | the difference has the difference of the values and is in lowest terms |
| Fractions.Mul | doomsday_fuel/doomsday_fuel.py:138 | the product has the product of the values and is in lowest terms |
| Fractions.Div | doomsday_fuel/doomsday_fuel.py:136 | dividing by a non-zero fraction yields the quotient of the values, in lowest terms |
| Fractions.ZeroIffNumeratorZero | doomsday_fuel/doomsday_fuel.py:136 | a fraction is zero exactly when its numerator is zero, which is when `1 / x` raises |
| Fractions.GcdDivides | doomsday_fuel/doomsday_fuel.py:24 | gcd(a, b) divides both a and b |
| Fractions.GcdGreatest | doomsday_fuel/doomsday_fuel.py:24 | every common divisor of a and b divides gcd(a, b) |
| Fractions.CoprimeAfterDivision | doomsday_fuel/doomsday_fuel.py:24 | dividing a and b by their gcd leaves coprime numbers |
| Matrices.DotScale | doomsday_fuel/doomsday_fuel.py:137-139 | scaling a row scales its dot product with any column by the same factor |
| Matrices.DotSubMultiple | doomsday_fuel/doomsday_fuel.py:142-144 | subtracting c times another row subtracts c times that row's dot product |
| Matrices.DotUnit | doomsday_fuel/doomsday_fuel.py:117-127 | a unit row picks out one entry of a column |
| GaussJordan.Identity | doomsday_fuel/doomsday_fuel.py:117-127 | `get_identity(dim)` is dim by dim with value 1 on the diagonal and 0 elsewhere |
| GaussJordan.EliminateFrom | doomsday_fuel/doomsday_fuel.py:140-144 | clearing the focus column from the other rows keeps both matrices square |
| GaussJordan.InvertFrom | doomsday_fuel/doomsday_fuel.py:135-146 | the remaining pivots either give a square inverse or stop at a zero pivot at or after `focus` |
| GaussJordan.EliminateFromStep | doomsday_fuel/doomsday_fuel.py:140-144 | the elimination skips the focus row and subtracts `row_scale` times the focus row from every other row |
| GaussJordan.ZeroPivotStep | doomsday_fuel/doomsday_fuel.py:136 | a zero diagonal entry at `focus` ends the inversion with a division by zero at `focus` |
| GaussJordan.InvertFromStep | doomsday_fuel/doomsday_fuel.py:135-144 | one pivot is: scale the focus rows of both matrices by 1/pivot, eliminate, continue at focus + 1 |
| GaussJordan.ScaleRowTracks | doomsday_fuel/doomsday_fuel.py:137-139 | scaling the same row of the work matrix and of Im keeps work = Im · A |
| GaussJordan.SubtractRowTracks | doomsday_fuel/doomsday_fuel.py:142-144 | the same row subtraction on both matrices keeps work = Im · A |
| GaussJordan.EliminateFromCorrect | doomsday_fuel/doomsday_fuel.py:140-144 | after a pivot is eliminated, work = Im · A still holds and column `focus` becomes a unit column |
| GaussJordan.InvertFromCorrect | doomsday_fuel/doomsday_fuel.py:135-146 | when every pivot is non-zero the returned Im satisfies Im · A = I |
| GaussJordan.ScaleRowValues | doomsday_fuel/doomsday_fuel.py:137-139 | scaling a row of fractions has the same meaning as scaling the real row |
| GaussJordan.SubtractRowValues | doomsday_fuel/doomsday_fuel.py:142-144 | a fraction row subtraction has the same meaning as the real one |
| GaussJordan.EliminateFromValues | doomsday_fuel/doomsday_fuel.py:140-144 | eliminating on fractions and on their real values give the same matrices |
| GaussJordan.PivotStepValues | doomsday_fuel/doomsday_fuel.py:136-139 | a non-zero fraction pivot is a non-zero real, and scaling by its reciprocal agrees with the real step |
| GaussJordan.InvertFromValues | doomsday_fuel/doomsday_fuel.py:129-146 | the fraction inversion succeeds exactly when the real one does, with the same result |
| GaussJordan.InverseIsLeftInverse | doomsday_fuel/doomsday_fuel.py:129-146 | when `invert_matrix` meets no zero pivot, its result N satisfies N · m = I |
| DoomsdayFuel.TransientIndices | doomsday_fuel/doomsday_fuel.py:64-70 | `trans_indices` holds exactly the states below k whose row sum is non-zero, in increasing order |
| DoomsdayFuel.AbsorbingIndices | doomsday_fuel/doomsday_fuel.py:64-67 | `abs_indices` holds exactly the states below k whose row sum is zero, in increasing order |
| DoomsdayFuel.ClassificationSize | doomsday_fuel/doomsday_fuel.py:72-73 | every state is either transient or absorbing, so the two counts add up to the number of states |
| DoomsdayFuel.StateOrder | doomsday_fuel/doomsday_fuel.py:77 | `new_col_order` is a permutation of the states |
| DoomsdayFuel.TransientCount | doomsday_fuel/doomsday_fuel.py:72 | `n_transient` is at most the number of states, and positive when state 0 is transient |
| DoomsdayFuel.ProbabilityRow | doomsday_fuel/doomsday_fuel.py:65-69 | a transient row becomes weight/row-sum per entry; an absorbing row becomes all zeros |
| DoomsdayFuel.ClassifiedRows | doomsday_fuel/doomsday_fuel.py:72-77 | `transients + absorbatives` are the probability rows of the states in `new_col_order`, which is `trans_indices + abs_indices`; the transient count is the length of the first list |
| DoomsdayFuel.PMatrix | doomsday_fuel/doomsday_fuel.py:79-80 | P is square, of the same size as the input |
| DoomsdayFuel.PTransientEntry | doomsday_fuel/doomsday_fuel.py:69-80 | a transient row of P holds the transition probabilities of its state, with the columns reordered |
| DoomsdayFuel.PAbsorbingRow | doomsday_fuel/doomsday_fuel.py:66-80 | the rows of P after the transient ones are all zero |
| DoomsdayFuel.PEntry | doomsday_fuel/doomsday_fuel.py:76-80 | P[i][j] is the probability of moving from the i-th to the j-th state of the new order |
| DoomsdayFuel.ReorderedSum | doomsday_fuel/doomsday_fuel.py:77-80 | reordering the columns does not change a row's sum |
| DoomsdayFuel.PTransientRowSumsToOne | doomsday_fuel/doomsday_fuel.py:69-80 | each transient row of P is a probability distribution: it sums to 1 |
| DoomsdayFuel.QBlock | doomsday_fuel/doomsday_fuel.py:86 | Q is the transient-by-transient top-left block of P |
| DoomsdayFuel.RBlock | doomsday_fuel/doomsday_fuel.py:87 | R is the transient-by-absorbing top-right block of P |
| DoomsdayFuel.QEntry | doomsday_fuel/doomsday_fuel.py:86 | Q[i][j] is the probability of moving from the i-th to the j-th transient state |
| DoomsdayFuel.REntry | doomsday_fuel/doomsday_fuel.py:87 | R[i][j] is the probability of moving from the i-th transient state to the j-th absorbing state |
| DoomsdayFuel.StartStaysFirst | doomsday_fuel/doomsday_fuel.py:40-41 | when state 0 is transient it stays first in the new order, so row 0 of N is about state 0 |
| DoomsdayFuel.IMinusQ | doomsday_fuel/doomsday_fuel.py:91-97 | I - Q has value 1 - Q[i][i] on the diagonal and -Q[i][j] elsewhere |
| DoomsdayFuel.AbsorptionSum | doomsday_fuel/doomsday_fuel.py:110-112 | `_sum` after k terms is the dot product of the first k entries of N's top row with column i of R |
| DoomsdayFuel.AbsorptionRow | doomsday_fuel/doomsday_fuel.py:107-113 | entry i of the result is row 0 of N times column i of R |
| DoomsdayFuel.Lcm | doomsday_fuel/doomsday_fuel.py:22-24 | `lcm(x, y)` is a positive common multiple of x and y |
| DoomsdayFuel.LcmLeast | doomsday_fuel/doomsday_fuel.py:22-24 | every positive common multiple of x and y is a multiple of `lcm(x, y)` |
| DoomsdayFuel.DenominatorLcm | doomsday_fuel/doomsday_fuel.py:12-14 | the folded lcm is a positive multiple of every denominator seen so far |
| DoomsdayFuel.DenominatorLcmLeast | doomsday_fuel/doomsday_fuel.py:12-14 | the folded lcm divides every positive common multiple of the denominators |
| DoomsdayFuel.Normalise | doomsday_fuel/doomsday_fuel.py:17-18 | each integer over l equals its probability, and l is appended last |
| DoomsdayFuel.AbsorptionProbabilities | doomsday_fuel/doomsday_fuel.py:101-115 | there is one probability per absorbing state |
| DoomsdayFuel.FundamentalIsLeftInverse | doomsday_fuel/doomsday_fuel.py:89-99 | when the inversion succeeds, N is a left inverse of I - Q |
| DoomsdayFuel.SolveMeaning | doomsday_fuel/doomsday_fuel.py:4-19 | when state 0 is transient, the answer has one numerator per absorbing state and then a positive denominator; numerator i over it is that state's absorption probability |
| DoomsdayFuel.AbsorptionProbabilitiesMeaning | doomsday_fuel/doomsday_fuel.py:101-115 | absorption probability i is the sum over j of N[0][j] · R[j][i] |
| DoomsdayFuel.SolveLeastDenominator | doomsday_fuel/doomsday_fuel.py:12-18 | the answer's denominator divides every common multiple of the probabilities' denominators, so it is the least one |
| DoomsdayFuel.AbsorbingMarkovChain.constructor | doomsday_fuel/doomsday_fuel.py:29-47 | an absorbing state 0 gives [1, 1]; otherwise P, Q, R and N are the specified matrices, and the result is row 0 of N·R unless a pivot is zero |
| DoomsdayFuel.AbsorbingMarkovChain.InitBlocks | doomsday_fuel/doomsday_fuel.py:41-42 | after `_init_P_matrix` and `_init_Q_R`, P, Q and R are the specified blocks and there is at least one transient state |
| DoomsdayFuel.AbsorbingMarkovChain.CalcFromBlocks | doomsday_fuel/doomsday_fuel.py:43-44 | after `_calc_N` and `_calc_absorption_probabilities`, the flag is set exactly on a zero pivot, and otherwise N is (I - Q)^-1 and the result is row 0 of N·R |
| DoomsdayFuel.AbsorbingMarkovChain.InitPMatrix | doomsday_fuel/doomsday_fuel.py:53-80 | P becomes the reordered probability matrix, and the transient and absorbing counts are set |
| DoomsdayFuel.AbsorbingMarkovChain.AppendPermutedRows | doomsday_fuel/doomsday_fuel.py:79-80 | P grows by the given rows, with their columns in the new order |
| DoomsdayFuel.AbsorbingMarkovChain.ClassifyRows | doomsday_fuel/doomsday_fuel.py:59-70 | the loop splits the states into transient and absorbing index lists and their probability rows |
| DoomsdayFuel.AbsorbingMarkovChain.InitQR | doomsday_fuel/doomsday_fuel.py:83-87 | Q and R become the two top blocks of P |
| DoomsdayFuel.AbsorbingMarkovChain.CalcN | doomsday_fuel/doomsday_fuel.py:89-99 | N becomes (I - Q)^-1, or the division-by-zero flag is set and N is unchanged |
| DoomsdayFuel.AbsorbingMarkovChain.IdentityMinus | doomsday_fuel/doomsday_fuel.py:91-97 | the nested loop fills a fresh array with I - Q |
| DoomsdayFuel.AbsorbingMarkovChain.CalcAbsorptionProbabilities | doomsday_fuel/doomsday_fuel.py:101-115 | `result_probabilities` becomes row 0 of N times R |
| DoomsdayFuel.AbsorbingMarkovChain.InvertMatrix | doomsday_fuel/doomsday_fuel.py:129-146 | it succeeds exactly when the specified inversion meets no zero pivot, and then returns that inverse |
| DoomsdayFuel.AbsorbingMarkovChain.PivotAll | doomsday_fuel/doomsday_fuel.py:135-144 | the focus loop over the arrays agrees with the specified inversion from focus 0 |
| DoomsdayFuel.AbsorbingMarkovChain.Pivot | doomsday_fuel/doomsday_fuel.py:136-144 | one focus step fails exactly on a zero pivot, and otherwise leaves the rest of the inversion unchanged |
| DoomsdayFuel.AbsorbingMarkovChain.EliminateColumn | doomsday_fuel/doomsday_fuel.py:140-144 | the loop over the non-focus rows performs the specified elimination on both arrays |
| DoomsdayFuel.AbsorbingMarkovChain.ScalePivotRow | doomsday_fuel/doomsday_fuel.py:137-139 | the focus rows of both arrays are scaled by 1/pivot |
| DoomsdayFuel.AbsorbingMarkovChain.SubtractPivotRow | doomsday_fuel/doomsday_fuel.py:141-144 | row i of both arrays loses `row_scale` times the focus row |
| DoomsdayFuel.AbsorbingMarkovChain.GetIdentity | doomsday_fuel/doomsday_fuel.py:117-127 | the result is a fresh dim by dim identity array |
| DoomsdayFuel.Solution | doomsday_fuel/doomsday_fuel.py:4-19 | `solution(matrix)` returns the specified answer: [1, 1], the normalised probabilities, or the division by zero |
| DoomsdayFuel.Normalised | doomsday_fuel/doomsday_fuel.py:12-18 | the lcm loop and the rescaling give the probabilities over their least common denominator, then that denominator |
| DontGetVolunteered.OffsetsAreJumps | dont_get_volunteered/dont_get_volunteered.py:58-59 | the eight offsets are exactly the integer steps (dx, dy) with dx² + dy² = 5, the knight moves |
| DontGetVolunteered.MovesSound | dont_get_volunteered/dont_get_volunteered.py:55-68 | every listed move is an on-board square one knight jump away, and there are at most 8 |
| DontGetVolunteered.MovesComplete | dont_get_volunteered/dont_get_volunteered.py:55-68 | every on-board square one knight jump away is listed |
| DontGetVolunteered.MovesMeaning | dont_get_volunteered/dont_get_volunteered.py:55-68 | b is a valid move from a exactly when b is on the board and a knight jump from a |
| DontGetVolunteered.MovesSymmetric | dont_get_volunteered/dont_get_volunteered.py:55-68 | b is a move from a exactly when a is a move from b |
| DontGetVolunteered.MovesNonEmpty | dont_get_volunteered/dont_get_volunteered.py:55-68 | every square has at least one move |
| DontGetVolunteered.MovesIncreasing | dont_get_volunteered/dont_get_volunteered.py:58-68 | the moves come in strictly increasing square order, so none repeats |
| DontGetVolunteered.Chessboard.constructor | dont_get_volunteered/dont_get_volunteered.py:31-35 | a new board holds the row table and the square-to-coordinates map |
| DontGetVolunteered.Chessboard.InitBoard | dont_get_volunteered/dont_get_volunteered.py:37-46 | the nested loop numbers the squares 8·row + column and records each square's coordinates |
| DontGetVolunteered.Chessboard.GetCoords | dont_get_volunteered/dont_get_volunteered.py:48-50 | square k is at row k div 8, column k mod 8, both on the board |
| DontGetVolunteered.Chessboard.GetIndex | dont_get_volunteered/dont_get_volunteered.py:52-53 | (x, y) is square 8·x + y, on the board |
| DontGetVolunteered.Chessboard.GetValidMoves | dont_get_volunteered/dont_get_volunteered.py:55-68 | the loop over the offsets returns exactly the specified move list |
| DontGetVolunteered.CoordsRoundTrip | dont_get_volunteered/dont_get_volunteered.py:48-53 | `get_index(get_coords(k)) == k` |
| DontGetVolunteered.IndexRoundTrip | dont_get_volunteered/dont_get_volunteered.py:48-53 | `get_coords(get_index(x, y)) == (x, y)` |
| DontGetVolunteered.EnqueueAllFacts | dont_get_volunteered/dont_get_volunteered.py:17-21 | queuing the moves keeps the old queue as a prefix and appends only new squares at the next distance; afterwards every move is queued, and no square is queued twice |
| DontGetVolunteered.QueueAtMost64 | dont_get_volunteered/dont_get_volunteered.py:17-21 | a queue without repeated squares holds at most 64 nodes |
| DontGetVolunteered.SearchStart | dont_get_volunteered/dont_get_volunteered.py:8-9 | the queue holding only the start square satisfies the search invariant |
| DontGetVolunteered.SearchStep | dont_get_volunteered/dont_get_volunteered.py:11-21 | popping a node that is not `dest` and queuing its moves keeps the search invariant, and the search progresses |
| DontGetVolunteered.FoundIsNearest | dont_get_volunteered/dont_get_volunteered.py:14-15 | when `dest` is popped its distance is reachable and no shorter distance is |
| DontGetVolunteered.EnqueueMoves | dont_get_volunteered/dont_get_volunteered.py:17-21 | the inner loop appends the new moves at distance + 1 as specified |
| DontGetVolunteered.Solution | dont_get_volunteered/dont_get_volunteered.py:4-21 | the result is the fewest knight moves from `src` to `dest`: that many moves reach `dest`, no fewer do, and it is 0 when `src == dest` |
| LovelyLuckyLambs.Pow2 | lovely_lucky_lambs/lovely_lucky_lambs.py:42-45 | every generous payment is at least 1 |
| LovelyLuckyLambs.Fib | lovely_lucky_lambs/lovely_lucky_lambs.py:24-28 | every stingy payment is at least 1 |
| LovelyLuckyLambs.Payments | lovely_lucky_lambs/lovely_lucky_lambs.py:25-28 | the first n payments under a rule, one per henchman |
| LovelyLuckyLambs.PaymentsStep | lovely_lucky_lambs/lovely_lucky_lambs.py:43-44 | paying one more henchman appends their payment and adds it to the total |
| LovelyLuckyLambs.Henchmen | lovely_lucky_lambs/lovely_lucky_lambs.py:43-45 | the head count is the first n whose payments exceed the budget, with all shorter lists within it |
| LovelyLuckyLambs.NoHenchmenIffNegative | lovely_lucky_lambs/lovely_lucky_lambs.py:43-45 | the lists are empty exactly when the budget is negative |
| LovelyLuckyLambs.GetGenerousResult | lovely_lucky_lambs/lovely_lucky_lambs.py:33-47 | the loop returns the doubling payments 1, 2, 4, ..., up to the first list whose sum exceeds the budget |
| LovelyLuckyLambs.GetStingyResult | lovely_lucky_lambs/lovely_lucky_lambs.py:15-30 | the loop returns the Fibonacci payments 1, 1, 2, 3, ..., up to the first list whose sum exceeds the budget |
| LovelyLuckyLambs.FibAtMostPow2 | lovely_lucky_lambs/lovely_lucky_lambs.py:15-47 | each stingy payment is at most the generous payment of the same henchman |
| LovelyLuckyLambs.StingyTotalAtMostGenerous | lovely_lucky_lambs/lovely_lucky_lambs.py:15-47 | paying n henchmen stingily costs at most paying them generously |
| LovelyLuckyLambs.StingyPaysMore | lovely_lucky_lambs/lovely_lucky_lambs.py:8-12 | a budget pays at least as many stingy henchmen as generous ones |
| LovelyLuckyLambs.GenerousIncreasing | lovely_lucky_lambs/lovely_lucky_lambs.py:43-45 | the generous payments strictly increase |
| LovelyLuckyLambs.StingyRecurrence | lovely_lucky_lambs/lovely_lucky_lambs.py:24-28 | the stingy payments start 1, 1, and each later one is the sum of the two before it |
| LovelyLuckyLambs.StingyNonDecreasing | lovely_lucky_lambs/lovely_lucky_lambs.py:24-28 | the stingy payments never decrease |
| LovelyLuckyLambs.Solution | lovely_lucky_lambs/lovely_lucky_lambs.py:1-12 | the result is the stingy head count minus the generous one, and it is never negative |
| SolarDoomsday.Isqrt | solar_doomsday/solar_doomsday.py:2-3 | r is the integer square root: r² ≤ n < (r + 1)² |
| SolarDoomsday.SquaresUpToContents | solar_doomsday/solar_doomsday.py:3 | the comprehension lists exactly the squares x² with 1 ≤ x ≤ num and x² ≤ num |
| SolarDoomsday.MaxIsMaximum | solar_doomsday/solar_doomsday.py:3 | `max` returns an element of the list that no element exceeds |
| SolarDoomsday.GetMaxSquare | solar_doomsday/solar_doomsday.py:2-3 | `get_max_square(num)` is the square of num's integer square root |
| SolarDoomsday.MaxSquareBounds | solar_doomsday/solar_doomsday.py:2-3 | it is x² for the x ≥ 1 with x² ≤ num < (x + 1)², so the largest square that fits |
| SolarDoomsday.PanelsStep | solar_doomsday/solar_doomsday.py:8-11 | one loop step takes the largest square and continues with the rest of the area |
| SolarDoomsday.IsqrtMonotone | solar_doomsday/solar_doomsday.py:2-3 | a larger area never has a smaller square root |
| SolarDoomsday.PanelsSum | solar_doomsday/solar_doomsday.py:8-11 | the panels add up to the area |
| SolarDoomsday.PanelsAreSquares | solar_doomsday/solar_doomsday.py:8-11 | every panel is a positive perfect square |
| SolarDoomsday.PanelsNonIncreasing | solar_doomsday/solar_doomsday.py:8-11 | the panels come largest first |
| SolarDoomsday.PanelsProperties | solar_doomsday/solar_doomsday.py:1-13 | the greedy split of a non-positive area is empty; any split is non-increasing positive squares that sum to the area |
| SolarDoomsday.Solution | solar_doomsday/solar_doomsday.py:1-13 | the loop returns the greedy split: positive squares, largest first, summing to the area (empty when the area is at most 0) |

## Left out

- `DoomsdayFuel.Solution` returns [1, 1] as integers when state 0 is absorbing. The source returns the chain's own result `[1, 1]`, which is the same list.
- `DoomsdayFuel.Lcm` requires positive arguments. The source folds it only over 1 and fraction denominators, which are always positive.
- `GaussJordan.InverseIsLeftInverse` proves N · m = I only. That N is also a right inverse (m · N = I) is not proved.
- `DoomsdayFuel.AbsorbingMarkovChain.InvertMatrix`: the ZeroDivisionError at doomsday_fuel/doomsday_fuel.py:136 becomes a `false` result, and the chain's `divisionByZero` flag and the `DivisionByZero` answer stand for the exception. The model does not prove that a matrix built from valid input never has a zero pivot.
- `DoomsdayFuel.AbsorbingMarkovChain.InvertMatrix` splits the nested loops into `PivotAll`, `Pivot`, `ScalePivotRow`, `EliminateColumn` and `SubtractPivotRow`. The source updates `matrix[focus][j]` and `Im[focus][j]` in one loop; the model updates them one array after the other, which has the same effect because the two arrays are distinct.
- `DoomsdayFuel.AbsorbingMarkovChain.InvertMatrix` works on a copy of I - Q in a fresh array. The source also mutates the list it is given, but that list is a temporary in `_calc_N`.
- `get_result` is not a separate member: the model reads the `resultProbabilities` field directly.
- `DoomsdayFuel.AbsorbingMarkovChain.InitBlocks` and `CalcFromBlocks` group the four calls of the constructor in pairs; the order of the calls is the source's.
- `DoomsdayFuel.AbsorbingMarkovChain.ClassifyRows` and `AppendPermutedRows` are the two loops of `_init_P_matrix`. The lcm fold and the rescaling in `solution` are `DoomsdayFuel.Normalised`.
- Python's `Fraction` and `gcd` are modelled by what they compute (a normalised pair with a positive denominator, Euclid's algorithm), not by their library code. Its floating-point and string conversions are not used here.
- `DontGetVolunteered.Solution` requires `0 <= src < 64` and a `dest` reachable from `src`.
  - In the source an invalid `src` raises KeyError in `get_coords`, except when `src == dest`: then it returns 0 without looking at the board. The model excludes that case too.
  - In the source a `dest` outside 0..63 is never found. The `not in queue` test looks only at the nodes still queued, so popped squares are queued again, the queue never empties, and the loop runs forever. The model does not represent a non-terminating run.
  - The `None` after the loop stands for the implicit `None` the source would return on an empty queue, which the requirements exclude.
- DontGetVolunteered: that every square can reach every other square (the knight graph on 8x8 is connected) is not proved, so reachability is a requirement, not a consequence.
- `DontGetVolunteered.Chessboard.GetCoords` requires a square number from 0 to 63; elsewhere the source's dictionary lookup raises KeyError.
- DontGetVolunteered: the deque is a sequence, and `popleft` is taking its first element.
- DontGetVolunteered: `Node.__eq__` compares only squares, modelled by `Node.Equals`. The `in queue` test is the `Contains` predicate.
- DontGetVolunteered: the inner `for move` loop of `solution` is the separate method `EnqueueMoves`.
- The worked examples in the `__main__` blocks (and the demo calls in each file) are not modelled: they print, and no specific value is proved.
- `LovelyLuckyLambs.Solution` does not model the `print(b - a)` at lovely_lucky_lambs/lovely_lucky_lambs.py:11, which is output only.
- `SolarDoomsday.GetMaxSquare` requires `num >= 1`. For smaller `num` the list is empty and Python's `max` raises ValueError; `solution` only calls it with a positive remaining area.
