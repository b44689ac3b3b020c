# Qucsator numerics and netlist front end, modelled in Dafny

A model of the hard parts of the simulator `qucs-core/src`, with proofs.  Numbers are exact: `real`, and pairs of
reals for complex numbers.  Square root, hypotenuse, modulus, trigonometry, exponential and inverse functions are
parameters that satisfy their defining equations.  The model keeps the form of the program: solvers, transforms, the netlist expander, the
equation list, the hash table and the history overwrite their arrays and fields in place; differentiation rules
are functions on trees.

| files | what they cover |
|---|---|
| `Options`, `Complex`, `Sums`, `Integers`, `LinearAlgebra` | optional values and the mathematics that the rest builds on |
| `Lu`, `Pivots`, `Gauss`, `EqnSys`, `DirectSolvers` | LU decomposition (Crout and Doolittle) with implicit pivoting and virtual resistances, Gauss, Gauss-Jordan |
| `Contraction`, `Iterative` | Jacobi and Gauss-Seidel with the fallback to LU |
| `Reflections`, `Householder`, `ColumnNorms`, `Qr` | QR decomposition by packed householder vectors with column pivoting |
| `Ports`, `HbLinear` | extraction of the port admittances of the linear network in harmonic balance |
| `Fourier`, `Fft`, `HbTransforms` | the in-place fast Fourier transform, vectors and Jacobians in the frequency domain |
| `HbReal`, `HbExpand` | spectra of real signals and the conjugate continuation of the linear part |
| `HbLoad`, `HbDevices`, `HbBalance`, `HbNewton`, `HbExact`, `HbRun` | loading of the non-linear devices and the Newton iteration, for one tone, when a step is exact and what convergence means |
| `Netlist`, `Flatten`, `Globals` | the cycle check of subcircuit types, the expansion of subcircuits, and what becomes of global nodes |
| `Equations`, `RealSolutions` | ordering and evaluation of equations, and their meaning on reals |
| `Differentiate` | the rules and simplifications of symbolic differentiation |
| `Germs`, `MathLibrary`, `RealValues`, `RuleValues`, `Tangents` | tangents, the functions of the table with their derivatives, the value of expressions and of the rules, and why the result is the derivative |
| `Hash`, `History` | the rehashing table with its iterator and the nearest sample search |

Where the code and its comments differ, the model follows the code:

- The column norms for the first QR pivots leave out the first row, because `euclidian_c` starts at row 1 unless told otherwise (`eqnsys.h:119`).  `FirstPivotInput` gives a first pivot that is not a largest column, and `DiagonalOrder` bounds what the omission costs over the whole factorization.
- Circuits are evaluated for the real parts of the voltages in the time domain, but the error is evaluated for the voltages themselves.  The step that `solveVoltages` announces, JF VS(n+1) = JF VS(n) - FV, is off by `Mismatch`; `ExactSteps`, `RealSignals` and `UnitStep` state when it is not, `NyquistRun` runs an input.
- `expandVector` and `expandMatrix` make signals real exactly under the conditions of `ContinuedIsReal` and `ExpandedKeepsReal`; `ContinuedInput` and `ExpandedInput` give inputs.
- `checkBalance` takes equal linear and non-linear currents for balanced, although balanced currents add up to zero; `BalanceMissed` states when that matters, `EqualCurrents` gives an input.
- `history::nearest` never returns the youngest sample when there are several; `NearestOfAll` states when that matters, `YoungestMissed` gives an input.
- `reorderEquations` counts a dependency twice that is generated and defined; `Compensated` gives an input, `CountsExact` the exact condition, and `ReorderEquations` states the order by its counters, and by dependencies if no equation defines a generated name.  A generated name that is defined late is read too early, as `LateDefinition` shows.
- A port named `gnd` or ending in `!` is translated like any other port, because ports are looked up before global names; `GroundPort` gives an input, `GlobalsKept` the exact condition along all chains of instances, `FlatGlobals` that for the expanded list.
- When the iterative solver falls back to LU while `update` is cleared, the scaled matrix is taken for factors; `FallbackExact` states when that is harmless, `FallbackInput` gives an input.
- The rules of `arcsec`, `arccosec` and `arcosech` have the wrong sign for negative arguments, that of `sinc` divides by zero at zero, `x^y` loses its derivative at 0^0, a variable named `e` is taken for the base of the natural logarithm, and `?:` between equal constants forgets that it may jump; `RuleExact`, `PowerExact` and `EulerExact` state when the rules are right, `RuleInputs`, `ZeroPower` and `JumpInput` give inputs.
- Halving the hash table releases the entries of the upper half together with their buckets; `RehashShrink` and `Del` state when nothing is lost, `LowerInput` gives an input.

A failed `assert` of the original appears as a result: `ok == false` in `SolveGauss`, `SolveGaussJordan` and
`SolveIterative`.  A raised singularity exception appears as the set `singular` of columns.

## Model

| member | source | states |
|---|---|---|
| `EqnSystem.EqnSys.constructor` | qucs-core/src/eqnsys.cpp:55-65 | a new solver owns an empty system and has `update` set |
| `EqnSystem.EqnSys.PassEquationSys` | qucs-core/src/eqnsys.cpp:103-122 | a matrix sets `update` and replaces the tables only when the size changes, no matrix clears `update` and keeps the factors; the right hand side is copied, the solution vector is shared |
| `EqnSystem.EqnSys.InitializePivots` | qucs-core/src/eqnsys.cpp:328-336 | every row weight is the inverse of the largest modulus of its row, of NR_TINY for a row of zeros, and the exchange table is the identity |
| `EqnSystem.EqnSys.CroutColumn` | qucs-core/src/eqnsys.cpp:340-377 | one column keeps: the columns done so far are the packed product of the factors, rows are only permuted, pivots are nonzero, and each diagonal element is the largest of its column from there on, weighted by the rows; a failed pivot search means that the matrix is singular |
| `Pivoting.CroutPivotsStep` | qucs-core/src/eqnsys.cpp:346-375 | reducing a column and moving its largest weighted element to the diagonal extends the pivot condition by that column |
| `Pivoting.DoolittlePivotsStep` | qucs-core/src/eqnsys.cpp:412-450 | the same when the column is divided by its pivot: below the diagonal every weighted factor is at most the weight of the pivot row |
| `EqnSystem.EqnSys.FactorizeLuCrout` | qucs-core/src/eqnsys.cpp:323-382 | for every matrix: the exchange table is a permutation, L is lower with nonzero diagonal, U upper with ones, and L U is the row-permuted A plus NR_TINY at row rMap[c] of exactly the columns c that raised the exception; no column raises it if and only if A x = 0 has only the zero solution; every diagonal element is the largest of its column of L, weighted by the inverse sizes of the original rows |
| `EqnSystem.EqnSys.DoolittleColumn` | qucs-core/src/eqnsys.cpp:406-450 | the same step invariant for the packing with ones in L, including the final division by the pivot |
| `EqnSystem.EqnSys.FactorizeLuDoolittle` | qucs-core/src/eqnsys.cpp:389-454 | the factor equation with virtual resistances, the exact singularity criterion and the bound on the weighted factors, for L with ones |
| `Lu.CroutFailure` | qucs-core/src/eqnsys.cpp:358-369 | a column whose remainder vanishes makes A singular: a nonzero kernel vector comes from the partial upper factor |
| `Lu.DoolittleFailure` | qucs-core/src/eqnsys.cpp:424-435 | the same for the other packing |
| `Lu.FactorsNonsingular` | qucs-core/src/eqnsys.cpp:323-382 | a factorization without virtual resistances leaves only the zero kernel |
| `Lu.CroutResistance` | qucs-core/src/eqnsys.cpp:278-284 | setting a zero pivot to NR_TINY is the factorization of the matrix with NR_TINY added at the mapped row, nothing else changes |
| `Lu.DoolittleResistance` | qucs-core/src/eqnsys.cpp:278-284 | the same for the packing with ones in L |
| `EqnSystem.EqnSys.SubstituteLuCrout` | qucs-core/src/eqnsys.cpp:460-480 | forward and backward substitution solve M X = B for any matrix M that the packed factors belong to |
| `EqnSystem.EqnSys.SubstituteLuDoolittle` | qucs-core/src/eqnsys.cpp:485-503 | the same with ones in L |
| `EqnSystem.EqnSys.SolveLuCrout` | qucs-core/src/eqnsys.cpp:292-301 | with `update` set the result solves A plus its virtual resistances for the original A, so it solves A X = B when no column is singular, which is exactly when A is nonsingular; without `update` it reuses the factors |
| `EqnSystem.EqnSys.SolveLuDoolittle` | qucs-core/src/eqnsys.cpp:306-315 | the same for Doolittle |
| `EqnSystem.EqnSys.FindPivot` | qucs-core/src/eqnsys.cpp:205-211 | the pivot is the largest element of the column below the diagonal; zero exactly if all of them are zero |
| `EqnSystem.EqnSys.SolveGauss` | qucs-core/src/eqnsys.cpp:198-232 | never meets a zero pivot if and only if A is nonsingular, and then X solves A X = B for the original A and B |
| `EqnSystem.EqnSys.SolveGaussJordan` | qucs-core/src/eqnsys.cpp:238-276 | the same for Gauss-Jordan |
| `GaussElimination.GaussFailure` | qucs-core/src/eqnsys.cpp:204-213 | a column without pivot during Gauss elimination makes the original matrix singular |
| `GaussElimination.JordanFailure` | qucs-core/src/eqnsys.cpp:244-253 | the same during Gauss-Jordan elimination |
| `LinearAlgebra.SolutionUnique` | qucs-core/src/eqnsys.cpp:128-152 | a nonsingular system has one solution |
| `DirectSolvers.SolveByAll` | qucs-core/src/eqnsys.cpp:128-152 | both LU solvers, Gauss and Gauss-Jordan, run on copies of one system, all succeed if and only if it is nonsingular, and then return the same vector |
| `IterativeSolver.EnsureDiagonal` | qucs-core/src/eqnsys.cpp:710-755 | any sequence of joint row exchanges of A and B keeps the solutions and the kernel |
| `IterativeSolver.DominantRow` | qucs-core/src/eqnsys.cpp:785-793 | the row with the largest element of the column among those whose exchange does not lower a diagonal element, else the row itself |
| `IterativeSolver.Preconditioner` | qucs-core/src/eqnsys.cpp:781-799 | the row exchanges keep the solutions and the kernel |
| `IterativeSolver.Normalize` | qucs-core/src/eqnsys.cpp:537-543 | row scaling gives an equivalent system with ones on the diagonal, or meets a zero diagonal element |
| `IterativeSolver.Sweep` | qucs-core/src/eqnsys.cpp:551-565 | each new element is the right hand side less the row times the old elements (Jacobi), or times the new elements before it and the old ones behind (Gauss-Seidel) |
| `Contraction.SweepContracts` | qucs-core/src/eqnsys.cpp:551-565 | with absolute off-diagonal row sums of at most q < 1, a sweep of either kind shrinks the largest distance to the exact solution by the factor q |
| `IterativeSolver.Converged` | qucs-core/src/eqnsys.cpp:566-574 | converged means every element moved by less than abstol + reltol times its modulus |
| `IterativeSolver.SettledIsNear` | qucs-core/src/eqnsys.cpp:566-574 | a settled vector is within q T / (1 - q) of the solution for every T of at least 1e-12 plus 1e-4 times the modulus of every element |
| `IterativeSolver.Iterate` | qucs-core/src/eqnsys.cpp:545-578 | k sweeps bring the distance to the exact solution down to q^k of the initial one; the loop ends settled or after N sweeps |
| `IterativeSolver.SolveIterative` | qucs-core/src/eqnsys.cpp:513-595 | the sweeps run on a system with unit diagonal that is equivalent to the given one, and either settle with the bounds above or the direct solver runs: with `update` set and no failed pivot search X solves the system as it was before row exchanges and scaling; with `update` cleared X solves the system that has the scaled matrix as its packed factors, and the given system too if the scaled matrix is its own product (row rMap[r] is row r plus the inner products up to the diagonal) |
| `IterativeSolver.UnfactoredSame` | qucs-core/src/eqnsys.cpp:582-587 | for any exchange table: the matrix that has the scaled matrix as its packed factors is the scaled matrix if and only if that is its own product |
| `IterativeSolver.FallbackExact` | qucs-core/src/eqnsys.cpp:582-587 | with `update` cleared, the X of the fallback solves the system for every right hand side if and only if the scaled matrix is its own product |
| `IterativeSolver.FallbackInput` | qucs-core/src/eqnsys.cpp:582-587 | for [[1, 2], [2, 1]] and the right hand side (3, 7) the fallback returns (1, 1), which does not solve the system; (11/3, -1/3) does |
| `QrDecomposition.EuclidianUpdate` | qucs-core/src/eqnsys.cpp:831-846 | scale^2 n grows by exactly the square of the new element |
| `QrDecomposition.QrSolver.constructor` | qucs-core/src/eqnsys.cpp:103-122 | a solver shares A, X and B and owns its tables |
| `QrDecomposition.QrSolver.EuclidianC` | qucs-core/src/eqnsys.cpp:850-858 | the scaled accumulator yields the norm of the column from the given row on |
| `Householder.HouseholderIsReflector` | qucs-core/src/eqnsys.cpp:1095-1115 | with g^2 the squared column norm, b = a + g and t = b / g, the packed vector u satisfies abs(t)^2 u'u = 2 Re t, the condition for I - conj(t) u u' to be unitary |
| `Householder.HouseholderEliminates` | qucs-core/src/eqnsys.cpp:1095-1115 | the reflection takes its column to -g on the diagonal and zeros below |
| `Reflections.ReflectInverse` | qucs-core/src/eqnsys.cpp:1095-1128 | a reflection is undone by its adjoint |
| `Reflections.ReflectAllInjective` | qucs-core/src/eqnsys.cpp:1028-1038 | a sequence of reflections maps different vectors to different vectors |
| `QrDecomposition.QrSolver.HouseholderCreateLeft` | qucs-core/src/eqnsys.cpp:1095-1115 | the packed column holds a unitary reflection that eliminates the column, also when none is necessary |
| `QrDecomposition.QrSolver.ApplyColumn` | qucs-core/src/eqnsys.cpp:1181-1188 | a column to the right becomes its reflection, the others stay |
| `QrDecomposition.QrSolver.HouseholderLeft` | qucs-core/src/eqnsys.cpp:1121-1128 | the reflection of column c is created and applied to all columns behind it |
| `QrDecomposition.QrSolver.PivotColumn` | qucs-core/src/eqnsys.cpp:967-978 | a column with the largest recorded norm moves to position c together with its table entries |
| `QrDecomposition.QrSolver.InitializeColumns` | qucs-core/src/eqnsys.cpp:959-963 | each recorded norm is that of its column from the second row on, and cMap is the identity |
| `QrDecomposition.FirstPivot` | qucs-core/src/eqnsys.cpp:959-972 | a first pivot with a largest element in the first row is a largest column; in general its element there must not fall behind by more than its rest is ahead |
| `QrDecomposition.FirstPivotInput` | qucs-core/src/eqnsys.cpp:959-972 | for the diagonal matrix of 5 and 1 the second column is the largest one from the second row on and the first one as a whole |
| `ColumnNorms.SquareKept` | qucs-core/src/eqnsys.cpp:1121-1128 | a reflection keeps the norm of every vector |
| `ColumnNorms.UpdatedWithin` | qucs-core/src/eqnsys.cpp:983-995 | an updated norm stays at most the norm of the rest of its column, and its square short of it by no more than before |
| `QrDecomposition.QrSolver.UpdateNorms` | qucs-core/src/eqnsys.cpp:983-995 | if the squares of the recorded norms are short of those from row c on by at most the squared first element of the original column, they are so from row c + 1 on after the update |
| `QrDecomposition.DiagonalOrder` | qucs-core/src/eqnsys.cpp:965-996 | over a whole factorization: the squared modulus of a diagonal element of R is at most that of any earlier one plus the squared modulus of the first element of its original column, so moduli do not grow where the first row is zero |
| `QrDecomposition.ExchangeFactors` | qucs-core/src/eqnsys.cpp:974-978 | column exchanges keep the factor relation for the exchanged permutation |
| `QrDecomposition.ReflectFactors` | qucs-core/src/eqnsys.cpp:980-981 | one more reflection extends the factor relation by one column |
| `QrDecomposition.QrSolver.FactorizeQrHouseholder` | qucs-core/src/eqnsys.cpp:953-997 | cMap is a permutation, the packed reflections are unitary, and they take the permuted columns of the original A to the upper triangular R; from any row c on, the squared norm of each column of R exceeds the squared modulus of R(c, c) by at most the squared first element of the original column |
| `QrDecomposition.QrSolver.FormRightHandSide` | qucs-core/src/eqnsys.cpp:1032-1041 | B becomes its image under all packed reflections |
| `QrDecomposition.QrSolver.BackSubstitute` | qucs-core/src/eqnsys.cpp:1043-1050 | in column order, every row of R Y = Q'B whose diagonal element exceeds epsilon is solved, and the unknowns of the other rows are zero |
| `QrDecomposition.QrSolver.SubstituteQrHouseholder` | qucs-core/src/eqnsys.cpp:1028-1051 | B becomes Q'B and X meets the row by row condition above; if every diagonal element exceeds epsilon X solves the original system |
| `QrDecomposition.QrSolver.SolveQr` | qucs-core/src/eqnsys.cpp:815-818 | if every diagonal element of R exceeds epsilon, X solves A X = B for the original A and B, complex or real |
| `HbLinear.InvertMatrix` | qucs-core/src/hbsolver.cpp:654-686 | one factorization and N substitutions give A H = I for the original A exactly when A is nonsingular |
| `HbLinear.LoadPorts` | qucs-core/src/hbsolver.cpp:742-760 | the stamps add 0.01 E E' for the incidence matrix E of balanced nodes and excitations |
| `HbLinear.PinLayout` | qucs-core/src/hbsolver.cpp:751-752 | the pins of node 1 are the frequencies, and each further node is one row of frequencies behind |
| `HbLinear.GroundedExcitation` | qucs-core/src/hbsolver.cpp:742-760 | an excitation from a balanced node to ground has the same ends as the port of that node |
| `HbLinear.ExcitationZ` | qucs-core/src/hbsolver.cpp:857-869 | the voltage of node pnode less that of node nnode, each read at (node - 1) lnfreqs + f, ground counting as zero |
| `HbLinear.MeasurePorts` | qucs-core/src/hbsolver.cpp:776-832 | row by row and column by column, Z holds the port voltages of the responses to unit port currents |
| `Ports.PortAdmittance` | qucs-core/src/hbsolver.cpp:716-843 | loading every port with g, inverting the measured impedances and taking g off yields exactly the relation between port currents and voltages of the unloaded network |
| `HbLinear.NodePortState` | qucs-core/src/hbsolver.cpp:742-832 | the incidence matrix says the same as the nodes: the row of each node is fed by the currents of the ports that begin there less those that end there, and each port voltage is that between its two nodes |
| `HbLinear.CreateMatrixLinearY` | qucs-core/src/hbsolver.cpp:716-843 | when both factorizations succeed: for all port voltages v and currents c, some state of the nodes has these voltages between the nodes of the ports and these currents fed into them if and only if c = Y v, even for a singular A; the factorizations succeed exactly if the loaded matrix and the measured impedance matrix are nonsingular |
| `HbExpand.CreateMatrixLinearYV` | qucs-core/src/hbsolver.cpp:716-849 | the same with the continuation: YV has diagonal node blocks that continue the admittances of the balanced nodes conjugately |
| `FastFourier.RevInvolution` | qucs-core/src/fourier.cpp:52-67 | bit reversal is its own inverse |
| `FastFourier.NextReversed` | qucs-core/src/fourier.cpp:61-66 | the carry loop steps from the reversal of an index to the reversal of the next one |
| `FastFourier.BitReverse` | qucs-core/src/fourier.cpp:52-67 | the swap loop puts every item at its bit-reversed place, exactly once |
| `FastFourier.DanielsonLanczos` | qucs-core/src/fourier.cpp:69-95 | a transform of twice the size from two interleaved ones |
| `FastFourier.TwiddleStep` | qucs-core/src/fourier.cpp:75-92 | the recurrence of wr and wi steps through the powers of the root of unity |
| `FastFourier.Stage` | qucs-core/src/fourier.cpp:73-95 | one pass applies the butterfly with the right power of the root to every pair of items L apart, all from the values before the pass |
| `FastFourier.StageStep` | qucs-core/src/fourier.cpp:73-95 | such a pass turns the transforms of size L of all bit-reversed subsequences into those of size 2 L |
| `FastFourier.Fft1d` | qucs-core/src/fourier.cpp:50-96 | for binary sizes the in-place transform is the discrete Fourier sum of the original items, for both signs; nothing outside the items changes |
| `FastFourier.Dft1d` | qucs-core/src/fourier.cpp:213-224 | the plain transform with its normalization for the inverse |
| `FastFourier.DftPairs` | qucs-core/src/fourier.cpp:193-208 | the in-place plain transform is the same sum for any size |
| `FastFourier.BinarySize` | qucs-core/src/fourier.cpp:164-166 | the least binary size of at least two that holds the vector |
| `FastFourier.Fft1dVector` | qucs-core/src/fourier.cpp:161-188 | equals the plain transform of the vector filled up with zeros to the binary size, with the same normalization |
| `FastFourier.RoundTrip` | qucs-core/src/fourier.cpp:213-231 | the inverse transform undoes the transform for any number of items; sizes that are not binary use that cos is below one between 0 and 2 pi |
| `HbTransforms.VectorFFT` | qucs-core/src/hbsolver.cpp:1096-1119 | every node block becomes its transform, divided by the size for the forward direction (one tone) |
| `HbTransforms.MatrixFFT` | qucs-core/src/hbsolver.cpp:1146-1165 | entry (fr, fc) of a node block becomes entry (fr - fc) mod n of the transform of its diagonal |
| `HbTransforms.SlowMatrixFFT` | qucs-core/src/hbsolver.cpp:1132-1145 | the disabled algorithm: columns transformed, then rows transformed back, gives the same matrix for every block-diagonal input |
| `HbTransforms.SlowIsFast` | qucs-core/src/hbsolver.cpp:1130-1166 | both algorithms agree for every matrix with diagonal node blocks |
| `HbDevices.SampleVectorsAt` | qucs-core/src/hbsolver.cpp:985-989 | at a node, the sums over the devices are those of the currents I, of the charges Q, of GV and I and of CV and Q, over all terminals at that node |
| `HbDevices.SampleMatricesAt` | qucs-core/src/hbsolver.cpp:978-983 | between two nodes, the sums over the devices are those of Y and of QV over all pairs of terminals at these nodes |
| `HbNewton.HbSolver.FillMatrixNonLinear` | qucs-core/src/hbsolver.cpp:964-992 | for one sample, node by node: the conductances and capacitances between terminals are added to JG and JQ, the currents and charges of terminals are taken from IG and FQ, and GV with I and CV with Q are added to IR and QR; other samples stay, ground is left out |
| `HbNewton.HbSolver.LoadMatrices` | qucs-core/src/hbsolver.cpp:1072-1090 | after clearing, IG at node a and sample k is minus the sum of the currents of all terminals at node a, FQ minus that of the charges, and IR, QR, JG and JQ likewise; the matrices are zero between different samples |
| `HbNewton.SpectraByNode` | qucs-core/src/hbsolver.cpp:197-207 | after the transforms IG, FQ, IR and QR are the spectra of these sums, node by node |
| `HbNewton.AbsentTerms` | qucs-core/src/hbsolver.cpp:985-989 | circuits without charges leave FQ and QR zero, circuits without currents IG and IR |
| `HbNewton.HbSolver.SolveHB` | qucs-core/src/hbsolver.cpp:1177-1205 | each entry holds F(V) = IC + YV VS + jO FQ + IG, its linear and its non-linear part, and the right hand side IR + jO QR - IC |
| `HbNewton.HbSolver.CalcJacobian` | qucs-core/src/hbsolver.cpp:1208-1224 | JF = YV + jO JQ + JG |
| `HbNewton.Convolution` | qucs-core/src/hbsolver.cpp:1130-1166 | a circulant block times a spectrum is the spectrum of the product of the signals |
| `HbBalance.SampleBalance` | qucs-core/src/hbsolver.cpp:964-992 | the stamped Jacobian of a sample times the node voltages is the right hand side less the plain term, if devices report their own products |
| `HbReal.RealSignal` | qucs-core/src/hbsolver.cpp:1226-1245 | the inverse transform of a spectrum is real if and only if opposite frequencies are conjugate |
| `HbReal.ContinuedIsReal` | qucs-core/src/hbsolver.cpp:1226-1245 | the conjugate continuation belongs to a real signal if and only if the entries at direct current and at the highest frequency are real |
| `HbReal.ContinuedInput` | qucs-core/src/hbsolver.cpp:1226-1245 | the continuation of (0, i) belongs to no real signal |
| `HbExpand.ExpandVector` | qucs-core/src/hbsolver.cpp:1228-1245 | every node block of the result continues its block conjugately, in reverse from the last but one entry |
| `HbExpand.ExpandMatrix` | qucs-core/src/hbsolver.cpp:1249-1270 | node blocks of the result are diagonal and continue the diagonals of the blocks conjugately |
| `HbExpand.ExpandedKeepsReal` | qucs-core/src/hbsolver.cpp:1247-1270 | an expanded matrix takes all spectra of real signals to such spectra if and only if direct current and highest frequency are real in all blocks |
| `HbExpand.ExpandedInput` | qucs-core/src/hbsolver.cpp:1247-1270 | with the admittance i at the highest of two frequencies the real tone of that frequency is not kept real |
| `HbNewton.HbSolver.constructor` | qucs-core/src/hbsolver.cpp:995-1048 | a new solver shares the linear part and starts with zero voltages, which are real and match in both domains |
| `HbNewton.FrequencyBalance` | qucs-core/src/hbsolver.cpp:1060-1166 | for all voltages: the transformed Jacobian times the spectra of the real parts of vs, which the circuits are evaluated for, is the transformed right hand side plus the transformed plain term |
| `HbNewton.NewtonBalance` | qucs-core/src/hbsolver.cpp:964-1224 | for all voltages: the right hand side that is assembled without any Jacobian product is JF W - F(W), where W are the spectra of the real parts of vs |
| `HbNewton.MovedRow` | qucs-core/src/hbsolver.cpp:1169-1224 | JF W - F(W) = JF VS - F(VS) - (JG + jO JQ)(VS - W) |
| `HbNewton.HbSolver.NewtonSystem` | qucs-core/src/hbsolver.cpp:197-248 | an iteration leaves FV = F(VS) and RH = JF W - F(W) for the JF it builds |
| `HbNewton.HbSolver.SolveVoltages` | qucs-core/src/hbsolver.cpp:1275-1297 | the new voltages solve JF VS = RH exactly if JF is nonsingular, and are copied to the time domain vector; the voltages before are kept in VP |
| `HbNewton.HbSolver.NewtonStep` | qucs-core/src/hbsolver.cpp:189-264 | for all voltages: JF VS' = JF VS - F(VS) - (JG + jO JQ)(VS - W) whenever JF is nonsingular, the terms of F are the spectra of the currents and charges at the nodes, and vs holds the inverse transform of the new VS; if vs was real and the inverse transform of VS, JF VS' = JF VS - F(VS) |
| `HbNewton.ExactSteps` | qucs-core/src/hbsolver.cpp:1272-1297 | JF VS' = JF VS - F(VS) if and only if (JG + jO JQ)(VS - W) vanishes |
| `HbReal.RealSignals` | qucs-core/src/hbsolver.cpp:1060-1067 | vs is real if and only if every node block of VS has conjugate opposite frequencies |
| `HbExact.RealIsSaved` | qucs-core/src/hbsolver.cpp:1060-1067 | vs is real if and only if VS = W |
| `HbExact.UnitStep` | qucs-core/src/hbsolver.cpp:189-264 | with unit conductances at all nodes the step is exact if and only if vs is real, so real voltages are also necessary for a step that is exact for all circuits |
| `HbExact.UnitIteration` | qucs-core/src/hbsolver.cpp:189-264 | a run of the iteration with unit conductances and no linear admittances: JF is nonsingular, and the step is exact if and only if vs was real |
| `HbExact.NyquistRun` | qucs-core/src/hbsolver.cpp:189-264 | a run for one node and two frequencies from the voltage i at the highest one: the new voltages are found, and the step is not exact |
| `HbRun.CheckBalance` | qucs-core/src/hbsolver.cpp:928-948 | tells exactly whether every voltage has settled and every pair of currents is taken for balanced |
| `HbRun.BalanceBound` | qucs-core/src/hbsolver.cpp:938-945 | currents are taken for balanced if and only if they are the same, their sum is below the absolute tolerance, or twice the sum is below the share of their difference |
| `HbRun.BalanceMissed` | qucs-core/src/hbsolver.cpp:938-945 | they are taken for balanced without a small sum if and only if they are the same and their sum is not below the absolute tolerance |
| `HbRun.EqualCurrents` | qucs-core/src/hbsolver.cpp:938-945 | currents of one and one are taken for balanced by all tolerances |
| `HbRun.Balance` | qucs-core/src/hbsolver.cpp:183-266 | the loop terminates, and if it reports convergence, vs is the inverse transform of VS, FV is the error F(VS) for the circuits evaluated at vs, and every entry is settled and balanced; otherwise all iterations are used up |
| `HbRun.ConvergedError` | qucs-core/src/hbsolver.cpp:183-266 | on convergence every entry of F(VS) is small in the sense above, or its linear and non-linear parts are the same |
| `HbRun.ConvergedVoltages` | qucs-core/src/hbsolver.cpp:933-937 | on convergence every voltage has moved by less than vabstol plus reltol times its modulus, and so, up to the factor 1 - reltol, by less than vabstol plus reltol times the modulus of the previous one |
| `Netlist.ValidateSubCycles` | qucs-core/src/check_netlist.cpp:1612-1672 | terminates and reports no errors if and only if everything reachable from the type is defined, lies on no cycle and is not among the dependencies, which are restored on success |
| `Flattening.PortNr` | qucs-core/src/check_netlist.cpp:1295-1308 | the last port of the given name, counted from one |
| `Flattening.Expander.XlatSubcircuitNodes` | qucs-core/src/check_netlist.cpp:1287-1309 | notes at every node of the element that is a port the node of the instance and the port number, and nothing else |
| `Flattening.Expander.CleanupXlatNodes` | qucs-core/src/check_netlist.cpp:1402-1410 | removes the notes of the element only |
| `Flattening.Expander.CopySubcircuitNodes` | qucs-core/src/check_netlist.cpp:1345-1388 | keeps global nodes, names internal ones, and leaves ports blank with their number unless at the top level |
| `Flattening.Expander.CopyCircuitNodes` | qucs-core/src/check_netlist.cpp:1420-1461 | assigns blank nodes one level up and keeps the others |
| `Flattening.Expander.CopySubcircuits` | qucs-core/src/check_netlist.cpp:1504-1605 | the copies are the elements below the instance, depth first in reverse order, translated up to this level; notes and instance list are restored |
| `Flattening.LeavesExactly` | qucs-core/src/check_netlist.cpp:1540-1596 | the expanded elements are exactly those reached through the elements of the types |
| `Flattening.TranslationResolves` | qucs-core/src/check_netlist.cpp:1287-1461 | the bottom-up scheme of blanks and port numbers names a node as top-down resolution along its instance path does |
| `Flattening.Connectivity` | qucs-core/src/check_netlist.cpp:1313-1324 | for names without dots: two terminals, inside of instances or at the top level, get the same node in the flat list if and only if they are on the same net |
| `Flattening.FlatInstances` | qucs-core/src/check_netlist.cpp:1485-1497 | two elements get the same flat name if and only if they have the same name inside of the same instances of the same type |
| `Flattening.Expander.ExpandSubcircuits` | qucs-core/src/check_netlist.cpp:1974-2022 | every element below an instance appears with its flat name, its terminals carry the names of their nets and none is blank; other definitions follow unchanged in order; all templates are restored |
| `Flattening.ValidateSubcircuits` | qucs-core/src/check_netlist.cpp:1838-1893 | no errors if and only if every instance refers to a known type with as many nodes, its properties have no errors, and everything reachable from that type is defined and acyclic |
| `Flattening.NetlistChecker` | qucs-core/src/check_netlist.cpp:2266-2321 | for any netlist: no errors if and only if all instances of the netlist and of all types are valid and the other checks count none, and then the expanded list is flat as above; with errors nothing is expanded |
| `GlobalNodes.SharedNet` | qucs-core/src/check_netlist.cpp:1367-1374 | for every s: along every path a node s! that is no port of the innermost type is the node s! of the netlist, and so is gnd |
| `GlobalNodes.OwnNet` | qucs-core/src/check_netlist.cpp:1375-1379 | a node that is no port, is not gnd and does not end in ! belongs to its instance |
| `GlobalNodes.FlatTerminal` | qucs-core/src/check_netlist.cpp:1345-1388 | in the expanded list a terminal that is no port keeps its name if it is gnd or ends in !, and otherwise has the name of the type, of all instances from the outside in and its own, joined by dots |
| `GlobalNodes.SupplyInput` | qucs-core/src/check_netlist.cpp:1313-1324 | for an amplifier inside of a stage: vdd! stays vdd!, the port is the node a of the netlist, and the inner node n is Amp.X.Y.n for the instances X and Y |
| `GlobalNodes.PathKeeps` | qucs-core/src/check_netlist.cpp:1340-1378 | inside of the innermost instance of a path all global nodes keep their names if and only if its ports with global names, the last of several with one name, resolve to those names along the instances above |
| `GlobalNodes.GlobalsKept` | qucs-core/src/check_netlist.cpp:1340-1378 | all global nodes keep their names along all chains of instances from the netlist down if and only if all instances on them meet that condition |
| `GlobalNodes.ListedElements` | qucs-core/src/check_netlist.cpp:1974-2022 | the elements of the expanded list are those at the ends of all these chains |
| `GlobalNodes.FlatGlobals` | qucs-core/src/check_netlist.cpp:1974-2022 | every global terminal of the expanded list keeps its name if and only if the ports with global names that elements are connected to resolve to those names |
| `GlobalNodes.TiedResolve` | qucs-core/src/check_netlist.cpp:1340-1378 | it suffices that every instance ties its ports with global names to the nodes of those names |
| `GlobalNodes.GroundPort` | qucs-core/src/check_netlist.cpp:1340-1378 | a type with the port gnd, instantiated with the node vcc, turns the ground inside into vcc |
| `GlobalNodes.TiedAbove` | qucs-core/src/check_netlist.cpp:1340-1378 | tying port by port is not necessary: a port gnd tied to an outer port that is tied to gnd |
| `Equations.GeneratedNames` | qucs-core/src/equation.cpp:1505-1518 | the generated names are exactly a nonempty base, a dot and four digits |
| `Equations.CountsExact` | qucs-core/src/equation.cpp:1792-1802 | the comparison of the two counters is exact if and only if no dependency is both generated and defined, or the missing ones are neither none nor as many |
| `Equations.Compensated` | qucs-core/src/equation.cpp:1792-1802 | a generated variable that is also defined makes up for a missing one |
| `Equations.Checker.DropEquation` | qucs-core/src/equation.cpp:1763-1775 | exactly the first occurrence of the equation leaves the list: one copy fewer, all others in their order |
| `Equations.Checker.ReorderEquations` | qucs-core/src/equation.cpp:1780-1817 | terminates with a permutation: a marked prefix where the counters agree for every equation after those before it, then unmarked equations for which they do not; if no equation defines a generated name, every dependency of the prefix is generated or defined earlier, the others each lack one, and the marked set is the least set closed under having all dependencies defined |
| `Equations.LeastClosedUnique` | qucs-core/src/equation.cpp:1780-1817 | the marked set does not depend on the order of the equations |
| `Equations.NoCycles` | qucs-core/src/equation.cpp:1780-1817 | along the dependencies of a marked equation positions fall, so it neither lies on a cycle nor depends on one |
| `Equations.Checker.EvaluateBody` | qucs-core/src/equation.cpp:907-970 | references read the result of the first equation of their name, applications apply their function to the results of all arguments |
| `RealSolutions.ValueApplication` | qucs-core/src/equation.cpp:921-970 | the function is applied to the values of the arguments in their order |
| `RealSolutions.ValueDefined` | qucs-core/src/equation.cpp:379-388 | an expression has a value if and only if all variables that it mentions have one |
| `RealSolutions.ValueIsEval` | qucs-core/src/equation.cpp:907-970 | if the functions compute what their names say, an expression evaluates to its real value, and a condition to its truth |
| `Equations.Checker.Evaluate` | qucs-core/src/equation.cpp:1892-1926 | for any marked prefix: every marked equation that is not skipped equals its body evaluated under the new results before it and the old ones from it on, the others keep theirs; if what they mention is defined before them or not at all, each equals its body under the final results |
| `Equations.LateDefinition` | qucs-core/src/equation.cpp:1892-1926 | an equation that mentions a generated variable defined behind it is evaluated too early |
| `Equations.SolutionUnique` | qucs-core/src/equation.cpp:1892-1926 | for such equations only one assignment of results satisfies them |
| `Equations.Checker.Solve` | qucs-core/src/equation.cpp:1855-1926 | for a list in any order: a permutation with the prefix of `ReorderEquations`, evaluated as in `Evaluate`; for unique variables that are not generated, exactly the least closed set is evaluated and each of its equations that is not skipped holds under the final results |
| `RealSolutions.SolveReals` | qucs-core/src/equation.cpp:1855-1926 | on reals: the list is ordered and evaluated as in `Solve`, and the result of each evaluable equation is the real value of its body under all results |
| `RealSolutions.DifferenceInput` | qucs-core/src/equation.cpp:1892-1926 | x = 3 and y = x - 1 give y = 2 |
| `Differentiation.DeriveZero` | qucs-core/src/differentiate.cpp:113-738 | an expression whose differentiated parts neither contain the variable nor an unknown function has the literal constant zero as derivative, across all rules and simplifications |
| `RealValues.EvalTimes` | qucs-core/src/differentiate.cpp:204-227 | the product simplifications keep the value |
| `RealValues.EvalOver` | qucs-core/src/differentiate.cpp:244-286 | the quotient simplifications keep the value, including x / sqr(x) |
| `RealValues.EvalPower` | qucs-core/src/differentiate.cpp:314-335 | the power simplifications keep the value, unless a literal zero is raised to a power that is not positive |
| `RealValues.EvalHypot` | qucs-core/src/differentiate.cpp:713-730 | the hypotenuse simplifications keep the value |
| `MathLibrary.TableExact` | qucs-core/src/differentiate.cpp:741-787 | for each of the 37 functions of one argument in the table and every argument: the slope listed is the derivative of the function there, and where none is listed there is no derivative |
| `MathLibrary.PositiveTangent` | qucs-core/src/math/real.cpp:193-196 | the derivative of a power with positive base and both operands varying |
| `MathLibrary.HypotTangent` | qucs-core/src/math/real.cpp:213-233 | the derivative of the hypotenuse away from the origin |
| `Germs.CloseOver` | qucs-core/src/differentiate.cpp:229-242 | quotient rule: a remainder bound for numerator and denominator gives one for the quotient |
| `Germs.TangentChain` | qucs-core/src/differentiate.cpp:337-738 | the chain rule for tangents with a quadratic remainder |
| `RuleValues.UnaryRuleIs` | qucs-core/src/differentiate.cpp:337-738 | the simplified rule of every function of one argument evaluates to the derivative of the function times that of the argument, wherever there is one; for arcsec, arccosec and arcosech for positive arguments, for sinc for arguments other than zero |
| `Tangents.RuleConstantPower` | qucs-core/src/differentiate.cpp:288-302 | for an exponent with the derivative zero the power rule has the value b a^(b-1) a' |
| `Tangents.RuleVaryingPower` | qucs-core/src/differentiate.cpp:303-312 | for a varying exponent and a positive base the power rule has the value a^b (b' ln a + b a' / a) |
| `Tangents.Differentiates` | qucs-core/src/differentiate.cpp:113-787 | for every expression over the whole table, with + - * / ^ hypot, the functions and ?: on comparisons and connectives: where every function has a derivative at its argument and its rule holds, and no comparison is at its limit, the symbolic derivative has a value and it is the derivative |
| `Tangents.DeriveIsDerivative` | qucs-core/src/differentiate.cpp:113-787 | the same in numbers: e(x + h) = e(x) + h e'(x) up to M h^2 for all small h |
| `Tangents.DeriveIsLimit` | qucs-core/src/equation.cpp:988-997 | the remainder is smaller than any share of h: the symbolic derivative is the derivative |
| `Tangents.RationalRegular` | qucs-core/src/differentiate.cpp:113-335 | for expressions of + - * / sqr and natural constant powers it suffices that the expression has a value |
| `Tangents.RuleExact` | qucs-core/src/differentiate.cpp:337-738 | f(x) has its rule as derivative if and only if f has a derivative at x and, for arcsec, arccosec and arcosech, x is positive, for sinc not zero |
| `Tangents.RuleInputs` | qucs-core/src/differentiate.cpp:552-692 | at -2 the rules of arcsec, arccosec and arcosech are not the derivatives; at 0 that of sinc has no value, and abs and step have no derivative |
| `Tangents.PowerExact` | qucs-core/src/differentiate.cpp:288-335 | x^y has its rule as derivative with respect to x if and only if x is positive, or y is an integer and x is not zero or y at least one |
| `Tangents.ZeroPower` | qucs-core/src/differentiate.cpp:288-335 | 0^0 has the value one and its symbolic derivative none |
| `Tangents.EulerExact` | qucs-core/src/differentiate.cpp:343-352 | e^x has its rule as derivative if and only if the variable named e has the value of the base of the natural logarithm |
| `Tangents.JumpInput` | qucs-core/src/differentiate.cpp:669-681 | x < 0 ? 0 : 1 has the derivative zero by its rule, and none at 0 |
| `HashTables.HashTable.constructor` | qucs-core/src/hash.cpp:74-92 | the table starts empty with a binary number of buckets |
| `HashTables.HashTable.Get` | qucs-core/src/hash.cpp:265-276 | agrees with the finite map |
| `HashTables.HashTable.Put` | qucs-core/src/hash.cpp:192-231 | updates the finite map and returns the previous value; counts of keys and used buckets stay exact through expansion |
| `HashTables.HashTable.RehashExpand` | qucs-core/src/hash.cpp:130-163 | doubling moves every entry to its new bucket and keeps the entries and the count of used buckets |
| `HashTables.HashTable.Remove` | qucs-core/src/hash.cpp:237-251 | removes the key from the finite map and returns its value; tells whether the table is to be halved |
| `HashTables.HashTable.RehashShrink` | qucs-core/src/hash.cpp:165-184 | of the finite map the keys in the lower half are left; it is kept if and only if all keys lie there |
| `HashTables.HashTable.Del` | qucs-core/src/hash.cpp:237-260 | removes the key and returns its value; all other keys are kept if and only if the table is not halved or they lie in its lower half |
| `HashTables.LowerInput` | qucs-core/src/hash.cpp:165-184 | a key with the code 5 is lost when eight buckets become four |
| `HashTables.HashIterator.ToFirst` | qucs-core/src/hash.cpp:310-322 | stands at the first entry, if there is one |
| `HashTables.HashIterator.Next` | qucs-core/src/hash.cpp:342-361 | moves to the next entry in the order of the buckets, or ends |
| `HashTables.HashIterator.Visit` | qucs-core/src/hash.cpp:280-361 | a whole iteration visits every entry once |
| `Histories.History.Seek` | qucs-core/src/history.cpp:129-155 | terminates and finds a nearest sample of [l, r), with its error and the side it lies on |
| `Histories.History.Nearest` | qucs-core/src/history.cpp:109-123 | the value of a nearest sample among all but the youngest, or the interpolation around it; of the only sample if there is one; zero without samples |
| `Histories.History.Interpol` | qucs-core/src/history.cpp:87-104 | the spline through four samples if there are enough on both sides, else the sample itself |
| `Histories.Enclosed` | qucs-core/src/history.cpp:87-104 | around the nearest sample, two of the four samples are before the time and two after |
| `Histories.AroundNearest` | qucs-core/src/history.cpp:87-104 | the four times handed to the spline are consecutive samples, two not after the time and two not before it, with their values |
| `Histories.NearestOfAll` | qucs-core/src/history.cpp:106-123 | that sample is the nearest of all, the youngest included, if and only if the time is not beyond the middle of the last two samples |
| `Histories.YoungestMissed` | qucs-core/src/history.cpp:106-123 | for the times 0 and 1 the sample at 1 is nearer to 0.75, and missed |

## Left out

- Floating point rounding, overflow, `isfinite` guards and error messages.
- IterativeSolver.EnsureDiagonal: takes its row exchanges as an argument, because the second search of `ensure_diagonal_MNA` does not decide which rows it exchanges.
- HashTables.HashTable.RehashShrink: entries that are released count as gone, and the count of used buckets afterwards is left open; the hash code is any function of the key and capacity management of buckets is not modelled.
- Equations.Checker.EvaluateBody: an application with an argument that has no value has no value, where the original keeps the previous result or reads a null result; `ddx`, types and data dependencies are not modelled.
- Histories.History.Nearest: the spline is a function of the four samples that is given.
- Flattening.Expander.ExpandSubcircuits: without environments and properties of the copies.
- Flattening.ValidateSubcircuits: the number of errors in the properties of an instance is a function that is given.
- Flattening.NetlistChecker: the number of errors of the other checks, of definitions, equations and actions, is an argument.
- HbLinear.CreateMatrixLinearY: takes the matrix of the linear network as given, with entries between equal frequencies only, as `createMatrixLinearA` fills it; its continuation is `CreateMatrixLinearYV`.
- HbNewton.HbSolver.NewtonStep: devices are given by what they report for each sample, and the constant currents IC of the sources are given; the balance check between its halves is in `HbRun.Balance`.
- HbExpand.ExpandVector: for up to twice as many frequencies less one as there are entries, which holds for one tone.
- Multi-tone harmonic balance and the n-dimensional transform, whose twiddle signs differ from the one-dimensional transform.
- The transforms of two real vectors at once.
- The second QR variant `solve_qrh`, least squares, SVD and successive over-relaxation.
- Completeness of `detectCycles`, which expands dependencies one level per equation.
- Tangents.DeriveIsDerivative: values are real, where the original has complex ones for `sqrt`, `ln`, `arcsin`, `arccos` or powers outside of their real domain; the condition is sufficient for whole expressions and exact for single functions and powers of variables; the inverse functions are only assumed not to jump.
- Derivatives of functions that the table lacks, such as `sech`: their application is returned as it is, as in the original.
- Evaluation functions, data sets, file formats, device models, property tables and analysis drivers.
