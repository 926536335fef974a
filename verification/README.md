# Demand-model regression engine, modelled in Dafny

The phase-0 price-optimisation Lambda (`phase-0/src/lambda_function.py`) carries
its own small regression engine. Given historical prices and demands for four
products (Milk, Chocolate, Soup, Ramen):

- `parse_csv` turns CSV text into named columns of numbers;
- `train_demand_model` fits one log-log model per product,
  log(demand) = β0 + Σ βi·log(price_i). Each fit is ordinary least squares
  (`fit_linear_regression`): it builds the normal equations XᵗX·β = Xᵗy and
  solves them by Gaussian elimination with partial pivoting
  (`solve_linear_system`);
- `predict_demand` evaluates every stored model at a new price vector;
- `calculate_mean` and `calculate_covariance` are the statistics helpers.

The model has six modules, one per file:

- `Outcomes` (outcomes.dfy): the Python exceptions the code raises, as values (`ValueError`, `KeyError`, `IndexError`), plus `Result` and `Option`.
- `Statistics` (statistics.dfy): mean and covariance.
- `LinearSystem` (linear_system.dfy): the solver, as heap-free methods that reassign the augmented matrix row by row, the way the Python code mutates its list of lists.
- `Regression` (regression.dfy): the OLS fitter and the normal equations as specification functions.
- `DemandModel` (demand_model.dfy): training and prediction.
- `Csv` (csv.dfy): `str.strip`, `str.split` with a one-character separator, and the parser.

Numbers are `real`, so elimination is exact. The natural logarithm, the
exponential, `round(·, 2)` and `float(str)` are parameters (`ln`, `exp`,
`round2`, `parseFloat`). Nothing is assumed about them.

What the model establishes:

- Whether a pivot gets floored at 1e-10 is a property of the input. Forward
  elimination is specified step by step as functions of the augmented matrix,
  and "some step floors its pivot" (`Floored`) is defined from them.
- The solver returns exactly n values. They satisfy the upper-triangular
  system that elimination produces; every diagonal entry of that system is at
  least 1e-10 in magnitude.
- When no pivot is floored, the returned values are the one and only
  solution of A·x = b. An upper-triangular A whose diagonal entries are at
  least 1e-10 in magnitude is never floored.
- The fitter's coefficients always satisfy the triangular system that
  elimination of [XᵗX | Xᵗy] produces. Unless a pivot is floored, they are
  the unique solution of the normal equations. Those equations have a symmetric matrix with corner n and
  a vector headed by Σ y. If no pivot is floored and the data lie exactly on
  a hyperplane, the fit gives back that hyperplane's coefficients.
- Training succeeds exactly on usable data. It returns the four product keys
  with five coefficients each. On failure it raises what the Python code
  raises first: KeyError for a missing column; IndexError for a short price
  column, for no samples, or for a demand column longer than Price_Milk (the
  normal-equation sums index past the last sample).
- Prediction fails exactly as the Python code does. Otherwise it returns one
  value per model. Suppose a product's log demands lie exactly on a
  hyperplane β, and a training sample has all four prices at least 0.01.
  Then predicting with β at that sample reproduces its log demand.
- The parser fails exactly when the stripped text has no line break. Its keys
  are the stripped header names, and each column is the ordered concatenation
  of what each well-formed line contributes.

## Model

| member | source | states |
|---|---|---|
| `Statistics.Mean` | phase-0/src/lambda_function.py:101-103 | 0.0 for an empty list |
| `Statistics.MeanTimesLength` | phase-0/src/lambda_function.py:101-103 | mean × length equals the sum, for every list including the empty one |
| `Statistics.Covariance` | phase-0/src/lambda_function.py:106-109 | 0.0 whenever the lengths differ or are zero |
| `Statistics.MeanWithinBounds` | phase-0/src/lambda_function.py:101-103 | the mean of a non-empty list lies between any lower and upper bound of its elements |
| `Statistics.SumBounds` | phase-0/src/lambda_function.py:103 | n·lo ≤ sum ≤ n·hi when every element lies in [lo, hi] |
| `Statistics.CenteredProductSumSymmetric` | phase-0/src/lambda_function.py:114 | Σ(x−mx)(y−my) is unchanged when the two lists and their means are swapped |
| `Statistics.SumOfSquaresNonNegative` | phase-0/src/lambda_function.py:114 | Σ(x−m)² ≥ 0 |
| `Statistics.CovarianceSymmetric` | phase-0/src/lambda_function.py:106-114 | cov(x, y) = cov(y, x) |
| `Statistics.VarianceNonNegative` | phase-0/src/lambda_function.py:106-114 | cov(x, x) ≥ 0 |
| `Statistics.CenteredProductSumExpanded` | phase-0/src/lambda_function.py:114 | Σ(x−mx)(y−my) = Σxy − my·Σx − mx·Σy + n·mx·my |
| `Statistics.CovarianceShortcut` | phase-0/src/lambda_function.py:106-114 | for equal non-zero lengths, cov(x, y) = Σxy/n − mean(x)·mean(y) |
| `LinearSystem.Augment` | phase-0/src/lambda_function.py:154-155 | the augmented copy has n rows of n + 1 entries; row i is A[i] followed by b[i] |
| `LinearSystem.AugmentedSystem` | phase-0/src/lambda_function.py:154-155 | x satisfies every row of [A \| b] exactly when A·x = b |
| `LinearSystem.PivotScan` | phase-0/src/lambda_function.py:159-163 | the row chosen after scanning rows i..k−1 lies in that range |
| `LinearSystem.Pivoted` | phase-0/src/lambda_function.py:159-168 | after the row exchange and the floor, the matrix keeps its shape and the pivot is at least 1e-10 in magnitude |
| `LinearSystem.ReducedRow` | phase-0/src/lambda_function.py:173-174 | row − factor·pivotRow from column `from` on keeps the row length |
| `LinearSystem.Cleared` | phase-0/src/lambda_function.py:170-174 | clearing column i below the pivot keeps an n × (n + 1) matrix |
| `LinearSystem.Eliminated` | phase-0/src/lambda_function.py:157-174 | every prefix of the elimination steps keeps an n × (n + 1) matrix |
| `LinearSystem.FindPivot` | phase-0/src/lambda_function.py:159-164 | the chosen row lies in i..n−1 and has the largest abs value in column i; every earlier row in range is strictly smaller, so the earliest row wins a tie; it is the row the scan specification `PivotScan` picks |
| `LinearSystem.SubtractScaledRow` | phase-0/src/lambda_function.py:173-174 | entries from column i on become row[c] − factor·pivotRow[c]; the earlier entries are unchanged |
| `LinearSystem.ClearBelowPivot` | phase-0/src/lambda_function.py:171-174 | one pass of the inner loop replaces row k by its reduced row, zeroes its entry in column i, and keeps the solution set |
| `LinearSystem.RowReplacementEquivalent` | phase-0/src/lambda_function.py:171-174 | replacing row k by row k − f·row i (i ≠ k) keeps the solution set |
| `LinearSystem.SwapEquivalent` | phase-0/src/lambda_function.py:164 | swapping two rows keeps the solution set |
| `LinearSystem.EliminateColumn` | phase-0/src/lambda_function.py:170-174 | the result is the specification `Cleared`: rows 0..i untouched, column i zero below the pivot, the solution set unchanged |
| `LinearSystem.ClearedKeepsZeros` | phase-0/src/lambda_function.py:170-174 | clearing column i keeps rows 0..i and the zeros already below the diagonal in earlier columns |
| `LinearSystem.PivotRows` | phase-0/src/lambda_function.py:159-168 | the pivoting half of step i equals `Pivoted`: earlier rows and zeros kept, and the solution set kept unless this step floors its pivot |
| `LinearSystem.EliminationStep` | phase-0/src/lambda_function.py:158-174 | one outer iteration takes the matrix after i steps to the matrix after i + 1 steps, keeping triangular columns, pivots ≥ 1e-10 and, while nothing is floored, the solution set |
| `LinearSystem.ForwardEliminate` | phase-0/src/lambda_function.py:157-174 | the result is the n-step specification `Eliminated`: upper triangular, every pivot of magnitude ≥ 1e-10 (a smaller one becomes +1e-10), and, unless `Floored` holds for the input, exactly the solutions of the input |
| `LinearSystem.SubstituteRow` | phase-0/src/lambda_function.py:179-182 | solving row i for x[i] makes Σ_{j≥i} U[i][j]·x[j] = U[i][n] and leaves every other entry of x unchanged |
| `LinearSystem.BackSubstitute` | phase-0/src/lambda_function.py:176-184 | n values satisfying every triangular row equation Σ_{j≥i} U[i][j]·x[j] = U[i][n] |
| `LinearSystem.TriangularRow` | phase-0/src/lambda_function.py:178-182 | on an upper-triangular matrix, a row's equation from the diagonal on is its whole equation |
| `LinearSystem.LeadingEntryDetermined` | phase-0/src/lambda_function.py:178-182 | two vectors that agree after position r and give the same row sum from r on, with a non-zero leading coefficient, agree at r too |
| `LinearSystem.TriangularUnique` | phase-0/src/lambda_function.py:176-184 | two vectors solving the same triangular system with non-zero diagonal are equal |
| `LinearSystem.Solve` | phase-0/src/lambda_function.py:147-184 | n results satisfying the triangular system that elimination of [A \| b] produces; unless `Floored` holds for [A \| b], the unique solution of A·x = b |
| `LinearSystem.PivotScanKeepsDiagonal` | phase-0/src/lambda_function.py:159-163 | with a non-zero entry at (i, i) and zeros below it, the pivot search keeps row i |
| `LinearSystem.TriangularStepIdle` | phase-0/src/lambda_function.py:158-174 | on an upper-triangular system with pivots ≥ 1e-10, a step floors nothing and changes nothing |
| `LinearSystem.TriangularNeverFloored` | phase-0/src/lambda_function.py:157-174 | such a system goes through every elimination step unchanged and is never floored |
| `LinearSystem.TriangularInputNotFloored` | phase-0/src/lambda_function.py:147-184 | for an upper-triangular A with diagonal ≥ 1e-10 in magnitude, Solve's no-floor clauses apply |
| `Regression.DesignRow` | phase-0/src/lambda_function.py:129 | a design row is 1.0 followed by the sample's features |
| `Regression.Design` | phase-0/src/lambda_function.py:128-130 | one design row per sample, in order |
| `Regression.NormalMatrix` | phase-0/src/lambda_function.py:132-136 | XᵗX is (p + 1) × (p + 1) |
| `Regression.NormalVector` | phase-0/src/lambda_function.py:138-139 | Xᵗy has p + 1 entries |
| `Regression.GramMatrix` | phase-0/src/lambda_function.py:132-136 | the nested loops fill XᵗX row by row: row u is the cross-sum row of design column u |
| `Regression.EliminatedNormalSystem` | phase-0/src/lambda_function.py:132-142 | [XᵗX \| Xᵗy] after all elimination steps is a (p + 1) × (p + 2) matrix |
| `Regression.SolveNormalEquations` | phase-0/src/lambda_function.py:132-142 | p + 1 coefficients that satisfy the triangular system elimination of [XᵗX \| Xᵗy] produces, floored pivots included; unless a pivot is floored, the unique normal-equation solution and the unique exact fit |
| `Regression.FitLinearRegression` | phase-0/src/lambda_function.py:117-144 | IndexError exactly when X is empty, there are more targets than rows, or a used row is short; otherwise p + 1 coefficients, which satisfy the triangular system that elimination of [XᵗX \| Xᵗy] produces whether or not a pivot is floored. Unless `PivotFloored` holds for the data, these are the unique solution of the normal equations and equal any coefficients that fit the data exactly |
| `Regression.CrossSumSymmetric` | phase-0/src/lambda_function.py:136 | Σ_k D[k][u]·D[k][v] is symmetric in u and v |
| `Regression.NormalMatrixSymmetric` | phase-0/src/lambda_function.py:132-136 | XᵗX is symmetric |
| `Regression.InterceptCrossSum` | phase-0/src/lambda_function.py:129-136 | the intercept column's self cross-sum over n rows is n |
| `Regression.NormalMatrixCorner` | phase-0/src/lambda_function.py:129-136 | XᵗX[0][0] = n |
| `Regression.InterceptTargetSum` | phase-0/src/lambda_function.py:129-139 | the intercept entry of Xᵗy over n rows is the sum of the first n targets |
| `Regression.NormalVectorHead` | phase-0/src/lambda_function.py:138-139 | Xᵗy[0] = Σ y |
| `Regression.GramDotIsRowProduct` | phase-0/src/lambda_function.py:132-136 | row u of XᵗX times β, entry by entry, is Σ_j CrossSum(u, j)·β_j |
| `Regression.GramDotEmpty` | phase-0/src/lambda_function.py:136 | with no samples, row u of XᵗX times β is 0 |
| `Regression.GramDotGrows` | phase-0/src/lambda_function.py:136 | adding sample m − 1 adds D[m−1][u]·(D[m−1]·β) to row u of XᵗX times β |
| `Regression.GramRowTimes` | phase-0/src/lambda_function.py:132-136 | row u of XᵗX times β is Σ_k D[k][u]·(D[k]·β) |
| `Regression.FittedSumIsTargetSum` | phase-0/src/lambda_function.py:138-139 | when every D[k]·β equals y[k], Σ_k D[k][u]·(D[k]·β) is entry u of Xᵗy |
| `Regression.ExactDataSolvesNormalEquations` | phase-0/src/lambda_function.py:117-144 | exact-fit coefficients solve the normal equations |
| `Regression.DiagonalNormalMatrixNotFloored` | phase-0/src/lambda_function.py:132-142 | a diagonal XᵗX with entries ≥ 1e-10 floors no pivot |
| `Regression.BalancedSamplesNotFloored` | phase-0/src/lambda_function.py:117-144 | the one-feature samples +1 and −1 give XᵗX = 2·I and floor no pivot, for any two targets |
| `DemandModel.ProductNameOfColumn` | phase-0/src/lambda_function.py:215 | removing "Demand_" from a demand column gives its product's name |
| `DemandModel.RemoveAll` | phase-0/src/lambda_function.py:215 | `str.replace(pat, "")` never adds characters: the result's multiset of characters is within the input's |
| `DemandModel.ProductOf` | phase-0/src/lambda_function.py:214-215 | the loop's product name for demand column d is product d |
| `DemandModel.RemoveAllAbsent` | phase-0/src/lambda_function.py:215 | removing a pattern whose first character does not occur leaves the string unchanged |
| `DemandModel.ProductsDistinct` | phase-0/src/lambda_function.py:195 | the four product names are pairwise different |
| `DemandModel.ProductSet` | phase-0/src/lambda_function.py:195 | the product names form the set {Milk, Chocolate, Soup, Ramen} |
| `DemandModel.LogOrZero` | phase-0/src/lambda_function.py:205-208 | the transform of lines 205-208 and 220-223: 0.0 for a value ≤ 0; for a value ≥ 0.01 the same logarithm as the prediction-time transform |
| `DemandModel.FlooredLog` | phase-0/src/lambda_function.py:247 | ln(p) for p ≥ 0.01 and ln(0.01) for p ≤ 0.01 |
| `DemandModel.LogPrices` | phase-0/src/lambda_function.py:247 | one transformed price per input price |
| `DemandModel.LogPriceMatrix` | phase-0/src/lambda_function.py:197-209 | one row of four transformed prices per sample |
| `DemandModel.LogTargets` | phase-0/src/lambda_function.py:217-223 | one transformed demand per sample |
| `DemandModel.LogTransformPrices` | phase-0/src/lambda_function.py:197-209 | succeeds exactly when every price cell of the n samples exists, and then returns the log-price matrix (a price ≤ 0 entered as 0.0); otherwise fails at the first missing cell in row-major order, with KeyError naming its column when the column is missing and IndexError when it is short |
| `DemandModel.FirstUnreadableCell` | phase-0/src/lambda_function.py:201-204 | the first missing price cell in row-major order is unique |
| `DemandModel.LogTransformDemand` | phase-0/src/lambda_function.py:218-223 | every demand through log, with a demand ≤ 0 entered as 0.0 |
| `DemandModel.FitProduct` | phase-0/src/lambda_function.py:214-227 | KeyError naming the demand column when it is missing, IndexError when there are no samples or more demands than samples, success otherwise; then five coefficients that are the unique solution of the product's normal equations when `PivotFloored` does not hold for its data, and satisfy the triangular system elimination of those equations produces when it does |
| `DemandModel.FitProducts` | phase-0/src/lambda_function.py:211-229 | succeeds exactly when every demand column is present and fittable; otherwise raises the error of the first product in the order Milk, Chocolate, Soup, Ramen that is not; on success keys Milk, Chocolate, Soup, Ramen with five coefficients each, each product's model fitted as in `FitProduct`, floored or not (`ProductModelsFitted`) |
| `DemandModel.AddProduct` | phase-0/src/lambda_function.py:214-227 | one pass of the product loop: it fails exactly when product d cannot be fitted, with that product's error, and otherwise extends the models of the first d products by product d, whose coefficients are a fit of its demand column as in `FitProduct` |
| `DemandModel.StoreModel` | phase-0/src/lambda_function.py:227 | `models[product_name] = coefficients` adds product d's entry and keeps the entries of the first d products |
| `DemandModel.FitsExtend` | phase-0/src/lambda_function.py:214-227 | a fit of product d appended to fits of products 0..d−1 gives fits of products 0..d |
| `DemandModel.ModelsFitted` | phase-0/src/lambda_function.py:211-229 | after all four passes, each product's stored model is a fit of that product |
| `DemandModel.FirstUnfittable` | phase-0/src/lambda_function.py:214-227 | the first product that cannot be fitted is unique |
| `DemandModel.TrainDemandModel` | phase-0/src/lambda_function.py:187-229 | succeeds exactly on usable data (all columns present, at least one sample, price columns long enough, demand columns not too long). A missing Price_Milk is KeyError; then the first missing price cell in row-major order decides the error (KeyError for a missing column, IndexError for a short one); then the first unfittable product does. On success: exactly the four product keys, five coefficients each, and each product whose fit floors no pivot gets the unique solution of its log-log normal equations, while a product whose fit floors one gets coefficients satisfying the triangular system elimination of those equations produces |
| `DemandModel.PredictDemand` | phase-0/src/lambda_function.py:232-261 | ValueError exactly when the price count is not 4; IndexError exactly when some model has fewer than five coefficients. Otherwise one entry per model key: round2(exp(c[0] + Σ c[i+1]·log(max(p_i, 0.01)))) |
| `DemandModel.LinearPredictor` | phase-0/src/lambda_function.py:253-255 | with every slope coefficient zero the prediction is the intercept |
| `DemandModel.PredictorIsDesignRowDot` | phase-0/src/lambda_function.py:253-255 | the prediction loop computes the dot product of the coefficients with the design row [1, log p_0, …] that training used |
| `DemandModel.PredictorCongruent` | phase-0/src/lambda_function.py:253-255 | a prediction over m prices reads only coefficients 0..m |
| `DemandModel.ExtraCoefficientsIgnored` | phase-0/src/lambda_function.py:253-255 | coefficients beyond the fifth do not change a four-price prediction |
| `DemandModel.PredictionAtTrainingSample` | phase-0/src/lambda_function.py:187-261 | when a product's log demands lie exactly on a hyperplane β, predicting with β at a training sample whose four prices are all at least 0.01 gives back that sample's log demand |
| `Csv.IsSpace` | phase-0/src/lambda_function.py:75 | blank, tab, line feed and carriage return are whitespace; the separator ',', the characters '.' and '-' and the digits never are |
| `Csv.StripLeft` | phase-0/src/lambda_function.py:75 | the result is no longer than the input and does not start with whitespace |
| `Csv.StripRight` | phase-0/src/lambda_function.py:75 | the result is no longer than the input and does not end with whitespace |
| `Csv.StripLeftDropsSpace` | phase-0/src/lambda_function.py:75 | what is removed on the left is whitespace, and the result is the rest of the string |
| `Csv.StripRightDropsSpace` | phase-0/src/lambda_function.py:75 | what is removed on the right is whitespace, and the result is the start of the string |
| `Csv.Strip` | phase-0/src/lambda_function.py:75 | neither end of the result is whitespace |
| `Csv.StripKeepsInterior` | phase-0/src/lambda_function.py:75 | the result is a contiguous piece of the input with only whitespace before and after it |
| `Csv.StripIdempotent` | phase-0/src/lambda_function.py:81 | stripping twice is stripping once |
| `Csv.Split` | phase-0/src/lambda_function.py:75 | there is always at least one piece |
| `Csv.JoinSplit` | phase-0/src/lambda_function.py:75 | rejoining the pieces with the separator gives the original string |
| `Csv.Join` | phase-0/src/lambda_function.py:88 | the join starts with the first piece and has at least one separator per gap |
| `Csv.JoinSeparatorCount` | phase-0/src/lambda_function.py:88 | separator-free pieces joined give exactly \|parts\| − 1 separators |
| `Csv.SplitJoin` | phase-0/src/lambda_function.py:88 | splitting the join of separator-free pieces gives the pieces back |
| `Csv.SplitPartsFree` | phase-0/src/lambda_function.py:88 | no piece contains the separator |
| `Csv.SplitCount` | phase-0/src/lambda_function.py:75-77 | the number of pieces is the number of separators plus one |
| `Csv.SplitSeparatorFree` | phase-0/src/lambda_function.py:88 | a string without the separator splits into itself |
| `Csv.SplitAfterPiece` | phase-0/src/lambda_function.py:88 | splitting p + sep + t gives p followed by the pieces of t |
| `Csv.Lines` | phase-0/src/lambda_function.py:75 | the stripped text has at least one line |
| `Csv.Header` | phase-0/src/lambda_function.py:81 | one stripped name per ',' cell of the first line |
| `Csv.AppendRow` | phase-0/src/lambda_function.py:92-96 | same keys; each column gains, in order, the numeric cells under its name in this line |
| `Csv.CellsFor` | phase-0/src/lambda_function.py:92-96 | the first j cells of a line give at most j values |
| `Csv.RowContribution` | phase-0/src/lambda_function.py:87-96 | one line gives at most one value per header cell |
| `Csv.Column` | phase-0/src/lambda_function.py:84-96 | a name that is not in the header collects nothing |
| `Csv.AbsentNameCollectsNothing` | phase-0/src/lambda_function.py:84-96 | no data line adds anything under a name the header lacks |
| `Csv.ParseRows` | phase-0/src/lambda_function.py:84-98 | keys are the header names; each column is its contribution from every data line in order |
| `Csv.ParseCsv` | phase-0/src/lambda_function.py:65-98 | ValueError("CSV must have at least header and one data row") exactly when the stripped text has no line break; otherwise the keys are exactly the stripped header names and each column is its column of the data lines |
| `Csv.ColumnAppend` | phase-0/src/lambda_function.py:87-96 | lines are read in order: the column over a + b is a's column followed by b's |
| `Csv.CellsForCount` | phase-0/src/lambda_function.py:92-96 | a line adds at most one value per header cell with that name, and exactly that many when all its cells parse |
| `Csv.RowContributionCount` | phase-0/src/lambda_function.py:87-96 | a line contributes at most as many values as the header has cells with that name, and exactly that many when it is well-formed and all its cells parse |
| `Csv.ColumnLengthBound` | phase-0/src/lambda_function.py:84-96 | a column has at most (occurrences of its name in the header) × (data lines) values |
| `Csv.CleanColumnLength` | phase-0/src/lambda_function.py:84-96 | with every line well-formed and every cell numeric, that bound is reached exactly |
| `Csv.DistinctOccursOnce` | phase-0/src/lambda_function.py:81-84 | in a header of distinct names, a name that appears occurs exactly once |
| `Csv.DistinctColumnBound` | phase-0/src/lambda_function.py:84-96 | with distinct header names, no column has more values than there are data lines |
| `Csv.CleanColumnHasEveryRow` | phase-0/src/lambda_function.py:84-96 | with distinct header names and a clean table, every column has exactly one value per data line |
| `Csv.RepeatedHeaderNameCollects` | phase-0/src/lambda_function.py:84-94 | a repeated header name shares one list: header "a,a" over the line "1,2" gives column a two values |
| `Csv.MalformedRowSkipped` | phase-0/src/lambda_function.py:89-90 | a line whose cell count differs from the header's adds nothing to any column |

## Left out

- Floating point: every number is an exact `real`. Rounding error, NaN and infinity are not modelled, so neither are the 1e-6 and 1e-4 tolerance claims. The two float constants that select a branch are kept exactly: the 1e-10 pivot floor of the solver, and the 0.01 price floor of `max(p, 0.01)` in `predict_demand` (line 247), which `FlooredLog` models.
- `math.log`, `math.exp`, `round(·, 2)` and `float(str)` are parameters with no properties assumed. As a consequence, `math.exp` overflowing (OverflowError) in `predict_demand` is not modelled.
- `download_data_from_s3`, `lambda_handler` and the `__main__` block are S3, JSON and file I/O; they are not part of this model. Neither are phase-1's Lambda and training pipeline, which are pandas, LightGBM and S3 plumbing.
- Solve: requires a square A with n = len(b) rows. The Python function also accepts other shapes, and indexes out of range on some of them, but its only caller passes the square XᵗX.
- Solve: when a pivot is floored (`Floored` holds for [A | b]), the model guarantees only that x solves the eliminated triangular system, not a relation to A·x = b. The Python code silently perturbs the system there, and what it then computes depends on the perturbation.
- FitLinearRegression: with no pivot floored, the least-squares claim is stated as uniqueness of the normal-equation solution. The minimisation of the squared error is not proved.
- PredictDemand: Python walks `models` in dict insertion order and raises at the first short model. The model walks the keys in an unspecified order. The outcome does not depend on the order, since every failure is the same IndexError and on success every key is filled.
- Csv: the string operations follow Python's rules for `str.strip()` (its full whitespace set) and for `str.split` with a one-character separator. Unicode normalisation plays no part.
- Aliasing: the Python solver copies A and b before mutating, and the model works on values. "The caller's A and b are unchanged" therefore holds by construction rather than as a separate statement.
