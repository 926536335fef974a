/** The per-product log-log demand model: `train_demand_model` fits, for each
    of four products, log(demand) = β0 + Σ βi·log(price_i) by ordinary least
    squares; `predict_demand` evaluates every stored model at a new price
    vector. The natural logarithm, the exponential and rounding to two
    decimals are parameters (`ln`, `exp`, `round2`) about which nothing is
    assumed. */
module DemandModel {
  import opened Outcomes
  import opened LinearSystem
  import opened Regression

  const PriceColumns: seq<string> := ["Price_Milk", "Price_Chocolate", "Price_Soup", "Price_Ramen"]
  const DemandColumns: seq<string> := ["Demand_Milk", "Demand_Chocolate", "Demand_Soup", "Demand_Ramen"]
  const Products: seq<string> := ["Milk", "Chocolate", "Soup", "Ramen"]
  const DemandPrefix: string := "Demand_"

  /** Prices are floored here before their logarithm is taken at prediction time. */
  const PriceFloor: real := 0.01

  const PriceCountMessage: string := "Expected 4 prices [Milk, Chocolate, Soup, Ramen]"

  /** Python's s.replace(pat, ""): every non-overlapping occurrence of pat,
      scanning from the left, removed. */
  function RemoveAll(s: string, pat: string): (r: string)
    requires |pat| > 0
    ensures multiset(r) <= multiset(s)
    decreases |s|
  {
    if |s| < |pat| then s
    else if s[..|pat|] == pat then
      assert s == s[..|pat|] + s[|pat|..];
      RemoveAll(s[|pat|..], pat)
    else
      assert s == [s[0]] + s[1..];
      [s[0]] + RemoveAll(s[1..], pat)
  }

  /** The product a demand column belongs to: its name without "Demand_". */
  function ProductName(demandColumn: string): string
  {
    RemoveAll(demandColumn, DemandPrefix)
  }

  /** Training-time log transform: the logarithm of a positive value, 0.0 otherwise. */
  function LogOrZero(ln: real -> real, v: real): (r: real)
    ensures v >= PriceFloor ==> r == FlooredLog(ln, v)
    ensures v <= 0.0 ==> r == 0.0
  {
    if v > 0.0 then ln(v) else 0.0
  }

  /** Prediction-time log transform: the logarithm of max(p, 0.01). */
  function FlooredLog(ln: real -> real, p: real): (r: real)
    ensures p >= PriceFloor ==> r == ln(p)
    ensures p <= PriceFloor ==> r == ln(PriceFloor)
  {
    ln(if p >= PriceFloor then p else PriceFloor)
  }

  function LogPrices(prices: seq<real>, ln: real -> real): (lp: seq<real>)
    ensures |lp| == |prices|
  {
    seq(|prices|, i requires 0 <= i < |prices| => FlooredLog(ln, prices[i]))
  }

  /** c[0] + Σ_{i < m} c[i + 1]·lp[i]: the fitted log demand over the first m log prices. */
  function LinearPredictor(c: seq<real>, lp: seq<real>, m: nat): (r: real)
    requires m <= |lp| && m < |c|
    ensures (forall i :: 1 <= i <= m ==> c[i] == 0.0) ==> r == c[0]
  {
    if m == 0 then c[0] else LinearPredictor(c, lp, m - 1) + c[m] * lp[m - 1]
  }

  /** Every price column is present and at least as long as Price_Milk. */
  ghost predicate PricesUsable(data: map<string, seq<real>>)
  {
    (forall c :: 0 <= c < 4 ==> PriceColumns[c] in data) &&
    forall c :: 0 <= c < 4 ==> |data[PriceColumns[c]]| >= |data[PriceColumns[0]]|
  }

  /** Every price and demand column is present; the sample count n (the
      length of Price_Milk) is positive; every price column has at least n
      entries and no demand column more than n. */
  ghost predicate TrainingDataUsable(data: map<string, seq<real>>)
  {
    PricesUsable(data) &&
    (forall c :: 0 <= c < 4 ==> DemandColumns[c] in data) &&
    var n := |data[PriceColumns[0]]|;
    n > 0 && (forall c :: 0 <= c < 4 ==> |data[DemandColumns[c]]| <= n)
  }

  /** The four product names, as a set. */
  lemma ProductSet()
    ensures (set q | 0 <= q < 4 :: Products[q]) == {"Milk", "Chocolate", "Soup", "Ramen"}
  {
    var named := set q | 0 <= q < 4 :: Products[q];
    assert Products[0] in named && Products[1] in named && Products[2] in named && Products[3] in named;
  }

  /** The log-price sample matrix: row i holds the four transformed prices of sample i. */
  function LogPriceMatrix(data: map<string, seq<real>>, ln: real -> real): (X: seq<seq<real>>)
    requires PricesUsable(data)
    ensures |X| == |data[PriceColumns[0]]|
    ensures forall i :: 0 <= i < |X| ==> |X[i]| == 4
  {
    var n := |data[PriceColumns[0]]|;
    seq(n, i requires 0 <= i < n =>
      seq(4, c requires 0 <= c < 4 => LogOrZero(ln, data[PriceColumns[c]][i])))
  }

  /** A demand column with the training-time log transform applied. */
  function LogTargets(column: seq<real>, ln: real -> real): (y: seq<real>)
    ensures |y| == |column|
  {
    seq(|column|, i requires 0 <= i < |column| => LogOrZero(ln, column[i]))
  }

  /** beta is the one and only solution of the normal equations of (X, y). */
  ghost predicate UniqueNormalSolution(X: seq<seq<real>>, y: seq<real>, beta: seq<real>)
    requires FitShapeOk(X, y)
  {
    NormalEquations(X, y, beta) && forall b :: NormalEquations(X, y, b) ==> b == beta
  }

  /** What a successful fit of (X, y) guarantees: the shapes were usable;
      if solving floored a pivot, beta solves the normal system as
      elimination left it, and otherwise beta is the unique normal-equation
      solution. */
  ghost predicate FittedUnlessFloored(X: seq<seq<real>>, y: seq<real>, beta: seq<real>)
  {
    FitShapeOk(X, y) &&
    (PivotFloored(X, y) ==> SolvesEliminatedNormalSystem(X, y, beta)) &&
    (!PivotFloored(X, y) ==> UniqueNormalSolution(X, y, beta))
  }

  /** Price cell i of column c exists. */
  ghost predicate CellReadable(data: map<string, seq<real>>, c: nat, i: nat)
    requires c < 4
  {
    PriceColumns[c] in data && i < |data[PriceColumns[c]]|
  }

  /** Every price cell read before cell (i, c) in row-major order exists. */
  ghost predicate ReadableBefore(data: map<string, seq<real>>, i: nat, c: nat)
    requires c < 4
  {
    (forall i', c' :: 0 <= i' < i && 0 <= c' < 4 ==> CellReadable(data, c', i')) &&
    (forall c' :: 0 <= c' < c ==> CellReadable(data, c', i))
  }

  /** The exception reading a missing price cell of column c raises. */
  function CellError(data: map<string, seq<real>>, c: nat): Error
    requires c < 4
  {
    if PriceColumns[c] in data then IndexError else KeyError(PriceColumns[c])
  }

  /** Product q's demand column exists and can be fitted against n samples. */
  ghost predicate Fittable(data: map<string, seq<real>>, n: nat, q: nat)
    requires q < 4
  {
    DemandColumns[q] in data && 0 < n && |data[DemandColumns[q]]| <= n
  }

  /** The exception product d's iteration raises when it cannot be fitted. */
  function DemandError(data: map<string, seq<real>>, d: nat): Error
    requires d < 4
  {
    if DemandColumns[d] in data then IndexError else KeyError(DemandColumns[d])
  }

  lemma ProductsDistinct()
    ensures forall q, d :: 0 <= q < d < 4 ==> Products[q] != Products[d]
  {
    assert Products[0][0] == 'M' && Products[1][0] == 'C' && Products[2][0] == 'S' && Products[3][0] == 'R';
  }

  /** A string in which the pattern's first character never occurs loses nothing. */
  lemma {:induction false} RemoveAllAbsent(t: string, pat: string)
    requires |pat| > 0 && pat[0] !in t
    ensures RemoveAll(t, pat) == t
    decreases |t|
  {
    if |t| >= |pat| {
      assert t[..|pat|][0] == t[0] != pat[0];
      RemoveAllAbsent(t[1..], pat);
      assert [t[0]] + t[1..] == t;
    }
  }

  /** Stripping "Demand_" from a demand column gives its product's name. */
  lemma ProductNameOfColumn(d: nat)
    requires d < 4
    ensures ProductName(DemandColumns[d]) == Products[d]
  {
    var product := Products[d];
    var column := DemandColumns[d];
    assert column == DemandPrefix + product;
    assert column[..|DemandPrefix|] == DemandPrefix && column[|DemandPrefix|..] == product;
    assert 'D' !in product;
    RemoveAllAbsent(product, DemandPrefix);
  }

  /** The price half of train_demand_model: for each of the n samples, the
      four prices in column order, each through LogOrZero. A missing price
      column is a KeyError and a column shorter than Price_Milk an IndexError,
      met in row-major order; with no samples nothing is read. */
  method LogTransformPrices(data: map<string, seq<real>>, ln: real -> real, nSamples: nat)
    returns (r: Result<seq<seq<real>>>)
    requires PriceColumns[0] in data && nSamples == |data[PriceColumns[0]]|
    ensures r.Success? <==> nSamples == 0 || PricesUsable(data)
    ensures r.Failure? ==>
      r.error == IndexError || (r.error.KeyError? && r.error.key in PriceColumns && r.error.key !in data)
    ensures r.Success? <==> ReadableBefore(data, nSamples, 0)
    ensures forall i, c :: (0 <= i < nSamples && 0 <= c < 4 && !CellReadable(data, c, i) && ReadableBefore(data, i, c)) ==>
      r == Failure(CellError(data, c))
    ensures r.Success? ==> |r.value| == nSamples
    ensures r.Success? && nSamples > 0 ==> r.value == LogPriceMatrix(data, ln)
  {
    var logPrices: seq<seq<real>> := [];
    for i := 0 to nSamples
      invariant |logPrices| == i
      invariant i > 0 ==> forall c :: 0 <= c < 4 ==> PriceColumns[c] in data && |data[PriceColumns[c]]| >= i
      invariant forall t :: 0 <= t < i ==>
        |logPrices[t]| == 4 && (forall c :: 0 <= c < 4 ==> logPrices[t][c] == LogOrZero(ln, data[PriceColumns[c]][t]))
    {
      var logPriceRow: seq<real> := [];
      for c := 0 to 4
        invariant |logPriceRow| == c
        invariant forall q :: 0 <= q < c ==>
          (PriceColumns[q] in data && i < |data[PriceColumns[q]]| &&
           logPriceRow[q] == LogOrZero(ln, data[PriceColumns[q]][i]))
      {
        var col := PriceColumns[c];
        if col !in data || i >= |data[col]| {
          assert ReadableBefore(data, i, c);
          FirstUnreadableCell(data, i, c);
          if col !in data {
            return Failure(KeyError(col));
          }
          return Failure(IndexError);
        }
        var price := data[col][i];
        if price > 0.0 {
          logPriceRow := logPriceRow + [ln(price)];
        } else {
          logPriceRow := logPriceRow + [0.0];
        }
      }
      logPrices := logPrices + [logPriceRow];
    }
    r := Success(logPrices);
    if nSamples > 0 {
      var X := LogPriceMatrix(data, ln);
      forall t | 0 <= t < nSamples ensures logPrices[t] == X[t] {
        assert |logPrices[t]| == |X[t]| == 4;
      }
    }
  }

  /** In row-major order there is only one first missing price cell. */
  lemma FirstUnreadableCell(data: map<string, seq<real>>, i: nat, c: nat)
    requires c < 4 && !CellReadable(data, c, i) && ReadableBefore(data, i, c)
    ensures forall i', c' :: 0 <= c' < 4 && !CellReadable(data, c', i') && ReadableBefore(data, i', c') ==>
      i' == i && c' == c
  {
  }

  /** The demand half of train_demand_model for one column: each demand
      through LogOrZero, in order. */
  method LogTransformDemand(column: seq<real>, ln: real -> real) returns (logDemand: seq<real>)
    ensures logDemand == LogTargets(column, ln)
  {
    logDemand := [];
    for t := 0 to |column|
      invariant |logDemand| == t
      invariant forall q :: 0 <= q < t ==> logDemand[q] == LogOrZero(ln, column[q])
    {
      var demand := column[t];
      if demand > 0.0 {
        logDemand := logDemand + [ln(demand)];
      } else {
        logDemand := logDemand + [0.0];
      }
    }
  }

  /** One iteration of train_demand_model's product loop: look up the demand
      column of product d (KeyError when missing), log-transform it and fit
      it against the log-price matrix (IndexError when there are no samples
      or more demands than samples). */
  method FitProduct(data: map<string, seq<real>>, ln: real -> real, logPrices: seq<seq<real>>, d: nat)
    returns (r: Result<seq<real>>)
    requires d < 4
    requires forall t :: 0 <= t < |logPrices| ==> |logPrices[t]| == 4
    ensures r.Success? <==> Fittable(data, |logPrices|, d)
    ensures r.Failure? ==> r.error == DemandError(data, d)
    ensures r.Success? ==> |r.value| == 5
    ensures r.Success? ==> FittedUnlessFloored(logPrices, LogTargets(data[DemandColumns[d]], ln), r.value)
  {
    var demandCol := DemandColumns[d];
    if demandCol !in data {
      return Failure(KeyError(demandCol));
    }
    var logDemand := LogTransformDemand(data[demandCol], ln);
    r := FitLinearRegression(logPrices, logDemand);
  }

  /** The loop's product_name: the demand column of product d without "Demand_". */
  method ProductOf(d: nat) returns (productName: string)
    requires d < 4
    ensures productName == Products[d]
  {
    productName := ProductName(DemandColumns[d]);
    ProductNameOfColumn(d);
  }

  /** In product order there is only one first product that cannot be fitted. */
  lemma FirstUnfittable(data: map<string, seq<real>>, n: nat, d: nat)
    requires d < 4 && !Fittable(data, n, d) && forall q :: 0 <= q < d ==> Fittable(data, n, q)
    ensures forall d' :: (0 <= d' < 4 && !Fittable(data, n, d') &&
      (forall q :: 0 <= q < d' ==> Fittable(data, n, q))) ==> d' == d
  {
  }

  /** Product q's demand column exists and c is what fitting it guarantees. */
  ghost predicate ProductFitted(data: map<string, seq<real>>, ln: real -> real, logPrices: seq<seq<real>>,
                                q: nat, c: seq<real>)
    requires q < 4
  {
    DemandColumns[q] in data && FittedUnlessFloored(logPrices, LogTargets(data[DemandColumns[q]], ln), c)
  }

  /** fits[q] is a fit of product q, for each of the first |fits| products. */
  ghost predicate FitsSoFar(data: map<string, seq<real>>, ln: real -> real, logPrices: seq<seq<real>>,
                            fits: seq<seq<real>>)
  {
    |fits| <= 4 && forall q :: 0 <= q < |fits| ==> ProductFitted(data, ln, logPrices, q, fits[q])
  }

  /** A fit of the next product extends the fits so far. */
  lemma FitsExtend(data: map<string, seq<real>>, ln: real -> real, logPrices: seq<seq<real>>,
                   fits: seq<seq<real>>, c: seq<real>)
    requires FitsSoFar(data, ln, logPrices, fits) && |fits| < 4
    requires ProductFitted(data, ln, logPrices, |fits|, c)
    ensures FitsSoFar(data, ln, logPrices, fits + [c])
  {
    forall q | 0 <= q < |fits| + 1 ensures ProductFitted(data, ln, logPrices, q, (fits + [c])[q]) {
      if q < |fits| {
        assert (fits + [c])[q] == fits[q];
      }
    }
  }

  /** The product loop's map after d products: exactly the first d product
      names, each fittable against n samples and holding fits[q], of five
      coefficients. */
  ghost predicate ModelsSoFar(data: map<string, seq<real>>, n: nat, models: map<string, seq<real>>,
                              fits: seq<seq<real>>, d: nat)
  {
    d <= 4 && |fits| == d && models.Keys == (set q | 0 <= q < d :: Products[q]) &&
    (forall q :: 0 <= q < d ==> Fittable(data, n, q)) &&
    (forall q :: 0 <= q < d ==> models[Products[q]] == fits[q] && |fits[q]| == 5)
  }

  /** models[product_name] = coefficients for product d. */
  method StoreModel(data: map<string, seq<real>>, n: nat, models: map<string, seq<real>>,
                    ghost fits: seq<seq<real>>, d: nat, coefficients: seq<real>)
    returns (next: map<string, seq<real>>)
    requires d < 4 && ModelsSoFar(data, n, models, fits, d)
    requires Fittable(data, n, d) && |coefficients| == 5
    ensures next == models[Products[d] := coefficients]
    ensures ModelsSoFar(data, n, next, fits + [coefficients], d + 1)
  {
    var productName := ProductOf(d);
    ProductsDistinct();
    next := models[productName := coefficients];
    assert next.Keys == set q | 0 <= q < d + 1 :: Products[q];
    forall q | 0 <= q < d ensures next[Products[q]] == models[Products[q]] {
      assert Products[q] != Products[d];
    }
  }

  /** One pass of the product loop: fit product d and store its coefficients
      under its name, or raise that fit's error. The stored coefficients are
      returned as c. */
  method AddProduct(data: map<string, seq<real>>, ln: real -> real, logPrices: seq<seq<real>>,
                    models: map<string, seq<real>>, ghost fits: seq<seq<real>>, d: nat)
    returns (r: Result<map<string, seq<real>>>, ghost c: seq<real>)
    requires d < 4 && forall t :: 0 <= t < |logPrices| ==> |logPrices[t]| == 4
    requires ModelsSoFar(data, |logPrices|, models, fits, d) && FitsSoFar(data, ln, logPrices, fits)
    ensures r.Success? <==> Fittable(data, |logPrices|, d)
    ensures r.Failure? ==> r.error == DemandError(data, d)
    ensures r.Success? ==> ModelsSoFar(data, |logPrices|, r.value, fits + [c], d + 1)
    ensures r.Success? ==> FitsSoFar(data, ln, logPrices, fits + [c])
  {
    var coefficients := FitProduct(data, ln, logPrices, d);
    if coefficients.Failure? {
      return Failure(coefficients.error), [];
    }
    c := coefficients.value;
    FitsExtend(data, ln, logPrices, fits, c);
    var next := StoreModel(data, |logPrices|, models, fits, d, coefficients.value);
    r := Success(next);
  }

  /** Every product has a demand column and a model, and the model is a fit
      of that column's log demands against the log-price matrix X. */
  ghost predicate ProductModelsFitted(data: map<string, seq<real>>, ln: real -> real, X: seq<seq<real>>,
                                      models: map<string, seq<real>>)
  {
    forall d {:trigger models[Products[d]]} :: 0 <= d < 4 ==>
      DemandColumns[d] in data && Products[d] in models &&
      FittedUnlessFloored(X, LogTargets(data[DemandColumns[d]], ln), models[Products[d]])
  }

  /** After all four products, each product's model is a fit of it. */
  lemma ModelsFitted(data: map<string, seq<real>>, ln: real -> real, logPrices: seq<seq<real>>,
                     models: map<string, seq<real>>, fits: seq<seq<real>>)
    requires ModelsSoFar(data, |logPrices|, models, fits, 4) && FitsSoFar(data, ln, logPrices, fits)
    ensures ProductModelsFitted(data, ln, logPrices, models)
  {
    forall d | 0 <= d < 4
      ensures DemandColumns[d] in data && Products[d] in models
      ensures FittedUnlessFloored(logPrices, LogTargets(data[DemandColumns[d]], ln), models[Products[d]])
    {
      assert ProductFitted(data, ln, logPrices, d, fits[d]);
    }
  }

  /** train_demand_model's product loop over a log-price matrix: products
      in the order Milk, Chocolate, Soup, Ramen, stopping at the first
      failing fit, whose error it raises. */
  method FitProducts(data: map<string, seq<real>>, ln: real -> real, logPrices: seq<seq<real>>)
    returns (r: Result<map<string, seq<real>>>)
    requires forall t :: 0 <= t < |logPrices| ==> |logPrices[t]| == 4
    ensures r.Success? <==> forall c :: 0 <= c < 4 ==> Fittable(data, |logPrices|, c)
    ensures forall d :: (0 <= d < 4 && !Fittable(data, |logPrices|, d) &&
      (forall q :: 0 <= q < d ==> Fittable(data, |logPrices|, q))) ==> r == Failure(DemandError(data, d))
    ensures r.Success? ==> r.value.Keys == {"Milk", "Chocolate", "Soup", "Ramen"}
    ensures r.Success? ==> forall d :: 0 <= d < 4 ==> |r.value[Products[d]]| == 5
    ensures r.Success? ==> ProductModelsFitted(data, ln, logPrices, r.value)
  {
    var models: map<string, seq<real>> := map[];
    ghost var fits: seq<seq<real>> := [];
    for d := 0 to 4
      invariant ModelsSoFar(data, |logPrices|, models, fits, d)
      invariant FitsSoFar(data, ln, logPrices, fits)
    {
      var step;
      ghost var c;
      step, c := AddProduct(data, ln, logPrices, models, fits, d);
      if step.Failure? {
        FirstUnfittable(data, |logPrices|, d);
        return Failure(step.error);
      }
      models, fits := step.value, fits + [c];
    }
    ProductSet();
    r := Success(models);
    ModelsFitted(data, ln, logPrices, r.value, fits);
  }

  /** train_demand_model. It succeeds exactly on usable data and then returns
      one model per product, keyed Milk, Chocolate, Soup and Ramen, each of
      five coefficients, each a fit of that product's log-log normal
      equations as FittedUnlessFloored describes.
      It fails with the error of the first read that goes wrong: Price_Milk,
      then the price cells row by row, then the products in order. */
  method TrainDemandModel(data: map<string, seq<real>>, ln: real -> real)
    returns (r: Result<map<string, seq<real>>>)
    ensures r.Success? <==> TrainingDataUsable(data)
    ensures r.Failure? ==>
      r.error == IndexError ||
      (r.error.KeyError? && r.error.key in PriceColumns + DemandColumns && r.error.key !in data)
    ensures PriceColumns[0] !in data ==> r == Failure(KeyError(PriceColumns[0]))
    ensures PriceColumns[0] in data ==>
      forall i, c :: (0 <= i < |data[PriceColumns[0]]| && 0 <= c < 4 &&
        !CellReadable(data, c, i) && ReadableBefore(data, i, c)) ==> r == Failure(CellError(data, c))
    ensures PriceColumns[0] in data && ReadableBefore(data, |data[PriceColumns[0]]|, 0) ==>
      forall d :: (0 <= d < 4 && !Fittable(data, |data[PriceColumns[0]]|, d) &&
        (forall q :: 0 <= q < d ==> Fittable(data, |data[PriceColumns[0]]|, q))) ==> r == Failure(DemandError(data, d))
    ensures r.Success? ==> r.value.Keys == {"Milk", "Chocolate", "Soup", "Ramen"}
    ensures r.Success? ==> forall d :: 0 <= d < 4 ==> |r.value[Products[d]]| == 5
    ensures r.Success? ==> ProductModelsFitted(data, ln, LogPriceMatrix(data, ln), r.value)
  {
    if PriceColumns[0] !in data {
      return Failure(KeyError(PriceColumns[0]));
    }
    var nSamples := |data[PriceColumns[0]]|;
    var prices := LogTransformPrices(data, ln, nSamples);
    if prices.Failure? {
      return Failure(prices.error);
    }
    assert nSamples > 0 ==> PricesUsable(data);
    r := FitProducts(data, ln, prices.value);
    if r.Success? {
      forall c | 0 <= c < 4 ensures DemandColumns[c] in data && |data[DemandColumns[c]]| <= nSamples {
        assert Fittable(data, nSamples, c);
      }
      assert Fittable(data, nSamples, 0);
      assert prices.value == LogPriceMatrix(data, ln);
    }
  }

  /** predict_demand. Any price count other than four is a ValueError; a
      model with fewer than five coefficients is an IndexError (the Python
      code indexes coefficients[0..4] and ignores any beyond); otherwise
      every model key gets round2(exp(c[0] + Σ c[i+1]·log(max(p_i, 0.01)))). */
  method PredictDemand(prices: seq<real>, models: map<string, seq<real>>,
                       ln: real -> real, exp: real -> real, round2: real -> real)
    returns (r: Result<map<string, real>>)
    ensures |prices| != 4 <==> r == Failure(ValueError(PriceCountMessage))
    ensures |prices| == 4 ==> (r.Success? <==> forall name :: name in models ==> |models[name]| >= 5)
    ensures |prices| == 4 && r.Failure? ==> r.error == IndexError
    ensures r.Success? ==> r.value.Keys == models.Keys
    ensures r.Success? ==> forall name :: name in models ==>
      r.value[name] == round2(exp(LinearPredictor(models[name], LogPrices(prices, ln), 4)))
  {
    if |prices| != 4 {
      return Failure(ValueError(PriceCountMessage));
    }
    var logPrices := LogPrices(prices, ln);
    var predictions: map<string, real> := map[];
    var pending := models.Keys;
    while pending != {}
      invariant pending <= models.Keys
      invariant predictions.Keys == models.Keys - pending
      invariant forall name :: name in predictions ==>
        |models[name]| >= 5 && predictions[name] == round2(exp(LinearPredictor(models[name], logPrices, 4)))
      decreases pending
    {
      var name :| name in pending;
      var coefficients := models[name];
      if |coefficients| == 0 {
        return Failure(IndexError);
      }
      var logDemand := coefficients[0];
      for i := 0 to 4
        invariant i < |coefficients|
        invariant logDemand == LinearPredictor(coefficients, logPrices, i)
      {
        if i + 1 >= |coefficients| {
          return Failure(IndexError);
        }
        logDemand := logDemand + coefficients[i + 1] * logPrices[i];
      }
      var demand := exp(logDemand);
      predictions := predictions[name := round2(demand)];
      pending := pending - {name};
    }
    return Success(predictions);
  }

  // ---------------------------------------------------------------------
  // Lemmas
  // ---------------------------------------------------------------------

  /** The predictor evaluates the same design row [1, lp_0, ..] that training used. */
  lemma {:induction false} PredictorIsDesignRowDot(c: seq<real>, lp: seq<real>, m: nat)
    requires m <= |lp| && m < |c|
    ensures LinearPredictor(c, lp, m) == PartialDot(DesignRow(lp), c, 0, m + 1)
  {
    var d := DesignRow(lp);
    if m == 0 {
      assert PartialDot(d, c, 0, 1) == d[0] * c[0];
    } else {
      PredictorIsDesignRowDot(c, lp, m - 1);
      assert d[m] == lp[m - 1];
    }
  }

  /** A prediction reads only the coefficients c[0..m]. */
  lemma {:induction false} PredictorCongruent(c1: seq<real>, c2: seq<real>, lp: seq<real>, m: nat)
    requires m <= |lp| && m < |c1| && m < |c2|
    requires forall i :: 0 <= i <= m ==> c1[i] == c2[i]
    ensures LinearPredictor(c1, lp, m) == LinearPredictor(c2, lp, m)
  {
    if m > 0 {
      PredictorCongruent(c1, c2, lp, m - 1);
    }
  }

  /** Coefficients beyond the first five play no part in a four-price prediction. */
  lemma ExtraCoefficientsIgnored(c: seq<real>, lp: seq<real>)
    requires |lp| == 4 && |c| >= 5
    ensures LinearPredictor(c, lp, 4) == LinearPredictor(c[..5], lp, 4)
  {
    PredictorCongruent(c, c[..5], lp, 4);
  }

  /** Round trip: when a product's log demand lies exactly on the fitted
      hyperplane, predicting at a training sample whose prices are all at
      least 0.01 gives back that sample's log demand. */
  lemma PredictionAtTrainingSample(data: map<string, seq<real>>, ln: real -> real, d: nat, beta: seq<real>, k: nat)
    requires TrainingDataUsable(data) && d < 4
    requires FitShapeOk(LogPriceMatrix(data, ln), LogTargets(data[DemandColumns[d]], ln))
    requires ExactlyFits(LogPriceMatrix(data, ln), LogTargets(data[DemandColumns[d]], ln), beta)
    requires k < |data[DemandColumns[d]]|
    requires forall c :: 0 <= c < 4 ==> data[PriceColumns[c]][k] >= PriceFloor
    ensures LinearPredictor(beta, LogPrices(seq(4, c requires 0 <= c < 4 => data[PriceColumns[c]][k]), ln), 4)
         == LogTargets(data[DemandColumns[d]], ln)[k]
  {
    var X := LogPriceMatrix(data, ln);
    var prices := seq(4, c requires 0 <= c < 4 => data[PriceColumns[c]][k]);
    var lp := LogPrices(prices, ln);
    assert lp == X[k];
    PredictorIsDesignRowDot(beta, lp, 4);
  }
}
