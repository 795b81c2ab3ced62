/**
 * rbf_kernel and svmPredict: the Gaussian kernel between a test sample and a support vector,
 * the decision value sum_j alpha_j * K(x_i, sv_j) + b of every test sample, its sign as the
 * predicted label, and the count of predictions that equal the true label.
 *
 * Doubles are modelled as reals and exp is a parameter of the model: nothing is assumed
 * about it beyond being a function.
 */
module Predictor {
  import opened Matrix

  /** Squared Euclidean distance of the first n coordinates of a and b, summed in index
      order as rbf_kernel accumulates it. */
  function SqDistTo(a: seq<real>, b: seq<real>, n: nat): real
    requires n <= |a| && n <= |b|
  {
    if n == 0 then 0.0
    else SqDistTo(a, b, n - 1) + (a[n - 1] - b[n - 1]) * (a[n - 1] - b[n - 1])
  }

  /** |a - b|^2 */
  function SqDist(a: seq<real>, b: seq<real>): real
    requires |a| == |b|
  {
    SqDistTo(a, b, |a|)
  }

  /** exp(-gamma * d): the last step of rbf_kernel, applied to the squared distance d. */
  function Rbf(exp: real -> real, gamma: real, d: real): real {
    exp(-1.0 * gamma * d)
  }

  /** The Gaussian kernel exp(-gamma * |a - b|^2) for a given exp. */
  function Kernel(exp: real -> real, gamma: real, a: seq<real>, b: seq<real>): real
    requires |a| == |b|
  {
    Rbf(exp, gamma, SqDist(a, b))
  }

  /** rbf_kernel: K(row i of x1, row j of x2). It reads only those two rows. */
  method RbfKernel(x1: array<real>, x2: array<real>, i: nat, j: nat, dim: nat, gamma: real, exp: real -> real)
    returns (ker: real)
    requires i * dim + dim <= x1.Length && j * dim + dim <= x2.Length
    ensures ker == Kernel(exp, gamma, Row(x1[..], i, dim), Row(x2[..], j, dim))
  {
    ghost var a, b := Row(x1[..], i, dim), Row(x2[..], j, dim);
    var p, q := i * dim, j * dim;
    ker := 0.0;
    var m := 0;
    while m < dim
      invariant 0 <= m <= dim
      invariant ker == SqDistTo(a, b, m)
    {
      assert a[m] == x1[p + m] && b[m] == x2[q + m];
      ker := ker + (x1[p + m] - x2[q + m]) * (x1[p + m] - x2[q + m]);
      m := m + 1;
    }
    ker := Rbf(exp, gamma, ker);
  }

  /** The squared distance is never negative. */
  lemma {:induction false} SqDistNonNegative(a: seq<real>, b: seq<real>, n: nat)
    requires n <= |a| && n <= |b|
    ensures SqDistTo(a, b, n) >= 0.0
  {
    if n > 0 {
      SqDistNonNegative(a, b, n - 1);
    }
  }

  /** The squared distance does not depend on the order of its arguments. */
  lemma {:induction false} SqDistSymmetric(a: seq<real>, b: seq<real>, n: nat)
    requires n <= |a| && n <= |b|
    ensures SqDistTo(a, b, n) == SqDistTo(b, a, n)
  {
    if n > 0 {
      SqDistSymmetric(a, b, n - 1);
    }
  }

  /** Coordinates that agree contribute nothing: the squared distance of equal prefixes is 0. */
  lemma {:induction false} SqDistEqualZero(a: seq<real>, b: seq<real>, n: nat)
    requires n <= |a| && n <= |b|
    requires forall k :: 0 <= k < n ==> a[k] == b[k]
    ensures SqDistTo(a, b, n) == 0.0
  {
    if n > 0 {
      SqDistEqualZero(a, b, n - 1);
      assert a[n - 1] == b[n - 1];
    }
  }

  /** Two rows at the same distance coordinate by coordinate from t in opposite directions
      are at the same squared distance from t. */
  lemma {:induction false} SqDistMirror(t: seq<real>, a: seq<real>, c: seq<real>, n: nat)
    requires n <= |t| && n <= |a| && n <= |c|
    requires forall k :: 0 <= k < n ==> a[k] - t[k] == t[k] - c[k]
    ensures SqDistTo(t, a, n) == SqDistTo(t, c, n)
  {
    if n > 0 {
      SqDistMirror(t, a, c, n - 1);
    }
  }

  /** K(a, b) == K(b, a). */
  lemma {:induction false} KernelSymmetric(exp: real -> real, gamma: real, a: seq<real>, b: seq<real>)
    requires |a| == |b|
    ensures Kernel(exp, gamma, a, b) == Kernel(exp, gamma, b, a)
  {
    SqDistSymmetric(a, b, |a|);
  }

  /** A row is at distance zero from itself, so K(a, a) == exp(0); with the real exp that
      is K(a, a) == 1. */
  lemma {:induction false} KernelSelf(exp: real -> real, gamma: real, a: seq<real>)
    ensures SqDist(a, a) == 0.0
    ensures Kernel(exp, gamma, a, a) == exp(0.0)
  {
    SqDistEqualZero(a, a, |a|);
  }

  // ---------------------------------------------------------------------------
  // The decision function and the count of correct predictions
  // ---------------------------------------------------------------------------

  /** What the model file provides: total_sv support vectors of width dim stored row-major,
      their alphas, gamma and the bias b. */
  datatype Model = Model(sv: seq<real>, alphas: seq<real>, totalSv: nat, gamma: real, b: real)

  predicate WellSized(m: Model, dim: nat) {
    m.totalSv * dim <= |m.sv| && m.totalSv <= |m.alphas|
  }

  /** sum_{j < n} alpha_j * K(xi, sv_j), added in increasing j as svmPredict adds it. */
  function DualSum(exp: real -> real, m: Model, xi: seq<real>, dim: nat, n: nat): real
    requires WellSized(m, dim) && |xi| == dim && n <= m.totalSv
  {
    if n == 0 then 0.0
    else
      DualSum(exp, m, xi, dim, n - 1) + Weighted(exp, m, xi, dim, n - 1)
  }

  /** alpha_j * K(xi, sv_j): the contribution of support vector j. */
  function Weighted(exp: real -> real, m: Model, xi: seq<real>, dim: nat, j: nat): real
    requires WellSized(m, dim) && |xi| == dim && j < m.totalSv
  {
    RowEnd(j, m.totalSv, dim);
    m.alphas[j] * Kernel(exp, m.gamma, xi, Row(m.sv, j, dim))
  }

  /** One more support vector adds its weighted kernel. */
  lemma {:induction false} DualSumStep(exp: real -> real, m: Model, xi: seq<real>, dim: nat, n: nat)
    requires WellSized(m, dim) && |xi| == dim && n < m.totalSv
    ensures DualSum(exp, m, xi, dim, n + 1) == DualSum(exp, m, xi, dim, n) + Weighted(exp, m, xi, dim, n)
  {
  }

  /** Weighted is the alpha of support vector j times its kernel with xi. */
  lemma {:induction false} WeightedIs(exp: real -> real, m: Model, xi: seq<real>, dim: nat, j: nat, alpha: real, k: real)
    requires WellSized(m, dim) && |xi| == dim && j < m.totalSv
    requires j * dim + dim <= |m.sv|
    requires alpha == m.alphas[j] && k == Kernel(exp, m.gamma, xi, Row(m.sv, j, dim))
    ensures Weighted(exp, m, xi, dim, j) == alpha * k
  {
  }

  /** The running sum of svmPredict's inner loop after support vector j is added. */
  lemma {:induction false} DualSumNext(exp: real -> real, m: Model, xi: seq<real>, dim: nat, j: nat,
                                       dual: real, alpha: real, k: real, w: real)
    requires WellSized(m, dim) && |xi| == dim && j < m.totalSv
    requires j * dim + dim <= |m.sv|
    requires dual == DualSum(exp, m, xi, dim, j)
    requires alpha == m.alphas[j] && k == Kernel(exp, m.gamma, xi, Row(m.sv, j, dim)) && w == alpha * k
    ensures dual + w == DualSum(exp, m, xi, dim, j + 1)
  {
    DualSumStep(exp, m, xi, dim, j);
    WeightedIs(exp, m, xi, dim, j, alpha, k);
  }

  /** The decision value of sample xi: every support vector's weighted kernel, plus b. */
  function Decision(exp: real -> real, m: Model, xi: seq<real>, dim: nat): real
    requires WellSized(m, dim) && |xi| == dim
  {
    DualSum(exp, m, xi, dim, m.totalSv) + m.b
  }

  /** The predicted label: -1 when the decision value is negative, +1 otherwise (a decision
      value of exactly 0 is classified +1). */
  function Predict(dual: real): (predicted: int)
    ensures predicted == 1 || predicted == -1
    ensures predicted == 1 <==> dual >= 0.0
    ensures predicted == -1 <==> dual < 0.0
  {
    if dual < 0.0 then -1 else 1
  }

  /** How many of the first n samples (rows of x1) are predicted with their label in y1. */
  function CountCorrect(exp: real -> real, m: Model, x1: seq<real>, y1: seq<int>, dim: nat, n: nat): nat
    requires WellSized(m, dim) && n * dim <= |x1| && n <= |y1|
  {
    if n == 0 then 0
    else
      RowEnd(n - 1, n, dim);
      CountCorrect(exp, m, x1, y1, dim, n - 1)
        + (if Predict(Decision(exp, m, Row(x1, n - 1, dim), dim)) == y1[n - 1] then 1 else 0)
  }

  /** How many of the first n labels equal l. */
  function CountLabel(y: seq<int>, l: int, n: nat): nat
    requires n <= |y|
  {
    if n == 0 then 0
    else CountLabel(y, l, n - 1) + (if y[n - 1] == l then 1 else 0)
  }

  /** One more sample adds one when its prediction matches its label. */
  lemma {:induction false} CountCorrectStep(exp: real -> real, m: Model, x1: seq<real>, y1: seq<int>, dim: nat, n: nat)
    requires WellSized(m, dim) && (n + 1) * dim <= |x1| && n < |y1|
    ensures n * dim + dim <= |x1|
    ensures CountCorrect(exp, m, x1, y1, dim, n + 1)
         == CountCorrect(exp, m, x1, y1, dim, n)
            + (if Predict(Decision(exp, m, Row(x1, n, dim), dim)) == y1[n] then 1 else 0)
  {
    RowEnd(n, n + 1, dim);
  }

  /** The inner loop of svmPredict: the decision value of test sample i, the kernels against
      the total_sv support vectors weighted by their alphas and added in order, plus b. */
  method DecisionValue(x1: array<real>, x2: array<real>, alphas: array<real>, i: nat,
                       totalSv: nat, dim: nat, gamma: real, b: real, exp: real -> real)
    returns (dual: real)
    requires i * dim + dim <= x1.Length
    requires totalSv * dim <= x2.Length && totalSv <= alphas.Length
    ensures dual == Decision(exp, Model(x2[..], alphas[..], totalSv, gamma, b), Row(x1[..], i, dim), dim)
  {
    ghost var model := Model(x2[..], alphas[..], totalSv, gamma, b);
    ghost var xi := Row(x1[..], i, dim);
    dual := 0.0;
    var j := 0;
    while j < totalSv
      invariant 0 <= j <= totalSv
      invariant WellSized(model, dim) && |xi| == dim
      invariant dual == DualSum(exp, model, xi, dim, j)
    {
      RowEnd(j, totalSv, dim);
      var k := RbfKernel(x1, x2, i, j, dim, gamma, exp);
      var w := alphas[j] * k;
      DualSumNext(exp, model, xi, dim, j, dual, alphas[j], k, w);
      dual := dual + w;
      j := j + 1;
    }
    dual := dual + b;
  }

  /** svmPredict: the number of the `size` test samples whose predicted label equals their
      true label. By CountCorrectFrame the count depends only on alphas[0..total_sv),
      y1[0..size) and the rows of x1 and x2 it reads through RbfKernel. */
  method SvmPredict(x1: array<real>, x2: array<real>, y1: array<int>, alphas: array<real>,
                    size: nat, totalSv: nat, dim: nat, gamma: real, b: real, exp: real -> real)
    returns (num: int)
    requires size * dim <= x1.Length && size <= y1.Length
    requires totalSv * dim <= x2.Length && totalSv <= alphas.Length
    ensures 0 <= num <= size
    ensures num == CountCorrect(exp, Model(x2[..], alphas[..], totalSv, gamma, b), x1[..], y1[..], dim, size)
  {
    ghost var model := Model(x2[..], alphas[..], totalSv, gamma, b);
    num := 0;
    var i := 0;
    while i < size
      invariant 0 <= i <= size
      invariant 0 <= num <= i
      invariant num == CountCorrect(exp, model, x1[..], y1[..], dim, i)
    {
      MulMonotone(i + 1, size, dim);
      CountCorrectStep(exp, model, x1[..], y1[..], dim, i);
      var dual := DecisionValue(x1, x2, alphas, i, totalSv, dim, gamma, b, exp);
      var result := 1;
      if dual < 0.0 {
        result := -1;
      }
      assert result == Predict(Decision(exp, model, Row(x1[..], i, dim), dim));
      if result == y1[i] {
        num := num + 1;
      }
      i := i + 1;
    }
  }

  /** Support vector j contributes the same to two models that agree on the first total_sv
      alphas and rows of support vectors. */
  lemma {:induction false} WeightedFrame(exp: real -> real, m: Model, m': Model, xi: seq<real>, dim: nat, j: nat)
    requires WellSized(m, dim) && WellSized(m', dim) && |xi| == dim
    requires m.totalSv == m'.totalSv && m.gamma == m'.gamma && j < m.totalSv
    requires m.sv[..m.totalSv * dim] == m'.sv[..m.totalSv * dim]
    requires m.alphas[..m.totalSv] == m'.alphas[..m.totalSv]
    ensures Weighted(exp, m, xi, dim, j) == Weighted(exp, m', xi, dim, j)
  {
    RowsAgree(m.sv, m'.sv, m.totalSv, j, dim);
    assert m.alphas[j] == m.alphas[..m.totalSv][j] && m'.alphas[j] == m'.alphas[..m.totalSv][j];
    var k := Kernel(exp, m.gamma, xi, Row(m.sv, j, dim));
    WeightedIs(exp, m, xi, dim, j, m.alphas[j], k);
    WeightedIs(exp, m', xi, dim, j, m.alphas[j], k);
  }

  /** The dual sum reads only the first total_sv alphas and rows of support vectors: two models
      that agree there give every sample the same sum. */
  lemma {:induction false} DualSumFrame(exp: real -> real, m: Model, m': Model, xi: seq<real>, dim: nat, n: nat)
    requires WellSized(m, dim) && WellSized(m', dim) && |xi| == dim
    requires m.totalSv == m'.totalSv && m.gamma == m'.gamma && n <= m.totalSv
    requires m.sv[..m.totalSv * dim] == m'.sv[..m.totalSv * dim]
    requires m.alphas[..m.totalSv] == m'.alphas[..m.totalSv]
    ensures DualSum(exp, m, xi, dim, n) == DualSum(exp, m', xi, dim, n)
    decreases n
  {
    if n > 0 {
      var j := n - 1;
      DualSumFrame(exp, m, m', xi, dim, j);
      WeightedFrame(exp, m, m', xi, dim, j);
      DualSumStep(exp, m, xi, dim, j);
      DualSumStep(exp, m', xi, dim, j);
    }
  }

  /** svmPredict reads only alphas[0..total_sv), the first total_sv rows of x2, the first size
      rows of x1 and y1[0..size): inputs that agree there give the same count. */
  lemma {:induction false} CountCorrectFrame(exp: real -> real, m: Model, m': Model, x1: seq<real>, x1': seq<real>,
                                             y1: seq<int>, y1': seq<int>, dim: nat, n: nat)
    requires WellSized(m, dim) && WellSized(m', dim)
    requires m.totalSv == m'.totalSv && m.gamma == m'.gamma && m.b == m'.b
    requires m.sv[..m.totalSv * dim] == m'.sv[..m.totalSv * dim]
    requires m.alphas[..m.totalSv] == m'.alphas[..m.totalSv]
    requires n * dim <= |x1| && n * dim <= |x1'| && n <= |y1| && n <= |y1'|
    requires x1[..n * dim] == x1'[..n * dim] && y1[..n] == y1'[..n]
    ensures CountCorrect(exp, m, x1, y1, dim, n) == CountCorrect(exp, m', x1', y1', dim, n)
    decreases n
  {
    if n > 0 {
      var i := n - 1;
      RowEnd(i, n, dim);
      assert x1[..i * dim] == x1[..n * dim][..i * dim] && x1'[..i * dim] == x1'[..n * dim][..i * dim];
      assert y1[..i] == y1[..n][..i] && y1'[..i] == y1'[..n][..i];
      CountCorrectFrame(exp, m, m', x1, x1', y1, y1', dim, i);
      RowsAgree(x1, x1', n, i, dim);
      var xi := Row(x1, i, dim);
      assert y1[i] == y1[..n][i] && y1'[i] == y1'[..n][i];
      DualSumFrame(exp, m, m', xi, dim, m.totalSv);
      assert Row(x1', i, dim) == xi;
    }
  }

  /** With no support vectors every decision value is b, so the count is the number of
      samples labelled with the sign of b (b == 0 counting as +1). */
  lemma {:induction false} NoSupportVectors(exp: real -> real, m: Model, x1: seq<real>, y1: seq<int>, dim: nat, n: nat)
    requires WellSized(m, dim) && n * dim <= |x1| && n <= |y1|
    requires m.totalSv == 0
    ensures CountCorrect(exp, m, x1, y1, dim, n) == CountLabel(y1, if m.b < 0.0 then -1 else 1, n)
  {
    if n > 0 {
      RowEnd(n - 1, n, dim);
      NoSupportVectors(exp, m, x1, y1, dim, n - 1);
    }
  }

  /** One support vector placed at the sample itself contributes alpha * exp(0). */
  lemma {:induction false} SupportVectorAtSample(exp: real -> real, m: Model, xi: seq<real>, dim: nat)
    requires WellSized(m, dim) && |xi| == dim && m.totalSv == 1
    requires m.sv[..dim] == xi
    ensures Decision(exp, m, xi, dim) == m.alphas[0] * exp(0.0) + m.b
  {
    RowEnd(0, 1, dim);
    assert Row(m.sv, 0, dim) == xi;
    KernelSelf(exp, m.gamma, xi);
    WeightedIs(exp, m, xi, dim, 0, m.alphas[0], exp(0.0));
    assert DualSum(exp, m, xi, dim, 1) == 0.0 + Weighted(exp, m, xi, dim, 0);
  }

  /** Two support vectors mirrored about the sample, with alphas of equal size and opposite
      sign, cancel: the decision value is exactly b, and the prediction is the sign of b. */
  lemma {:induction false} CancellingPair(exp: real -> real, m: Model, xi: seq<real>, dim: nat)
    requires WellSized(m, dim) && |xi| == dim && m.totalSv == 2
    requires m.alphas[1] == -m.alphas[0]
    requires forall k :: 0 <= k < dim ==> m.sv[k] - xi[k] == xi[k] - m.sv[dim + k]
    ensures Decision(exp, m, xi, dim) == m.b
    ensures Predict(Decision(exp, m, xi, dim)) == if m.b < 0.0 then -1 else 1
  {
    RowEnd(1, 2, dim);
    MirroredKernels(exp, m.gamma, xi, m.sv, dim);
    PairCancels(exp, m, xi, dim);
    DualSumStep(exp, m, xi, dim, 0);
    DualSumStep(exp, m, xi, dim, 1);
  }

  /** Two rows mirrored about xi have the same kernel with xi. */
  lemma {:induction false} MirroredKernels(exp: real -> real, gamma: real, xi: seq<real>, sv: seq<real>, dim: nat)
    requires |xi| == dim && dim + dim <= |sv|
    requires forall k :: 0 <= k < dim ==> sv[k] - xi[k] == xi[k] - sv[dim + k]
    ensures Kernel(exp, gamma, xi, Row(sv, 0, dim)) == Kernel(exp, gamma, xi, Row(sv, 1, dim))
  {
    assert 0 * dim == 0 && 1 * dim == dim;
    var a, c := Row(sv, 0, dim), Row(sv, 1, dim);
    assert forall k :: 0 <= k < dim ==> a[k] == sv[k] && c[k] == sv[dim + k];
    SqDistMirror(xi, a, c, dim);
  }

  /** The two weighted kernels of a pair with opposite alphas and equal kernels cancel. */
  lemma {:induction false} PairCancels(exp: real -> real, m: Model, xi: seq<real>, dim: nat)
    requires WellSized(m, dim) && |xi| == dim && m.totalSv == 2
    requires dim + dim <= |m.sv|
    requires m.alphas[1] == -m.alphas[0]
    requires Kernel(exp, m.gamma, xi, Row(m.sv, 0, dim)) == Kernel(exp, m.gamma, xi, Row(m.sv, 1, dim))
    ensures Weighted(exp, m, xi, dim, 0) + Weighted(exp, m, xi, dim, 1) == 0.0
  {
    var k0, k1 := Kernel(exp, m.gamma, xi, Row(m.sv, 0, dim)), Kernel(exp, m.gamma, xi, Row(m.sv, 1, dim));
    WeightedIs(exp, m, xi, dim, 0, m.alphas[0], k0);
    WeightedIs(exp, m, xi, dim, 1, m.alphas[1], k1);
    Cancel(m.alphas[0], m.alphas[1], k0, k1);
  }

  /** Opposite weights on equal kernels sum to zero. */
  lemma {:induction false} Cancel(alpha: real, alpha': real, k: real, k': real)
    requires alpha' == -alpha && k == k'
    ensures alpha * k + alpha' * k' == 0.0
  {
  }

  /** dim = 2, one support vector at (0, 0) with alpha 1, gamma 1, b 0, and a test sample at
      (0, 0): the decision value is exp(0) = 1, so the sample is predicted +1, counted correct
      when labelled +1 and not counted when labelled -1. */
  lemma {:induction false} OriginScenario(exp: real -> real)
    requires exp(0.0) == 1.0
    ensures CountCorrect(exp, Model([0.0, 0.0], [1.0], 1, 1.0, 0.0), [0.0, 0.0], [1], 2, 1) == 1
    ensures CountCorrect(exp, Model([0.0, 0.0], [1.0], 1, 1.0, 0.0), [0.0, 0.0], [-1], 2, 1) == 0
  {
    var m := Model([0.0, 0.0], [1.0], 1, 1.0, 0.0);
    var xi := [0.0, 0.0];
    RowEnd(0, 1, 2);
    assert Row([0.0, 0.0], 0, 2) == xi;
    SupportVectorAtSample(exp, m, xi, 2);
    assert Decision(exp, m, xi, 2) == 1.0;
  }
}
