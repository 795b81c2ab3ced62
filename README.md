# svmPredict in Dafny

A model of `svmPredict.c`, the accuracy checker of a parallel SVM trainer. It loads a test set
and a trained RBF model, both stored in LIBSVM's sparse `label index:value ...` line format,
into zero-initialised row-major `double` buffers. It then classifies every test sample with the
decision function `sum_j alpha_j * exp(-gamma * |sv_j - x_i|^2) + b` and counts how many
predictions equal the true label.

The model has four modules:

- `Matrix` (`matrix.dfy`): row-major layout. `Row(s, i, dim)` is row i, and a few lemmas keep
  the `i * dim` offset arithmetic in one place.
- `SparseFormat` (`sparse.dfy`): the line format after strtok has split a line on `:` and
  sscanf has scanned each piece.
  - A line is a `SparseLine` holding the leading scalar, the first index and one `Token` per
    later piece. A token holds the value and the chained next index, or `None` when `%d` finds
    none.
  - The walk the C loop performs over a line is given by the functions `NextPre`, `Writes` and
    `FinalPre`. `Writes` is the sequence of stores and `FinalPre` is the `pre_index` left over.
  - Stores into a buffer are given by `Apply`; `Lookup` is the last store to an index.
  - `Encode` writes a record `label i1:v1 ... iK:vK` out as a line. `Sparsify` turns a dense
    row into a record.
- `Loader` (`loader.dfy`): `read_data` and `read_model` as imperative methods on `array<real>`.
  - `DecodeLine` is the `while (token != NULL)` loop.
  - `Load` specifies the buffer after a run of lines, with `pre_index` carried from one line
    into the next, as the C code does.
  - `LoadRecords` says what `Load` leaves in each row when the lines are well-formed.
- `Predictor` (`predictor.dfy`): `rbf_kernel` and `svmPredict` as methods, specified by the
  functions `SqDist`, `Kernel`, `DualSum`, `Decision`, `Predict` and `CountCorrect`.

Doubles are modelled as `real`. The exponential is a parameter `exp: real -> real` of every
kernel function and method. Every array access in the methods is proved in bounds by the
verifier, under each method's stated preconditions.

C quirks the model keeps and proves:

- A non-positive index stores nothing, and the index that follows it is the stale `pre_index`.
- A non-positive chained index silences the rest of the line.
- `pre_index` survives from one line to the next.
- A decision value of exactly 0 is predicted `+1`.
- The header line of the model file is read and discarded.

## Model

| member | source | states |
|---|---|---|
| Matrix.Row | svmPredict.c:56 | row i of a row-major buffer has dim elements, element m being buffer element i*dim+m |
| SparseFormat.WritesArePositive | svmPredict.c:112-113 | every store the walk makes has a positive index: an index <= 0 causes no write |
| SparseFormat.WalkWithin | svmPredict.c:107-117 | when the line supplies no index above dim, every store lands in columns 1..dim and the pre_index left for the next line is at most dim |
| SparseFormat.NonPositiveChainWritesNothing | svmPredict.c:112-114 | once the chained index is <= 0 the rest of the line stores nothing and pre_index stays put |
| SparseFormat.LeadingNonPositiveUsesStaleIndex | svmPredict.c:105-114 | a first index <= 0 drops the first value; the second value is stored at the pre_index left over from earlier |
| SparseFormat.WalkStep | svmPredict.c:109-116 | one pass of the loop body: the store made for the current token (or none) followed by the remaining stores gives the stores of the whole remaining walk, with pre_index rescanned only when the store happens |
| SparseFormat.ApplyAt | svmPredict.c:113 | after a run of stores an element holds the last value stored at it, or its old value |
| SparseFormat.ApplyOutsideRow | svmPredict.c:113 | stores confined to columns 1..dim of one row change nothing outside that row |
| SparseFormat.ChainAt | svmPredict.c:104-115 | in a written-out line, piece k holds value k and the index of pair k+1, and the last piece holds no index |
| SparseFormat.EncodeRoundTrip | svmPredict.c:104-117 | decoding the written-out line of a record with positive indices yields its scalar and exactly its pairs, in order, whatever pre_index was left over |
| SparseFormat.EncodedLineStores | svmPredict.c:104-117 | decoding a record's line into a row sets element base+i_k-1 to v_k and leaves every other element as it was |
| SparseFormat.SparsifyFromBounds | svmPredict.c:112-113 | the pairs of a dense row have indices in 1..dim, all greater than the start position and strictly increasing |
| SparseFormat.SparsifyFromLookup | svmPredict.c:112-113 | a dense row's pairs give index i value row[i-1] exactly when that element is non-zero |
| SparseFormat.SparseRoundTrip | svmPredict.c:104-117 | writing a row with a non-zero element out as a line and decoding it into a zeroed row reproduces the row, zeros included, and changes nothing else |
| Loader.DecodeLine | svmPredict.c:101-117 | the token loop stores into the row exactly the walk's stores (all in that row), returns the leading scalar and leaves pre_index as the walk ends it |
| Loader.LoadStep | svmPredict.c:99-118 | loading lines i..n-1 is line i's stores into row i followed by loading the rest with the carried pre_index |
| Loader.ReadData | svmPredict.c:84-120 | x becomes the load of the first size lines from pre_index 0, y[i] is line i's label for i < size, and the rest of y is unchanged |
| Loader.ReadModel | svmPredict.c:122-158 | the header is discarded; x becomes the load of the first total_sv support-vector lines and alphas[j] is line j's alpha, the rest of alphas unchanged |
| Loader.EncodedLinesAccepted | svmPredict.c:104-117 | the written-out lines of records with indices in 1..dim meet the decoder's preconditions |
| Loader.LoadOutside | svmPredict.c:99-118 | loading rows i..n-1 leaves every element outside those rows unchanged |
| Loader.LoadRecordAt | svmPredict.c:99-118 | after loading, element m of row r holds record r's value for index m+1, or its old value if the record has none |
| Loader.LoadRecords | svmPredict.c:99-118 | loading the first n lines, each writing out a record (later lines may be anything), from row 0: column m of row r is record r's value for index m+1 or the old value, and everything past the n rows is unchanged |
| Predictor.RbfKernel | svmPredict.c:49-61 | the result is the RBF kernel exp(-gamma * squared distance) of row i of x1 and row j of x2 |
| Predictor.SqDistNonNegative | svmPredict.c:54-57 | the squared distance is never negative (ker >= 0 before exp) |
| Predictor.SqDistSymmetric | svmPredict.c:54-57 | the squared distance does not depend on argument order |
| Predictor.SqDistEqualZero | svmPredict.c:54-57 | the squared distance of rows that agree is 0 |
| Predictor.SqDistMirror | svmPredict.c:54-57 | two rows mirrored coordinate by coordinate about t are at the same squared distance from t |
| Predictor.KernelSymmetric | svmPredict.c:49-61 | K(a, b) == K(b, a) |
| Predictor.KernelSelf | svmPredict.c:54-58 | a row is at squared distance 0 from itself, so K(a, a) == exp(0) |
| Predictor.Predict | svmPredict.c:74-76 | the prediction is +1 or -1; +1 exactly when the decision value is >= 0 (a tie at 0 goes to +1) and -1 exactly when it is < 0 |
| Predictor.DecisionValue | svmPredict.c:69-73 | the decision value of sample i is the sum over all support vectors of alpha times kernel, plus b |
| Predictor.SvmPredict | svmPredict.c:63-82 | 0 <= num <= size, and num is the number of the first size samples whose prediction equals their label |
| Predictor.DualSumFrame | svmPredict.c:70-72 | the decision sum depends only on alphas[0..total_sv) and the first total_sv rows of support vectors |
| Predictor.CountCorrectFrame | svmPredict.c:63-82 | the count depends only on alphas[0..total_sv), the first total_sv rows of x2, the first size rows of x1 and y1[0..size): inputs that agree there give the same count |
| Predictor.NoSupportVectors | svmPredict.c:68-79 | with total_sv = 0 the count is the number of labels equal to the sign of b (b = 0 counting as +1) |
| Predictor.SupportVectorAtSample | svmPredict.c:69-73 | one support vector equal to the sample gives decision value alpha*exp(0) + b |
| Predictor.MirroredKernels | svmPredict.c:54-58 | two support vectors mirrored about the sample have equal kernels with it |
| Predictor.CancellingPair | svmPredict.c:69-76 | a mirrored pair with opposite alphas cancels: the decision value is b and the prediction is the sign of b |
| Predictor.OriginScenario | svmPredict.c:63-82 | one support vector at the origin with alpha 1 and b 0: a sample at the origin counts when labelled +1 and not when labelled -1 |

## Left out

- File handling is not modelled: `fopen`, the `can't open` message, `exit(-1)`, `fclose` and `fgets`. A file is given as its sequence of lines, already split on `:` and scanned. Reading past the end of a file is not modelled.
- Number parsing by `sscanf`, the internal state of `strtok`, and the `STR_SIZE` line limit are not modelled. A line starts as its scanned form; a last piece with no `%d` is a token whose next index is `None`.
- Floating point is not modelled: doubles are real numbers and additions are exact. The exponential is an abstract parameter `exp`, so no claim `0 < K <= 1` is made.
- A line with no `index:value` pair is not modelled. On such a line the `%d` for the first index fails, so `index` keeps the value left by the previous line (0 on a file's first line, svmPredict.c:90 and 129). When that value is positive, the C code passes the NULL token to `sscanf` (svmPredict.c:113 and 151), which is undefined behaviour. Otherwise, for example on a file's first line, the line only sets the label or alpha and stores nothing. `DecodeLine`, `ReadData` and `ReadModel` exclude both cases by requiring at least one pair per line.
- An index above dim is not modelled; it writes outside the row, or outside the buffer. `ReadData` and `ReadModel` require every index a line supplies to be at most dim.
- Counts are unbounded naturals: negative `size`, `dim` or `total_sv` from `atoi`, and `int` overflow of `i * dim` and `num`, are not modelled.
- `main` is not modelled: argument handling, the header `fscanf`, `malloc`, `memset`, timing and the accuracy printout. The zero initialisation `memset` provides is a precondition of `SparseRoundTrip`; the other loader lemmas hold for any prior contents.
- y1's allocation in `main` (`size * sizeof(double)` bytes for ints) is not modelled, because it only over-allocates.
- Predictor.KernelSelf: states only that identical rows are at distance 0. The converse, that distance 0 implies identical rows, is not proved.
- Predictor.SqDistEqualZero: states only the direction "rows that agree are at distance 0".
- Loader.DecodeLine: takes the row's start offset `i * dim` rather than the row number `i`. The callers pass `i * dim`, as the C expression `x[i * dim + index - 1]` computes it.
