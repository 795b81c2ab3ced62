/**
 * read_data and read_model: one sparse line per row, each decoded by the token walk into a
 * caller-supplied, zero-initialised, row-major buffer of width dim. Files and line reading
 * are not modelled: a file is given as its lines, already split on ':' and scanned.
 */
module Loader {
  import opened SparseFormat
  import opened Matrix

  /** The first n lines exist and hand the walk no index above dim. */
  predicate Loadable<S>(lines: seq<SparseLine<S>>, n: nat, dim: int) {
    n <= |lines| && forall k :: 0 <= k < n ==> IndicesAtMost(lines[k], dim)
  }

  /** The buffer after loading lines i .. n - 1 into rows i .. n - 1, pre_index starting at
      `pre` and carried from one line into the next, as read_data and read_model carry it. */
  function Load<S>(x: seq<real>, dim: nat, lines: seq<SparseLine<S>>, i: nat, n: nat, pre: int): (y: seq<real>)
    requires i <= n && Loadable(lines, n, dim) && pre <= dim && n * dim <= |x|
    ensures |y| == |x|
    decreases n - i
  {
    if i == n then x
    else
      var l := lines[i];
      WalkWithin(l.firstIndex, pre, l.tokens, dim);
      RowEnd(i, n, dim);
      InRowFits(|x|, i * dim, dim, Writes(l.firstIndex, pre, l.tokens));
      Load(Apply(x, i * dim, Writes(l.firstIndex, pre, l.tokens)), dim, lines, i + 1, n,
           FinalPre(l.firstIndex, pre, l.tokens))
  }

  /** One line of Load: line i's stores into row i, then the rest from row i + 1. */
  lemma {:induction false} LoadStep<S>(x: seq<real>, dim: nat, lines: seq<SparseLine<S>>, i: nat, n: nat, pre: int)
    requires i < n && Loadable(lines, n, dim) && pre <= dim && n * dim <= |x|
    ensures i * dim + dim <= |x|
    ensures InRow(Writes(lines[i].firstIndex, pre, lines[i].tokens), dim)
    ensures Fits(|x|, i * dim, Writes(lines[i].firstIndex, pre, lines[i].tokens))
    ensures FinalPre(lines[i].firstIndex, pre, lines[i].tokens) <= dim
    ensures Load(x, dim, lines, i, n, pre)
      == Load(Apply(x, i * dim, Writes(lines[i].firstIndex, pre, lines[i].tokens)), dim, lines, i + 1, n,
              FinalPre(lines[i].firstIndex, pre, lines[i].tokens))
  {
    var l := lines[i];
    WalkWithin(l.firstIndex, pre, l.tokens, dim);
    RowEnd(i, n, dim);
    InRowFits(|x|, i * dim, dim, Writes(l.firstIndex, pre, l.tokens));
  }

  /** The walk over one line (the `while (token != NULL)` loop of read_data and read_model):
      it stores into the row of x starting at `base` exactly the stores Writes gives, returns the leading
      scalar, and hands back pre_index for the next line. */
  method DecodeLine<S>(x: array<real>, base: nat, dim: nat, line: SparseLine<S>, pre: int)
    returns (scalar: S, pre': int)
    requires |line.tokens| >= 1
    requires IndicesAtMost(line, dim) && pre <= dim
    requires base + dim <= x.Length
    modifies x
    ensures InRow(Writes(line.firstIndex, pre, line.tokens), dim)
    ensures Fits(x.Length, base, Writes(line.firstIndex, pre, line.tokens))
    ensures x[..] == Apply(old(x[..]), base, Writes(line.firstIndex, pre, line.tokens))
    ensures scalar == line.scalar
    ensures pre' == FinalPre(line.firstIndex, pre, line.tokens) && pre' <= dim
  {
    var ts := line.tokens;
    WalkWithin(line.firstIndex, pre, ts, dim);
    InRowFits(x.Length, base, dim, Writes(line.firstIndex, pre, ts));
    // the first piece: the scalar and the first index
    scalar := line.scalar;
    var index := line.firstIndex;
    pre' := pre;
    var t := 0;  // the piece `token` points at; piece k >= 1 is ts[k - 1], piece |ts| + 1 is NULL
    var cnt := 0;
    while t <= |ts|
      invariant 0 <= cnt <= |ts|
      invariant cnt == 0 ==> t == 0 && index == line.firstIndex && pre' == pre && x[..] == old(x[..])
      invariant cnt > 0 ==> t == cnt + 1 && index == pre'
      invariant InRow(Writes(index, pre', ts[cnt..]), dim)
      invariant Fits(x.Length, base, Writes(index, pre', ts[cnt..]))
      invariant Apply(x[..], base, Writes(index, pre', ts[cnt..]))
                == Apply(old(x[..]), base, Writes(line.firstIndex, pre, ts))
      invariant FinalPre(index, pre', ts[cnt..]) == FinalPre(line.firstIndex, pre, ts)
      decreases |ts| + 1 - t
    {
      if cnt == 0 {
        t := t + 1;
      }
      var tok := ts[t - 1];
      WalkStep(x[..], base, dim, index, pre', ts[cnt..]);
      assert ts[cnt..][0] == tok && ts[cnt..][1..] == ts[cnt + 1..];
      if index > 0 {
        x[base + index - 1] := tok.value;
        if tok.next.Some? {
          pre' := tok.next.value;
        }
      }
      index := pre';
      t := t + 1;
      cnt := cnt + 1;
    }
  }

  /** read_data: decodes the first `size` lines of the evaluation file into the rows of x and
      their labels into y, carrying index chaining state from each line into the next. */
  method ReadData(lines: seq<SparseLine<int>>, x: array<real>, y: array<int>, size: nat, dim: nat)
    requires Loadable(lines, size, dim)
    requires forall i :: 0 <= i < size ==> |lines[i].tokens| >= 1
    requires size * dim <= x.Length && size <= y.Length
    modifies x, y
    ensures x[..] == Load(old(x[..]), dim, lines, 0, size, 0)
    ensures forall i :: 0 <= i < size ==> y[i] == lines[i].scalar
    ensures forall i :: size <= i < y.Length ==> y[i] == old(y[i])
  {
    var pre := 0;
    var i := 0;
    while i < size
      invariant 0 <= i <= size && pre <= dim
      invariant Load(x[..], dim, lines, i, size, pre) == Load(old(x[..]), dim, lines, 0, size, 0)
      invariant forall k :: 0 <= k < i ==> y[k] == lines[k].scalar
      invariant forall k :: i <= k < y.Length ==> y[k] == old(y[k])
    {
      LoadStep(x[..], dim, lines, i, size, pre);
      var yi: int;
      RowStart(i, dim);
      yi, pre := DecodeLine(x, i * dim, dim, lines[i], pre);
      y[i] := yi;
      i := i + 1;
    }
  }

  /** read_model: the header line is consumed and discarded; the first total_sv support-vector
      lines are decoded into the rows of x and their alphas into `alphas`. */
  method ReadModel(file: ModelFile, x: array<real>, alphas: array<real>, dim: nat, totalSv: nat)
    requires Loadable(file.records, totalSv, dim)
    requires forall j :: 0 <= j < totalSv ==> |file.records[j].tokens| >= 1
    requires totalSv * dim <= x.Length && totalSv <= alphas.Length
    requires x != alphas
    modifies x, alphas
    ensures x[..] == Load(old(x[..]), dim, file.records, 0, totalSv, 0)
    ensures forall j :: 0 <= j < totalSv ==> alphas[j] == file.records[j].scalar
    ensures forall j :: totalSv <= j < alphas.Length ==> alphas[j] == old(alphas[j])
  {
    var lines := file.records;
    var pre := 0;
    var i := 0;
    while i < totalSv
      invariant 0 <= i <= totalSv && pre <= dim
      invariant Load(x[..], dim, lines, i, totalSv, pre) == Load(old(x[..]), dim, lines, 0, totalSv, 0)
      invariant forall k :: 0 <= k < i ==> alphas[k] == lines[k].scalar
      invariant forall k :: i <= k < alphas.Length ==> alphas[k] == old(alphas[k])
    {
      LoadStep(x[..], dim, lines, i, totalSv, pre);
      var alpha: real;
      RowStart(i, dim);
      alpha, pre := DecodeLine(x, i * dim, dim, lines[i], pre);
      alphas[i] := alpha;
      i := i + 1;
    }
  }

  /** The line writes out the record, whose indices are distinct and in 1..dim. */
  ghost predicate EncodesRecord<S>(l: SparseLine<S>, rec: Record<S>, dim: int) {
    && |rec.entries| >= 1 && DistinctIndices(rec.entries) && InRow(rec.entries, dim)
    && l == Encode(rec)
  }

  /** The first n lines write out the first n records; later lines may be anything. */
  ghost predicate EncodesRecords<S>(lines: seq<SparseLine<S>>, recs: seq<Record<S>>, n: nat, dim: int) {
    && n <= |lines| && n <= |recs|
    && forall r :: 0 <= r < n ==> EncodesRecord(lines[r], recs[r], dim)
  }

  lemma {:induction false} EncodedLinesAccepted<S>(lines: seq<SparseLine<S>>, recs: seq<Record<S>>, n: nat, dim: int)
    requires EncodesRecords(lines, recs, n, dim)
    ensures forall i :: 0 <= i < n ==> |lines[i].tokens| >= 1
    ensures Loadable(lines, n, dim)
  {
    forall i | 0 <= i < n
      ensures |lines[i].tokens| >= 1 && IndicesAtMost(lines[i], dim)
    {
      assert EncodesRecord(lines[i], recs[i], dim);
      EncodedIndicesAtMost(recs[i], dim);
    }
  }

  /** Loading rows i .. n - 1 leaves every element outside them as it was. */
  lemma {:induction false} LoadOutside<S>(x: seq<real>, dim: nat, recs: seq<Record<S>>,
                                          lines: seq<SparseLine<S>>, i: nat, n: nat, pre: int, p: int)
    requires EncodesRecords(lines, recs, n, dim) && i <= n
    requires pre <= dim && n * dim <= |x|
    requires 0 <= p < |x| && (p < i * dim || n * dim <= p)
    ensures Loadable(lines, n, dim)
    ensures Load(x, dim, lines, i, n, pre)[p] == x[p]
    decreases n - i
  {
    EncodedLinesAccepted(lines, recs, n, dim);
    if i < n {
      LoadStep(x, dim, lines, i, n, pre);
      assert EncodesRecord(lines[i], recs[i], dim);
      EncodeRoundTrip(recs[i], pre);
      var base := i * dim;
      RowEnd(i, n, dim);
      assert 0 <= base && base + dim <= n * dim && (i + 1) * dim == base + dim;
      assert p < base || base + dim <= p;
      ApplyOutsideRow(x, base, dim, recs[i].entries, p);
      LoadOutside(Apply(x, base, recs[i].entries), dim, recs, lines, i + 1, n,
                  FinalPre(lines[i].firstIndex, pre, lines[i].tokens), p);
    }
  }

  /** Element m of row r, for r in i .. n - 1, after loading rows i .. n - 1: the value record r
      gives index m + 1, or the old value when it has none. */
  lemma {:induction false} LoadRecordAt<S>(x: seq<real>, dim: nat, recs: seq<Record<S>>,
                                           lines: seq<SparseLine<S>>, i: nat, n: nat, pre: int, r: nat, m: nat)
    requires EncodesRecords(lines, recs, n, dim)
    requires pre <= dim && n * dim <= |x|
    requires i <= r < n && m < dim
    ensures Loadable(lines, n, dim)
    ensures r * dim + m < |x|
    ensures Load(x, dim, lines, i, n, pre)[r * dim + m] == Lookup(recs[r].entries, m + 1).GetOr(x[r * dim + m])
    decreases r - i
  {
    EncodedLinesAccepted(lines, recs, n, dim);
    RowEnd(r, n, dim);
    LoadStep(x, dim, lines, i, n, pre);
    assert EncodesRecord(lines[i], recs[i], dim);
    EncodeRoundTrip(recs[i], pre);
    RowEnd(i, n, dim);
    var base := i * dim;
    var p := r * dim + m;
    assert 0 <= base && base + dim <= |x| && 0 <= p < |x|;
    var x' := Apply(x, base, recs[i].entries);
    var pre' := FinalPre(lines[i].firstIndex, pre, lines[i].tokens);
    if r == i {
      assert (i + 1) * dim == base + dim;
      LoadOutside(x', dim, recs, lines, i + 1, n, pre', p);
      ApplyAt(x, base, recs[i].entries, p);
    } else {
      RowsApart(i, r, dim, m);
      ApplyOutsideRow(x, base, dim, recs[i].entries, p);
      LoadRecordAt(x', dim, recs, lines, i + 1, n, pre', r, m);
    }
  }

  /** Loading the first n lines of records (distinct indices in 1..dim) from row 0: column m of
      row r becomes the value record r gives index m + 1, or keeps its old value when record r
      has no such index; every element after the loaded rows is unchanged. */
  lemma {:induction false} LoadRecords<S>(x: seq<real>, dim: nat, recs: seq<Record<S>>,
                                          lines: seq<SparseLine<S>>, n: nat, pre: int)
    requires EncodesRecords(lines, recs, n, dim)
    requires pre <= dim && n * dim <= |x|
    ensures Loadable(lines, n, dim)
    ensures forall r :: 0 <= r < n ==>
      && r * dim + dim <= |x|
      && forall m :: 0 <= m < dim ==>
           Row(Load(x, dim, lines, 0, n, pre), r, dim)[m] == Lookup(recs[r].entries, m + 1).GetOr(Row(x, r, dim)[m])
    ensures forall p :: n * dim <= p < |x| ==> Load(x, dim, lines, 0, n, pre)[p] == x[p]
  {
    EncodedLinesAccepted(lines, recs, n, dim);
    forall r | 0 <= r < n
      ensures r * dim + dim <= |x|
      ensures forall m :: 0 <= m < dim ==>
                Row(Load(x, dim, lines, 0, n, pre), r, dim)[m] == Lookup(recs[r].entries, m + 1).GetOr(Row(x, r, dim)[m])
    {
      RowEnd(r, n, dim);
      forall m | 0 <= m < dim
        ensures Row(Load(x, dim, lines, 0, n, pre), r, dim)[m] == Lookup(recs[r].entries, m + 1).GetOr(Row(x, r, dim)[m])
      {
        LoadRecordAt(x, dim, recs, lines, 0, n, pre, r, m);
      }
    }
    forall p | n * dim <= p < |x|
      ensures Load(x, dim, lines, 0, n, pre)[p] == x[p]
    {
      LoadOutside(x, dim, recs, lines, 0, n, pre, p);
    }
  }
}
