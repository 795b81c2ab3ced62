/**
 * The sparse `index:value` line format of the evaluation and model files, and the
 * token walk that read_data and read_model run over one line of it.
 *
 * A line `scalar i1:v1 i2:v2 ... iK:vK` is split on ':' by strtok into the pieces
 * "scalar i1", "v1 i2", ..., "vK". The first piece is scanned as the scalar and the
 * first index; every later piece as a value followed, if the piece holds one, by the
 * index of the next pair ("index chaining"). The model starts from that scanned form:
 * number parsing itself is not modelled.
 */
module SparseFormat {

  datatype Option<T> = None | Some(value: T) {
    function GetOr(default: T): T {
      match this
      case Some(v) => v
      case None => default
    }
  }

  /** One `index:value` pair; the index is 1-based. */
  datatype Entry = Entry(index: int, value: real)

  /** A sparse record: the leading scalar (a label or an alpha) and its pairs in line order. */
  datatype Record<S> = Record(scalar: S, entries: seq<Entry>)

  /** What `sscanf(token, "%lf %d", ...)` extracts from a piece after the first: the value,
      and the following index, which is None when the `%d` conversion fails (the last piece). */
  datatype Token = Token(value: real, next: Option<int>)

  /** One line after the ':' split and scanning: the scalar and first index of the first
      piece, then one Token per later piece. */
  datatype SparseLine<S> = SparseLine(scalar: S, firstIndex: int, tokens: seq<Token>)

  /** The header line of a model file, `total_sv gamma b`. */
  datatype ModelHeader = ModelHeader(totalSv: int, gamma: real, b: real)

  /** A model file: the header line, then one support-vector line per record. */
  datatype ModelFile = ModelFile(header: ModelHeader, records: seq<SparseLine<real>>)

  // ---------------------------------------------------------------------------
  // The token walk
  // ---------------------------------------------------------------------------

  /** pre_index after one pass of the loop body over token t with current index `index`:
      it is rescanned only when the store happens (index > 0) and the token holds an index. */
  function NextPre(index: int, pre: int, t: Token): int {
    if index > 0 && t.next.Some? then t.next.value else pre
  }

  /** The stores, in order, that the walk performs over `ts` starting with the current
      index `index` and pre_index `pre`. After each token the index becomes pre_index. */
  function Writes(index: int, pre: int, ts: seq<Token>): seq<Entry>
    decreases |ts|
  {
    if ts == [] then []
    else
      var p := NextPre(index, pre, ts[0]);
      (if index > 0 then [Entry(index, ts[0].value)] else []) + Writes(p, p, ts[1..])
  }

  /** pre_index when the walk over `ts` ends; read_data and read_model carry it into the next line. */
  function FinalPre(index: int, pre: int, ts: seq<Token>): int
    decreases |ts|
  {
    if ts == [] then pre
    else
      var p := NextPre(index, pre, ts[0]);
      FinalPre(p, p, ts[1..])
  }

  /** Every index the tokens hold is at most dim. */
  predicate NextsAtMost(ts: seq<Token>, dim: int) {
    forall k :: 0 <= k < |ts| ==> (ts[k].next.Some? ==> ts[k].next.value <= dim)
  }

  /** Every index a line can hand to the walk is at most dim. */
  predicate IndicesAtMost<S>(l: SparseLine<S>, dim: int) {
    l.firstIndex <= dim && NextsAtMost(l.tokens, dim)
  }

  /** Every store of `ws` names a column of a row of width dim. */
  predicate InRow(ws: seq<Entry>, dim: int) {
    forall k :: 0 <= k < |ws| ==> 1 <= ws[k].index <= dim
  }

  /** A store is made only while the current index is positive: no store has an index <= 0. */
  lemma {:induction false} WritesArePositive(index: int, pre: int, ts: seq<Token>)
    ensures forall k :: 0 <= k < |Writes(index, pre, ts)| ==> Writes(index, pre, ts)[k].index > 0
    decreases |ts|
  {
    if ts != [] {
      var p := NextPre(index, pre, ts[0]);
      WritesArePositive(p, p, ts[1..]);
    }
  }

  /** When the indices a line supplies are at most dim, every store lands in columns 1..dim
      and the pre_index handed to the next line is at most dim too. */
  lemma {:induction false} WalkWithin(index: int, pre: int, ts: seq<Token>, dim: int)
    requires NextsAtMost(ts, dim)
    requires index <= dim && pre <= dim
    ensures InRow(Writes(index, pre, ts), dim)
    ensures FinalPre(index, pre, ts) <= dim
    decreases |ts|
  {
    if ts != [] {
      var p := NextPre(index, pre, ts[0]);
      WalkWithin(p, p, ts[1..], dim);
    }
  }

  /** Once the chained index is non-positive it stays so: the rest of the line stores nothing. */
  lemma {:induction false} NonPositiveChainWritesNothing(index: int, ts: seq<Token>)
    requires index <= 0
    ensures Writes(index, index, ts) == []
    ensures FinalPre(index, index, ts) == index
    decreases |ts|
  {
    if ts != [] {
      assert NextPre(index, index, ts[0]) == index;
      NonPositiveChainWritesNothing(index, ts[1..]);
    }
  }

  /** A non-positive first index drops the first value and continues with the stale pre_index,
      so the second value is stored at the pre_index left over from before. */
  lemma {:induction false} LeadingNonPositiveUsesStaleIndex(index: int, pre: int, ts: seq<Token>)
    requires index <= 0 && 2 <= |ts| && pre > 0
    ensures |Writes(index, pre, ts)| >= 1
    ensures Writes(index, pre, ts)[0] == Entry(pre, ts[1].value)
  {
  }

  // ---------------------------------------------------------------------------
  // Storing into a dense row-major buffer
  // ---------------------------------------------------------------------------

  /** Every store of `ws` at `base + index - 1` stays inside a buffer of length n. */
  predicate Fits(n: int, base: int, ws: seq<Entry>) {
    forall k :: 0 <= k < |ws| ==> 0 <= base + ws[k].index - 1 < n
  }

  /** The buffer after performing the stores of `ws`, in order, at `base + index - 1`. */
  function Apply(x: seq<real>, base: int, ws: seq<Entry>): (y: seq<real>)
    requires Fits(|x|, base, ws)
    ensures |y| == |x|
    decreases |ws|
  {
    if ws == [] then x
    else Apply(x[base + ws[0].index - 1 := ws[0].value], base, ws[1..])
  }

  lemma {:induction false} ApplyCons(x: seq<real>, base: int, e: Entry, ws: seq<Entry>)
    requires Fits(|x|, base, [e] + ws)
    ensures Fits(|x|, base, ws) && 0 <= base + e.index - 1 < |x|
    ensures Apply(x, base, [e] + ws) == Apply(x[base + e.index - 1 := e.value], base, ws)
  {
    assert ([e] + ws)[0] == e && ([e] + ws)[1..] == ws;
    assert forall k :: 0 <= k < |ws| ==> ws[k] == ([e] + ws)[k + 1];
  }

  /** One token of the walk: what the store made for `ts[0]` leaves of the stores still to come,
      and the index and pre_index the walk goes on with. */
  lemma {:induction false} WalkStep(xs: seq<real>, base: int, dim: int, index: int, pre: int, ts: seq<Token>)
    requires |ts| >= 1
    requires InRow(Writes(index, pre, ts), dim) && Fits(|xs|, base, Writes(index, pre, ts))
    ensures var p := NextPre(index, pre, ts[0]);
      && InRow(Writes(p, p, ts[1..]), dim)
      && Fits(|xs|, base, Writes(p, p, ts[1..]))
      && FinalPre(p, p, ts[1..]) == FinalPre(index, pre, ts)
    ensures var p := NextPre(index, pre, ts[0]);
      index > 0 ==>
        && 0 <= base + index - 1 < |xs|
        && Apply(xs[base + index - 1 := ts[0].value], base, Writes(p, p, ts[1..]))
           == Apply(xs, base, Writes(index, pre, ts))
    ensures index <= 0 ==>
      Apply(xs, base, Writes(pre, pre, ts[1..])) == Apply(xs, base, Writes(index, pre, ts))
  {
    var p := NextPre(index, pre, ts[0]);
    var rest := Writes(p, p, ts[1..]);
    if index > 0 {
      var e := Entry(index, ts[0].value);
      assert Writes(index, pre, ts) == [e] + rest;
      ApplyCons(xs, base, e, rest);
      assert forall k :: 0 <= k < |rest| ==> rest[k] == ([e] + rest)[k + 1];
    } else {
      assert Writes(index, pre, ts) == [] + rest == rest;
    }
  }

  /** The value of the last entry of `ws` with the given index, if any. */
  function Lookup(ws: seq<Entry>, index: int): Option<real>
    decreases |ws|
  {
    if ws == [] then None
    else if Lookup(ws[1..], index).Some? then Lookup(ws[1..], index)
    else if ws[0].index == index then Some(ws[0].value)
    else None
  }

  lemma {:induction false} InRowFits(n: int, base: int, dim: int, ws: seq<Entry>)
    requires InRow(ws, dim) && 0 <= base && base + dim <= n
    ensures Fits(n, base, ws)
  {
  }

  /** Element p after the stores is the last value stored at p, or the old element if
      nothing was stored there. */
  lemma {:induction false} ApplyAt(x: seq<real>, base: int, ws: seq<Entry>, p: int)
    requires Fits(|x|, base, ws) && 0 <= p < |x|
    ensures Apply(x, base, ws)[p] == Lookup(ws, p - base + 1).GetOr(x[p])
    decreases |ws|
  {
    if ws != [] {
      var x' := x[base + ws[0].index - 1 := ws[0].value];
      ApplyAt(x', base, ws[1..], p);
    }
  }

  predicate DistinctIndices(es: seq<Entry>) {
    forall k, l :: 0 <= k < l < |es| ==> es[k].index != es[l].index
  }

  lemma {:induction false} LookupMissing(es: seq<Entry>, index: int)
    requires forall k :: 0 <= k < |es| ==> es[k].index != index
    ensures Lookup(es, index) == None
    decreases |es|
  {
    if es != [] {
      LookupMissing(es[1..], index);
    }
  }

  lemma {:induction false} LookupFound(es: seq<Entry>, k: int)
    requires DistinctIndices(es) && 0 <= k < |es|
    ensures Lookup(es, es[k].index) == Some(es[k].value)
    decreases |es|
  {
    if k == 0 {
      LookupMissing(es[1..], es[0].index);
    } else {
      LookupFound(es[1..], k - 1);
    }
  }

  /** Stores confined to the columns 1..dim of the row starting at `base` leave every
      element outside that row as it was. */
  lemma {:induction false} ApplyOutsideRow(x: seq<real>, base: int, dim: int, ws: seq<Entry>, p: int)
    requires InRow(ws, dim) && 0 <= base && base + dim <= |x|
    requires 0 <= p < |x| && !(base <= p < base + dim)
    ensures Fits(|x|, base, ws)
    ensures Apply(x, base, ws)[p] == x[p]
  {
    InRowFits(|x|, base, dim, ws);
    LookupMissing(ws, p - base + 1);
    ApplyAt(x, base, ws, p);
  }

  // ---------------------------------------------------------------------------
  // The line of a record, and round trips through it
  // ---------------------------------------------------------------------------

  predicate PositiveIndices(es: seq<Entry>) {
    forall k :: 0 <= k < |es| ==> es[k].index > 0
  }

  /** The pieces after the first of the line `... i1:v1 ... iK:vK`: piece k holds v_k and then
      i_(k+1), the last piece only v_K. */
  function Chain(es: seq<Entry>): (ts: seq<Token>)
    requires |es| >= 1
    ensures |ts| == |es|
    decreases |es|
  {
    if |es| == 1 then [Token(es[0].value, None)]
    else [Token(es[0].value, Some(es[1].index))] + Chain(es[1..])
  }

  /** Piece k of the chain holds value k and, except for the last piece, index k + 1. */
  lemma {:induction false} ChainAt(es: seq<Entry>)
    requires |es| >= 1
    ensures forall k :: 0 <= k < |es| ==> Chain(es)[k].value == es[k].value
    ensures forall k :: 0 <= k < |es| ==>
              Chain(es)[k].next == (if k + 1 < |es| then Some(es[k + 1].index) else None)
    decreases |es|
  {
    if |es| > 1 {
      ChainAt(es[1..]);
      assert forall k :: 1 <= k < |es| ==> Chain(es)[k] == Chain(es[1..])[k - 1];
    }
  }

  /** The scanned form of the line that writes out record r. */
  function Encode<S>(r: Record<S>): SparseLine<S>
    requires |r.entries| >= 1
  {
    SparseLine(r.scalar, r.entries[0].index, Chain(r.entries))
  }

  /** The line of a record whose indices are at most dim hands the walk no index above dim. */
  lemma {:induction false} EncodedIndicesAtMost<S>(r: Record<S>, dim: int)
    requires |r.entries| >= 1 && InRow(r.entries, dim)
    ensures IndicesAtMost(Encode(r), dim)
  {
    ChainAt(r.entries);
  }

  lemma {:induction false} ChainRoundTrip(es: seq<Entry>, pre: int)
    requires |es| >= 1 && PositiveIndices(es)
    ensures Writes(es[0].index, pre, Chain(es)) == es
    decreases |es|
  {
    if |es| > 1 {
      var ts := Chain(es);
      assert ts[1..] == Chain(es[1..]);
      ChainRoundTrip(es[1..], es[1].index);
      assert es == [es[0]] + es[1..];
    }
  }

  /** Decoding the line of a record stores exactly the record's pairs, in order, whatever
      pre_index was left over from before. */
  lemma {:induction false} EncodeRoundTrip<S>(r: Record<S>, pre: int)
    requires |r.entries| >= 1 && PositiveIndices(r.entries)
    ensures Encode(r).scalar == r.scalar
    ensures Writes(Encode(r).firstIndex, pre, Encode(r).tokens) == r.entries
  {
    ChainRoundTrip(r.entries, pre);
  }

  /** Performing stores with distinct indices sets each named element to its value. */
  lemma {:induction false} ApplyDistinctStores(x: seq<real>, base: int, es: seq<Entry>)
    requires DistinctIndices(es) && Fits(|x|, base, es)
    ensures forall k :: 0 <= k < |es| ==> Apply(x, base, es)[base + es[k].index - 1] == es[k].value
  {
    forall k | 0 <= k < |es|
      ensures Apply(x, base, es)[base + es[k].index - 1] == es[k].value
    {
      ApplyAt(x, base, es, base + es[k].index - 1);
      LookupFound(es, k);
    }
  }

  /** Performing stores leaves every element that none of them names as it was. */
  lemma {:induction false} ApplyElsewhere(x: seq<real>, base: int, es: seq<Entry>, p: int)
    requires Fits(|x|, base, es) && 0 <= p < |x|
    requires forall k :: 0 <= k < |es| ==> p != base + es[k].index - 1
    ensures Apply(x, base, es)[p] == x[p]
  {
    var i := p - base + 1;
    forall k | 0 <= k < |es|
      ensures es[k].index != i
    {
    }
    LookupMissing(es, i);
    ApplyAt(x, base, es, p);
  }

  /** Decoding the line `scalar i1:v1 ... iK:vK` (K >= 1, distinct indices in 1..dim) into the
      row starting at `base` sets element base + i_k - 1 to v_k and leaves every other element,
      in the row and outside it, as it was. */
  lemma {:induction false} EncodedLineStores<S>(x: seq<real>, base: int, dim: int, r: Record<S>, pre: int)
    requires |r.entries| >= 1 && DistinctIndices(r.entries) && InRow(r.entries, dim)
    requires 0 <= base && base + dim <= |x|
    ensures Writes(Encode(r).firstIndex, pre, Encode(r).tokens) == r.entries
    ensures Fits(|x|, base, r.entries)
    ensures forall k :: 0 <= k < |r.entries| ==>
      Apply(x, base, r.entries)[base + r.entries[k].index - 1] == r.entries[k].value
    ensures forall p :: 0 <= p < |x| && (forall k :: 0 <= k < |r.entries| ==> p != base + r.entries[k].index - 1) ==>
      Apply(x, base, r.entries)[p] == x[p]
  {
    EncodeRoundTrip(r, pre);
    InRowFits(|x|, base, dim, r.entries);
    ApplyDistinctStores(x, base, r.entries);
    forall p | 0 <= p < |x| && (forall k :: 0 <= k < |r.entries| ==> p != base + r.entries[k].index - 1)
      ensures Apply(x, base, r.entries)[p] == x[p]
    {
      ApplyElsewhere(x, base, r.entries, p);
    }
  }

  // ---------------------------------------------------------------------------
  // Dense row to sparse record
  // ---------------------------------------------------------------------------

  /** The pairs `m+1 : row[m]` for the non-zero elements of row from position k on, in order. */
  function SparsifyFrom(row: seq<real>, k: nat): seq<Entry>
    decreases |row| - k
  {
    if k >= |row| then []
    else (if row[k] != 0.0 then [Entry(k + 1, row[k])] else []) + SparsifyFrom(row, k + 1)
  }

  /** The sparse pairs of a dense row: its non-zero elements with their 1-based positions. */
  function Sparsify(row: seq<real>): seq<Entry> {
    SparsifyFrom(row, 0)
  }

  /** The pairs from position k on have 1-based indices past k and within the row, in
      strictly increasing order. */
  lemma {:induction false} SparsifyFromBounds(row: seq<real>, k: nat)
    ensures InRow(SparsifyFrom(row, k), |row|)
    ensures forall l :: 0 <= l < |SparsifyFrom(row, k)| ==> SparsifyFrom(row, k)[l].index > k
    ensures forall l, l' :: 0 <= l < l' < |SparsifyFrom(row, k)| ==>
              SparsifyFrom(row, k)[l].index < SparsifyFrom(row, k)[l'].index
    decreases |row| - k
  {
    if k < |row| {
      SparsifyFromBounds(row, k + 1);
      var rest := SparsifyFrom(row, k + 1);
      var head := if row[k] != 0.0 then [Entry(k + 1, row[k])] else [];
      var es := head + rest;
      assert SparsifyFrom(row, k) == es;
      assert forall l :: 0 <= l < |rest| ==> es[|head| + l] == rest[l];
      assert forall l :: 0 <= l < |head| ==> es[l].index == k + 1;
    }
  }

  /** Looking up index i in the pairs from position k on finds row[i - 1] exactly when i is
      past k, inside the row and that element is non-zero. */
  lemma {:induction false} SparsifyFromLookup(row: seq<real>, k: nat)
    ensures forall i ::
              Lookup(SparsifyFrom(row, k), i) == (if k < i <= |row| && row[i - 1] != 0.0 then Some(row[i - 1]) else None)
    decreases |row| - k
  {
    if k < |row| {
      SparsifyFromLookup(row, k + 1);
      var rest := SparsifyFrom(row, k + 1);
      if row[k] != 0.0 {
        var es := [Entry(k + 1, row[k])] + rest;
        assert SparsifyFrom(row, k) == es && es[1..] == rest && es[0].index == k + 1;
      } else {
        assert SparsifyFrom(row, k) == rest;
      }
    }
  }

  /** A row with a non-zero element has at least one pair. */
  lemma {:induction false} SparsifyNonEmpty(row: seq<real>, k: nat, m: nat)
    requires k <= m < |row| && row[m] != 0.0
    ensures |SparsifyFrom(row, k)| >= 1
    decreases m - k
  {
    if row[k] == 0.0 {
      SparsifyNonEmpty(row, k + 1, m);
    }
  }

  /** Round trip of a dense row through the sparse format: writing the non-zero elements of
      a row out as a line and decoding that line into a zeroed row reproduces the row,
      zeros included, and changes nothing outside it. */
  lemma {:induction false} SparseRoundTrip<S>(x: seq<real>, base: int, row: seq<real>, scalar: S, m: nat, pre: int)
    requires m < |row| && row[m] != 0.0
    requires 0 <= base && base + |row| <= |x|
    requires forall q :: base <= q < base + |row| ==> x[q] == 0.0
    ensures |Sparsify(row)| >= 1
    ensures Fits(|x|, base, Writes(Encode(Record(scalar, Sparsify(row))).firstIndex, pre,
                                   Encode(Record(scalar, Sparsify(row))).tokens))
    ensures Apply(x, base, Writes(Encode(Record(scalar, Sparsify(row))).firstIndex, pre,
                                  Encode(Record(scalar, Sparsify(row))).tokens))[base..base + |row|] == row
    ensures forall q :: 0 <= q < |x| && !(base <= q < base + |row|) ==>
      Apply(x, base, Writes(Encode(Record(scalar, Sparsify(row))).firstIndex, pre,
                            Encode(Record(scalar, Sparsify(row))).tokens))[q] == x[q]
  {
    var es := Sparsify(row);
    SparsifyNonEmpty(row, 0, m);
    SparsifyFromBounds(row, 0);
    SparsifyFromLookup(row, 0);
    EncodeRoundTrip(Record(scalar, es), pre);
    InRowFits(|x|, base, |row|, es);
    var y := Apply(x, base, es);
    forall q | 0 <= q < |x|
      ensures y[q] == if base <= q < base + |row| then row[q - base] else x[q]
    {
      ApplyAt(x, base, es, q);
    }
    assert y[base..base + |row|] == row;
  }
}
