/** `Word2Vec._get_target` and `Word2Vec._get_batches`: the skip-gram
    context window and the batching of the training stream. The random
    window radius and the negative-sample draw are oracles passed in. */
module Batching {
  import opened Seqs

  /** Position `j` lies in the window of radius `radius` around `idx` in a
      batch of `n` items: inside the batch, not the centre itself, and at
      most `radius` positions away on either side. */
  predicate InWindow(n: nat, idx: nat, radius: nat, j: int) {
    0 <= j < n && j != idx && idx - radius <= j <= idx + radius
  }

  /** `_get_target(words, idx)` with the drawn radius `R` given: the
      distinct values found in the window. The list order of Python's
      `set` is not specified; here the values appear in window order. */
  function Targets(words: seq<int>, idx: nat, radius: nat): (r: seq<int>)
    requires idx < |words|
    ensures NoDup(r)
    ensures forall v :: v in r <==> exists j :: InWindow(|words|, idx, radius, j) && words[j] == v
  {
    var start := if idx - radius > 0 then idx - radius else 0;
    var stop := idx + radius;
    var window := words[start..idx] + words[idx + 1..Min(stop + 1, |words|)];
    WindowValues(words, idx, radius, start, window);
    Distinct(window)
  }

  lemma WindowValues(words: seq<int>, idx: nat, radius: nat, start: nat, window: seq<int>)
    requires idx < |words|
    requires start == (if idx - radius > 0 then idx - radius else 0)
    requires window == words[start..idx] + words[idx + 1..Min(idx + radius + 1, |words|)]
    ensures forall v :: v in window <==> exists j :: InWindow(|words|, idx, radius, j) && words[j] == v
  {
    var left := words[start..idx];
    var right := words[idx + 1..Min(idx + radius + 1, |words|)];
    forall v | v in window ensures exists j :: InWindow(|words|, idx, radius, j) && words[j] == v {
      if v in left {
        var k :| 0 <= k < |left| && left[k] == v;
        assert InWindow(|words|, idx, radius, start + k) && words[start + k] == v;
      } else {
        assert v in right;
        var k :| 0 <= k < |right| && right[k] == v;
        assert InWindow(|words|, idx, radius, idx + 1 + k) && words[idx + 1 + k] == v;
      }
    }
    forall v | exists j :: InWindow(|words|, idx, radius, j) && words[j] == v ensures v in window {
      var j :| InWindow(|words|, idx, radius, j) && words[j] == v;
      if j < idx {
        assert left[j - start] == v;
      } else {
        assert right[j - idx - 1] == v;
      }
    }
  }

  /** `[v] * k`. */
  function Repeat(v: int, k: nat): (r: seq<int>)
    ensures |r| == k && forall t :: 0 <= t < k ==> r[t] == v
  {
    seq(k, _ => v)
  }

  /** One batch handed to the model: centres `x`, contexts `y` and the
      negative-sample matrix `z`. */
  datatype Batch = Batch(x: seq<int>, y: seq<int>, z: seq<seq<int>>)

  /** The targets of every centre of `batch`, `radii[i]` being the radius
      drawn for centre `i` (one draw per centre, in batch order). */
  function TargetLists(batch: seq<int>, radii: seq<nat>): (tss: seq<seq<int>>)
    requires |radii| == |batch|
    ensures |tss| == |batch|
    ensures forall i :: 0 <= i < |batch| ==> tss[i] == Targets(batch, i, radii[i])
    ensures forall i :: 0 <= i < |batch| ==> NoDup(tss[i])
    ensures forall i, v :: 0 <= i < |batch| ==>
              (v in tss[i] <==> exists j :: InWindow(|batch|, i, radii[i], j) && batch[j] == v)
  {
    seq(|batch|, i requires 0 <= i < |batch| => Targets(batch, i, radii[i]))
  }

  /** Where the pairs of centre `n` begin: the number of targets of the
      centres before it. */
  function SegmentStart(tss: seq<seq<int>>, n: nat): nat
    requires n <= |tss|
  {
    if n == 0 then 0 else SegmentStart(tss, n - 1) + |tss[n - 1]|
  }

  /** The pairs of centre `i` sit at positions `SegmentStart(tss, i)`
      onwards: its value `batch[i]` once for each of its targets, side by
      side with those targets. */
  predicate SegmentAt(batch: seq<int>, tss: seq<seq<int>>, xs: seq<int>, ys: seq<int>, i: nat)
    requires i < |batch| == |tss|
  {
    var s := SegmentStart(tss, i);
    && s + |tss[i]| <= |xs| && s + |tss[i]| <= |ys|
    && forall k :: s <= k < s + |tss[i]| ==> xs[k] == batch[i] && ys[k] == tss[i][k - s]
  }

  /** The centre and context lists built by the inner loop of
      `_get_batches` over the first `n` centres of `batch`, given their
      target lists: centre by centre, in batch order, each centre repeated
      once per target. */
  function Pairs(batch: seq<int>, tss: seq<seq<int>>, n: nat): (p: (seq<int>, seq<int>))
    requires n <= |batch| == |tss|
    ensures |p.0| == |p.1| == SegmentStart(tss, n)
    ensures forall i :: 0 <= i < n ==> SegmentAt(batch, tss, p.0, p.1, i)
  {
    if n == 0 then ([], [])
    else
      var prev := Pairs(batch, tss, n - 1);
      var xs := prev.0 + Repeat(batch[n - 1], |tss[n - 1]|);
      var ys := prev.1 + tss[n - 1];
      PairsStep(batch, tss, n, prev.0, prev.1, xs, ys);
      (xs, ys)
  }

  lemma PairsStep(batch: seq<int>, tss: seq<seq<int>>, n: nat,
                  px: seq<int>, py: seq<int>, xs: seq<int>, ys: seq<int>)
    requires 0 < n <= |batch| == |tss|
    requires |px| == |py| == SegmentStart(tss, n - 1)
    requires forall i :: 0 <= i < n - 1 ==> SegmentAt(batch, tss, px, py, i)
    requires xs == px + Repeat(batch[n - 1], |tss[n - 1]|)
    requires ys == py + tss[n - 1]
    ensures forall i :: 0 <= i < n ==> SegmentAt(batch, tss, xs, ys, i)
  {
    forall i | 0 <= i < n ensures SegmentAt(batch, tss, xs, ys, i) {
      if i < n - 1 {
        SegmentKept(batch, tss, i, px, py, xs[|px|..], ys[|py|..]);
        assert xs == px + xs[|px|..] && ys == py + ys[|py|..];
      } else {
        AppendedAt(px, py, batch[i], tss[i]);
      }
    }
  }

  /** Appending after a segment keeps it in place. */
  lemma SegmentKept(batch: seq<int>, tss: seq<seq<int>>, i: nat,
                    px: seq<int>, py: seq<int>, ex: seq<int>, ey: seq<int>)
    requires i < |batch| == |tss|
    requires SegmentAt(batch, tss, px, py, i)
    ensures SegmentAt(batch, tss, px + ex, py + ey, i)
  {
    var s := SegmentStart(tss, i);
    forall k | s <= k < s + |tss[i]| ensures (px + ex)[k] == batch[i] && (py + ey)[k] == tss[i][k - s] {
      assert px[k] == batch[i] && py[k] == tss[i][k - s];
    }
  }

  /** The values at the positions an append adds. */
  lemma AppendedAt(px: seq<int>, py: seq<int>, c: int, ts: seq<int>)
    requires |px| == |py|
    ensures forall k :: |px| <= k < |px| + |ts| ==>
              (px + Repeat(c, |ts|))[k] == c && (py + ts)[k] == ts[k - |px|]
  {
  }

  /** Finds the centre whose segment holds pair position `k`. */
  lemma {:induction false} SegmentOf(tss: seq<seq<int>>, n: nat, k: nat) returns (i: nat)
    requires n <= |tss|
    requires k < SegmentStart(tss, n)
    ensures i < n && SegmentStart(tss, i) <= k < SegmentStart(tss, i) + |tss[i]|
  {
    if k >= SegmentStart(tss, n - 1) {
      i := n - 1;
    } else {
      i := SegmentOf(tss, n - 1, k);
    }
  }

  /** `c` at some centre position of `batch` and `v` at a position in that
      centre's window, for the radii drawn. */
  ghost predicate IsSkipGramPair(batch: seq<int>, radii: seq<nat>, c: int, v: int)
    requires |radii| == |batch|
  {
    exists i, j :: 0 <= i < |batch| && InWindow(|batch|, i, radii[i], j) && batch[i] == c && batch[j] == v
  }

  /** Every (centre, context) pair of a batch joins a centre to a value in
      its window. */
  lemma PairsAreSkipGrams(batch: seq<int>, radii: seq<nat>, xs: seq<int>, ys: seq<int>)
    requires |radii| == |batch|
    requires (xs, ys) == Pairs(batch, TargetLists(batch, radii), |batch|)
    ensures forall k :: 0 <= k < |xs| ==> IsSkipGramPair(batch, radii, xs[k], ys[k])
  {
    var tss := TargetLists(batch, radii);
    var p := Pairs(batch, tss, |batch|);
    forall k | 0 <= k < |xs| ensures IsSkipGramPair(batch, radii, xs[k], ys[k]) {
      PairIsSkipGram(batch, radii, tss, p.0, p.1, k);
    }
  }

  lemma PairIsSkipGram(batch: seq<int>, radii: seq<nat>, tss: seq<seq<int>>, xs: seq<int>, ys: seq<int>, k: nat)
    requires |radii| == |batch| == |tss|
    requires forall i :: 0 <= i < |batch| ==> tss[i] == Targets(batch, i, radii[i])
    requires forall i :: 0 <= i < |batch| ==> SegmentAt(batch, tss, xs, ys, i)
    requires k < SegmentStart(tss, |batch|)
    ensures k < |xs| && k < |ys| && IsSkipGramPair(batch, radii, xs[k], ys[k])
  {
    var i := SegmentOf(tss, |batch|, k);
    var s := SegmentStart(tss, i);
    assert SegmentAt(batch, tss, xs, ys, i);
    assert xs[k] == batch[i] && ys[k] == tss[i][k - s];
    assert tss[i][k - s] in Targets(batch, i, radii[i]);
    var j :| InWindow(|batch|, i, radii[i], j) && batch[j] == ys[k];
  }

  /** `np.random.choice(train_data, size=(rows, width))`, with the drawn
      positions supplied by `draw(row, column)`, taken modulo the stream
      length. */
  function Negatives(trainData: seq<int>, rows: nat, width: nat, draw: (nat, nat) -> nat): (z: seq<seq<int>>)
    requires |trainData| > 0
    ensures |z| == rows
    ensures forall r :: 0 <= r < rows ==> |z[r]| == width
    ensures forall r, c :: 0 <= r < rows && 0 <= c < width ==> z[r][c] in trainData
  {
    seq(rows, (r: nat) => seq(width, (c: nat) => trainData[draw(r, c) % |trainData|]))
  }

  /** One iteration of `_get_batches`: pairs every centre of `batch` with
      its targets and draws `windowSize` negatives per pair from the whole
      training stream. */
  function MakeBatch(batch: seq<int>, radii: seq<nat>, trainData: seq<int>, windowSize: nat,
                     draw: (nat, nat) -> nat): (bt: Batch)
    requires |radii| == |batch| && |trainData| > 0
    ensures |bt.x| == |bt.y| == |bt.z|
    ensures forall i :: 0 <= i < |batch| ==> SegmentAt(batch, TargetLists(batch, radii), bt.x, bt.y, i)
    ensures |bt.x| == SegmentStart(TargetLists(batch, radii), |batch|)
    ensures forall k :: 0 <= k < |bt.x| ==> IsSkipGramPair(batch, radii, bt.x[k], bt.y[k])
    ensures forall r :: 0 <= r < |bt.z| ==> |bt.z[r]| == windowSize
    ensures forall r, c :: 0 <= r < |bt.z| && 0 <= c < windowSize ==> bt.z[r][c] in trainData
  {
    var p := Pairs(batch, TargetLists(batch, radii), |batch|);
    PairsAreSkipGrams(batch, radii, p.0, p.1);
    Batch(p.0, p.1, Negatives(trainData, |p.1|, windowSize, draw))
  }

  /** The concatenation of a list of lists. */
  function Concat(ss: seq<seq<int>>): seq<int> {
    if |ss| == 0 then [] else Concat(ss[..|ss| - 1]) + ss[|ss| - 1]
  }

  /** `words[idx: idx + batch_size]` for `idx` in
      `range(0, len(words), batch_size)`, `words` being the stream cut to
      `n_batches * batch_size` items: full batches of consecutive stream
      positions; the remainder is dropped. */
  function BatchSlices(trainData: seq<int>, batchSize: nat): (r: seq<seq<int>>)
    requires batchSize > 0
    ensures |r| == |trainData| / batchSize
    ensures |r| * batchSize <= |trainData| < |r| * batchSize + batchSize
    ensures forall b :: 0 <= b < |r| ==> |r[b]| == batchSize
    ensures forall b, i :: 0 <= b < |r| && 0 <= i < batchSize ==>
              b * batchSize + i < |trainData| && r[b][i] == trainData[b * batchSize + i]
  {
    var n := |trainData| / batchSize;
    DivBounds(|trainData|, batchSize);
    var r := Slices(trainData, batchSize, n);
    SliceItems(trainData, batchSize, r);
    r
  }

  /** The first `n` consecutive slices of `batchSize` items. */
  function Slices(trainData: seq<int>, batchSize: nat, n: nat): (r: seq<seq<int>>)
    requires n * batchSize <= |trainData|
    ensures |r| == n
    ensures forall b :: 0 <= b < n ==>
              b * batchSize + batchSize <= |trainData| &&
              r[b] == trainData[b * batchSize..b * batchSize + batchSize]
  {
    var r := seq(n, (b: nat) requires b < n =>
                       SliceFits(b, n, batchSize); trainData[b * batchSize..b * batchSize + batchSize]);
    assert forall b :: 0 <= b < n ==> b * batchSize + batchSize <= |trainData| by {
      forall b | 0 <= b < n ensures b * batchSize + batchSize <= |trainData| {
        SliceFits(b, n, batchSize);
      }
    }
    r
  }

  lemma SliceItems(trainData: seq<int>, batchSize: nat, r: seq<seq<int>>)
    requires forall b :: 0 <= b < |r| ==>
               b * batchSize + batchSize <= |trainData| &&
               r[b] == trainData[b * batchSize..b * batchSize + batchSize]
    ensures forall b, i :: 0 <= b < |r| && 0 <= i < batchSize ==>
              b * batchSize + i < |trainData| && r[b][i] == trainData[b * batchSize + i]
  {
    forall b, i | 0 <= b < |r| && 0 <= i < batchSize
      ensures b * batchSize + i < |trainData| && r[b][i] == trainData[b * batchSize + i]
    {
      var lo := b * batchSize;
      assert r[b] == trainData[lo..lo + batchSize];
    }
  }

  /** Laid end to end, the batches are exactly the first
      `n_batches * batch_size` items of the stream. */
  lemma BatchesCoverPrefix(trainData: seq<int>, batchSize: nat)
    requires batchSize > 0
    ensures var r := BatchSlices(trainData, batchSize);
      |r| * batchSize <= |trainData| && Concat(r) == trainData[..|r| * batchSize]
  {
    var n := |trainData| / batchSize;
    DivBounds(|trainData|, batchSize);
    var r := Slices(trainData, batchSize, n);
    ConcatSlices(trainData, batchSize, r, n);
    assert r[..n] == r;
  }

  /** The first `m` slices concatenate to the first `m * batchSize` items. */
  lemma {:induction false} ConcatSlices(trainData: seq<int>, batchSize: nat, r: seq<seq<int>>, m: nat)
    requires batchSize > 0 && m <= |r|
    requires |r| * batchSize <= |trainData|
    requires forall b :: 0 <= b < |r| ==>
               b * batchSize + batchSize <= |trainData| &&
               r[b] == trainData[b * batchSize..b * batchSize + batchSize]
    ensures m * batchSize <= |trainData|
    ensures Concat(r[..m]) == trainData[..m * batchSize]
  {
    if m == 0 {
      assert r[..0] == [];
    } else {
      ConcatSlices(trainData, batchSize, r, m - 1);
      var lo := (m - 1) * batchSize;
      assert m * batchSize == lo + batchSize;
      var p := r[..m];
      assert p[..m - 1] == r[..m - 1];
      assert p[m - 1] == trainData[lo..lo + batchSize];
      assert Concat(p) == trainData[..lo] + trainData[lo..lo + batchSize];
      assert trainData[..lo] + trainData[lo..lo + batchSize] == trainData[..lo + batchSize];
    }
  }

  /** Slice `b` of `n` lies inside the first `n * d` items. */
  lemma SliceFits(b: nat, n: nat, d: nat)
    requires b < n
    ensures b * d + d <= n * d
  {
    MulMono(b + 1, n, d);
  }

  lemma DivBounds(x: nat, d: nat)
    requires d > 0
    ensures (x / d) * d <= x < (x / d) * d + d
  {
    assert x == (x / d) * d + x % d;
  }

  /** A centre of `batch` and a value at most `windowSize` positions away
      from it in the same batch. */
  ghost predicate IsContextPair(batch: seq<int>, windowSize: nat, c: int, v: int) {
    exists i, j :: 0 <= i < |batch| && 0 <= j < |batch| && i != j &&
                   i - windowSize <= j <= i + windowSize && batch[i] == c && batch[j] == v
  }

  /** A radius never above `windowSize` keeps every window pair within
      `windowSize` positions. */
  lemma SkipGramIsContextPair(batch: seq<int>, radii: seq<nat>, windowSize: nat, c: int, v: int)
    requires |radii| == |batch|
    requires forall i :: 0 <= i < |radii| ==> radii[i] <= windowSize
    requires IsSkipGramPair(batch, radii, c, v)
    ensures IsContextPair(batch, windowSize, c, v)
  {
    var i, j :| 0 <= i < |batch| && InWindow(|batch|, i, radii[i], j) && batch[i] == c && batch[j] == v;
    assert 0 <= j < |batch| && i != j && i - windowSize <= j <= i + windowSize;
  }

  /** `bt` is the batch built from `slice` with the radii `rs` drawn for its
      centres: `x` and `y` are exactly the centre/target segments of the
      slice's target lists, in batch order, every pair lies within
      `windowSize` positions inside the slice, and `z` holds one negative row
      of `windowSize` stream items per pair. */
  ghost predicate GoodBatch(slice: seq<int>, rs: seq<nat>, windowSize: nat, trainData: seq<int>, bt: Batch) {
    && |rs| == |slice|
    && |bt.x| == |bt.y| == |bt.z|
    && |bt.x| == SegmentStart(TargetLists(slice, rs), |slice|)
    && (forall i :: 0 <= i < |slice| ==> SegmentAt(slice, TargetLists(slice, rs), bt.x, bt.y, i))
    && (forall k :: 0 <= k < |bt.x| ==> IsContextPair(slice, windowSize, bt.x[k], bt.y[k]))
    && (forall row :: 0 <= row < |bt.z| ==> |bt.z[row]| == windowSize)
    && (forall row, c :: 0 <= row < |bt.z| && 0 <= c < windowSize ==> bt.z[row][c] in trainData)
  }

  /** Batch number `b` of `_get_batches`: its slice of the stream, the radii
      drawn for that slice's centres, and the negative draws of batch `b`. */
  function BatchAt(trainData: seq<int>, batchSize: nat, windowSize: nat, radii: seq<nat>,
                   draw: (nat, nat, nat) -> nat, b: nat): (bt: Batch)
    requires batchSize > 0 && |radii| == |trainData|
    requires RadiiWithin(radii, batchSize, windowSize)
    requires b < |trainData| / batchSize
    ensures b * batchSize + batchSize <= |radii|
    ensures GoodBatch(BatchSlices(trainData, batchSize)[b],
                      radii[b * batchSize..b * batchSize + batchSize], windowSize, trainData, bt)
  {
    var slices := BatchSlices(trainData, batchSize);
    var n := |slices|;
    SliceFits(b, n, batchSize);
    var lo := b * batchSize;
    var rs := radii[lo..lo + batchSize];
    SliceRadii(radii, batchSize, windowSize, b, rs);
    var dr := (row, col) => draw(b, row, col);
    MakeBatchIsGood(slices[b], rs, windowSize, trainData, dr);
    MakeBatch(slices[b], rs, trainData, windowSize, dr)
  }

  /** A batch built with radii of at most `windowSize` is well formed. */
  lemma MakeBatchIsGood(slice: seq<int>, rs: seq<nat>, windowSize: nat, trainData: seq<int>,
                        draw: (nat, nat) -> nat)
    requires |rs| == |slice| && |trainData| > 0
    requires forall i :: 0 <= i < |rs| ==> rs[i] <= windowSize
    ensures GoodBatch(slice, rs, windowSize, trainData, MakeBatch(slice, rs, trainData, windowSize, draw))
  {
    var bt := MakeBatch(slice, rs, trainData, windowSize, draw);
    forall k | 0 <= k < |bt.x|
      ensures IsContextPair(slice, windowSize, bt.x[k], bt.y[k])
    {
      SkipGramIsContextPair(slice, rs, windowSize, bt.x[k], bt.y[k]);
    }
  }

  /** The radius drawn for every stream position inside a full batch lies
      in `1 .. windowSize`, the range of `np.random.randint(1, window_size + 1)`;
      the radii of the dropped remainder are unconstrained. */
  predicate RadiiWithin(radii: seq<nat>, batchSize: nat, windowSize: nat)
    requires batchSize > 0
  {
    forall k :: 0 <= k < (|radii| / batchSize) * batchSize ==> 1 <= radii[k] <= windowSize
  }

  /** The radii of batch `b` are at most `windowSize`. */
  lemma SliceRadii(radii: seq<nat>, batchSize: nat, windowSize: nat, b: nat, rs: seq<nat>)
    requires batchSize > 0 && RadiiWithin(radii, batchSize, windowSize)
    requires b < |radii| / batchSize
    requires b * batchSize + batchSize <= |radii| && rs == radii[b * batchSize..b * batchSize + batchSize]
    ensures forall i :: 0 <= i < |rs| ==> rs[i] <= windowSize
  {
    var lo := b * batchSize;
    SliceFits(b, |radii| / batchSize, batchSize);
    forall i | 0 <= i < |rs| ensures rs[i] <= windowSize {
      assert rs[i] == radii[lo + i];
    }
  }

  /** `_get_batches` over the whole stream. `radii[k]` is the radius drawn
      for the centre at stream position `k` (those of the dropped remainder
      go unused) and `draw(b, row, col)` the stream position drawn for entry
      `(row, col)` of batch `b`'s negative matrix. A negative `batchSize`
      makes `range(0, len(words), batch_size)` empty, so no batch is
      yielded; a zero one fails in `len // batch_size`. */
  function Batches(trainData: seq<int>, batchSize: int, windowSize: nat, radii: seq<nat>,
                   draw: (nat, nat, nat) -> nat): (r: seq<Batch>)
    requires batchSize != 0 && |radii| == |trainData|
    requires batchSize > 0 ==> RadiiWithin(radii, batchSize, windowSize)
    ensures batchSize < 0 ==> r == []
    ensures batchSize > 0 ==> |r| == |trainData| / batchSize
    ensures batchSize > 0 ==> forall b :: 0 <= b < |r| ==>
              b * batchSize + batchSize <= |radii| &&
              GoodBatch(BatchSlices(trainData, batchSize)[b],
                        radii[b * batchSize..b * batchSize + batchSize], windowSize, trainData, r[b])
  {
    if batchSize < 0 then [] else FullBatches(trainData, batchSize, windowSize, radii, draw)
  }

  /** The batches for a positive batch size, one per full slice. */
  function FullBatches(trainData: seq<int>, batchSize: nat, windowSize: nat, radii: seq<nat>,
                       draw: (nat, nat, nat) -> nat): (r: seq<Batch>)
    requires batchSize > 0 && |radii| == |trainData|
    requires RadiiWithin(radii, batchSize, windowSize)
    ensures |r| == |trainData| / batchSize
    ensures forall b :: 0 <= b < |r| ==>
              b * batchSize + batchSize <= |radii| &&
              GoodBatch(BatchSlices(trainData, batchSize)[b],
                        radii[b * batchSize..b * batchSize + batchSize], windowSize, trainData, r[b])
  {
    var n := |trainData| / batchSize;
    var slices := BatchSlices(trainData, batchSize);
    var r := seq(n, (b: nat) requires b < n => BatchAt(trainData, batchSize, windowSize, radii, draw, b));
    forall b | 0 <= b < n
      ensures b * batchSize + batchSize <= |radii|
      ensures GoodBatch(slices[b], radii[b * batchSize..b * batchSize + batchSize], windowSize, trainData, r[b])
    {
      var bt := BatchAt(trainData, batchSize, windowSize, radii, draw, b);
      assert r[b] == bt;
    }
    r
  }

  lemma MulMono(a: nat, b: nat, d: nat)
    requires a <= b
    ensures a * d <= b * d
  {
    assert b * d == a * d + (b - a) * d;
  }
}
