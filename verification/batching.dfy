/**
  `save_controls`: the treated pairs are cut into batches of `batch_size`
  consecutive rows, and every batch goes through `make_controls` and
  `remove_cited` on its own, one output file per batch.

  Two versions exist. The current one slices `pairs.slice(i * b, min(b, N - i * b))`
  for `i < ceil(N / b)`, which cuts the frame into consecutive pieces. The
  older one slices `pairs.slice(i * b, min((i + 1) * b, ceil(N / b)))`,
  passing a bound computed from the batch count where `slice` expects a
  length; it skips rows and repeats others.
*/
module Batching {
  import opened Records
  import opened Relation
  import opened Controls

  /** `make_controls` is called without `base_year`, so its default applies. */
  const DefaultBaseYear: int := 2005

  /** The older `make_controls` is also called without `search_range`. */
  const LegacySearchRange: int := 30

  /** `ceil(n / b)` in Python: division by zero raises, a negative batch size
      gives a count of at most zero. */
  function BatchCount(n: nat, b: int): (r: Result<int>)
    ensures r.Err? <==> b == 0
    ensures r.Err? ==> r.error == ZeroDivision
    ensures r.Ok? && b > 0 ==> r.value >= 0 && r.value * b >= n && (r.value - 1) * b < n
    ensures r.Ok? && b < 0 ==> r.value <= 0
  {
    if b == 0 then Err(ZeroDivision)
    else if b > 0 then
      var k := (n + b - 1) / b;
      assert n + b - 1 == k * b + (n + b - 1) % b;
      assert (k - 1) * b == k * b - b;
      Ok(k)
    else
      Ok(-(n / -b))
  }

  /** The rows `slice(start, length)` takes. */
  datatype Window = Window(start: nat, length: nat)

  function End(w: Window): nat {
    w.start + w.length
  }

  /** `slice(offset, length)` with polars' clamping: a window reaching past
      the end stops at the end, one starting past the end is empty. */
  function Slice<T>(s: seq<T>, w: Window): (r: seq<T>)
    ensures |r| <= w.length
    ensures End(w) <= |s| ==> r == s[w.start..End(w)]
    ensures forall x :: x in r ==> x in s
  {
    var lo := if w.start <= |s| then w.start else |s|;
    var hi := if End(w) <= |s| then End(w) else |s|;
    s[lo..hi]
  }

  /** The slices of `s` for every window, in order. */
  function Slices<T>(s: seq<T>, ws: seq<Window>): (r: seq<seq<T>>)
    ensures |r| == |ws|
    ensures forall i :: 0 <= i < |ws| ==> r[i] == Slice(s, ws[i])
  {
    seq(|ws|, i requires 0 <= i < |ws| => Slice(s, ws[i]))
  }

  /** The batch files read back one after the other. */
  function Concat<T>(bs: seq<seq<T>>): seq<T> {
    if |bs| == 0 then [] else Concat(bs[..|bs| - 1]) + bs[|bs| - 1]
  }

  /** The windows cut `[0, n)` into consecutive non-empty pieces. */
  predicate Tiling(ws: seq<Window>, n: nat) {
    && (|ws| == 0 ==> n == 0)
    && (|ws| > 0 ==> ws[0].start == 0 && End(ws[|ws| - 1]) == n)
    && (forall i :: 0 <= i < |ws| ==> ws[i].length >= 1)
    && (forall i :: 0 <= i < |ws| - 1 ==> End(ws[i]) == ws[i + 1].start)
  }

  /** Row `i` lies in window `w`. */
  predicate Covers(w: Window, i: int) {
    w.start <= i < End(w)
  }

  /** Window `i` of the current `save_controls`. */
  function BatchWindow(n: nat, b: int, i: nat): Window
    requires b > 0 && i * b < n
  {
    Window(i * b, if b <= n - i * b then b else n - i * b)
  }

  lemma {:induction false} MulBelow(i: int, k: int, b: int)
    requires b > 0 && 0 <= i < k
    ensures i * b <= (k - 1) * b
  {
    var d := k - 1 - i;
    assert (k - 1) * b == i * b + d * b;
    MulNonNegative(d, b);
  }

  lemma MulNonNegative(i: int, b: int)
    requires i >= 0 && b > 0
    ensures i * b >= 0
  {
  }

  /** The `k` windows `BatchWindow(n, b, 0)`, …, `BatchWindow(n, b, k - 1)`. */
  function BatchWindows(n: nat, b: int, k: nat): (r: seq<Window>)
    requires b > 0 && (k - 1) * b < n
    ensures |r| == k
    ensures forall i :: 0 <= i < k ==> i * b < n && r[i] == BatchWindow(n, b, i)
  {
    forall i | 0 <= i < k
      ensures i * b < n
    {
      MulBelow(i, k, b);
    }
    seq(k, i requires 0 <= i < k => BatchWindow(n, b, i))
  }

  /** Every window before the last has `b` rows and ends where the next starts. */
  lemma FullWindow(n: nat, b: int, k: int, i: nat)
    requires b > 0 && (k - 1) * b < n && i + 1 < k
    ensures i * b < n && (i + 1) * b < n
    ensures BatchWindow(n, b, i).length == b
    ensures End(BatchWindow(n, b, i)) == (i + 1) * b
  {
    MulBelow(i + 1, k, b);
    assert (i + 1) * b == i * b + b;
  }

  /** With `(k - 1) * b < n <= k * b` the `k` windows tile `[0, n)`, all
      but the last with exactly `b` rows. */
  lemma BatchWindowsTiling(n: nat, b: int, k: nat)
    requires b > 0 && k >= 1 && (k - 1) * b < n && n <= k * b
    ensures Tiling(BatchWindows(n, b, k), n)
    ensures forall i :: 0 <= i < k ==> BatchWindows(n, b, k)[i].length <= b
    ensures forall i :: 0 <= i < k - 1 ==> BatchWindows(n, b, k)[i].length == b
  {
    var ws := BatchWindows(n, b, k);
    forall i | 0 <= i < k - 1
      ensures ws[i].length == b && End(ws[i]) == ws[i + 1].start
    {
      FullWindow(n, b, k, i);
    }
    assert End(ws[k - 1]) == n by {
      assert (k - 1) * b + b == k * b;
    }
  }

  /** The windows of the current `save_controls`: `ceil(N / b)` of them, the
      `i`-th starting at `i * b` with `min(b, N - i * b)` rows. */
  function Windows(n: nat, b: int): (r: Result<seq<Window>>)
    ensures r.Err? <==> b == 0
    ensures r.Ok? && b > 0 ==> Tiling(r.value, n)
    ensures r.Ok? && b > 0 ==> |r.value| == BatchCount(n, b).value
    ensures r.Ok? && b > 0 ==> forall i :: 0 <= i < |r.value| ==> r.value[i].length <= b
    ensures r.Ok? && b > 0 ==> forall i :: 0 <= i < |r.value| - 1 ==> r.value[i].length == b
    ensures r.Ok? && b < 0 ==> r.value == []
  {
    match BatchCount(n, b)
    case Err(e) => Err(e)
    case Ok(k) =>
      if k <= 0 then
        assert b > 0 ==> n == 0;
        Ok([])
      else
        BatchWindowsTiling(n, b, k);
        Ok(BatchWindows(n, b, k))
  }

  /** The slices of tiling windows, read back in order, give the rows they cover. */
  lemma {:induction false} TilingConcat<T>(s: seq<T>, ws: seq<Window>, n: nat)
    requires Tiling(ws, n) && n <= |s|
    ensures Concat(Slices(s, ws)) == s[..n]
    decreases |ws|
  {
    if |ws| > 0 {
      var init := ws[..|ws| - 1];
      var last := ws[|ws| - 1];
      assert Slices(s, ws)[..|ws| - 1] == Slices(s, init);
      assert Tiling(init, last.start) by {
        if |init| > 0 {
          assert End(init[|init| - 1]) == last.start;
        }
      }
      TilingConcat(s, init, last.start);
      assert s[..last.start] + s[last.start..n] == s[..n];
    }
  }

  /** `x` is in some batch. */
  lemma {:induction false} ConcatMember<T>(bs: seq<seq<T>>, x: T)
    requires x in Concat(bs)
    ensures exists i :: 0 <= i < |bs| && x in bs[i]
    decreases |bs|
  {
    var init := bs[..|bs| - 1];
    if x !in bs[|bs| - 1] {
      ConcatMember(init, x);
      var i :| 0 <= i < |init| && x in init[i];
      assert x in bs[i];
    }
  }

  /** The batches of the current `save_controls`. */
  function Batches<T>(pairs: seq<T>, b: int): (r: Result<seq<seq<T>>>)
    ensures r.Err? <==> b == 0
    ensures r.Ok? && b < 0 ==> r.value == []
    ensures r.Ok? && b > 0 ==> |r.value| == BatchCount(|pairs|, b).value
    ensures r.Ok? ==> forall i :: 0 <= i < |r.value| ==> 1 <= |r.value[i]| && |r.value[i]| <= b
    ensures r.Ok? ==> forall i :: 0 <= i < |r.value| - 1 ==> |r.value[i]| == b
  {
    match Windows(|pairs|, b)
    case Err(e) => Err(e)
    case Ok(ws) =>
      var bs := Slices(pairs, ws);
      forall i | 0 <= i < |ws|
        ensures 1 <= |bs[i]| <= b
        ensures i < |ws| - 1 ==> |bs[i]| == b
      {
        if i < |ws| - 1 {
          assert End(ws[i]) == ws[i + 1].start;
          TilingEndsWithin(ws, |pairs|, i);
        }
      }
      Ok(bs)
  }

  /** Every window of a tiling of `[0, n)` ends within it. */
  lemma {:induction false} TilingEndsWithin(ws: seq<Window>, n: nat, i: nat)
    requires Tiling(ws, n) && i < |ws|
    ensures End(ws[i]) <= n
    decreases |ws| - i
  {
    if i < |ws| - 1 {
      TilingEndsWithin(ws, n, i + 1);
    }
  }

  /** With a positive batch size the batches cut the pairs into consecutive
      pieces: read back in order they are the pairs, each row exactly once. */
  lemma BatchesPartition<T>(pairs: seq<T>, b: int)
    requires b > 0
    ensures Batches(pairs, b).Ok?
    ensures Concat(Batches(pairs, b).value) == pairs
  {
    var ws := Windows(|pairs|, b).value;
    TilingConcat(pairs, ws, |pairs|);
    assert pairs[..|pairs|] == pairs;
  }

  /** The output files of the current `save_controls`: for every batch, its
      controls with the controls citing the cited patent removed. */
  function SaveControls(patents: seq<Patent>, pairs: seq<Pair>, citations: seq<Citation>,
                        duration: int, searchRange: int, b: int): (r: Result<seq<seq<Triple>>>)
    ensures r.Err? <==> b == 0
    ensures r.Ok? ==> |r.value| == |Batches(pairs, b).value|
    ensures r.Ok? ==> forall i, t :: 0 <= i < |r.value| && t in r.value[i] ==>
      t.control != t.citing && t.control != t.cited && !ControlCitesCited(citations, t)
  {
    match Batches(pairs, b)
    case Err(e) => Err(e)
    case Ok(bs) =>
      Ok(seq(|bs|, i requires 0 <= i < |bs| =>
        RemoveCited(MakeControls(patents, bs[i], DefaultBaseYear, duration, searchRange), citations)))
  }

  /** A control triple of a batch is a control triple of all the pairs. */
  lemma BatchControlIsControl(patents: seq<Patent>, pairs: seq<Pair>, batch: seq<Pair>,
                              baseYear: int, duration: int, searchRange: int, t: Triple)
    requires forall x :: x in batch ==> x in pairs
    requires IsControl(patents, batch, baseYear, duration, searchRange, t)
    ensures IsControl(patents, pairs, baseYear, duration, searchRange, t)
  {
    var pr, a, q, c :| ControlWitness(patents, batch, baseYear, duration, searchRange, pr, a, q, c, t);
    assert ControlWitness(patents, pairs, baseYear, duration, searchRange, pr, a, q, c, t);
  }

  /** A control triple of all the pairs is one of the batch holding its pair. */
  lemma ControlInSomeBatch(patents: seq<Patent>, bs: seq<seq<Pair>>,
                           baseYear: int, duration: int, searchRange: int, t: Triple)
    requires IsControl(patents, Concat(bs), baseYear, duration, searchRange, t)
    ensures exists i :: 0 <= i < |bs| && IsControl(patents, bs[i], baseYear, duration, searchRange, t)
  {
    var pr, a, q, c :| ControlWitness(patents, Concat(bs), baseYear, duration, searchRange, pr, a, q, c, t);
    ConcatMember(bs, pr);
    var i :| 0 <= i < |bs| && pr in bs[i];
    assert ControlWitness(patents, bs[i], baseYear, duration, searchRange, pr, a, q, c, t);
  }

  /** Batching changes nothing but the file a triple lands in: with a
      positive batch size, a triple is in some output file exactly when it is
      in the output of the unbatched pipeline. */
  lemma SaveControlsComplete(patents: seq<Patent>, pairs: seq<Pair>, citations: seq<Citation>,
                             duration: int, searchRange: int, b: int, t: Triple)
    requires b > 0
    ensures SaveControls(patents, pairs, citations, duration, searchRange, b).Ok?
    ensures (exists i :: 0 <= i < |SaveControls(patents, pairs, citations, duration, searchRange, b).value|
               && t in SaveControls(patents, pairs, citations, duration, searchRange, b).value[i])
        <==> t in RemoveCited(MakeControls(patents, pairs, DefaultBaseYear, duration, searchRange), citations)
  {
    var files := SaveControls(patents, pairs, citations, duration, searchRange, b).value;
    if exists i :: 0 <= i < |files| && t in files[i] {
      var i :| 0 <= i < |files| && t in files[i];
      SavedTripleIsControl(patents, pairs, citations, duration, searchRange, b, i, t);
    }
    if t in RemoveCited(MakeControls(patents, pairs, DefaultBaseYear, duration, searchRange), citations) {
      ControlIsSaved(patents, pairs, citations, duration, searchRange, b, t);
    }
  }

  /** A triple in an output file is in the output of the unbatched pipeline. */
  lemma SavedTripleIsControl(patents: seq<Patent>, pairs: seq<Pair>, citations: seq<Citation>,
                             duration: int, searchRange: int, b: int, i: int, t: Triple)
    requires SaveControls(patents, pairs, citations, duration, searchRange, b).Ok?
    requires 0 <= i < |SaveControls(patents, pairs, citations, duration, searchRange, b).value|
    requires t in SaveControls(patents, pairs, citations, duration, searchRange, b).value[i]
    ensures t in RemoveCited(MakeControls(patents, pairs, DefaultBaseYear, duration, searchRange), citations)
  {
    var batch := Batches(pairs, b).value[i];
    assert t in RemoveCited(MakeControls(patents, batch, DefaultBaseYear, duration, searchRange), citations);
    MakeControlsExact(patents, batch, DefaultBaseYear, duration, searchRange, t);
    BatchMembersArePairs(pairs, b, i);
    BatchControlIsControl(patents, pairs, batch, DefaultBaseYear, duration, searchRange, t);
    MakeControlsExact(patents, pairs, DefaultBaseYear, duration, searchRange, t);
  }

  /** A triple in the output of the unbatched pipeline is in some output file. */
  lemma ControlIsSaved(patents: seq<Patent>, pairs: seq<Pair>, citations: seq<Citation>,
                       duration: int, searchRange: int, b: int, t: Triple)
    requires b > 0
    requires t in RemoveCited(MakeControls(patents, pairs, DefaultBaseYear, duration, searchRange), citations)
    ensures exists i :: 0 <= i < |SaveControls(patents, pairs, citations, duration, searchRange, b).value|
               && t in SaveControls(patents, pairs, citations, duration, searchRange, b).value[i]
  {
    var bs := Batches(pairs, b).value;
    BatchesPartition(pairs, b);
    MakeControlsExact(patents, pairs, DefaultBaseYear, duration, searchRange, t);
    ControlInSomeBatch(patents, bs, DefaultBaseYear, duration, searchRange, t);
    var i :| 0 <= i < |bs| && IsControl(patents, bs[i], DefaultBaseYear, duration, searchRange, t);
    BatchControlIsSaved(patents, pairs, citations, duration, searchRange, b, i, t);
  }

  /** A control of batch `i` that does not cite its cited patent is in file `i`. */
  lemma BatchControlIsSaved(patents: seq<Patent>, pairs: seq<Pair>, citations: seq<Citation>,
                            duration: int, searchRange: int, b: int, i: int, t: Triple)
    requires b > 0 && 0 <= i < |Batches(pairs, b).value|
    requires IsControl(patents, Batches(pairs, b).value[i], DefaultBaseYear, duration, searchRange, t)
    requires !ControlCitesCited(citations, t)
    ensures i < |SaveControls(patents, pairs, citations, duration, searchRange, b).value|
    ensures t in SaveControls(patents, pairs, citations, duration, searchRange, b).value[i]
  {
    var batch := Batches(pairs, b).value[i];
    MakeControlsExact(patents, batch, DefaultBaseYear, duration, searchRange, t);
    assert SaveControls(patents, pairs, citations, duration, searchRange, b).value[i]
        == RemoveCited(MakeControls(patents, batch, DefaultBaseYear, duration, searchRange), citations);
  }

  /** Every row of a batch is one of the pairs. */
  lemma BatchMembersArePairs<T>(pairs: seq<T>, b: int, i: int)
    requires Batches(pairs, b).Ok? && 0 <= i < |Batches(pairs, b).value|
    ensures forall x :: x in Batches(pairs, b).value[i] ==> x in pairs
  {
    var ws := Windows(|pairs|, b).value;
    assert Batches(pairs, b).value[i] == Slice(pairs, ws[i]);
  }

  // ---------------------------------------------------------------------------
  // The older save_controls

  /** Window `i` of the older `save_controls`: it starts at `i * b` but takes
      `min((i + 1) * b, k)` rows, `k` being the batch count. */
  function LegacyWindow(b: int, k: int, i: nat): Window
    requires b > 0 && k >= 0
  {
    MulNonNegative(i, b);
    MulNonNegative(i + 1, b);
    Window(i * b, if (i + 1) * b <= k then (i + 1) * b else k)
  }

  /** The windows of the older `save_controls`. */
  function LegacyWindows(n: nat, b: int): (r: Result<seq<Window>>)
    ensures r.Err? <==> b == 0
    ensures r.Ok? ==> |r.value| == BatchCount(n, b).value || (b < 0 && r.value == [])
  {
    match BatchCount(n, b)
    case Err(e) => Err(e)
    case Ok(k) =>
      if k <= 0 then Ok([])
      else Ok(seq(k, i requires 0 <= i < k => LegacyWindow(b, k, i)))
  }

  function LegacyBatches<T>(pairs: seq<T>, b: int): (r: Result<seq<seq<T>>>)
    ensures r.Err? <==> b == 0
    ensures r.Ok? ==> forall i, x :: 0 <= i < |r.value| && x in r.value[i] ==> x in pairs
  {
    match LegacyWindows(|pairs|, b)
    case Err(e) => Err(e)
    case Ok(ws) => Ok(Slices(pairs, ws))
  }

  /** The output files of the older `save_controls`, built on the cross-join
      `make_controls` with its default search range. */
  function LegacySaveControls(patents: seq<Patent>, pairs: seq<Pair>, citations: seq<Citation>,
                              duration: int, b: int): (r: Result<seq<seq<Triple>>>)
    ensures r.Err? <==> b == 0
    ensures r.Ok? ==> |r.value| == |LegacyBatches(pairs, b).value|
  {
    match LegacyBatches(pairs, b)
    case Err(e) => Err(e)
    case Ok(bs) =>
      Ok(seq(|bs|, i requires 0 <= i < |bs| =>
        RemoveCited(MakeControlsCross(patents, bs[i], DefaultBaseYear, duration, LegacySearchRange), citations)))
  }

  /** What the older version writes is never wrong, only incomplete: every
      triple in one of its files is in the output of the unbatched pipeline. */
  lemma LegacySaveControlsSound(patents: seq<Patent>, pairs: seq<Pair>, citations: seq<Citation>,
                                duration: int, b: int, i: int, t: Triple)
    requires LegacySaveControls(patents, pairs, citations, duration, b).Ok?
    requires 0 <= i < |LegacySaveControls(patents, pairs, citations, duration, b).value|
    requires t in LegacySaveControls(patents, pairs, citations, duration, b).value[i]
    ensures t in RemoveCited(MakeControlsCross(patents, pairs, DefaultBaseYear, duration, LegacySearchRange), citations)
  {
    var batch := LegacyBatches(pairs, b).value[i];
    assert t in RemoveCited(MakeControlsCross(patents, batch, DefaultBaseYear, duration, LegacySearchRange), citations);
    JoinWhereMatchesCrossJoin(patents, batch, DefaultBaseYear, duration, LegacySearchRange, t);
    MakeControlsExact(patents, batch, DefaultBaseYear, duration, LegacySearchRange, t);
    BatchControlIsControl(patents, pairs, batch, DefaultBaseYear, duration, LegacySearchRange, t);
    MakeControlsExact(patents, pairs, DefaultBaseYear, duration, LegacySearchRange, t);
    JoinWhereMatchesCrossJoin(patents, pairs, DefaultBaseYear, duration, LegacySearchRange, t);
  }

  /** With 100 pairs and the default batch size 25 there are 4 batches, and
      each takes 4 rows: rows 0-3, 25-28, 50-53 and 75-78. */
  lemma LegacyWindowsHundred()
    ensures LegacyWindows(100, 25) == Ok([Window(0, 4), Window(25, 4), Window(50, 4), Window(75, 4)])
  {
    assert BatchCount(100, 25) == Ok(4);
    var ws := LegacyWindows(100, 25).value;
    assert |ws| == 4;
    assert ws[0] == LegacyWindow(25, 4, 0);
    assert ws[1] == LegacyWindow(25, 4, 1);
    assert ws[2] == LegacyWindow(25, 4, 2);
    assert ws[3] == LegacyWindow(25, 4, 3);
    assert ws == [Window(0, 4), Window(25, 4), Window(50, 4), Window(75, 4)];
  }

  /** Row 4 of 100 distinct pairs reaches no batch of the older version,
      while the current version puts it in a batch. */
  lemma LegacySkipsRow<T>(pairs: seq<T>)
    requires |pairs| == 100 && NoDup(pairs)
    ensures LegacyBatches(pairs, 25).Ok?
    ensures forall batch :: batch in LegacyBatches(pairs, 25).value ==> pairs[4] !in batch
    ensures exists batch :: batch in Batches(pairs, 25).value && pairs[4] in batch
  {
    LegacyWindowsHundred();
    var ws := LegacyWindows(100, 25).value;
    var bs := LegacyBatches(pairs, 25).value;
    forall batch | batch in bs
      ensures pairs[4] !in batch
    {
      var i :| 0 <= i < |bs| && bs[i] == batch;
      assert batch == pairs[ws[i].start..End(ws[i])];
    }
    BatchesPartition(pairs, 25);
    ConcatMember(Batches(pairs, 25).value, pairs[4]);
  }

  /** With 3 pairs and batch size 1 the older version reads rows [0], [1, 2]
      and [2]: row 2 is processed twice. */
  lemma LegacyRepeatsRow<T>(pairs: seq<T>)
    requires |pairs| == 3
    ensures LegacyBatches(pairs, 1).Ok?
    ensures LegacyBatches(pairs, 1).value == [pairs[0..1], pairs[1..3], pairs[2..3]]
    ensures pairs[2] in LegacyBatches(pairs, 1).value[1] && pairs[2] in LegacyBatches(pairs, 1).value[2]
  {
    assert BatchCount(3, 1) == Ok(3);
    var ws := LegacyWindows(3, 1).value;
    assert ws[0] == Window(0, 1);
    assert ws[1] == Window(1, 2);
    assert ws[2] == Window(2, 3);
    var bs := LegacyBatches(pairs, 1).value;
    assert bs[0] == pairs[0..1];
    assert bs[1] == pairs[1..3];
    assert bs[2] == pairs[2..3];
  }
}
