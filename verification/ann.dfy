/**
  `match_controls`: keep only the potential controls that are among the
  approximate nearest neighbours of their citing patent's abstract embedding.

  The index itself and its query are outside the model: the query is a
  parameter `query(embedding, k)` giving the row indices of the `k`
  neighbours of one embedding. What is modelled is the neighbour count, the
  one-to-one lookup of the citing patents' embeddings, the translation of
  neighbour indices back to patent ids, and the final join.

  `citing_ids` is a lazy `unique()` whose row order is not fixed, and it is
  evaluated twice: once for the embeddings that are queried, once when the
  neighbour lists are attached to it by position. The second evaluation's
  order is the parameter `order`; `MatchControlsAligned` is the version in
  which both agree.
*/
module Ann {
  import opened Records
  import opened Relation

  type Embedding = seq<real>

  /** A row of the embeddings frame: the row number the index knows it by,
      the patent, and its abstract's embedding. */
  datatype EmbeddingRow = EmbeddingRow(index: int, patent: PatentId, embedding: Embedding)

  /** A citing patent with its embedding. */
  datatype CitingEmbedding = CitingEmbedding(citing: PatentId, embedding: Embedding)

  /** One exploded neighbour of a citing patent, still as an index row number. */
  datatype Neighbour = Neighbour(citing: PatentId, neighbour: int)

  /** A citing patent with one neighbour, as a patent id. */
  datatype NeighbourPair = NeighbourPair(citing: PatentId, control: PatentId)

  /** `ceil(n / 100)`: one neighbour per hundred indexed embeddings, rounded up. */
  function NeighbourCount(n: nat): (k: nat)
    ensures n >= 1 ==> k >= 1
    ensures k * 100 >= n
    ensures k * 100 < n + 100
  {
    (n + 99) / 100
  }

  function TripleCiting(t: Triple): PatentId {
    t.citing
  }

  /** `select("citing_patent_id").unique()`. */
  function CitingIds(controls: seq<Triple>): (r: seq<PatentId>)
    ensures NoDup(r)
    ensures forall p :: p in r <==> exists t :: t in controls && t.citing == p
  {
    var r := Dedup(Map(controls, TripleCiting));
    assert forall p :: p in r ==> exists t :: t in controls && t.citing == p by {
      forall p | p in r
        ensures exists t :: t in controls && t.citing == p
      {
        MapSource(controls, TripleCiting, p);
      }
    }
    r
  }

  function EmbeddingPatent(e: EmbeddingRow): PatentId {
    e.patent
  }

  /** Some embeddings row belongs to `p`. */
  predicate HasEmbedding(embeddings: seq<EmbeddingRow>, p: PatentId) {
    exists e :: e in embeddings && e.patent == p
  }

  /** The embedding of the first row for `p`, if there is one. */
  function EmbeddingOf(embeddings: seq<EmbeddingRow>, p: PatentId): (r: Option<Embedding>)
    ensures r.None? <==> !HasEmbedding(embeddings, p)
    ensures r.Some? ==> exists e :: e in embeddings && e.patent == p && e.embedding == r.value
  {
    if |embeddings| == 0 then None
    else if embeddings[0].patent == p then Some(embeddings[0].embedding)
    else
      var rest := EmbeddingOf(embeddings[1..], p);
      assert forall e :: e in embeddings <==> e == embeddings[0] || e in embeddings[1..];
      rest
  }

  /** When the frame is unique on the patent, the embedding found for a
      patent is that of its one row. */
  lemma EmbeddingOfUnique(embeddings: seq<EmbeddingRow>, e: EmbeddingRow)
    requires UniqueOn(embeddings, EmbeddingPatent)
    requires e in embeddings
    ensures EmbeddingOf(embeddings, e.patent) == Some(e.embedding)
  {
    var v := EmbeddingOf(embeddings, e.patent).value;
    var d :| d in embeddings && d.patent == e.patent && d.embedding == v;
    var i :| 0 <= i < |embeddings| && embeddings[i] == e;
    var j :| 0 <= j < |embeddings| && embeddings[j] == d;
    assert EmbeddingPatent(embeddings[i]) == EmbeddingPatent(embeddings[j]);
  }

  /** The `how="left"` join of the citing ids with the embeddings, followed by
      the query's refusal of a missing (null) embedding: one row per id, in
      order, or an error when some id has no embedding. */
  function CitingEmbeddings(ids: seq<PatentId>, embeddings: seq<EmbeddingRow>): (r: Result<seq<CitingEmbedding>>)
    ensures r.Ok? <==> forall p :: p in ids ==> HasEmbedding(embeddings, p)
    ensures r.Err? ==> r.error == NullEmbedding
    ensures r.Ok? ==> |r.value| == |ids|
    ensures r.Ok? ==> forall i :: 0 <= i < |ids| ==> r.value[i].citing == ids[i] && EmbeddingOf(embeddings, ids[i]) == Some(r.value[i].embedding)
  {
    if |ids| == 0 then Ok([])
    else
      assert forall p :: p in ids <==> p == ids[0] || p in ids[1..];
      match EmbeddingOf(embeddings, ids[0])
      case None => Err(NullEmbedding)
      case Some(v) =>
        match CitingEmbeddings(ids[1..], embeddings)
        case Err(e) => Err(e)
        case Ok(rest) =>
          var r := [CitingEmbedding(ids[0], v)] + rest;
          assert forall i :: 1 <= i < |ids| ==> r[i] == rest[i - 1] && ids[i] == ids[1..][i - 1];
          Ok(r)
  }

  /** The looked-up rows are exactly the citing ids with their embeddings. */
  lemma CitingEmbeddingsMember(ids: seq<PatentId>, embeddings: seq<EmbeddingRow>, ce: CitingEmbedding)
    requires CitingEmbeddings(ids, embeddings).Ok?
    ensures ce in CitingEmbeddings(ids, embeddings).value <==> ce.citing in ids && EmbeddingOf(embeddings, ce.citing) == Some(ce.embedding)
  {
    var ces := CitingEmbeddings(ids, embeddings).value;
    if ce.citing in ids && EmbeddingOf(embeddings, ce.citing) == Some(ce.embedding) {
      var i :| 0 <= i < |ids| && ids[i] == ce.citing;
      assert ces[i] == ce;
    }
  }

  /** `explode("neighbour")` of one citing patent's neighbour list. An empty
      list would explode to a null neighbour, which the next join drops, so
      it gives no row here. */
  function Explode(citing: PatentId, neighbours: seq<int>): (r: seq<Neighbour>)
    ensures forall x :: x in r <==> x.citing == citing && x.neighbour in neighbours
  {
    if |neighbours| == 0 then []
    else
      assert forall n :: n in neighbours <==> n == neighbours[0] || n in neighbours[1..];
      [Neighbour(citing, neighbours[0])] + Explode(citing, neighbours[1..])
  }

  /** The query's answer: one neighbour list per looked-up row, at that
      row's position. */
  function NeighbourLists(ces: seq<CitingEmbedding>, query: (Embedding, nat) -> seq<int>, k: nat): (r: seq<seq<int>>)
    ensures |r| == |ces|
    ensures forall i :: 0 <= i < |ces| ==> r[i] == query(ces[i].embedding, k)
  {
    seq(|ces|, i requires 0 <= i < |ces| => query(ces[i].embedding, k))
  }

  /** A row of `citing_ids.with_columns(neighbour=neighbours)`. */
  datatype CitingList = CitingList(citing: PatentId, neighbours: seq<int>)

  /** `citing_ids.with_columns(neighbour=neighbours)`. `citing_ids` is a lazy
      `unique()` and is evaluated again here, so its rows come in `order`,
      which need not be the order the lists were computed in: the list at
      position `i` goes to whichever id this evaluation puts at `i`. */
  function Attach(order: seq<PatentId>, lists: seq<seq<int>>): (r: seq<CitingList>)
    requires |order| == |lists|
    ensures |r| == |order|
    ensures forall i :: 0 <= i < |r| ==> r[i].citing == order[i] && r[i].neighbours == lists[i]
  {
    seq(|order|, i requires 0 <= i < |order| => CitingList(order[i], lists[i]))
  }

  /** `.explode("neighbour")`. */
  function Exploded(attached: seq<CitingList>): seq<Neighbour> {
    FlatMap(attached, (a: CitingList) => Explode(a.citing, a.neighbours))
  }

  function NeighbourIndex(x: Neighbour): int {
    x.neighbour
  }

  function EmbeddingIndex(e: EmbeddingRow): int {
    e.index
  }

  function ToNeighbourPair(x: Neighbour, e: EmbeddingRow): NeighbourPair {
    NeighbourPair(x.citing, e.patent)
  }

  /** `citing_neighbours`: each neighbour row number joined to the row with
      that `index`, which names the control patent. */
  function CitingNeighbours(attached: seq<CitingList>, embeddings: seq<EmbeddingRow>): seq<NeighbourPair> {
    InnerJoin(Exploded(attached), embeddings, NeighbourIndex, EmbeddingIndex, ToNeighbourPair)
  }

  /** Row `a` lists the index of `x`, and `np` names the two. */
  predicate PairWitness(attached: seq<CitingList>, embeddings: seq<EmbeddingRow>, a: CitingList, x: EmbeddingRow, np: NeighbourPair) {
    && a in attached && x in embeddings
    && x.index in a.neighbours
    && np == NeighbourPair(a.citing, x.patent)
  }

  /** Every neighbour pair names the id of a row and the patent of an
      embeddings row whose index that row lists. */
  lemma CitingNeighboursSource(attached: seq<CitingList>, embeddings: seq<EmbeddingRow>, np: NeighbourPair)
    requires np in CitingNeighbours(attached, embeddings)
    ensures exists a, x :: PairWitness(attached, embeddings, a, x, np)
  {
    var exploded := Exploded(attached);
    InnerJoinSource(exploded, embeddings, NeighbourIndex, EmbeddingIndex, ToNeighbourPair, np);
    var n, x :| n in exploded && x in embeddings && EmbeddingIndex(x) == NeighbourIndex(n) && np == ToNeighbourPair(n, x);
    FlatMapSource(attached, (a: CitingList) => Explode(a.citing, a.neighbours), n);
    var a :| a in attached && n in Explode(a.citing, a.neighbours);
    assert PairWitness(attached, embeddings, a, x, np);
  }

  /** Every embeddings row whose index a row lists gives a neighbour pair. */
  lemma CitingNeighboursHas(attached: seq<CitingList>, embeddings: seq<EmbeddingRow>, a: CitingList, x: EmbeddingRow)
    requires a in attached && x in embeddings && x.index in a.neighbours
    ensures NeighbourPair(a.citing, x.patent) in CitingNeighbours(attached, embeddings)
  {
    var f := (a: CitingList) => Explode(a.citing, a.neighbours);
    var n := Neighbour(a.citing, x.index);
    assert n in f(a);
    InnerJoinHas(Exploded(attached), embeddings, NeighbourIndex, EmbeddingIndex, ToNeighbourPair, n, x);
  }

  function TripleKey(t: Triple): NeighbourPair {
    NeighbourPair(t.citing, t.control)
  }

  function PairKey(np: NeighbourPair): NeighbourPair {
    np
  }

  function KeepTriple(t: Triple, np: NeighbourPair): Triple {
    t
  }

  /** The final join of the potential controls with the neighbour pairs, on
      (citing_patent_id, control_patent_id). */
  function KeptControls(controls: seq<Triple>, attached: seq<CitingList>, embeddings: seq<EmbeddingRow>): seq<Triple> {
    InnerJoin(controls, CitingNeighbours(attached, embeddings), TripleKey, PairKey, KeepTriple)
  }

  /** A kept triple is a potential control whose (citing, control) is a
      neighbour pair. */
  lemma KeptControlsSource(controls: seq<Triple>, attached: seq<CitingList>, embeddings: seq<EmbeddingRow>, t: Triple)
    requires t in KeptControls(controls, attached, embeddings)
    ensures t in controls
    ensures NeighbourPair(t.citing, t.control) in CitingNeighbours(attached, embeddings)
  {
    InnerJoinSource(controls, CitingNeighbours(attached, embeddings), TripleKey, PairKey, KeepTriple, t);
  }

  /** `order` is an admissible second evaluation of `citing_ids`: the same
      ids, in any order. */
  predicate Reorders(order: seq<PatentId>, ids: seq<PatentId>) {
    multiset(order) == multiset(ids)
  }

  /** The rows the neighbour lists are attached to, when the first
      evaluation of `citing_ids` looked up `ces` and the second gave `order`. */
  function AttachedRows(order: seq<PatentId>, ces: seq<CitingEmbedding>, embeddings: seq<EmbeddingRow>,
                        query: (Embedding, nat) -> seq<int>): seq<CitingList>
    requires |order| == |ces|
  {
    Attach(order, NeighbourLists(ces, query, NeighbourCount(|embeddings|)))
  }

  /** `match_controls` on the potential controls and the indexed embeddings,
      with `order` the row order of the second evaluation of `citing_ids`.
      The `validate="1:1"` join fails when a patent has two embeddings rows
      (the citing ids are unique by construction); the query fails on a
      citing patent without an embedding. */
  function MatchControls(controls: seq<Triple>, embeddings: seq<EmbeddingRow>, query: (Embedding, nat) -> seq<int>,
                         order: seq<PatentId>): (r: Result<seq<Triple>>)
    requires Reorders(order, CitingIds(controls))
    ensures r.Err? <==> !UniqueOn(embeddings, EmbeddingPatent) || exists t :: t in controls && !HasEmbedding(embeddings, t.citing)
    ensures r.Err? ==> (r.error == NotOneToOne <==> !UniqueOn(embeddings, EmbeddingPatent))
    ensures r.Ok? ==> forall t :: t in r.value ==> t in controls
  {
    var ids := CitingIds(controls);
    assert |order| == |ids| by {
      assert |multiset(order)| == |multiset(ids)|;
    }
    if !UniqueOn(embeddings, EmbeddingPatent) then Err(NotOneToOne)
    else
      match CitingEmbeddings(ids, embeddings)
      case Err(e) => Err(e)
      case Ok(ces) =>
        var out := KeptControls(controls, AttachedRows(order, ces, embeddings, query), embeddings);
        assert forall t :: t in out ==> t in controls by {
          forall t | t in out
            ensures t in controls
          {
            KeptControlsSource(controls, AttachedRows(order, ces, embeddings, query), embeddings, t);
          }
        }
        Ok(out)
  }

  /** The result of a successful run, in terms of its stages. */
  lemma MatchControlsValue(controls: seq<Triple>, embeddings: seq<EmbeddingRow>, query: (Embedding, nat) -> seq<int>,
                           order: seq<PatentId>)
    requires Reorders(order, CitingIds(controls))
    requires MatchControls(controls, embeddings, query, order).Ok?
    ensures CitingEmbeddings(CitingIds(controls), embeddings).Ok?
    ensures |order| == |CitingIds(controls)|
    ensures MatchControls(controls, embeddings, query, order).value
         == KeptControls(controls, AttachedRows(order, CitingEmbeddings(CitingIds(controls), embeddings).value, embeddings, query), embeddings)
  {
    assert |multiset(order)| == |multiset(CitingIds(controls))|;
  }

  // ---------------------------------------------------------------------------
  // The reference definitions

  /** `e` is the embeddings row of `c`, and the query with `k` neighbours
      returns the index of `x`, the row of `p`. */
  predicate NeighbourWitness(embeddings: seq<EmbeddingRow>, query: (Embedding, nat) -> seq<int>, k: nat,
                             e: EmbeddingRow, x: EmbeddingRow, c: PatentId, p: PatentId) {
    && e in embeddings && x in embeddings
    && e.patent == c && x.patent == p
    && x.index in query(e.embedding, k)
  }

  /** `p` is among the `k` nearest neighbours of `c`'s embedding. */
  ghost predicate IsNeighbour(embeddings: seq<EmbeddingRow>, query: (Embedding, nat) -> seq<int>, k: nat, c: PatentId, p: PatentId) {
    exists e, x :: NeighbourWitness(embeddings, query, k, e, x, c, p)
  }

  /** `p` is a neighbour of the id the first evaluation `ids` holds at the
      position where the second evaluation `order` holds `c`: the neighbours
      the source attaches to `c`. */
  ghost predicate AttachedNeighbour(embeddings: seq<EmbeddingRow>, query: (Embedding, nat) -> seq<int>, k: nat,
                                    ids: seq<PatentId>, order: seq<PatentId>, c: PatentId, p: PatentId) {
    exists i :: 0 <= i < |order| && i < |ids| && order[i] == c && IsNeighbour(embeddings, query, k, ids[i], p)
  }

  /** Every neighbour pair of the attached rows names a neighbour of the id
      the looked-up row at the same position belongs to. */
  lemma AttachedPairNeighbour(ids: seq<PatentId>, order: seq<PatentId>, ces: seq<CitingEmbedding>,
                              embeddings: seq<EmbeddingRow>, query: (Embedding, nat) -> seq<int>, np: NeighbourPair)
    requires CitingEmbeddings(ids, embeddings) == Ok(ces)
    requires |order| == |ces|
    requires np in CitingNeighbours(AttachedRows(order, ces, embeddings, query), embeddings)
    ensures AttachedNeighbour(embeddings, query, NeighbourCount(|embeddings|), ids, order, np.citing, np.control)
  {
    var k := NeighbourCount(|embeddings|);
    var attached := AttachedRows(order, ces, embeddings, query);
    CitingNeighboursSource(attached, embeddings, np);
    var a, x :| PairWitness(attached, embeddings, a, x, np);
    var i :| 0 <= i < |attached| && attached[i] == a;
    assert EmbeddingOf(embeddings, ids[i]) == Some(ces[i].embedding);
    var e :| e in embeddings && e.patent == ids[i] && e.embedding == ces[i].embedding;
    assert NeighbourWitness(embeddings, query, k, e, x, ids[i], np.control);
  }

  /** Every kept triple's control is a neighbour of the citing id at its
      row's position in the first evaluation. */
  lemma MatchControlsSound(controls: seq<Triple>, embeddings: seq<EmbeddingRow>, query: (Embedding, nat) -> seq<int>,
                           order: seq<PatentId>, t: Triple)
    requires Reorders(order, CitingIds(controls))
    requires MatchControls(controls, embeddings, query, order).Ok?
    requires t in MatchControls(controls, embeddings, query, order).value
    ensures t in controls
    ensures AttachedNeighbour(embeddings, query, NeighbourCount(|embeddings|), CitingIds(controls), order, t.citing, t.control)
  {
    MatchControlsValue(controls, embeddings, query, order);
    var ids := CitingIds(controls);
    var ces := CitingEmbeddings(ids, embeddings).value;
    var attached := AttachedRows(order, ces, embeddings, query);
    KeptControlsSource(controls, attached, embeddings, t);
    AttachedPairNeighbour(ids, order, ces, embeddings, query, NeighbourPair(t.citing, t.control));
  }

  /** Every potential control whose control is a neighbour of the citing id
      at its row's position in the first evaluation is kept. */
  lemma MatchControlsComplete(controls: seq<Triple>, embeddings: seq<EmbeddingRow>, query: (Embedding, nat) -> seq<int>,
                              order: seq<PatentId>, t: Triple, i: nat, e: EmbeddingRow, x: EmbeddingRow)
    requires Reorders(order, CitingIds(controls))
    requires MatchControls(controls, embeddings, query, order).Ok?
    requires t in controls
    requires i < |order| && i < |CitingIds(controls)| && order[i] == t.citing
    requires NeighbourWitness(embeddings, query, NeighbourCount(|embeddings|), e, x, CitingIds(controls)[i], t.control)
    ensures t in MatchControls(controls, embeddings, query, order).value
  {
    MatchControlsValue(controls, embeddings, query, order);
    var ids := CitingIds(controls);
    var ces := CitingEmbeddings(ids, embeddings).value;
    var attached := AttachedRows(order, ces, embeddings, query);
    EmbeddingOfUnique(embeddings, e);
    assert attached[i] == CitingList(t.citing, query(e.embedding, NeighbourCount(|embeddings|)));
    CitingNeighboursHas(attached, embeddings, attached[i], x);
    InnerJoinHas(controls, CitingNeighbours(attached, embeddings), TripleKey, PairKey, KeepTriple, t, NeighbourPair(t.citing, t.control));
  }

  /** The converse of `MatchControlsSound`, with the witnesses found. */
  lemma MatchControlsAttachedKept(controls: seq<Triple>, embeddings: seq<EmbeddingRow>, query: (Embedding, nat) -> seq<int>,
                                  order: seq<PatentId>, t: Triple)
    requires Reorders(order, CitingIds(controls))
    requires MatchControls(controls, embeddings, query, order).Ok?
    requires t in controls
    requires AttachedNeighbour(embeddings, query, NeighbourCount(|embeddings|), CitingIds(controls), order, t.citing, t.control)
    ensures t in MatchControls(controls, embeddings, query, order).value
  {
    var k := NeighbourCount(|embeddings|);
    var ids := CitingIds(controls);
    var i :| 0 <= i < |order| && i < |ids| && order[i] == t.citing && IsNeighbour(embeddings, query, k, ids[i], t.control);
    var e, x :| NeighbourWitness(embeddings, query, k, e, x, ids[i], t.control);
    MatchControlsComplete(controls, embeddings, query, order, t, i, e, x);
  }

  /** A potential control survives exactly when its control is among the
      nearest neighbours of the citing id its row's neighbour list was
      computed for. */
  lemma MatchControlsExact(controls: seq<Triple>, embeddings: seq<EmbeddingRow>, query: (Embedding, nat) -> seq<int>,
                           order: seq<PatentId>, t: Triple)
    requires Reorders(order, CitingIds(controls))
    requires MatchControls(controls, embeddings, query, order).Ok?
    ensures t in MatchControls(controls, embeddings, query, order).value <==>
      t in controls && AttachedNeighbour(embeddings, query, NeighbourCount(|embeddings|), CitingIds(controls), order, t.citing, t.control)
  {
    if t in MatchControls(controls, embeddings, query, order).value {
      MatchControlsSound(controls, embeddings, query, order, t);
    }
    if t in controls && AttachedNeighbour(embeddings, query, NeighbourCount(|embeddings|), CitingIds(controls), order, t.citing, t.control) {
      MatchControlsAttachedKept(controls, embeddings, query, order, t);
    }
  }

  // ---------------------------------------------------------------------------
  // Attaching the lists to the evaluation they were computed from

  /** `match_controls` with `citing_ids` evaluated once, so that each list
      stays with the id it was computed for. */
  function MatchControlsAligned(controls: seq<Triple>, embeddings: seq<EmbeddingRow>, query: (Embedding, nat) -> seq<int>): (r: Result<seq<Triple>>)
    ensures r.Err? <==> !UniqueOn(embeddings, EmbeddingPatent) || exists t :: t in controls && !HasEmbedding(embeddings, t.citing)
    ensures r.Ok? ==> forall t :: t in r.value ==> t in controls
  {
    MatchControls(controls, embeddings, query, CitingIds(controls))
  }

  /** With one evaluation, a potential control survives exactly when its
      control is among the nearest neighbours of its own citing patent. */
  lemma MatchControlsAlignedExact(controls: seq<Triple>, embeddings: seq<EmbeddingRow>, query: (Embedding, nat) -> seq<int>, t: Triple)
    requires MatchControlsAligned(controls, embeddings, query).Ok?
    ensures t in MatchControlsAligned(controls, embeddings, query).value <==>
      t in controls && IsNeighbour(embeddings, query, NeighbourCount(|embeddings|), t.citing, t.control)
  {
    var k := NeighbourCount(|embeddings|);
    var ids := CitingIds(controls);
    MatchControlsExact(controls, embeddings, query, ids, t);
    if t in controls && IsNeighbour(embeddings, query, k, t.citing, t.control) {
      var i :| 0 <= i < |ids| && ids[i] == t.citing;
      assert AttachedNeighbour(embeddings, query, k, ids, ids, t.citing, t.control);
    }
  }

  // ---------------------------------------------------------------------------
  // Two evaluations in different orders

  const CitingA: PatentId := "A"
  const CitingB: PatentId := "B"
  const ControlC: PatentId := "C"
  const ControlD: PatentId := "D"

  /** Four patents with one-dimensional embeddings; four rows give one
      neighbour per query. */
  const SwapEmbeddings: seq<EmbeddingRow> := [
    EmbeddingRow(0, CitingA, [1.0]), EmbeddingRow(1, CitingB, [2.0]),
    EmbeddingRow(2, ControlC, [3.0]), EmbeddingRow(3, ControlD, [4.0])]

  /** A's nearest neighbour is C, B's is D. */
  function SwapQuery(v: Embedding, k: nat): seq<int> {
    if v == [1.0] then [2] else [3]
  }

  /** Two potential controls that pair each citing patent with the other's neighbour. */
  const SwapControls: seq<Triple> := [Triple(CitingA, "X", ControlD), Triple(CitingB, "X", ControlC)]

  lemma SwapCitingIds()
    ensures CitingIds(SwapControls) == [CitingA, CitingB]
  {
    assert Map(SwapControls, TripleCiting) == [CitingA, CitingB];
    assert [CitingA, CitingB][..1] == [CitingA];
    assert Dedup([CitingA]) == [CitingA];
  }

  /** Every citing patent of the example has its one embeddings row. */
  lemma SwapEmbeddingsOk()
    ensures UniqueOn(SwapEmbeddings, EmbeddingPatent)
    ensures forall t :: t in SwapControls ==> HasEmbedding(SwapEmbeddings, t.citing)
  {
    assert SwapEmbeddings[0] in SwapEmbeddings;
    assert SwapEmbeddings[1] in SwapEmbeddings;
  }

  /** D is not a neighbour of A: A's one row lists only C's index. */
  lemma SwapNotNeighbour()
    ensures !IsNeighbour(SwapEmbeddings, SwapQuery, NeighbourCount(|SwapEmbeddings|), CitingA, ControlD)
  {
  }

  /** If the second evaluation of `citing_ids` comes out in the other order,
      B's neighbour list is attached to A: the potential control (A, X, D)
      is kept although D is not a neighbour of A. */
  lemma MatchControlsMisattributes()
    ensures CitingIds(SwapControls) == [CitingA, CitingB]
    ensures Reorders([CitingB, CitingA], CitingIds(SwapControls))
    ensures MatchControls(SwapControls, SwapEmbeddings, SwapQuery, [CitingB, CitingA]).Ok?
    ensures SwapControls[0] in MatchControls(SwapControls, SwapEmbeddings, SwapQuery, [CitingB, CitingA]).value
    ensures !IsNeighbour(SwapEmbeddings, SwapQuery, NeighbourCount(|SwapEmbeddings|), CitingA, ControlD)
  {
    SwapCitingIds();
    SwapEmbeddingsOk();
    SwapNotNeighbour();
    var ids := [CitingA, CitingB];
    var order := [CitingB, CitingA];
    assert multiset(order) == multiset(ids);
    var k := NeighbourCount(|SwapEmbeddings|);
    assert NeighbourWitness(SwapEmbeddings, SwapQuery, k, SwapEmbeddings[1], SwapEmbeddings[3], ids[1], ControlD);
    MatchControlsComplete(SwapControls, SwapEmbeddings, SwapQuery, order, SwapControls[0], 1, SwapEmbeddings[1], SwapEmbeddings[3]);
  }
}
