/**
  The quasi-experimental design: originating patents, treated (citing, cited)
  pairs, candidate controls for each pair, and the removal of candidates that
  themselves cite the cited patent.
*/
module Controls {
  import opened Records
  import opened Relation

  // ---------------------------------------------------------------------------
  // Originating patents

  /** The grouping key of `make_originating`. */
  datatype PatentKey = PatentKey(id: PatentId, assignee: AssigneeId, grantDate: Day, applicationDate: Day)

  function KeyOf(x: PatentRow): PatentKey {
    PatentKey(x.patent, x.assignee, x.grantDate, x.applicationDate)
  }

  function PatentKeyOf(q: Patent): PatentKey {
    PatentKey(q.id, q.assignee, q.grantDate, q.applicationDate)
  }

  /** `originating_dummy`: granted between 1 January and 1 February of the base
      year, both days included. */
  function OriginatingDummy(grantDate: Day, baseYear: int): int {
    if Between(grantDate, Jan1(baseYear), Feb1(baseYear)) then 1 else 0
  }

  function InventorOf(x: PatentRow): InventorId {
    x.inventor
  }

  /** The rows of one group, in frame order. */
  function GroupRows(rows: seq<PatentRow>, k: PatentKey): seq<PatentRow> {
    Filter(rows, (x: PatentRow) => KeyOf(x) == k)
  }

  /** One group of `make_originating`: its inventor ids gathered into a list. */
  function Group(rows: seq<PatentRow>, baseYear: int, k: PatentKey): Patent {
    Patent(k.id, k.assignee, k.grantDate, k.applicationDate,
           Map(GroupRows(rows, k), InventorOf), OriginatingDummy(k.grantDate, baseYear))
  }

  /** `make_originating`: one patent per distinct (patent_id, assignee_id,
      grant_date, application_date), carrying the list of its inventors and
      the originating dummy. */
  function MakeOriginating(rows: seq<PatentRow>, baseYear: int): (r: seq<Patent>)
    ensures |r| <= |rows|
    ensures UniqueOn(r, PatentKeyOf)
    ensures forall q :: q in r ==>
      && (q.originatingDummy == 0 || q.originatingDummy == 1)
      && (q.originatingDummy == 1 <==> Jan1(baseYear) <= q.grantDate <= Feb1(baseYear))
  {
    var keys := Dedup(Map(rows, KeyOf));
    var r := Map(keys, k => Group(rows, baseYear, k));
    forall i | 0 <= i < |r|
      ensures PatentKeyOf(r[i]) == keys[i]
    {
      MapAt(keys, k => Group(rows, baseYear, k), i);
    }
    r
  }

  /** Every group of `make_originating` is keyed by some row, and its inventor
      list holds exactly the inventors of the rows with its key. */
  lemma MakeOriginatingGroups(rows: seq<PatentRow>, baseYear: int, q: Patent, i: InventorId)
    requires q in MakeOriginating(rows, baseYear)
    ensures exists x :: x in rows && KeyOf(x) == PatentKeyOf(q)
    ensures i in q.inventors <==> exists x :: x in rows && KeyOf(x) == PatentKeyOf(q) && x.inventor == i
  {
    var keys := Dedup(Map(rows, KeyOf));
    MapSource(keys, k => Group(rows, baseYear, k), q);
    var k :| k in keys && q == Group(rows, baseYear, k);
    MapSource(rows, KeyOf, k);
    if i in q.inventors {
      MapSource(GroupRows(rows, k), InventorOf, i);
    }
    if exists x :: x in rows && KeyOf(x) == k && x.inventor == i {
      var x :| x in rows && KeyOf(x) == k && x.inventor == i;
      assert x in GroupRows(rows, k);
      assert InventorOf(x) in q.inventors;
    }
  }

  /** Every row of the patents frame belongs to a group of `make_originating`. */
  lemma MakeOriginatingCovers(rows: seq<PatentRow>, baseYear: int, x: PatentRow)
    requires x in rows
    ensures exists q :: q in MakeOriginating(rows, baseYear) && PatentKeyOf(q) == KeyOf(x)
  {
    var keys := Dedup(Map(rows, KeyOf));
    assert KeyOf(x) in keys;
    assert Group(rows, baseYear, KeyOf(x)) in MakeOriginating(rows, baseYear);
  }

  // ---------------------------------------------------------------------------
  // Treated pairs

  /** Granted between 1 January of the base year and 1 January of the year
      `duration` later, both days included. */
  predicate InWindow(q: Patent, baseYear: int, duration: int) {
    Between(q.grantDate, Jan1(baseYear), Jan1(baseYear + duration))
  }

  /** The two patents share neither assignee nor any inventor. */
  predicate NotSelfCite(cited: Patent, citing: Patent) {
    cited.assignee != citing.assignee && Disjoint(cited.inventors, citing.inventors)
  }

  function IdOf(q: Patent): PatentId {
    q.id
  }

  function Originating(df: seq<Patent>): seq<Patent> {
    Filter(df, (q: Patent) => q.originatingDummy == 1)
  }

  /** The pairs one originating patent `o` takes part in as the cited side:
      join with the citations on cited_patent_id, join with the potential
      treatment members on citing_patent_id, drop self-cites. */
  function PairsOf(df: seq<Patent>, citations: seq<Citation>, baseYear: int, duration: int, o: Patent): seq<Pair> {
    FlatMap(Filter(citations, (c: Citation) => c.cited == o.id),
      (c: Citation) => Map(
        Filter(df, (p: Patent) => p.id == c.citing && InWindow(p, baseYear, duration) && NotSelfCite(o, p)),
        (p: Patent) => Pair(p.id, o.id)))
  }

  /** The reference definition of a treated pair. */
  predicate IsTreated(df: seq<Patent>, citations: seq<Citation>, baseYear: int, duration: int, t: Pair) {
    exists o: Patent, c: Citation, p: Patent ::
      && o in df && o.originatingDummy == 1
      && c in citations && c.cited == o.id && c.citing == p.id
      && p in df && InWindow(p, baseYear, duration)
      && NotSelfCite(o, p)
      && t == Pair(p.id, o.id)
  }

  /** `make_treated`. The first join is validated "1:m", so two originating
      rows with one patent id are an error. */
  function MakeTreated(df: seq<Patent>, citations: seq<Citation>, baseYear: int, duration: int): (r: Result<seq<Pair>>)
    ensures r.Err? <==> !UniqueOn(Originating(df), IdOf)
    ensures r.Err? ==> r.error == NotOneToMany
  {
    var originating := Originating(df);
    if !UniqueOn(originating, IdOf) then Err(NotOneToMany)
    else Ok(FlatMap(originating, o => PairsOf(df, citations, baseYear, duration, o)))
  }

  lemma PairsOfMember(df: seq<Patent>, citations: seq<Citation>, baseYear: int, duration: int, o: Patent, t: Pair)
    ensures t in PairsOf(df, citations, baseYear, duration, o) <==>
      exists c: Citation, p: Patent :: c in citations && c.cited == o.id && c.citing == p.id
        && p in df && InWindow(p, baseYear, duration) && NotSelfCite(o, p) && t == Pair(p.id, o.id)
  {
    var cs := Filter(citations, (c: Citation) => c.cited == o.id);
    var g := (c: Citation) => Map(
        Filter(df, (p: Patent) => p.id == c.citing && InWindow(p, baseYear, duration) && NotSelfCite(o, p)),
        (p: Patent) => Pair(p.id, o.id));
    if t in PairsOf(df, citations, baseYear, duration, o) {
      FlatMapSource(cs, g, t);
      var c :| c in cs && t in g(c);
      MapSource(Filter(df, (p: Patent) => p.id == c.citing && InWindow(p, baseYear, duration) && NotSelfCite(o, p)),
                (p: Patent) => Pair(p.id, o.id), t);
    }
    if exists c: Citation, p: Patent :: c in citations && c.cited == o.id && c.citing == p.id
        && p in df && InWindow(p, baseYear, duration) && NotSelfCite(o, p) && t == Pair(p.id, o.id) {
      var c: Citation, p: Patent :| c in citations && c.cited == o.id && c.citing == p.id
        && p in df && InWindow(p, baseYear, duration) && NotSelfCite(o, p) && t == Pair(p.id, o.id);
      assert c in cs;
      assert t in g(c);
    }
  }

  /** `make_treated` selects exactly the reference treated pairs: the cited
      patent is originating, the citing one is granted inside the window and
      cites it, and the two are not a self-cite. */
  lemma MakeTreatedExact(df: seq<Patent>, citations: seq<Citation>, baseYear: int, duration: int, t: Pair)
    requires MakeTreated(df, citations, baseYear, duration).Ok?
    ensures t in MakeTreated(df, citations, baseYear, duration).value <==> IsTreated(df, citations, baseYear, duration, t)
  {
    var originating := Originating(df);
    var f := o => PairsOf(df, citations, baseYear, duration, o);
    if t in FlatMap(originating, f) {
      FlatMapSource(originating, f, t);
      var o :| o in originating && t in f(o);
      PairsOfMember(df, citations, baseYear, duration, o, t);
    }
    if IsTreated(df, citations, baseYear, duration, t) {
      var o: Patent, c: Citation, p: Patent :|
        && o in df && o.originatingDummy == 1
        && c in citations && c.cited == o.id && c.citing == p.id
        && p in df && InWindow(p, baseYear, duration)
        && NotSelfCite(o, p)
        && t == Pair(p.id, o.id);
      assert o in originating;
      PairsOfMember(df, citations, baseYear, duration, o, t);
      assert t in f(o);
    }
  }

  /** No treated pair is a self-cite: the two patents behind it have different
      assignees and disjoint inventor lists. */
  lemma TreatedNotSelfCite(df: seq<Patent>, citations: seq<Citation>, baseYear: int, duration: int, t: Pair)
    requires MakeTreated(df, citations, baseYear, duration).Ok?
    requires t in MakeTreated(df, citations, baseYear, duration).value
    ensures exists c :: c in citations && c.citing == t.citing && c.cited == t.cited
    ensures exists o, p ::
      && o in df && p in df && o.id == t.cited && p.id == t.citing
      && o.originatingDummy == 1 && InWindow(p, baseYear, duration)
      && o.assignee != p.assignee && Disjoint(o.inventors, p.inventors)
  {
    MakeTreatedExact(df, citations, baseYear, duration, t);
    var o: Patent, c: Citation, p: Patent :|
      && o in df && o.originatingDummy == 1
      && c in citations && c.cited == o.id && c.citing == p.id
      && p in df && InWindow(p, baseYear, duration)
      && NotSelfCite(o, p)
      && t == Pair(p.id, o.id);
    assert c in citations && c.citing == t.citing && c.cited == t.cited;
  }

  // ---------------------------------------------------------------------------
  // Control candidates

  /** A potential control, with the columns `make_controls` keeps under the
      control_ prefix. */
  datatype Candidate = Candidate(id: PatentId, assignee: AssigneeId, applicationDate: Day, inventors: seq<InventorId>)

  function AsCandidate(q: Patent): Candidate {
    Candidate(q.id, q.assignee, q.applicationDate, q.inventors)
  }

  /** `potential_controls`: the patents granted inside the window. */
  function PotentialControls(patents: seq<Patent>, baseYear: int, duration: int): seq<Candidate> {
    Map(Filter(patents, (q: Patent) => InWindow(q, baseYear, duration)), AsCandidate)
  }

  /** A treated pair with the search window around the citing application date. */
  datatype CitingRow = CitingRow(citing: PatentId, cited: PatentId, minDate: Day, maxDate: Day)

  /** A treated pair with its search window and the cited patent's assignee and inventors. */
  datatype CitedRow = CitedRow(
    citing: PatentId, cited: PatentId, minDate: Day, maxDate: Day,
    citedAssignee: AssigneeId, citedInventors: seq<InventorId>)

  /** The `citing` frame: each treated pair joined with its citing patent's
      application date, shifted by `searchRange` days each way. */
  function CitingWindows(patents: seq<Patent>, treated: seq<Pair>, searchRange: int): seq<CitingRow> {
    FlatMap(treated, (t: Pair) => Map(
      Filter(patents, (q: Patent) => q.id == t.citing),
      (q: Patent) => CitingRow(t.citing, t.cited, q.applicationDate - searchRange, q.applicationDate + searchRange)))
  }

  /** The `cited` frame: each windowed pair joined with its cited patent. */
  function CitedRows(patents: seq<Patent>, citing: seq<CitingRow>): seq<CitedRow> {
    FlatMap(citing, (c: CitingRow) => Map(
      Filter(patents, (q: Patent) => q.id == c.cited),
      (q: Patent) => CitedRow(c.citing, c.cited, c.minDate, c.maxDate, q.assignee, q.inventors)))
  }

  /** The four predicates `join_where` is given. */
  predicate JoinWhereHolds(r: CitedRow, k: Candidate) {
    && Between(k.applicationDate, r.minDate, r.maxDate)
    && r.citing != k.id
    && r.cited != k.id
    && r.citedAssignee != k.assignee
  }

  /** The five predicates of the filter that follows the join: the four
      `join_where` ones again, and no inventor shared with the cited patent. */
  predicate Eligible(r: CitedRow, k: Candidate) {
    JoinWhereHolds(r, k) && Disjoint(r.citedInventors, k.inventors)
  }

  datatype Match = Match(row: CitedRow, control: Candidate)

  function ToTriple(m: Match): Triple {
    Triple(m.row.citing, m.row.cited, m.control.id)
  }

  /** `cited.join_where(potential_controls, ...)`. */
  function JoinWhere(rows: seq<CitedRow>, candidates: seq<Candidate>): seq<Match> {
    FlatMap(rows, (r: CitedRow) => Map(
      Filter(candidates, (k: Candidate) => JoinWhereHolds(r, k)),
      (k: Candidate) => Match(r, k)))
  }

  /** `cited.join(potential_controls, how="cross")`. */
  function CrossJoin(rows: seq<CitedRow>, candidates: seq<Candidate>): seq<Match> {
    FlatMap(rows, (r: CitedRow) => Map(candidates, (k: Candidate) => Match(r, k)))
  }

  function EligibleMatch(m: Match): bool {
    Eligible(m.row, m.control)
  }

  /** `make_controls` as it stands in the features package: a `join_where`,
      the five-predicate filter "to be safe", the triple selected, `unique()`. */
  function MakeControls(patents: seq<Patent>, treated: seq<Pair>, baseYear: int, duration: int, searchRange: int): (r: seq<Triple>)
    ensures NoDup(r)
    ensures forall t :: t in r ==> t.control != t.citing && t.control != t.cited
  {
    var rows := CitedRows(patents, CitingWindows(patents, treated, searchRange));
    var matches := Filter(JoinWhere(rows, PotentialControls(patents, baseYear, duration)), EligibleMatch);
    var r := Dedup(Map(matches, ToTriple));
    forall t | t in r
      ensures t.control != t.citing && t.control != t.cited
    {
      MapSource(matches, ToTriple, t);
    }
    r
  }

  /** `make_controls` as it stands in the older single-module version: a
      cross join and the five-predicate filter, with no `unique()`. */
  function MakeControlsCross(patents: seq<Patent>, treated: seq<Pair>, baseYear: int, duration: int, searchRange: int): (r: seq<Triple>)
    ensures forall t :: t in r ==> t.control != t.citing && t.control != t.cited
  {
    var rows := CitedRows(patents, CitingWindows(patents, treated, searchRange));
    var matches := Filter(CrossJoin(rows, PotentialControls(patents, baseYear, duration)), EligibleMatch);
    var r := Map(matches, ToTriple);
    forall t | t in r
      ensures t.control != t.citing && t.control != t.cited
    {
      MapSource(matches, ToTriple, t);
    }
    r
  }

  lemma JoinWhereMember(rows: seq<CitedRow>, candidates: seq<Candidate>, m: Match)
    ensures m in JoinWhere(rows, candidates) <==> m.row in rows && m.control in candidates && JoinWhereHolds(m.row, m.control)
  {
    var f := (r: CitedRow) => Map(
      Filter(candidates, (k: Candidate) => JoinWhereHolds(r, k)),
      (k: Candidate) => Match(r, k));
    if m in JoinWhere(rows, candidates) {
      FlatMapSource(rows, f, m);
      var r :| r in rows && m in f(r);
      MapSource(Filter(candidates, (k: Candidate) => JoinWhereHolds(r, k)), (k: Candidate) => Match(r, k), m);
    }
    if m.row in rows && m.control in candidates && JoinWhereHolds(m.row, m.control) {
      assert m in f(m.row);
    }
  }

  lemma CrossJoinMember(rows: seq<CitedRow>, candidates: seq<Candidate>, m: Match)
    ensures m in CrossJoin(rows, candidates) <==> m.row in rows && m.control in candidates
  {
    var f := (r: CitedRow) => Map(candidates, (k: Candidate) => Match(r, k));
    if m in CrossJoin(rows, candidates) {
      FlatMapSource(rows, f, m);
      var r :| r in rows && m in f(r);
      MapSource(candidates, (k: Candidate) => Match(r, k), m);
    }
    if m.row in rows && m.control in candidates {
      assert m in f(m.row);
    }
  }

  /** A triple is selected by the join and filter when some joined row and
      some candidate are eligible together and give that triple. */
  predicate SelectedBy(rows: seq<CitedRow>, candidates: seq<Candidate>, t: Triple) {
    exists r, k :: r in rows && k in candidates && Eligible(r, k) && t == Triple(r.citing, r.cited, k.id)
  }

  lemma MakeControlsSelected(patents: seq<Patent>, treated: seq<Pair>, baseYear: int, duration: int, searchRange: int, t: Triple)
    ensures t in MakeControls(patents, treated, baseYear, duration, searchRange) <==>
      SelectedBy(CitedRows(patents, CitingWindows(patents, treated, searchRange)), PotentialControls(patents, baseYear, duration), t)
  {
    var rows := CitedRows(patents, CitingWindows(patents, treated, searchRange));
    var candidates := PotentialControls(patents, baseYear, duration);
    var matches := Filter(JoinWhere(rows, candidates), EligibleMatch);
    if t in Map(matches, ToTriple) {
      MapSource(matches, ToTriple, t);
      var m :| m in matches && t == ToTriple(m);
      JoinWhereMember(rows, candidates, m);
    }
    if SelectedBy(rows, candidates, t) {
      var r, k :| r in rows && k in candidates && Eligible(r, k) && t == Triple(r.citing, r.cited, k.id);
      JoinWhereMember(rows, candidates, Match(r, k));
      assert Match(r, k) in matches;
      assert ToTriple(Match(r, k)) in Map(matches, ToTriple);
    }
  }

  lemma MakeControlsCrossSelected(patents: seq<Patent>, treated: seq<Pair>, baseYear: int, duration: int, searchRange: int, t: Triple)
    ensures t in MakeControlsCross(patents, treated, baseYear, duration, searchRange) <==>
      SelectedBy(CitedRows(patents, CitingWindows(patents, treated, searchRange)), PotentialControls(patents, baseYear, duration), t)
  {
    var rows := CitedRows(patents, CitingWindows(patents, treated, searchRange));
    var candidates := PotentialControls(patents, baseYear, duration);
    var matches := Filter(CrossJoin(rows, candidates), EligibleMatch);
    if t in Map(matches, ToTriple) {
      MapSource(matches, ToTriple, t);
      var m :| m in matches && t == ToTriple(m);
      CrossJoinMember(rows, candidates, m);
    }
    if SelectedBy(rows, candidates, t) {
      var r, k :| r in rows && k in candidates && Eligible(r, k) && t == Triple(r.citing, r.cited, k.id);
      CrossJoinMember(rows, candidates, Match(r, k));
      assert Match(r, k) in matches;
      assert ToTriple(Match(r, k)) in Map(matches, ToTriple);
    }
  }

  /** The refactor from a cross join to `join_where` selects the same set of
      (citing, cited, control) triples; only the new version is duplicate-free. */
  lemma JoinWhereMatchesCrossJoin(patents: seq<Patent>, treated: seq<Pair>, baseYear: int, duration: int, searchRange: int, t: Triple)
    ensures t in MakeControls(patents, treated, baseYear, duration, searchRange)
        <==> t in MakeControlsCross(patents, treated, baseYear, duration, searchRange)
  {
    MakeControlsSelected(patents, treated, baseYear, duration, searchRange, t);
    MakeControlsCrossSelected(patents, treated, baseYear, duration, searchRange, t);
  }

  /** `c` is the `citing` row of the treated pair `pr` joined with its citing patent `a`. */
  predicate CitingWitness(patents: seq<Patent>, treated: seq<Pair>, searchRange: int, pr: Pair, a: Patent, c: CitingRow) {
    pr in treated && a in patents && a.id == pr.citing
    && c == CitingRow(pr.citing, pr.cited, a.applicationDate - searchRange, a.applicationDate + searchRange)
  }

  lemma CitingWindowsMember(patents: seq<Patent>, treated: seq<Pair>, searchRange: int, c: CitingRow)
    ensures c in CitingWindows(patents, treated, searchRange) <==>
      exists pr, a :: CitingWitness(patents, treated, searchRange, pr, a, c)
  {
    if c in CitingWindows(patents, treated, searchRange) {
      CitingWindowsSource(patents, treated, searchRange, c);
    }
    if exists pr, a :: CitingWitness(patents, treated, searchRange, pr, a, c) {
      var pr, a :| CitingWitness(patents, treated, searchRange, pr, a, c);
      CitingWindowsHas(patents, treated, searchRange, pr, a);
    }
  }

  lemma CitingWindowsSource(patents: seq<Patent>, treated: seq<Pair>, searchRange: int, c: CitingRow)
    requires c in CitingWindows(patents, treated, searchRange)
    ensures exists pr, a :: CitingWitness(patents, treated, searchRange, pr, a, c)
  {
    var f := (t: Pair) => Map(
      Filter(patents, (q: Patent) => q.id == t.citing),
      (q: Patent) => CitingRow(t.citing, t.cited, q.applicationDate - searchRange, q.applicationDate + searchRange));
    FlatMapSource(treated, f, c);
    var pr :| pr in treated && c in f(pr);
    MapSource(Filter(patents, (q: Patent) => q.id == pr.citing),
      (q: Patent) => CitingRow(pr.citing, pr.cited, q.applicationDate - searchRange, q.applicationDate + searchRange), c);
    var a :| a in Filter(patents, (q: Patent) => q.id == pr.citing)
      && c == CitingRow(pr.citing, pr.cited, a.applicationDate - searchRange, a.applicationDate + searchRange);
    assert CitingWitness(patents, treated, searchRange, pr, a, c);
  }

  /** `r` is the `cited` row of the windowed pair `c` joined with its cited patent `q`. */
  predicate CitedWitness(patents: seq<Patent>, citing: seq<CitingRow>, c: CitingRow, q: Patent, r: CitedRow) {
    c in citing && q in patents && q.id == c.cited
    && r == CitedRow(c.citing, c.cited, c.minDate, c.maxDate, q.assignee, q.inventors)
  }

  lemma CitedRowsMember(patents: seq<Patent>, citing: seq<CitingRow>, r: CitedRow)
    ensures r in CitedRows(patents, citing) <==> exists c, q :: CitedWitness(patents, citing, c, q, r)
  {
    if r in CitedRows(patents, citing) {
      CitedRowsSource(patents, citing, r);
    }
    if exists c, q :: CitedWitness(patents, citing, c, q, r) {
      var c, q :| CitedWitness(patents, citing, c, q, r);
      CitedRowsHas(patents, citing, c, q);
    }
  }

  lemma CitedRowsSource(patents: seq<Patent>, citing: seq<CitingRow>, r: CitedRow)
    requires r in CitedRows(patents, citing)
    ensures exists c, q :: CitedWitness(patents, citing, c, q, r)
  {
    var f := (c: CitingRow) => Map(
      Filter(patents, (q: Patent) => q.id == c.cited),
      (q: Patent) => CitedRow(c.citing, c.cited, c.minDate, c.maxDate, q.assignee, q.inventors));
    FlatMapSource(citing, f, r);
    var c :| c in citing && r in f(c);
    MapSource(Filter(patents, (q: Patent) => q.id == c.cited),
      (q: Patent) => CitedRow(c.citing, c.cited, c.minDate, c.maxDate, q.assignee, q.inventors), r);
    var q :| q in Filter(patents, (q: Patent) => q.id == c.cited)
      && r == CitedRow(c.citing, c.cited, c.minDate, c.maxDate, q.assignee, q.inventors);
    assert CitedWitness(patents, citing, c, q, r);
  }

  lemma PotentialControlsMember(patents: seq<Patent>, baseYear: int, duration: int, k: Candidate)
    ensures k in PotentialControls(patents, baseYear, duration) <==>
      exists q :: q in patents && InWindow(q, baseYear, duration) && k == AsCandidate(q)
  {
    var window := Filter(patents, (q: Patent) => InWindow(q, baseYear, duration));
    if k in PotentialControls(patents, baseYear, duration) {
      MapSource(window, AsCandidate, k);
    }
    if exists q :: q in patents && InWindow(q, baseYear, duration) && k == AsCandidate(q) {
      var q :| q in patents && InWindow(q, baseYear, duration) && k == AsCandidate(q);
      assert q in window;
    }
  }

  /** The reference definition of a control triple: a treated pair, its citing
      and cited patents, and a control patent granted inside the window whose
      application date lies within `searchRange` days of the citing one, that
      is neither of the pair, and that shares no assignee and no inventor with
      the cited patent. */
  ghost predicate IsControl(patents: seq<Patent>, treated: seq<Pair>, baseYear: int, duration: int, searchRange: int, t: Triple) {
    exists pr, a, q, c :: ControlWitness(patents, treated, baseYear, duration, searchRange, pr, a, q, c, t)
  }

  /** `t` is a control triple for the treated pair `pr`, with `a` its citing
      patent, `q` its cited patent and `c` the control patent. */
  predicate ControlWitness(patents: seq<Patent>, treated: seq<Pair>, baseYear: int, duration: int, searchRange: int,
                           pr: Pair, a: Patent, q: Patent, c: Patent, t: Triple) {
    && pr in treated && a in patents && q in patents && c in patents
    && a.id == pr.citing && q.id == pr.cited
    && InWindow(c, baseYear, duration)
    && Between(c.applicationDate, a.applicationDate - searchRange, a.applicationDate + searchRange)
    && pr.citing != c.id && pr.cited != c.id
    && q.assignee != c.assignee && Disjoint(q.inventors, c.inventors)
    && t == Triple(pr.citing, pr.cited, c.id)
  }

  lemma SelectedByIsControl(patents: seq<Patent>, treated: seq<Pair>, baseYear: int, duration: int, searchRange: int, t: Triple)
    requires SelectedBy(CitedRows(patents, CitingWindows(patents, treated, searchRange)), PotentialControls(patents, baseYear, duration), t)
    ensures IsControl(patents, treated, baseYear, duration, searchRange, t)
  {
    var citing := CitingWindows(patents, treated, searchRange);
    var rows := CitedRows(patents, citing);
    var candidates := PotentialControls(patents, baseYear, duration);
    var r, k :| r in rows && k in candidates && Eligible(r, k) && t == Triple(r.citing, r.cited, k.id);
    CitedRowsMember(patents, citing, r);
    var cr, q :| CitedWitness(patents, citing, cr, q, r);
    CitingWindowsMember(patents, treated, searchRange, cr);
    var pr, a :| CitingWitness(patents, treated, searchRange, pr, a, cr);
    PotentialControlsMember(patents, baseYear, duration, k);
    var c :| c in patents && InWindow(c, baseYear, duration) && k == AsCandidate(c);
    assert Eligible(r, k);
    assert ControlWitness(patents, treated, baseYear, duration, searchRange, pr, a, q, c, t);
  }

  /** A treated pair joined with its citing patent reaches the `citing` frame. */
  lemma CitingWindowsHas(patents: seq<Patent>, treated: seq<Pair>, searchRange: int, pr: Pair, a: Patent)
    requires pr in treated && a in patents && a.id == pr.citing
    ensures CitingRow(pr.citing, pr.cited, a.applicationDate - searchRange, a.applicationDate + searchRange)
      in CitingWindows(patents, treated, searchRange)
  {
    var f := (t: Pair) => Map(
      Filter(patents, (q: Patent) => q.id == t.citing),
      (q: Patent) => CitingRow(t.citing, t.cited, q.applicationDate - searchRange, q.applicationDate + searchRange));
    var own := Filter(patents, (q: Patent) => q.id == pr.citing);
    assert a in own;
    assert CitingRow(pr.citing, pr.cited, a.applicationDate - searchRange, a.applicationDate + searchRange) in f(pr);
  }

  /** A windowed pair joined with its cited patent reaches the `cited` frame. */
  lemma CitedRowsHas(patents: seq<Patent>, citing: seq<CitingRow>, c: CitingRow, q: Patent)
    requires c in citing && q in patents && q.id == c.cited
    ensures CitedRow(c.citing, c.cited, c.minDate, c.maxDate, q.assignee, q.inventors) in CitedRows(patents, citing)
  {
    var f := (c: CitingRow) => Map(
      Filter(patents, (q: Patent) => q.id == c.cited),
      (q: Patent) => CitedRow(c.citing, c.cited, c.minDate, c.maxDate, q.assignee, q.inventors));
    var own := Filter(patents, (p: Patent) => p.id == c.cited);
    assert q in own;
    assert CitedRow(c.citing, c.cited, c.minDate, c.maxDate, q.assignee, q.inventors) in f(c);
  }

  /** A patent granted inside the window is a potential control. */
  lemma PotentialControlsHas(patents: seq<Patent>, baseYear: int, duration: int, c: Patent)
    requires c in patents && InWindow(c, baseYear, duration)
    ensures AsCandidate(c) in PotentialControls(patents, baseYear, duration)
  {
    var window := Filter(patents, (q: Patent) => InWindow(q, baseYear, duration));
    assert c in window;
  }

  /** A control patent for a treated pair, given with its citing and cited
      patents, is selected by the join and the filter. */
  lemma ControlWitnessSelected(patents: seq<Patent>, treated: seq<Pair>, baseYear: int, duration: int, searchRange: int,
                               pr: Pair, a: Patent, q: Patent, c: Patent, t: Triple)
    requires ControlWitness(patents, treated, baseYear, duration, searchRange, pr, a, q, c, t)
    ensures SelectedBy(CitedRows(patents, CitingWindows(patents, treated, searchRange)),
                       PotentialControls(patents, baseYear, duration), t)
  {
    var citing := CitingWindows(patents, treated, searchRange);
    var rows := CitedRows(patents, citing);
    var candidates := PotentialControls(patents, baseYear, duration);
    var cr := CitingRow(pr.citing, pr.cited, a.applicationDate - searchRange, a.applicationDate + searchRange);
    CitingWindowsHas(patents, treated, searchRange, pr, a);
    CitedRowsHas(patents, citing, cr, q);
    var r := CitedRow(pr.citing, pr.cited, cr.minDate, cr.maxDate, q.assignee, q.inventors);
    var k := AsCandidate(c);
    PotentialControlsHas(patents, baseYear, duration, c);
    assert Eligible(r, k);
    assert r in rows && k in candidates && t == Triple(r.citing, r.cited, k.id);
  }

  lemma IsControlSelectedBy(patents: seq<Patent>, treated: seq<Pair>, baseYear: int, duration: int, searchRange: int, t: Triple)
    requires IsControl(patents, treated, baseYear, duration, searchRange, t)
    ensures SelectedBy(CitedRows(patents, CitingWindows(patents, treated, searchRange)), PotentialControls(patents, baseYear, duration), t)
  {
    var pr, a, q, c :| ControlWitness(patents, treated, baseYear, duration, searchRange, pr, a, q, c, t);
    ControlWitnessSelected(patents, treated, baseYear, duration, searchRange, pr, a, q, c, t);
  }

  /** `make_controls` selects exactly the reference control triples, each once. */
  lemma MakeControlsExact(patents: seq<Patent>, treated: seq<Pair>, baseYear: int, duration: int, searchRange: int, t: Triple)
    ensures t in MakeControls(patents, treated, baseYear, duration, searchRange)
        <==> IsControl(patents, treated, baseYear, duration, searchRange, t)
  {
    MakeControlsSelected(patents, treated, baseYear, duration, searchRange, t);
    if t in MakeControls(patents, treated, baseYear, duration, searchRange) {
      SelectedByIsControl(patents, treated, baseYear, duration, searchRange, t);
    }
    if IsControl(patents, treated, baseYear, duration, searchRange, t) {
      IsControlSelectedBy(patents, treated, baseYear, duration, searchRange, t);
    }
  }

  // ---------------------------------------------------------------------------
  // Removing controls that cite the cited patent

  /** The control of `t` itself cites the cited patent of `t`. */
  predicate ControlCitesCited(citations: seq<Citation>, t: Triple) {
    exists c :: c in citations && c.citing == t.control && c.cited == t.cited
  }

  /** `remove_cited`: the anti join on (cited_patent_id, control_patent_id)
      against the citation edges, with citing_patent_id read as the control. */
  function RemoveCited(df: seq<Triple>, citations: seq<Citation>): (r: seq<Triple>)
    ensures |r| <= |df|
    ensures forall t :: t in r <==> t in df && !ControlCitesCited(citations, t)
  {
    Filter(df, (t: Triple) => !ControlCitesCited(citations, t))
  }

  /** The anti join leaves every other row as it was: each surviving triple
      occurs exactly as often as in the input. */
  lemma RemoveCitedKeepsRows(df: seq<Triple>, citations: seq<Citation>, t: Triple)
    ensures multiset(RemoveCited(df, citations))[t] ==
      if ControlCitesCited(citations, t) then 0 else multiset(df)[t]
  {
    FilterCount(df, (t: Triple) => !ControlCitesCited(citations, t), t);
  }
}
