/**
  Loading and cleaning the patents frame, and filtering the citation table to
  the patents that survive.
*/
module Patents {
  import opened Records
  import opened Relation

  /** Some column of the raw row is null (`any_horizontal(is_null())`). */
  predicate HasNull(r: RawPatentRow) {
    || r.patent.None? || r.grantDate.None? || r.applicationDate.None?
    || r.abstractText.None? || r.inventor.None? || r.inventorLocation.None?
    || r.inventorSequence.None? || r.inventorCountry.None? || r.assignee.None?
    || r.assigneeOrganization.None? || r.assigneeLocation.None?
  }

  /** No row of patent `p` has a null: the group's `missing` sum is 0. */
  predicate Complete(raw: seq<RawPatentRow>, p: PatentId) {
    forall r :: r in raw && r.patent == Some(p) ==> !HasNull(r)
  }

  /** The columns `load_patents` keeps, renamed (patent_date is the grant date,
      patent_earliest_application_date the application date). */
  function Project(r: RawPatentRow): PatentRow {
    PatentRow(
      r.patent.GetOr(""), r.grantDate.GetOr(0), r.applicationDate.GetOr(0),
      r.abstractText.GetOr(""), r.inventor.GetOr(""), r.assignee.GetOr(""))
  }

  function PatentInventor(x: PatentRow): (PatentId, InventorId) {
    (x.patent, x.inventor)
  }

  /** A raw row that survives the null check: its patent has no null anywhere. */
  predicate KeptRaw(raw: seq<RawPatentRow>, y: RawPatentRow) {
    y.patent.Some? && Complete(raw, y.patent.value)
  }

  /** `load_patents`: the rows of every patent none of whose rows has a null,
      projected, and made unique on (patent_id, inventor_id). Rows with a null
      patent_id form a group of their own whose `missing` sum is positive. */
  function LoadPatents(raw: seq<RawPatentRow>): (r: seq<PatentRow>)
    ensures UniqueOn(r, PatentInventor)
    ensures forall x :: x in r ==> Complete(raw, x.patent)
  {
    var kept := Filter(raw, (y: RawPatentRow) => KeptRaw(raw, y));
    var r := DedupBy(Map(kept, Project), PatentInventor);
    forall x | x in r
      ensures Complete(raw, x.patent)
    {
      MapSource(kept, Project, x);
    }
    r
  }

  /** Every loaded row is the projection of a raw row without nulls. */
  lemma LoadPatentsRowsFromRaw(raw: seq<RawPatentRow>, x: PatentRow)
    requires x in LoadPatents(raw)
    ensures exists y :: y in raw && !HasNull(y) && x == Project(y)
  {
    var kept := Filter(raw, (y: RawPatentRow) => KeptRaw(raw, y));
    MapSource(kept, Project, x);
  }

  /** Every (patent_id, inventor_id) of a patent without nulls is loaded. */
  lemma LoadPatentsKeepsCompletePatents(raw: seq<RawPatentRow>, y: RawPatentRow)
    requires y in raw && y.patent.Some? && Complete(raw, y.patent.value)
    ensures exists x :: x in LoadPatents(raw) && x.patent == y.patent.value && x.inventor == y.inventor.value
  {
    var kept := Filter(raw, (y: RawPatentRow) => KeptRaw(raw, y));
    assert Project(y) in Map(kept, Project);
    DedupByCovers(Map(kept, Project), PatentInventor, Project(y));
  }

  /** A patent has at least one abstract whose length lies in [lo, hi]. */
  predicate InBand(rows: seq<PatentRow>, p: PatentId, lo: int, hi: int) {
    exists x :: x in rows && x.patent == p && Between(|x.abstractText|, lo, hi)
  }

  /** Patent `p` carries two different abstracts that both lie in the band:
      its id would reach the join twice. */
  predicate TwoAbstractsInBand(rows: seq<PatentRow>, lo: int, hi: int) {
    exists x, y :: x in rows && y in rows && x.patent == y.patent
      && x.abstractText != y.abstractText
      && Between(|x.abstractText|, lo, hi) && Between(|y.abstractText|, lo, hi)
  }

  datatype AbstractRow = AbstractRow(patent: PatentId, abstractText: string)

  function AbstractOf(x: PatentRow): AbstractRow {
    AbstractRow(x.patent, x.abstractText)
  }

  function AbstractPatent(a: AbstractRow): PatentId {
    a.patent
  }

  /** The length band filter of `trim_abstracts` (`str.len_chars` in [lo, hi]). */
  function InBandAbstract(lo: int, hi: int): AbstractRow -> bool {
    (a: AbstractRow) => Between(|a.abstractText|, lo, hi)
  }

  /** The ids of the (patent_id, abstract) pairs whose length is in the band,
      one per distinct pair. */
  function BandIds(rows: seq<PatentRow>, lo: int, hi: int): seq<PatentId> {
    Map(Filter(Dedup(Map(rows, AbstractOf)), InBandAbstract(lo, hi)), AbstractPatent)
  }

  lemma BandIdsMembers(rows: seq<PatentRow>, lo: int, hi: int, p: PatentId)
    ensures p in BandIds(rows, lo, hi) <==> InBand(rows, p, lo, hi)
  {
    var abstracts := Dedup(Map(rows, AbstractOf));
    var kept := Filter(abstracts, InBandAbstract(lo, hi));
    if p in BandIds(rows, lo, hi) {
      MapSource(kept, AbstractPatent, p);
      var a :| a in kept && p == AbstractPatent(a);
      MapSource(rows, AbstractOf, a);
    }
    if InBand(rows, p, lo, hi) {
      var y :| y in rows && y.patent == p && Between(|y.abstractText|, lo, hi);
      assert AbstractOf(y) in kept;
    }
  }

  /** The left join of an id column back onto the rows, on patent_id. */
  function JoinOnPatent(ids: seq<PatentId>, rows: seq<PatentRow>): seq<PatentRow> {
    FlatMap(ids, (p: PatentId) => Filter(rows, (x: PatentRow) => x.patent == p))
  }

  lemma JoinOnPatentMembers(ids: seq<PatentId>, rows: seq<PatentRow>, x: PatentRow)
    ensures x in JoinOnPatent(ids, rows) <==> x in rows && x.patent in ids
  {
    var f := (p: PatentId) => Filter(rows, (x: PatentRow) => x.patent == p);
    if x in JoinOnPatent(ids, rows) {
      FlatMapSource(ids, f, x);
    }
    if x in rows && x.patent in ids {
      assert x in f(x.patent);
    }
  }

  /** `trim_abstracts`, with the 1% and 99% quantiles of the abstract lengths
      given as `lo` and `hi`: keeps every row of each patent that has an
      abstract of length in [lo, hi]. The join back is validated "1:m", so a
      patent with two distinct in-band abstracts is an error. */
  function TrimAbstracts(rows: seq<PatentRow>, lo: int, hi: int): (r: Result<seq<PatentRow>>)
    ensures r.Err? <==> TwoAbstractsInBand(rows, lo, hi)
    ensures r.Err? ==> r.error == NotOneToMany
    ensures r.Ok? ==> forall x {:trigger x in r.value} :: x in r.value <==> x in rows && InBand(rows, x.patent, lo, hi)
  {
    var ids := BandIds(rows, lo, hi);
    TrimKeyCheck(rows, lo, hi, Dedup(Map(rows, AbstractOf)),
                 Filter(Dedup(Map(rows, AbstractOf)), InBandAbstract(lo, hi)), ids);
    if !NoDup(ids) then Err(NotOneToMany)
    else
      var joined := JoinOnPatent(ids, rows);
      assert forall x {:trigger x in joined} :: x in joined <==> x in rows && InBand(rows, x.patent, lo, hi) by {
        forall x
          ensures x in joined <==> x in rows && InBand(rows, x.patent, lo, hi)
        {
          JoinOnPatentMembers(ids, rows, x);
          BandIdsMembers(rows, lo, hi, x.patent);
        }
      }
      Ok(joined)
  }

  /** The ids of the in-band abstracts repeat exactly when some patent has two
      distinct in-band abstracts. */
  lemma TrimKeyCheck(rows: seq<PatentRow>, lo: int, hi: int,
                     abstracts: seq<AbstractRow>, kept: seq<AbstractRow>, ids: seq<PatentId>)
    requires abstracts == Dedup(Map(rows, AbstractOf))
    requires kept == Filter(abstracts, InBandAbstract(lo, hi))
    requires ids == Map(kept, AbstractPatent)
    ensures !NoDup(ids) <==> TwoAbstractsInBand(rows, lo, hi)
  {
    if !NoDup(ids) {
      RepeatedIdGivesTwoAbstracts(rows, lo, hi, abstracts, kept, ids);
    }
    if TwoAbstractsInBand(rows, lo, hi) {
      TwoAbstractsGiveRepeatedId(rows, lo, hi, abstracts, kept, ids);
    }
  }

  lemma RepeatedIdGivesTwoAbstracts(rows: seq<PatentRow>, lo: int, hi: int,
                                    abstracts: seq<AbstractRow>, kept: seq<AbstractRow>, ids: seq<PatentId>)
    requires abstracts == Dedup(Map(rows, AbstractOf))
    requires kept == Filter(abstracts, InBandAbstract(lo, hi))
    requires ids == Map(kept, AbstractPatent)
    requires !NoDup(ids)
    ensures TwoAbstractsInBand(rows, lo, hi)
  {
    FilterNoDup(abstracts, InBandAbstract(lo, hi));
    var i, j :| 0 <= i < j < |ids| && ids[i] == ids[j];
    var a, b := kept[i], kept[j];
    MapAt(kept, AbstractPatent, i);
    MapAt(kept, AbstractPatent, j);
    assert a != b;
    assert a in kept && b in kept;
    MapSource(rows, AbstractOf, a);
    MapSource(rows, AbstractOf, b);
    var x :| x in rows && a == AbstractOf(x);
    var y :| y in rows && b == AbstractOf(y);
    assert x.patent == y.patent && x.abstractText != y.abstractText;
  }

  /** A row whose abstract length is in the band survives the trim. */
  lemma InBandKept(rows: seq<PatentRow>, lo: int, hi: int, abstracts: seq<AbstractRow>, kept: seq<AbstractRow>, x: PatentRow)
    requires abstracts == Dedup(Map(rows, AbstractOf))
    requires kept == Filter(abstracts, InBandAbstract(lo, hi))
    requires x in rows && Between(|x.abstractText|, lo, hi)
    ensures AbstractOf(x) in kept
  {
    assert AbstractOf(x) in Map(rows, AbstractOf);
    assert InBandAbstract(lo, hi)(AbstractOf(x));
  }

  lemma TwoAbstractsGiveRepeatedId(rows: seq<PatentRow>, lo: int, hi: int,
                                   abstracts: seq<AbstractRow>, kept: seq<AbstractRow>, ids: seq<PatentId>)
    requires abstracts == Dedup(Map(rows, AbstractOf))
    requires kept == Filter(abstracts, InBandAbstract(lo, hi))
    requires ids == Map(kept, AbstractPatent)
    requires TwoAbstractsInBand(rows, lo, hi)
    ensures !NoDup(ids)
  {
    var x, y :| x in rows && y in rows && x.patent == y.patent
      && x.abstractText != y.abstractText
      && Between(|x.abstractText|, lo, hi) && Between(|y.abstractText|, lo, hi);
    InBandKept(rows, lo, hi, abstracts, kept, x);
    InBandKept(rows, lo, hi, abstracts, kept, y);
    var i :| 0 <= i < |kept| && kept[i] == AbstractOf(x);
    var j :| 0 <= j < |kept| && kept[j] == AbstractOf(y);
    MapAt(kept, AbstractPatent, i);
    MapAt(kept, AbstractPatent, j);
    assert ids[i] == ids[j];
    assert i != j;
  }

  /** The citation categories `filter_citations` keeps, exactly as written;
      note the first literal reads "cite by", not "cited by". */
  const KeptCategories: set<string> := {"cite by examiner", "cited by applicant", "cited by other"}

  /** The literal list with the examiner category spelled as the other two
      are. */
  const IntendedCategories: set<string> := {"cited by examiner", "cited by applicant", "cited by other"}

  function ToCitation(c: RawCitation): Citation {
    Citation(c.patent.GetOr(""), c.citedPatent.GetOr(""), c.category.GetOr(""))
  }

  function PatentIdOf(x: PatentRow): PatentId {
    x.patent
  }

  /** The set of patent ids of the patents frame. */
  predicate IsPatent(patents: seq<PatentRow>, p: PatentId) {
    exists x :: x in patents && x.patent == p
  }

  /** A citation edge `filter_citations` keeps: both ends are patents of the
      frame and the category is one of the kept literals. */
  predicate KeptEdge(patents: seq<PatentRow>, e: Citation, categories: set<string>) {
    IsPatent(patents, e.citing) && IsPatent(patents, e.cited) && e.category in categories
  }

  /** The raw row `c` carries the edge `e`. */
  predicate Carries(c: RawCitation, e: Citation) {
    c.patent == Some(e.citing) && c.citedPatent == Some(e.cited) && c.category == Some(e.category)
  }

  /** The raw rows that survive the two inner joins and the category filter.
      Each join is against the unique id column, so it keeps a matching row
      exactly once, as a filter does. */
  function JoinedCitations(ids: seq<PatentId>, raw: seq<RawCitation>, categories: set<string>): seq<RawCitation> {
    var byCiting := Filter(raw, (c: RawCitation) => c.patent.Some? && c.patent.value in ids);
    var byCited := Filter(byCiting, (c: RawCitation) => c.citedPatent.Some? && c.citedPatent.value in ids);
    Filter(byCited, (c: RawCitation) => c.category.Some? && c.category.value in categories)
  }

  /** `filter_citations` with a given category list: the citation edges
      between two patents of the frame whose category is listed, renamed to
      (citing, cited) and made unique. */
  function FilterCitationsIn(patents: seq<PatentRow>, raw: seq<RawCitation>, categories: set<string>): (r: seq<Citation>)
    ensures NoDup(r)
    ensures forall e :: e in r ==> KeptEdge(patents, e, categories)
  {
    var ids := Dedup(Map(patents, PatentIdOf));
    var r := Dedup(Map(JoinedCitations(ids, raw, categories), ToCitation));
    forall e | e in r
      ensures KeptEdge(patents, e, categories)
    {
      FilterCitationsMember(patents, raw, categories, e);
    }
    r
  }

  /** `filter_citations` as written, with the literal list of the source. */
  function FilterCitations(patents: seq<PatentRow>, raw: seq<RawCitation>): (r: seq<Citation>)
    ensures NoDup(r)
    ensures forall e :: e in r ==> KeptEdge(patents, e, KeptCategories)
  {
    FilterCitationsIn(patents, raw, KeptCategories)
  }

  /** `filter_citations` with the examiner category spelled as intended. */
  function FilterCitationsIntended(patents: seq<PatentRow>, raw: seq<RawCitation>): (r: seq<Citation>)
    ensures NoDup(r)
    ensures forall e :: e in r ==> KeptEdge(patents, e, IntendedCategories)
  {
    FilterCitationsIn(patents, raw, IntendedCategories)
  }

  /** The unique id column of the patents frame holds exactly its patent ids. */
  lemma PatentIdsMember(patents: seq<PatentRow>, p: PatentId)
    ensures p in Dedup(Map(patents, PatentIdOf)) <==> IsPatent(patents, p)
  {
    if p in Map(patents, PatentIdOf) {
      MapSource(patents, PatentIdOf, p);
    }
    if IsPatent(patents, p) {
      var x :| x in patents && x.patent == p;
      assert PatentIdOf(x) in Map(patents, PatentIdOf);
    }
  }

  /** A raw row survives the joins and the filter exactly when both its ids
      are among `ids` and its category is listed. */
  lemma JoinedCitationsMember(ids: seq<PatentId>, raw: seq<RawCitation>, categories: set<string>, c: RawCitation)
    ensures c in JoinedCitations(ids, raw, categories) <==>
      c in raw && c.patent.Some? && c.patent.value in ids && c.citedPatent.Some? && c.citedPatent.value in ids
      && c.category.Some? && c.category.value in categories
  {
  }

  /** An edge is kept exactly when some raw row carries it and it is a kept edge. */
  lemma FilterCitationsMember(patents: seq<PatentRow>, raw: seq<RawCitation>, categories: set<string>, e: Citation)
    ensures e in Dedup(Map(JoinedCitations(Dedup(Map(patents, PatentIdOf)), raw, categories), ToCitation))
        <==> KeptEdge(patents, e, categories) && exists c :: c in raw && Carries(c, e)
  {
    var ids := Dedup(Map(patents, PatentIdOf));
    var joined := JoinedCitations(ids, raw, categories);
    PatentIdsMember(patents, e.citing);
    PatentIdsMember(patents, e.cited);
    if e in Map(joined, ToCitation) {
      MapSource(joined, ToCitation, e);
      var c :| c in joined && e == ToCitation(c);
      JoinedCitationsMember(ids, raw, categories, c);
      assert c in raw && Carries(c, e);
    }
    if KeptEdge(patents, e, categories) && exists c :: c in raw && Carries(c, e) {
      var c :| c in raw && Carries(c, e);
      JoinedCitationsMember(ids, raw, categories, c);
      assert ToCitation(c) in Map(joined, ToCitation);
    }
  }

  /** `filter_citations` in terms of the raw table: the output is exactly the
      set of kept edges some raw row carries. */
  lemma FilterCitationsExact(patents: seq<PatentRow>, raw: seq<RawCitation>, e: Citation)
    ensures e in FilterCitations(patents, raw) <==> KeptEdge(patents, e, KeptCategories) && exists c :: c in raw && Carries(c, e)
  {
    FilterCitationsMember(patents, raw, KeptCategories, e);
  }

  /** With the literal list as written, an edge the examiner added, recorded
      under the category "cited by examiner", is never kept. */
  lemma ExaminerCategoryNotKept(patents: seq<PatentRow>, raw: seq<RawCitation>, e: Citation)
    requires e.category == "cited by examiner"
    ensures e !in FilterCitations(patents, raw)
  {
    assert "cited by examiner" != "cite by examiner";
  }

  /** With the intended list, an examiner's citation between two patents of
      the frame is kept, as the applicant's and the others' are. */
  lemma ExaminerCategoryKept(patents: seq<PatentRow>, raw: seq<RawCitation>, c: RawCitation, e: Citation)
    requires c in raw && Carries(c, e)
    requires e.category == "cited by examiner"
    requires IsPatent(patents, e.citing) && IsPatent(patents, e.cited)
    ensures e in FilterCitationsIntended(patents, raw)
  {
    FilterCitationsMember(patents, raw, IntendedCategories, e);
  }

  /** Under the intended list an edge is kept exactly when some raw row
      carries it between two patents of the frame under one of the three
      categories. */
  lemma FilterCitationsIntendedExact(patents: seq<PatentRow>, raw: seq<RawCitation>, e: Citation)
    ensures e in FilterCitationsIntended(patents, raw) <==> KeptEdge(patents, e, IntendedCategories) && exists c :: c in raw && Carries(c, e)
  {
    FilterCitationsMember(patents, raw, IntendedCategories, e);
  }
}
