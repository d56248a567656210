/**
  `make_locations`: every patent gets one location from its US inventors.

  The inventor rows are sorted by (patent_id, inventor_sequence) and made
  unique on (patent_id, inventor_id, inventor_location_id) keeping the first,
  so that an inventor listed twice at one location keeps its lowest
  sequence. Rule 1 keeps the rows whose location is shared by the most
  inventors of the patent; rule 2 keeps, among those, the rows with the
  lowest sequence. The current version then attaches coordinates with a
  many-to-one join; the older one stops before the join.

  `make_distances` reshapes the matched controls into (parent, child) rows,
  the citing patent tagged as treated and the control as not, and attaches
  both locations.
*/
module Locations {
  import opened Records
  import opened Relation

  /** A row of the raw patents partition, restricted to the columns
      `make_locations` reads. */
  datatype InventorRow = InventorRow(
    patent: PatentId, inventor: InventorId, sequence: int, location: LocationId, country: string)

  /** An inventor row of a US inventor after the column selection. */
  datatype LocRow = LocRow(patent: PatentId, inventor: InventorId, sequence: int, location: LocationId)

  // ---------------------------------------------------------------------------
  // Sorting by (patent_id, inventor_sequence)

  /** Lexicographic order of strings by character code, as polars sorts `Utf8`. */
  predicate StrLe(a: string, b: string)
    decreases |a|
  {
    if |a| == 0 then true
    else if |b| == 0 then false
    else a[0] < b[0] || (a[0] == b[0] && StrLe(a[1..], b[1..]))
  }

  lemma {:induction false} StrLeTotal(a: string, b: string)
    ensures StrLe(a, b) || StrLe(b, a)
    decreases |a|
  {
    if |a| > 0 && |b| > 0 && a[0] == b[0] {
      StrLeTotal(a[1..], b[1..]);
    }
  }

  lemma {:induction false} StrLeTrans(a: string, b: string, c: string)
    requires StrLe(a, b) && StrLe(b, c)
    ensures StrLe(a, c)
    decreases |a|
  {
    if |a| > 0 && |b| > 0 && |c| > 0 && a[0] == b[0] && b[0] == c[0] {
      StrLeTrans(a[1..], b[1..], c[1..]);
    }
  }

  lemma {:induction false} StrLeAntisym(a: string, b: string)
    requires StrLe(a, b) && StrLe(b, a)
    ensures a == b
    decreases |a|
  {
    if |a| > 0 {
      StrLeAntisym(a[1..], b[1..]);
      assert a == [a[0]] + a[1..] && b == [b[0]] + b[1..];
    }
  }

  /** The sort order: by patent id, then by inventor sequence. */
  predicate SortLe(x: LocRow, y: LocRow) {
    if x.patent == y.patent then x.sequence <= y.sequence else StrLe(x.patent, y.patent)
  }

  lemma SortLeTotal(x: LocRow, y: LocRow)
    ensures SortLe(x, y) || SortLe(y, x)
  {
    StrLeTotal(x.patent, y.patent);
  }

  lemma SortLeTrans(x: LocRow, y: LocRow, z: LocRow)
    requires SortLe(x, y) && SortLe(y, z)
    ensures SortLe(x, z)
  {
    if x.patent != y.patent && y.patent != z.patent {
      StrLeTrans(x.patent, y.patent, z.patent);
      if x.patent == z.patent {
        StrLeAntisym(x.patent, y.patent);
      }
    }
  }

  predicate Sorted(s: seq<LocRow>) {
    forall i, j :: 0 <= i < j < |s| ==> SortLe(s[i], s[j])
  }

  /** `x` put in front of the first row it sorts before. */
  function Insert(x: LocRow, s: seq<LocRow>): (r: seq<LocRow>)
    requires Sorted(s)
    ensures Sorted(r)
    ensures |r| == |s| + 1
    ensures multiset(r) == multiset(s) + multiset{x}
  {
    if |s| == 0 then [x]
    else if SortLe(x, s[0]) then
      forall j | 0 <= j < |s|
        ensures SortLe(x, s[j])
      {
        if j > 0 {
          SortLeTrans(x, s[0], s[j]);
        }
      }
      [x] + s
    else
      SortLeTotal(x, s[0]);
      var rest := Insert(x, s[1..]);
      assert s == [s[0]] + s[1..];
      forall j | 0 <= j < |rest|
        ensures SortLe(s[0], rest[j])
      {
        assert rest[j] in multiset(rest);
        if rest[j] != x {
          assert rest[j] in multiset(s[1..]);
          var k :| 0 <= k < |s[1..]| && s[1..][k] == rest[j];
          assert s[k + 1] == rest[j];
        }
      }
      [s[0]] + rest
  }

  /** `sort(["patent_id", "inventor_sequence"])`, as an insertion sort. */
  function SortRows(s: seq<LocRow>): (r: seq<LocRow>)
    ensures Sorted(r)
    ensures |r| == |s|
    ensures multiset(r) == multiset(s)
  {
    if |s| == 0 then []
    else
      assert s == [s[0]] + s[1..];
      Insert(s[0], SortRows(s[1..]))
  }

  // ---------------------------------------------------------------------------
  // Deduplicating inventors

  predicate IsUS(x: InventorRow) {
    x.country == "US"
  }

  function ToLocRow(x: InventorRow): LocRow {
    LocRow(x.patent, x.inventor, x.sequence, x.location)
  }

  /** `filter(inventor_country="US")` and the column selection. */
  function USRows(rows: seq<InventorRow>): seq<LocRow> {
    Map(Filter(rows, IsUS), ToLocRow)
  }

  datatype InventorKey = InventorKey(patent: PatentId, inventor: InventorId, location: LocationId)

  function InventorKeyOf(x: LocRow): InventorKey {
    InventorKey(x.patent, x.inventor, x.location)
  }

  /** The sorted US rows made unique on (patent_id, inventor_id,
      inventor_location_id), keeping the first. */
  function Deduplicated(rows: seq<InventorRow>): (r: seq<LocRow>)
    ensures UniqueOn(r, InventorKeyOf)
    ensures forall y :: y in r ==> y in USRows(rows)
  {
    var sorted := SortRows(USRows(rows));
    var r := DedupBy(sorted, InventorKeyOf);
    forall y | y in r
      ensures y in USRows(rows)
    {
      assert y in multiset(sorted);
    }
    r
  }

  /** The deduplication keeps the lowest sequence: no US row of the same
      patent, inventor and location has a lower one. */
  lemma DeduplicatedKeepsLowest(rows: seq<InventorRow>, y: LocRow, x: LocRow)
    requires y in Deduplicated(rows) && x in USRows(rows)
    requires InventorKeyOf(x) == InventorKeyOf(y)
    ensures y.sequence <= x.sequence
  {
    var sorted := SortRows(USRows(rows));
    DedupByFirst(sorted, InventorKeyOf, y);
    var i :| 0 <= i < |sorted| && sorted[i] == y
      && forall j :: 0 <= j < i ==> InventorKeyOf(sorted[j]) != InventorKeyOf(y);
    assert x in multiset(sorted);
    var j :| 0 <= j < |sorted| && sorted[j] == x;
    if i < j {
      assert SortLe(sorted[i], sorted[j]);
    }
  }

  /** Every (patent, inventor, location) of the US rows keeps a row. */
  lemma DeduplicatedCovers(rows: seq<InventorRow>, x: LocRow)
    requires x in USRows(rows)
    ensures exists y :: y in Deduplicated(rows) && InventorKeyOf(y) == InventorKeyOf(x)
  {
    var sorted := SortRows(USRows(rows));
    assert x in multiset(sorted);
    DedupByCovers(sorted, InventorKeyOf, x);
  }

  // ---------------------------------------------------------------------------
  // Rules 1 and 2

  function SamePatent(p: PatentId): LocRow -> bool {
    (x: LocRow) => x.patent == p
  }

  function AtLocation(p: PatentId, l: LocationId): LocRow -> bool {
    (x: LocRow) => x.patent == p && x.location == l
  }

  /** `pl.len().over("patent_id", "inventor_location_id")`. */
  function LocationCount(frame: seq<LocRow>, p: PatentId, l: LocationId): int {
    |Filter(frame, AtLocation(p, l))|
  }

  function CountOf(frame: seq<LocRow>): LocRow -> int {
    (x: LocRow) => LocationCount(frame, x.patent, x.location)
  }

  /** `pl.max("count").over("patent_id")`. */
  function ModalCount(frame: seq<LocRow>, p: PatentId): int {
    MaxOr(Map(Filter(frame, SamePatent(p)), CountOf(frame)), 0)
  }

  function IsModal(frame: seq<LocRow>): LocRow -> bool {
    (x: LocRow) => LocationCount(frame, x.patent, x.location) == ModalCount(frame, x.patent)
  }

  function SequenceOf(x: LocRow): int {
    x.sequence
  }

  /** `pl.min("inventor_sequence").over("patent_id")`. */
  function FirstSequence(frame: seq<LocRow>, p: PatentId): int {
    MinOr(Map(Filter(frame, SamePatent(p)), SequenceOf), 0)
  }

  function IsFirst(frame: seq<LocRow>): LocRow -> bool {
    (x: LocRow) => x.sequence == FirstSequence(frame, x.patent)
  }

  /** Location rule 1: the rows at a location shared by the most inventors of the patent. */
  function RuleOne(frame: seq<LocRow>): seq<LocRow> {
    Filter(frame, IsModal(frame))
  }

  /** Location rule 2: the rows with the lowest sequence of the patent. */
  function RuleTwo(frame: seq<LocRow>): seq<LocRow> {
    Filter(frame, IsFirst(frame))
  }

  /** A row kept by rule 1 is at a location no other location of its patent beats. */
  lemma RuleOneModal(frame: seq<LocRow>, y: LocRow, x: LocRow)
    requires y in RuleOne(frame) && x in frame && x.patent == y.patent
    ensures LocationCount(frame, x.patent, x.location) <= LocationCount(frame, y.patent, y.location)
  {
    var group := Filter(frame, SamePatent(y.patent));
    assert x in group;
    assert CountOf(frame)(x) in Map(group, CountOf(frame));
  }

  /** Rule 1 keeps a row of every patent. */
  lemma RuleOneKeepsPatent(frame: seq<LocRow>, x: LocRow)
    requires x in frame
    ensures exists y :: y in RuleOne(frame) && y.patent == x.patent
  {
    var group := Filter(frame, SamePatent(x.patent));
    var counts := Map(group, CountOf(frame));
    assert x in group;
    assert |counts| > 0;
    MapSource(group, CountOf(frame), ModalCount(frame, x.patent));
    var y :| y in group && ModalCount(frame, x.patent) == CountOf(frame)(y);
    assert y in RuleOne(frame);
  }

  /** A row kept by rule 2 has the lowest sequence of its patent. */
  lemma RuleTwoFirst(frame: seq<LocRow>, y: LocRow, x: LocRow)
    requires y in RuleTwo(frame) && x in frame && x.patent == y.patent
    ensures y.sequence <= x.sequence
  {
    var group := Filter(frame, SamePatent(y.patent));
    assert x in group;
    assert SequenceOf(x) in Map(group, SequenceOf);
  }

  /** Rule 2 keeps a row of every patent. */
  lemma RuleTwoKeepsPatent(frame: seq<LocRow>, x: LocRow)
    requires x in frame
    ensures exists y :: y in RuleTwo(frame) && y.patent == x.patent
  {
    var group := Filter(frame, SamePatent(x.patent));
    assert x in group;
    assert |Map(group, SequenceOf)| > 0;
    MapSource(group, SequenceOf, FirstSequence(frame, x.patent));
    var y :| y in group && FirstSequence(frame, x.patent) == SequenceOf(y);
    assert y in RuleTwo(frame);
  }

  /** A patent with its chosen location. */
  datatype PatentLocation = PatentLocation(patent: PatentId, location: LocationId)

  function ToPatentLocation(x: LocRow): PatentLocation {
    PatentLocation(x.patent, x.location)
  }

  function PatentLocationId(x: PatentLocation): PatentId {
    x.patent
  }

  /** The rows both rules keep. */
  function Chosen(rows: seq<InventorRow>): seq<LocRow> {
    RuleTwo(RuleOne(Deduplicated(rows)))
  }

  /** `make_locations` of the older module, and of the current one up to the
      coordinate join. */
  function PatentLocations(rows: seq<InventorRow>): (r: seq<PatentLocation>)
    ensures |r| <= |rows|
  {
    var us := USRows(rows);
    assert |us| <= |rows|;
    var frame := Deduplicated(rows);
    assert |frame| <= |SortRows(us)|;
    assert |RuleOne(frame)| <= |frame|;
    Map(Chosen(rows), ToPatentLocation)
  }

  /** A chosen location of a patent is modal among its inventors (rule 1) and,
      among the modal rows, belongs to the lowest sequence (rule 2). */
  lemma PatentLocationChosen(rows: seq<InventorRow>, pl: PatentLocation)
    requires pl in PatentLocations(rows)
    ensures exists y :: y in Chosen(rows) && ToPatentLocation(y) == pl && ChosenRow(Deduplicated(rows), y)
  {
    MapSource(Chosen(rows), ToPatentLocation, pl);
    var y :| y in Chosen(rows) && pl == ToPatentLocation(y);
    ChosenRowHolds(Deduplicated(rows), y);
  }

  /** `y` is a row of `frame` at a location no other location of its patent
      beats, with the lowest sequence among the rows at such locations. */
  predicate ChosenRow(frame: seq<LocRow>, y: LocRow) {
    && y in RuleOne(frame)
    && (forall x :: x in frame && x.patent == y.patent ==>
          LocationCount(frame, y.patent, x.location) <= LocationCount(frame, y.patent, y.location))
    && (forall x :: x in RuleOne(frame) && x.patent == y.patent ==> y.sequence <= x.sequence)
  }

  lemma ChosenRowHolds(frame: seq<LocRow>, y: LocRow)
    requires y in RuleTwo(RuleOne(frame))
    ensures ChosenRow(frame, y)
  {
    forall x | x in frame && x.patent == y.patent
      ensures LocationCount(frame, y.patent, x.location) <= LocationCount(frame, y.patent, y.location)
    {
      RuleOneModal(frame, y, x);
    }
    forall x | x in RuleOne(frame) && x.patent == y.patent
      ensures y.sequence <= x.sequence
    {
      RuleTwoFirst(RuleOne(frame), y, x);
    }
  }

  /** Every patent with a US inventor gets a location. */
  lemma EveryPatentLocated(rows: seq<InventorRow>, x: LocRow)
    requires x in USRows(rows)
    ensures exists pl :: pl in PatentLocations(rows) && pl.patent == x.patent
  {
    var frame := Deduplicated(rows);
    DeduplicatedCovers(rows, x);
    var d :| d in frame && InventorKeyOf(d) == InventorKeyOf(x);
    RuleOneKeepsPatent(frame, d);
    var m :| m in RuleOne(frame) && m.patent == x.patent;
    RuleTwoKeepsPatent(RuleOne(frame), m);
    var y :| y in Chosen(rows) && y.patent == x.patent;
    assert ToPatentLocation(y) in PatentLocations(rows);
  }

  /** No two US rows of one patent share a sequence unless they are the same row. */
  predicate SequencesDistinct(rows: seq<InventorRow>) {
    forall x, y :: x in USRows(rows) && y in USRows(rows) && x.patent == y.patent && x.sequence == y.sequence ==> x == y
  }

  /** When sequences are distinct within each patent, every patent gets exactly
      one location. */
  lemma OneLocationPerPatent(rows: seq<InventorRow>)
    requires SequencesDistinct(rows)
    ensures UniqueOn(PatentLocations(rows), PatentLocationId)
  {
    var frame := Deduplicated(rows);
    var chosen := Chosen(rows);
    UniqueOnNoDup(frame, InventorKeyOf);
    FilterNoDup(frame, IsModal(frame));
    FilterNoDup(RuleOne(frame), IsFirst(RuleOne(frame)));
    var r := PatentLocations(rows);
    forall i, j | 0 <= i < j < |r|
      ensures PatentLocationId(r[i]) != PatentLocationId(r[j])
    {
      MapAt(chosen, ToPatentLocation, i);
      MapAt(chosen, ToPatentLocation, j);
      assert chosen[i] in chosen && chosen[j] in chosen;
    }
  }

  /** A frame unique on a key has no repeated row. */
  lemma UniqueOnNoDup<T, K>(s: seq<T>, key: T -> K)
    requires UniqueOn(s, key)
    ensures NoDup(s)
  {
    forall i, j | 0 <= i < j < |s|
      ensures s[i] != s[j]
    {
      assert key(s[i]) != key(s[j]);
    }
  }

  // ---------------------------------------------------------------------------
  // Coordinates

  /** A row of the disambiguated locations table. */
  datatype Coordinate = Coordinate(location: LocationId, latitude: real, longitude: real)

  function CoordinateId(c: Coordinate): LocationId {
    c.location
  }

  /** A patent with its location and the location's coordinates: the rows of
      `locations.parquet`. */
  datatype LocatedPatent = LocatedPatent(patent: PatentId, location: LocationId, latitude: real, longitude: real)

  function LocatedPatentId(x: LocatedPatent): PatentId {
    x.patent
  }

  function Locate(pl: PatentLocation, c: Coordinate): LocatedPatent {
    LocatedPatent(pl.patent, pl.location, c.latitude, c.longitude)
  }

  function LocationOf(pl: PatentLocation): LocationId {
    pl.location
  }

  /** `patent_locations.join(locations, on="location_id", validate="m:1")`. */
  function JoinCoordinates(pls: seq<PatentLocation>, coords: seq<Coordinate>): (r: Result<seq<LocatedPatent>>)
    ensures r.Err? <==> !UniqueOn(coords, CoordinateId)
    ensures r.Err? ==> r.error == NotManyToOne
    ensures r.Ok? ==> |r.value| <= |pls|
  {
    if !UniqueOn(coords, CoordinateId) then Err(NotManyToOne)
    else
      InnerJoinManyToOne(pls, coords, LocationOf, CoordinateId, Locate);
      Ok(InnerJoin(pls, coords, LocationOf, CoordinateId, Locate))
  }

  /** A located patent is a chosen patent location with the coordinates of
      that location; one whose location has no coordinates is dropped. */
  lemma JoinCoordinatesMember(pls: seq<PatentLocation>, coords: seq<Coordinate>, x: LocatedPatent)
    requires JoinCoordinates(pls, coords).Ok?
    ensures x in JoinCoordinates(pls, coords).value <==>
      exists pl, c :: pl in pls && c in coords && c.location == pl.location && x == Locate(pl, c)
  {
    if x in JoinCoordinates(pls, coords).value {
      InnerJoinSource(pls, coords, LocationOf, CoordinateId, Locate, x);
    }
    if exists pl, c :: pl in pls && c in coords && c.location == pl.location && x == Locate(pl, c) {
      var pl, c :| pl in pls && c in coords && c.location == pl.location && x == Locate(pl, c);
      InnerJoinHas(pls, coords, LocationOf, CoordinateId, Locate, pl, c);
    }
  }

  /** The current `make_locations`. */
  function MakeLocations(rows: seq<InventorRow>, coords: seq<Coordinate>): (r: Result<seq<LocatedPatent>>)
    ensures r.Err? <==> !UniqueOn(coords, CoordinateId)
    ensures r.Ok? ==> |r.value| <= |rows|
  {
    JoinCoordinates(PatentLocations(rows), coords)
  }

  /** With distinct sequences, `locations.parquet` has at most one row per
      patent, which is what the many-to-one joins of `make_distances` check. */
  lemma MakeLocationsUnique(rows: seq<InventorRow>, coords: seq<Coordinate>)
    requires SequencesDistinct(rows) && UniqueOn(coords, CoordinateId)
    ensures UniqueOn(MakeLocations(rows, coords).value, LocatedPatentId)
  {
    OneLocationPerPatent(rows);
    JoinCoordinatesUnique(PatentLocations(rows), coords);
  }

  /** The coordinate join keeps a frame unique on the patent id. */
  lemma JoinCoordinatesUnique(pls: seq<PatentLocation>, coords: seq<Coordinate>)
    requires UniqueOn(pls, PatentLocationId) && UniqueOn(coords, CoordinateId)
    ensures UniqueOn(JoinCoordinates(pls, coords).value, LocatedPatentId)
  {
    InnerJoinUniqueOn(pls, coords, LocationOf, CoordinateId, Locate, PatentLocationId, LocatedPatentId);
  }

  // ---------------------------------------------------------------------------
  // Distances

  /** A row of the unpivoted controls: the cited patent as parent, the
      citing or the control patent as child, and the treatment dummy. */
  datatype Tagged = Tagged(parent: PatentId, child: PatentId, treatmentDummy: int)

  function CitingChild(t: Triple): Tagged {
    Tagged(t.cited, t.citing, 1)
  }

  function ControlChild(t: Triple): Tagged {
    Tagged(t.cited, t.control, 0)
  }

  /** `unpivot(["citing_patent_id", "control_patent_id"], index="cited_patent_id")`
      with `treatment_dummy`: the citing column's rows, then the control column's. */
  function Unpivot(controls: seq<Triple>): (r: seq<Tagged>)
    ensures |r| == 2 * |controls|
  {
    Map(controls, CitingChild) + Map(controls, ControlChild)
  }

  /** `concat_list(latitude, longitude)`. */
  datatype Point = Point(latitude: real, longitude: real)

  function PointOf(x: LocatedPatent): Point {
    Point(x.latitude, x.longitude)
  }

  /** A row of `matched_patents`, before the distance column. */
  datatype MatchedPatent = MatchedPatent(
    parent: PatentId, parentLocation: Point, child: PatentId, childLocation: Point, treatmentDummy: int)

  /** After the first join: a tagged row with its parent's coordinates. */
  datatype WithParent = WithParent(row: Tagged, parentLocation: Point)

  function TaggedParent(u: Tagged): PatentId {
    u.parent
  }

  function AddParent(u: Tagged, x: LocatedPatent): WithParent {
    WithParent(u, PointOf(x))
  }

  function WithParentChild(w: WithParent): PatentId {
    w.row.child
  }

  function AddChild(w: WithParent, x: LocatedPatent): MatchedPatent {
    MatchedPatent(w.row.parent, w.parentLocation, w.row.child, PointOf(x), w.row.treatmentDummy)
  }

  /** `make_distances` up to the geodesic call: the unpivoted controls joined
      many-to-one with the locations, first on the parent and then on the child. */
  function MakeDistances(controls: seq<Triple>, locations: seq<LocatedPatent>): (r: Result<seq<MatchedPatent>>)
    ensures r.Err? <==> !UniqueOn(locations, LocatedPatentId)
    ensures r.Err? ==> r.error == NotManyToOne
    ensures r.Ok? ==> |r.value| <= 2 * |controls|
  {
    if !UniqueOn(locations, LocatedPatentId) then Err(NotManyToOne)
    else
      var tagged := Unpivot(controls);
      var withParent := InnerJoin(tagged, locations, TaggedParent, LocatedPatentId, AddParent);
      InnerJoinManyToOne(tagged, locations, TaggedParent, LocatedPatentId, AddParent);
      InnerJoinManyToOne(withParent, locations, WithParentChild, LocatedPatentId, AddChild);
      Ok(InnerJoin(withParent, locations, WithParentChild, LocatedPatentId, AddChild))
  }

  /** The reference definition of a `matched_patents` row: a control triple
      whose cited patent and whose citing (treated, dummy 1) or control
      (untreated, dummy 0) patent both have a location. */
  ghost predicate IsMatchedRow(controls: seq<Triple>, locations: seq<LocatedPatent>, m: MatchedPatent) {
    exists t, u, p, c :: MatchedWitness(controls, locations, t, u, p, c, m)
  }

  /** `m` is the row of triple `t`'s child `u`, with `p` the parent's and `c`
      the child's location. */
  predicate MatchedWitness(controls: seq<Triple>, locations: seq<LocatedPatent>, t: Triple, u: Tagged,
                           p: LocatedPatent, c: LocatedPatent, m: MatchedPatent) {
    && t in controls && p in locations && c in locations
    && (u == CitingChild(t) || u == ControlChild(t))
    && p.patent == u.parent && c.patent == u.child
    && m == MatchedPatent(u.parent, PointOf(p), u.child, PointOf(c), u.treatmentDummy)
  }

  lemma UnpivotMember(controls: seq<Triple>, u: Tagged)
    ensures u in Unpivot(controls) <==> exists t :: t in controls && (u == CitingChild(t) || u == ControlChild(t))
  {
    if u in Map(controls, CitingChild) {
      MapSource(controls, CitingChild, u);
    }
    if u in Map(controls, ControlChild) {
      MapSource(controls, ControlChild, u);
    }
  }

  /** `make_distances` emits exactly the matched rows: every control triple
      gives a treated row for its citing patent and an untreated row for its
      control, each dropped when the parent or the child has no location. */
  lemma MakeDistancesExact(controls: seq<Triple>, locations: seq<LocatedPatent>, m: MatchedPatent)
    requires MakeDistances(controls, locations).Ok?
    ensures m in MakeDistances(controls, locations).value <==> IsMatchedRow(controls, locations, m)
  {
    if m in MakeDistances(controls, locations).value {
      MatchedRowSource(controls, locations, m);
    }
    if IsMatchedRow(controls, locations, m) {
      var t, u, p, c :| MatchedWitness(controls, locations, t, u, p, c, m);
      MatchedRowHas(controls, locations, t, u, p, c);
    }
  }

  lemma MatchedRowSource(controls: seq<Triple>, locations: seq<LocatedPatent>, m: MatchedPatent)
    requires MakeDistances(controls, locations).Ok?
    requires m in MakeDistances(controls, locations).value
    ensures IsMatchedRow(controls, locations, m)
  {
    var tagged := Unpivot(controls);
    var withParent := InnerJoin(tagged, locations, TaggedParent, LocatedPatentId, AddParent);
    InnerJoinSource(withParent, locations, WithParentChild, LocatedPatentId, AddChild, m);
    var w, c :| w in withParent && c in locations && c.patent == w.row.child && m == AddChild(w, c);
    InnerJoinSource(tagged, locations, TaggedParent, LocatedPatentId, AddParent, w);
    var u, p :| u in tagged && p in locations && p.patent == u.parent && w == AddParent(u, p);
    UnpivotMember(controls, u);
    var t :| t in controls && (u == CitingChild(t) || u == ControlChild(t));
    assert MatchedWitness(controls, locations, t, u, p, c, m);
  }

  lemma MatchedRowHas(controls: seq<Triple>, locations: seq<LocatedPatent>, t: Triple, u: Tagged, p: LocatedPatent, c: LocatedPatent)
    requires MakeDistances(controls, locations).Ok?
    requires t in controls && p in locations && c in locations
    requires u == CitingChild(t) || u == ControlChild(t)
    requires p.patent == u.parent && c.patent == u.child
    ensures MatchedPatent(u.parent, PointOf(p), u.child, PointOf(c), u.treatmentDummy) in MakeDistances(controls, locations).value
  {
    var tagged := Unpivot(controls);
    var withParent := InnerJoin(tagged, locations, TaggedParent, LocatedPatentId, AddParent);
    UnpivotMember(controls, u);
    InnerJoinHas(tagged, locations, TaggedParent, LocatedPatentId, AddParent, u, p);
    InnerJoinHas(withParent, locations, WithParentChild, LocatedPatentId, AddChild, AddParent(u, p), c);
  }
}
