/**
  `filter_classes`: the CPC sections of every patent that occurs in the final
  controls, with a dummy marking the patents that occur as the cited patent.

  The controls are unpivoted into (column, id) rows, each row is left-joined
  with the deduplicated (patent, section) pairs, the column is turned into
  the `cited_dummy`, and the result is deduplicated.
*/
module Classes {
  import opened Records
  import opened Relation

  /** A row of the CPC file, reduced to the patent and its section. */
  datatype ClassRow = ClassRow(patent: PatentId, section: string)

  /** A row of the unpivoted controls: the column it came from and its id. */
  datatype Unpivoted = Unpivoted(variable: Column, value: PatentId)

  /** A row of the left join: `section` is `None` when the id has no class. */
  datatype JoinedRow = JoinedRow(variable: Column, value: PatentId, section: Option<string>)

  /** An output row: `(cpc_section, patent_id, cited_dummy)`. */
  datatype ClassifiedPatent = ClassifiedPatent(section: Option<string>, patent: PatentId, citedDummy: int)

  function CitingCell(t: Triple): Unpivoted {
    Unpivoted(CitingColumn, t.citing)
  }

  function CitedCell(t: Triple): Unpivoted {
    Unpivoted(CitedColumn, t.cited)
  }

  function ControlCell(t: Triple): Unpivoted {
    Unpivoted(ControlColumn, t.control)
  }

  /** `unpivot()` over the three id columns, in column order. */
  function UnpivotAll(controls: seq<Triple>): (r: seq<Unpivoted>)
    ensures |r| == 3 * |controls|
  {
    Map(controls, CitingCell) + Map(controls, CitedCell) + Map(controls, ControlCell)
  }

  /** A row is in the unpivoted frame exactly when some triple holds its id
      in its column. */
  lemma UnpivotAllMember(controls: seq<Triple>, u: Unpivoted)
    ensures u in UnpivotAll(controls) <==> exists t :: t in controls && Cell(t, u.variable) == u.value
  {
    if u in Map(controls, CitingCell) {
      MapSource(controls, CitingCell, u);
    }
    if u in Map(controls, CitedCell) {
      MapSource(controls, CitedCell, u);
    }
    if u in Map(controls, ControlCell) {
      MapSource(controls, ControlCell, u);
    }
    if exists t :: t in controls && Cell(t, u.variable) == u.value {
      var t :| t in controls && Cell(t, u.variable) == u.value;
      match u.variable
      case CitingColumn => assert CitingCell(t) in Map(controls, CitingCell);
      case CitedColumn => assert CitedCell(t) in Map(controls, CitedCell);
      case ControlColumn => assert ControlCell(t) in Map(controls, ControlCell);
    }
  }

  /** The sections the class frame lists for `p`, in order. */
  function SectionsOf(classes: seq<ClassRow>, p: PatentId): (r: seq<string>)
    ensures forall s :: s in r <==> ClassRow(p, s) in classes
  {
    if |classes| == 0 then []
    else
      var rest := SectionsOf(classes[1..], p);
      assert forall c :: c in classes <==> c == classes[0] || c in classes[1..];
      if classes[0].patent == p then [classes[0].section] + rest else rest
  }

  /** Over deduplicated class pairs, a patent's sections are listed once each. */
  lemma {:induction false} SectionsOfNoDup(classes: seq<ClassRow>, p: PatentId)
    requires NoDup(classes)
    ensures NoDup(SectionsOf(classes, p))
  {
    if |classes| > 0 {
      assert NoDup(classes[1..]) by {
        forall i, j | 0 <= i < j < |classes[1..]|
          ensures classes[1..][i] != classes[1..][j]
        {
          assert classes[1..][i] == classes[i + 1] && classes[1..][j] == classes[j + 1];
        }
      }
      SectionsOfNoDup(classes[1..], p);
      if classes[0].patent == p {
        var rest := SectionsOf(classes[1..], p);
        NoDupConcat([classes[0].section], rest);
      }
    }
  }

  /** One joined row per section, all carrying the unpivoted row `u`. */
  function WithSections(u: Unpivoted, sections: seq<string>): (r: seq<JoinedRow>)
    ensures |r| == |sections|
    ensures forall j :: j in r <==> j.variable == u.variable && j.value == u.value && j.section.Some? && j.section.value in sections
  {
    if |sections| == 0 then []
    else
      var rest := WithSections(u, sections[1..]);
      assert forall s :: s in sections <==> s == sections[0] || s in sections[1..];
      [JoinedRow(u.variable, u.value, Some(sections[0]))] + rest
  }

  lemma {:induction false} WithSectionsNoDup(u: Unpivoted, sections: seq<string>)
    requires NoDup(sections)
    ensures NoDup(WithSections(u, sections))
  {
    if |sections| > 0 {
      assert NoDup(sections[1..]) by {
        forall i, j | 0 <= i < j < |sections[1..]|
          ensures sections[1..][i] != sections[1..][j]
        {
          assert sections[1..][i] == sections[i + 1] && sections[1..][j] == sections[j + 1];
        }
      }
      WithSectionsNoDup(u, sections[1..]);
      NoDupConcat([JoinedRow(u.variable, u.value, Some(sections[0]))], WithSections(u, sections[1..]));
    }
  }

  /** The rows a `how="left"` join gives one unpivoted row: one per section of
      its id, or a single row with a null section when there is none. */
  function LeftMatches(classes: seq<ClassRow>, u: Unpivoted): (r: seq<JoinedRow>)
    ensures |r| >= 1
  {
    var sections := SectionsOf(classes, u.value);
    if |sections| == 0 then [JoinedRow(u.variable, u.value, None)]
    else WithSections(u, sections)
  }

  /** `join(classes, left_on="value", right_on="patent_id", how="left")`. */
  function LeftJoin(classes: seq<ClassRow>, unpivoted: seq<Unpivoted>): seq<JoinedRow> {
    FlatMap(unpivoted, (u: Unpivoted) => LeftMatches(classes, u))
  }

  /** `cited_dummy`: 1 for the cited column, 0 for the others. */
  function CitedDummy(c: Column): int {
    if c == CitedColumn then 1 else 0
  }

  /** `select(cpc_section, value as patent_id, cited_dummy)`. */
  function ToClassified(j: JoinedRow): ClassifiedPatent {
    ClassifiedPatent(j.section, j.value, CitedDummy(j.variable))
  }

  /** `filter_classes` on the CPC rows and the controls. */
  function FilterClasses(rawClasses: seq<ClassRow>, controls: seq<Triple>): (r: seq<ClassifiedPatent>)
    ensures NoDup(r)
    ensures forall x :: x in r ==> x.citedDummy == 0 || x.citedDummy == 1
  {
    var joined := LeftJoin(Dedup(rawClasses), Dedup(UnpivotAll(controls)));
    var r := Dedup(Map(joined, ToClassified));
    assert forall x :: x in r ==> x.citedDummy == 0 || x.citedDummy == 1 by {
      forall x | x in r
        ensures x.citedDummy == 0 || x.citedDummy == 1
      {
        MapSource(joined, ToClassified, x);
      }
    }
    r
  }

  // ---------------------------------------------------------------------------
  // The reference definition

  /** `x` is the row of the id in column `c` of triple `t`: the dummy marks the
      cited column, and the section is one the CPC file lists for the id, or
      null when it lists none. */
  predicate ClassifiedWitness(rawClasses: seq<ClassRow>, controls: seq<Triple>, t: Triple, c: Column, x: ClassifiedPatent) {
    && t in controls
    && x.patent == Cell(t, c)
    && x.citedDummy == CitedDummy(c)
    && (x.section.Some? ==> ClassRow(x.patent, x.section.value) in rawClasses)
    && (x.section.None? ==> forall k :: k in rawClasses ==> k.patent != x.patent)
  }

  ghost predicate IsClassified(rawClasses: seq<ClassRow>, controls: seq<Triple>, x: ClassifiedPatent) {
    exists t, c :: ClassifiedWitness(rawClasses, controls, t, c, x)
  }

  /** The joined rows of one unpivoted row are exactly its sections, or the
      null row when its id has no class. */
  lemma LeftMatchesMember(classes: seq<ClassRow>, u: Unpivoted, j: JoinedRow)
    ensures j in LeftMatches(classes, u) <==>
      && j.variable == u.variable && j.value == u.value
      && (j.section.Some? ==> ClassRow(u.value, j.section.value) in classes)
      && (j.section.None? ==> forall k :: k in classes ==> k.patent != u.value)
  {
    var sections := SectionsOf(classes, u.value);
    if |sections| > 0 {
      assert sections[0] in sections;
    } else {
      forall k | k in classes
        ensures k.patent != u.value
      {
        assert k.section !in sections;
      }
    }
  }

  /** Every row of the left join comes from an unpivoted row. */
  lemma LeftJoinSource(classes: seq<ClassRow>, unpivoted: seq<Unpivoted>, j: JoinedRow)
    requires j in LeftJoin(classes, unpivoted)
    ensures exists u :: u in unpivoted && j in LeftMatches(classes, u)
  {
    FlatMapSource(unpivoted, (u: Unpivoted) => LeftMatches(classes, u), j);
  }

  /** Every unpivoted row reaches the left join with each of its matches. */
  lemma LeftJoinHas(classes: seq<ClassRow>, unpivoted: seq<Unpivoted>, u: Unpivoted, j: JoinedRow)
    requires u in unpivoted && j in LeftMatches(classes, u)
    ensures j in LeftJoin(classes, unpivoted)
  {
    var f := (u: Unpivoted) => LeftMatches(classes, u);
    assert j in f(u);
  }

  /** Every output row is the row of some id of the controls. */
  lemma FilterClassesSound(rawClasses: seq<ClassRow>, controls: seq<Triple>, x: ClassifiedPatent)
    requires x in FilterClasses(rawClasses, controls)
    ensures IsClassified(rawClasses, controls, x)
  {
    var unpivoted := Dedup(UnpivotAll(controls));
    var joined := LeftJoin(Dedup(rawClasses), unpivoted);
    MapSource(joined, ToClassified, x);
    var j :| j in joined && x == ToClassified(j);
    LeftJoinSource(Dedup(rawClasses), unpivoted, j);
    var u :| u in unpivoted && j in LeftMatches(Dedup(rawClasses), u);
    LeftMatchesMember(Dedup(rawClasses), u, j);
    UnpivotAllMember(controls, u);
    var t :| t in controls && Cell(t, u.variable) == u.value;
    assert ClassifiedWitness(rawClasses, controls, t, u.variable, x);
  }

  /** Every row the reference definition admits is in the output. */
  lemma FilterClassesComplete(rawClasses: seq<ClassRow>, controls: seq<Triple>, t: Triple, c: Column, x: ClassifiedPatent)
    requires ClassifiedWitness(rawClasses, controls, t, c, x)
    ensures x in FilterClasses(rawClasses, controls)
  {
    var unpivoted := Dedup(UnpivotAll(controls));
    var joined := LeftJoin(Dedup(rawClasses), unpivoted);
    var u := Unpivoted(c, Cell(t, c));
    UnpivotAllMember(controls, u);
    var j := JoinedRow(c, x.patent, x.section);
    LeftMatchesMember(Dedup(rawClasses), u, j);
    LeftJoinHas(Dedup(rawClasses), unpivoted, u, j);
    assert ToClassified(j) == x;
    assert ToClassified(j) in Map(joined, ToClassified);
  }

  /** The output is exactly the reference set of rows. */
  lemma FilterClassesExact(rawClasses: seq<ClassRow>, controls: seq<Triple>, x: ClassifiedPatent)
    ensures x in FilterClasses(rawClasses, controls) <==> IsClassified(rawClasses, controls, x)
  {
    if x in FilterClasses(rawClasses, controls) {
      FilterClassesSound(rawClasses, controls, x);
    }
    if IsClassified(rawClasses, controls, x) {
      var t, c :| ClassifiedWitness(rawClasses, controls, t, c, x);
      FilterClassesComplete(rawClasses, controls, t, c, x);
    }
  }

  /** Every id of every column of the controls appears in the output with its
      column's dummy: with each of its sections, or with a null section when
      it has none. */
  lemma EveryIdClassified(rawClasses: seq<ClassRow>, controls: seq<Triple>, t: Triple, c: Column)
    requires t in controls
    ensures exists x :: x in FilterClasses(rawClasses, controls) && x.patent == Cell(t, c) && x.citedDummy == CitedDummy(c)
    ensures forall s :: ClassRow(Cell(t, c), s) in rawClasses ==>
      ClassifiedPatent(Some(s), Cell(t, c), CitedDummy(c)) in FilterClasses(rawClasses, controls)
  {
    var p := Cell(t, c);
    forall s | ClassRow(p, s) in rawClasses
      ensures ClassifiedPatent(Some(s), p, CitedDummy(c)) in FilterClasses(rawClasses, controls)
    {
      FilterClassesComplete(rawClasses, controls, t, c, ClassifiedPatent(Some(s), p, CitedDummy(c)));
    }
    if forall k :: k in rawClasses ==> k.patent != p {
      FilterClassesComplete(rawClasses, controls, t, c, ClassifiedPatent(None, p, CitedDummy(c)));
    } else {
      var k :| k in rawClasses && k.patent == p;
      assert ClassRow(p, k.section) == k;
      FilterClassesComplete(rawClasses, controls, t, c, ClassifiedPatent(Some(k.section), p, CitedDummy(c)));
    }
  }

  /** Because the class pairs and the unpivoted rows are deduplicated first,
      the left join itself repeats no row: a pair listed twice in the CPC file
      does not double an id's rows. */
  lemma LeftJoinNoDup(rawClasses: seq<ClassRow>, controls: seq<Triple>)
    ensures NoDup(LeftJoin(Dedup(rawClasses), Dedup(UnpivotAll(controls))))
  {
    var classes := Dedup(rawClasses);
    var unpivoted := Dedup(UnpivotAll(controls));
    var f := (u: Unpivoted) => LeftMatches(classes, u);
    forall u | u in unpivoted
      ensures NoDup(f(u))
    {
      var sections := SectionsOf(classes, u.value);
      if |sections| > 0 {
        SectionsOfNoDup(classes, u.value);
        WithSectionsNoDup(u, sections);
      }
    }
    forall u, v, j | u in unpivoted && v in unpivoted && u != v && j in f(u)
      ensures j !in f(v)
    {
      LeftMatchesMember(classes, u, j);
      LeftMatchesMember(classes, v, j);
    }
    FlatMapNoDup(unpivoted, f);
  }
}
