/**
  `filter_abstracts`: the (patent, abstract) pairs of the patents that occur
  as a citing or a control patent of some control triple, for embedding.
  The older module also numbers the rows with `with_row_index`, which is how
  the embeddings are later matched back to the index.
*/
module Abstracts {
  import opened Records
  import opened Relation
  import opened Patents

  function CitingOf(t: Triple): PatentId {
    t.citing
  }

  function ControlOf(t: Triple): PatentId {
    t.control
  }

  /** `select("citing_patent_id", "control_patent_id").unpivot().select("value").unique()`. */
  function ControlIds(controls: seq<Triple>): (r: seq<PatentId>)
    ensures NoDup(r)
  {
    Dedup(Map(controls, CitingOf) + Map(controls, ControlOf))
  }

  /** `p` is a citing or a control patent of some triple. */
  ghost predicate MatchedId(controls: seq<Triple>, p: PatentId) {
    exists t :: t in controls && (p == t.citing || p == t.control)
  }

  lemma ControlIdsMember(controls: seq<Triple>, p: PatentId)
    ensures p in ControlIds(controls) <==> MatchedId(controls, p)
  {
    if p in Map(controls, CitingOf) {
      MapSource(controls, CitingOf, p);
    }
    if p in Map(controls, ControlOf) {
      MapSource(controls, ControlOf, p);
    }
    if MatchedId(controls, p) {
      var t :| t in controls && (p == t.citing || p == t.control);
      assert CitingOf(t) in Map(controls, CitingOf);
      assert ControlOf(t) in Map(controls, ControlOf);
    }
  }

  function SelfAbstract(a: AbstractRow): AbstractRow {
    a
  }

  function SelfId(p: PatentId): PatentId {
    p
  }

  /** The inner join keeps the patents-side row as it is. */
  function KeepAbstract(a: AbstractRow, p: PatentId): AbstractRow {
    a
  }

  /** `filter_abstracts`: the unique (patent_id, patent_abstract) rows joined
      with the unique citing and control ids. */
  function FilterAbstracts(rows: seq<PatentRow>, controls: seq<Triple>): (r: seq<AbstractRow>)
    ensures NoDup(r)
  {
    var abstracts := Dedup(Map(rows, AbstractOf));
    var ids := ControlIds(controls);
    NoDupUniqueOn(abstracts);
    NoDupUniqueOn(ids);
    InnerJoinUniqueOn(abstracts, ids, AbstractPatent, SelfId, KeepAbstract, SelfAbstract, SelfAbstract);
    UniqueOnNoDup(InnerJoin(abstracts, ids, AbstractPatent, SelfId, KeepAbstract));
    InnerJoin(abstracts, ids, AbstractPatent, SelfId, KeepAbstract)
  }

  lemma NoDupUniqueOn<T>(s: seq<T>)
    requires NoDup(s)
    ensures UniqueOn(s, (x: T) => x)
  {
  }

  lemma UniqueOnNoDup(s: seq<AbstractRow>)
    requires UniqueOn(s, SelfAbstract)
    ensures NoDup(s)
  {
    forall i, j | 0 <= i < j < |s|
      ensures s[i] != s[j]
    {
      assert SelfAbstract(s[i]) != SelfAbstract(s[j]);
    }
  }

  /** A row is kept exactly when it is the abstract of some patent row and the
      patent is a citing or a control patent; the abstract text is the
      patent's own. */
  lemma FilterAbstractsExact(rows: seq<PatentRow>, controls: seq<Triple>, a: AbstractRow)
    ensures a in FilterAbstracts(rows, controls) <==>
      (exists x :: x in rows && AbstractOf(x) == a) && MatchedId(controls, a.patent)
  {
    var abstracts := Dedup(Map(rows, AbstractOf));
    var ids := ControlIds(controls);
    ControlIdsMember(controls, a.patent);
    if a in FilterAbstracts(rows, controls) {
      InnerJoinSource(abstracts, ids, AbstractPatent, SelfId, KeepAbstract, a);
      MapSource(rows, AbstractOf, a);
    }
    if (exists x :: x in rows && AbstractOf(x) == a) && MatchedId(controls, a.patent) {
      var x :| x in rows && AbstractOf(x) == a;
      assert AbstractOf(x) in Map(rows, AbstractOf);
      InnerJoinHas(abstracts, ids, AbstractPatent, SelfId, KeepAbstract, a, a.patent);
    }
  }

  /** A patent that only ever occurs as the cited patent gets no abstract. */
  lemma CitedOnlyExcluded(rows: seq<PatentRow>, controls: seq<Triple>, p: PatentId)
    requires forall t :: t in controls ==> t.citing != p && t.control != p
    ensures forall a :: a in FilterAbstracts(rows, controls) ==> a.patent != p
  {
    forall a | a in FilterAbstracts(rows, controls)
      ensures a.patent != p
    {
      FilterAbstractsExact(rows, controls, a);
    }
  }

  // ---------------------------------------------------------------------------
  // The row index of the older module

  datatype Indexed<T> = Indexed(index: nat, row: T)

  function RowOf<T>(x: Indexed<T>): T {
    x.row
  }

  /** `with_row_index()`: a column `index` counting the rows from 0. */
  function WithRowIndex<T>(s: seq<T>): (r: seq<Indexed<T>>)
    ensures |r| == |s|
    ensures forall i :: 0 <= i < |r| ==> r[i].index == i
  {
    seq(|s|, i requires 0 <= i < |s| => Indexed(i, s[i]))
  }

  /** Dropping the index gives the rows back, in order. */
  lemma WithRowIndexRoundTrip<T(!new)>(s: seq<T>)
    ensures Map(WithRowIndex(s), RowOf) == s
  {
    var r := WithRowIndex(s);
    forall i | 0 <= i < |s|
      ensures Map(r, RowOf)[i] == s[i]
    {
      MapAt(r, RowOf, i);
    }
  }

  /** `filter_abstracts` of the older module: the same rows, numbered. */
  function FilterAbstractsIndexed(rows: seq<PatentRow>, controls: seq<Triple>): (r: seq<Indexed<AbstractRow>>)
    ensures |r| == |FilterAbstracts(rows, controls)|
    ensures forall i :: 0 <= i < |r| ==> r[i].index == i && r[i].row == FilterAbstracts(rows, controls)[i]
  {
    WithRowIndex(FilterAbstracts(rows, controls))
  }
}
