/**
  The records the pipeline passes between its steps, and the calendar
  constants the date windows are built from.

  Identifiers are strings, as in the bulk data. Dates are day numbers: the
  count of days from 0001-01-01 in the proleptic Gregorian calendar, which is
  the order polars compares `Date` values in.
*/
module Records {

  type PatentId = string
  type InventorId = string
  type AssigneeId = string
  type LocationId = string
  type Day = int

  /** A nullable cell. */
  datatype Option<+T> = None | Some(value: T) {
    /** The value, or `default` for a null cell. */
    function GetOr(default: T): T {
      match this
      case Some(v) => v
      case None => default
    }
  }

  /** The ways a step can fail instead of producing a frame. */
  datatype Error =
    | NotOneToMany     // a join with validate="1:m" found a repeated key on its left side
    | NotManyToOne     // a join with validate="m:1" found a repeated key on its right side
    | NotOneToOne      // a join with validate="1:1" found a repeated key on either side
    | ZeroDivision     // `ceil(n / 0)`
    | NullEmbedding    // a citing patent has no embedding to query the index with

  datatype Result<+T> = Ok(value: T) | Err(error: Error)

  /** Day number of 1 January of `year`. */
  function Jan1(year: int): Day {
    var y := year - 1;
    365 * y + y / 4 - y / 100 + y / 400
  }

  /** Day number of 1 February of `year`. */
  function Feb1(year: int): Day {
    Jan1(year) + 31
  }

  predicate IsLeapYear(year: int) {
    year % 4 == 0 && (year % 100 != 0 || year % 400 == 0)
  }

  /** The day numbering gives every year its Gregorian length. */
  lemma YearLength(year: int)
    ensures Jan1(year + 1) - Jan1(year) == if IsLeapYear(year) then 366 else 365
  {
    DivStep(year - 1, 4);
    DivStep(year - 1, 100);
    DivStep(year - 1, 400);
  }

  /** Floor division by `k` steps up by one exactly at multiples of `k`. */
  lemma DivStep(n: int, k: int)
    requires k > 0
    ensures (n + 1) / k - n / k == if (n + 1) % k == 0 then 1 else 0
  {
    var q, r := n / k, n % k;
    if r == k - 1 {
      DivUnique(n + 1, k, q + 1, 0);
    } else {
      DivUnique(n + 1, k, q, r + 1);
    }
  }

  /** Quotient and remainder are determined by the division equation. */
  lemma DivUnique(n: int, k: int, q: int, r: int)
    requires k > 0 && 0 <= r < k && n == k * q + r
    ensures n / k == q && n % k == r
  {
    var q', r' := n / k, n % k;
    if q > q' {
      MulAtLeast(k, q - q');
    } else if q < q' {
      MulAtLeast(k, q' - q);
    }
  }

  lemma MulAtLeast(k: int, m: int)
    requires k > 0 && m >= 1
    ensures k * m >= k
  {
    assert k * m == k * (m - 1) + k;
  }

  /** `is_between(lo, hi)` with its default closed="both". */
  predicate Between(x: int, lo: int, hi: int) {
    lo <= x <= hi
  }

  /** Two inventor lists share no inventor: `list.set_intersection(..).list.len() == 0`. */
  predicate Disjoint(a: seq<InventorId>, b: seq<InventorId>) {
    forall i :: i in a ==> i !in b
  }

  /** A row of the raw patents partition (one row per patent and inventor).
      Every column may be null. */
  datatype RawPatentRow = RawPatentRow(
    patent: Option<PatentId>,
    grantDate: Option<Day>,
    applicationDate: Option<Day>,
    abstractText: Option<string>,
    inventor: Option<InventorId>,
    inventorLocation: Option<LocationId>,
    inventorSequence: Option<int>,
    inventorCountry: Option<string>,
    assignee: Option<AssigneeId>,
    assigneeOrganization: Option<string>,
    assigneeLocation: Option<LocationId>)

  /** A row of the cleaned patents frame: `load_patents` output. */
  datatype PatentRow = PatentRow(
    patent: PatentId,
    grantDate: Day,
    applicationDate: Day,
    abstractText: string,
    inventor: InventorId,
    assignee: AssigneeId)

  /** A patent with its inventors gathered into a list: `make_originating` output. */
  datatype Patent = Patent(
    id: PatentId,
    assignee: AssigneeId,
    grantDate: Day,
    applicationDate: Day,
    inventors: seq<InventorId>,
    originatingDummy: int)

  /** A row of the raw citation table; `citation_sequence` stands for the
      columns that `filter_citations` drops. */
  datatype RawCitation = RawCitation(
    patent: Option<PatentId>,
    sequence: Option<int>,
    citedPatent: Option<PatentId>,
    category: Option<string>)

  /** A kept citation edge. */
  datatype Citation = Citation(citing: PatentId, cited: PatentId, category: string)

  /** A treated pair: `citing` cites the originating patent `cited`. */
  datatype Pair = Pair(citing: PatentId, cited: PatentId)

  /** A treated pair with one candidate control. */
  datatype Triple = Triple(citing: PatentId, cited: PatentId, control: PatentId)

  /** The three id columns of a controls frame, as `unpivot` names them. */
  datatype Column = CitingColumn | CitedColumn | ControlColumn

  /** The cell of `t` in column `c`. */
  function Cell(t: Triple, c: Column): PatentId {
    match c
    case CitingColumn => t.citing
    case CitedColumn => t.cited
    case ControlColumn => t.control
  }
}
