/**
 * Validation of processed review frames and of restaurant metadata, the
 * integrity statistics and deduplication metrics, and the combined report
 * across sources (src/etl_validation.py).
 *
 * A report's status moves only upwards along pass < warn < fail: checks
 * either set it to fail or turn a pass into a warn.
 */
module Validation {
  import opened Wrappers
  import opened Frames
  import O = Ordering

  datatype Status = Pass | Warn | Fail

  /** The status of two results together: a failure dominates a warning, a warning a pass. */
  function Worst(a: Status, b: Status): Status {
    if a == Fail || b == Fail then Fail
    else if a == Warn || b == Warn then Warn
    else Pass
  }

  // ---------------------------------------------------------------------
  // Cell predicates and ratios
  // ---------------------------------------------------------------------

  /** A ratio over the rows; None is the NaN of a mean over no rows. */
  type Fraction = Option<real>

  /** df[c].isna().mean() */
  function NullFraction(vs: seq<Value>): (r: Fraction)
    ensures r.None? <==> vs == []
    ensures r.Some? ==> 0.0 <= r.value <= 1.0
  {
    if vs == [] then None
    else
      var k := Occ(vs, NA);
      UnitRatio(k, |vs|);
      Some(k as real / |vs| as real)
  }

  lemma UnitRatio(k: nat, n: nat)
    requires k <= n && 0 < n
    ensures 0.0 <= k as real / n as real <= 1.0
  {
  }

  /** `pct > t`, false for NaN. */
  predicate Exceeds(fr: Fraction, t: real) {
    fr.Some? && fr.value > t
  }

  /** A numeric cell compared with a bound; missing and non-numeric cells never compare true. */
  predicate Less(v: Value, t: real) {
    v.Num? && v.x < t
  }

  predicate Greater(v: Value, t: real) {
    v.Num? && v.x > t
  }

  predicate InvalidRating(row: Row) {
    Less(Get(row, "rating_1_5"), 1.0) || Greater(Get(row, "rating_1_5"), 5.0)
  }

  predicate ExtremeTip(row: Row) {
    Greater(Get(row, "tip_percentage"), 30.0)
  }

  predicate LongReview(row: Row) {
    Greater(Get(row, "review_length"), 2000.0)
  }

  predicate InvalidStars(row: Row) {
    Less(Get(row, "avg_stars"), 1.0) || Greater(Get(row, "avg_stars"), 5.0)
  }

  predicate NegativeReviews(row: Row) {
    Less(Get(row, "total_reviews"), 0.0)
  }

  /** The rows whose cell in column c equals v (one group of a groupby). */
  function RowsWith(f: Frame, c: string, v: Value): (g: Frame)
    ensures g.columns == f.columns
    ensures forall k :: 0 <= k < |g.rows| ==> g.rows[k] in f.rows && Get(g.rows[k], c) == v
    ensures forall i :: 0 <= i < |f.rows| && Get(f.rows[i], c) == v ==> f.rows[i] in g.rows
  {
    Frame(f.columns, FilterRows(f.rows, row => Get(row, c) == v))
  }

  // ---------------------------------------------------------------------
  // integrity_report
  // ---------------------------------------------------------------------

  /** One record of by_restaurant; reviews_pct is not part of this model. */
  datatype RestaurantStats = RestaurantStats(name: Value, reviews: Option<nat>, uniqueCustomers: Option<nat>)

  datatype Integrity = Integrity(
    stage: string,
    totalRows: nat,
    uniqueReviews: Option<nat>,
    duplicateReviews: Option<int>,
    uniqueCustomers: Option<nat>,
    byRestaurant: Option<seq<RestaurantStats>>)

  /** The aggregates of one restaurant's group: non-null review ids counted, customers distinct. */
  function GroupStats(f: Frame, name: Value, withReviews: bool, withCustomers: bool): (r: RestaurantStats)
    ensures r.name == name
    ensures r.reviews.Some? ==> r.reviews.value <= |RowsWith(f, "restaurant_name", name).rows|
    ensures r.uniqueCustomers.Some? ==> r.uniqueCustomers.value <= |RowsWith(f, "restaurant_name", name).rows|
  {
    var g := RowsWith(f, "restaurant_name", name);
    UniqueLength(DropNA(Column(g, "customer_name")));
    RestaurantStats(
      name,
      if withReviews then Some(|DropNA(Column(g, "review_id"))|) else None,
      if withCustomers then Some(NUnique(Column(g, "customer_name"))) else None)
  }

  /** The rank of a cell's kind in groupby's key order: numbers, then dates, then texts. */
  function KindRank(v: Value): nat {
    match v
    case Num(_) => 0
    case Day(_) => 1
    case Str(_) => 2
    case NA => 3
  }

  /**
   * The order groupby sorts its keys in: numbers by value before dates by
   * day before texts in Python's string order. The loader only produces
   * text names, so in practice this is the string order.
   */
  predicate NameLe(a: Value, b: Value) {
    KindRank(a) < KindRank(b)
    || (KindRank(a) == KindRank(b) &&
        match a
        case Num(x) => x <= b.x
        case Day(d) => d <= b.d
        case Str(t) => O.StrLe(t, b.s)
        case NA => true)
  }

  lemma NameLeTotalPreorder()
    ensures O.TotalPreorder(NameLe)
  {
    forall a: Value, b: Value ensures NameLe(a, b) || NameLe(b, a) {
      if a.Str? && b.Str? {
        O.StrLeTotal(a.s, b.s);
      }
    }
    forall a: Value, b: Value, c: Value | NameLe(a, b) && NameLe(b, c) ensures NameLe(a, c) {
      if a.Str? && b.Str? && c.Str? {
        O.StrLeTrans(a.s, b.s, c.s);
      }
    }
  }

  /** Two names each ordered before the other are the same name. */
  lemma NameLeAntisym(a: Value, b: Value)
    requires NameLe(a, b) && NameLe(b, a)
    ensures a == b
  {
    if a.Str? && b.Str? {
      O.StrLeAntisym(a.s, b.s);
    }
  }

  /** The group keys of groupby("restaurant_name"): the distinct present names, sorted. */
  function RestaurantNames(f: Frame): seq<Value> {
    NameLeTotalPreorder();
    O.SortBy(Unique(DropNA(Column(f, "restaurant_name"))), NameLe)
  }

  /** The groups of groupby("restaurant_name"), one per present restaurant name, in key order. */
  function ByRestaurant(f: Frame): (r: Option<seq<RestaurantStats>>)
    ensures r.Some? <==> "restaurant_name" in f.columns && ("review_id" in f.columns || "customer_name" in f.columns)
  {
    var withReviews := "review_id" in f.columns;
    var withCustomers := "customer_name" in f.columns;
    if "restaurant_name" !in f.columns || (!withReviews && !withCustomers) then None
    else
      var names := RestaurantNames(f);
      Some(seq(|names|, k requires 0 <= k < |names| => GroupStats(f, names[k], withReviews, withCustomers)))
  }

  function IntegrityReport(f: Frame, stage: string): (r: Integrity)
    ensures r.duplicateReviews.Some? ==> r.duplicateReviews.value >= 0
  {
    var ids := Column(f, "review_id");
    UniqueLength(DropNA(ids));
    Integrity(
      stage,
      |f.rows|,
      if "review_id" in f.columns then Some(NUnique(ids)) else None,
      if "review_id" in f.columns then Some(|f.rows| - NUnique(ids)) else None,
      if "customer_name" in f.columns then Some(NUnique(Column(f, "customer_name"))) else None,
      ByRestaurant(f))
  }

  /** duplicate_reviews is 0 exactly when every review id is present and no two are equal. */
  lemma NoDuplicateReviewsIff(f: Frame, stage: string)
    requires "review_id" in f.columns
    ensures IntegrityReport(f, stage).duplicateReviews == Some(0) <==>
      NA !in Column(f, "review_id") && AllDistinct(Column(f, "review_id"))
  {
    var ids := Column(f, "review_id");
    DropNALength(ids);
    UniqueLength(DropNA(ids));
  }

  /**
   * by_restaurant has one group per distinct present restaurant name, and no
   * other, with the names in ascending order.
   */
  lemma ByRestaurantGroups(f: Frame)
    requires ByRestaurant(f).Some?
    ensures forall k :: 0 <= k < |ByRestaurant(f).value| ==> ByRestaurant(f).value[k].name != NA
    ensures forall a, b :: 0 <= a < b < |ByRestaurant(f).value| ==>
      NameLe(ByRestaurant(f).value[a].name, ByRestaurant(f).value[b].name)
      && ByRestaurant(f).value[a].name != ByRestaurant(f).value[b].name
    ensures forall i :: 0 <= i < |f.rows| && Get(f.rows[i], "restaurant_name") != NA ==>
      exists k :: 0 <= k < |ByRestaurant(f).value| && ByRestaurant(f).value[k].name == Get(f.rows[i], "restaurant_name")
  {
    var names := RestaurantNames(f);
    var groups := ByRestaurant(f).value;
    assert forall k :: 0 <= k < |groups| ==> groups[k].name == names[k];
    NamesStrict(f);
    NamesCover(f);
  }

  /** The group keys are present names, strictly ascending. */
  lemma NamesStrict(f: Frame)
    ensures forall k :: 0 <= k < |RestaurantNames(f)| ==> RestaurantNames(f)[k] != NA
    ensures forall a, b :: 0 <= a < b < |RestaurantNames(f)| ==>
      NameLe(RestaurantNames(f)[a], RestaurantNames(f)[b]) && RestaurantNames(f)[a] != RestaurantNames(f)[b]
  {
    var u := Unique(DropNA(Column(f, "restaurant_name")));
    UniqueSpec(DropNA(Column(f, "restaurant_name")));
    var names := RestaurantNames(f);
    assert multiset(names) == multiset(u);
    DistinctPermutation(u, names);
    forall k | 0 <= k < |names| ensures names[k] != NA {
      assert names[k] in multiset(u);
    }
  }

  /** Every present name in the column is one of the group keys. */
  lemma NamesCover(f: Frame)
    ensures forall i :: 0 <= i < |f.rows| && Get(f.rows[i], "restaurant_name") != NA ==>
      Get(f.rows[i], "restaurant_name") in RestaurantNames(f)
  {
    var u := Unique(DropNA(Column(f, "restaurant_name")));
    UniqueSpec(DropNA(Column(f, "restaurant_name")));
    var names := RestaurantNames(f);
    assert multiset(names) == multiset(u);
    forall i | 0 <= i < |f.rows| && Get(f.rows[i], "restaurant_name") != NA
      ensures Get(f.rows[i], "restaurant_name") in names
    {
      var v := Get(f.rows[i], "restaurant_name");
      assert Column(f, "restaurant_name")[i] == v;
      assert v in u;
      assert v in multiset(names);
    }
  }

  /** A rearrangement of a sequence without repeats has none either. */
  lemma DistinctPermutation<X>(a: seq<X>, b: seq<X>)
    requires multiset(a) == multiset(b) && AllDistinct(a)
    ensures AllDistinct(b)
  {
    forall i, j | 0 <= i < j < |b| ensures b[i] != b[j] {
      if b[i] == b[j] {
        var v := b[i];
        assert b == b[..j] + b[j..];
        assert v in b[..j] && b[j..][0] == v;
        assert multiset(b)[v] == multiset(b[..j])[v] + multiset(b[j..])[v];
        DistinctCount(a, v);
        assert false;
      }
    }
  }

  /** A value occurs at most once in a sequence without repeats. */
  lemma {:induction false} DistinctCount<X>(a: seq<X>, v: X)
    requires AllDistinct(a)
    ensures multiset(a)[v] <= 1
    decreases |a|
  {
    if a != [] {
      var p := a[..|a| - 1];
      assert a == p + [a[|a| - 1]];
      DistinctCount(p, v);
      if v == a[|a| - 1] {
        assert v !in p by {
          forall j | 0 <= j < |p| ensures p[j] != v {
            assert a[j] != a[|a| - 1];
          }
        }
      }
    }
  }

  // ---------------------------------------------------------------------
  // _dedup_metrics
  // ---------------------------------------------------------------------

  datatype Metrics = Metrics(rowsDroppedDedup: int, conflictingIds: nat)

  /** The customer names of the rows carrying one review id. */
  function CustomersOf(f: Frame, id: Value): seq<Value> {
    Column(RowsWith(f, "review_id", id), "customer_name")
  }

  /** The number of ids among `ids` whose rows name more than one customer. */
  function Conflicts(f: Frame, ids: seq<Value>): (n: nat)
    ensures n <= |ids|
  {
    if ids == [] then 0
    else (if NUnique(CustomersOf(f, ids[0])) > 1 then 1 else 0) + Conflicts(f, ids[1..])
  }

  function DedupMetrics(raw: Frame, processed: Frame): (m: Metrics)
    ensures m.rowsDroppedDedup == |raw.rows| - |processed.rows|
  {
    Metrics(
      |raw.rows| - |processed.rows|,
      if "review_id" in raw.columns && "customer_name" in raw.columns
      then Conflicts(raw, Unique(DropNA(Column(raw, "review_id"))))
      else 0)
  }

  /** Rows i and j both carry review id `id` and name two different present customers. */
  predicate Clash(f: Frame, id: Value, i: int, j: int)
    requires 0 <= i < |f.rows| && 0 <= j < |f.rows|
  {
    && Get(f.rows[i], "review_id") == id && Get(f.rows[j], "review_id") == id
    && Get(f.rows[i], "customer_name") != NA && Get(f.rows[j], "customer_name") != NA
    && Get(f.rows[i], "customer_name") != Get(f.rows[j], "customer_name")
  }

  /** No two rows sharing a present review id name two different present customers. */
  predicate ConsistentCustomers(f: Frame) {
    forall i, j :: 0 <= i < |f.rows| && 0 <= j < |f.rows| && Get(f.rows[i], "review_id") != NA ==>
      !Clash(f, Get(f.rows[i], "review_id"), i, j)
  }

  lemma {:induction false} ConflictsZero(f: Frame, ids: seq<Value>)
    ensures Conflicts(f, ids) == 0 <==> forall k :: 0 <= k < |ids| ==> NUnique(CustomersOf(f, ids[k])) <= 1
  {
    if ids != [] {
      var tail := ids[1..];
      ConflictsZero(f, tail);
      if Conflicts(f, ids) == 0 {
        forall k | 0 <= k < |ids| ensures NUnique(CustomersOf(f, ids[k])) <= 1 {
          if k > 0 { assert ids[k] == tail[k - 1]; }
        }
      } else if NUnique(CustomersOf(f, ids[0])) <= 1 {
        var k :| 0 <= k < |tail| && NUnique(CustomersOf(f, tail[k])) > 1;
        assert ids[k + 1] == tail[k];
      }
    }
  }

  /** One id's rows name two customers exactly when two rows of the frame with that id do. */
  lemma CustomersOfConflict(f: Frame, id: Value)
    ensures NUnique(CustomersOf(f, id)) > 1 <==>
      exists i, j :: 0 <= i < |f.rows| && 0 <= j < |f.rows| && Clash(f, id, i, j)
  {
    var g := RowsWith(f, "review_id", id);
    var cs := CustomersOf(f, id);
    NUniqueMoreThanOne(cs);
    if NUnique(cs) > 1 {
      var a, b :| 0 <= a < |cs| && 0 <= b < |cs| && cs[a] != NA && cs[b] != NA && cs[a] != cs[b];
      ClashFromGroup(f, id, a, b);
    }
    if exists i, j :: 0 <= i < |f.rows| && 0 <= j < |f.rows| && Clash(f, id, i, j) {
      var i, j :| 0 <= i < |f.rows| && 0 <= j < |f.rows| && Clash(f, id, i, j);
      GroupFromClash(f, id, i, j);
    }
  }

  lemma ClashFromGroup(f: Frame, id: Value, a: int, b: int)
    requires 0 <= a < |CustomersOf(f, id)| && 0 <= b < |CustomersOf(f, id)|
    requires CustomersOf(f, id)[a] != NA && CustomersOf(f, id)[b] != NA && CustomersOf(f, id)[a] != CustomersOf(f, id)[b]
    ensures exists i, j :: 0 <= i < |f.rows| && 0 <= j < |f.rows| && Clash(f, id, i, j)
  {
    var g := RowsWith(f, "review_id", id);
    assert g.rows[a] in f.rows && g.rows[b] in f.rows;
    var i :| 0 <= i < |f.rows| && f.rows[i] == g.rows[a];
    var j :| 0 <= j < |f.rows| && f.rows[j] == g.rows[b];
    assert Clash(f, id, i, j);
  }

  lemma GroupFromClash(f: Frame, id: Value, i: int, j: int)
    requires 0 <= i < |f.rows| && 0 <= j < |f.rows| && Clash(f, id, i, j)
    ensures exists a, b ::
      && 0 <= a < |CustomersOf(f, id)| && 0 <= b < |CustomersOf(f, id)|
      && CustomersOf(f, id)[a] != NA && CustomersOf(f, id)[b] != NA && CustomersOf(f, id)[a] != CustomersOf(f, id)[b]
  {
    var g := RowsWith(f, "review_id", id);
    var cs := CustomersOf(f, id);
    assert f.rows[i] in g.rows && f.rows[j] in g.rows;
    var a :| 0 <= a < |g.rows| && g.rows[a] == f.rows[i];
    var b :| 0 <= b < |g.rows| && g.rows[b] == f.rows[j];
    assert cs[a] == Get(f.rows[i], "customer_name");
    assert cs[b] == Get(f.rows[j], "customer_name");
  }

  /** conflicting_ids is 0 exactly when no review id is shared by two different customers. */
  lemma NoConflictsIff(raw: Frame, processed: Frame)
    requires "review_id" in raw.columns && "customer_name" in raw.columns
    ensures DedupMetrics(raw, processed).conflictingIds == 0 <==> ConsistentCustomers(raw)
  {
    var ids := Unique(DropNA(Column(raw, "review_id")));
    ConflictsZero(raw, ids);
    if Conflicts(raw, ids) == 0 {
      ConsistentFromNoConflict(raw, ids);
    } else {
      InconsistentFromConflict(raw, ids);
    }
  }

  lemma ConsistentFromNoConflict(raw: Frame, ids: seq<Value>)
    requires ids == Unique(DropNA(Column(raw, "review_id")))
    requires forall k :: 0 <= k < |ids| ==> NUnique(CustomersOf(raw, ids[k])) <= 1
    ensures ConsistentCustomers(raw)
  {
    UniqueSpec(DropNA(Column(raw, "review_id")));
    forall i, j | 0 <= i < |raw.rows| && 0 <= j < |raw.rows| && Get(raw.rows[i], "review_id") != NA
      ensures !Clash(raw, Get(raw.rows[i], "review_id"), i, j)
    {
      var id := Get(raw.rows[i], "review_id");
      assert Column(raw, "review_id")[i] == id;
      assert id in ids;
      CustomersOfConflict(raw, id);
    }
  }

  lemma InconsistentFromConflict(raw: Frame, ids: seq<Value>)
    requires ids == Unique(DropNA(Column(raw, "review_id")))
    requires exists k :: 0 <= k < |ids| && NUnique(CustomersOf(raw, ids[k])) > 1
    ensures !ConsistentCustomers(raw)
  {
    UniqueSpec(DropNA(Column(raw, "review_id")));
    var k :| 0 <= k < |ids| && NUnique(CustomersOf(raw, ids[k])) > 1;
    CustomersOfConflict(raw, ids[k]);
    var i, j :| 0 <= i < |raw.rows| && 0 <= j < |raw.rows| && Clash(raw, ids[k], i, j);
    assert ids[k] in DropNA(Column(raw, "review_id"));
    assert Get(raw.rows[i], "review_id") == ids[k];
  }

  // ---------------------------------------------------------------------
  // validate_processed_data
  // ---------------------------------------------------------------------

  datatype Checks = Checks(
    missingColumns: seq<string>,
    duplicateIds: Option<nat>,
    rowCountMismatch: Option<int>,
    invalidRatings: Option<nat>,
    extremeTips: Option<nat>,
    longReviews: Option<nat>,
    nullReviewTextPct: Option<Fraction>,
    rowsDroppedDedup: Option<int>,
    conflictingIds: Option<nat>)

  datatype Report = Report(
    source: string,
    rowCountProcessed: nat,
    rowCountRaw: Option<int>,
    checks: Checks,
    missingValues: seq<(string, real)>,
    unmappedCategories: seq<(string, seq<Value>)>,
    status: Status)

  const RequiredCols: seq<string> := ["review_id", "rating_1_5", "review_text"]

  /** The columns whose missing share can raise a warning, with the share that does. */
  const MissingThresholds: seq<(string, real)> := [("review_text", 0.40), ("age_range", 0.20)]

  /** The (raw, derived) pairs whose unmapped values are reported. */
  const CategoryPairs: seq<(string, string)> := [("gender", "gender_norm"), ("ethnicity", "ethnicity_norm"), ("age_range", "age_group")]

  /** The derived column of a categorical pair never appears without its raw column (df[raw] would raise). */
  predicate CategoryColumnsPaired(f: Frame) {
    forall k :: 0 <= k < |CategoryPairs| && CategoryPairs[k].1 in f.columns ==> CategoryPairs[k].0 in f.columns
  }

  /** The warning entry of one listed column: present with a positive missing share. */
  function MissingEntry(f: Frame, t: (string, real)): seq<(string, real)> {
    var fr := NullFraction(Column(f, t.0));
    if t.0 in f.columns && Exceeds(fr, 0.0) then [(t.0, fr.value)] else []
  }

  /** warnings["missing_values"], in the order of the list. */
  function MissingValues(f: Frame, ts: seq<(string, real)>): seq<(string, real)>
    decreases |ts|
  {
    if ts == [] then [] else MissingValues(f, ts[..|ts| - 1]) + MissingEntry(f, ts[|ts| - 1])
  }

  /** Some listed column is present with a missing share above its threshold. */
  predicate MissingAboveThreshold(f: Frame, ts: seq<(string, real)>) {
    exists k :: 0 <= k < |ts| && ts[k].0 in f.columns && Exceeds(NullFraction(Column(f, ts[k].0)), ts[k].1)
  }

  /** A row whose raw category is present while its derived category is missing. */
  function UnmappedRows(f: Frame, raw: string, norm: string): Frame {
    Frame(f.columns, FilterRows(f.rows, row => Get(row, norm) == NA && Get(row, raw) != NA))
  }

  /** df[df[norm].isna() & df[raw].notna()][raw].unique() */
  function UnmappedValues(f: Frame, raw: string, norm: string): seq<Value> {
    Unique(Column(UnmappedRows(f, raw, norm), raw))
  }

  /** warnings["unmapped_categories"]: the pairs whose derived column is present and has unmapped values. */
  function CategoryWarnings(f: Frame, pairs: seq<(string, string)>): (w: seq<(string, seq<Value>)>)
    ensures forall e :: e in w ==> e.1 != []
  {
    if pairs == [] then []
    else
      var (raw, norm) := pairs[0];
      var u := UnmappedValues(f, raw, norm);
      (if norm in f.columns && |u| > 0 then [(raw, u)] else []) + CategoryWarnings(f, pairs[1..])
  }

  /** Any of the checks that set the status to fail. */
  predicate ProcessedFails(f: Frame, rawCount: Option<int>) {
    ProcessedFailsSoFar(f, rawCount) || ("review_text" in f.columns && Exceeds(NullFraction(Column(f, "review_text")), 0.5))
  }

  /** Any of the checks that turn a pass into a warning. */
  predicate ProcessedWarns(f: Frame) {
    MissingAboveThreshold(f, MissingThresholds) || CategoryWarnings(f, CategoryPairs) != []
  }

  /** The counts the checks record; checks 1 to 6 and 8 of validate_processed_data. */
  function ProcessedChecks(f: Frame, rawCount: Option<int>): Checks {
    Checks(
      Absent(RequiredCols, f),
      if "review_id" in f.columns then Some(CountDuplicated(Column(f, "review_id"))) else None,
      if rawCount.Some? then Some(rawCount.value - |f.rows|) else None,
      if "rating_1_5" in f.columns then Some(CountRows(f.rows, InvalidRating)) else None,
      if "tip_percentage" in f.columns then Some(CountRows(f.rows, ExtremeTip)) else None,
      if "review_length" in f.columns then Some(CountRows(f.rows, LongReview)) else None,
      if "review_text" in f.columns then Some(NullFraction(Column(f, "review_text"))) else None,
      None,
      None)
  }

  /**
   * The report of validate_processed_data, stated per check: the status is
   * fail when any failing check fires, otherwise warn when any warning
   * fires, otherwise pass.
   */
  function ProcessedReport(f: Frame, source: string, rawCount: Option<int>): Report {
    Report(
      source,
      |f.rows|,
      rawCount,
      ProcessedChecks(f, rawCount),
      MissingValues(f, MissingThresholds),
      CategoryWarnings(f, CategoryPairs),
      if ProcessedFails(f, rawCount) then Fail else if ProcessedWarns(f) then Warn else Pass)
  }

  /** Checks 1 to 6 of validate_processed_data: each records its count and may set the status to fail. */
  method FailChecks(df: Frame, rowCountRaw: Option<int>) returns (checks: Checks, status: Status)
    ensures checks == ProcessedChecks(df, rowCountRaw).(nullReviewTextPct := None)
    ensures status == if ProcessedFailsSoFar(df, rowCountRaw) then Fail else Pass
  {
    status := Pass;
    checks := Checks([], None, None, None, None, None, None, None, None);
    // 1. required columns
    var missing := Absent(RequiredCols, df);
    checks := checks.(missingColumns := missing);
    if missing != [] {
      status := Fail;
    }
    // 2. duplicate ids
    if "review_id" in df.columns {
      var dupes := CountDuplicated(Column(df, "review_id"));
      checks := checks.(duplicateIds := Some(dupes));
      if dupes > 0 {
        status := Fail;
      }
    }
    // 3. row count mismatch
    if rowCountRaw.Some? {
      var delta := rowCountRaw.value - |df.rows|;
      checks := checks.(rowCountMismatch := Some(delta));
      if delta != 0 {
        status := Fail;
      }
    }
    checks, status := RangeChecks(df, checks, status);
  }

  /** Checks 4 to 6: ratings outside [1, 5], tips above 30 and reviews longer than 2000 each fail. */
  method RangeChecks(df: Frame, checks0: Checks, status0: Status) returns (checks: Checks, status: Status)
    ensures checks == checks0.(
      invalidRatings := if "rating_1_5" in df.columns then Some(CountRows(df.rows, InvalidRating)) else None,
      extremeTips := if "tip_percentage" in df.columns then Some(CountRows(df.rows, ExtremeTip)) else None,
      longReviews := if "review_length" in df.columns then Some(CountRows(df.rows, LongReview)) else None)
    ensures status == if RangeFails(df) then Fail else status0
  {
    checks := checks0.(invalidRatings := None, extremeTips := None, longReviews := None);
    status := status0;
    // 4. rating scale validity
    if "rating_1_5" in df.columns {
      var invalid := CountRows(df.rows, InvalidRating);
      checks := checks.(invalidRatings := Some(invalid));
      if invalid > 0 {
        status := Fail;
      }
    }
    // 5. extreme tips
    if "tip_percentage" in df.columns {
      var extreme := CountRows(df.rows, ExtremeTip);
      checks := checks.(extremeTips := Some(extreme));
      if extreme > 0 {
        status := Fail;
      }
    }
    // 6. long reviews
    if "review_length" in df.columns {
      var tooLong := CountRows(df.rows, LongReview);
      checks := checks.(longReviews := Some(tooLong));
      if tooLong > 0 {
        status := Fail;
      }
    }
  }

  /** Check 7: the missing share of each listed column, warning when it passes the column's threshold. */
  method MissingChecks(df: Frame, ts: seq<(string, real)>, status0: Status) returns (warnings: seq<(string, real)>, status: Status)
    requires status0 != Warn
    ensures warnings == MissingValues(df, ts)
    ensures status == if status0 == Fail then Fail else if MissingAboveThreshold(df, ts) then Warn else Pass
  {
    status := status0;
    warnings := [];
    for k := 0 to |ts|
      invariant warnings == MissingValues(df, ts[..k])
      invariant status == if status0 == Fail then Fail else if MissingAboveThreshold(df, ts[..k]) then Warn else Pass
    {
      var col, thresh := ts[k].0, ts[k].1;
      assert ts[..k + 1][..k] == ts[..k];
      if col in df.columns {
        var pct := NullFraction(Column(df, col));
        if Exceeds(pct, 0.0) {
          warnings := warnings + [(col, pct.value)];
        }
        if Exceeds(pct, thresh) && status == Pass {
          status := Warn;
        }
      }
      MissingAboveSnoc(df, ts, k);
    }
    assert ts[..|ts|] == ts;
  }

  /** validate_processed_data: the checks run in order, each raising the status. */
  method ValidateProcessedData(df: Frame, sourceName: string, rowCountRaw: Option<int>) returns (report: Report)
    requires CategoryColumnsPaired(df)
    ensures report == ProcessedReport(df, sourceName, rowCountRaw)
  {
    var checks, status := FailChecks(df, rowCountRaw);
    var warningsMissing;
    warningsMissing, status := MissingChecks(df, MissingThresholds, status);
    // 8. critical transformation check
    if "review_text" in df.columns {
      var nulls := NullFraction(Column(df, "review_text"));
      checks := checks.(nullReviewTextPct := Some(nulls));
      if Exceeds(nulls, 0.5) {
        status := Fail;
      }
    }
    // 9. category mapping warnings
    var catWarnings := CategoryWarnings(df, CategoryPairs);
    if catWarnings != [] && status == Pass {
      status := Warn;
    }
    report := Report(sourceName, |df.rows|, rowCountRaw, checks, warningsMissing, catWarnings, status);
  }

  /** The failing checks that run before the missingness thresholds. */
  predicate ProcessedFailsSoFar(f: Frame, rawCount: Option<int>) {
    || Absent(RequiredCols, f) != []
    || ("review_id" in f.columns && CountDuplicated(Column(f, "review_id")) > 0)
    || (rawCount.Some? && rawCount.value - |f.rows| != 0)
    || RangeFails(f)
  }

  /** A rating outside [1, 5], a tip percentage above 30 or a review length above 2000. */
  predicate RangeFails(f: Frame) {
    || ("rating_1_5" in f.columns && CountRows(f.rows, InvalidRating) > 0)
    || ("tip_percentage" in f.columns && CountRows(f.rows, ExtremeTip) > 0)
    || ("review_length" in f.columns && CountRows(f.rows, LongReview) > 0)
  }

  lemma MissingAboveSnoc(f: Frame, ts: seq<(string, real)>, k: nat)
    requires k < |ts|
    ensures MissingAboveThreshold(f, ts[..k + 1]) <==>
      MissingAboveThreshold(f, ts[..k]) || (ts[k].0 in f.columns && Exceeds(NullFraction(Column(f, ts[k].0)), ts[k].1))
  {
    assert forall j :: 0 <= j < k ==> ts[..k + 1][j] == ts[..k][j];
    assert ts[..k + 1][k] == ts[k];
  }

  /**
   * The report fails exactly when a required column is missing, two rows
   * share a review id (missing ids compare equal), the raw and processed
   * row counts differ, some row's rating lies outside [1, 5], some tip
   * percentage exceeds 30, some review length exceeds 2000, or more than
   * half of the review texts are missing.
   */
  lemma ProcessedFailsIff(f: Frame, source: string, rawCount: Option<int>)
    ensures ProcessedReport(f, source, rawCount).status == Fail <==>
      || (exists c :: c in RequiredCols && c !in f.columns)
      || ("review_id" in f.columns && !AllDistinct(Column(f, "review_id")))
      || (rawCount.Some? && rawCount.value != |f.rows|)
      || ("rating_1_5" in f.columns && exists i :: 0 <= i < |f.rows| && InvalidRating(f.rows[i]))
      || ("tip_percentage" in f.columns && exists i :: 0 <= i < |f.rows| && ExtremeTip(f.rows[i]))
      || ("review_length" in f.columns && exists i :: 0 <= i < |f.rows| && LongReview(f.rows[i]))
      || ("review_text" in f.columns && Exceeds(NullFraction(Column(f, "review_text")), 0.5))
  {
    DuplicatedZeroIffDistinct(Column(f, "review_id"));
    CountRowsPositive(f.rows, InvalidRating);
    CountRowsPositive(f.rows, ExtremeTip);
    CountRowsPositive(f.rows, LongReview);
    var missing := Absent(RequiredCols, f);
    if missing != [] {
      assert missing[0] in RequiredCols && missing[0] !in f.columns;
    }
  }

  /** A value is reported unmapped exactly when some row holds it raw while its derived cell is missing. */
  lemma UnmappedValuesSpec(f: Frame, raw: string, norm: string, v: Value)
    ensures v in UnmappedValues(f, raw, norm) <==>
      exists i :: 0 <= i < |f.rows| && Get(f.rows[i], norm) == NA && Get(f.rows[i], raw) == v && v != NA
  {
    if v in UnmappedValues(f, raw, norm) {
      UnmappedValueRow(f, raw, norm, v);
    }
    if exists i :: 0 <= i < |f.rows| && Get(f.rows[i], norm) == NA && Get(f.rows[i], raw) == v && v != NA {
      var i :| 0 <= i < |f.rows| && Get(f.rows[i], norm) == NA && Get(f.rows[i], raw) == v && v != NA;
      UnmappedRowValue(f, raw, norm, i);
    }
  }

  lemma UnmappedValueRow(f: Frame, raw: string, norm: string, v: Value)
    requires v in UnmappedValues(f, raw, norm)
    ensures exists i :: 0 <= i < |f.rows| && Get(f.rows[i], norm) == NA && Get(f.rows[i], raw) == v && v != NA
  {
    var g := UnmappedRows(f, raw, norm);
    UniqueSpec(Column(g, raw));
    var k :| 0 <= k < |g.rows| && Column(g, raw)[k] == v;
    assert g.rows[k] in f.rows;
    var i :| 0 <= i < |f.rows| && f.rows[i] == g.rows[k];
    assert Get(f.rows[i], norm) == NA && Get(f.rows[i], raw) == v;
  }

  lemma UnmappedRowValue(f: Frame, raw: string, norm: string, i: int)
    requires 0 <= i < |f.rows| && Get(f.rows[i], norm) == NA && Get(f.rows[i], raw) != NA
    ensures Get(f.rows[i], raw) in UnmappedValues(f, raw, norm)
  {
    var g := UnmappedRows(f, raw, norm);
    UniqueSpec(Column(g, raw));
    assert f.rows[i] in g.rows;
    var k :| 0 <= k < |g.rows| && g.rows[k] == f.rows[i];
    assert Column(g, raw)[k] == Get(f.rows[i], raw);
  }

  /** The derived column of the pair is present and some row is unmapped for it. */
  predicate PairWarns(f: Frame, pair: (string, string)) {
    pair.1 in f.columns && exists i :: 0 <= i < |f.rows| && Get(f.rows[i], pair.1) == NA && Get(f.rows[i], pair.0) != NA
  }

  lemma PairWarnsIff(f: Frame, pair: (string, string))
    ensures (pair.1 in f.columns && |UnmappedValues(f, pair.0, pair.1)| > 0) <==> PairWarns(f, pair)
  {
    var u := UnmappedValues(f, pair.0, pair.1);
    if |u| > 0 {
      UnmappedValuesSpec(f, pair.0, pair.1, u[0]);
    }
    if exists i :: 0 <= i < |f.rows| && Get(f.rows[i], pair.1) == NA && Get(f.rows[i], pair.0) != NA {
      var i :| 0 <= i < |f.rows| && Get(f.rows[i], pair.1) == NA && Get(f.rows[i], pair.0) != NA;
      UnmappedValuesSpec(f, pair.0, pair.1, Get(f.rows[i], pair.0));
    }
  }

  /** The category warnings are non-empty exactly when some pair has a present derived column with an unmapped row. */
  lemma {:induction false} CategoryWarningsNonEmpty(f: Frame, pairs: seq<(string, string)>)
    ensures CategoryWarnings(f, pairs) != [] <==> exists k :: 0 <= k < |pairs| && PairWarns(f, pairs[k])
  {
    if pairs != [] {
      CategoryWarningsNonEmpty(f, pairs[1..]);
      PairWarnsIff(f, pairs[0]);
      if exists k :: 0 <= k < |pairs| && PairWarns(f, pairs[k]) {
        var k :| 0 <= k < |pairs| && PairWarns(f, pairs[k]);
        if k > 0 {
          assert pairs[1..][k - 1] == pairs[k];
        }
      }
      if exists k :: 0 <= k < |pairs[1..]| && PairWarns(f, pairs[1..][k]) {
        var k :| 0 <= k < |pairs[1..]| && PairWarns(f, pairs[1..][k]);
        assert pairs[k + 1] == pairs[1..][k];
      }
    }
  }

  // ---------------------------------------------------------------------
  // validate_restaurant_info
  // ---------------------------------------------------------------------

  /**
   * The "source" of a restaurant report: the name the entry carries, or, for
   * a review entry whose name is "restaurant_info", its processed frame, which
   * is what sits in the name's place of the tuple then.
   */
  datatype SourceLabel = Named(name: string) | FrameLabel(frame: Frame)

  datatype RestaurantReport = RestaurantReport(
    source: SourceLabel,
    rowCount: nat,
    status: Status,
    missingColumns: seq<string>,
    invalidAvgStars: Option<nat>,
    invalidTotalReviews: Option<nat>)

  const RestaurantCols: seq<string> := ["restaurant_name", "address", "avg_stars", "total_reviews"]

  /** The report of validate_restaurant_info: it fails on a missing column or an out-of-range value, and never warns. */
  function RestaurantReportOf(f: Frame, source: SourceLabel): RestaurantReport {
    var missing := Absent(RestaurantCols, f);
    var stars := if "avg_stars" in f.columns then Some(CountRows(f.rows, InvalidStars)) else None;
    var negatives := if "total_reviews" in f.columns then Some(CountRows(f.rows, NegativeReviews)) else None;
    var fails := missing != [] || (stars.Some? && stars.value > 0) || (negatives.Some? && negatives.value > 0);
    RestaurantReport(source, |f.rows|, if fails then Fail else Pass, missing, stars, negatives)
  }

  /** validate_restaurant_info: three checks, each of which may set the status to fail. */
  method ValidateRestaurantInfo(df: Frame, sourceName: SourceLabel) returns (report: RestaurantReport)
    ensures report == RestaurantReportOf(df, sourceName)
  {
    report := RestaurantReport(sourceName, |df.rows|, Pass, [], None, None);
    var missing := Absent(RestaurantCols, df);
    report := report.(missingColumns := missing);
    if missing != [] {
      report := report.(status := Fail);
    }
    if "avg_stars" in df.columns {
      var invalid := CountRows(df.rows, InvalidStars);
      report := report.(invalidAvgStars := Some(invalid));
      if invalid > 0 {
        report := report.(status := Fail);
      }
    }
    if "total_reviews" in df.columns {
      var negatives := CountRows(df.rows, NegativeReviews);
      report := report.(invalidTotalReviews := Some(negatives));
      if negatives > 0 {
        report := report.(status := Fail);
      }
    }
  }

  /** Restaurant metadata fails exactly on a missing column, an average outside [1, 5] or a negative review total. */
  lemma RestaurantFailsIff(f: Frame, source: SourceLabel)
    ensures RestaurantReportOf(f, source).status != Warn
    ensures RestaurantReportOf(f, source).status == Fail <==>
      || (exists c :: c in RestaurantCols && c !in f.columns)
      || ("avg_stars" in f.columns && exists i :: 0 <= i < |f.rows| && InvalidStars(f.rows[i]))
      || ("total_reviews" in f.columns && exists i :: 0 <= i < |f.rows| && NegativeReviews(f.rows[i]))
  {
    CountRowsPositive(f.rows, InvalidStars);
    CountRowsPositive(f.rows, NegativeReviews);
    var missing := Absent(RestaurantCols, f);
    if missing != [] {
      assert missing[0] in RestaurantCols && missing[0] !in f.columns;
    }
  }

  /** A processed frame that passes every failing check warns exactly when a missing share passes its threshold or a category is unmapped. */
  lemma ProcessedWarnsIff(f: Frame, source: string, rawCount: Option<int>)
    ensures ProcessedReport(f, source, rawCount).status == Warn <==>
      !ProcessedFails(f, rawCount) &&
      (MissingAboveThreshold(f, MissingThresholds) || exists k :: 0 <= k < |CategoryPairs| && PairWarns(f, CategoryPairs[k]))
  {
    CategoryWarningsNonEmpty(f, CategoryPairs);
  }

  // ---------------------------------------------------------------------
  // validate_with_integrity
  // ---------------------------------------------------------------------

  /** The tag that marks an all_data entry (df, name, tag) as restaurant metadata. */
  const RestaurantTag: string := "restaurant_info"

  /**
   * An entry of all_data: a review source (raw, processed, name) or restaurant
   * metadata (df, name, RestaurantTag). The loop tells them apart only by the
   * last component, so a review source named RestaurantTag is read as
   * restaurant metadata.
   */
  datatype Entry =
    | ReviewEntry(raw: Frame, processed: Frame, sourceName: string)
    | RestaurantEntry(df: Frame, sourceName: string)

  datatype SourceReport =
    | ReviewSource(report: Report, integrityRaw: Integrity, integrityProcessed: Integrity)
    | RestaurantSource(info: RestaurantReport)

  datatype Combined = Combined(sources: seq<SourceReport>, status: Status)

  function SourceStatus(r: SourceReport): Status {
    match r
    case ReviewSource(report, _, _) => report.status
    case RestaurantSource(info) => info.status
  }

  /** The dedup metrics merged into the checks; a conflicting id turns a pass into a warning. */
  function WithMetrics(r: Report, m: Metrics): Report {
    r.(checks := r.checks.(rowsDroppedDedup := Some(m.rowsDroppedDedup), conflictingIds := Some(m.conflictingIds)),
       status := if m.conflictingIds > 0 && r.status == Pass then Warn else r.status)
  }

  /** Whether the loop takes the restaurant branch for an entry. */
  predicate TakenAsRestaurant(e: Entry) {
    e.RestaurantEntry? || e.sourceName == RestaurantTag
  }

  /** The report validate_with_integrity appends for one entry. */
  function EntryReport(e: Entry): SourceReport {
    match e
    case RestaurantEntry(df, name) => RestaurantSource(RestaurantReportOf(df, Named(name)))
    case ReviewEntry(raw, processed, name) =>
      if name == RestaurantTag then RestaurantSource(RestaurantReportOf(raw, FrameLabel(processed)))
      else ReviewSource(
        WithMetrics(ProcessedReport(processed, name, Some(|raw.rows|)), DedupMetrics(raw, processed)),
        IntegrityReport(raw, "raw"),
        IntegrityReport(processed, "processed"))
  }

  /**
   * The loop dispatches on the last component: an entry is validated as
   * restaurant metadata exactly when it is tagged "restaurant_info", and that
   * report never warns; a review entry carrying that name is validated on its
   * raw frame, with the processed frame as its source.
   */
  lemma EntryBranch(e: Entry)
    ensures EntryReport(e).RestaurantSource? <==> TakenAsRestaurant(e)
    ensures EntryReport(e).RestaurantSource? ==> SourceStatus(EntryReport(e)) != Warn
    ensures e.ReviewEntry? && TakenAsRestaurant(e) ==>
      EntryReport(e).info.source == FrameLabel(e.processed) && EntryReport(e).info.rowCount == |e.raw.rows|
  {
    match e
    case RestaurantEntry(df, name) => RestaurantFailsIff(df, Named(name));
    case ReviewEntry(raw, processed, name) =>
      if name == RestaurantTag {
        RestaurantFailsIff(raw, FrameLabel(processed));
      }
  }

  /** The source reports of all entries, one per entry and in the same order. */
  function EntryReports(es: seq<Entry>): (rs: seq<SourceReport>)
    ensures |rs| == |es|
    decreases |es|
  {
    if es == [] then [] else EntryReports(es[..|es| - 1]) + [EntryReport(es[|es| - 1])]
  }

  lemma {:induction false} EntryReportsAt(es: seq<Entry>, k: nat)
    requires k < |es|
    ensures EntryReports(es)[k] == EntryReport(es[k])
    decreases |es|
  {
    if k < |es| - 1 {
      EntryReportsAt(es[..|es| - 1], k);
    }
  }

  /** The combined status: fail if any source fails, otherwise warn if any warns, otherwise pass. */
  function CombinedStatus(rs: seq<SourceReport>): Status {
    if exists i :: 0 <= i < |rs| && SourceStatus(rs[i]) == Fail then Fail
    else if exists i :: 0 <= i < |rs| && SourceStatus(rs[i]) == Warn then Warn
    else Pass
  }

  lemma CombinedStatusSnoc(rs: seq<SourceReport>, r: SourceReport)
    ensures CombinedStatus(rs + [r]) == Worst(CombinedStatus(rs), SourceStatus(r))
  {
    var t := rs + [r];
    assert t[|rs|] == r;
    assert forall i :: 0 <= i < |rs| ==> t[i] == rs[i];
    if exists i :: 0 <= i < |t| && SourceStatus(t[i]) == Fail {
      var i :| 0 <= i < |t| && SourceStatus(t[i]) == Fail;
      if i < |rs| { assert SourceStatus(rs[i]) == Fail; }
    }
    if exists i :: 0 <= i < |t| && SourceStatus(t[i]) == Warn {
      var i :| 0 <= i < |t| && SourceStatus(t[i]) == Warn;
      if i < |rs| { assert SourceStatus(rs[i]) == Warn; }
    }
  }

  /** A review entry whose processed frame carries each derived category only with its raw column. */
  predicate WellFormedEntry(e: Entry) {
    e.ReviewEntry? ==> CategoryColumnsPaired(e.processed)
  }

  /** validate_with_integrity: one report per entry, in order, and the combined status raised along the way. */
  method ValidateWithIntegrity(allData: seq<Entry>) returns (combined: Combined)
    requires forall k :: 0 <= k < |allData| ==> WellFormedEntry(allData[k])
    ensures combined.sources == EntryReports(allData)
    ensures combined.status == CombinedStatus(combined.sources)
  {
    combined := Combined([], Pass);
    for k := 0 to |allData|
      invariant combined.sources == EntryReports(allData[..k])
      invariant combined.status == CombinedStatus(combined.sources)
    {
      combined := ValidateStep(allData, k, combined);
    }
    assert allData[..|allData|] == allData;
  }

  /** The reports of a prefix one entry longer: one more report at the end. */
  lemma EntryReportsSnoc(es: seq<Entry>, k: nat)
    requires k < |es|
    ensures EntryReports(es[..k + 1]) == EntryReports(es[..k]) + [EntryReport(es[k])]
  {
    assert es[..k + 1][..k] == es[..k];
  }

  /** One pass of the loop: validate entry k, append its report and fold its status in. */
  method ValidateStep(allData: seq<Entry>, k: nat, combined: Combined) returns (next: Combined)
    requires k < |allData| && WellFormedEntry(allData[k])
    requires combined.sources == EntryReports(allData[..k])
    requires combined.status == CombinedStatus(combined.sources)
    ensures next.sources == EntryReports(allData[..k + 1])
    ensures next.status == CombinedStatus(next.sources)
  {
    EntryReportsSnoc(allData, k);
    var single := ValidateEntry(allData[k]);
    CombinedStatusSnoc(combined.sources, single);
    var status := RaiseStatus(combined.status, single);
    next := Combined(combined.sources + [single], status);
  }

  /** The combined status after one more source: a restaurant can only fail it, a review source fail or warn it. */
  method RaiseStatus(status0: Status, single: SourceReport) returns (status: Status)
    requires single.RestaurantSource? ==> single.info.status != Warn
    ensures status == Worst(status0, SourceStatus(single))
  {
    status := status0;
    if single.RestaurantSource? {
      if single.info.status == Fail {
        status := Fail;
      }
    } else if single.report.status == Fail {
      status := Fail;
    } else if single.report.status == Warn && status == Pass {
      status := Warn;
    }
  }

  /** The body of the loop for one entry, up to the append. */
  method ValidateEntry(e: Entry) returns (single: SourceReport)
    requires WellFormedEntry(e)
    ensures single == EntryReport(e)
    ensures single.RestaurantSource? <==> TakenAsRestaurant(e)
    ensures single.RestaurantSource? ==> single.info.status != Warn
  {
    match e
    case RestaurantEntry(df, name) =>
      var info := ValidateRestaurantInfo(df, Named(name));
      RestaurantFailsIff(df, Named(name));
      single := RestaurantSource(info);
    case ReviewEntry(raw, processed, name) =>
      if name == RestaurantTag {
        var info := ValidateRestaurantInfo(raw, FrameLabel(processed));
        RestaurantFailsIff(raw, FrameLabel(processed));
        single := RestaurantSource(info);
        return;
      }
      var pre := IntegrityReport(raw, "raw");
      var post := IntegrityReport(processed, "processed");
      var report := ValidateProcessedData(processed, name, Some(|raw.rows|));
      var metrics := DedupMetrics(raw, processed);
      report := report.(checks := report.checks.(rowsDroppedDedup := Some(metrics.rowsDroppedDedup), conflictingIds := Some(metrics.conflictingIds)));
      if metrics.conflictingIds > 0 && report.status == Pass {
        report := report.(status := Warn);
      }
      single := ReviewSource(report, pre, post);
  }
}
