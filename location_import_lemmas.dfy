/**
 Properties of the location import trace: what the state lookup and the
 suffix classification return, what a single row records, that rows are
 recorded whole and in file order, how many of each action a run records,
 and that the status is fetched once and used by every upsert.
 */
module LocationImportLemmas {
  import opened LocationImport

  // ---------------------------------------------------------------------------
  // State normalisation and classification

  /** The five abbreviations of the table and their full names. */
  lemma KnownAbbreviations()
    ensures NormalizeState("CO") == "Colorado"
    ensures NormalizeState("VA") == "Virginia"
    ensures NormalizeState("CA") == "California"
    ensures NormalizeState("NJ") == "New Jersey"
    ensures NormalizeState("IL") == "Illinois"
  {
  }

  /** The lookup is case-sensitive: lower-case abbreviations, and names
      already spelt out, pass through unchanged. */
  lemma LookupIsExact()
    ensures NormalizeState("co") == "co"
    ensures NormalizeState("nj") == "nj"
    ensures NormalizeState("Colorado") == "Colorado"
  {
    assert "co" != "CO" by { assert "co"[0] != "CO"[0]; }
    assert "nj" != "NJ" by { assert "nj"[0] != "NJ"[0]; }
  }

  /** Normalising twice is normalising once. */
  lemma NormalizeIdempotent(s: string)
    ensures NormalizeState(NormalizeState(s)) == NormalizeState(s)
  {
  }

  /** At most one suffix applies, and a classified site has one of the two types. */
  lemma ClassifyTypes(name: string)
    ensures Classify(name).Some? <==> EndsWith(name, "-DC") || EndsWith(name, "-BR")
    ensures Classify(name).Some? ==> Classify(name).value in {DataCenterType, BranchType}
    ensures !(EndsWith(name, "-DC") && EndsWith(name, "-BR"))
  {
  }

  // ---------------------------------------------------------------------------
  // Order: rows are recorded whole and in file order

  /** The events of a range of rows are those of its two halves, one after
      the other. */
  lemma {:induction false} RowsTraceSplit(
    rows: seq<Row>, active: StatusRef, created: seq<bool>, lo: nat, mid: nat, hi: nat)
    requires |created| == |rows| && lo <= mid <= hi <= |rows|
    ensures RowsTrace(rows, active, created, lo, hi)
         == RowsTrace(rows, active, created, lo, mid) + RowsTrace(rows, active, created, mid, hi)
    decreases hi - mid
  {
    if hi == mid {
      assert RowsTrace(rows, active, created, mid, hi) == [];
    } else {
      RowsTraceSplit(rows, active, created, lo, mid, hi - 1);
    }
  }

  /** Row `i`'s events sit between those of the rows before it and those of
      the rows after it: a skipped row does not stop the run, and the events
      of two rows never interleave. */
  lemma RowBlock(rows: seq<Row>, active: StatusRef, created: seq<bool>, i: nat)
    requires |created| == |rows| && i < |rows|
    ensures RowsTrace(rows, active, created, 0, |rows|)
         == RowsTrace(rows, active, created, 0, i)
          + RowEvents(rows[i], active, created[i])
          + RowsTrace(rows, active, created, i + 1, |rows|)
  {
    RowsTraceSplit(rows, active, created, 0, i + 1, |rows|);
    RowsTraceSplit(rows, active, created, 0, i, i + 1);
    assert RowsTrace(rows, active, created, i, i + 1) == RowEvents(rows[i], active, created[i]);
  }

  /** The events of the first `hi` rows do not depend on the rows after them. */
  lemma {:induction false} RowsTraceOfPrefix(
    rows: seq<Row>, active: StatusRef, created: seq<bool>, i: nat, hi: nat)
    requires |created| == |rows| && hi <= i <= |rows|
    ensures RowsTrace(rows[..i], active, created[..i], 0, hi) == RowsTrace(rows, active, created, 0, hi)
  {
    if hi > 0 {
      RowsTraceOfPrefix(rows, active, created, i, hi - 1);
    }
  }

  /** A run over the whole file is a run over its first `i` rows followed by
      the events of the remaining rows. */
  lemma RunOfPrefix(rows: seq<Row>, active: StatusRef, created: seq<bool>, i: nat)
    requires |created| == |rows| && i <= |rows|
    ensures RunTrace(rows, active, created)
         == RunTrace(rows[..i], active, created[..i]) + RowsTrace(rows, active, created, i, |rows|)
  {
    RowsTraceOfPrefix(rows, active, created, i, i);
    RowsTraceSplit(rows, active, created, 0, i, |rows|);
  }

  // ---------------------------------------------------------------------------
  // Counting

  /** The kinds of event the counting lemmas count. */
  datatype EventKind =
    | AnyStore     // any call into the store
    | StatusFetch  // the get-or-create of the Active status
    | SiteUpsert   // the update-or-create of a site
    | SkipLog      // the error logged for a rejected row
    | OutcomeLog   // "Created site" or "Updated site"
    | AnyLog       // any log event

  predicate OfKind(e: Event, k: EventKind)
  {
    match k
    case AnyStore => e.Store?
    case StatusFetch => e.Store? && e.action.StatusGetOrCreate?
    case SiteUpsert => e.Store? && e.action.LocationUpdateOrCreate?
    case SkipLog => e.Log? && e.entry.SkippedSite?
    case OutcomeLog => e.Log? && !e.entry.SkippedSite?
    case AnyLog => e.Log?
  }

  /** Number of events of a trace of the given kind. */
  function CountOf(t: seq<Event>, kind: EventKind): nat
  {
    if t == [] then 0
    else CountOf(t[..|t| - 1], kind) + (if OfKind(t[|t| - 1], kind) then 1 else 0)
  }

  lemma {:induction false} CountOfAppend(t1: seq<Event>, t2: seq<Event>, kind: EventKind)
    ensures CountOf(t1 + t2, kind) == CountOf(t1, kind) + CountOf(t2, kind)
    decreases |t2|
  {
    if t2 == [] {
      assert t1 + t2 == t1;
    } else {
      var t := t1 + t2;
      assert t[..|t| - 1] == t1 + t2[..|t2| - 1];
      CountOfAppend(t1, t2[..|t2| - 1], kind);
    }
  }


  /** Number of rows whose name carries one of the two suffixes. */
  function CountAccepted(rows: seq<Row>): nat
  {
    if rows == [] then 0
    else CountAccepted(rows[..|rows| - 1]) + (if Classify(rows[|rows| - 1].name).Some? then 1 else 0)
  }

  lemma RowEventsCounts(row: Row, active: StatusRef, created: bool)
    ensures var es := RowEvents(row, active, created);
      var k := if Classify(row.name).Some? then 1 else 0;
      && CountOf(es, AnyStore) == 3 * k
      && CountOf(es, StatusFetch) == 0
      && CountOf(es, SiteUpsert) == k
      && CountOf(es, SkipLog) == 1 - k
      && CountOf(es, OutcomeLog) == k
      && CountOf(es, AnyLog) == 1
  {
    var es := RowEvents(row, active, created);
    if Classify(row.name).Some? {
      CountOfOfFour(es, AnyStore);
      CountOfOfFour(es, StatusFetch);
      CountOfOfFour(es, SiteUpsert);
      CountOfOfFour(es, SkipLog);
      CountOfOfFour(es, OutcomeLog);
      CountOfOfFour(es, AnyLog);
    } else {
      assert es[..0] == [];
    }
  }

  lemma CountOfOfFour(t: seq<Event>, kind: EventKind)
    requires |t| == 4
    ensures CountOf(t, kind) == (if OfKind(t[0], kind) then 1 else 0) + (if OfKind(t[1], kind) then 1 else 0)
                              + (if OfKind(t[2], kind) then 1 else 0) + (if OfKind(t[3], kind) then 1 else 0)
  {
    var t3, t2, t1 := t[..3], t[..2], t[..1];
    assert t3[..2] == t2 && t2[..1] == t1 && t1[..0] == [];
    assert CountOf(t1, kind) == (if OfKind(t[0], kind) then 1 else 0);
    assert CountOf(t2, kind) == CountOf(t1, kind) + (if OfKind(t[1], kind) then 1 else 0);
    assert CountOf(t3, kind) == CountOf(t2, kind) + (if OfKind(t[2], kind) then 1 else 0);
  }

  /** Per kind of store actions, how many the first `hi` rows record. */
  lemma {:induction false} RowsTraceStoreCounts(rows: seq<Row>, active: StatusRef, created: seq<bool>, hi: nat)
    requires |created| == |rows| && hi <= |rows|
    ensures var t := RowsTrace(rows, active, created, 0, hi);
      var k := CountAccepted(rows[..hi]);
      && CountOf(t, AnyStore) == 3 * k
      && CountOf(t, StatusFetch) == 0
      && CountOf(t, SiteUpsert) == k
    decreases hi
  {
    if hi > 0 {
      var k0 := CountAccepted(rows[..hi - 1]);
      var a := if Classify(rows[hi - 1].name).Some? then 1 else 0;
      RowsTraceStoreCounts(rows, active, created, hi - 1);
      RowEventsCounts(rows[hi - 1], active, created[hi - 1]);
      CountAcceptedSnoc(rows, hi);
      CountOfExtend(rows, active, created, hi, AnyStore, 3 * k0, 3 * a);
      CountOfExtend(rows, active, created, hi, StatusFetch, 0, 0);
      CountOfExtend(rows, active, created, hi, SiteUpsert, k0, a);
    }
  }

  /** Per kind of log events, how many the first `hi` rows record. */
  lemma {:induction false} RowsTraceLogCounts(rows: seq<Row>, active: StatusRef, created: seq<bool>, hi: nat)
    requires |created| == |rows| && hi <= |rows|
    ensures var t := RowsTrace(rows, active, created, 0, hi);
      var k := CountAccepted(rows[..hi]);
      && CountOf(t, SkipLog) == hi - k
      && CountOf(t, OutcomeLog) == k
      && CountOf(t, AnyLog) == hi
    decreases hi
  {
    if hi > 0 {
      var k0 := CountAccepted(rows[..hi - 1]);
      var a := if Classify(rows[hi - 1].name).Some? then 1 else 0;
      RowsTraceLogCounts(rows, active, created, hi - 1);
      RowEventsCounts(rows[hi - 1], active, created[hi - 1]);
      CountAcceptedSnoc(rows, hi);
      CountOfExtend(rows, active, created, hi, SkipLog, hi - 1 - k0, 1 - a);
      CountOfExtend(rows, active, created, hi, OutcomeLog, k0, a);
      CountOfExtend(rows, active, created, hi, AnyLog, hi - 1, 1);
    }
  }

  /** One inductive step of the counts: the count over `hi` rows is the
      count over the first `hi - 1` plus the count over the last row. */
  lemma CountOfExtend(rows: seq<Row>, active: StatusRef, created: seq<bool>, hi: nat, kind: EventKind, n: nat, m: nat)
    requires |created| == |rows| && 0 < hi <= |rows|
    requires CountOf(RowsTrace(rows, active, created, 0, hi - 1), kind) == n
    requires CountOf(RowEvents(rows[hi - 1], active, created[hi - 1]), kind) == m
    ensures CountOf(RowsTrace(rows, active, created, 0, hi), kind) == n + m
  {
    RowsTraceExtend(rows, active, created, 0, hi - 1);
    CountOfAppend(RowsTrace(rows, active, created, 0, hi - 1), RowEvents(rows[hi - 1], active, created[hi - 1]), kind);
  }

  /** Counting over one more row adds that row when it is accepted. */
  lemma CountAcceptedSnoc(rows: seq<Row>, hi: nat)
    requires 0 < hi <= |rows|
    ensures CountAccepted(rows[..hi])
         == CountAccepted(rows[..hi - 1]) + (if Classify(rows[hi - 1].name).Some? then 1 else 0)
    ensures CountAccepted(rows[..hi - 1]) <= hi - 1
  {
    assert rows[..hi][..hi - 1] == rows[..hi - 1];
    CountAcceptedBound(rows[..hi - 1]);
  }

  lemma {:induction false} CountAcceptedBound(rows: seq<Row>)
    ensures CountAccepted(rows) <= |rows|
    decreases |rows|
  {
    if rows != [] {
      CountAcceptedBound(rows[..|rows| - 1]);
    }
  }

  /** A run records one status fetch, then three store actions per accepted
      row, one of them its site upsert. */
  lemma RunStoreCounts(rows: seq<Row>, active: StatusRef, created: seq<bool>)
    requires |created| == |rows|
    ensures var t := RunTrace(rows, active, created);
      && CountOf(t, StatusFetch) == 1
      && CountOf(t, AnyStore) == 1 + 3 * CountAccepted(rows)
      && CountOf(t, SiteUpsert) == CountAccepted(rows)
  {
    var k := CountAccepted(rows);
    assert CountAccepted(rows[..|rows|]) == k by {
      assert rows[..|rows|] == rows;
    }
    RowsTraceStoreCounts(rows, active, created, |rows|);
    CountOfRun(rows, active, created, StatusFetch, 0);
    CountOfRun(rows, active, created, AnyStore, 3 * k);
    CountOfRun(rows, active, created, SiteUpsert, k);
  }

  /** A run records one log event per row: an outcome log for each accepted
      row and a skip log for each rejected one. */
  lemma RunLogCounts(rows: seq<Row>, active: StatusRef, created: seq<bool>)
    requires |created| == |rows|
    ensures var t := RunTrace(rows, active, created);
      && CountOf(t, OutcomeLog) == CountAccepted(rows)
      && CountOf(t, SkipLog) == |rows| - CountAccepted(rows)
      && CountOf(t, AnyLog) == |rows|
  {
    var k := CountAccepted(rows);
    assert CountAccepted(rows[..|rows|]) == k by {
      assert rows[..|rows|] == rows;
    }
    RowsTraceLogCounts(rows, active, created, |rows|);
    CountOfRun(rows, active, created, OutcomeLog, k);
    CountOfRun(rows, active, created, SkipLog, |rows| - k);
    CountOfRun(rows, active, created, AnyLog, |rows|);
  }

  /** The status fetch counts once, ahead of the rows, for the kinds it is of. */
  lemma CountOfRun(rows: seq<Row>, active: StatusRef, created: seq<bool>, kind: EventKind, n: nat)
    requires |created| == |rows|
    requires CountOf(RowsTrace(rows, active, created, 0, |rows|), kind) == n
    ensures CountOf(RunTrace(rows, active, created), kind)
         == if kind == AnyStore || kind == StatusFetch then n + 1 else n
  {
    var head := [Store(StatusGetOrCreate(ActiveStatus))];
    CountOfAppend(head, RowsTrace(rows, active, created, 0, |rows|), kind);
    assert head[..0] == [];
  }

  // ---------------------------------------------------------------------------
  // Sites: which, with which type, in which order

  /** The site upserts of a trace, in order. */
  function SiteUpserts(t: seq<Event>): seq<StoreAction>
  {
    if t == [] then []
    else
      var e := t[|t| - 1];
      SiteUpserts(t[..|t| - 1]) + (if OfKind(e, SiteUpsert) then [e.action] else [])
  }

  /** Reference: the rows with a valid suffix, each as an upsert of its literal
      name with the type its suffix names. */
  function ExpectedSites(rows: seq<Row>, active: StatusRef): seq<StoreAction>
  {
    if rows == [] then []
    else
      var row := rows[|rows| - 1];
      ExpectedSites(rows[..|rows| - 1], active)
        + (match Classify(row.name)
           case Some(siteType) => [LocationUpdateOrCreate(row.name, active, siteType)]
           case None => [])
  }

  lemma {:induction false} SiteUpsertsAppend(t1: seq<Event>, t2: seq<Event>)
    ensures SiteUpserts(t1 + t2) == SiteUpserts(t1) + SiteUpserts(t2)
    decreases |t2|
  {
    if t2 == [] {
      assert t1 + t2 == t1;
    } else {
      var t := t1 + t2;
      assert t[..|t| - 1] == t1 + t2[..|t2| - 1];
      SiteUpsertsAppend(t1, t2[..|t2| - 1]);
    }
  }

  lemma RowSiteUpserts(row: Row, active: StatusRef, created: bool)
    ensures SiteUpserts(RowEvents(row, active, created))
         == match Classify(row.name)
            case Some(siteType) => [LocationUpdateOrCreate(row.name, active, siteType)]
            case None => []
  {
    var es := RowEvents(row, active, created);
    if Classify(row.name).Some? {
      SiteUpsertsAppend(es[..3], es[3..]);
      SiteUpsertsAppend(es[..2], es[2..3]);
      SiteUpsertsAppend(es[..1], es[1..2]);
      assert es[..3] == es[..2] + es[2..3];
      assert es[..2] == es[..1] + es[1..2];
      assert es == es[..3] + es[3..];
      assert es[..1][..0] == [];
      assert es[1..2][..0] == [];
      assert es[2..3][..0] == [];
      assert es[3..][..0] == [];
    } else {
      assert es[..0] == [];
    }
  }

  /** The site upserts of the first `hi` rows are those expected of them. */
  lemma {:induction false} RowsSiteUpserts(rows: seq<Row>, active: StatusRef, created: seq<bool>, hi: nat)
    requires |created| == |rows| && hi <= |rows|
    ensures SiteUpserts(RowsTrace(rows, active, created, 0, hi)) == ExpectedSites(rows[..hi], active)
    decreases hi
  {
    if hi > 0 {
      RowsSiteUpserts(rows, active, created, hi - 1);
      SiteUpsertsAppend(RowsTrace(rows, active, created, 0, hi - 1), RowEvents(rows[hi - 1], active, created[hi - 1]));
      RowSiteUpserts(rows[hi - 1], active, created[hi - 1]);
      assert rows[..hi][..hi - 1] == rows[..hi - 1];
    }
  }

  /** The site upserts of a run are exactly the rows with a valid suffix, in
      file order, each keyed on its literal name with the type its suffix names. */
  lemma SitesFollowRows(rows: seq<Row>, active: StatusRef, created: seq<bool>)
    requires |created| == |rows|
    ensures SiteUpserts(RunTrace(rows, active, created)) == ExpectedSites(rows, active)
  {
    var head := [Store(StatusGetOrCreate(ActiveStatus))];
    assert head[..0] == [];
    SiteUpsertsAppend(head, RowsTrace(rows, active, created, 0, |rows|));
    RowsSiteUpserts(rows, active, created, |rows|);
    assert rows[..|rows|] == rows;
  }

  /** Every expected site upsert carries a name with a valid suffix and the
      type that suffix names; none carries any other type. */
  lemma {:induction false} ExpectedSitesTyped(rows: seq<Row>, active: StatusRef)
    ensures |ExpectedSites(rows, active)| == CountAccepted(rows)
    ensures forall s :: s in ExpectedSites(rows, active) ==>
      && s.LocationUpdateOrCreate?
      && s.status == active
      && ((EndsWith(s.name, "-DC") && s.locationType == DataCenterType)
       || (EndsWith(s.name, "-BR") && s.locationType == BranchType))
    decreases |rows|
  {
    if rows != [] {
      ExpectedSitesTyped(rows[..|rows| - 1], active);
    }
  }

  // ---------------------------------------------------------------------------
  // The Active status

  /** A later event either is a log event, or is an upsert that carries the
      status fetched at the start. */
  predicate UsesActive(e: Event, active: StatusRef)
  {
    e.Store? ==> !e.action.StatusGetOrCreate? && e.action.status == active
  }

  lemma {:induction false} RowsTraceUsesActive(rows: seq<Row>, active: StatusRef, created: seq<bool>, hi: nat)
    requires |created| == |rows| && hi <= |rows|
    ensures forall e :: e in RowsTrace(rows, active, created, 0, hi) ==> UsesActive(e, active)
    decreases hi
  {
    if hi > 0 {
      RowsTraceUsesActive(rows, active, created, hi - 1);
    }
  }

  /** The status is fetched once, first, before any row; every upsert of the
      run carries that status. */
  lemma StatusFetchedOnce(rows: seq<Row>, active: StatusRef, created: seq<bool>)
    requires |created| == |rows|
    ensures var t := RunTrace(rows, active, created);
      && t[0] == Store(StatusGetOrCreate(ActiveStatus))
      && forall k :: 1 <= k < |t| ==> UsesActive(t[k], active)
  {
    var t := RunTrace(rows, active, created);
    RowsTraceUsesActive(rows, active, created, |rows|);
    forall k | 1 <= k < |t|
      ensures UsesActive(t[k], active)
    {
      assert t[k] == RowsTrace(rows, active, created, 0, |rows|)[k - 1];
    }
  }

  // ---------------------------------------------------------------------------
  // The two worked examples

  /** A data-centre row in New Jersey. */
  lemma ExampleDataCenterRow(active: StatusRef)
    ensures RunTrace([Row("NYC01-DC", "New York", "NJ")], active, [true])
         == [ Store(StatusGetOrCreate("Active")),
              Store(LocationGetOrCreate("New Jersey", active, "State")),
              Store(LocationTypeGetOrCreate("New York", active, "City")),
              Store(LocationUpdateOrCreate("NYC01-DC", active, "Data Center")),
              Log(CreatedSite("NYC01-DC")) ]
  {
    var row := Row("NYC01-DC", "New York", "NJ");
    assert EndsWith(row.name, "-DC") by {
      assert row.name[|row.name| - 3..] == "-DC";
    }
    assert RowsTrace([row], active, [true], 0, 1) == RowEvents(row, active, true);
  }

  /** A row with an unknown suffix: one skip log event, nothing stored. */
  lemma ExampleBadSuffixRow(active: StatusRef, created: bool)
    ensures RunTrace([Row("NYC01-XX", "New York", "NJ")], active, [created])
         == [ Store(StatusGetOrCreate("Active")),
              Log(SkippedSite("NYC01-XX")) ]
  {
    var row := Row("NYC01-XX", "New York", "NJ");
    assert !EndsWith(row.name, "-DC") by {
      assert row.name[|row.name| - 1] != 'C';
    }
    assert !EndsWith(row.name, "-BR") by {
      assert row.name[|row.name| - 1] != 'R';
    }
    assert RowsTrace([row], active, [created], 0, 1) == RowEvents(row, active, created);
  }
}
