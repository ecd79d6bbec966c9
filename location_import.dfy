/**
 The per-row decision procedure of the location import job: normalise the
 state, classify the site by the suffix of its name, and record the upserts
 and log events the job issues against the host store, row after row.

 The store itself is not modelled: every call into it is recorded as a
 `StoreAction`, and the two values the store hands back that the job uses
 (the Active status record and the `created` flag of the site upsert) are
 inputs of the model.
 */
module LocationImport {

  datatype Option<T> = None | Some(value: T)

  /** One parsed line of the CSV file, with its `name`, `city` and `state` columns. */
  datatype Row = Row(name: string, city: string, state: string)

  /** The Active status record the store returns; only its identity matters. */
  type StatusRef = nat

  /** Names of the location types the job looks up. */
  const StateType: string := "State"
  const CityType: string := "City"
  const DataCenterType: string := "Data Center"
  const BranchType: string := "Branch"

  /** Name of the status fetched (or created) once at the start of a run. */
  const ActiveStatus: string := "Active"

  /** The fixed abbreviation table of the job. */
  const StateMap: map<string, string> :=
    map["CO" := "Colorado", "VA" := "Virginia", "CA" := "California",
        "NJ" := "New Jersey", "IL" := "Illinois"]

  /** Exact, case-sensitive lookup in the abbreviation table; any other
      value is kept as it is. A result is never itself an abbreviation. */
  function NormalizeState(abbr: string): (r: string)
    ensures abbr in StateMap ==> r == StateMap[abbr]
    ensures abbr !in StateMap ==> r == abbr
    ensures r == abbr <==> abbr !in StateMap
    ensures r !in StateMap
  {
    if abbr in StateMap then StateMap[abbr] else abbr
  }

  /** Python's `str.endswith` for a single suffix. */
  predicate EndsWith(s: string, suffix: string)
  {
    |suffix| <= |s| && s[|s| - |suffix|..] == suffix
  }

  /** No name ends in both "-DC" and "-BR": their last characters differ. */
  lemma SuffixesExclusive(name: string)
    ensures !(EndsWith(name, "-DC") && EndsWith(name, "-BR"))
  {
  }

  /** The site type of a name, by its suffix; `None` when the row is to be skipped. */
  function Classify(name: string): (r: Option<string>)
    ensures r == Some(DataCenterType) <==> EndsWith(name, "-DC")
    ensures r == Some(BranchType) <==> EndsWith(name, "-BR")
    ensures r == None <==> !EndsWith(name, "-DC") && !EndsWith(name, "-BR")
  {
    SuffixesExclusive(name);
    if EndsWith(name, "-DC") then Some(DataCenterType)
    else if EndsWith(name, "-BR") then Some(BranchType)
    else None
  }

  /** A call into the host store. None of them carries a parent. */
  datatype StoreAction =
    | StatusGetOrCreate(statusName: string)
      /** `Location.objects.get_or_create`, keyed on name and status, with a default type. */
    | LocationGetOrCreate(name: string, status: StatusRef, locationType: string)
      /** `LocationType.objects.get_or_create`: the collection the job uses for the city. */
    | LocationTypeGetOrCreate(name: string, status: StatusRef, locationType: string)
      /** `Location.objects.update_or_create`, keyed on name and status, with a default type. */
    | LocationUpdateOrCreate(name: string, status: StatusRef, locationType: string)

  /** A log line, reduced to its kind and the site it names. */
  datatype LogEvent =
    | SkippedSite(site: string)
    | CreatedSite(site: string)
    | UpdatedSite(site: string)

  datatype Event = Store(action: StoreAction) | Log(entry: LogEvent)

  /** What one row contributes to the trace, given the `created` flag the
      store would answer for its site upsert. */
  function RowEvents(row: Row, active: StatusRef, created: bool): (es: seq<Event>)
    ensures |es| == if Classify(row.name).Some? then 4 else 1
    ensures es[|es| - 1].Log?
  {
    match Classify(row.name)
    case None => [Log(SkippedSite(row.name))]
    case Some(siteType) =>
      [ Store(LocationGetOrCreate(NormalizeState(row.state), active, StateType)),
        Store(LocationTypeGetOrCreate(row.city, active, CityType)),
        Store(LocationUpdateOrCreate(row.name, active, siteType)),
        Log(if created then CreatedSite(row.name) else UpdatedSite(row.name)) ]
  }

  /** A row whose name ends in neither suffix records one skip log event and
      no store action. */
  lemma RejectedRowEvents(row: Row, active: StatusRef, created: bool)
    requires !EndsWith(row.name, "-DC") && !EndsWith(row.name, "-BR")
    ensures RowEvents(row, active, created) == [Log(SkippedSite(row.name))]
  {
  }

  /** An accepted row records three upserts in the order state, city, site,
      followed by one outcome log event chosen by the `created` flag. */
  lemma AcceptedRowEvents(row: Row, active: StatusRef, created: bool, siteType: string)
    requires (EndsWith(row.name, "-DC") && siteType == DataCenterType)
          || (!EndsWith(row.name, "-DC") && EndsWith(row.name, "-BR") && siteType == BranchType)
    ensures RowEvents(row, active, created)
         == [ Store(LocationGetOrCreate(NormalizeState(row.state), active, StateType)),
              Store(LocationTypeGetOrCreate(row.city, active, CityType)),
              Store(LocationUpdateOrCreate(row.name, active, siteType)),
              Log(if created then CreatedSite(row.name) else UpdatedSite(row.name)) ]
  {
  }

  /** The contributions of rows `lo` up to (not including) `hi`, in file
      order; every row contributes at least its log event. `created[i]` is
      the store's answer for the site upsert of row `i`. */
  function RowsTrace(rows: seq<Row>, active: StatusRef, created: seq<bool>, lo: nat, hi: nat): (t: seq<Event>)
    requires |created| == |rows| && lo <= hi <= |rows|
    ensures |t| >= hi - lo
    decreases hi - lo
  {
    if hi == lo then []
    else RowsTrace(rows, active, created, lo, hi - 1) + RowEvents(rows[hi - 1], active, created[hi - 1])
  }

  /** Everything a run records: the status fetch, then every row. */
  function RunTrace(rows: seq<Row>, active: StatusRef, created: seq<bool>): (t: seq<Event>)
    requires |created| == |rows|
    ensures |t| >= 1 + |rows| && t[0] == Store(StatusGetOrCreate(ActiveStatus))
  {
    [Store(StatusGetOrCreate(ActiveStatus))] + RowsTrace(rows, active, created, 0, |rows|)
  }

  /** Handling one more row appends that row's events to what came before. */
  lemma RowsTraceExtend(rows: seq<Row>, active: StatusRef, created: seq<bool>, lo: nat, hi: nat)
    requires |created| == |rows| && lo <= hi < |rows|
    ensures RowsTrace(rows, active, created, lo, hi + 1)
         == RowsTrace(rows, active, created, lo, hi) + RowEvents(rows[hi], active, created[hi])
  {
  }

  lemma RunTraceExtend(rows: seq<Row>, active: StatusRef, created: seq<bool>, i: nat)
    requires |created| == |rows| && i < |rows|
    ensures [Store(StatusGetOrCreate(ActiveStatus))] + RowsTrace(rows, active, created, 0, i + 1)
         == [Store(StatusGetOrCreate(ActiveStatus))] + RowsTrace(rows, active, created, 0, i)
          + RowEvents(rows[i], active, created[i])
  {
    RowsTraceExtend(rows, active, created, 0, i);
  }

  /** The job's `run` over already-parsed rows. `active` is the status record
      the store returns for "Active"; `created[i]` the flag it returns for the
      site upsert of row `i`. */
  method Run(rows: seq<Row>, active: StatusRef, created: seq<bool>) returns (trace: seq<Event>)
    requires |created| == |rows|
    ensures trace == RunTrace(rows, active, created)
  {
    trace := [Store(StatusGetOrCreate(ActiveStatus))];
    for i := 0 to |rows|
      invariant trace == [Store(StatusGetOrCreate(ActiveStatus))] + RowsTrace(rows, active, created, 0, i)
    {
      ghost var before := trace;
      RunTraceExtend(rows, active, created, i);
      var row := rows[i];
      var state := NormalizeState(row.state);
      var locationType: string;
      if EndsWith(row.name, "-DC") {
        locationType := DataCenterType;
      } else if EndsWith(row.name, "-BR") {
        locationType := BranchType;
      } else {
        trace := trace + [Log(SkippedSite(row.name))];
        RejectedRowEvents(row, active, created[i]);
        continue;
      }
      var stateUpsert := Store(LocationGetOrCreate(state, active, StateType));
      var cityUpsert := Store(LocationTypeGetOrCreate(row.city, active, CityType));
      var siteUpsert := Store(LocationUpdateOrCreate(row.name, active, locationType));
      trace := trace + [stateUpsert];
      trace := trace + [cityUpsert];
      trace := trace + [siteUpsert];
      var outcome := if created[i] then Log(CreatedSite(row.name)) else Log(UpdatedSite(row.name));
      trace := trace + [outcome];
      assert trace == before + [stateUpsert, cityUpsert, siteUpsert, outcome];
      AcceptedRowEvents(row, active, created[i], locationType);
    }
  }
}
