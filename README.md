# Location import job — Dafny model

A model of the `ImportLocations` job (`jobs/location_import.py`). The job reads
a CSV file of sites (`name`, `city`, `state`) and, for each row in file order:

- normalises the state through a fixed five-entry abbreviation table;
- classifies the site by the suffix of its name (`-DC` is "Data Center", `-BR` is "Branch");
- skips the row with an error log when neither suffix applies;
- otherwise issues three upserts against the host store (state, city, site);
- logs whether the site was created or updated.

The host store is not modelled. Every call into it is recorded as a
`StoreAction` in a trace, and log lines are recorded as `LogEvent`s in the same
trace. The model has two inputs that stand for the store's answers:

- `active` is the status record returned for "Active";
- `created[i]` is the flag the site upsert of row `i` returns. Its length must
  equal the number of rows. Only accepted rows consult it.

The model follows the code as written, not the intended hierarchy:

- the city upsert is issued against the `LocationType` collection, not `Location`;
- no upsert carries a parent, so no state–city–site links are made;
- the suffix check comes before any upsert, so a rejected row touches nothing in the store.
  A description of the job in which the state and city of a rejected row are still
  upserted does not match the code; the model follows the code.

Files:

- `location_import.dfy` (module `LocationImport`) holds the data model, the pure
  functions (state normalisation, suffix classification) and the specification
  of the trace (`RowEvents`, `RowsTrace`, `RunTrace`). It also holds `Run`, the
  job's loop written as an imperative method and proved equal to `RunTrace`.
- `location_import_lemmas.dfy` (module `LocationImportLemmas`) holds the
  properties: one row's events, order and non-interleaving of rows, counts per
  kind of event, the sites upserted, and the use of the Active status.

## Model

| member | source | states |
|---|---|---|
| `LocationImport.NormalizeState` | jobs/location_import.py:33-51 | A table key maps to its full name and any other string is returned unchanged. The result equals the input exactly when the input is not a key. No result is itself a key. |
| `LocationImport.SuffixesExclusive` | jobs/location_import.py:53-56 | No name ends in both "-DC" and "-BR". |
| `LocationImport.Classify` | jobs/location_import.py:53-61 | "Data Center" exactly when the name ends in "-DC". "Branch" exactly when it ends in "-BR". No type (skip) exactly when neither suffix applies. |
| `LocationImport.RowEvents` | jobs/location_import.py:51-90 | A row contributes four events when its name has a valid suffix and one otherwise. Its last event is always a log event. |
| `LocationImport.RowsTrace` | jobs/location_import.py:46-90 | Every row contributes at least one event. |
| `LocationImport.RunTrace` | jobs/location_import.py:41-90 | A run starts with the fetch of the Active status and records at least one event per row after it. |
| `LocationImport.Run` | jobs/location_import.py:41-90 | The loop over the rows, with `continue` on a bad suffix and step-by-step upserts and logs, records exactly `RunTrace`. |
| `LocationImportLemmas.KnownAbbreviations` | jobs/location_import.py:33-39 | CO, VA, CA, NJ and IL become Colorado, Virginia, California, New Jersey and Illinois. |
| `LocationImportLemmas.LookupIsExact` | jobs/location_import.py:51 | The lookup is case-sensitive: "co" and "nj" stay as they are, and so does a full name. |
| `LocationImportLemmas.NormalizeIdempotent` | jobs/location_import.py:51 | Normalising an already normalised state changes nothing. |
| `LocationImportLemmas.ClassifyTypes` | jobs/location_import.py:53-61 | A name is accepted exactly when it ends in one of the two suffixes. An accepted name gets one of the two types, and at most one suffix applies. |
| `LocationImport.RejectedRowEvents` | jobs/location_import.py:57-61 | A name with neither suffix yields one skip log event and no store action. |
| `LocationImport.AcceptedRowEvents` | jobs/location_import.py:63-90 | An accepted row records, in this order: a Location get-or-create on the normalised state with type "State"; a LocationType get-or-create on the raw city with type "City"; a Location update-or-create on the literal name with the classified type. Then it records one "Created site" or "Updated site" log, chosen by the created flag. |
| `LocationImportLemmas.RowsTraceSplit` | jobs/location_import.py:46-90 | The events of a range of rows are those of its first part followed by those of its second part. |
| `LocationImportLemmas.RowBlock` | jobs/location_import.py:46-90 | Row `i`'s events come after those of every earlier row and before those of every later row, whether or not it was skipped. |
| `LocationImportLemmas.RowsTraceOfPrefix` | jobs/location_import.py:46 | The events of the first rows do not depend on the rows after them. |
| `LocationImportLemmas.RunOfPrefix` | jobs/location_import.py:46-90 | A run over the whole file is the run over its first `i` rows followed by the events of the remaining rows. |
| `LocationImportLemmas.RowEventsCounts` | jobs/location_import.py:53-90 | An accepted row makes three store actions, one of them a site upsert, and one outcome log. A rejected row makes one skip log. Neither fetches the status. |
| `LocationImportLemmas.RowsTraceStoreCounts` | jobs/location_import.py:46-85 | Over the first `hi` rows: three store actions per accepted row, one site upsert per accepted row, no status fetch. |
| `LocationImportLemmas.RowsTraceLogCounts` | jobs/location_import.py:46-90 | Over the first `hi` rows: one outcome log per accepted row, one skip log per rejected row, one log event per row. |
| `LocationImportLemmas.RunStoreCounts` | jobs/location_import.py:41-85 | Over a whole run: one status fetch, 1 + 3·(accepted rows) store actions, and one site upsert per row with a valid suffix. |
| `LocationImportLemmas.RunLogCounts` | jobs/location_import.py:46-90 | Over a whole run: one outcome log per accepted row, one skip log per rejected row, one log event per row. |
| `LocationImportLemmas.RowSiteUpserts` | jobs/location_import.py:53-85 | A row's site upserts are one upsert of its literal name with its classified type, or none when it is rejected. |
| `LocationImportLemmas.RowsSiteUpserts` | jobs/location_import.py:46-85 | The site upserts of the first `hi` rows are the expected ones for those rows, in order. |
| `LocationImportLemmas.SitesFollowRows` | jobs/location_import.py:46-85 | The site upserts of a run are exactly the rows with a valid suffix, in file order. Each is keyed on the literal name, carries the type its suffix names and uses the Active status. |
| `LocationImportLemmas.ExpectedSitesTyped` | jobs/location_import.py:53-85 | There is one expected site per accepted row. Each is an update-or-create with the Active status, and its type matches the suffix of its name. |
| `LocationImportLemmas.RowsTraceUsesActive` | jobs/location_import.py:63-85 | No row fetches the status again. Every upsert a row makes carries the Active status record. |
| `LocationImportLemmas.StatusFetchedOnce` | jobs/location_import.py:41-85 | The Active status is fetched once, as the first event before any row. Every later store action is an upsert carrying that status. |
| `LocationImportLemmas.ExampleDataCenterRow` | jobs/location_import.py:46-90 | The row ("NYC01-DC", "New York", "NJ") upserts state "New Jersey", city "New York" (as a LocationType) and site "NYC01-DC" as a "Data Center", then logs its creation. |
| `LocationImportLemmas.ExampleBadSuffixRow` | jobs/location_import.py:46-61 | The row ("NYC01-XX", "New York", "NJ") only logs a skip. No state or city upsert is made for it. |

## Left out

- Reading and UTF-8 decoding of the uploaded file and CSV parsing (jobs/location_import.py:42-44) are left out. This is standard-library I/O. The model takes already-parsed rows with all three columns present, so a missing column (a `KeyError`) or a short row is not modelled.
- The semantics of `get_or_create`, `update_or_create` and `Status.objects.get_or_create` are left out. These calls belong to the host application's ORM. They are recorded as actions. Their results enter the model as `active` and `created`, so re-running the import is not shown to be idempotent.
- The `LocationType.objects.get(name=...)` lookups in the `defaults` arguments are left out as separate events. Each one shows up as the type name its upsert carries. Their failure when a type is missing raises an exception that aborts the run, and that failure is not modelled.
- The logger API is left out. Line 88 calls `self.job.logger(...)` as a function, and line 90 calls `self.log_info`. A log line becomes an abstract event that holds its kind and the site name; the message text and log level are not kept.
- The job's metadata, the `FileVar` input, `__init__`, the assignment to `self.csv_file` and `register_jobs` (jobs/location_import.py:16-30, 42, 93-94) are framework plumbing and are left out.
- The intended hierarchy is not modelled. That design has the city as a `Location` under its state and the site under its city. The code does neither, and the model follows the code.
