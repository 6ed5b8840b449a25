# RSSI dashboard — the telemetry pipeline in Dafny

The RSSI dashboard polls a telemetry channel for signal-strength readings and
shows them. Each page render runs one pass. The pass fetches the channel's
feed list and walks it in order. Records whose `field1` is absent or null are
passed over. For each other record the pass converts `field1` to an integer
with `int(float(...))` and takes its `created_at`. This builds two parallel
columns, Time and RSSI. The pass then adds a Status column that bands each
RSSI into Strong, Average or Weak. It shows the last reading with its status
as the "latest" tile, and the last ten rows as the log table.

This project models that pipeline:

- `results.dfy` (`Results`): `Option` and `Result`.
- `signal.dfy` (`Signal`): the `Status` enumeration, its rank order, and the
  classifier `RssiStatus` exactly as written, with its effective bands.
- `feed.dfy` (`Feed`): feed records with optional fields, and the conversion
  of a float to an integer (truncation toward zero). It has the normalisation
  pass twice: as a recursive reference function `Normalize`, characterised by
  `NormalizeSpec`, and as the loop `NormalizeFeeds`, which mirrors the source
  statement for statement and is proved equal to it.
- `views.dfy` (`Views`): the table with its Status column, the latest reading,
  and the tail window of the log table.
- `dashboard.dfy` (`Dashboard`): one whole render pass. It covers the guarded
  block, which either completes or shows the error message. It also covers
  the unguarded read of the latest reading.

Three behaviours of `app.py` shape the model:

- Only a record whose `field1` is absent or null is skipped (app.py:65). A
  record whose `field1` does not convert with `int(float(...))`, or that has
  no `created_at`, raises inside the `try` (app.py:66-67). The whole pass then
  shows the error message and stops (app.py:86-88; `NormalizeFailure`,
  `RenderCycle`).
- There is no "no data" state. The latest reading is read with `iloc[-1]`
  outside the `try` (app.py:91), so an empty table ends the pass in an
  uncaught exception (`Screen.Uncaught`, `UncaughtWithoutReadings`,
  `EmptyFeedUncaught`).
- The Average branch tests `-70 <= rssi < -50` (app.py:78), but readings at
  or above -55 are all taken by the Strong branch first (app.py:76). The
  `< -50` edge never takes effect, and the effective Average band is -70 to
  -56 (`DeadUpperEdge`).

## Model

| member | source | states |
|---|---|---|
| Signal.RssiStatus | app.py:75-81 | the status is Strong exactly in the Strong band (rssi >= -55), Average exactly in the Average band (-70 to -56) and Weak exactly in the Weak band (below -70) |
| Signal.BandsPartition | app.py:75-81 | the three bands cover every integer and are pairwise disjoint |
| Signal.DeadUpperEdge | app.py:76-79 | the written Average edge `< -50` is dead: the classifier agrees with the `< -55` rule everywhere |
| Signal.StatusMonotone | app.py:75-81 | a reading at least as strong never gets a lower status (Weak < Average < Strong) |
| Feed.Trunc | app.py:66 | `int(float(v))` drops the fraction: the result lies within one of the value, on the side of zero |
| Feed.TruncWhole | app.py:66 | a whole-number reading converts to itself |
| Feed.Selected | app.py:64-65 | the ascending positions of exactly the records whose `field1` is present and not null |
| Feed.SelectedEmpty | app.py:64-65 | no record is selected exactly when no record has a present, non-null `field1` |
| Feed.Normalize | app.py:61-72 | a pass that completes builds Time and RSSI columns of equal length |
| Feed.NormalizeFailure | app.py:64-67 | the pass raises exactly when some record with a reading has a non-numeric `field1` or no `created_at`, and then at the first such record, with the error that record raises |
| Feed.NormalizeRows | app.py:61-67 | a completed pass holds one row per record with a reading, in input order, with that record's `created_at` and truncated reading |
| Feed.NormalizeSpec | app.py:60-72 | the whole outcome of a pass: raises exactly when some record with a reading is broken, at the first one; otherwise one row per record with a reading, in order, with its timestamp and truncated reading |
| Feed.NormalizeOne | app.py:64-67 | a list of one usable record passes to one row with that record's `created_at` and truncated reading |
| Feed.NormalizeSnoc | app.py:64-67 | one more record extends the pass by one loop iteration: skip, raise, or append to both columns |
| Feed.FailurePersists | app.py:64-67 | once a prefix of the feed list raises, the whole pass raises the same error |
| Feed.NormalizeFeeds | app.py:61-67 | the loop as written, which appends as it goes and stops at the first raise, computes the same outcome as `Normalize` |
| Feed.SelectedAll | app.py:64-65 | when every record has a reading, every record is selected, in order |
| Feed.NormalizeDenormalize | app.py:61-72 | normalisation is idempotent: columns written back as numeric records normalise to the same columns |
| Feed.UnreportedIgnored | app.py:65 | a record with absent or null `field1` appended at the end of a successful feed list changes nothing |
| Feed.SameLastRecord | app.py:64-67 | the outcome of a pass depends only on the outcome before the last record and on that record |
| Feed.FrontSucceeds | app.py:64-67 | a pass that completes also completes without its last record |
| Feed.InsertBeforeLast | app.py:64-67 | a record that is skipped within the list without its last record is also skipped in the whole list |
| Feed.UnreportedIgnoredAnywhere | app.py:64-65 | a record with absent or null `field1` inserted at any position of a successful feed list changes nothing |
| Views.StatusColumn | app.py:84 | the Status column has one entry per RSSI, entry i being the status of RSSI i |
| Views.WithStatus | app.py:69-84 | the table keeps Time and RSSI unchanged and adds a Status column of the same length |
| Views.Latest | app.py:91 | the latest reading exists only for a non-empty column and is one of its entries |
| Views.LatestOfAppend | app.py:91 | the last reading appended is the latest |
| Views.Tail | app.py:146 | the log view is a suffix of the column of length min(n, size), in order |
| Views.TailIdempotent | app.py:146 | taking the tail of the tail changes nothing |
| Views.TailKeepsLatest | app.py:146 | the log view of a non-empty column is non-empty and ends with the latest reading |
| Views.StatusOfTail | app.py:84 | classifying the last rows gives the last rows of the Status column |
| Views.LatestStatusAgrees | app.py:91-92 | the status recomputed for the latest tile equals the last entry of the Status column |
| Views.TailFrame | app.py:146 | the log table has min(10, n) rows, each equal in all three columns to the matching row at the end of the table |
| Dashboard.Present | app.py:84-92 | after the guarded block: the pass is uncaught exactly when the table is empty; otherwise the table keeps both columns, adds each row's status, and the latest tile shows the last row and its status, with the last ten rows as the log |
| Dashboard.UncaughtWithoutReadings | app.py:64-91 | a completed pass ends uncaught exactly when no record has a reading |
| Dashboard.ShownRows | app.py:61-84 | a shown page holds one row per record with a reading, in input order, with its timestamp, truncated reading and status |
| Dashboard.PassOver | app.py:60-92 | over a decoded feed list: the error exactly when some record with a reading is broken; uncaught exactly when none is broken and none has a reading; otherwise the selected rows with statuses, the latest tile and the ten-row log |
| Dashboard.PassOverSuccess | app.py:56-92 | when the guarded block completes, the page is what the unguarded tail makes of the columns it built |
| Dashboard.RenderCycle | app.py:56-92 | the page shows the error exactly when the fetch, decoding, the `feeds` key or some record fails; the pass is uncaught exactly when it completes with no record carrying a reading; otherwise the table holds the selected records with their statuses, the latest tile shows the last row and its status, and the log is the last ten rows |
| Dashboard.LogEndsWithLatest | app.py:91-146 | when the guarded block completes and some record has a reading, the page is shown and the last row of the log table carries the latest reading and its status |
| Dashboard.EmptyFeedUncaught | app.py:91 | an empty feed list ends in the uncaught indexing exception, not an empty page |
| Dashboard.SingleRecordPass | app.py:64-92 | for a one-record feed list: a broken record gives the error, a record without a reading gives the uncaught exception, a usable record is shown with its truncated reading |
| Dashboard.SingleBroken | app.py:64-88 | a one-record list gives the error exactly when its record is broken |
| Dashboard.SingleUnreported | app.py:64-91 | a one-record list ends uncaught exactly when its record has no reading |
| Dashboard.SingleUsable | app.py:64-92 | a one-record list with a usable record shows that record's timestamp and truncated reading as the latest |
| Dashboard.SampleStrong | app.py:76-77 | -50 dBm is shown as Strong |
| Dashboard.SampleAverage | app.py:66-79 | -65.9 truncates to -65, which is Average |
| Dashboard.SampleWeak | app.py:80-81 | -80 dBm is shown as Weak |
| Dashboard.SampleFailures | app.py:64-88 | a non-numeric reading, or a reading without a timestamp, ends the pass with the error message |

## Left out

- Page setup, login and logout session flag, sidebar, metrics widgets, refresh button and `st.rerun` (app.py:7-53, 94-99, 149-152): user-interface plumbing with no logic to state.
- The HTTP request, the fixed URL and API key, and JSON decoding (app.py:14-21, 57-58). These are network I/O. Their outcome is the parameter of `RenderCycle`: `None` when either raises, otherwise the decoded envelope.
- Chart construction (app.py:101-142): presentation only.
- The string form of `float()`: the model does not parse text. A `field1` value is either a number (the finite float it converts to, as an exact `real`) or malformed (text `float()` rejects, or a non-finite float that `int()` rejects). Floating-point rounding of the decimal text is therefore not modelled.
- The status labels are the three constructors of `Status`; their emoji-prefixed strings are not modelled.
- Pandas internals: the table is three parallel sequences.
- Error detail: the error `Feed.Normalize` returns names the kind and position of the first failing record. The source catches every exception alike and shows one message, so this detail refines, rather than restates, what the page shows.
- JSON shapes other than a list of objects are not modelled. A `feeds` value that is not iterable, a non-empty object or string, or a record that is not an object raises inside the guarded block and shows the error message. An empty object or empty string iterates like an empty list, so the pass ends uncaught at app.py:91 as an empty list does.
