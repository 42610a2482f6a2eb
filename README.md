# EBS snapshot cleanup: retention decision and region accounting

This project models the decision core of a scheduled job that deletes expired
block-storage snapshots in one or more cloud regions and reports what it saved.

- `retention.dfy`, module `Retention`: `should_delete_snapshot`. This is a
  first-match-wins predicate. A `KeepForever` tag whose value lower-cases to
  `true` protects the snapshot. Otherwise a volume that is still in use protects
  it. Otherwise a snapshot younger than the retention window is kept. Anything
  left is eligible. The clock is an injected `now`, one value per region pass
  (see "## Left out"), and timestamps are whole
  seconds, so the window is `retention_days * 86400`.
- `region.dfy`, module `RegionPass`: `process_region` as a method with a loop.
  The volume and snapshot listings are inputs. The delete call is an oracle
  `deleteSucceeds` from snapshot id to success. A ghost out-parameter records
  the ids passed to the delete call. The method is proved against the
  specification functions `EligibleSnapshots`, `TotalSize`, `SnapshotIds` and
  `CountDeleted`.
- `handler.dfy`, module `Handler`: the part of `lambda_handler` that chooses the
  region list and folds the per-region `(deleted, size_saved)` pairs into the
  report's totals and its per-region lines. The default region and the
  per-region results are inputs.

Two behaviours of the code that are easy to misread:

- Boundary age: the age test is strict (`age < window`, src/app.py:70), so a
  snapshot exactly one window old is eligible. `Retention.RetentionBoundary`
  and `Retention.SevenDayScenario` state this.
- Size of a failed deletion: `VolumeSize` is added before the dry-run test
  (src/app.py:27), so a failed delete still counts towards the saving.
  `RegionPass.ProcessRegion` states this.

## Model

| member | source | states |
|---|---|---|
| `Retention.ShouldDeleteSnapshot` | src/app.py:56-75 | eligible exactly when there is no KeepForever tag, the volume is not in use, and `now - start >= retention_days * 86400` |
| `Retention.AnyKeepForever` | src/app.py:59-63 | the scan over the tag list finds a tag exactly when some entry has key `KeepForever` and a value that lower-cases to `true` |
| `Retention.TrueIgnoringCaseSpelling` | src/app.py:61 | a value lower-cases to `true` exactly when it has four characters spelling t, r, u, e, each in either case |
| `Retention.KeepForeverTakesPrecedence` | src/app.py:59-63 | one KeepForever tag at any position makes the snapshot ineligible, whatever the volume set, window or clock |
| `Retention.KeyIsCaseSensitive` | src/app.py:59-61 | tags whose keys differ from `KeepForever`, such as `keepforever`, never exempt a snapshot |
| `Retention.NoTagsNoExemption` | src/app.py:59 | a record with no Tags field is decided by its volume and its age alone |
| `Retention.ActiveVolumeProtects` | src/app.py:65-67 | a snapshot of an in-use volume is never eligible, whatever its age |
| `Retention.RetentionBoundary` | src/app.py:69-75 | with no tag and an idle volume, an age equal to the window is eligible, and one second less is not |
| `Retention.EligibleStaysEligible` | src/app.py:69-72 | a snapshot eligible at some time stays eligible at every later time |
| `Retention.StricterPolicyDeletesLess` | src/app.py:65-72 | a larger in-use volume set or a longer window never makes a snapshot eligible that was not eligible before |
| `Retention.SevenDayScenario` | src/app.py:69-75 | with a 7-day window at 2024-01-08T00:00:00Z, snapshots started at 2024-01-01T00:00:00Z or one second earlier are eligible, and one started a second later is not |
| `RegionPass.EligibleSnapshots` | src/app.py:25-26 | the loop acts on at most as many snapshots as are listed |
| `RegionPass.EligibleMembership` | src/app.py:25-26 | a snapshot is acted on exactly when it is listed and the retention decision allows it |
| `RegionPass.EligibleMultiplicity` | src/app.py:25-26 | an eligible snapshot is acted on as many times as it is listed, and an ineligible one never |
| `RegionPass.CountDeleted` | src/app.py:29-34 | the number of successful deletions is at most the number attempted; it equals that number when all succeed and is 0 when all fail |
| `RegionPass.TotalSizePermutation` | src/app.py:27 | the sum of `VolumeSize` over a list of snapshots does not depend on their order |
| `RegionPass.EligibleOrderIrrelevant` | src/app.py:25-27 | listing the same snapshots in another order gives the same eligible multiset, count and total size |
| `RegionPass.ProcessRegion` | src/app.py:17-39 | `size_saved` is the total size of the eligible snapshots in both modes, even when deletions fail; a dry run issues no delete call and counts every eligible snapshot; a live run issues one delete per eligible snapshot in listing order and counts the successful ones; the count never exceeds the number of eligible snapshots |
| `RegionPass.CompareDryRunWithLive` | src/app.py:28-37 | a dry run and a live run over the same listing save the same size; the live count is at most the dry-run count and equals it when every delete succeeds |
| `Handler.SplitOnComma` | src/app.py:9 | the comma split yields at least one field, no field contains a comma, and the first field is empty exactly when the setting is empty or starts with a comma |
| `Handler.JoinSplit` | src/app.py:9 | joining the split fields with commas gives back the original setting |
| `Handler.ResolveRegions` | src/app.py:124-125 | the region list is never empty; it is the configured list or the single default; the configured list is kept when its first entry is non-empty; an empty first region can only be the default |
| `Handler.RegionsFromSetting` | src/app.py:124-125 | for a split setting, the default alone is used exactly when the setting is empty or starts with a comma; otherwise all of its fields are run, in order |
| `Handler.LaterEmptyEntryKept` | src/app.py:124-125 | only the first entry is checked, so an empty entry later in the list stays in the region list |
| `Handler.LambdaHandler` | src/app.py:127-136 | one report line per region in configured order, carrying that region's deleted count and size; the totals equal the sums of the lines; the dry-run flag is copied (the client method `Handler.TwoRegionScenario` calls it on two regions, (2, 20) and (0, 0), and asserts totals 2 and 20 with both lines in order) |

## Left out

- Listing volumes and snapshots with paging (src/app.py:41-54): this is SDK I/O. The resulting set and list are inputs to `RegionPass.ProcessRegion`.
- The delete call and its `ClientError`: these are reduced to the oracle `deleteSucceeds`, keyed by snapshot id. The model assumes that the listing returns each id once.
- RegionPass.ProcessRegion: the source reads the clock once per snapshot (`datetime.utcnow()` at src/app.py:70, inside the loop at src/app.py:25-26), while the model uses one `now` for the whole pass. A snapshot that reaches its window during the pass is therefore decided as at the pass's start, and `RegionPass.EligibleOrderIrrelevant` holds only when no snapshot reaches its window during the pass.
- RegionPass.ProcessRegion: only a `ClientError` from the delete call is recovered (src/app.py:33). Any other exception from the delete call, such as a connection error or a timeout, and any failure of the listing calls (src/app.py:21, 23) propagates out of `process_region`; the model has no such path and always completes the pass.
- Handler.LambdaHandler: the loop at src/app.py:131-136 has no `try`, so an exception propagating out of any region's `process_region` aborts the whole run: later regions are not processed and no totals, report or email are produced. The model has no such path; it always yields a report with one line per region.
- The email report (src/app.py:77-119): the SES call and the text and HTML bodies are a foreign call plus presentation.
- Reading the environment (src/app.py:7-15) and the local test block (src/app.py:153-162). Only the comma split of the region setting is modelled, as `Handler.SplitOnComma`.
- Handler.LambdaHandler: the size display `round(size / 1024, 2)` (src/app.py:136, 140) is floating point and is not modelled. Sizes stay in whole GB. The string form of each region line is also not modelled; a line is the record (region, deleted, size). The code divides a GB figure by 1024 but still labels the result "GB". The model does not reproduce that label.
- Handler.LambdaHandler: the per-region results are inputs, one for each resolved region, rather than calls to `process_region`. The default region is a string. The SDK can return no region at all, and that case is not modelled.
- `print` logging, the JSON dump of the report, and the wall clock `datetime.utcnow()` are left out. Timestamps are whole seconds in UTC, and the model ignores the sub-second part of the timestamps and the `tzinfo` stripping.
- Retention.ShouldDeleteSnapshot: the model's window `Window(retentionDays)` is an unbounded integer, while the source's `timedelta(days=retention_days)` (src/app.py:70) raises `OverflowError` when the magnitude of `retention_days` exceeds 999999999. That test is reached by every snapshot without a KeepForever tag whose volume is idle, and the error propagates out of `process_region` and out of `lambda_handler` (no `try` at src/app.py:131-136), so such a setting aborts the run with no totals, report or email. The model instead decides those snapshots by the age test (for a window of 10^9 days, as too new) and completes the run.
- Retention.TrueIgnoringCaseSpelling: Python's `str.lower` is full Unicode, while the model lower-cases only ASCII letters. No non-ASCII character lower-cases to t, r, u or e, so comparing with `true` gives the same answer.
- Snapshot sizes are natural numbers, as the service reports them.
