/**
  The top of the cleanup run: which regions are processed, and how the
  per-region results are folded into the run's report. The per-region
  results (deleted count, GB saved) come from `RegionPass.ProcessRegion`
  and are inputs here, one per region, in the order the regions are run.
 */
module Handler {

  /** Python's `s.split(',')`: every comma separates two fields, empty fields are kept. */
  function SplitOnComma(s: string): (parts: seq<string>)
    ensures parts != []
    ensures forall p :: p in parts ==> ',' !in p
    ensures parts[0] == "" <==> s == "" || s[0] == ','
    decreases |s|
  {
    if s == [] then [""]
    else
      var rest := SplitOnComma(s[1..]);
      if s[0] == ',' then [""] + rest
      else [[s[0]] + rest[0]] + rest[1..]
  }

  /** Python's `','.join(parts)`. */
  function JoinWithComma(parts: seq<string>): string {
    if parts == [] then ""
    else if |parts| == 1 then parts[0]
    else parts[0] + "," + JoinWithComma(parts[1..])
  }

  /** Splitting loses nothing: joining the fields back gives the setting. */
  lemma {:induction false} JoinSplit(s: string)
    ensures JoinWithComma(SplitOnComma(s)) == s
    decreases |s|
  {
    if s != [] {
      var rest := SplitOnComma(s[1..]);
      JoinSplit(s[1..]);
      if s[0] == ',' {
        assert SplitOnComma(s) == [""] + rest;
        assert ([""] + rest)[1..] == rest;
        assert s == "," + s[1..];
      } else {
        var parts := SplitOnComma(s);
        assert parts == [[s[0]] + rest[0]] + rest[1..];
        assert parts[1..] == rest[1..];
        if |rest| == 1 {
          assert s == [s[0]] + rest[0];
        } else {
          assert JoinWithComma(rest) == rest[0] + "," + JoinWithComma(rest[1..]);
          assert s == [s[0]] + (rest[0] + "," + JoinWithComma(rest[1..]));
        }
      }
    }
  }

  /**
    The configured region list, or the single default region when the list
    is empty or its first entry is empty. Only the first entry is looked at.
   */
  function ResolveRegions(configured: seq<string>, defaultRegion: string): (regions: seq<string>)
    ensures regions != []
    ensures regions == configured || regions == [defaultRegion]
    ensures regions == configured <== configured != [] && configured[0] != ""
    ensures regions[0] == "" ==> regions == [defaultRegion]
  {
    if configured == [] || configured[0] == "" then [defaultRegion] else configured
  }

  /**
    For a region setting read as `setting.split(',')`, the default region is
    used exactly when the setting is empty or starts with a comma; otherwise
    every field of the setting is a region, in the order written.
   */
  lemma RegionsFromSetting(setting: string, defaultRegion: string)
    ensures setting == "" || setting[0] == ',' ==> ResolveRegions(SplitOnComma(setting), defaultRegion) == [defaultRegion]
    ensures setting != "" && setting[0] != ',' ==>
      && ResolveRegions(SplitOnComma(setting), defaultRegion) == SplitOnComma(setting)
      && JoinWithComma(ResolveRegions(SplitOnComma(setting), defaultRegion)) == setting
  {
    JoinSplit(setting);
  }

  /** An empty entry after the first one is kept in the region list. */
  lemma LaterEmptyEntryKept(configured: seq<string>, defaultRegion: string, i: nat)
    requires 0 < i < |configured| && configured[0] != "" && configured[i] == ""
    ensures ResolveRegions(configured, defaultRegion)[i] == ""
  {
  }

  /** The deleted count and GB saved that one region's pass returned. */
  datatype RegionResult = RegionResult(deleted: nat, sizeSaved: nat)

  /** One line of the report's region breakdown (sizes kept in GB). */
  datatype RegionReport = RegionReport(region: string, deleted: nat, sizeSaved: nat)

  datatype Report = Report(totalDeleted: nat, totalSizeSaved: nat, dryRun: bool, regionReports: seq<RegionReport>)

  function SumDeleted(lines: seq<RegionReport>): nat {
    if lines == [] then 0 else lines[0].deleted + SumDeleted(lines[1..])
  }

  function SumSizeSaved(lines: seq<RegionReport>): nat {
    if lines == [] then 0 else lines[0].sizeSaved + SumSizeSaved(lines[1..])
  }

  /** The report's totals are the sums of its region lines. */
  predicate Consistent(report: Report) {
    && report.totalDeleted == SumDeleted(report.regionReports)
    && report.totalSizeSaved == SumSizeSaved(report.regionReports)
  }

  lemma {:induction false} SumsAppend(lines: seq<RegionReport>, line: RegionReport)
    ensures SumDeleted(lines + [line]) == SumDeleted(lines) + line.deleted
    ensures SumSizeSaved(lines + [line]) == SumSizeSaved(lines) + line.sizeSaved
  {
    if lines == [] {
      assert lines + [line] == [line];
    } else {
      assert (lines + [line])[1..] == lines[1..] + [line];
      SumsAppend(lines[1..], line);
    }
  }

  /**
    The accumulation loop of the handler: resolve the regions, then add up
    each region's result and append one report line per region, in order.
    `results[i]` is what processing the i-th resolved region returned.
   */
  method LambdaHandler(configuredRegions: seq<string>, defaultRegion: string, dryRun: bool, results: seq<RegionResult>)
    returns (report: Report)
    requires |results| == |ResolveRegions(configuredRegions, defaultRegion)|
    ensures Consistent(report)
    ensures report.dryRun == dryRun
    ensures var regions := ResolveRegions(configuredRegions, defaultRegion);
      && |report.regionReports| == |regions|
      && forall i :: 0 <= i < |regions| ==>
           report.regionReports[i] == RegionReport(regions[i], results[i].deleted, results[i].sizeSaved)
  {
    var regions := ResolveRegions(configuredRegions, defaultRegion);
    var totalDeleted, totalSizeSaved := 0, 0;
    var regionReports: seq<RegionReport> := [];
    for i := 0 to |regions|
      invariant |regionReports| == i
      invariant forall j :: 0 <= j < i ==>
        regionReports[j] == RegionReport(regions[j], results[j].deleted, results[j].sizeSaved)
      invariant totalDeleted == SumDeleted(regionReports)
      invariant totalSizeSaved == SumSizeSaved(regionReports)
    {
      var line := RegionReport(regions[i], results[i].deleted, results[i].sizeSaved);
      SumsAppend(regionReports, line);
      totalDeleted := totalDeleted + results[i].deleted;
      totalSizeSaved := totalSizeSaved + results[i].sizeSaved;
      regionReports := regionReports + [line];
    }
    report := Report(totalDeleted, totalSizeSaved, dryRun, regionReports);
  }

  /** Two regions, the first deleting 2 snapshots of 20 GB, the second nothing. */
  method TwoRegionScenario() {
    var report := LambdaHandler(["region1", "region2"], "default", false, [RegionResult(2, 20), RegionResult(0, 0)]);
    assert report.regionReports[0] == RegionReport("region1", 2, 20);
    assert report.regionReports[1] == RegionReport("region2", 0, 0);
    assert report.regionReports == [RegionReport("region1", 2, 20), RegionReport("region2", 0, 0)];
    var lines := report.regionReports;
    assert lines[1..][1..] == [];
    assert SumDeleted(lines[1..]) == 0 && SumSizeSaved(lines[1..]) == 0;
    assert report.totalDeleted == 2 && report.totalSizeSaved == 20;
  }
}
