/**
  The retention decision of the snapshot cleanup job: whether one snapshot
  may be deleted, given the volumes still in use, the retention window in
  days and the current time. The checks run first-match-wins: a
  KeepForever tag, then an in-use volume, then the age of the snapshot.
 */
module Retention {

  datatype Option<T> = None | Some(value: T)

  /** One entry of a snapshot's tag list. */
  datatype Tag = Tag(key: string, value: string)

  /**
    A snapshot record as the listing returns it. `volumeSize` is in GB,
    `startTime` in whole seconds since the epoch (UTC), and `tags` is None
    when the record carries no Tags field at all.
   */
  datatype Snapshot = Snapshot(
    snapshotId: string,
    volumeId: string,
    volumeSize: nat,
    startTime: int,
    tags: Option<seq<Tag>>)

  const SecondsPerDay: int := 86400
  const KeepForeverKey: string := "KeepForever"

  /** The retention window of `retentionDays` days, in seconds. */
  function Window(retentionDays: int): int {
    retentionDays * SecondsPerDay
  }

  /** Lower-cases one ASCII letter and leaves every other character alone. */
  function LowerChar(c: char): char {
    if 'A' <= c <= 'Z' then (c as int + 32) as char else c
  }

  /** The string lower-cased character by character. */
  function Lower(s: string): string {
    seq(|s|, i requires 0 <= i < |s| => LowerChar(s[i]))
  }

  /** A tag value that lower-cases to "true". */
  predicate IsTrueIgnoringCase(v: string) {
    Lower(v) == "true"
  }

  /** The key must match exactly; the value is compared case-insensitively. */
  predicate IsKeepForeverTag(t: Tag) {
    t.key == KeepForeverKey && IsTrueIgnoringCase(t.value)
  }

  /** The search over the tag list, stopping at the first KeepForever tag. */
  function AnyKeepForever(tags: seq<Tag>): (found: bool)
    ensures found <==> exists i :: 0 <= i < |tags| && IsKeepForeverTag(tags[i])
  {
    if tags == [] then false
    else if IsKeepForeverTag(tags[0]) then true
    else
      assert forall i :: 1 <= i < |tags| ==> tags[i] == tags[1..][i - 1];
      AnyKeepForever(tags[1..])
  }

  /** A snapshot without a Tags field has no KeepForever tag. */
  predicate HasKeepForeverTag(s: Snapshot) {
    s.tags.Some? && AnyKeepForever(s.tags.value)
  }

  /**
    The retention decision. A snapshot is eligible exactly when it has no
    KeepForever tag, its volume is not in use, and it is at least a full
    window old (an age equal to the window is eligible).
   */
  function ShouldDeleteSnapshot(s: Snapshot, activeVolumes: set<string>, retentionDays: int, now: int): (eligible: bool)
    ensures eligible <==>
      && !HasKeepForeverTag(s)
      && s.volumeId !in activeVolumes
      && now - s.startTime >= Window(retentionDays)
  {
    if HasKeepForeverTag(s) then false
    else if s.volumeId in activeVolumes then false
    else if now - s.startTime < Window(retentionDays) then false
    else true
  }

  /** A value is "true" ignoring case exactly when it spells t-r-u-e in either case. */
  lemma TrueIgnoringCaseSpelling(v: string)
    ensures IsTrueIgnoringCase(v) <==>
      |v| == 4 && v[0] in "tT" && v[1] in "rR" && v[2] in "uU" && v[3] in "eE"
  {
    if |v| == 4 {
      var l := Lower(v);
      if IsTrueIgnoringCase(v) {
        assert l[0] == 't' && l[1] == 'r' && l[2] == 'u' && l[3] == 'e';
      }
      if v[0] in "tT" && v[1] in "rR" && v[2] in "uU" && v[3] in "eE" {
        assert l == "true";
      }
    }
  }

  /** A KeepForever tag anywhere in the list exempts the snapshot, whatever its volume or age. */
  lemma KeepForeverTakesPrecedence(s: Snapshot, i: nat, activeVolumes: set<string>, retentionDays: int, now: int)
    requires s.tags.Some? && i < |s.tags.value|
    requires s.tags.value[i].key == KeepForeverKey && IsTrueIgnoringCase(s.tags.value[i].value)
    ensures !ShouldDeleteSnapshot(s, activeVolumes, retentionDays, now)
  {
  }

  /** The key is matched case-sensitively: tags whose keys are not exactly KeepForever never exempt. */
  lemma KeyIsCaseSensitive(s: Snapshot)
    requires s.tags.Some?
    requires forall i :: 0 <= i < |s.tags.value| ==> s.tags.value[i].key != KeepForeverKey
    ensures !HasKeepForeverTag(s)
  {
  }

  /** A snapshot with no Tags field is decided by its volume and age alone. */
  lemma NoTagsNoExemption(s: Snapshot, activeVolumes: set<string>, retentionDays: int, now: int)
    requires s.tags.None?
    ensures ShouldDeleteSnapshot(s, activeVolumes, retentionDays, now) <==>
      s.volumeId !in activeVolumes && now - s.startTime >= Window(retentionDays)
  {
  }

  /** A snapshot of an in-use volume is never eligible, whatever its age. */
  lemma ActiveVolumeProtects(s: Snapshot, activeVolumes: set<string>, retentionDays: int, now: int)
    requires s.volumeId in activeVolumes
    ensures !ShouldDeleteSnapshot(s, activeVolumes, retentionDays, now)
  {
  }

  /** The boundary: exactly one window old is eligible, one second younger is not. */
  lemma RetentionBoundary(s: Snapshot, activeVolumes: set<string>, retentionDays: int)
    requires !HasKeepForeverTag(s) && s.volumeId !in activeVolumes
    ensures ShouldDeleteSnapshot(s, activeVolumes, retentionDays, s.startTime + Window(retentionDays))
    ensures !ShouldDeleteSnapshot(s, activeVolumes, retentionDays, s.startTime + Window(retentionDays) - 1)
  {
  }

  /** Once eligible, a snapshot stays eligible as time passes. */
  lemma EligibleStaysEligible(s: Snapshot, activeVolumes: set<string>, retentionDays: int, now: int, later: int)
    requires now <= later
    requires ShouldDeleteSnapshot(s, activeVolumes, retentionDays, now)
    ensures ShouldDeleteSnapshot(s, activeVolumes, retentionDays, later)
  {
  }

  /** More volumes in use or a longer window can only make fewer snapshots eligible. */
  lemma StricterPolicyDeletesLess(s: Snapshot, active: set<string>, moreActive: set<string>,
                                  retentionDays: int, longerDays: int, now: int)
    requires active <= moreActive && retentionDays <= longerDays
    requires ShouldDeleteSnapshot(s, moreActive, longerDays, now)
    ensures ShouldDeleteSnapshot(s, active, retentionDays, now)
  {
  }

  /**
    Seven-day window, now = 2024-01-08T00:00:00Z (1704672000). A snapshot
    started 2024-01-01T00:00:00Z (1704067200), exactly seven days earlier,
    is eligible; so is one started a second before that.
   */
  lemma SevenDayScenario()
    ensures ShouldDeleteSnapshot(Snapshot("snap-a", "vol-a", 10, 1704067200, None), {}, 7, 1704672000)
    ensures ShouldDeleteSnapshot(Snapshot("snap-b", "vol-b", 10, 1704067199, None), {}, 7, 1704672000)
    ensures !ShouldDeleteSnapshot(Snapshot("snap-c", "vol-c", 10, 1704067201, None), {}, 7, 1704672000)
  {
  }
}
