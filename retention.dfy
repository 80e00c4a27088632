/**
  The remote retention rule: which object keys the cleanup deletes, given the
  single instant `now` taken before it walks the bucket listing.

  `now` is counted in microseconds since 0001-01-01 00:00:00 (the clock
  reading has microseconds); key timestamps are whole seconds.
*/
module Retention {
  import opened Wrappers
  import opened Timestamp
  import opened Naming

  const MicrosPerSecond: int := 1000000
  /** `timedelta(hours=24)` */
  const Day: int := SecondsPerDay * MicrosPerSecond
  /** `timedelta(days=7)` */
  const Week: int := 7 * Day

  /** The instant of a key timestamp, in microseconds. */
  function Micros(d: ValidDateTime): int {
    Seconds(d) * MicrosPerSecond
  }

  /** The per-key decision as the cleanup writes it: delete when older than a
      week; between a day and a week old, delete when the time since the key's
      own midnight reaches a full day; otherwise keep. */
  predicate ShouldDelete(now: int, backupTime: ValidDateTime) {
    if Micros(backupTime) < now - Week then true
    else if Micros(backupTime) < now - Day then
      var daily := Midnight(backupTime);
      Seconds(backupTime) - Seconds(daily) >= SecondsPerDay
    else false
  }

  // ---------------------------------------------------------------------------
  // The decision, band by band

  /** The "one per day" test can never succeed: no time of day is a full day
      past its own midnight. */
  lemma DailyTestNeverFires(backupTime: ValidDateTime)
    ensures !(Seconds(backupTime) - Seconds(Midnight(backupTime)) >= SecondsPerDay)
  {
    MidnightOffset(backupTime);
  }

  /** The decision is exactly "strictly more than seven days old". */
  lemma ShouldDeleteIffStale(now: int, backupTime: ValidDateTime)
    ensures ShouldDelete(now, backupTime) <==> Micros(backupTime) < now - Week
  {
    DailyTestNeverFires(backupTime);
  }

  /** A key less than a day old, or exactly a day old, is kept. */
  lemma RecentKept(now: int, backupTime: ValidDateTime)
    requires now - Day <= Micros(backupTime)
    ensures !ShouldDelete(now, backupTime)
  {
  }

  /** Every key between a day and seven days old is kept, both ends included. */
  lemma DailyBandKept(now: int, backupTime: ValidDateTime)
    requires now - Week <= Micros(backupTime) < now - Day
    ensures !ShouldDelete(now, backupTime)
  {
    DailyTestNeverFires(backupTime);
  }

  /** A key exactly seven days old escapes the first test and is kept. */
  lemma ExactlyAWeekOldKept(now: int, backupTime: ValidDateTime)
    requires Micros(backupTime) == now - Week
    ensures !ShouldDelete(now, backupTime)
  {
    DailyBandKept(now, backupTime);
  }

  /** A key judged nine calendar days later, at the same time of day (say
      2024-01-01 00:00:00 judged at 2024-01-10 00:00:00), is deleted. */
  lemma NineDaysOldDeleted(backupTime: ValidDateTime, judgedAt: ValidDateTime)
    requires judgedAt == backupTime.(day := backupTime.day + 9)
    ensures ShouldDelete(Micros(judgedAt), backupTime)
  {
    assert DayNumber(judgedAt) == DayNumber(backupTime) + 9;
    assert Seconds(judgedAt) == Seconds(backupTime) + 9 * SecondsPerDay;
  }

  // ---------------------------------------------------------------------------
  // Walking a listing

  /** One listed key with the timestamp read from it, `None` when unreadable. */
  datatype Entry = Entry(key: string, stamp: Option<ValidDateTime>)

  /** The keys a walk deleted, and the position where it stopped on an
      unreadable key (`None` when it reached the end). */
  datatype SweepResult = SweepResult(deleted: set<string>, stoppedAt: Option<nat>)

  predicate Doomed(now: int, e: Entry) {
    e.stamp.Some? && ShouldDelete(now, e.stamp.value)
  }

  /** The keys of the listed entries the rule condemns, whatever their order. */
  function DoomedKeys(now: int, es: seq<Entry>): set<string> {
    set e | e in es && Doomed(now, e) :: e.key
  }

  predicate AllReadable(es: seq<Entry>) {
    forall i :: 0 <= i < |es| ==> es[i].stamp.Some?
  }

  /** How far a walk got: the stopping position, or the whole listing. */
  function Reached(r: SweepResult, n: nat): nat {
    if r.stoppedAt.Some? then r.stoppedAt.value else n
  }

  /** The walk over the listing: entries are decided in order against the same
      `now`; the first entry without a timestamp ends the walk (the `ValueError`
      of `strptime` leaves the function). */
  function Sweep(now: int, es: seq<Entry>): (r: SweepResult)
    ensures r.stoppedAt.Some? ==> r.stoppedAt.value < |es| && es[r.stoppedAt.value].stamp.None?
    ensures AllReadable(es[..Reached(r, |es|)])
    decreases |es|
  {
    if es == [] then SweepResult({}, None)
    else
      var before := Sweep(now, es[..|es| - 1]);
      var last := es[|es| - 1];
      InitPrefix(es, Reached(before, |es| - 1));
      if before.stoppedAt.Some? then before
      else if last.stamp.None? then SweepResult(before.deleted, Some(|es| - 1))
      else
        ReadableSnoc(es);
        if ShouldDelete(now, last.stamp.value) then SweepResult(before.deleted + {last.key}, None)
        else before
  }

  lemma InitPrefix(es: seq<Entry>, n: nat)
    requires n < |es|
    ensures es[..|es| - 1][..n] == es[..n]
  {
  }

  lemma ReadableSnoc(es: seq<Entry>)
    requires es != [] && AllReadable(es[..|es| - 1]) && es[|es| - 1].stamp.Some?
    ensures AllReadable(es)
  {
    forall i | 0 <= i < |es| ensures es[i].stamp.Some? {
      if i < |es| - 1 {
        assert es[..|es| - 1][i] == es[i];
      }
    }
  }

  lemma DoomedKeysAppend(now: int, es: seq<Entry>, e: Entry)
    ensures DoomedKeys(now, es + [e]) == DoomedKeys(now, es) + (if Doomed(now, e) then {e.key} else {})
  {
    var whole := es + [e];
    forall k | k in DoomedKeys(now, whole)
      ensures k in DoomedKeys(now, es) + (if Doomed(now, e) then {e.key} else {})
    {
      var x :| x in whole && Doomed(now, x) && x.key == k;
      if x != e { assert x in es; }
    }
    forall k | k in DoomedKeys(now, es) ensures k in DoomedKeys(now, whole) {
      var x :| x in es && Doomed(now, x) && x.key == k;
      assert x in whole;
    }
    if Doomed(now, e) { assert e in whole; }
  }

  /** A walk deletes exactly the condemned keys among the entries it reached. */
  lemma {:induction false} SweepDeletes(now: int, es: seq<Entry>)
    ensures Sweep(now, es).deleted == DoomedKeys(now, es[..Reached(Sweep(now, es), |es|)])
    decreases |es|
  {
    if es != [] {
      var init := es[..|es| - 1];
      var last := es[|es| - 1];
      var before := Sweep(now, init);
      SweepDeletes(now, init);
      if before.stoppedAt.Some? {
        assert es[..before.stoppedAt.value] == init[..before.stoppedAt.value];
      } else if last.stamp.None? {
        assert es[..|es| - 1] == init[..|init|];
      } else {
        assert init[..|init|] == init;
        assert es[..|es|] == init + [last];
        DoomedKeysAppend(now, init, last);
      }
    }
  }

  /** Once a walk over a prefix has stopped, the rest of the listing is never
      looked at. */
  lemma {:induction false} SweepStopsForGood(now: int, es: seq<Entry>, n: nat)
    requires n <= |es| && Sweep(now, es[..n]).stoppedAt.Some?
    ensures Sweep(now, es) == Sweep(now, es[..n])
    decreases |es|
  {
    if n < |es| {
      var init := es[..|es| - 1];
      assert init[..n] == es[..n];
      SweepStopsForGood(now, init, n);
    } else {
      assert es[..n] == es;
    }
  }

  /** Every walk reads its listing one more entry at a time. */
  lemma SweepExtend(now: int, es: seq<Entry>, i: nat)
    requires i < |es|
    ensures Sweep(now, es[..i + 1]) ==
      var before := Sweep(now, es[..i]);
      if before.stoppedAt.Some? then before
      else if es[i].stamp.None? then SweepResult(before.deleted, Some(i))
      else if ShouldDelete(now, es[i].stamp.value) then SweepResult(before.deleted + {es[i].key}, None)
      else before
  {
    assert es[..i + 1][..i] == es[..i];
  }

  /** When every key is readable, the walk reaches the end and the keys it
      deletes do not depend on the order of the listing. */
  lemma SweepOrderIndependent(now: int, a: seq<Entry>, b: seq<Entry>)
    requires multiset(a) == multiset(b)
    requires AllReadable(a)
    ensures Sweep(now, a).stoppedAt == None && Sweep(now, b).stoppedAt == None
    ensures Sweep(now, a).deleted == Sweep(now, b).deleted
  {
    forall j | 0 <= j < |b| ensures b[j].stamp.Some? {
      assert b[j] in multiset(b);
      var i :| 0 <= i < |a| && a[i] == b[j];
    }
    SweepDeletes(now, a);
    SweepDeletes(now, b);
    assert a[..|a|] == a && b[..|b|] == b;
    forall e ensures e in a <==> e in b {
      assert e in a <==> e in multiset(a);
      assert e in b <==> e in multiset(b);
    }
  }

  /** The entries whose keys were not deleted, in listing order. */
  function Remaining(es: seq<Entry>, gone: set<string>): (r: seq<Entry>)
    ensures forall e :: e in r <==> e in es && e.key !in gone
    decreases |es|
  {
    if es == [] then []
    else if es[0].key in gone then Remaining(es[1..], gone)
    else [es[0]] + Remaining(es[1..], gone)
  }

  /** A walk over readable entries none of which the rule condemns reaches
      the end and deletes nothing. */
  lemma QuietWalk(now: int, es: seq<Entry>)
    requires forall i :: 0 <= i < |es| ==> es[i].stamp.Some? && !Doomed(now, es[i])
    ensures Sweep(now, es) == SweepResult({}, None)
  {
    SweepDeletes(now, es);
    assert es[..|es|] == es;
    assert DoomedKeys(now, es) == {};
  }

  lemma RemainingAppend(a: seq<Entry>, b: seq<Entry>, gone: set<string>)
    ensures Remaining(a + b, gone) == Remaining(a, gone) + Remaining(b, gone)
    decreases |a|
  {
    if a == [] {
      assert a + b == b;
    } else {
      var ab := a + b;
      assert ab != [] && ab[0] == a[0] && ab[1..] == a[1..] + b;
      RemainingAppend(a[1..], b, gone);
      var x, y := Remaining(a[1..], gone), Remaining(b, gone);
      if a[0].key in gone {
        assert Remaining(ab, gone) == x + y;
      } else {
        assert Remaining(ab, gone) == [a[0]] + (x + y);
        assert [a[0]] + (x + y) == ([a[0]] + x) + y;
      }
    }
  }

  /** The survivors of a walk over the first `n` entries, when none of them
      is unreadable: readable and not condemned. */
  lemma SurvivorsQuiet(now: int, es: seq<Entry>, gone: set<string>)
    requires AllReadable(es) && DoomedKeys(now, es) <= gone
    ensures var r := Remaining(es, gone);
            forall i :: 0 <= i < |r| ==> r[i].stamp.Some? && !Doomed(now, r[i])
  {
    var r := Remaining(es, gone);
    forall i | 0 <= i < |r| ensures r[i].stamp.Some? && !Doomed(now, r[i]) {
      assert r[i] in es;
    }
  }

  /** The survivors around a key that was not deleted. */
  lemma RemainingAround(a: seq<Entry>, u: Entry, b: seq<Entry>, gone: set<string>)
    requires u.key !in gone
    ensures Remaining(a + ([u] + b), gone) == Remaining(a, gone) + [u] + Remaining(b, gone)
  {
    RemainingAppend(a, [u] + b, gone);
    RemainingAppend([u], b, gone);
    assert [u][1..] == [];
    assert Remaining([u], gone) == [u] + Remaining([], gone) == [u];
    var x, y := Remaining(a, gone), Remaining(b, gone);
    assert x + ([u] + y) == x + [u] + y;
  }

  /** A walk whose quiet entries are followed by an unreadable one stops on
      it having deleted nothing. */
  lemma StopsAfterQuiet(now: int, quiet: seq<Entry>, u: Entry, rest: seq<Entry>)
    requires forall i :: 0 <= i < |quiet| ==> quiet[i].stamp.Some? && !Doomed(now, quiet[i])
    requires u.stamp.None?
    ensures Sweep(now, quiet + [u] + rest) == SweepResult({}, Some(|quiet|))
  {
    QuietWalk(now, quiet);
    var s := quiet + [u] + rest;
    assert (quiet + [u])[..|quiet|] == quiet;
    assert s[..|quiet| + 1] == quiet + [u];
    SweepStopsForGood(now, s, |quiet| + 1);
  }

  /** A rerun over the survivors of a walk that stopped on `u`: the
      survivors before `u` are quiet, and `u` itself survived, so the rerun
      stops on it having deleted nothing. */
  lemma RerunStops(now: int, a: seq<Entry>, u: Entry, b: seq<Entry>, gone: set<string>)
    requires AllReadable(a) && DoomedKeys(now, a) <= gone
    requires u.stamp.None? && u.key !in gone
    ensures Sweep(now, Remaining(a + ([u] + b), gone)) == SweepResult({}, Some(|Remaining(a, gone)|))
  {
    RemainingAround(a, u, b, gone);
    SurvivorsQuiet(now, a, gone);
    StopsAfterQuiet(now, Remaining(a, gone), u, Remaining(b, gone));
  }

  /** In a listing, equal keys are read alike, so the key a walk stopped on
      is not among the keys it deleted. */
  lemma StopKeyKept(now: int, listing: seq<string>, read: string -> Option<ValidDateTime>, n: nat)
    requires n < |listing|
    requires read(listing[n]).None?
    ensures listing[n] !in DoomedKeys(now, Entries(listing, read)[..n])
  {
  }

  /** A second walk with the same `now` over the keys the first walk left in
      the bucket deletes nothing; it stops, on the same unreadable key, exactly
      when the first walk stopped. */
  lemma SweepIdempotent(now: int, listing: seq<string>, read: string -> Option<ValidDateTime>)
    ensures var es := Entries(listing, read);
            var first := Sweep(now, es);
            var second := Sweep(now, Remaining(es, first.deleted));
            && second.deleted == {}
            && (second.stoppedAt == None <==> first.stoppedAt == None)
  {
    var es := Entries(listing, read);
    var first := Sweep(now, es);
    var gone := first.deleted;
    SweepDeletes(now, es);
    if first.stoppedAt == None {
      assert es[..|es|] == es;
      SurvivorsQuiet(now, es, gone);
      QuietWalk(now, Remaining(es, gone));
    } else {
      var n := first.stoppedAt.value;
      StopKeyKept(now, listing, read, n);
      assert es == es[..n] + ([es[n]] + es[n + 1..]);
      RerunStops(now, es[..n], es[n], es[n + 1..], gone);
    }
  }

  // ---------------------------------------------------------------------------
  // The two ways of reading a listing

  /** The entries of a listing, each key with the timestamp `read` gives it. */
  function Entries(listing: seq<string>, read: string -> Option<ValidDateTime>): (es: seq<Entry>)
    ensures |es| == |listing|
    ensures forall i :: 0 <= i < |listing| ==> es[i] == Entry(listing[i], read(listing[i]))
  {
    seq(|listing|, i requires 0 <= i < |listing| => Entry(listing[i], read(listing[i])))
  }

  /** The entries the cleanup sees, with timestamps read as written. */
  function AsWrittenEntries(listing: seq<string>): seq<Entry> {
    Entries(listing, ParseKey)
  }

  /** The entries with timestamps read from between prefix and suffix. */
  function CorrectedEntries(listing: seq<string>): seq<Entry> {
    Entries(listing, StampOfKey)
  }

  /** As written, a walk over any non-empty listing stops at its very first
      key and deletes nothing. */
  lemma AsWrittenSweepStopsAtFirstKey(now: int, listing: seq<string>)
    requires listing != []
    ensures Sweep(now, AsWrittenEntries(listing)) == SweepResult({}, Some(0))
  {
    var es := AsWrittenEntries(listing);
    ParseKeyAlwaysFails(listing[0]);
    SweepExtend(now, es, 0);
    SweepStopsForGood(now, es, 1);
  }

  /** Read with the corrected extraction, a listing of uploaded archives is
      walked to the end, and exactly the keys more than seven days old go. */
  lemma CorrectedSweepDeletesStale(now: int, listing: seq<string>)
    requires forall i :: 0 <= i < |listing| ==> StampOfKey(listing[i]).Some?
    ensures Sweep(now, CorrectedEntries(listing)).stoppedAt == None
    ensures forall k :: k in Sweep(now, CorrectedEntries(listing)).deleted <==>
      k in listing && Micros(StampOfKey(k).value) < now - Week
  {
    var es := CorrectedEntries(listing);
    SweepDeletes(now, es);
    assert es[..|es|] == es;
    forall k ensures k in DoomedKeys(now, es) <==> k in listing && Micros(StampOfKey(k).value) < now - Week {
      if k in listing {
        var i :| 0 <= i < |listing| && listing[i] == k;
        ShouldDeleteIffStale(now, StampOfKey(k).value);
        assert es[i] in es;
      }
      if k in DoomedKeys(now, es) {
        var e :| e in es && Doomed(now, e) && e.key == k;
        var i :| 0 <= i < |es| && es[i] == e;
        ShouldDeleteIffStale(now, e.stamp.value);
      }
    }
  }
}
