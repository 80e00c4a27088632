/**
  The daemon's effect on its two stores: the file names in the backup
  directory and the object keys in the bucket. The dump tool, the archiver,
  the upload and the bucket listing are outside collaborators; only their
  effect on names is modelled, and whether each of them succeeds is an input.
*/
module Backup {
  import opened Wrappers
  import opened Timestamp
  import opened Naming
  import opened Retention

  /** The step of one database's backup at which an outside tool fails. */
  datatype Stage = Dump | Archive | Upload

  /** What the outside tools do for one database. */
  datatype ToolOutcome = Succeeds | FailsAt(stage: Stage)

  /** File names in the backup directory and object keys in the bucket. */
  datatype Site = Site(local: set<string>, bucket: set<string>)

  /** A backup pass so far: the site, the keys uploaded in order, and the
      position of the database whose failure ended the pass. */
  datatype Pass = Pass(site: Site, uploaded: seq<string>, failedAt: Option<nat>)

  function Elements(s: seq<string>): set<string> {
    set x | x in s
  }

  // ---------------------------------------------------------------------------
  // Dump file names

  /** The dump file name of each database at its clock reading. */
  function DumpNames(dbs: seq<string>, clock: seq<ValidDateTime>): (names: seq<string>)
    requires |clock| == |dbs|
    ensures |names| == |dbs|
    ensures forall i :: 0 <= i < |dbs| ==> names[i] == DumpName(dbs[i], clock[i])
  {
    seq(|dbs|, i requires 0 <= i < |dbs| => DumpName(dbs[i], clock[i]))
  }

  /** The shape every dump file name has: it ends in `.sql` and does not
      start with a dot. */
  predicate IsDumpName(n: string) {
    |n| >= 4 && n[|n| - 4..] == ".sql" && n[0] != '.'
  }

  predicate AllDumpNames(names: seq<string>) {
    forall n :: n in names ==> IsDumpName(n)
  }

  lemma DumpNamesShaped(dbs: seq<string>, clock: seq<ValidDateTime>)
    requires |clock| == |dbs|
    ensures AllDumpNames(DumpNames(dbs, clock))
  {
    var names := DumpNames(dbs, clock);
    forall n | n in names ensures IsDumpName(n) {
      var i :| 0 <= i < |names| && names[i] == n;
      assert n == "backup_" + dbs[i] + "_" + Format(clock[i]) + ".sql";
      assert n[0] == 'b';
    }
  }

  /** The archive of a dump is no dump, and the `*.tar.gz` purge takes the
      archive and leaves the dump. */
  lemma ArchiveOfDump(dump: string, other: string)
    requires IsDumpName(dump) && IsDumpName(other)
    ensures ArchiveName(dump) != other
    ensures MatchesArchiveGlob(ArchiveName(dump))
    ensures !MatchesArchiveGlob(dump)
  {
    var a := ArchiveName(dump);
    assert a[0] == dump[0];
    assert a[|a| - 7..][6] == a[|a| - 1] == 'z';
    assert other[|other| - 4..][3] == other[|other| - 1] == 'l';
    assert dump[|dump| - 4..][3] == dump[|dump| - 1] == 'l';
  }

  // ---------------------------------------------------------------------------
  // The backup pass

  /** One database of the pass, at position `i`, with dump file name `dump`.
      An ignored database is skipped. Otherwise the dump file is created, the
      archive written, the dump removed and the archive uploaded; a failing
      tool raises, which ends the pass with what was done so far. */
  function BackupStep(p: Pass, db: string, ignored: seq<string>, dump: string, outcome: ToolOutcome, i: nat): Pass
  {
    if db in ignored then p
    else
      var archive := ArchiveName(dump);
      var dumped := p.site.local + {dump};
      match outcome
      case FailsAt(Dump) => Pass(Site(dumped, p.site.bucket), p.uploaded, Some(i))
      case FailsAt(Archive) => Pass(Site(dumped, p.site.bucket), p.uploaded, Some(i))
      case FailsAt(Upload) => Pass(Site((dumped + {archive}) - {dump}, p.site.bucket), p.uploaded, Some(i))
      case Succeeds => Pass(Site((dumped + {archive}) - {dump}, p.site.bucket + {archive}), p.uploaded + [archive], None)
  }

  /** The pass over the databases in enumeration order, the first of them at
      position `base`; it ends at the first failure. */
  function BackupOver(p: Pass, dbs: seq<string>, ignored: seq<string>, names: seq<string>,
                      outcomes: seq<ToolOutcome>, base: nat): Pass
    requires |names| == |dbs| && |outcomes| == |dbs|
    decreases |dbs|
  {
    if dbs == [] || p.failedAt.Some? then p
    else BackupOver(BackupStep(p, dbs[0], ignored, names[0], outcomes[0], base),
                    dbs[1..], ignored, names[1..], outcomes[1..], base + 1)
  }

  /** The keys a pass that meets no failure uploads: the archive of each
      database not in the ignore list, in enumeration order. */
  function ExpectedKeys(dbs: seq<string>, ignored: seq<string>, names: seq<string>): (keys: seq<string>)
    requires |names| == |dbs|
    ensures |keys| <= |dbs|
    decreases |dbs|
  {
    if dbs == [] then []
    else (if dbs[0] in ignored then [] else [ArchiveName(names[0])]) + ExpectedKeys(dbs[1..], ignored, names[1..])
  }

  /** The dump files a pass that meets no failure creates. */
  function ExpectedDumps(dbs: seq<string>, ignored: seq<string>, names: seq<string>): (dumps: set<string>)
    requires |names| == |dbs|
    ensures forall d :: d in dumps ==> d in names
    decreases |dbs|
  {
    if dbs == [] then {}
    else (if dbs[0] in ignored then {} else {names[0]}) + ExpectedDumps(dbs[1..], ignored, names[1..])
  }

  /** The position of the first database, not ignored, whose tools fail. */
  function FirstFailure(dbs: seq<string>, ignored: seq<string>, outcomes: seq<ToolOutcome>): (r: Option<nat>)
    requires |outcomes| == |dbs|
    ensures r.Some? ==> r.value < |dbs| && dbs[r.value] !in ignored && outcomes[r.value].FailsAt?
    ensures forall i :: 0 <= i < (if r.Some? then r.value else |dbs|) ==> dbs[i] in ignored || outcomes[i] == Succeeds
    decreases |dbs|
  {
    if dbs == [] then None
    else if dbs[0] !in ignored && outcomes[0].FailsAt? then Some(0)
    else
      var rest := FirstFailure(dbs[1..], ignored, outcomes[1..]);
      if rest.Some? then Some(rest.value + 1) else None
  }

  /** A key is among those a clean pass uploads exactly when it is the
      archive of a database not ignored. */
  lemma {:induction false} ExpectedKeysSpec(dbs: seq<string>, ignored: seq<string>, names: seq<string>, k: string)
    requires |names| == |dbs|
    ensures k in ExpectedKeys(dbs, ignored, names)
        <==> exists i :: 0 <= i < |dbs| && dbs[i] !in ignored && k == ArchiveName(names[i])
    decreases |dbs|
  {
    if dbs != [] {
      ExpectedKeysSpec(dbs[1..], ignored, names[1..], k);
      if exists i :: 1 <= i < |dbs| && dbs[i] !in ignored && k == ArchiveName(names[i]) {
        var i :| 1 <= i < |dbs| && dbs[i] !in ignored && k == ArchiveName(names[i]);
        assert dbs[1..][i - 1] == dbs[i] && names[1..][i - 1] == names[i];
      }
      if exists i :: 0 <= i < |dbs| - 1 && dbs[1..][i] !in ignored && k == ArchiveName(names[1..][i]) {
        var i :| 0 <= i < |dbs| - 1 && dbs[1..][i] !in ignored && k == ArchiveName(names[1..][i]);
        assert dbs[i + 1] == dbs[1..][i] && names[i + 1] == names[1..][i];
      }
    }
  }

  /** A dump file is among those a clean pass writes and removes exactly
      when it is the dump of a database not ignored. */
  lemma {:induction false} ExpectedDumpsSpec(dbs: seq<string>, ignored: seq<string>, names: seq<string>, d: string)
    requires |names| == |dbs|
    ensures d in ExpectedDumps(dbs, ignored, names)
        <==> exists i :: 0 <= i < |dbs| && dbs[i] !in ignored && d == names[i]
    decreases |dbs|
  {
    if dbs != [] {
      ExpectedDumpsSpec(dbs[1..], ignored, names[1..], d);
      if exists i :: 1 <= i < |dbs| && dbs[i] !in ignored && d == names[i] {
        var i :| 1 <= i < |dbs| && dbs[i] !in ignored && d == names[i];
        assert dbs[1..][i - 1] == dbs[i] && names[1..][i - 1] == names[i];
      }
      if exists i :: 0 <= i < |dbs| - 1 && dbs[1..][i] !in ignored && d == names[1..][i] {
        var i :| 0 <= i < |dbs| - 1 && dbs[1..][i] !in ignored && d == names[1..][i];
        assert dbs[i + 1] == dbs[1..][i] && names[i + 1] == names[1..][i];
      }
    }
  }

  /** The daemon's keys: a clean pass uploads exactly the object keys of the
      databases not ignored, each at its own clock reading. */
  lemma UploadedKeys(dbs: seq<string>, ignored: seq<string>, clock: seq<ValidDateTime>, k: string)
    requires |clock| == |dbs|
    ensures k in ExpectedKeys(dbs, ignored, DumpNames(dbs, clock))
        <==> exists i :: 0 <= i < |dbs| && dbs[i] !in ignored && k == ObjectKey(dbs[i], clock[i])
  {
    var names := DumpNames(dbs, clock);
    ExpectedKeysSpec(dbs, ignored, names, k);
    forall i | 0 <= i < |dbs| ensures ArchiveName(names[i]) == ObjectKey(dbs[i], clock[i]) {
    }
  }

  /** From `p` the pass reached `q`, meeting no failure, uploading `keys` in
      order and removing the dump files `dumps` it had written. */
  predicate Completed(p: Pass, q: Pass, keys: seq<string>, dumps: set<string>) {
    && q.failedAt == None
    && q.uploaded == p.uploaded + keys
    && q.site.bucket == p.site.bucket + Elements(keys)
    && q.site.local == (p.site.local - dumps) + Elements(keys)
  }

  lemma CompletedNothing(p: Pass)
    requires p.failedAt == None
    ensures Completed(p, p, [], {})
  {
    assert p.uploaded + [] == p.uploaded;
    assert Elements([]) == {};
    assert (p.site.local - {}) + {} == p.site.local;
  }

  /** The directory after one successful database, then the rest of the pass. */
  lemma LocalAfterStep(local: set<string>, laterDumps: set<string>, laterArchives: set<string>, dump: string, archive: string)
    requires archive != dump && archive !in laterDumps
    ensures (((local + {dump}) + {archive}) - {dump} - laterDumps) + laterArchives
         == (local - ({dump} + laterDumps)) + ({archive} + laterArchives)
  {
  }

  /** A successful database followed by a completed rest of the pass. */
  lemma CompletedAfterStep(p: Pass, q: Pass, db: string, ignored: seq<string>, dump: string, i: nat,
                           keys: seq<string>, dumps: set<string>)
    requires p.failedAt == None && db !in ignored && IsDumpName(dump)
    requires ArchiveName(dump) !in dumps
    requires Completed(BackupStep(p, db, ignored, dump, Succeeds, i), q, keys, dumps)
    ensures Completed(p, q, [ArchiveName(dump)] + keys, {dump} + dumps)
  {
    var archive := ArchiveName(dump);
    ArchiveOfDump(dump, dump);
    LocalAfterStep(p.site.local, dumps, Elements(keys), dump, archive);
    assert Elements([archive] + keys) == {archive} + Elements(keys);
    assert p.uploaded + ([archive] + keys) == p.uploaded + [archive] + keys;
  }

  /** The keys and dump files of a pass, one database at a time. */
  lemma ExpectedFirst(dbs: seq<string>, ignored: seq<string>, names: seq<string>)
    requires |names| == |dbs| && dbs != [] && AllDumpNames(names)
    ensures dbs[0] in ignored ==>
      && ExpectedKeys(dbs, ignored, names) == ExpectedKeys(dbs[1..], ignored, names[1..])
      && ExpectedDumps(dbs, ignored, names) == ExpectedDumps(dbs[1..], ignored, names[1..])
    ensures dbs[0] !in ignored ==>
      && ExpectedKeys(dbs, ignored, names) == [ArchiveName(names[0])] + ExpectedKeys(dbs[1..], ignored, names[1..])
      && ExpectedDumps(dbs, ignored, names) == {names[0]} + ExpectedDumps(dbs[1..], ignored, names[1..])
      && ArchiveName(names[0]) !in ExpectedDumps(dbs[1..], ignored, names[1..])
  {
    var rest := ExpectedKeys(dbs[1..], ignored, names[1..]);
    var restDumps := ExpectedDumps(dbs[1..], ignored, names[1..]);
    if dbs[0] in ignored {
      assert [] + rest == rest;
      assert {} + restDumps == restDumps;
    } else {
      forall d | d in restDumps ensures ArchiveName(names[0]) != d {
        assert d in names[1..];
        ArchiveOfDump(names[0], d);
      }
    }
  }

  /** When no tool fails, the pass uploads the archive of every database not
      ignored, in enumeration order; the directory gains those archives and
      keeps none of the dump files. */
  lemma {:induction false} BackupAllSucceed(p: Pass, dbs: seq<string>, ignored: seq<string>,
                                            names: seq<string>, outcomes: seq<ToolOutcome>, base: nat)
    requires |names| == |dbs| && |outcomes| == |dbs| && AllDumpNames(names)
    requires p.failedAt == None && FirstFailure(dbs, ignored, outcomes) == None
    ensures Completed(p, BackupOver(p, dbs, ignored, names, outcomes, base),
                      ExpectedKeys(dbs, ignored, names), ExpectedDumps(dbs, ignored, names))
    decreases |dbs|
  {
    var q := BackupOver(p, dbs, ignored, names, outcomes, base);
    if dbs == [] {
      CompletedNothing(p);
    } else {
      var p' := BackupStep(p, dbs[0], ignored, names[0], outcomes[0], base);
      assert q == BackupOver(p', dbs[1..], ignored, names[1..], outcomes[1..], base + 1);
      BackupAllSucceed(p', dbs[1..], ignored, names[1..], outcomes[1..], base + 1);
      ExpectedFirst(dbs, ignored, names);
      if dbs[0] !in ignored {
        assert outcomes[0] == Succeeds;
        CompletedAfterStep(p, q, dbs[0], ignored, names[0], base,
                           ExpectedKeys(dbs[1..], ignored, names[1..]), ExpectedDumps(dbs[1..], ignored, names[1..]));
      }
    }
  }

  /** The pass from position `i` on: one step, then the rest. */
  lemma BackupOverAt(p: Pass, dbs: seq<string>, ignored: seq<string>,
                     names: seq<string>, outcomes: seq<ToolOutcome>, i: nat)
    requires |names| == |dbs| && |outcomes| == |dbs| && i < |dbs| && p.failedAt == None
    ensures BackupOver(p, dbs[i..], ignored, names[i..], outcomes[i..], i)
      == BackupOver(BackupStep(p, dbs[i], ignored, names[i], outcomes[i], i),
                    dbs[i + 1..], ignored, names[i + 1..], outcomes[i + 1..], i + 1)
  {
    assert dbs[i..][1..] == dbs[i + 1..] && names[i..][1..] == names[i + 1..]
      && outcomes[i..][1..] == outcomes[i + 1..];
  }

  /** A pass that has failed goes no further. */
  lemma BackupOverFailed(p: Pass, dbs: seq<string>, ignored: seq<string>,
                         names: seq<string>, outcomes: seq<ToolOutcome>, i: nat)
    requires |names| == |dbs| && |outcomes| == |dbs| && p.failedAt.Some?
    ensures BackupOver(p, dbs, ignored, names, outcomes, i) == p
  {
  }

  lemma SliceShift<T>(s: seq<T>, j: nat)
    requires 0 < j <= |s|
    ensures s[..j][1..] == s[1..][..j - 1]
    ensures s[1..][j - 1..] == s[j..]
  {
  }

  /** A pass over two stretches of databases is the pass over the first
      continued over the second. */
  lemma {:induction false} BackupOverSplit(p: Pass, dbs: seq<string>, ignored: seq<string>,
                                           names: seq<string>, outcomes: seq<ToolOutcome>, base: nat, j: nat)
    requires |names| == |dbs| && |outcomes| == |dbs| && j <= |dbs|
    ensures BackupOver(p, dbs, ignored, names, outcomes, base)
      == BackupOver(BackupOver(p, dbs[..j], ignored, names[..j], outcomes[..j], base),
                    dbs[j..], ignored, names[j..], outcomes[j..], base + j)
    decreases j
  {
    if j == 0 {
      assert dbs[..0] == [] && dbs[0..] == dbs && names[0..] == names && outcomes[0..] == outcomes;
    } else if p.failedAt == None {
      var p' := BackupStep(p, dbs[0], ignored, names[0], outcomes[0], base);
      BackupOverSplit(p', dbs[1..], ignored, names[1..], outcomes[1..], base + 1, j - 1);
      SliceShift(dbs, j);
      SliceShift(names, j);
      SliceShift(outcomes, j);
    }
  }

  lemma FirstFailurePrefix(dbs: seq<string>, ignored: seq<string>, outcomes: seq<ToolOutcome>, j: nat)
    requires |outcomes| == |dbs| && j <= |dbs|
    requires forall i :: 0 <= i < j ==> dbs[i] in ignored || outcomes[i] == Succeeds
    ensures FirstFailure(dbs[..j], ignored, outcomes[..j]) == None
  {
  }

  /** A database whose tool fails ends the pass there. */
  lemma BackupOverFails(p: Pass, dbs: seq<string>, ignored: seq<string>,
                        names: seq<string>, outcomes: seq<ToolOutcome>, base: nat, j: nat)
    requires |names| == |dbs| && |outcomes| == |dbs| && j < |dbs|
    requires p.failedAt == None && dbs[j] !in ignored && outcomes[j].FailsAt? && IsDumpName(names[j])
    ensures var q := BackupOver(p, dbs[j..], ignored, names[j..], outcomes[j..], base + j);
      && q.failedAt.Some? && q.failedAt.value == base + j
      && q.uploaded == p.uploaded
      && q.site.bucket == p.site.bucket
      && q.site.local == AfterFailure(p.site.local, names[j], outcomes[j])
  {
    ArchiveOfDump(names[j], names[j]);
    BackupOverAt(p, dbs, ignored, names, outcomes, j);
    var q := BackupStep(p, dbs[j], ignored, names[j], outcomes[j], base + j);
    BackupOverFailed(q, dbs[j + 1..], ignored, names[j + 1..], outcomes[j + 1..], base + j + 1);
  }

  /** The backup directory after the database with dump file `dump` failed
      with `outcome`: a failed dump or archive step leaves the dump file; a
      failed upload leaves the archive, the dump having been removed. */
  function AfterFailure(local: set<string>, dump: string, outcome: ToolOutcome): set<string> {
    if outcome == FailsAt(Upload) then (local - {dump}) + {ArchiveName(dump)} else local + {dump}
  }

  /** The pass meets its first failure at position `j`. */
  lemma BackupStopsAt(p: Pass, dbs: seq<string>, ignored: seq<string>,
                      names: seq<string>, outcomes: seq<ToolOutcome>, base: nat, j: nat)
    requires |names| == |dbs| && |outcomes| == |dbs| && j < |dbs| && AllDumpNames(names)
    requires p.failedAt == None
    requires forall i :: 0 <= i < j ==> dbs[i] in ignored || outcomes[i] == Succeeds
    requires dbs[j] !in ignored && outcomes[j].FailsAt?
    ensures var q := BackupOver(p, dbs, ignored, names, outcomes, base);
      var keys := ExpectedKeys(dbs[..j], ignored, names[..j]);
      && q.failedAt.Some? && q.failedAt.value == base + j
      && q.uploaded == p.uploaded + keys
      && q.site.bucket == p.site.bucket + Elements(keys)
      && q.site.local == AfterFailure((p.site.local - ExpectedDumps(dbs[..j], ignored, names[..j])) + Elements(keys),
                                      names[j], outcomes[j])
  {
    BackupOverSplit(p, dbs, ignored, names, outcomes, base, j);
    FirstFailurePrefix(dbs, ignored, outcomes, j);
    assert AllDumpNames(names[..j]);
    BackupAllSucceed(p, dbs[..j], ignored, names[..j], outcomes[..j], base);
    var mid := BackupOver(p, dbs[..j], ignored, names[..j], outcomes[..j], base);
    BackupOverFails(mid, dbs, ignored, names, outcomes, base, j);
  }

  /** A failing tool ends the whole pass at that database: the databases
      before it were backed up as if nothing failed, none after it is looked
      at; when the dump or the archive step failed the dump file stays, and
      when the upload failed the archive stays and the dump is gone. */
  lemma BackupStopsAtFirstFailure(p: Pass, dbs: seq<string>, ignored: seq<string>,
                                  names: seq<string>, outcomes: seq<ToolOutcome>, base: nat)
    requires |names| == |dbs| && |outcomes| == |dbs| && AllDumpNames(names)
    requires p.failedAt == None
    requires FirstFailure(dbs, ignored, outcomes).Some?
    ensures var j := FirstFailure(dbs, ignored, outcomes).value;
      var q := BackupOver(p, dbs, ignored, names, outcomes, base);
      var keys := ExpectedKeys(dbs[..j], ignored, names[..j]);
      && q.failedAt.Some? && q.failedAt.value == base + j
      && q.uploaded == p.uploaded + keys
      && q.site.bucket == p.site.bucket + Elements(keys)
      && q.site.local == AfterFailure((p.site.local - ExpectedDumps(dbs[..j], ignored, names[..j])) + Elements(keys),
                                      names[j], outcomes[j])
      && (outcomes[j] != FailsAt(Upload) ==> names[j] in q.site.local)
      && (outcomes[j] == FailsAt(Upload) ==> names[j] !in q.site.local && ArchiveName(names[j]) in q.site.local)
  {
    ArchiveOfDump(names[FirstFailure(dbs, ignored, outcomes).value], names[FirstFailure(dbs, ignored, outcomes).value]);
    BackupStopsAt(p, dbs, ignored, names, outcomes, base, FirstFailure(dbs, ignored, outcomes).value);
  }

  // ---------------------------------------------------------------------------
  // The local purge

  /** What the `*.tar.gz` purge leaves in the backup directory. */
  function Purged(local: set<string>): (r: set<string>)
    ensures r <= local
    ensures forall f :: f in r ==> !MatchesArchiveGlob(f)
    ensures forall f :: f in local && !MatchesArchiveGlob(f) ==> f in r
  {
    set f | f in local && !MatchesArchiveGlob(f)
  }

  /** Files the glob matches, added to a directory, leave its purge as it was. */
  lemma PurgeDropsArchives(local: set<string>, removed: set<string>, archives: set<string>)
    requires forall a :: a in archives ==> MatchesArchiveGlob(a)
    ensures Purged((local - removed) + archives) == Purged(local) - removed
  {
  }

  /** After a pass that meets no failure, the purge leaves what it would have
      left before, less the dump files of the same names: no archive of the
      pass survives it. */
  lemma BackupThenPurge(p: Pass, dbs: seq<string>, ignored: seq<string>,
                        names: seq<string>, outcomes: seq<ToolOutcome>)
    requires |names| == |dbs| && |outcomes| == |dbs| && AllDumpNames(names)
    requires p.failedAt == None && FirstFailure(dbs, ignored, outcomes) == None
    ensures Purged(BackupOver(p, dbs, ignored, names, outcomes, 0).site.local)
      == Purged(p.site.local) - ExpectedDumps(dbs, ignored, names)
  {
    BackupAllSucceed(p, dbs, ignored, names, outcomes, 0);
    var keys := ExpectedKeys(dbs, ignored, names);
    forall k | k in Elements(keys) ensures MatchesArchiveGlob(k) {
      ExpectedKeysSpec(dbs, ignored, names, k);
      var i :| 0 <= i < |dbs| && dbs[i] !in ignored && k == ArchiveName(names[i]);
      ArchiveOfDump(names[i], names[i]);
    }
    PurgeDropsArchives(p.site.local, ExpectedDumps(dbs, ignored, names), Elements(keys));
  }

  // ---------------------------------------------------------------------------
  // The stores

  /** The backup directory and the bucket, as the daemon changes them. */
  class BackupStorage {
    /** The directory the dumps and archives are written to. */
    const backupDir: string
    /** Names of the files in the backup directory. */
    var localFiles: set<string>
    /** Keys of the objects in the bucket. */
    var bucketKeys: set<string>

    constructor (dir: string, local: set<string>, bucket: set<string>)
      ensures backupDir == dir && localFiles == local && bucketKeys == bucket
    {
      backupDir := dir;
      localFiles := local;
      bucketKeys := bucket;
    }

    function State(): Site
      reads this
    {
      Site(localFiles, bucketKeys)
    }

    /** The key an archive is uploaded under, the base name of its path in
        the backup directory: the archive's own name. */
    method UploadKey(db: string, at: ValidDateTime) returns (key: string)
      requires '/' !in db
      ensures key == ObjectKey(db, at)
    {
      key := BaseName(backupDir + "/" + ArchiveName(DumpName(db, at)));
      BaseNameOfArchive(backupDir, db, at);
    }

    /** The backup of one database, at position `i` of the enumeration, with
        the clock reading `at`: skipped when ignored, otherwise dumped,
        archived, the dump removed and the archive uploaded under its base
        name, stopping at the first tool that fails. */
    method BackupDatabase(db: string, ignored: seq<string>, at: ValidDateTime, outcome: ToolOutcome, i: nat,
                          uploaded: seq<string>)
      returns (uploaded': seq<string>, failedAt: Option<nat>)
      requires db !in ignored ==> '/' !in db
      modifies this
      ensures Pass(State(), uploaded', failedAt)
        == BackupStep(Pass(old(State()), uploaded, None), db, ignored, DumpName(db, at), outcome, i)
    {
      uploaded', failedAt := uploaded, None;
      if db !in ignored {
        var dump := DumpName(db, at);
        localFiles := localFiles + {dump};
        if outcome == FailsAt(Dump) {
          failedAt := Some(i);
        } else {
          var archive := ArchiveName(dump);
          if outcome == FailsAt(Archive) {
            failedAt := Some(i);
          } else {
            localFiles := localFiles + {archive};
            localFiles := localFiles - {dump};
            if outcome == FailsAt(Upload) {
              failedAt := Some(i);
            } else {
              var key := UploadKey(db, at);
              bucketKeys := bucketKeys + {key};
              uploaded' := uploaded + [key];
            }
          }
        }
      }
    }

    /** One backup pass over the enumerated databases; `clock[i]` is the
        clock reading taken for `databases[i]` and `outcomes[i]` says whether
        its dump, archive and upload succeed. The model assumes that no
        database it backs up has a `/` in its name. */
    method BackupMysql(databases: seq<string>, ignored: seq<string>, clock: seq<ValidDateTime>,
                       outcomes: seq<ToolOutcome>)
      returns (uploaded: seq<string>, failedAt: Option<nat>)
      requires |clock| == |databases| && |outcomes| == |databases|
      requires forall i :: 0 <= i < |databases| && databases[i] !in ignored ==> '/' !in databases[i]
      modifies this
      ensures Pass(State(), uploaded, failedAt)
        == BackupOver(Pass(old(State()), [], None), databases, ignored, DumpNames(databases, clock), outcomes, 0)
    {
      uploaded, failedAt := [], None;
      ghost var names := DumpNames(databases, clock);
      ghost var goal := BackupOver(Pass(State(), [], None), databases, ignored, names, outcomes, 0);
      for i := 0 to |databases|
        invariant failedAt == None
        invariant BackupOver(Pass(State(), uploaded, None), databases[i..], ignored, names[i..], outcomes[i..], i) == goal
      {
        ghost var before := Pass(State(), uploaded, None);
        BackupOverAt(before, databases, ignored, names, outcomes, i);
        uploaded, failedAt := BackupDatabase(databases[i], ignored, clock[i], outcomes[i], i, uploaded);
        if failedAt.Some? {
          BackupOverFailed(Pass(State(), uploaded, failedAt), databases[i + 1..], ignored,
                           names[i + 1..], outcomes[i + 1..], i + 1);
          return;
        }
      }
      assert databases[|databases|..] == [];
    }

    /** Removes every file of the backup directory the `*.tar.gz` glob
        matches, one at a time; nothing else changes. */
    method CleanupLocalBackups()
      modifies this
      ensures localFiles == Purged(old(localFiles))
      ensures bucketKeys == old(bucketKeys)
    {
      var files := set f | f in localFiles && MatchesArchiveGlob(f);
      while files != {}
        invariant files <= old(localFiles)
        invariant forall f :: f in files ==> MatchesArchiveGlob(f)
        invariant localFiles == Purged(old(localFiles)) + files
        invariant bucketKeys == old(bucketKeys)
        decreases files
      {
        var file :| file in files;
        localFiles := localFiles - {file};
        files := files - {file};
      }
    }

    /** The daily cleanup: the local purge, then one walk over the bucket
        listing with a single `now`, deleting each key the retention rule
        condemns; `read` is how a timestamp is read from a key. The walk
        stops at the first key whose timestamp cannot be read (`stoppedAt`);
        the keys after it are left alone. */
    method CleanupOldBackupsWith(now: int, listing: seq<string>, read: string -> Option<ValidDateTime>)
      returns (stoppedAt: Option<nat>)
      modifies this
      ensures localFiles == Purged(old(localFiles))
      ensures bucketKeys == old(bucketKeys) - Sweep(now, Entries(listing, read)).deleted
      ensures stoppedAt == Sweep(now, Entries(listing, read)).stoppedAt
    {
      CleanupLocalBackups();
      ghost var es := Entries(listing, read);
      var i := 0;
      while i < |listing|
        invariant 0 <= i <= |listing|
        invariant Sweep(now, es[..i]).stoppedAt == None
        invariant bucketKeys == old(bucketKeys) - Sweep(now, es[..i]).deleted
        invariant localFiles == Purged(old(localFiles))
      {
        var key := listing[i];
        var backupTime := read(key);
        SweepExtend(now, es, i);
        if backupTime.None? {
          SweepStopsForGood(now, es, i + 1);
          return Some(i);
        }
        if ShouldDelete(now, backupTime.value) {
          bucketKeys := bucketKeys - {key};
        }
        i := i + 1;
      }
      assert es[..i] == es;
      return None;
    }

    /** The daily cleanup as the daemon runs it, reading timestamps as
        written: after the local purge it stops at the first listed key and
        deletes nothing from the bucket. */
    method CleanupOldBackups(now: int, listing: seq<string>) returns (stoppedAt: Option<nat>)
      modifies this
      ensures localFiles == Purged(old(localFiles))
      ensures bucketKeys == old(bucketKeys)
      ensures stoppedAt == if listing == [] then None else Some(0)
    {
      stoppedAt := CleanupOldBackupsWith(now, listing, ParseKey);
      if listing != [] {
        AsWrittenSweepStopsAtFirstKey(now, listing);
      }
    }

    /** The daily cleanup with timestamps read from between the key's
        `backup_<db>_` prefix and its `.sql.tar.gz` suffix. Over a listing of
        uploaded archives it reaches the end and deletes exactly the keys
        more than seven days old. */
    method CleanupOldBackupsCorrected(now: int, listing: seq<string>) returns (stoppedAt: Option<nat>)
      modifies this
      ensures localFiles == Purged(old(localFiles))
      ensures (forall i :: 0 <= i < |listing| ==> StampOfKey(listing[i]).Some?) ==>
        && stoppedAt == None
        && bucketKeys == old(bucketKeys) - set k | k in listing && Micros(StampOfKey(k).value) < now - Week
      ensures bucketKeys == old(bucketKeys) - Sweep(now, CorrectedEntries(listing)).deleted
      ensures stoppedAt == Sweep(now, CorrectedEntries(listing)).stoppedAt
    {
      stoppedAt := CleanupOldBackupsWith(now, listing, StampOfKey);
      if forall i :: 0 <= i < |listing| ==> StampOfKey(listing[i]).Some? {
        CorrectedSweepDeletesStale(now, listing);
      }
    }
  }
}
