/**
  The names of backup artifacts, and the way the remote cleanup reads a
  timestamp back out of an object key.
*/
module Naming {
  import opened Wrappers
  import opened Timestamp

  /** The dump file created for one database inside the backup directory:
      `backup_<db>_<YYYY-MM-DD_HH-MM-SS>.sql`. */
  function DumpName(db: string, at: ValidDateTime): (name: string)
    ensures |name| >= 4 && name[|name| - 4..] == ".sql"
  {
    "backup_" + db + "_" + Format(at) + ".sql"
  }

  /** The archive `tar` writes next to a dump: the dump's name plus `.tar.gz`. */
  function ArchiveName(dump: string): (name: string)
    ensures |name| >= 7 && name[|name| - 7..] == ".tar.gz"
  {
    dump + ".tar.gz"
  }

  /** The object key an archive is uploaded under. */
  function ObjectKey(db: string, at: ValidDateTime): string {
    ArchiveName(DumpName(db, at))
  }

  /** The text after the last occurrence of `c`, or all of `s` when `c` does
      not occur: Python's `s.split(c)[-1]`. */
  function AfterLast(s: string, c: char): (r: string)
    ensures c !in r
    ensures |r| <= |s| && r == s[|s| - |r|..]
    ensures |r| == |s| || s[|s| - |r| - 1] == c
    decreases |s|
  {
    if s == [] then []
    else if s[|s| - 1] == c then []
    else AfterLast(s[..|s| - 1], c) + [s[|s| - 1]]
  }

  /** `os.path.basename`: the text after the last `/`. */
  function BaseName(path: string): string {
    AfterLast(path, '/')
  }

  /** `p` occurs in `s` starting at index `i`. */
  predicate OccursAt(s: string, p: string, i: int) {
    0 <= i && i + |p| <= |s| && s[i..i + |p|] == p
  }

  /** `p` occurs somewhere in `s`. */
  ghost predicate Occurs(s: string, p: string) {
    exists i :: OccursAt(s, p, i)
  }

  /** `s.replace(p, '')`: every occurrence of `p`, found left to right without
      overlapping, is removed. */
  function RemoveAll(s: string, p: string): (r: string)
    requires p != []
    ensures |r| <= |s|
    ensures forall c :: c in r ==> c in s
    decreases |s|
  {
    if |s| < |p| then s
    else if s[..|p|] == p then RemoveAll(s[|p|..], p)
    else [s[0]] + RemoveAll(s[1..], p)
  }

  /** The text the remote cleanup hands to `strptime`, as written:
      `key.split('_')[-1].replace('.sql.gz', '')`. */
  function KeyStamp(key: string): string {
    RemoveAll(AfterLast(key, '_'), ".sql.gz")
  }

  /** The timestamp the remote cleanup reads from a key, as written; `None`
      where `strptime` raises. */
  function ParseKey(key: string): Option<ValidDateTime> {
    Parse(KeyStamp(key))
  }

  /** The timestamp of a key named like the uploaded archives, read from the
      19 characters between `backup_<db>_` and `.sql.tar.gz`. */
  function StampOfKey(key: string): Option<ValidDateTime> {
    if |key| < 38 || key[..7] != "backup_" || key[|key| - 11..] != ".sql.tar.gz" || key[|key| - 31] != '_'
    then None
    else Parse(key[|key| - 30..|key| - 11])
  }

  /** A name the cleanup's `*.tar.gz` glob matches in the backup directory:
      it ends in `.tar.gz` and, being a wildcard match, is not a hidden name. */
  predicate MatchesArchiveGlob(name: string) {
    |name| >= 7 && name[|name| - 7..] == ".tar.gz" && name[0] != '.'
  }

  // ---------------------------------------------------------------------------
  // Lemmas

  lemma {:induction false} AfterLastAppend(a: string, c: char, b: string)
    requires c !in b
    ensures AfterLast(a + [c] + b, c) == b
    decreases |b|
  {
    var s := a + [c] + b;
    if b != [] {
      var init := b[..|b| - 1];
      assert s[..|s| - 1] == a + [c] + init;
      assert s[|s| - 1] == b[|b| - 1];
      AfterLastAppend(a, c, init);
      assert b == init + [b[|b| - 1]];
    }
  }

  lemma OccursInTail(s: string, p: string)
    requires s != []
    ensures Occurs(s[1..], p) ==> Occurs(s, p)
  {
    if Occurs(s[1..], p) {
      var i :| OccursAt(s[1..], p, i);
      assert s[i + 1..i + 1 + |p|] == s[1..][i..i + |p|];
      assert OccursAt(s, p, i + 1);
    }
  }

  lemma RemoveAllAbsent(s: string, p: string)
    requires p != [] && !Occurs(s, p)
    ensures RemoveAll(s, p) == s
    decreases |s|
  {
    if |s| >= |p| {
      assert s[0..|p|] == s[..|p|];
      assert !OccursAt(s, p, 0);
      OccursInTail(s, p);
      RemoveAllAbsent(s[1..], p);
      assert s == [s[0]] + s[1..];
    }
  }

  lemma FormatChars(at: ValidDateTime)
    ensures forall c :: c in Format(at) ==> IsDigit(c) || c == '-' || c == '_'
    ensures Format(at) == FormatDate(at) + FormatTime(at)
    ensures Format(at)[11..] == FormatTime(at)
    ensures FormatDate(at)[10] == '_'
    ensures forall i :: 0 <= i < 8 ==> IsDigit(FormatTime(at)[i]) || FormatTime(at)[i] == '-'
  {
    var s := Format(at);
    FormatShape(at);
    assert s[..11] == FormatDate(at) && s[11..] == FormatTime(at);
    forall c | c in s ensures IsDigit(c) || c == '-' || c == '_' {
      var i :| 0 <= i < |s| && s[i] == c;
      assert IsSeparatorIndex(i) || IsDigit(s[i]);
    }
    forall i | 0 <= i < 8 ensures IsDigit(FormatTime(at)[i]) || FormatTime(at)[i] == '-' {
      assert FormatTime(at)[i] == s[11 + i];
      assert IsSeparatorIndex(11 + i) || IsDigit(s[11 + i]);
    }
  }

  /** As written, the cleanup can read no timestamp from any key at all: the
      text after the last `_` holds no `_`, removing `.sql.gz` adds none, and
      the format `%Y-%m-%d_%H-%M-%S` demands one. */
  lemma ParseKeyAlwaysFails(key: string)
    ensures ParseKey(key) == None
  {
    var tail := AfterLast(key, '_');
    var text := RemoveAll(tail, ".sql.gz");
    assert '_' !in text;
    if Parse(text).Some? {
      ParsedHasUnderscore(text);
    }
  }

  /** On an uploaded key the text handed to `strptime` is `HH-MM-SS.sql.tar.gz`:
      the split drops the date, and the `.sql.gz` replace finds nothing. */
  lemma KeyStampOfObjectKey(db: string, at: ValidDateTime)
    ensures KeyStamp(ObjectKey(db, at)) == FormatTime(at) + ".sql.tar.gz"
  {
    var t := FormatTime(at) + ".sql.tar.gz";
    TailOfObjectKey(db, at);
    FormatChars(at);
    NoDumpSuffixIn(FormatTime(at));
    RemoveAllAbsent(t, ".sql.gz");
  }

  lemma TailOfObjectKey(db: string, at: ValidDateTime)
    ensures AfterLast(ObjectKey(db, at), '_') == FormatTime(at) + ".sql.tar.gz"
  {
    FormatChars(at);
    var date, time := FormatDate(at), FormatTime(at);
    var t := time + ".sql.tar.gz";
    var key := ObjectKey(db, at);
    assert date == date[..10] + ['_'];
    assert key == ("backup_" + db + "_" + date[..10]) + ['_'] + t;
    forall i | 0 <= i < |t| ensures t[i] != '_' {
      if i < 8 { assert t[i] == time[i]; }
    }
    AfterLastAppend("backup_" + db + "_" + date[..10], '_', t);
  }

  /** `.sql.gz` does not occur in `HH-MM-SS.sql.tar.gz`. */
  lemma NoDumpSuffixIn(time: string)
    requires |time| == 8
    requires forall i :: 0 <= i < 8 ==> IsDigit(time[i]) || time[i] == '-'
    ensures !Occurs(time + ".sql.tar.gz", ".sql.gz")
  {
    var t := time + ".sql.tar.gz";
    var p := ".sql.gz";
    forall i ensures !OccursAt(t, p, i) {
      if i < 0 || i + |p| > |t| {
      } else if i < 8 {
        assert t[i] == time[i];
        assert t[i..i + |p|][0] == t[i];
      } else if i == 8 {
        assert t[i..i + |p|][5] == t[13] == 't';
      } else {
        assert t[i..i + |p|][1] == t[i + 1];
      }
    }
  }

  /** Reading the stamp back from between the fixed prefix and suffix recovers
      the instant an archive was named with. */
  lemma StampOfObjectKey(db: string, at: ValidDateTime)
    ensures StampOfKey(ObjectKey(db, at)) == Some(at)
  {
    var key := ObjectKey(db, at);
    var f := Format(at);
    FormatShape(at);
    assert key == "backup_" + db + "_" + f + ".sql.tar.gz";
    assert |key| == |db| + 38;
    assert key[..7] == "backup_";
    assert key[|key| - 11..] == ".sql.tar.gz";
    assert key[|key| - 31] == '_';
    assert key[|key| - 30..|key| - 11] == f;
    ParseFormat(at);
  }

  /** Conversely, a key whose stamp is read back is the key of that instant,
      for the database named between the prefix and the stamp. */
  lemma ObjectKeyOfStamp(key: string)
    requires StampOfKey(key).Some?
    ensures key == ObjectKey(key[7..|key| - 31], StampOfKey(key).value)
  {
    var at := StampOfKey(key).value;
    var f := key[|key| - 30..|key| - 11];
    FormatParse(f);
    var db := key[7..|key| - 31];
    var built := ObjectKey(db, at);
    assert built == "backup_" + db + "_" + f + ".sql.tar.gz";
    assert key == key[..7] + db + [key[|key| - 31]] + f + key[|key| - 11..];
  }

  /** The key an archive is uploaded under, `os.path.basename` of its path,
      is the archive's own name when the database name holds no `/`. */
  lemma BaseNameOfArchive(dir: string, db: string, at: ValidDateTime)
    requires '/' !in db
    ensures BaseName(dir + "/" + ObjectKey(db, at)) == ObjectKey(db, at)
  {
    FormatChars(at);
    var key := ObjectKey(db, at);
    assert key == "backup_" + db + "_" + Format(at) + ".sql.tar.gz";
    assert '/' !in key by {
      forall i | 0 <= i < |key| ensures key[i] != '/' {
        if 7 + |db| + 1 <= i < 7 + |db| + 20 {
          assert key[i] in Format(at);
        } else if 7 <= i < 7 + |db| {
          assert key[i] in db;
        }
      }
    }
    AfterLastAppend(dir, '/', key);
  }

  /** Every uploaded archive matches the local cleanup's glob; no dump does. */
  lemma GlobMatchesArchivesOnly(db: string, at: ValidDateTime)
    ensures MatchesArchiveGlob(ObjectKey(db, at))
    ensures !MatchesArchiveGlob(DumpName(db, at))
    ensures DumpName(db, at) != ObjectKey(db, at)
  {
    var dump := DumpName(db, at);
    var key := ObjectKey(db, at);
    assert key[|key| - 7..] == ".tar.gz";
    assert key[0] == 'b';
    assert dump[|dump| - 1] == 'l';
  }
}
