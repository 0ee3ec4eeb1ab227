/** Choosing the database backup to load, as test_backup_validation.py does for the SKU
    database (`sku_database_<timestamp>.json`) and the cost database
    (`cost_db_<timestamp>.json`): keep the files whose name has the database's shape and is
    not a temporary file, order them newest timestamp first, and take the first one that
    exists, is not empty and holds non-empty JSON data. */
module BackupSelection {
  import opened Text
  import opened Wrappers

  const SkuPrefix := "sku_database_"
  const CostPrefix := "cost_db_"
  const JsonSuffix := ".json"
  const TempMarker := "_temp"

  // ---------------------------------------------------------------------------
  // Candidate names
  // ---------------------------------------------------------------------------

  /** The timestamp part of a name: every occurrence of the prefix, then every occurrence of
      `.json`, deleted (`str.replace` removes all occurrences, not just the outer ones). */
  function Timestamp(prefix: string, name: string): (t: string)
    requires prefix != []
    ensures |t| <= |name|
  {
    RemoveAll(RemoveAll(name, prefix), JsonSuffix)
  }

  /** A backup of the database with this prefix: the right prefix and extension, not a
      temporary file, and a timestamp that is neither empty nor `temp`. */
  predicate IsCandidate(prefix: string, name: string)
    requires prefix != []
  {
    && StartsWith(name, prefix) && EndsWith(name, JsonSuffix)
    && !(Contains(name, TempMarker) || EndsWith(name, "_temp.json"))
    && Timestamp(prefix, name) != [] && Timestamp(prefix, name) != "temp"
  }

  /** A candidate file and the timestamp it is ordered by. */
  datatype Candidate = Candidate(name: string, timestamp: string)

  /** The candidates of a directory listing, in listing order. */
  function Candidates(listing: seq<string>, prefix: string): (cs: seq<Candidate>)
    requires prefix != []
    ensures forall c :: c in cs ==> c.name in listing && IsCandidate(prefix, c.name) && c.timestamp == Timestamp(prefix, c.name)
    ensures forall name :: name in listing && IsCandidate(prefix, name) ==> Candidate(name, Timestamp(prefix, name)) in cs
  {
    if |listing| == 0 then []
    else
      var rest := Candidates(listing[1..], prefix);
      assert forall name :: name in listing ==> name == listing[0] || name in listing[1..];
      var name := listing[0];
      if IsCandidate(prefix, name) then [Candidate(name, Timestamp(prefix, name))] + rest else rest
  }

  /** Every character of a string contained in `s` occurs in `s`. */
  lemma {:induction false} ContainsHasChars(s: string, needle: string, c: char)
    requires Contains(s, needle) && c in needle
    ensures c in s
    decreases |s|
  {
    if StartsWith(s, needle) {
      assert c in s[..|needle|];
    } else {
      ContainsHasChars(s[1..], needle, c);
    }
  }

  /** Deleting a pattern whose first character does not occur in `x` leaves `x` alone. */
  lemma {:induction false} RemoveAllSkips(x: string, y: string, pattern: string)
    requires pattern != [] && pattern[0] !in x
    ensures RemoveAll(x + y, pattern) == x + RemoveAll(y, pattern)
    decreases |x|
  {
    if |x| > 0 {
      var s := x + y;
      assert RemoveAll(s, pattern) == [x[0]] + RemoveAll(s[1..], pattern) by {
        if |s| >= |pattern| {
          assert s[..|pattern|][0] == x[0];
        }
      }
      assert RemoveAll(s[1..], pattern) == x[1..] + RemoveAll(y, pattern) by {
        assert s[1..] == x[1..] + y;
        RemoveAllSkips(x[1..], y, pattern);
      }
      AppendAssoc([x[0]], x[1..], RemoveAll(y, pattern));
      assert [x[0]] + x[1..] == x;
    } else {
      assert x + y == y;
    }
  }

  /** A character that can appear in a timestamp written `YYYY-MM-DD_HH-MM-SS`. */
  predicate IsTimestampChar(c: char) {
    ('0' <= c <= '9') || c == '-' || c == '_'
  }

  /** The file name a backup taken at `timestamp` is saved under. */
  function BackupName(prefix: string, timestamp: string): string {
    prefix + timestamp + JsonSuffix
  }

  /** A prefix some of whose characters cannot occur after it in a backup name. */
  predicate IsBackupPrefix(prefix: string) {
    && prefix != [] && 'p' !in prefix && '.' !in prefix
    && exists i :: 0 <= i < |prefix| && !IsTimestampChar(prefix[i]) && prefix[i] !in JsonSuffix
  }

  /** Deleting a pattern from itself leaves nothing. */
  lemma RemoveAllSelf(pattern: string)
    requires pattern != []
    ensures RemoveAll(pattern, pattern) == []
  {
    assert pattern[..|pattern|] == pattern;
    assert pattern[|pattern|..] == [];
  }

  /** Deleting the prefix from a backup name leaves the timestamp and the extension. */
  lemma RemovePrefixPart(prefix: string, timestamp: string)
    requires IsBackupPrefix(prefix)
    requires forall i :: 0 <= i < |timestamp| ==> IsTimestampChar(timestamp[i])
    ensures RemoveAll(BackupName(prefix, timestamp), prefix) == timestamp + JsonSuffix
  {
    var name := BackupName(prefix, timestamp);
    var rest := timestamp + JsonSuffix;
    assert name == prefix + rest;
    assert name[..|prefix|] == prefix;
    assert name[|prefix|..] == rest;
    var i :| 0 <= i < |prefix| && !IsTimestampChar(prefix[i]) && prefix[i] !in JsonSuffix;
    if Contains(rest, prefix) {
      ContainsHasChars(rest, prefix, prefix[i]);
    }
  }

  /** Deleting `.json` from a timestamp followed by `.json` leaves the timestamp. */
  lemma RemoveSuffixPart(timestamp: string)
    requires forall i :: 0 <= i < |timestamp| ==> IsTimestampChar(timestamp[i])
    ensures RemoveAll(timestamp + JsonSuffix, JsonSuffix) == timestamp
  {
    assert JsonSuffix[0] == '.';
    RemoveAllSkips(timestamp, JsonSuffix, JsonSuffix);
    RemoveAllSelf(JsonSuffix);
    assert timestamp + [] == timestamp;
  }

  /** A backup name holds no `p`, so it is never taken for a temporary file. */
  lemma BackupNameNotTemp(prefix: string, timestamp: string)
    requires IsBackupPrefix(prefix)
    requires forall i :: 0 <= i < |timestamp| ==> IsTimestampChar(timestamp[i])
    ensures !Contains(BackupName(prefix, timestamp), TempMarker)
    ensures !EndsWith(BackupName(prefix, timestamp), "_temp.json")
  {
    var name := BackupName(prefix, timestamp);
    assert 'p' !in JsonSuffix;
    assert 'p' !in name;
    if Contains(name, TempMarker) {
      assert TempMarker[4] == 'p';
      ContainsHasChars(name, TempMarker, 'p');
    }
    assert "_temp.json"[4] == 'p';
  }

  /** A backup saved under a timestamp made of digits, dashes and underscores is a
      candidate, and its timestamp is recovered exactly. */
  lemma BackupNameRoundTrip(prefix: string, timestamp: string)
    requires IsBackupPrefix(prefix)
    requires timestamp != [] && forall i :: 0 <= i < |timestamp| ==> IsTimestampChar(timestamp[i])
    ensures IsCandidate(prefix, BackupName(prefix, timestamp))
    ensures Timestamp(prefix, BackupName(prefix, timestamp)) == timestamp
  {
    var name := BackupName(prefix, timestamp);
    assert name[..|prefix|] == prefix;
    assert name[|name| - |JsonSuffix|..] == JsonSuffix;
    RemovePrefixPart(prefix, timestamp);
    RemoveSuffixPart(timestamp);
    BackupNameNotTemp(prefix, timestamp);
    assert "temp"[0] == 't';
  }

  /** For both databases, a backup saved under a timestamp of digits, dashes and
      underscores is a candidate, and its timestamp is recovered from its name. */
  lemma DatabaseBackupNameRoundTrip(timestamp: string)
    requires timestamp != [] && forall i :: 0 <= i < |timestamp| ==> IsTimestampChar(timestamp[i])
    ensures IsCandidate(SkuPrefix, BackupName(SkuPrefix, timestamp))
    ensures Timestamp(SkuPrefix, BackupName(SkuPrefix, timestamp)) == timestamp
    ensures IsCandidate(CostPrefix, BackupName(CostPrefix, timestamp))
    ensures Timestamp(CostPrefix, BackupName(CostPrefix, timestamp)) == timestamp
  {
    assert IsBackupPrefix(SkuPrefix) by {
      assert SkuPrefix[1] == 'k';
    }
    assert IsBackupPrefix(CostPrefix) by {
      assert CostPrefix[0] == 'c';
    }
    BackupNameRoundTrip(SkuPrefix, timestamp);
    BackupNameRoundTrip(CostPrefix, timestamp);
  }

  // ---------------------------------------------------------------------------
  // Newest first
  // ---------------------------------------------------------------------------

  /** Every candidate's timestamp is at least every later one's. */
  predicate NewestFirst(cs: seq<Candidate>) {
    forall i, j :: 0 <= i < j < |cs| ==> !LexLess(cs[i].timestamp, cs[j].timestamp)
  }

  /** `x` placed after every candidate whose timestamp is greater. */
  function Insert(x: Candidate, cs: seq<Candidate>): (r: seq<Candidate>)
    requires NewestFirst(cs)
    ensures multiset(r) == multiset(cs) + multiset{x}
    ensures NewestFirst(r)
    decreases |cs|
  {
    if |cs| == 0 then [x]
    else if !LexLess(x.timestamp, cs[0].timestamp) then
      var r := [x] + cs;
      assert forall j :: 1 <= j < |r| ==> r[j] == cs[j - 1];
      assert forall j :: 0 < j < |cs| ==> !LexLess(cs[0].timestamp, cs[j].timestamp);
      InsertFront(x, cs);
      r
    else
      var rest := Insert(x, cs[1..]);
      assert cs == [cs[0]] + cs[1..];
      var r := [cs[0]] + rest;
      InsertBehind(cs[0], x, cs[1..], rest);
      r
  }

  lemma InsertFront(x: Candidate, cs: seq<Candidate>)
    requires NewestFirst(cs) && |cs| > 0 && !LexLess(x.timestamp, cs[0].timestamp)
    ensures NewestFirst([x] + cs)
  {
    var r := [x] + cs;
    forall i, j | 0 <= i < j < |r|
      ensures !LexLess(r[i].timestamp, r[j].timestamp)
    {
      if i == 0 && j > 1 {
        NotLessTransitive(x.timestamp, cs[0].timestamp, cs[j - 1].timestamp);
      }
    }
  }

  lemma InsertBehind(head: Candidate, x: Candidate, tail: seq<Candidate>, rest: seq<Candidate>)
    requires NewestFirst([head] + tail) && NewestFirst(rest)
    requires LexLess(x.timestamp, head.timestamp)
    requires multiset(rest) == multiset(tail) + multiset{x}
    ensures NewestFirst([head] + rest)
  {
    var r := [head] + rest;
    forall j | 0 <= j < |rest|
      ensures !LexLess(head.timestamp, rest[j].timestamp)
    {
      assert rest[j] in multiset(rest);
      if rest[j] == x {
        LexLessAsymmetric(x.timestamp, head.timestamp);
      } else {
        assert rest[j] in multiset(tail);
        var k :| 0 <= k < |tail| && tail[k] == rest[j];
        var whole := [head] + tail;
        assert whole[0] == head && whole[k + 1] == tail[k];
        assert !LexLess(whole[0].timestamp, whole[k + 1].timestamp);
      }
    }
    forall i, j | 0 <= i < j < |r|
      ensures !LexLess(r[i].timestamp, r[j].timestamp)
    {
      if i > 0 {
        assert r[i] == rest[i - 1] && r[j] == rest[j - 1];
      } else {
        assert r[j] == rest[j - 1];
      }
    }
  }

  /** `sort(key=timestamp, reverse=True)`: the same candidates, newest first. */
  function SortNewestFirst(cs: seq<Candidate>): (r: seq<Candidate>)
    ensures multiset(r) == multiset(cs)
    ensures NewestFirst(r)
    decreases |cs|
  {
    if |cs| == 0 then []
    else
      assert cs == [cs[0]] + cs[1..];
      Insert(cs[0], SortNewestFirst(cs[1..]))
  }

  // ---------------------------------------------------------------------------
  // Validation and selection
  // ---------------------------------------------------------------------------

  /** What loading a file's JSON gives: a decoding or reading error, or data whose Python
      truth value is recorded. */
  datatype Load = LoadError | Loaded(nonEmpty: bool)

  /** A file on disk: its size in bytes and what loading it gives. */
  datatype StoredFile = StoredFile(size: nat, load: Load)

  /** Why a candidate was passed over, or that it is usable. */
  datatype Verdict = Missing | ZeroBytes | Unloadable | EmptyData | Usable

  /** The checks of the selection loop, in their order. */
  function Check(disk: map<string, StoredFile>, name: string): (v: Verdict)
    ensures v == Usable <==> name in disk && disk[name].size > 0 && disk[name].load == Loaded(true)
    ensures v == Missing <==> name !in disk
  {
    if name !in disk then Missing
    else if disk[name].size == 0 then ZeroBytes
    else match disk[name].load
      case LoadError => Unloadable
      case Loaded(nonEmpty) => if nonEmpty then Usable else EmptyData
  }

  /** The candidates of a listing, newest first. */
  function SortedCandidates(listing: seq<string>, prefix: string): (sorted: seq<Candidate>)
    requires prefix != []
    ensures NewestFirst(sorted)
    ensures forall c :: c in sorted ==> c.name in listing && IsCandidate(prefix, c.name) && c.timestamp == Timestamp(prefix, c.name)
    ensures forall name :: name in listing && IsCandidate(prefix, name) ==> Candidate(name, Timestamp(prefix, name)) in sorted
  {
    var candidates := Candidates(listing, prefix);
    var sorted := SortNewestFirst(candidates);
    assert forall c :: c in sorted <==> c in candidates by {
      forall c ensures c in sorted <==> c in candidates {
        assert c in sorted <==> c in multiset(sorted);
        assert c in candidates <==> c in multiset(candidates);
      }
    }
    sorted
  }

  /** The position of the first usable file, or the length when there is none. */
  method FirstUsable(sorted: seq<Candidate>, disk: map<string, StoredFile>) returns (i: nat)
    ensures i <= |sorted|
    ensures forall j :: 0 <= j < i ==> Check(disk, sorted[j].name) != Usable
    ensures i < |sorted| ==> Check(disk, sorted[i].name) == Usable
  {
    i := 0;
    while i < |sorted| && Check(disk, sorted[i].name) != Usable
      invariant 0 <= i <= |sorted|
      invariant forall j :: 0 <= j < i ==> Check(disk, sorted[j].name) != Usable
    {
      i := i + 1;
    }
  }

  /** `chosen` is a usable candidate of the listing with no newer usable candidate, and is
      absent exactly when no candidate is usable. */
  predicate IsLatestUsable(listing: seq<string>, disk: map<string, StoredFile>, prefix: string, chosen: Option<string>)
    requires prefix != []
  {
    && (chosen.Some? ==>
          && chosen.value in listing && IsCandidate(prefix, chosen.value)
          && Check(disk, chosen.value) == Usable
          && forall name :: name in listing && IsCandidate(prefix, name) && Check(disk, name) == Usable ==>
               !LexLess(Timestamp(prefix, chosen.value), Timestamp(prefix, name)))
    && (chosen.None? <==>
          forall name :: name in listing && IsCandidate(prefix, name) ==> Check(disk, name) != Usable)
  }

  /** The newest usable candidate: the timestamp-ordered candidates are tried in turn and
      the first that passes every check is taken. Nothing is chosen when none passes. */
  method SelectLatest(listing: seq<string>, disk: map<string, StoredFile>, prefix: string) returns (chosen: Option<string>)
    requires prefix != []
    ensures IsLatestUsable(listing, disk, prefix, chosen)
  {
    var sorted := SortedCandidates(listing, prefix);
    var i := FirstUsable(sorted, disk);
    chosen := if i < |sorted| then Some(sorted[i].name) else None;
    if chosen.Some? {
      FirstUsableIsNewest(sorted, i, disk);
      forall name | name in listing && IsCandidate(prefix, name) && Check(disk, name) == Usable
        ensures !LexLess(Timestamp(prefix, chosen.value), Timestamp(prefix, name))
      {
        assert Candidate(name, Timestamp(prefix, name)) in sorted;
      }
    } else {
      forall name | name in listing && IsCandidate(prefix, name)
        ensures Check(disk, name) != Usable
      {
        assert Candidate(name, Timestamp(prefix, name)) in sorted;
      }
    }
  }

  /** In a newest-first list, the first usable file is at least as new as every usable one. */
  lemma FirstUsableIsNewest(sorted: seq<Candidate>, i: nat, disk: map<string, StoredFile>)
    requires NewestFirst(sorted) && i < |sorted|
    requires forall j :: 0 <= j < i ==> Check(disk, sorted[j].name) != Usable
    ensures forall c :: c in sorted && Check(disk, c.name) == Usable ==> !LexLess(sorted[i].timestamp, c.timestamp)
  {
    forall c | c in sorted && Check(disk, c.name) == Usable
      ensures !LexLess(sorted[i].timestamp, c.timestamp)
    {
      var j :| 0 <= j < |sorted| && sorted[j] == c;
      if j == i {
        LexLessIrreflexive(c.timestamp);
      }
    }
  }

  /** The SKU and the cost database backups chosen from one directory. */
  method SelectDatabases(listing: seq<string>, disk: map<string, StoredFile>) returns (sku: Option<string>, cost: Option<string>)
    ensures IsLatestUsable(listing, disk, SkuPrefix, sku)
    ensures IsLatestUsable(listing, disk, CostPrefix, cost)
  {
    sku := SelectLatest(listing, disk, SkuPrefix);
    cost := SelectLatest(listing, disk, CostPrefix);
  }
}
