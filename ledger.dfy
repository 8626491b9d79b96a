/** The value-computing bookkeeping of gittrail/core.py: names of the record
    and log files, the session numbering over the name-sorted records
    (`_get_session_number`), the active-session set (`_get_active_sessions`),
    the bookkeeping filter (`_drop_active`) and the record `_commit_trail`
    builds. */
module Ledger {
  import opened Errors
  import opened Text
  import opened Timestamps

  /** One session record, as its JSON file holds it: the timestamps are the
      stored text, `endUtc` is None for `null`. */
  datatype Record = Record(
    commitId: string,
    startUtc: string,
    endUtc: Option<string>,
    files: map<string, string>)

  /** `f"{s:04d}.json"`, the record file of session s inside the trail directory. */
  function RecordName(s: int): string { ZeroPad(s, 4) + ".json" }

  /** `f"{s:04d}.log"`, the log file of session s inside the trail directory. */
  function LogName(s: int): string { ZeroPad(s, 4) + ".log" }

  /** The record file of session s as a path relative to the data directory. */
  function MetaPath(store: string, s: int): string { store + "/" + RecordName(s) }

  /** The log file of session s as a path relative to the data directory. */
  function LogPath(store: string, s: int): string { store + "/" + LogName(s) }

  /** The record names of a complete ledger of n sessions, in session order. */
  function RecordNames(n: nat): (r: seq<string>)
    ensures |r| == n
  {
    seq(n, i => RecordName(i))
  }

  // ---------------------------------------------------------------------------
  // Sorting record names (`sorted(..., key=lambda fp: fp.name)`)
  // ---------------------------------------------------------------------------

  /** No later name is smaller, in Python's str order, than an earlier one. */
  predicate Sorted(s: seq<string>)
  {
    forall i, j :: 0 <= i < j < |s| ==> !Below(s[j], s[i])
  }

  lemma SortedCons(h: string, t: seq<string>)
    requires Sorted(t) && forall e :: e in t ==> !Below(e, h)
    ensures Sorted([h] + t)
  {
    var s := [h] + t;
    forall i, j | 0 <= i < j < |s| ensures !Below(s[j], s[i]) {
      assert s[j] == t[j - 1];
      if i > 0 {
        assert s[i] == t[i - 1];
      }
    }
  }

  lemma SortedHeadIsLeast(s: seq<string>, e: string)
    requires Sorted(s) && e in s
    ensures !Below(e, s[0])
  {
    var k :| 0 <= k < |s| && s[k] == e;
    if k == 0 {
      BelowIrreflexive(e);
    }
  }

  lemma SortedTail(s: seq<string>)
    requires Sorted(s) && s != []
    ensures Sorted(s[1..])
  {
    var t := s[1..];
    forall i, j | 0 <= i < j < |t| ensures !Below(t[j], t[i]) {
      assert t[i] == s[i + 1] && t[j] == s[j + 1];
    }
  }

  /** A name that is not above the head of a sorted list is not above any of it. */
  lemma InsertAtFront(x: string, s: seq<string>)
    requires Sorted(s) && s != [] && !Below(s[0], x)
    ensures forall e :: e in s ==> !Below(e, x)
  {
    forall e | e in s ensures !Below(e, x) {
      SortedHeadIsLeast(s, e);
      BelowTotal(x, s[0]);
      if Below(e, x) && x != s[0] {
        BelowTransitive(e, x, s[0]);
      }
    }
  }

  /** Inserts x before the first name that is not below it. */
  function Insert(x: string, s: seq<string>): (r: seq<string>)
    requires Sorted(s)
    ensures Sorted(r)
    ensures multiset(r) == multiset(s) + multiset{x}
    ensures forall e :: e in r <==> e == x || e in s
    decreases |s|
  {
    if s == [] then [x]
    else if Below(s[0], x) then
      SortedTail(s);
      var rest := Insert(x, s[1..]);
      BelowAsymmetric(s[0], x);
      assert forall e :: e in rest ==> !Below(e, s[0]) by {
        forall e | e in rest ensures !Below(e, s[0]) {
          if e != x {
            SortedHeadIsLeast(s, e);
          }
        }
      }
      SortedCons(s[0], rest);
      assert s == [s[0]] + s[1..];
      [s[0]] + rest
    else
      InsertAtFront(x, s);
      SortedCons(x, s);
      [x] + s
  }

  /** `sorted(names)` under Python's str order. */
  function SortNames(names: seq<string>): (r: seq<string>)
    ensures Sorted(r) && multiset(r) == multiset(names) && |r| == |names|
    ensures forall e :: e in r <==> e in names
  {
    if names == [] then []
    else
      assert names == [names[0]] + names[1..];
      Insert(names[0], SortNames(names[1..]))
  }

  /** A sorted list is fixed by its elements: every listing order of one
      directory sorts to the same sequence. */
  lemma {:induction false} SortedUnique(a: seq<string>, b: seq<string>)
    requires Sorted(a) && Sorted(b) && multiset(a) == multiset(b)
    ensures a == b
    decreases |a|
  {
    assert |a| == |multiset(a)| == |multiset(b)| == |b|;
    if a != [] {
      assert a[0] in multiset(b) && b[0] in multiset(a);
      assert a[0] in b && b[0] in a;
      SortedHeadIsLeast(b, a[0]);
      SortedHeadIsLeast(a, b[0]);
      BelowTotal(a[0], b[0]);
      assert a[0] == b[0];
      assert a == [a[0]] + a[1..] && b == [b[0]] + b[1..];
      assert multiset(a[1..]) == multiset(a) - multiset{a[0]};
      assert multiset(b[1..]) == multiset(b) - multiset{b[0]};
      SortedTail(a);
      SortedTail(b);
      SortedUnique(a[1..], b[1..]);
    }
  }

  /** While names keep four digits, str order on record names is session order. */
  lemma RecordNameOrder(i: nat, j: nat)
    requires i < 10000 && j < 10000
    ensures Below(RecordName(i), RecordName(j)) <==> i < j
  {
    assert Pow10(4) == 10000;
    ZeroPadWidth(i, 4);
    ZeroPadWidth(j, 4);
    if i == j {
      BelowIrreflexive(RecordName(i));
    } else {
      var pi, pj := ZeroPad(i, 4), ZeroPad(j, 4);
      if pi == pj {
        ZeroPadInjective(i, j, 4);
      }
      BelowPrefixDecides(pi, pj, ".json", ".json");
      ZeroPadValue(i, 4);
      ZeroPadValue(j, 4);
      BelowDigits(pi, pj);
    }
  }

  lemma RecordNamesSorted(n: nat)
    requires n <= 10000
    ensures Sorted(RecordNames(n))
  {
    var s := RecordNames(n);
    forall i, j | 0 <= i < j < |s| ensures !Below(s[j], s[i]) {
      RecordNameOrder(j, i);
    }
  }

  // ---------------------------------------------------------------------------
  // Session numbering (`_get_session_number`)
  // ---------------------------------------------------------------------------

  /** The verdict of the numbering loop on sorted names, from position s on. */
  function NumberFrom(sorted: seq<string>, s: nat): (r: Result<nat>)
    requires s <= |sorted|
    ensures r.Ok? <==> forall t :: s <= t < |sorted| ==> sorted[t] == RecordName(t)
    ensures r.Ok? ==> r.value == |sorted|
    ensures r.Err? ==> r.error.IncompleteHistory? && s <= r.error.session < |sorted|
    ensures r.Err? ==> sorted[r.error.session] != RecordName(r.error.session)
    ensures r.Err? ==> forall t :: s <= t < r.error.session ==> sorted[t] == RecordName(t)
    decreases |sorted| - s
  {
    if s == |sorted| then Ok(|sorted|)
    else if sorted[s] != RecordName(s) then Err(IncompleteHistory(s))
    else NumberFrom(sorted, s + 1)
  }

  /** The session number the sorted record names give: their count when the
      s-th name is `f"{s:04d}.json"` for every s, otherwise IncompleteHistory
      naming the first position where it is not. */
  function Numbering(sorted: seq<string>): (r: Result<nat>)
    ensures r.Ok? <==> sorted == RecordNames(|sorted|)
    ensures r.Ok? ==> r.value == |sorted|
    ensures r.Err? ==> r.error.IncompleteHistory? && r.error.session < |sorted|
    ensures r.Err? ==> sorted[r.error.session] != RecordName(r.error.session)
    ensures r.Err? ==> forall t :: 0 <= t < r.error.session ==> sorted[t] == RecordName(t)
  {
    NumberFrom(sorted, 0)
  }

  /** `_get_session_number` (gittrail/core.py:16-22): `names` are the `*.json`
      names of the trail directory in the order the directory lists them. */
  method GetSessionNumber(names: seq<string>) returns (r: Result<nat>)
    ensures r == Numbering(SortNames(names))
    ensures r.Ok? ==> r.value == |names|
  {
    var sorted := SortNames(names);
    var s := 0;
    while s < |sorted|
      invariant s <= |sorted|
      invariant forall t :: 0 <= t < s ==> sorted[t] == RecordName(t)
    {
      if sorted[s] != RecordName(s) {
        return Err(IncompleteHistory(s));
      }
      s := s + 1;
    }
    return Ok(|names|);
  }

  /** A trail directory holding exactly the records of sessions 0..n-1, in any
      listing order, numbers to n as long as n <= 10000. */
  lemma CompleteLedgerNumbering(names: seq<string>, n: nat)
    requires multiset(names) == multiset(RecordNames(n))
    requires n <= 10000
    ensures Numbering(SortNames(names)) == Ok(n)
  {
    RecordNamesSorted(n);
    SortedUnique(SortNames(names), RecordNames(n));
  }

  /** "10000.json" sorts before "1001.json". */
  lemma WideNameSortsEarly()
    ensures Below(RecordName(10000), RecordName(1001))
  {
    DigitsOfPowers();
    assert Digits(1001) == Digits(100) + "1";
    assert RecordName(10000) == "1000" + "0.json";
    assert RecordName(1001) == "1001" + ".json";
    BelowPrefixDecides("1000", "1001", "0.json", ".json");
    assert Below("1000", "1001");
  }

  lemma DigitsOfPowers()
    ensures Digits(100) == "100" && Digits(10000) == "10000"
  {
    assert Digits(1) == "1";
    assert Digits(10) == Digits(1) + "0";
    assert Digits(100) == Digits(10) + "0";
    assert Digits(1000) == Digits(100) + "0";
    assert Digits(10000) == Digits(1000) + "0";
  }

  /** From 10001 records on the numbering never succeeds: `f"{s:04d}"` widens to
      five digits and "10000.json" sorts before "1001.json". */
  lemma NumberingFailsBeyond10000(names: seq<string>)
    requires |names| > 10000
    ensures Numbering(SortNames(names)).Err?
  {
    var sorted := SortNames(names);
    var complete := RecordNames(|names|);
    WideNameSortsEarly();
    assert complete[1001] == RecordName(1001) && complete[10000] == RecordName(10000);
    assert !Sorted(complete);
    assert sorted != complete;
  }

  /** A listing that numbers to n holds exactly the records of sessions 0..n-1. */
  lemma NumberedListingIsComplete(names: seq<string>, n: nat)
    requires Numbering(SortNames(names)) == Ok(n)
    ensures multiset(names) == multiset(RecordNames(n))
  {
    assert |SortNames(names)| == n;
    assert SortNames(names) == RecordNames(n);
  }

  lemma RecordNamesGrow(names: seq<string>, n: nat)
    requires multiset(names) == multiset(RecordNames(n))
    ensures multiset(names + [RecordName(n)]) == multiset(RecordNames(n + 1))
  {
    assert RecordNames(n + 1) == RecordNames(n) + [RecordName(n)];
  }

  /** Adding the record of session n to a ledger that numbers to n makes it
      number to n + 1: each successful session start claims the next number. */
  lemma NextSessionNumber(names: seq<string>, n: nat)
    requires Numbering(SortNames(names)) == Ok(n)
    requires n < 10000
    ensures Numbering(SortNames(names + [RecordName(n)])) == Ok(n + 1)
  {
    NumberedListingIsComplete(names, n);
    RecordNamesGrow(names, n);
    CompleteLedgerNumbering(names + [RecordName(n)], n + 1);
  }

  // ---------------------------------------------------------------------------
  // Active sessions (`_get_active_sessions`)
  // ---------------------------------------------------------------------------

  /** Every listed record file holds a record. */
  predicate Listed(names: seq<string>, records: map<string, Record>)
  {
    forall f :: f in names ==> f in records
  }

  /** `_get_active_sessions` (gittrail/core.py:25-32): the positions, in the
      name-sorted listing, of the records whose `end_utc` is null. */
  function ActiveSessions(names: seq<string>, records: map<string, Record>): (r: set<nat>)
    requires Listed(names, records)
    ensures forall i :: i in r ==> i < |names|
  {
    var sorted := SortNames(names);
    set i: nat | i < |sorted| && records[sorted[i]].endUtc.None?
  }

  /** On a ledger that numbers to n, the positions are the session numbers:
      exactly the sessions below n whose record has no end time are active. */
  lemma ActiveSessionsOfCompleteLedger(names: seq<string>, records: map<string, Record>, n: nat)
    requires Listed(names, records)
    requires Numbering(SortNames(names)) == Ok(n)
    ensures forall i: nat :: i < n ==> RecordName(i) in records
    ensures forall i: nat :: i in ActiveSessions(names, records) <==>
      i < n && records[RecordName(i)].endUtc.None?
  {
    var sorted := SortNames(names);
    assert sorted == RecordNames(n);
    forall i: nat | i < n ensures RecordName(i) in records {
      assert sorted[i] == RecordName(i) && sorted[i] in names;
    }
  }

  // ---------------------------------------------------------------------------
  // Filtering bookkeeping paths (`_drop_active`)
  // ---------------------------------------------------------------------------

  /** The paths `_drop_active` ignores: the logs of `dropLogs`, the records of
      `dropMeta`. */
  function IgnoredPaths(store: string, dropMeta: set<nat>, dropLogs: set<nat>): set<string>
  {
    (set s | s in dropLogs :: LogPath(store, s)) + (set s | s in dropMeta :: MetaPath(store, s))
  }

  /** `_drop_active` (gittrail/core.py:35-42): the snapshot without the record
      files of `dropMeta` and the log files of `dropLogs`, digests untouched. */
  function DropActive(files: map<string, string>, dropMeta: set<nat>, dropLogs: set<nat>,
                      store: string): (r: map<string, string>)
    ensures r.Keys <= files.Keys && forall p :: p in r ==> r[p] == files[p]
    ensures forall s :: s in dropMeta ==> MetaPath(store, s) !in r
    ensures forall s :: s in dropLogs ==> LogPath(store, s) !in r
    ensures forall p :: p in files && p !in r ==>
      (exists s :: s in dropMeta && p == MetaPath(store, s)) ||
      (exists s :: s in dropLogs && p == LogPath(store, s))
  {
    map p | p in files && p !in IgnoredPaths(store, dropMeta, dropLogs) :: files[p]
  }

  /** Filtering twice removes nothing more. */
  lemma DropActiveIdempotent(files: map<string, string>, dropMeta: set<nat>, dropLogs: set<nat>,
                             store: string)
    ensures var once := DropActive(files, dropMeta, dropLogs, store);
      DropActive(once, dropMeta, dropLogs, store) == once
  {
  }

  /** A record path is never a log path. */
  lemma MetaPathIsNotLogPath(store: string, s: int, t: int)
    ensures MetaPath(store, s) != LogPath(store, t)
  {
    var m, l := MetaPath(store, s), LogPath(store, t);
    assert m[|m| - 1] == 'n' && l[|l| - 1] == 'g';
  }

  lemma LogPathInjective(store: string, s: nat, t: nat)
    requires LogPath(store, s) == LogPath(store, t)
    ensures s == t
  {
    var p := store + "/";
    var l := LogPath(store, s);
    assert l == p + (ZeroPad(s, 4) + ".log") == p + (ZeroPad(t, 4) + ".log");
    assert ZeroPad(s, 4) + ".log" == l[|p|..] == ZeroPad(t, 4) + ".log";
    assert ZeroPad(s, 4) == (ZeroPad(s, 4) + ".log")[..|ZeroPad(s, 4) + ".log"| - 4];
    assert ZeroPad(t, 4) == (ZeroPad(t, 4) + ".log")[..|ZeroPad(t, 4) + ".log"| - 4];
    ZeroPadInjective(s, t, 4);
  }

  lemma MetaPathInjective(store: string, s: nat, t: nat)
    requires MetaPath(store, s) == MetaPath(store, t)
    ensures s == t
  {
    var p := store + "/";
    var m := MetaPath(store, s);
    assert m == p + (ZeroPad(s, 4) + ".json") == p + (ZeroPad(t, 4) + ".json");
    assert ZeroPad(s, 4) + ".json" == m[|p|..] == ZeroPad(t, 4) + ".json";
    assert ZeroPad(s, 4) == (ZeroPad(s, 4) + ".json")[..|ZeroPad(s, 4) + ".json"| - 5];
    assert ZeroPad(t, 4) == (ZeroPad(t, 4) + ".json")[..|ZeroPad(t, 4) + ".json"| - 5];
    ZeroPadInjective(s, t, 4);
  }

  /** Distinct sessions have distinct record names, at any width. */
  lemma RecordNameDistinct(s: nat, t: nat)
    requires s != t
    ensures RecordName(s) != RecordName(t)
  {
    ZeroPadValue(s, 4);
    ZeroPadValue(t, 4);
    var a, b := RecordName(s), RecordName(t);
    assert a[..|a| - 5] == ZeroPad(s, 4);
    assert b[..|b| - 5] == ZeroPad(t, 4);
  }

  /** The filter removes a path exactly when it is the record of a session in
      `dropMeta` or the log of a session in `dropLogs`. */
  lemma DropActiveRemovesExactly(files: map<string, string>, dropMeta: set<nat>,
                                 dropLogs: set<nat>, store: string, s: nat)
    ensures MetaPath(store, s) in files ==>
      (MetaPath(store, s) in DropActive(files, dropMeta, dropLogs, store) <==> s !in dropMeta)
    ensures LogPath(store, s) in files ==>
      (LogPath(store, s) in DropActive(files, dropMeta, dropLogs, store) <==> s !in dropLogs)
  {
    forall t | t in dropMeta ensures LogPath(store, s) != MetaPath(store, t) {
      MetaPathIsNotLogPath(store, t, s);
    }
    forall t | t in dropLogs ensures MetaPath(store, s) != LogPath(store, t) {
      MetaPathIsNotLogPath(store, s, t);
    }
    forall t | t in dropMeta && MetaPath(store, s) == MetaPath(store, t) ensures s == t {
      MetaPathInjective(store, s, t);
    }
    forall t | t in dropLogs && LogPath(store, s) == LogPath(store, t) ensures s == t {
      LogPathInjective(store, s, t);
    }
  }

  /** What `__exit__` filters (gittrail/core.py:166-171): the records of all
      active sessions and the logs of the others, so its own log stays. */
  lemma ExitFilterKeepsOwnLog(files: map<string, string>, active: set<nat>, store: string, own: nat)
    requires own in active
    ensures var r := DropActive(files, active, active - {own}, store);
      && MetaPath(store, own) !in r
      && (LogPath(store, own) in files ==> LogPath(store, own) in r)
  {
    DropActiveRemovesExactly(files, active, active - {own}, store, own);
  }

  // ---------------------------------------------------------------------------
  // Record construction (`_commit_trail`)
  // ---------------------------------------------------------------------------

  /** The record `_commit_trail` (gittrail/core.py:57-74) writes. */
  function CommitTrail(commitId: string, start: Timestamp, end: Option<Timestamp>,
                       files: map<string, string>): Record
  {
    Record(commitId, IsoUtc(start), if end.Some? then Some(IsoUtc(end.value)) else None, files)
  }

  /** The commit and the files are stored verbatim, a missing end time as null,
      and each timestamp as 27 characters that read back as the same instant. */
  lemma CommitTrailContents(commitId: string, start: Timestamp, end: Option<Timestamp>,
                            files: map<string, string>)
    requires start.Valid() && (end.Some? ==> end.value.Valid())
    ensures var r := CommitTrail(commitId, start, end, files);
      && r.commitId == commitId && r.files == files
      && |r.startUtc| == 27 && ParseIsoUtc(r.startUtc) == Some(start)
      && (r.endUtc.None? <==> end.None?)
      && (end.Some? ==> |r.endUtc.value| == 27 && ParseIsoUtc(r.endUtc.value) == Some(end.value))
  {
    IsoUtcShape(start);
    IsoUtcRoundTrip(start);
    if end.Some? {
      IsoUtcShape(end.value);
      IsoUtcRoundTrip(end.value);
    }
  }
}
