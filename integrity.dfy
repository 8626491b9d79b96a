/** `GitTrail._check_integrity` (gittrail/core.py:181-219): every earlier
    session must name a commit of the git history, and the current snapshot is
    compared, by path only, with the files of the previous session. */
module Integrity {
  import opened Errors
  import opened Ledger

  /** The record of every session below n is in the trail directory. */
  predicate HasRecords(records: map<string, Record>, n: nat)
  {
    forall s: nat :: s < n ==> RecordName(s) in records
  }

  /** The first session from s on whose commit is missing from the history. */
  function FirstUnknown(records: map<string, Record>, history: seq<string>, n: nat, s: nat)
    : (r: Option<nat>)
    requires HasRecords(records, n) && s <= n
    ensures r.Some? ==> s <= r.value < n && records[RecordName(r.value)].commitId !in history
    ensures r.Some? ==> forall t: nat :: s <= t < r.value ==> records[RecordName(t)].commitId in history
    ensures r.None? ==> forall t: nat :: s <= t < n ==> records[RecordName(t)].commitId in history
    decreases n - s
  {
    if s == n then None
    else if records[RecordName(s)].commitId !in history then Some(s)
    else FirstUnknown(records, history, n, s + 1)
  }

  /** `files_before` after the loop: the files of session n-1, or nothing. */
  function FilesBefore(records: map<string, Record>, n: nat): map<string, string>
    requires HasRecords(records, n)
  {
    if n == 0 then map[] else records[RecordName(n - 1)].files
  }

  /** The outcome of the check: the paths reported as missing (a warning) and
      the error raised, if any. */
  datatype Verdict = Verdict(missing: set<string>, error: Option<Error>)

  /** What the check decides for session n of the trail directory `store`. */
  function Verify(records: map<string, Record>, store: string, n: nat, history: seq<string>,
                  files: map<string, string>): Verdict
    requires HasRecords(records, n)
  {
    match FirstUnknown(records, history, n, 0)
    case Some(s) => Verdict({}, Some(UnknownCommit(s, records[RecordName(s)].commitId)))
    case None =>
      var before := FilesBefore(records, n);
      var extra := files.Keys - before.Keys - {MetaPath(store, n - 1)};
      Verdict(before.Keys - files.Keys, if extra == {} then None else Some(IntegrityError(extra)))
  }

  /** `_check_integrity` for session n, whose bookkeeping-filtered snapshot is
      `files`, against the records of the trail directory `store`. */
  method CheckIntegrity(records: map<string, Record>, store: string, n: nat,
                        history: seq<string>, files: map<string, string>) returns (v: Verdict)
    requires HasRecords(records, n)
    ensures v == Verify(records, store, n, history, files)
  {
    var filesBefore: map<string, string> := map[];
    var s := 0;
    while s < n
      invariant s <= n
      invariant forall t: nat :: t < s ==> records[RecordName(t)].commitId in history
      invariant filesBefore == FilesBefore(records, s)
    {
      var meta := records[RecordName(s)];
      if meta.commitId !in history {
        return Verdict({}, Some(UnknownCommit(s, meta.commitId)));
      }
      filesBefore := meta.files;
      s := s + 1;
    }
    var missing := filesBefore.Keys - files.Keys;
    var extra := files.Keys - filesBefore.Keys - {MetaPath(store, n - 1)};
    if extra != {} {
      return Verdict(missing, Some(IntegrityError(extra)));
    }
    return Verdict(missing, None);
  }

  /** The check fails with UnknownCommit naming session s exactly when s is the
      first session below n whose commit the history lacks. */
  lemma UnknownCommitIsFirst(records: map<string, Record>, store: string, n: nat,
                             history: seq<string>, files: map<string, string>, s: nat)
    requires HasRecords(records, n)
    ensures var e := Verify(records, store, n, history, files).error;
      (e.Some? && e.value.UnknownCommit? && e.value.session == s)
      <==> (s < n && records[RecordName(s)].commitId !in history &&
            forall t: nat :: t < s ==> records[RecordName(t)].commitId in history)
    ensures var e := Verify(records, store, n, history, files).error;
      e.Some? && e.value.UnknownCommit? ==>
        e.value.session < n && e.value.commitId == records[RecordName(e.value.session)].commitId
  {
  }

  /** With every commit known, the check fails exactly when some current path
      is neither a file of session n-1 nor that session's record file, and it
      names exactly those paths; paths that disappeared are only reported. */
  lemma IntegrityClassification(records: map<string, Record>, store: string, n: nat,
                                history: seq<string>, files: map<string, string>)
    requires HasRecords(records, n)
    requires forall s: nat :: s < n ==> records[RecordName(s)].commitId in history
    ensures var v := Verify(records, store, n, history, files);
      var before := FilesBefore(records, n);
      && v.missing == before.Keys - files.Keys
      && (v.error.Some? <==> exists p :: p in files && p !in before && p != MetaPath(store, n - 1))
      && (v.error.Some? ==>
            && v.error.value.IntegrityError?
            && (forall p :: p in v.error.value.paths <==>
                  p in files && p !in before && p != MetaPath(store, n - 1)))
  {
    var before := FilesBefore(records, n);
    var extra := files.Keys - before.Keys - {MetaPath(store, n - 1)};
    assert FirstUnknown(records, history, n, 0).None?;
    assert Verify(records, store, n, history, files)
      == Verdict(before.Keys - files.Keys, if extra == {} then None else Some(IntegrityError(extra)));
    if extra != {} {
      var p :| p in extra;
      assert p in files && p !in before && p != MetaPath(store, n - 1);
    } else {
      forall p | p in files && p !in before
        ensures p == MetaPath(store, n - 1)
      {
        assert p !in extra;
      }
    }
  }

  /** Digests are never compared: two snapshots with the same paths get the
      same verdict, whatever their contents. */
  lemma DigestsNotCompared(records: map<string, Record>, store: string, n: nat,
                           history: seq<string>, files1: map<string, string>,
                           files2: map<string, string>)
    requires HasRecords(records, n)
    requires files1.Keys == files2.Keys
    ensures Verify(records, store, n, history, files1) == Verify(records, store, n, history, files2)
  {
  }

  lemma {:induction false} FirstUnknownSameCommits(records1: map<string, Record>,
                                                   records2: map<string, Record>,
                                                   history: seq<string>, n: nat, s: nat)
    requires HasRecords(records1, n) && HasRecords(records2, n) && s <= n
    requires forall t: nat :: t < n ==> records1[RecordName(t)].commitId == records2[RecordName(t)].commitId
    ensures FirstUnknown(records1, history, n, s) == FirstUnknown(records2, history, n, s)
    decreases n - s
  {
    if s < n {
      FirstUnknownSameCommits(records1, records2, history, n, s + 1);
    }
  }

  /** Only the last session's files matter: sessions before n-1 contribute
      their commit ids and nothing else (`files_before` is overwritten on every
      iteration, gittrail/core.py:195). */
  lemma OnlyPreviousSessionCompared(records1: map<string, Record>, records2: map<string, Record>,
                                    store: string, n: nat, history: seq<string>,
                                    files: map<string, string>)
    requires HasRecords(records1, n) && HasRecords(records2, n)
    requires forall t: nat :: t < n ==> records1[RecordName(t)].commitId == records2[RecordName(t)].commitId
    requires n > 0 ==> records1[RecordName(n - 1)].files == records2[RecordName(n - 1)].files
    ensures Verify(records1, store, n, history, files) == Verify(records2, store, n, history, files)
  {
    FirstUnknownSameCommits(records1, records2, history, n, 0);
  }

  /** A directory that still holds exactly the previous session's paths plus
      that session's own record file (which it never lists, having dropped it
      on leaving), with every commit known, passes without warning. */
  lemma UnchangedDirectoryPasses(records: map<string, Record>, store: string, n: nat,
                                 history: seq<string>, files: map<string, string>)
    requires HasRecords(records, n)
    requires forall s: nat :: s < n ==> records[RecordName(s)].commitId in history
    requires files.Keys == FilesBefore(records, n).Keys + {MetaPath(store, n - 1)}
    ensures Verify(records, store, n, history, files) == Verdict({}, None)
  {
  }
}
