/** The `GitTrail` context manager (gittrail/core.py:77-179): entering a
    session checks git and the trail directory and opens a record, leaving it
    closes that record. Git, the directory walk and the clock are parameters. */
module Session {
  import opened Errors
  import opened Text
  import opened Timestamps
  import opened Ledger
  import opened Integrity

  /** The trail directory `data/<name>`: its `*.json` record files in the
      order they were created, and what each holds. Several `GitTrail` objects
      over the same data directory share one. */
  class Store {
    const name: string
    var names: seq<string>
    var records: map<string, Record>

    ghost predicate Valid()
      reads this
    {
      && (forall i, j :: 0 <= i < j < |names| ==> names[i] != names[j])
      && (forall f :: f in names <==> f in records)
    }

    constructor (name: string)
      ensures this.name == name && names == [] && records == map[] && Valid()
    {
      this.name := name;
      names := [];
      records := map[];
    }

    /** `_meta_write` (gittrail/core.py:51-54): creates or overwrites one record file. */
    method Write(file: string, rec: Record)
      requires Valid()
      modifies this
      ensures Valid()
      ensures records == old(records)[file := rec]
      ensures names == if file in old(names) then old(names) else old(names) + [file]
    {
      records := records[file := rec];
      if file !in names {
        names := names + [file];
      }
    }
  }

  /** A configured session: the fields `__enter__` and `__exit__` set, over
      the shared trail directory. */
  class GitTrail {
    const trail: Store
    var gitHistory: Option<seq<string>>
    var sessionNumber: Option<nat>
    var sessionFile: Option<string>      // the record file of this session, inside the trail
    var logFile: Option<string>          // the log file of this session, inside the trail
    var sessionStart: Option<Timestamp>
    var sessionEnd: Option<Timestamp>
    var files: Option<map<string, string>>

    /** `__init__` (gittrail/core.py:80-115): nothing is known yet. */
    constructor (trail: Store)
      ensures this.trail == trail
      ensures gitHistory == None && sessionNumber == None && sessionFile == None
      ensures logFile == None && sessionStart == None && sessionEnd == None && files == None
    {
      this.trail := trail;
      gitHistory := None;
      sessionNumber := None;
      sessionFile := None;
      logFile := None;
      sessionStart := None;
      sessionEnd := None;
      files := None;
    }

    /** `__enter__` (gittrail/core.py:117-160) given the output of `git status`
        and `git log` (newest commit first), the hashed contents of the data
        directory and the current time. It returns the paths warned about as
        missing and the error raised, if any; only a session that passes every
        check writes its record, open (no end time), as the next session. */
    method Enter(status: string, history: seq<string>, snapshot: map<string, string>, now: Timestamp)
      returns (warned: set<string>, err: Option<Error>)
      requires trail.Valid() && |history| >= 1
      modifies this, trail
      ensures trail.Valid() && sessionEnd == None
      ensures !Contains(status, "working tree clean") ==>
        && err == Some(UncleanGitStatus(status)) && warned == {}
        && gitHistory == old(gitHistory) && sessionNumber == None && sessionFile == None
        && logFile == None && files == None && sessionStart == None
        && unchanged(trail)
      ensures Contains(status, "working tree clean") ==> gitHistory == Some(history)
      ensures Contains(status, "working tree clean") && Numbering(SortNames(old(trail.names))).Err? ==>
        && err == Some(Numbering(SortNames(old(trail.names))).error) && warned == {}
        && sessionNumber == None && sessionFile == None && logFile == None
        && files == None && sessionStart == None
        && unchanged(trail)
      ensures Contains(status, "working tree clean") && Numbering(SortNames(old(trail.names))).Ok? ==>
        var n := Numbering(SortNames(old(trail.names))).value;
        var active := ActiveSessions(old(trail.names), old(trail.records));
        var kept := DropActive(snapshot, active, active, trail.name);
        && HasRecords(old(trail.records), n)
        && var v := Verify(old(trail.records), trail.name, n, history, kept);
        && sessionNumber == Some(n) && sessionFile == Some(RecordName(n))
        && logFile == Some(LogName(n)) && files == Some(kept)
        && warned == v.missing && err == v.error
        && (err.Some? ==> sessionStart == None && unchanged(trail))
        && (err.None? ==>
              && sessionStart == Some(now)
              && trail.records == old(trail.records)[RecordName(n) := CommitTrail(history[0], now, None, kept)]
              && trail.names == old(trail.names) + [RecordName(n)])
    {
      sessionNumber := None;
      sessionFile := None;
      sessionStart := None;
      sessionEnd := None;
      files := None;
      logFile := None;
      warned := {};

      if !Contains(status, "working tree clean") {
        return warned, Some(UncleanGitStatus(status));
      }
      gitHistory := Some(history);

      var num := GetSessionNumber(trail.names);
      if num.Err? {
        return warned, Some(num.error);
      }
      var n := num.value;
      sessionNumber := Some(n);
      sessionFile := Some(RecordName(n));
      logFile := Some(LogName(n));
      ActiveSessionsOfCompleteLedger(trail.names, trail.records, n);
      var active := ActiveSessions(trail.names, trail.records);
      var kept := DropActive(snapshot, active, active, trail.name);
      files := Some(kept);

      var v := CheckIntegrity(trail.records, trail.name, n, history, kept);
      warned := v.missing;
      if v.error.Some? {
        return warned, v.error;
      }
      sessionStart := Some(now);
      FreshRecordName(trail.names, n);
      trail.Write(RecordName(n), CommitTrail(history[0], now, None, kept));
      return warned, None;
    }

    /** `__exit__` (gittrail/core.py:162-179) given the hashed contents of the
        data directory and the current time: no check, the record of this
        session is rewritten closed. Its files keep this session's own log but
        drop the logs of the other open sessions and the records of all open
        sessions, this one included. */
    method Exit(snapshot: map<string, string>, now: Timestamp)
      requires trail.Valid()
      requires sessionNumber.Some? && sessionFile.Some? && sessionStart.Some?
      requires gitHistory.Some? && |gitHistory.value| >= 1
      modifies this, trail
      ensures trail.Valid()
      ensures gitHistory == old(gitHistory) && sessionNumber == old(sessionNumber)
      ensures sessionFile == old(sessionFile) && logFile == old(logFile)
      ensures sessionStart == old(sessionStart)
      ensures sessionEnd == Some(now)
      ensures var active := ActiveSessions(old(trail.names), old(trail.records));
        files == Some(DropActive(snapshot, active, active - {sessionNumber.value}, trail.name))
      ensures trail.records == old(trail.records)[sessionFile.value :=
        CommitTrail(gitHistory.value[0], sessionStart.value, Some(now), files.value)]
      ensures trail.names ==
        if sessionFile.value in old(trail.names) then old(trail.names)
        else old(trail.names) + [sessionFile.value]
    {
      sessionEnd := Some(now);
      var active := ActiveSessions(trail.names, trail.records);
      var kept := DropActive(snapshot, active, active - {sessionNumber.value}, trail.name);
      files := Some(kept);
      trail.Write(sessionFile.value, CommitTrail(gitHistory.value[0], sessionStart.value, Some(now), kept));
    }
  }

  /** The record a session opens never overwrites an earlier one. */
  lemma FreshRecordName(names: seq<string>, n: nat)
    requires Numbering(SortNames(names)) == Ok(n)
    ensures RecordName(n) !in names
  {
    var sorted := SortNames(names);
    assert sorted == RecordNames(n);
    forall i | 0 <= i < n ensures sorted[i] != RecordName(n) {
      RecordNameDistinct(i, n);
    }
  }

  /** Opening session n on a ledger numbered n: the ledger then numbers to
      n + 1, and the open sessions are the earlier ones plus n. */
  lemma EnterOpensSession(names: seq<string>, records: map<string, Record>, n: nat, rec: Record)
    requires Listed(names, records)
    requires Numbering(SortNames(names)) == Ok(n) && n < 10000
    requires rec.endUtc.None?
    ensures Numbering(SortNames(names + [RecordName(n)])) == Ok(n + 1)
    ensures forall i: nat ::
      (i in ActiveSessions(names + [RecordName(n)], records[RecordName(n) := rec])
       <==> i == n || i in ActiveSessions(names, records))
  {
    NextSessionNumber(names, n);
    var names', records' := names + [RecordName(n)], records[RecordName(n) := rec];
    ActiveSessionsOfCompleteLedger(names, records, n);
    ActiveSessionsOfCompleteLedger(names', records', n + 1);
    forall i: nat | i < n ensures RecordName(i) != RecordName(n) {
      RecordNameDistinct(i, n);
    }
  }

  /** Closing session n of a ledger numbered m > n: the numbering stays, and
      n leaves the open sessions while every other session keeps its state. */
  lemma ExitClosesSession(names: seq<string>, records: map<string, Record>, m: nat, n: nat, rec: Record)
    requires Listed(names, records)
    requires Numbering(SortNames(names)) == Ok(m) && n < m
    requires rec.endUtc.Some?
    ensures Listed(names, records[RecordName(n) := rec])
    ensures forall i: nat ::
      (i in ActiveSessions(names, records[RecordName(n) := rec])
       <==> i != n && i in ActiveSessions(names, records))
  {
    var records' := records[RecordName(n) := rec];
    ActiveSessionsOfCompleteLedger(names, records, m);
    ActiveSessionsOfCompleteLedger(names, records', m);
    forall i: nat | i < m && i != n ensures RecordName(i) != RecordName(n) {
      RecordNameDistinct(i, n);
    }
  }
}
