/** Sessions of gittrail/test_core.py replayed on the model: two `GitTrail`
    objects over one trail directory named "gittrail", entered and left in
    sequence, with the data directory holding exactly the trail's record and
    log files. */
module Scenarios {
  import opened Errors
  import opened Text
  import opened Timestamps
  import opened Ledger
  import opened Integrity
  import opened Session

  const Trail := "gittrail"

  /** The data directory once sessions 0 and 1 both have a record and a log. */
  function TwoSessionFiles(digest: string): map<string, string>
  {
    map[MetaPath(Trail, 0) := digest, LogPath(Trail, 0) := digest,
        MetaPath(Trail, 1) := digest, LogPath(Trail, 1) := digest]
  }

  lemma LogPathsDistinct()
    ensures LogPath(Trail, 0) != LogPath(Trail, 1)
  {
    assert Digits(0) == "0" && Digits(1) == "1";
    var a, b := LogPath(Trail, 0), LogPath(Trail, 1);
    assert a[|Trail| + 4] == '0' && b[|Trail| + 4] == '1';
  }

  /** The first session in an empty trail directory is number 0 and passes. */
  lemma FirstEntry(history: seq<string>)
    ensures Numbering(SortNames([])) == Ok(0)
    ensures ActiveSessions([], map[]) == {}
    ensures DropActive(map[], {}, {}, Trail) == map[]
    ensures Verify(map[], Trail, 0, history, map[]) == Verdict({}, None)
  {
  }

  /** A second session entering while session 0 is open is number 1, and
      session 0 is the one open session. */
  lemma SecondLedger(rec0: Record)
    requires rec0.endUtc.None?
    ensures Numbering(SortNames([RecordName(0)])) == Ok(1)
    ensures ActiveSessions([RecordName(0)], map[RecordName(0) := rec0]) == {0}
  {
    NextSessionNumber([], 0);
    assert [] + [RecordName(0)] == [RecordName(0)];
    var records := map[RecordName(0) := rec0];
    ActiveSessionsOfCompleteLedger([RecordName(0)], records, 1);
    var active := ActiveSessions([RecordName(0)], records);
    assert 0 in active;
    assert forall i :: i in active ==> i == 0;
  }

  /** Session 0's record and log are bookkeeping: the second session sees no
      files. */
  lemma SecondFiles(digest: string)
    ensures DropActive(map[MetaPath(Trail, 0) := digest, LogPath(Trail, 0) := digest],
                       {0}, {0}, Trail) == map[]
  {
    var snap := map[MetaPath(Trail, 0) := digest, LogPath(Trail, 0) := digest];
    DropActiveRemovesExactly(snap, {0}, {0}, Trail, 0);
  }

  /** The second session passes the integrity check. */
  lemma SecondCheck(history: seq<string>, rec0: Record)
    requires rec0.commitId in history && rec0.files == map[]
    ensures Verify(map[RecordName(0) := rec0], Trail, 1, history, map[]) == Verdict({}, None)
  {
    assert FirstUnknown(map[RecordName(0) := rec0], history, 1, 0) == None;
  }

  /** The ledger after two entries numbers to 2. */
  lemma TwoSessions()
    ensures Numbering(SortNames([RecordName(0), RecordName(1)])) == Ok(2)
  {
    NextSessionNumber([], 0);
    NextSessionNumber([RecordName(0)], 1);
    assert [RecordName(0)] + [RecordName(1)] == [RecordName(0), RecordName(1)];
  }

  /** While sessions 0 and 1 are both open, both are active. */
  lemma BothActive(rec0: Record, rec1: Record)
    requires rec0.endUtc.None? && rec1.endUtc.None?
    ensures ActiveSessions([RecordName(0), RecordName(1)],
                           map[RecordName(0) := rec0, RecordName(1) := rec1]) == {0, 1}
  {
    TwoSessions();
    RecordNameDistinct(0, 1);
    var names, records := [RecordName(0), RecordName(1)], map[RecordName(0) := rec0, RecordName(1) := rec1];
    ActiveSessionsOfCompleteLedger(names, records, 2);
    var active := ActiveSessions(names, records);
    assert 0 in active && 1 in active;
    assert forall i :: i in active ==> i == 0 || i == 1;
  }

  /** Once session 0 is closed, only session 1 is active. */
  lemma SecondActive(closed0: Record, rec1: Record)
    requires closed0.endUtc.Some? && rec1.endUtc.None?
    ensures ActiveSessions([RecordName(0), RecordName(1)],
                           map[RecordName(0) := closed0, RecordName(1) := rec1]) == {1}
  {
    TwoSessions();
    RecordNameDistinct(0, 1);
    var names, records := [RecordName(0), RecordName(1)], map[RecordName(0) := closed0, RecordName(1) := rec1];
    ActiveSessionsOfCompleteLedger(names, records, 2);
    var active := ActiveSessions(names, records);
    assert 1 in active && 0 !in active;
    assert forall i :: i in active ==> i == 1;
  }

  /** Leaving session 0 while 1 is open keeps only session 0's log. */
  lemma FirstExitFiles(digest: string)
    ensures DropActive(TwoSessionFiles(digest), {0, 1}, {0, 1} - {0}, Trail)
      == map[LogPath(Trail, 0) := digest]
  {
    var files := TwoSessionFiles(digest);
    DropActiveRemovesExactly(files, {0, 1}, {0, 1} - {0}, Trail, 0);
    DropActiveRemovesExactly(files, {0, 1}, {0, 1} - {0}, Trail, 1);
  }

  /** Leaving session 1 after 0 closed keeps session 0's record and log and
      session 1's log. */
  lemma SecondExitFiles(digest: string)
    ensures |DropActive(TwoSessionFiles(digest), {1}, {1} - {1}, Trail)| == 3
  {
    var files := TwoSessionFiles(digest);
    DropActiveRemovesExactly(files, {1}, {1} - {1}, Trail, 0);
    DropActiveRemovesExactly(files, {1}, {1} - {1}, Trail, 1);
    MetaPathIsNotLogPath(Trail, 0, 0);
    MetaPathIsNotLogPath(Trail, 0, 1);
    LogPathsDistinct();
    var kept := DropActive(files, {1}, {1} - {1}, Trail);
    assert kept.Keys == {MetaPath(Trail, 0), LogPath(Trail, 0), LogPath(Trail, 1)};
  }

  /** A enters an empty trail directory as session 0, with no files. */
  method EnterFirst(a: GitTrail, status: string, history: seq<string>, t0: Timestamp)
    returns (err: Option<Error>, enterA: nat)
    requires a.trail.name == Trail && a.trail.names == [] && a.trail.records == map[]
    requires a.trail.Valid() && Contains(status, "working tree clean") && |history| >= 1
    modifies a, a.trail
    ensures err == None && enterA == 0 && a.files == Some(map[]) && a.trail.Valid()
    ensures a.trail.names == [RecordName(0)]
    ensures a.trail.records == map[RecordName(0) := CommitTrail(history[0], t0, None, map[])]
    ensures a.gitHistory == Some(history) && a.sessionNumber == Some(0)
    ensures a.sessionFile == Some(RecordName(0)) && a.sessionStart == Some(t0)
  {
    FirstEntry(history);
    var warned;
    warned, err := a.Enter(status, history, map[], t0);
    enterA := |a.files.value|;
  }

  /** B enters while A's session 0 is open, with A's record and log in the
      data directory: it is session 1 and sees no files. */
  method EnterSecond(b: GitTrail, status: string, history: seq<string>, digest: string,
                     t0: Timestamp, t1: Timestamp)
    returns (err: Option<Error>, enterB: nat)
    requires b.trail.name == Trail && b.trail.Valid() && |history| >= 1
    requires b.trail.names == [RecordName(0)]
    requires b.trail.records == map[RecordName(0) := CommitTrail(history[0], t0, None, map[])]
    requires Contains(status, "working tree clean") && |history| >= 1
    modifies b, b.trail
    ensures err == None && enterB == 0 && b.trail.Valid()
    ensures b.trail.names == [RecordName(0), RecordName(1)]
    ensures b.trail.records == map[RecordName(0) := CommitTrail(history[0], t0, None, map[]),
                                   RecordName(1) := CommitTrail(history[0], t1, None, map[])]
    ensures b.gitHistory == Some(history) && b.sessionNumber == Some(1)
    ensures b.sessionFile == Some(RecordName(1)) && b.sessionStart == Some(t1)
  {
    var rec0 := CommitTrail(history[0], t0, None, map[]);
    SecondLedger(rec0);
    SecondFiles(digest);
    SecondCheck(history, rec0);
    var snap := map[MetaPath(Trail, 0) := digest, LogPath(Trail, 0) := digest];
    assert Numbering(SortNames(b.trail.names)) == Ok(1);
    assert ActiveSessions(b.trail.names, b.trail.records) == {0};
    var warned;
    warned, err := b.Enter(status, history, snap, t1);
    assert b.files == Some(map[]);
    assert err == None;
    assert b.trail.records == old(b.trail.records)[RecordName(1) := CommitTrail(history[0], t1, None, map[])];
    enterB := |b.files.value|;
    assert b.trail.names == [RecordName(0)] + [RecordName(1)];
  }

  lemma CloseFirstRecord(rec0: Record, rec1: Record, closed0: Record)
    ensures map[RecordName(0) := rec0, RecordName(1) := rec1][RecordName(0) := closed0]
      == map[RecordName(0) := closed0, RecordName(1) := rec1]
  {
    RecordNameDistinct(0, 1);
  }

  /** A leaves while B is still open, with the records and logs of sessions
      0 and 1 in the data directory: A keeps only its own log. */
  method ExitFirst(a: GitTrail, history: seq<string>, digest: string,
                   t0: Timestamp, t1: Timestamp, t2: Timestamp)
    returns (exitA: nat)
    requires a.trail.name == Trail && a.trail.Valid() && |history| >= 1
    requires a.trail.names == [RecordName(0), RecordName(1)]
    requires a.trail.records == map[RecordName(0) := CommitTrail(history[0], t0, None, map[]),
                                    RecordName(1) := CommitTrail(history[0], t1, None, map[])]
    requires a.gitHistory == Some(history) && a.sessionNumber == Some(0)
    requires a.sessionFile == Some(RecordName(0)) && a.sessionStart == Some(t0)
    modifies a, a.trail
    ensures a.trail.Valid() && a.trail.names == [RecordName(0), RecordName(1)]
    ensures a.trail.records ==
      map[RecordName(0) := CommitTrail(history[0], t0, Some(t2), map[LogPath(Trail, 0) := digest]),
          RecordName(1) := CommitTrail(history[0], t1, None, map[])]
    ensures exitA == 1
  {
    var rec0 := CommitTrail(history[0], t0, None, map[]);
    var rec1 := CommitTrail(history[0], t1, None, map[]);
    var closed0 := CommitTrail(history[0], t0, Some(t2), map[LogPath(Trail, 0) := digest]);
    BothActive(rec0, rec1);
    FirstExitFiles(digest);
    CloseFirstRecord(rec0, rec1, closed0);
    a.Exit(TwoSessionFiles(digest), t2);
    assert a.files == Some(map[LogPath(Trail, 0) := digest]);
    exitA := |a.files.value|;
    assert a.trail.records == old(a.trail.records)[RecordName(0) := closed0];
  }

  /** B leaves after A closed: it keeps A's record and log and its own log. */
  method ExitSecond(b: GitTrail, history: seq<string>, digest: string,
                    t0: Timestamp, t1: Timestamp, t2: Timestamp, t3: Timestamp)
    returns (exitB: nat)
    requires b.trail.name == Trail && b.trail.Valid() && |history| >= 1
    requires b.trail.names == [RecordName(0), RecordName(1)]
    requires b.trail.records ==
      map[RecordName(0) := CommitTrail(history[0], t0, Some(t2), map[LogPath(Trail, 0) := digest]),
          RecordName(1) := CommitTrail(history[0], t1, None, map[])]
    requires b.gitHistory == Some(history) && b.sessionNumber == Some(1)
    requires b.sessionFile == Some(RecordName(1)) && b.sessionStart == Some(t1)
    modifies b, b.trail
    ensures exitB == 3
  {
    var rec1 := CommitTrail(history[0], t1, None, map[]);
    var closed0 := CommitTrail(history[0], t0, Some(t2), map[LogPath(Trail, 0) := digest]);
    SecondActive(closed0, rec1);
    SecondExitFiles(digest);
    b.Exit(TwoSessionFiles(digest), t3);
    exitB := |b.files.value|;
  }

  /** gittrail/test_core.py:183-202: A enters, B enters, A leaves, B leaves.
      Both entries succeed; A starts with no files and still has none after B
      entered; on leaving A keeps only its own log, and B keeps A's record and
      log and its own log. */
  method InterleavedSessions(status: string, history: seq<string>, digest: string,
                             t0: Timestamp, t1: Timestamp, t2: Timestamp, t3: Timestamp)
    returns (errors: seq<Option<Error>>, enterA: nat, afterEnterB: nat, exitA: nat, exitB: nat)
    requires Contains(status, "working tree clean") && |history| >= 1
    ensures errors == [None, None]
    ensures enterA == 0 && afterEnterB == 0 && exitA == 1 && exitB == 3
  {
    var store := new Store(Trail);
    var a := new GitTrail(store);
    var b := new GitTrail(store);
    var errA, errB, enterB;
    errA, enterA := EnterFirst(a, status, history, t0);
    errB, enterB := EnterSecond(b, status, history, digest, t0, t1);
    afterEnterB := |a.files.value|;
    errors := [errA, errB];
    exitA := ExitFirst(a, history, digest, t0, t1, t2);
    exitB := ExitSecond(b, history, digest, t0, t1, t2, t3);
  }

  /** gittrail/test_core.py:139-142: a lone session leaving keeps its own log
      and drops its own record. */
  lemma LoneExitFiles(digest: string)
    ensures DropActive(map[MetaPath(Trail, 0) := digest, LogPath(Trail, 0) := digest],
                       {0}, {0} - {0}, Trail) == map[LogPath(Trail, 0) := digest]
  {
    var snap := map[MetaPath(Trail, 0) := digest, LogPath(Trail, 0) := digest];
    DropActiveRemovesExactly(snap, {0}, {0} - {0}, Trail, 0);
  }

  /** gittrail/test_core.py:256-275: session 1's record names a commit that is
      not in the history, so the next session fails naming session 1. */
  lemma ForeignCommitFails(history: seq<string>, rec0: Record, rec1: Record,
                           files: map<string, string>)
    requires rec0.commitId in history && rec1.commitId !in history
    ensures Verify(map[RecordName(0) := rec0, RecordName(1) := rec1], Trail, 2, history, files)
      == Verdict({}, Some(UnknownCommit(1, rec1.commitId)))
  {
    RecordNameDistinct(0, 1);
    var records := map[RecordName(0) := rec0, RecordName(1) := rec1];
    assert FirstUnknown(records, history, 2, 1) == Some(1);
    assert FirstUnknown(records, history, 2, 0) == Some(1);
  }

  /** gittrail/test_core.py:293-309: session 0 recorded its log; with the log
      deleted the next session is warned about exactly that path and passes. */
  lemma DeletedLogWarns(history: seq<string>, rec0: Record, digest: string)
    requires rec0.commitId in history && rec0.files == map[LogPath(Trail, 0) := digest]
    ensures Verify(map[RecordName(0) := rec0], Trail, 1, history, map[MetaPath(Trail, 0) := digest])
      == Verdict({LogPath(Trail, 0)}, None)
  {
    MetaPathIsNotLogPath(Trail, 0, 0);
    assert FirstUnknown(map[RecordName(0) := rec0], history, 1, 0) == None;
  }

  /** gittrail/test_core.py:391-404: a file added between sessions is reported
      as the one illegal path. */
  lemma AddedFileFails(history: seq<string>, rec0: Record, digest: string, path: string)
    requires rec0.commitId in history && rec0.files == map[LogPath(Trail, 0) := digest]
    requires path != MetaPath(Trail, 0) && path != LogPath(Trail, 0)
    ensures Verify(map[RecordName(0) := rec0], Trail, 1, history,
                   map[MetaPath(Trail, 0) := digest, LogPath(Trail, 0) := digest, path := digest])
      == Verdict({}, Some(IntegrityError({path})))
  {
    MetaPathIsNotLogPath(Trail, 0, 0);
    assert FirstUnknown(map[RecordName(0) := rec0], history, 1, 0) == None;
    var files := map[MetaPath(Trail, 0) := digest, LogPath(Trail, 0) := digest, path := digest];
    assert files.Keys == {MetaPath(Trail, 0), LogPath(Trail, 0), path};
    assert rec0.files.Keys == {LogPath(Trail, 0)};
    assert files.Keys - rec0.files.Keys - {MetaPath(Trail, 0)} == {path};
  }
}
