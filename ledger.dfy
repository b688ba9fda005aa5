/** The session ledger: the AccessLog and LabSession tables as values, the occupancy
    query of the scanner, the consistency conditions the tables keep, and the two
    writes a scan makes (open a session on entry, close it on exit). */
module SessionLedger {
  import opened Common
  import opened Models

  datatype Ledger = Ledger(logs: seq<AccessLog>, sessions: seq<LabSession>)

  predicate IsOpenFor(s: LabSession, u: Identity) {
    s.user == u && s.exitTime.None?
  }

  /** LabSession.objects.filter(<u's foreign key>=u, exit_time__isnull=True).first():
      the open session of u with the smallest primary key, here the smallest position. */
  function FirstOpen(sessions: seq<LabSession>, u: Identity): (r: Option<nat>)
    ensures r.Some? ==> r.value < |sessions| && IsOpenFor(sessions[r.value], u)
    ensures r.Some? ==> forall j :: 0 <= j < r.value ==> !IsOpenFor(sessions[j], u)
    ensures r.None? <==> forall j :: 0 <= j < |sessions| ==> !IsOpenFor(sessions[j], u)
  {
    if sessions == [] then None
    else if IsOpenFor(sessions[0], u) then Some(0)
    else match FirstOpen(sessions[1..], u)
      case None => None
      case Some(k) => Some(k + 1)
  }

  /** _is_inside_lab: u has an open session. */
  predicate IsInside(sessions: seq<LabSession>, u: Identity) {
    FirstOpen(sessions, u).Some?
  }

  /** The consistency guarantee of the ledger: no person has two open sessions. */
  ghost predicate AtMostOneOpen(sessions: seq<LabSession>) {
    forall i, j ::
      (0 <= i < |sessions| && 0 <= j < |sessions| && sessions[i].exitTime.None? && sessions[j].exitTime.None?
       && sessions[i].user == sessions[j].user) ==> i == j
  }

  /** A session points at an entry log of its own person, carries an exit log exactly when it
      is closed, and its duration is what LabSession.save derives. */
  ghost predicate SessionWellFormed(logs: seq<AccessLog>, s: LabSession) {
    && s.entryLog < |logs|
    && logs[s.entryLog].logType == Entry && logs[s.entryLog].user == s.user
    && (s.exitTime.Some? <==> s.exitLog.Some?)
    && (s.exitLog.Some? ==>
          s.exitLog.value < |logs| && logs[s.exitLog.value].logType == Exit && logs[s.exitLog.value].user == s.user)
    && s.duration == (if s.exitTime.Some? then Some(s.exitTime.value - s.entryTime) else None)
  }

  /** Every log is paired: an entry log opened a session, an exit log closed one. */
  ghost predicate LogsPaired(L: Ledger) {
    && (forall k :: 0 <= k < |L.logs| && L.logs[k].logType == Entry ==>
          exists i :: 0 <= i < |L.sessions| && L.sessions[i].entryLog == k)
    && (forall k :: 0 <= k < |L.logs| && L.logs[k].logType == Exit ==>
          exists i :: 0 <= i < |L.sessions| && L.sessions[i].exitLog == Some(k))
  }

  /** The ledger invariant: well-formed sessions, the two one-to-one links (entry_log, exit_log),
      every log paired, and at most one open session per person. */
  ghost predicate LedgerValid(L: Ledger) {
    && (forall i :: 0 <= i < |L.sessions| ==> SessionWellFormed(L.logs, L.sessions[i]))
    && (forall i, j :: 0 <= i < j < |L.sessions| ==> L.sessions[i].entryLog != L.sessions[j].entryLog)
    && (forall i, j :: 0 <= i < j < |L.sessions| && L.sessions[i].exitLog.Some? ==>
          L.sessions[i].exitLog != L.sessions[j].exitLog)
    && LogsPaired(L)
    && AtMostOneOpen(L.sessions)
  }

  /** Under the invariant, the open session FirstOpen finds is the only one. */
  lemma FirstOpenIsOnlyOpen(sessions: seq<LabSession>, u: Identity, j: nat)
    requires AtMostOneOpen(sessions)
    requires j < |sessions| && IsOpenFor(sessions[j], u)
    ensures FirstOpen(sessions, u) == Some(j)
  {
  }

  // ---------------------------------------------------------------------------
  // The two writes of a scan
  // ---------------------------------------------------------------------------

  /** The entry log and the open session _create_log_entry and _create_lab_session write. */
  function EntryStep(L: Ledger, u: Identity, supervisor: Operator, now: Timestamp, token: Token): Ledger {
    var log := AccessLog(u, Entry, now, supervisor, Some(token));
    var session := SessionOnSave(LabSession(u, now, None, None, |L.logs|, None));
    Ledger(L.logs + [log], L.sessions + [session])
  }

  /** The exit log _create_log_entry writes and the session k that _update_lab_session closes. */
  function ExitStep(L: Ledger, u: Identity, supervisor: Operator, now: Timestamp, k: nat): Ledger
    requires k < |L.sessions|
  {
    var log := AccessLog(u, Exit, now, supervisor, None);
    var closed := SessionOnSave(L.sessions[k].(exitTime := Some(now), exitLog := Some(|L.logs|)));
    Ledger(L.logs + [log], L.sessions[k := closed])
  }

  /** A well-formed session stays well-formed when logs are appended. */
  lemma WellFormedUnderAppend(logs: seq<AccessLog>, more: AccessLog, s: LabSession)
    requires SessionWellFormed(logs, s)
    ensures SessionWellFormed(logs + [more], s)
  {
    assert (logs + [more])[s.entryLog] == logs[s.entryLog];
    if s.exitLog.Some? { assert (logs + [more])[s.exitLog.value] == logs[s.exitLog.value]; }
  }

  lemma EntryWellFormed(L: Ledger, u: Identity, supervisor: Operator, now: Timestamp, token: Token)
    requires forall i :: 0 <= i < |L.sessions| ==> SessionWellFormed(L.logs, L.sessions[i])
    ensures var L' := EntryStep(L, u, supervisor, now, token);
      forall i :: 0 <= i < |L'.sessions| ==> SessionWellFormed(L'.logs, L'.sessions[i])
  {
    var L' := EntryStep(L, u, supervisor, now, token);
    forall i | 0 <= i < |L'.sessions| ensures SessionWellFormed(L'.logs, L'.sessions[i]) {
      if i < |L.sessions| {
        assert L'.sessions[i] == L.sessions[i];
        WellFormedUnderAppend(L.logs, L'.logs[|L.logs|], L.sessions[i]);
      }
    }
  }

  lemma EntryLinksUnique(L: Ledger, u: Identity, supervisor: Operator, now: Timestamp, token: Token)
    requires LedgerValid(L)
    ensures var S' := EntryStep(L, u, supervisor, now, token).sessions;
      && (forall i, j :: 0 <= i < j < |S'| ==> S'[i].entryLog != S'[j].entryLog)
      && (forall i, j :: 0 <= i < j < |S'| && S'[i].exitLog.Some? ==> S'[i].exitLog != S'[j].exitLog)
  {
    var S, S' := L.sessions, EntryStep(L, u, supervisor, now, token).sessions;
    var n := |S|;
    forall i, j | 0 <= i < j < |S'| ensures S'[i].entryLog != S'[j].entryLog {
      if j == n { assert S'[i] == S[i]; assert SessionWellFormed(L.logs, S[i]); }
      else { assert S'[i] == S[i] && S'[j] == S[j]; }
    }
    forall i, j | 0 <= i < j < |S'| && S'[i].exitLog.Some? ensures S'[i].exitLog != S'[j].exitLog {
      if j < n { assert S'[i] == S[i] && S'[j] == S[j]; }
    }
  }

  lemma EntryPaired(L: Ledger, u: Identity, supervisor: Operator, now: Timestamp, token: Token)
    requires LogsPaired(L)
    ensures LogsPaired(EntryStep(L, u, supervisor, now, token))
  {
    var L' := EntryStep(L, u, supervisor, now, token);
    var n := |L.sessions|;
    forall k | 0 <= k < |L'.logs| && L'.logs[k].logType == Entry
      ensures exists i :: 0 <= i < |L'.sessions| && L'.sessions[i].entryLog == k
    {
      if k == |L.logs| {
        assert L'.sessions[n].entryLog == k;
      } else {
        assert L'.logs[k] == L.logs[k];
        var i :| 0 <= i < |L.sessions| && L.sessions[i].entryLog == k;
        assert L'.sessions[i].entryLog == k;
      }
    }
    forall k | 0 <= k < |L'.logs| && L'.logs[k].logType == Exit
      ensures exists i :: 0 <= i < |L'.sessions| && L'.sessions[i].exitLog == Some(k)
    {
      assert k < |L.logs| && L'.logs[k] == L.logs[k];
      var i :| 0 <= i < |L.sessions| && L.sessions[i].exitLog == Some(k);
      assert L'.sessions[i].exitLog == Some(k);
    }
  }

  lemma EntryOneOpen(L: Ledger, u: Identity, supervisor: Operator, now: Timestamp, token: Token)
    requires AtMostOneOpen(L.sessions)
    requires !IsInside(L.sessions, u)
    ensures AtMostOneOpen(EntryStep(L, u, supervisor, now, token).sessions)
  {
    var S, S' := L.sessions, EntryStep(L, u, supervisor, now, token).sessions;
    var n := |S|;
    forall i, j | 0 <= i < |S'| && 0 <= j < |S'| && S'[i].exitTime.None? && S'[j].exitTime.None? && S'[i].user == S'[j].user
      ensures i == j
    {
      if i < n { assert S'[i] == S[i]; }
      if j < n { assert S'[j] == S[j]; }
    }
  }

  /** Opening a session for someone who is outside keeps the ledger valid. */
  lemma EntryKeepsValid(L: Ledger, u: Identity, supervisor: Operator, now: Timestamp, token: Token)
    requires LedgerValid(L)
    requires !IsInside(L.sessions, u)
    ensures LedgerValid(EntryStep(L, u, supervisor, now, token))
  {
    EntryWellFormed(L, u, supervisor, now, token);
    EntryLinksUnique(L, u, supervisor, now, token);
    EntryPaired(L, u, supervisor, now, token);
    EntryOneOpen(L, u, supervisor, now, token);
  }

  lemma ExitWellFormed(L: Ledger, u: Identity, supervisor: Operator, now: Timestamp, k: nat)
    requires forall i :: 0 <= i < |L.sessions| ==> SessionWellFormed(L.logs, L.sessions[i])
    requires FirstOpen(L.sessions, u) == Some(k)
    ensures var L' := ExitStep(L, u, supervisor, now, k);
      forall i :: 0 <= i < |L'.sessions| ==> SessionWellFormed(L'.logs, L'.sessions[i])
  {
    var L' := ExitStep(L, u, supervisor, now, k);
    forall i | 0 <= i < |L'.sessions| ensures SessionWellFormed(L'.logs, L'.sessions[i]) {
      WellFormedUnderAppend(L.logs, L'.logs[|L.logs|], L.sessions[i]);
      if i != k { assert L'.sessions[i] == L.sessions[i]; }
      else { assert L'.logs[L.sessions[k].entryLog] == L.logs[L.sessions[k].entryLog]; }
    }
  }

  lemma ExitEntryLinksUnique(L: Ledger, u: Identity, supervisor: Operator, now: Timestamp, k: nat)
    requires forall i, j :: 0 <= i < j < |L.sessions| ==> L.sessions[i].entryLog != L.sessions[j].entryLog
    requires k < |L.sessions|
    ensures var S' := ExitStep(L, u, supervisor, now, k).sessions;
      forall i, j :: 0 <= i < j < |S'| ==> S'[i].entryLog != S'[j].entryLog
  {
    var S, S' := L.sessions, ExitStep(L, u, supervisor, now, k).sessions;
    assert forall i :: 0 <= i < |S| ==> S'[i].entryLog == S[i].entryLog;
  }

  lemma ExitExitLinksUnique(L: Ledger, u: Identity, supervisor: Operator, now: Timestamp, k: nat)
    requires LedgerValid(L)
    requires FirstOpen(L.sessions, u) == Some(k)
    ensures var S' := ExitStep(L, u, supervisor, now, k).sessions;
      forall i, j :: 0 <= i < j < |S'| && S'[i].exitLog.Some? ==> S'[i].exitLog != S'[j].exitLog
  {
    var S, S' := L.sessions, ExitStep(L, u, supervisor, now, k).sessions;
    forall i, j | 0 <= i < j < |S'| && S'[i].exitLog.Some? ensures S'[i].exitLog != S'[j].exitLog {
      if i == k {
        assert S[j] == S'[j];
        if S[j].exitLog.Some? { assert SessionWellFormed(L.logs, S[j]); }
      } else if j == k {
        assert S[i] == S'[i];
        assert SessionWellFormed(L.logs, S[i]);
      } else {
        assert S[i] == S'[i] && S[j] == S'[j];
      }
    }
  }

  lemma ExitPaired(L: Ledger, u: Identity, supervisor: Operator, now: Timestamp, k: nat)
    requires LedgerValid(L)
    requires FirstOpen(L.sessions, u) == Some(k)
    ensures LogsPaired(ExitStep(L, u, supervisor, now, k))
  {
    var L' := ExitStep(L, u, supervisor, now, k);
    var n := |L.logs|;
    forall m | 0 <= m < |L'.logs| && L'.logs[m].logType == Entry
      ensures exists i :: 0 <= i < |L'.sessions| && L'.sessions[i].entryLog == m
    {
      assert m < n && L'.logs[m] == L.logs[m];
      var i :| 0 <= i < |L.sessions| && L.sessions[i].entryLog == m;
      assert L'.sessions[i].entryLog == m;
    }
    forall m | 0 <= m < |L'.logs| && L'.logs[m].logType == Exit
      ensures exists i :: 0 <= i < |L'.sessions| && L'.sessions[i].exitLog == Some(m)
    {
      if m == n {
        assert L'.sessions[k].exitLog == Some(m);
      } else {
        assert L'.logs[m] == L.logs[m];
        var i :| 0 <= i < |L.sessions| && L.sessions[i].exitLog == Some(m);
        assert i != k;
        assert L'.sessions[i].exitLog == Some(m);
      }
    }
  }

  lemma ExitOneOpen(L: Ledger, u: Identity, supervisor: Operator, now: Timestamp, k: nat)
    requires AtMostOneOpen(L.sessions)
    requires FirstOpen(L.sessions, u) == Some(k)
    ensures AtMostOneOpen(ExitStep(L, u, supervisor, now, k).sessions)
  {
    var S, S' := L.sessions, ExitStep(L, u, supervisor, now, k).sessions;
    forall i, j | 0 <= i < |S'| && 0 <= j < |S'| && S'[i].exitTime.None? && S'[j].exitTime.None? && S'[i].user == S'[j].user
      ensures i == j
    {
      assert i != k && j != k;
      assert S'[i] == S[i] && S'[j] == S[j];
    }
  }

  /** Closing the open session of someone inside keeps the ledger valid. */
  lemma ExitKeepsValid(L: Ledger, u: Identity, supervisor: Operator, now: Timestamp, k: nat)
    requires LedgerValid(L)
    requires FirstOpen(L.sessions, u) == Some(k)
    ensures LedgerValid(ExitStep(L, u, supervisor, now, k))
  {
    ExitWellFormed(L, u, supervisor, now, k);
    ExitEntryLinksUnique(L, u, supervisor, now, k);
    ExitExitLinksUnique(L, u, supervisor, now, k);
    ExitPaired(L, u, supervisor, now, k);
    ExitOneOpen(L, u, supervisor, now, k);
  }

  /** After the exit step the person has no open session left, and nobody else's occupancy changes. */
  lemma ExitLeavesOutside(L: Ledger, u: Identity, supervisor: Operator, now: Timestamp, k: nat)
    requires AtMostOneOpen(L.sessions)
    requires FirstOpen(L.sessions, u) == Some(k)
    ensures !IsInside(ExitStep(L, u, supervisor, now, k).sessions, u)
    ensures forall v :: v != u ==> IsInside(ExitStep(L, u, supervisor, now, k).sessions, v) == IsInside(L.sessions, v)
  {
    var S := L.sessions;
    var S' := ExitStep(L, u, supervisor, now, k).sessions;
    forall j | 0 <= j < |S'| ensures !IsOpenFor(S'[j], u) {
      if j != k { assert S'[j] == S[j]; }
    }
    forall v | v != u ensures IsInside(S', v) == IsInside(S, v) {
      if IsInside(S, v) {
        var m := FirstOpen(S, v).value;
        assert IsOpenFor(S'[m], v);
      }
      if IsInside(S', v) {
        var m := FirstOpen(S', v).value;
        assert IsOpenFor(S[m], v);
      }
    }
  }

  /** After the entry step the person is inside, in the new session, and nobody else's occupancy changes. */
  lemma EntryLeavesInside(L: Ledger, u: Identity, supervisor: Operator, now: Timestamp, token: Token)
    requires !IsInside(L.sessions, u)
    ensures FirstOpen(EntryStep(L, u, supervisor, now, token).sessions, u) == Some(|L.sessions|)
    ensures forall v :: v != u ==> IsInside(EntryStep(L, u, supervisor, now, token).sessions, v) == IsInside(L.sessions, v)
  {
    var S := L.sessions;
    var S' := EntryStep(L, u, supervisor, now, token).sessions;
    assert forall j :: 0 <= j < |S| ==> S'[j] == S[j];
    assert IsOpenFor(S'[|S|], u);
    forall v | v != u ensures IsInside(S', v) == IsInside(S, v) {
      if IsInside(S', v) {
        var m := FirstOpen(S', v).value;
        assert m < |S|;
        assert IsOpenFor(S[m], v);
      }
      if IsInside(S, v) {
        var m := FirstOpen(S, v).value;
        assert IsOpenFor(S'[m], v);
      }
    }
  }
}
