/** The scan-to-session engine (dashboard/scanning_logic.py): a scanned code is resolved to a
    person, checked for validity, and toggles that person between outside and inside the lab
    by writing an entry log and a new session, or an exit log and the closing of the open one. */
module Scanning {
  import opened Common
  import opened Models
  import opened SessionLedger
  import opened Store

  // ---------------------------------------------------------------------------
  // _identify_user
  // ---------------------------------------------------------------------------

  /** The first row whose code is `code` (objects.get(<code field>=code)), by position. */
  function FirstWithCode<T>(rows: seq<T>, code: string, key: T -> string): (r: Option<nat>)
    ensures r.Some? ==> r.value < |rows| && key(rows[r.value]) == code
    ensures r.Some? ==> forall j :: 0 <= j < r.value ==> key(rows[j]) != code
    ensures r.None? <==> forall j :: 0 <= j < |rows| ==> key(rows[j]) != code
  {
    if rows == [] then None
    else if key(rows[0]) == code then Some(0)
    else match FirstWithCode(rows[1..], code, key)
      case None => None
      case Some(k) => Some(k + 1)
  }

  predicate HasRegular(reg: Registry, code: string) {
    exists i :: 0 <= i < |reg.regulars| && reg.regulars[i].studentId == code
  }

  predicate HasTemporary(reg: Registry, code: string) {
    exists i :: 0 <= i < |reg.temporaries| && reg.temporaries[i].studentId == code
  }

  predicate HasGuest(reg: Registry, code: string) {
    exists i :: 0 <= i < |reg.guests| && reg.guests[i].guestId == code
  }

  /** _identify_user: regular students are searched first, then temporary students, then guests. */
  function Resolve(reg: Registry, code: string): (r: Option<Identity>)
    ensures r.None? <==> !HasRegular(reg, code) && !HasTemporary(reg, code) && !HasGuest(reg, code)
    ensures r.Some? ==> InRegistry(reg, r.value) && r.value.Code() == code
    ensures HasRegular(reg, code) ==> r.Some? && r.value.Regular?
    ensures !HasRegular(reg, code) && HasTemporary(reg, code) ==> r.Some? && r.value.Temporary?
    ensures !HasRegular(reg, code) && !HasTemporary(reg, code) && HasGuest(reg, code) ==> r.Some? && r.value.Visitor?
  {
    match FirstWithCode(reg.regulars, code, (s: RegularStudent) => s.studentId)
    case Some(i) => Some(Regular(reg.regulars[i]))
    case None =>
      match FirstWithCode(reg.temporaries, code, (t: TemporaryStudent) => t.studentId)
      case Some(i) => Some(Temporary(reg.temporaries[i]))
      case None =>
        match FirstWithCode(reg.guests, code, (g: Guest) => g.guestId)
        case Some(i) => Some(Visitor(reg.guests[i]))
        case None => None
  }

  /** With unique codes, the person found is the one row of its table that carries the code. */
  lemma ResolveIsTheRow(reg: Registry, code: string, u: Identity)
    requires RegistryValid(reg)
    requires InRegistry(reg, u) && u.Code() == code
    requires u.Regular? || (u.Temporary? && !HasRegular(reg, code))
          || (u.Visitor? && !HasRegular(reg, code) && !HasTemporary(reg, code))
    ensures Resolve(reg, code) == Some(u)
  {
    var r := Resolve(reg, code);
    match u
    case Regular(s) => {
      var i :| 0 <= i < |reg.regulars| && reg.regulars[i] == s;
      var j :| 0 <= j < |reg.regulars| && Regular(reg.regulars[j]) == r.value;
      assert !(i < j) && !(j < i);
    }
    case Temporary(t) => {
      var i :| 0 <= i < |reg.temporaries| && reg.temporaries[i] == t;
      var j :| 0 <= j < |reg.temporaries| && Temporary(reg.temporaries[j]) == r.value;
      assert !(i < j) && !(j < i);
    }
    case Visitor(g) => {
      var i :| 0 <= i < |reg.guests| && reg.guests[i] == g;
      var j :| 0 <= j < |reg.guests| && Visitor(reg.guests[j]) == r.value;
      assert !(i < j) && !(j < i);
    }
  }

  // ---------------------------------------------------------------------------
  // _is_valid_user
  // ---------------------------------------------------------------------------

  /** _is_valid_user: is_active for a regular student, is_valid() for a temporary one, always for a guest. */
  predicate IsValidUser(u: Identity, now: Timestamp) {
    match u
    case Regular(s) => s.isActive
    case Temporary(t) => IsValid(t, now)
    case Visitor(_) => true
  }

  /** The validity rule per kind, with the temporary window written out: both bounds inclusive. */
  lemma ValidityByKind(u: Identity, now: Timestamp)
    ensures u.Regular? ==> (IsValidUser(u, now) <==> u.regular.isActive)
    ensures u.Temporary? ==> (IsValidUser(u, now) <==>
      u.temporary.isActive && u.temporary.validFrom <= now <= u.temporary.validUntil)
    ensures u.Temporary? ==> (IsValidUser(u, now) <==> u.temporary.isActive && Status(u.temporary, now) == "Active")
    ensures u.Visitor? ==> IsValidUser(u, now)
  {
    if u.Temporary? {
      ValidIsActiveAndStatus(u.temporary, now);
    }
  }

  // ---------------------------------------------------------------------------
  // The response of process_scan
  // ---------------------------------------------------------------------------

  /** The 'message' of a response; Text() is the wording shown to the supervisor. */
  datatype Message = NotFound | Denied | Welcome(firstName: string) | Goodbye(firstName: string, minutes: int)
  {
    function Text(): string {
      match this
      case NotFound => "Invalid QR code or user not found"
      // The denied message is written as two literals.
      case Denied => "Access denied. " + "User is inactive or access has expired."
      case Welcome(f) => "Welcome to the lab, " + f + "!"
      case Goodbye(f, m) => "Goodbye, " + f + "! You spent " + IntToDecimal(m) + " minutes in the lab."
    }
  }

  lemma DeniedTextHead()
    ensures |Denied.Text()| > 0 && Denied.Text()[0] == 'A'
  {
    assert ("Access denied. " + "User is inactive or access has expired.")[0] == 'A';
  }

  lemma WelcomeTextHead(f: string)
    ensures |Welcome(f).Text()| > 0 && Welcome(f).Text()[0] == 'W'
  {
    assert ("Welcome to the lab, " + f + "!")[0] == 'W';
  }

  lemma GoodbyeTextHead(f: string, k: int)
    ensures |Goodbye(f, k).Text()| > 0 && Goodbye(f, k).Text()[0] == 'G'
  {
    var d := IntToDecimal(k);
    assert ("Goodbye, " + f + "! You spent " + d + " minutes in the lab.")[0] == 'G';
  }

  /** The first character of each message's text: 'I', 'A', 'W' or 'G'. */
  lemma TextHead(m: Message)
    ensures |m.Text()| > 0
    ensures m.Text()[0] == (if m.NotFound? then 'I' else if m.Denied? then 'A' else if m.Welcome? then 'W' else 'G')
  {
    match m
    case NotFound =>
    case Denied => DeniedTextHead();
    case Welcome(f) => WelcomeTextHead(f);
    case Goodbye(f, k) => GoodbyeTextHead(f, k);
  }

  /** The text tells the four outcomes apart, and a welcome text names one first name. */
  lemma TextTellsMessage(m1: Message, m2: Message)
    requires m1.Text() == m2.Text()
    ensures m1.NotFound? == m2.NotFound? && m1.Denied? == m2.Denied?
    ensures m1.Welcome? == m2.Welcome? && m1.Goodbye? == m2.Goodbye?
    ensures m1.Welcome? && m2.Welcome? ==> m1 == m2
  {
    TextHead(m1);
    TextHead(m2);
    if m1.Welcome? && m2.Welcome? {
      var t, n := m1.Text(), |"Welcome to the lab, "|;
      assert m1.firstName == t[n..|t| - 1];
      assert m2.firstName == t[n..|t| - 1];
    }
  }

  /** int((now - entry_time).total_seconds() // 60): whole minutes, rounded down. */
  function Minutes(entryTime: Timestamp, now: Timestamp): (m: int)
    ensures m * 60 <= now - entryTime < m * 60 + 60
    ensures entryTime <= now ==> m >= 0
  {
    (now - entryTime) / 60
  }

  /** 'success' / 'error'. */
  datatype ScanStatus = Success | Error

  /** The 'data' of a response: who was scanned, and for an admitted scan what was logged.
      `sessionId` is the position of the LabSession row, standing for its primary key. */
  datatype ScanData =
    | DeniedData(userType: UserType, userName: string, userId: string)
    | AdmittedData(userType: UserType, userName: string, userId: string,
                   logType: LogType, timestamp: Timestamp, sessionId: nat)

  datatype ScanResult = ScanResult(status: ScanStatus, message: Message, data: Option<ScanData>)

  /** The response together with the ledger after the scan. */
  datatype ScanOutcome = ScanOutcome(result: ScanResult, ledger: Ledger)

  // ---------------------------------------------------------------------------
  // process_scan, as one atomic step
  // ---------------------------------------------------------------------------

  /** process_scan on the given tables: unknown code, denied, welcome (entry) or goodbye (exit). */
  function Scan(reg: Registry, L: Ledger, code: string, supervisor: Operator, now: Timestamp, token: Token)
    : (out: ScanOutcome)
    ensures out.result.data.None? <==> Resolve(reg, code).None?
    ensures out.result.status == Success <==> Resolve(reg, code).Some? && IsValidUser(Resolve(reg, code).value, now)
    ensures out.result.status == Error ==> out.ledger == L
    ensures out.result.status == Success ==>
      |out.ledger.logs| == |L.logs| + 1 && out.ledger.logs[..|L.logs|] == L.logs
    ensures out.result.data.Some? ==> out.result.data.value.userId == code
  {
    match Resolve(reg, code)
    case None => ScanOutcome(ScanResult(Error, NotFound, None), L)
    case Some(u) =>
      if !IsValidUser(u, now) then
        ScanOutcome(ScanResult(Error, Denied, Some(DeniedData(u.Kind(), u.DisplayName(), u.Code()))), L)
      else
        match FirstOpen(L.sessions, u)
        case None =>
          var L' := EntryStep(L, u, supervisor, now, token);
          assert L'.logs[..|L.logs|] == L.logs;
          var data := AdmittedData(u.Kind(), u.DisplayName(), u.Code(), Entry, now, |L.sessions|);
          ScanOutcome(ScanResult(Success, Welcome(u.FirstName()), Some(data)), L')
        case Some(k) =>
          var L' := ExitStep(L, u, supervisor, now, k);
          assert L'.logs[..|L.logs|] == L.logs;
          var data := AdmittedData(u.Kind(), u.DisplayName(), u.Code(), Exit, now, k);
          var message := Goodbye(u.FirstName(), Minutes(L.sessions[k].entryTime, now));
          ScanOutcome(ScanResult(Success, message, Some(data)), L')
  }

  // ---------------------------------------------------------------------------
  // What a scan does
  // ---------------------------------------------------------------------------

  /** An unknown code is an error without data, and nothing is written. */
  lemma UnknownCodeWritesNothing(reg: Registry, L: Ledger, code: string, supervisor: Operator, now: Timestamp, token: Token)
    requires !HasRegular(reg, code) && !HasTemporary(reg, code) && !HasGuest(reg, code)
    ensures Scan(reg, L, code, supervisor, now, token) == ScanOutcome(ScanResult(Error, NotFound, None), L)
  {
  }

  /** A person who is not valid is refused with kind, name and id, nothing is written, and
      occupancy is not consulted. */
  lemma DeniedWritesNothing(reg: Registry, L: Ledger, code: string, supervisor: Operator, now: Timestamp,
                            token: Token, u: Identity)
    requires Resolve(reg, code) == Some(u)
    requires !IsValidUser(u, now)
    ensures Scan(reg, L, code, supervisor, now, token)
         == ScanOutcome(ScanResult(Error, Denied, Some(DeniedData(u.Kind(), u.DisplayName(), code))), L)
  {
  }

  /** A temporary student whose access has expired and who is still inside cannot scan out:
      the scan is refused and the session stays open. */
  lemma ExpiredTemporaryStaysInside(reg: Registry, L: Ledger, code: string, supervisor: Operator,
                                    now: Timestamp, token: Token, t: TemporaryStudent)
    requires Resolve(reg, code) == Some(Temporary(t))
    requires t.validUntil < now
    requires IsInside(L.sessions, Temporary(t))
    ensures Scan(reg, L, code, supervisor, now, token).result.status == Error
    ensures IsInside(Scan(reg, L, code, supervisor, now, token).ledger.sessions, Temporary(t))
  {
  }

  /** The whole outcome of an admitted entry scan: the welcome response and the entry step. */
  lemma EntryOutcome(reg: Registry, L: Ledger, code: string, supervisor: Operator, now: Timestamp, token: Token,
                     u: Identity)
    requires Resolve(reg, code) == Some(u)
    requires IsValidUser(u, now)
    requires FirstOpen(L.sessions, u).None?
    ensures Scan(reg, L, code, supervisor, now, token)
         == ScanOutcome(ScanResult(Success, Welcome(u.FirstName()),
                                   Some(AdmittedData(u.Kind(), u.DisplayName(), u.Code(), Entry, now, |L.sessions|))),
                        EntryStep(L, u, supervisor, now, token))
  {
  }

  /** The whole outcome of an admitted exit scan: the goodbye response and the exit step on session k. */
  lemma ExitOutcome(reg: Registry, L: Ledger, code: string, supervisor: Operator, now: Timestamp, token: Token,
                    u: Identity, k: nat)
    requires Resolve(reg, code) == Some(u)
    requires IsValidUser(u, now)
    requires FirstOpen(L.sessions, u) == Some(k)
    ensures Scan(reg, L, code, supervisor, now, token)
         == ScanOutcome(ScanResult(Success, Goodbye(u.FirstName(), Minutes(L.sessions[k].entryTime, now)),
                                   Some(AdmittedData(u.Kind(), u.DisplayName(), u.Code(), Exit, now, k))),
                        ExitStep(L, u, supervisor, now, k))
  {
  }

  /** A valid person with no open session is let in: one entry log carrying the fresh token and the
      operator, one new open session pointing at it, nothing else changed, and the person is inside. */
  lemma EntryScan(reg: Registry, L: Ledger, code: string, supervisor: Operator, now: Timestamp, token: Token, u: Identity)
    requires Resolve(reg, code) == Some(u)
    requires IsValidUser(u, now)
    requires !IsInside(L.sessions, u)
    ensures var out := Scan(reg, L, code, supervisor, now, token);
      && out.result == ScanResult(Success, Welcome(u.FirstName()),
                                  Some(AdmittedData(u.Kind(), u.DisplayName(), code, Entry, now, |L.sessions|)))
      && out.ledger.logs == L.logs + [AccessLog(u, Entry, now, supervisor, Some(token))]
      && out.ledger.sessions == L.sessions + [LabSession(u, now, None, None, |L.logs|, None)]
      && FirstOpen(out.ledger.sessions, u) == Some(|L.sessions|)
  {
    EntryLeavesInside(L, u, supervisor, now, token);
  }

  /** A valid person with an open session is let out: one exit log without token, only that session
      changes, it gets the exit time, the exit log and the duration, and the person is outside. */
  lemma ExitScan(reg: Registry, L: Ledger, code: string, supervisor: Operator, now: Timestamp, token: Token,
                 u: Identity, k: nat)
    requires AtMostOneOpen(L.sessions)
    requires Resolve(reg, code) == Some(u)
    requires IsValidUser(u, now)
    requires k < |L.sessions| && IsOpenFor(L.sessions[k], u)
    ensures var out := Scan(reg, L, code, supervisor, now, token);
      var s := L.sessions[k];
      && out.result == ScanResult(Success, Goodbye(u.FirstName(), Minutes(s.entryTime, now)),
                                  Some(AdmittedData(u.Kind(), u.DisplayName(), code, Exit, now, k)))
      && out.ledger.logs == L.logs + [AccessLog(u, Exit, now, supervisor, None)]
      && out.ledger.sessions == L.sessions[k := s.(exitTime := Some(now), duration := Some(now - s.entryTime),
                                                    exitLog := Some(|L.logs|))]
      && !IsInside(out.ledger.sessions, u)
  {
    FirstOpenIsOnlyOpen(L.sessions, u, k);
    ExitLeavesOutside(L, u, supervisor, now, k);
  }

  /** The direction: an admitted scan logs an exit exactly when the person had an open session. */
  lemma DirectionFollowsOccupancy(reg: Registry, L: Ledger, code: string, supervisor: Operator, now: Timestamp,
                                  token: Token, u: Identity)
    requires Resolve(reg, code) == Some(u)
    requires IsValidUser(u, now)
    ensures var out := Scan(reg, L, code, supervisor, now, token);
      && out.result.data.Some? && out.result.data.value.AdmittedData?
      && (out.result.data.value.logType == Exit <==> IsInside(L.sessions, u))
      && out.ledger.logs[|L.logs|].logType == out.result.data.value.logType
  {
  }

  /** Every response with data reports the scanned person: the kind, "first last", and the
      student_id of a student or the guest_id of a guest, which is the scanned code itself. */
  lemma ReportedUser(reg: Registry, L: Ledger, code: string, supervisor: Operator, now: Timestamp,
                     token: Token, u: Identity)
    requires Resolve(reg, code) == Some(u)
    ensures var d := Scan(reg, L, code, supervisor, now, token).result.data;
      && d.Some?
      && d.value.userType == u.Kind()
      && d.value.userName == u.FirstName() + " " + u.LastName()
      && d.value.userId == (match u
                            case Regular(s) => s.studentId
                            case Temporary(t) => t.studentId
                            case Visitor(g) => g.guestId)
      && d.value.userId == code
  {
  }

  /** Someone the ledger has never seen always enters. */
  lemma FirstScanIsEntry(reg: Registry, L: Ledger, code: string, supervisor: Operator, now: Timestamp,
                         token: Token, u: Identity)
    requires Resolve(reg, code) == Some(u)
    requires IsValidUser(u, now)
    requires forall i :: 0 <= i < |L.sessions| ==> L.sessions[i].user != u
    ensures var out := Scan(reg, L, code, supervisor, now, token);
      out.result.data.Some? && out.result.data.value.AdmittedData? && out.result.data.value.logType == Entry
  {
    assert FirstOpen(L.sessions, u).None?;
  }

  /** An admitted scan flips the scanned person between outside and inside and leaves everybody
      else's occupancy as it was. */
  lemma ScanToggles(reg: Registry, L: Ledger, code: string, supervisor: Operator, now: Timestamp,
                    token: Token, u: Identity)
    requires AtMostOneOpen(L.sessions)
    requires Resolve(reg, code) == Some(u)
    requires IsValidUser(u, now)
    ensures var S' := Scan(reg, L, code, supervisor, now, token).ledger.sessions;
      && (IsInside(S', u) <==> !IsInside(L.sessions, u))
      && (forall v :: v != u ==> IsInside(S', v) == IsInside(L.sessions, v))
  {
    match FirstOpen(L.sessions, u)
    case None => EntryLeavesInside(L, u, supervisor, now, token);
    case Some(k) => ExitLeavesOutside(L, u, supervisor, now, k);
  }

  /** Every scan keeps the ledger invariant, in particular at most one open session per person. */
  lemma ScanKeepsLedgerValid(reg: Registry, L: Ledger, code: string, supervisor: Operator, now: Timestamp, token: Token)
    requires LedgerValid(L)
    ensures LedgerValid(Scan(reg, L, code, supervisor, now, token).ledger)
  {
    match Resolve(reg, code)
    case None =>
    case Some(u) =>
      if IsValidUser(u, now) {
        match FirstOpen(L.sessions, u)
        case None => EntryKeepsValid(L, u, supervisor, now, token);
        case Some(k) => ExitKeepsValid(L, u, supervisor, now, k);
      }
  }

  /** Every scan writes only logs and sessions of stored people. */
  lemma ScanKeepsLedgerInRegistry(reg: Registry, L: Ledger, code: string, supervisor: Operator, now: Timestamp,
                                  token: Token)
    requires LedgerInRegistry(reg, L)
    ensures LedgerInRegistry(reg, Scan(reg, L, code, supervisor, now, token).ledger)
  {
    var L' := Scan(reg, L, code, supervisor, now, token).ledger;
    if L' != L {
      var u := Resolve(reg, code).value;
      assert L'.logs == L.logs + [L'.logs[|L.logs|]] && L'.logs[|L.logs|].user == u;
      forall i | 0 <= i < |L'.sessions| ensures InRegistry(reg, L'.sessions[i].user) {
        if i >= |L.sessions| || L'.sessions[i] != L.sessions[i] { assert L'.sessions[i].user == u; }
      }
    }
  }

  /** Every scan keeps the database invariant. */
  lemma ScanKeepsStoreValid(reg: Registry, L: Ledger, code: string, supervisor: Operator, now: Timestamp, token: Token)
    requires StoreValid(reg, L)
    ensures StoreValid(reg, Scan(reg, L, code, supervisor, now, token).ledger)
  {
    ScanKeepsLedgerValid(reg, L, code, supervisor, now, token);
    ScanKeepsLedgerInRegistry(reg, L, code, supervisor, now, token);
  }

  /** The worked example: a valid person outside scans twice; the first scan lets them in, the second
      lets them out, the session then records both times and their difference, and they are outside. */
  lemma EntryThenExit(reg: Registry, L: Ledger, code: string, supervisor: Operator,
                      t1: Timestamp, token1: Token, t2: Timestamp, token2: Token, u: Identity)
    requires AtMostOneOpen(L.sessions)
    requires Resolve(reg, code) == Some(u)
    requires IsValidUser(u, t1) && IsValidUser(u, t2)
    requires !IsInside(L.sessions, u)
    ensures var first := Scan(reg, L, code, supervisor, t1, token1);
      var second := Scan(reg, first.ledger, code, supervisor, t2, token2);
      var n := |L.sessions|;
      && first.result.data == Some(AdmittedData(u.Kind(), u.DisplayName(), code, Entry, t1, n))
      && second.result.data == Some(AdmittedData(u.Kind(), u.DisplayName(), code, Exit, t2, n))
      && second.result.message == Goodbye(u.FirstName(), Minutes(t1, t2))
      && second.ledger.sessions[n] == LabSession(u, t1, Some(t2), Some(t2 - t1), |L.logs|, Some(|L.logs| + 1))
      && !IsInside(second.ledger.sessions, u)
  {
    var n := |L.sessions|;
    var first := Scan(reg, L, code, supervisor, t1, token1);
    var S1 := first.ledger.sessions;
    assert first.result.data == Some(AdmittedData(u.Kind(), u.DisplayName(), code, Entry, t1, n))
        && n < |S1| && S1[n] == LabSession(u, t1, None, None, |L.logs|, None)
        && |first.ledger.logs| == |L.logs| + 1 && AtMostOneOpen(S1) by {
      EntryScan(reg, L, code, supervisor, t1, token1, u);
      EntryOneOpen(L, u, supervisor, t1, token1);
    }
    var second := Scan(reg, first.ledger, code, supervisor, t2, token2);
    assert && second.result.data == Some(AdmittedData(u.Kind(), u.DisplayName(), code, Exit, t2, n))
           && second.result.message == Goodbye(u.FirstName(), Minutes(t1, t2))
           && second.ledger.sessions[n] == LabSession(u, t1, Some(t2), Some(t2 - t1), |L.logs|, Some(|L.logs| + 1))
           && !IsInside(second.ledger.sessions, u) by {
      ExitScan(reg, first.ledger, code, supervisor, t2, token2, u, n);
    }
  }

  // ---------------------------------------------------------------------------
  // The scanner over the database
  // ---------------------------------------------------------------------------

  /** QRCodeScanner: a supervisor and the database it records scans in. */
  class QRCodeScanner {
    const supervisor: Operator
    const db: Database

    constructor (supervisor: Operator, db: Database)
      ensures this.supervisor == supervisor && this.db == db
    {
      this.supervisor := supervisor;
      this.db := db;
    }

    /** process_scan: the response and the new ledger are those of Scan on the tables before the
        scan; the identity tables are not touched and the database stays valid. */
    method ProcessScan(code: string, now: Timestamp, token: Token) returns (result: ScanResult)
      requires db.Valid()
      modifies db`logs, db`sessions
      ensures db.Valid()
      ensures var out := Scan(old(db.Registry()), old(db.Ledger()), code, supervisor, now, token);
        result == out.result && db.Ledger() == out.ledger
      ensures db.Registry() == old(db.Registry())
    {
      ghost var L := db.Ledger();
      var reg := db.Registry();
      var found := Resolve(reg, code);
      if found.None? {
        result := ScanResult(Error, NotFound, None);
        UnknownCodeWritesNothing(reg, L, code, supervisor, now, token);
      } else if !IsValidUser(found.value, now) {
        var u := found.value;
        result := ScanResult(Error, Denied, Some(DeniedData(u.Kind(), u.DisplayName(), u.Code())));
        DeniedWritesNothing(reg, L, code, supervisor, now, token, u);
      } else {
        var u := found.value;
        var inside := IsInsideLab(u);
        if !inside {
          var sessionIndex := RecordEntry(u, now, token);
          result := ScanResult(Success, Welcome(u.FirstName()),
                               Some(AdmittedData(u.Kind(), u.DisplayName(), u.Code(), Entry, now, sessionIndex)));
          EntryOutcome(reg, L, code, supervisor, now, token, u);
        } else {
          var k, entryTime := RecordExit(u, now);
          result := ScanResult(Success, Goodbye(u.FirstName(), Minutes(entryTime, now)),
                               Some(AdmittedData(u.Kind(), u.DisplayName(), u.Code(), Exit, now, k)));
          ExitOutcome(reg, L, code, supervisor, now, token, u, k);
        }
      }
      assert db.Registry() == reg && db.Ledger() == Scan(reg, L, code, supervisor, now, token).ledger;
      ScanKeepsStoreValid(reg, L, code, supervisor, now, token);
    }

    /** The atomic block of an entry: the entry log, then the session opened through it. */
    method RecordEntry(u: Identity, now: Timestamp, token: Token) returns (sessionIndex: nat)
      modifies db`logs, db`sessions
      ensures sessionIndex == |old(db.sessions)|
      ensures db.Ledger() == EntryStep(old(db.Ledger()), u, supervisor, now, token)
    {
      var logIndex := CreateLogEntry(u, Entry, now, token);
      sessionIndex := CreateLabSession(u, logIndex, now);
    }

    /** The atomic block of an exit: the exit log, then u's open session closed through it. Returns
        that session and its entry time; u must be inside, as the scan has just checked. */
    method RecordExit(u: Identity, now: Timestamp) returns (k: nat, entryTime: Timestamp)
      requires IsInside(db.sessions, u)
      modifies db`logs, db`sessions
      ensures Some(k) == FirstOpen(old(db.sessions), u)
      ensures entryTime == old(db.sessions)[k].entryTime
      ensures db.Ledger() == ExitStep(old(db.Ledger()), u, supervisor, now, k)
    {
      // No uuid is drawn for an exit log, so the token argument is unused.
      var logIndex := CreateLogEntry(u, Exit, now, 0);
      var closed := UpdateLabSession(u, logIndex, now);
      k := closed.value;
      entryTime := db.sessions[k].entryTime;
    }

    /** _is_inside_lab: whether u has an open session. */
    method IsInsideLab(u: Identity) returns (inside: bool)
      ensures inside <==> exists j :: 0 <= j < |db.sessions| && IsOpenFor(db.sessions[j], u)
      ensures inside == IsInside(db.sessions, u)
    {
      inside := FirstOpen(db.sessions, u).Some?;
    }

    /** _create_log_entry: append a log for u by this supervisor at `now`; only an entry log gets the token. */
    method CreateLogEntry(u: Identity, logType: LogType, now: Timestamp, token: Token) returns (index: nat)
      modifies db`logs
      ensures index == |old(db.logs)|
      ensures db.logs == old(db.logs) + [AccessLog(u, logType, now, supervisor,
                                                    if logType == Entry then Some(token) else None)]
    {
      index := |db.logs|;
      var sessionId: Option<Token> := None;
      if logType == Entry {
        sessionId := Some(token);
      }
      db.logs := db.logs + [AccessLog(u, logType, now, supervisor, sessionId)];
    }

    /** _create_lab_session: append an open session for u entered at `now` through the given log. */
    method CreateLabSession(u: Identity, entryLog: nat, now: Timestamp) returns (index: nat)
      modifies db`sessions
      ensures index == |old(db.sessions)|
      ensures db.sessions == old(db.sessions) + [SessionOnSave(LabSession(u, now, None, None, entryLog, None))]
    {
      index := |db.sessions|;
      db.sessions := db.sessions + [SessionOnSave(LabSession(u, now, None, None, entryLog, None))];
    }

    /** _update_lab_session: close u's first open session, if there is one, at `now` through the given log. */
    method UpdateLabSession(u: Identity, exitLog: nat, now: Timestamp) returns (closed: Option<nat>)
      modifies db`sessions
      ensures closed == FirstOpen(old(db.sessions), u)
      ensures closed.Some? ==> db.sessions == old(db.sessions)[closed.value :=
        SessionOnSave(old(db.sessions)[closed.value].(exitTime := Some(now), exitLog := Some(exitLog)))]
      ensures closed.None? ==> db.sessions == old(db.sessions)
    {
      closed := FirstOpen(db.sessions, u);
      if closed.Some? {
        var k := closed.value;
        var session := db.sessions[k].(exitTime := Some(now), exitLog := Some(exitLog));
        db.sessions := db.sessions[k := SessionOnSave(session)];
      }
    }
  }
}
