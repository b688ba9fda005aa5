/** The records of the registry (dashboard/models.py) and the rules its models apply
    on their own: validity of temporary students, the defaults filled in on save,
    guest ids, session durations and the name/id lookups of an access log. */
module Models {
  import opened Common
  import opened StudentIds

  /** Instants are whole seconds. */
  type Timestamp = int
  /** The staff user (supervisor) recorded on a log, by primary key. */
  type Operator = nat
  /** A fresh uuid4, supplied from outside. */
  type Token = nat

  // ---------------------------------------------------------------------------
  // The three kinds of person
  // ---------------------------------------------------------------------------

  /** year_completed is a nullable integer; `createdAt` is the auto_now_add created_at. */
  datatype RegularStudent = RegularStudent(
    firstName: string, lastName: string, yearJoined: int, yearCompleted: Option<int>,
    studentId: string, isActive: bool, createdAt: Timestamp)

  datatype TemporaryStudent = TemporaryStudent(
    firstName: string, lastName: string, yearJoined: int, yearCompleted: Option<int>,
    studentId: string, isActive: bool, createdAt: Timestamp,
    validFrom: Timestamp, validUntil: Timestamp)

  datatype Guest = Guest(firstName: string, lastName: string, guestId: string, createdAt: Timestamp)

  /** One scannable person, tagged by kind. */
  datatype Identity = Regular(regular: RegularStudent) | Temporary(temporary: TemporaryStudent) | Visitor(guest: Guest)
  {
    function Kind(): (k: UserType)
      ensures k == RegularUser <==> Regular?
      ensures k == TemporaryUser <==> Temporary?
      ensures k == GuestUser <==> Visitor?
    {
      match this
      case Regular(_) => RegularUser
      case Temporary(_) => TemporaryUser
      case Visitor(_) => GuestUser
    }

    function FirstName(): string {
      match this
      case Regular(s) => s.firstName
      case Temporary(t) => t.firstName
      case Visitor(g) => g.firstName
    }

    function LastName(): string {
      match this
      case Regular(s) => s.lastName
      case Temporary(t) => t.lastName
      case Visitor(g) => g.lastName
    }

    /** f"{first_name} {last_name}". */
    function DisplayName(): (n: string)
      ensures ' ' in n
    {
      assert (FirstName() + " " + LastName())[|FirstName()|] == ' ';
      FirstName() + " " + LastName()
    }

    /** The scanned code that names this person: student_id for students, guest_id for guests. */
    function Code(): string {
      match this
      case Regular(s) => s.studentId
      case Temporary(t) => t.studentId
      case Visitor(g) => g.guestId
    }
  }

  /** AccessLog.USER_TYPES. */
  datatype UserType = RegularUser | TemporaryUser | GuestUser

  /** The three identity tables, in row order. */
  datatype Registry = Registry(regulars: seq<RegularStudent>, temporaries: seq<TemporaryStudent>, guests: seq<Guest>)

  /** The unique=True constraints: no two rows of one table share a code. */
  ghost predicate RegistryValid(reg: Registry) {
    && (forall i, j :: 0 <= i < j < |reg.regulars| ==> reg.regulars[i].studentId != reg.regulars[j].studentId)
    && (forall i, j :: 0 <= i < j < |reg.temporaries| ==> reg.temporaries[i].studentId != reg.temporaries[j].studentId)
    && (forall i, j :: 0 <= i < j < |reg.guests| ==> reg.guests[i].guestId != reg.guests[j].guestId)
  }

  predicate InRegistry(reg: Registry, u: Identity) {
    match u
    case Regular(s) => s in reg.regulars
    case Temporary(t) => t in reg.temporaries
    case Visitor(g) => g in reg.guests
  }

  // ---------------------------------------------------------------------------
  // BaseStudent.save and year_batch
  // ---------------------------------------------------------------------------

  /** The year_batch property: the graduation year. */
  function YearBatch(yearJoined: int): int {
    yearJoined + 3
  }

  /** The year written into a student id is the graduation year year_batch, modulo 100. */
  lemma YearPartIsBatch(yearJoined: int)
    requires YearBatch(yearJoined) >= 10
    ensures ParseInt(YearPart(yearJoined)) == Some(YearBatch(yearJoined) % 100)
  {
    YearPartValue(yearJoined, YearBatch(yearJoined));
  }

  /** Python falsiness of a nullable integer: None and 0 both count as unset. */
  predicate IsUnset(v: Option<int>) {
    v.None? || v == Some(0)
  }

  /** year_completed after BaseStudent.save: filled with the graduation year only when it is unset and year_joined is non-zero. */
  function CompletedOnSave(yearJoined: int, yearCompleted: Option<int>): (r: Option<int>)
    ensures !IsUnset(yearCompleted) ==> r == yearCompleted
    ensures yearJoined == 0 ==> r == yearCompleted
    ensures yearJoined != 0 && IsUnset(yearCompleted) ==> r == Some(YearBatch(yearJoined))
  {
    if yearJoined != 0 && IsUnset(yearCompleted) then Some(yearJoined + 3) else yearCompleted
  }

  /** Saving again changes nothing more. */
  lemma CompletedOnSaveIdempotent(yearJoined: int, yearCompleted: Option<int>)
    ensures CompletedOnSave(yearJoined, CompletedOnSave(yearJoined, yearCompleted)) == CompletedOnSave(yearJoined, yearCompleted)
  {
  }

  // ---------------------------------------------------------------------------
  // RegularStudent.save and TemporaryStudent.save (id, year and flag logic)
  // ---------------------------------------------------------------------------

  /** A student without an id needs both names to build the initials. */
  predicate CanSaveStudent(studentId: string, firstName: string, lastName: string) {
    studentId != "" || (|firstName| > 0 && |lastName| > 0)
  }

  /** The id a student keeps or gets on save: an existing one is never regenerated. */
  function IdOnSave(studentId: string, firstName: string, lastName: string, yearJoined: int,
                    kind: StudentKind, rows: seq<StudentRow>): (id: string)
    requires CanSaveStudent(studentId, firstName, lastName)
    ensures studentId != "" ==> id == studentId
    ensures studentId == "" ==> id == GenerateStudentId(firstName, lastName, yearJoined, kind, rows)
    ensures id != ""
  {
    if studentId != "" then studentId else GenerateStudentId(firstName, lastName, yearJoined, kind, rows)
  }

  /** RegularStudent.save, given the same-year regular students already stored. */
  function SavedRegular(s: RegularStudent, rows: seq<StudentRow>): (r: RegularStudent)
    requires CanSaveStudent(s.studentId, s.firstName, s.lastName)
    ensures r.studentId == IdOnSave(s.studentId, s.firstName, s.lastName, s.yearJoined, RegularKind, rows)
    ensures r.yearCompleted == CompletedOnSave(s.yearJoined, s.yearCompleted)
    ensures r.(studentId := s.studentId, yearCompleted := s.yearCompleted) == s
  {
    s.(studentId := IdOnSave(s.studentId, s.firstName, s.lastName, s.yearJoined, RegularKind, rows),
       yearCompleted := CompletedOnSave(s.yearJoined, s.yearCompleted))
  }

  /** is_active after TemporaryStudent.save: cleared once valid_until has passed, never set back. */
  function ActiveOnSave(isActive: bool, validUntil: Timestamp, now: Timestamp): (r: bool)
    ensures r <==> isActive && now <= validUntil
  {
    if validUntil < now then false else isActive
  }

  /** TemporaryStudent.save at `now`, given the same-year temporary students already stored. */
  function SavedTemporary(t: TemporaryStudent, rows: seq<StudentRow>, now: Timestamp): (r: TemporaryStudent)
    requires CanSaveStudent(t.studentId, t.firstName, t.lastName)
    ensures r.studentId == IdOnSave(t.studentId, t.firstName, t.lastName, t.yearJoined, TemporaryKind, rows)
    ensures r.yearCompleted == CompletedOnSave(t.yearJoined, t.yearCompleted)
    ensures r.isActive == ActiveOnSave(t.isActive, t.validUntil, now)
    ensures r.(studentId := t.studentId, yearCompleted := t.yearCompleted, isActive := t.isActive) == t
  {
    t.(studentId := IdOnSave(t.studentId, t.firstName, t.lastName, t.yearJoined, TemporaryKind, rows),
       yearCompleted := CompletedOnSave(t.yearJoined, t.yearCompleted),
       isActive := ActiveOnSave(t.isActive, t.validUntil, now))
  }

  // ---------------------------------------------------------------------------
  // TemporaryStudent.status and is_valid
  // ---------------------------------------------------------------------------

  /** valid_from <= now <= valid_until, both ends included. */
  predicate InValidityWindow(t: TemporaryStudent, now: Timestamp) {
    t.validFrom <= now <= t.validUntil
  }

  /** The status property: "Active" inside the window, "Expired" otherwise, whatever is_active says. */
  function Status(t: TemporaryStudent, now: Timestamp): (r: string)
    ensures r == "Active" || r == "Expired"
    ensures r == "Active" <==> InValidityWindow(t, now)
  {
    if t.validFrom <= now <= t.validUntil then "Active" else "Expired"
  }

  /** is_valid(): active and inside the window. */
  predicate IsValid(t: TemporaryStudent, now: Timestamp) {
    t.isActive && t.validFrom <= now <= t.validUntil
  }

  /** is_valid() is is_active together with status == "Active". */
  lemma ValidIsActiveAndStatus(t: TemporaryStudent, now: Timestamp)
    ensures IsValid(t, now) <==> t.isActive && Status(t, now) == "Active"
  {
  }

  /** A temporary student saved after valid_until is never valid again, at any instant. */
  lemma SavedAfterExpiryNeverValid(t: TemporaryStudent, rows: seq<StudentRow>, now: Timestamp, later: Timestamp)
    requires CanSaveStudent(t.studentId, t.firstName, t.lastName)
    requires t.validUntil < now
    ensures !IsValid(SavedTemporary(t, rows, now), later)
  {
  }

  // ---------------------------------------------------------------------------
  // Guest.generate_guest_id and Guest.save
  // ---------------------------------------------------------------------------

  predicate IsLowerHex(c: char) {
    '0' <= c <= '9' || 'a' <= c <= 'f'
  }

  predicate IsUpperHex(c: char) {
    '0' <= c <= '9' || 'A' <= c <= 'F'
  }

  /** uuid4().hex: 32 lower-case hexadecimal digits. */
  predicate IsUuidHex(h: string) {
    |h| == 32 && forall i :: 0 <= i < |h| ==> IsLowerHex(h[i])
  }

  /** f"GUEST-{uuid4().hex[:8].upper()}", the uuid supplied as its hex string. */
  function GenerateGuestId(uuidHex: string): (id: string)
    requires IsUuidHex(uuidHex)
    ensures |id| == 14
    ensures id[..6] == "GUEST-"
    ensures forall i :: 6 <= i < 14 ==> IsUpperHex(id[i])
    ensures id[6..] == Upper(uuidHex[..8])
  {
    var id := "GUEST-" + Upper(uuidHex[..8]);
    assert id[6..] == Upper(uuidHex[..8]);
    id
  }

  /** Guest.save: an existing guest_id is kept, an empty one is generated. */
  function SavedGuest(g: Guest, uuidHex: string): (r: Guest)
    requires IsUuidHex(uuidHex)
    ensures g.guestId != "" ==> r.guestId == g.guestId
    ensures g.guestId == "" ==> r.guestId == GenerateGuestId(uuidHex)
    ensures r.guestId != ""
    ensures r.(guestId := g.guestId) == g
  {
    if g.guestId != "" then g else g.(guestId := GenerateGuestId(uuidHex))
  }

  /** Generated guest ids ("GUEST-...") and generated student ids ("PRPC...") never coincide. */
  lemma GuestIdsAreNotStudentIds(uuidHex: string, firstName: string, lastName: string, yearJoined: int,
                                 kind: StudentKind, rows: seq<StudentRow>)
    requires IsUuidHex(uuidHex)
    requires |firstName| > 0 && |lastName| > 0
    ensures GenerateGuestId(uuidHex) != GenerateStudentId(firstName, lastName, yearJoined, kind, rows)
  {
    var g := GenerateGuestId(uuidHex);
    var s := GenerateStudentId(firstName, lastName, yearJoined, kind, rows);
    assert g[0] == g[..6][0] == 'G';
    assert s[0] == s[..4][0] == 'P';
  }

  // ---------------------------------------------------------------------------
  // AccessLog and LabSession
  // ---------------------------------------------------------------------------

  /** AccessLog.LOG_TYPES. */
  datatype LogType = Entry | Exit

  /** One row of AccessLog; user_type is user.Kind(). paired_log is never written and is not kept. */
  datatype AccessLog = AccessLog(user: Identity, logType: LogType, timestamp: Timestamp,
                                 recordedBy: Operator, sessionId: Option<Token>)

  /** One row of LabSession; entryLog and exitLog are positions in the log table. */
  datatype LabSession = LabSession(user: Identity, entryTime: Timestamp, exitTime: Option<Timestamp>,
                                   duration: Option<int>, entryLog: nat, exitLog: Option<nat>)

  /** LabSession.save: duration is exit_time - entry_time once both are present, and left alone otherwise. */
  function SessionOnSave(s: LabSession): (r: LabSession)
    ensures s.exitTime.Some? ==> r.duration == Some(s.exitTime.value - s.entryTime)
    ensures s.exitTime.None? ==> r.duration == s.duration
    ensures r.(duration := s.duration) == s
  {
    if s.exitTime.Some? then s.(duration := Some(s.exitTime.value - s.entryTime)) else s
  }

  /** The three nullable foreign keys (regular_student, temporary_student, guest) of a log or session row. */
  datatype UserRefs = UserRefs(regularStudent: Option<RegularStudent>, temporaryStudent: Option<TemporaryStudent>,
                               guest: Option<Guest>)

  /** The foreign keys the scan engine sets for a person: exactly the one of its kind. */
  function RefsOf(u: Identity): UserRefs {
    match u
    case Regular(s) => UserRefs(Some(s), None, None)
    case Temporary(t) => UserRefs(None, Some(t), None)
    case Visitor(g) => UserRefs(None, None, Some(g))
  }

  /** AccessLog.get_user_name: the first reference set, in the order regular, temporary, guest. */
  function GetUserName(refs: UserRefs): (r: string)
    ensures r == "Unknown" <==> refs.regularStudent.None? && refs.temporaryStudent.None? && refs.guest.None?
    ensures refs.regularStudent.Some? ==> r == Regular(refs.regularStudent.value).DisplayName()
    ensures refs.regularStudent.None? && refs.temporaryStudent.Some? ==> r == Temporary(refs.temporaryStudent.value).DisplayName()
    ensures refs.regularStudent.None? && refs.temporaryStudent.None? && refs.guest.Some? ==>
      r == Visitor(refs.guest.value).DisplayName()
  {
    if refs.regularStudent.Some? then Regular(refs.regularStudent.value).DisplayName()
    else if refs.temporaryStudent.Some? then Temporary(refs.temporaryStudent.value).DisplayName()
    else if refs.guest.Some? then Visitor(refs.guest.value).DisplayName()
    else "Unknown"
  }

  /** AccessLog.get_user_id: the same order, None when no reference is set. */
  function GetUserId(refs: UserRefs): (r: Option<string>)
    ensures r.None? <==> refs.regularStudent.None? && refs.temporaryStudent.None? && refs.guest.None?
    ensures refs.regularStudent.Some? ==> r == Some(refs.regularStudent.value.studentId)
    ensures refs.regularStudent.None? && refs.temporaryStudent.Some? ==> r == Some(refs.temporaryStudent.value.studentId)
    ensures refs.regularStudent.None? && refs.temporaryStudent.None? && refs.guest.Some? ==> r == Some(refs.guest.value.guestId)
  {
    if refs.regularStudent.Some? then Some(refs.regularStudent.value.studentId)
    else if refs.temporaryStudent.Some? then Some(refs.temporaryStudent.value.studentId)
    else if refs.guest.Some? then Some(refs.guest.value.guestId)
    else None
  }

  /** A log written by the scan engine names its person as the scan result did. */
  lemma LogNamesItsPerson(u: Identity)
    ensures GetUserName(RefsOf(u)) == u.DisplayName()
    ensures GetUserId(RefsOf(u)) == Some(u.Code())
  {
  }
}
