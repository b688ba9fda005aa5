/** The database the scanner works against: the three identity tables and the two
    ledger tables, held as sequences in row (primary-key) order, with the first
    save of each kind of person. */
module Store {
  import opened Common
  import opened StudentIds
  import opened Models
  import opened SessionLedger

  /** The rows generate_student_id reads: the stored students of one year, in row order. */
  function RegularRows(rs: seq<RegularStudent>, yearJoined: int): (r: seq<StudentRow>)
    ensures |r| <= |rs|
    ensures forall row :: row in r <==>
      exists s :: s in rs && s.yearJoined == yearJoined && row == StudentRow(s.studentId, s.createdAt)
  {
    if rs == [] then []
    else
      var s := rs[|rs| - 1];
      assert rs == rs[..|rs| - 1] + [s];
      RegularRows(rs[..|rs| - 1], yearJoined)
        + (if s.yearJoined == yearJoined then [StudentRow(s.studentId, s.createdAt)] else [])
  }

  function TemporaryRows(ts: seq<TemporaryStudent>, yearJoined: int): (r: seq<StudentRow>)
    ensures |r| <= |ts|
    ensures forall row :: row in r <==>
      exists t :: t in ts && t.yearJoined == yearJoined && row == StudentRow(t.studentId, t.createdAt)
  {
    if ts == [] then []
    else
      var t := ts[|ts| - 1];
      assert ts == ts[..|ts| - 1] + [t];
      TemporaryRows(ts[..|ts| - 1], yearJoined)
        + (if t.yearJoined == yearJoined then [StudentRow(t.studentId, t.createdAt)] else [])
  }

  /** Every person a log or a session points at is a stored row. */
  ghost predicate LedgerInRegistry(reg: Registry, L: Ledger) {
    && (forall i :: 0 <= i < |L.logs| ==> InRegistry(reg, L.logs[i].user))
    && (forall i :: 0 <= i < |L.sessions| ==> InRegistry(reg, L.sessions[i].user))
  }

  /** The database invariant on values: unique codes, the ledger invariant, and every log and
      session pointing at a stored person. */
  ghost predicate StoreValid(reg: Registry, L: Ledger) {
    RegistryValid(reg) && LedgerValid(L) && LedgerInRegistry(reg, L)
  }

  /** A stored person stays stored when a row is added to any table. */
  lemma GrowingRegistryKeepsLedger(reg: Registry, reg': Registry, L: Ledger)
    requires LedgerInRegistry(reg, L)
    requires reg.regulars <= reg'.regulars && reg.temporaries <= reg'.temporaries && reg.guests <= reg'.guests
    ensures LedgerInRegistry(reg', L)
  {
    forall u | InRegistry(reg, u) ensures InRegistry(reg', u) {
      match u
      case Regular(s) => {
        var i :| 0 <= i < |reg.regulars| && reg.regulars[i] == s;
        assert reg'.regulars[i] == s;
      }
      case Temporary(t) => {
        var i :| 0 <= i < |reg.temporaries| && reg.temporaries[i] == t;
        assert reg'.temporaries[i] == t;
      }
      case Visitor(g) => {
        var i :| 0 <= i < |reg.guests| && reg.guests[i] == g;
        assert reg'.guests[i] == g;
      }
    }
  }

  /** Adding a regular student whose id is not yet taken keeps the database invariant. */
  lemma AddRegularKeepsValid(reg: Registry, L: Ledger, r: RegularStudent)
    requires StoreValid(reg, L)
    requires forall i :: 0 <= i < |reg.regulars| ==> reg.regulars[i].studentId != r.studentId
    ensures StoreValid(reg.(regulars := reg.regulars + [r]), L)
  {
    var rs := reg.regulars + [r];
    forall i, j | 0 <= i < j < |rs| ensures rs[i].studentId != rs[j].studentId {
      assert rs[i] == reg.regulars[i];
      if j < |reg.regulars| { assert rs[j] == reg.regulars[j]; }
    }
    GrowingRegistryKeepsLedger(reg, reg.(regulars := rs), L);
  }

  /** Adding a temporary student whose id is not yet taken keeps the database invariant. */
  lemma AddTemporaryKeepsValid(reg: Registry, L: Ledger, t: TemporaryStudent)
    requires StoreValid(reg, L)
    requires forall i :: 0 <= i < |reg.temporaries| ==> reg.temporaries[i].studentId != t.studentId
    ensures StoreValid(reg.(temporaries := reg.temporaries + [t]), L)
  {
    var ts := reg.temporaries + [t];
    forall i, j | 0 <= i < j < |ts| ensures ts[i].studentId != ts[j].studentId {
      assert ts[i] == reg.temporaries[i];
      if j < |reg.temporaries| { assert ts[j] == reg.temporaries[j]; }
    }
    GrowingRegistryKeepsLedger(reg, reg.(temporaries := ts), L);
  }

  /** Adding a guest whose guest_id is not yet taken keeps the database invariant. */
  lemma AddGuestKeepsValid(reg: Registry, L: Ledger, g: Guest)
    requires StoreValid(reg, L)
    requires forall i :: 0 <= i < |reg.guests| ==> reg.guests[i].guestId != g.guestId
    ensures StoreValid(reg.(guests := reg.guests + [g]), L)
  {
    var gs := reg.guests + [g];
    forall i, j | 0 <= i < j < |gs| ensures gs[i].guestId != gs[j].guestId {
      assert gs[i] == reg.guests[i];
      if j < |reg.guests| { assert gs[j] == reg.guests[j]; }
    }
    GrowingRegistryKeepsLedger(reg, reg.(guests := gs), L);
  }

  class Database {
    var regulars: seq<RegularStudent>
    var temporaries: seq<TemporaryStudent>
    var guests: seq<Guest>
    var logs: seq<AccessLog>
    var sessions: seq<LabSession>

    function Registry(): Models.Registry
      reads this
    {
      Models.Registry(regulars, temporaries, guests)
    }

    function Ledger(): SessionLedger.Ledger
      reads this
    {
      SessionLedger.Ledger(logs, sessions)
    }

    ghost predicate Valid()
      reads this
    {
      StoreValid(Registry(), Ledger())
    }

    /** An empty database. */
    constructor ()
      ensures Valid()
      ensures regulars == [] && temporaries == [] && guests == [] && logs == [] && sessions == []
    {
      regulars, temporaries, guests, logs, sessions := [], [], [], [], [];
    }

    /** RegularStudent.save on a new row: created_at is now, the id and year_completed are filled in,
        and the insert fails (None, nothing written) when the initials are missing or the id is taken. */
    method SaveRegularStudent(s: RegularStudent, now: Timestamp) returns (saved: Option<RegularStudent>)
      requires Valid()
      modifies this`regulars
      ensures Valid()
      ensures !CanSaveStudent(s.studentId, s.firstName, s.lastName) ==> saved.None?
      ensures CanSaveStudent(s.studentId, s.firstName, s.lastName) ==>
        var r := SavedRegular(s.(createdAt := now), RegularRows(old(regulars), s.yearJoined));
        saved == (if (exists i :: 0 <= i < |old(regulars)| && old(regulars)[i].studentId == r.studentId)
                  then None else Some(r))
      ensures saved.Some? ==> regulars == old(regulars) + [saved.value]
      ensures saved.None? ==> regulars == old(regulars)
    {
      if !CanSaveStudent(s.studentId, s.firstName, s.lastName) {
        return None;
      }
      var r := SavedRegular(s.(createdAt := now), RegularRows(regulars, s.yearJoined));
      if exists i :: 0 <= i < |regulars| && regulars[i].studentId == r.studentId {
        return None;
      }
      var before := Registry();
      AddRegularKeepsValid(before, Ledger(), r);
      regulars := regulars + [r];
      assert Registry() == before.(regulars := before.regulars + [r]);
      saved := Some(r);
    }

    /** TemporaryStudent.save on a new row: as for a regular student, and is_active is cleared
        when valid_until has already passed. */
    method SaveTemporaryStudent(t: TemporaryStudent, now: Timestamp) returns (saved: Option<TemporaryStudent>)
      requires Valid()
      modifies this`temporaries
      ensures Valid()
      ensures !CanSaveStudent(t.studentId, t.firstName, t.lastName) ==> saved.None?
      ensures CanSaveStudent(t.studentId, t.firstName, t.lastName) ==>
        var r := SavedTemporary(t.(createdAt := now), TemporaryRows(old(temporaries), t.yearJoined), now);
        saved == (if (exists i :: 0 <= i < |old(temporaries)| && old(temporaries)[i].studentId == r.studentId)
                  then None else Some(r))
      ensures saved.Some? ==> temporaries == old(temporaries) + [saved.value]
      ensures saved.None? ==> temporaries == old(temporaries)
    {
      if !CanSaveStudent(t.studentId, t.firstName, t.lastName) {
        return None;
      }
      var r := SavedTemporary(t.(createdAt := now), TemporaryRows(temporaries, t.yearJoined), now);
      if exists i :: 0 <= i < |temporaries| && temporaries[i].studentId == r.studentId {
        return None;
      }
      var before := Registry();
      AddTemporaryKeepsValid(before, Ledger(), r);
      temporaries := temporaries + [r];
      assert Registry() == before.(temporaries := before.temporaries + [r]);
      saved := Some(r);
    }

    /** Guest.save on a new row, given the hex string of a fresh uuid4; None when the guest_id is taken. */
    method SaveGuest(g: Guest, uuidHex: string, now: Timestamp) returns (saved: Option<Guest>)
      requires Valid()
      requires IsUuidHex(uuidHex)
      modifies this`guests
      ensures Valid()
      ensures var r := SavedGuest(g.(createdAt := now), uuidHex);
        saved == (if (exists i :: 0 <= i < |old(guests)| && old(guests)[i].guestId == r.guestId)
                  then None else Some(r))
      ensures saved.Some? ==> guests == old(guests) + [saved.value]
      ensures saved.None? ==> guests == old(guests)
    {
      var r := SavedGuest(g.(createdAt := now), uuidHex);
      if exists i :: 0 <= i < |guests| && guests[i].guestId == r.guestId {
        return None;
      }
      var before := Registry();
      AddGuestKeepsValid(before, Ledger(), r);
      guests := guests + [r];
      assert Registry() == before.(guests := before.guests + [r]);
      saved := Some(r);
    }
  }
}
