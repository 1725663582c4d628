/**
 * The audit-log service of the patient-records exercise: an in-memory store
 * of access records that grows by one entry per logged view, answers the
 * entries of one patient in insertion order, and answers a filtered copy
 * sorted newest first.
 */
module AuditService {
  import opened Wrappers

  datatype Role = Doctor | Nurse | Admin | Specialist

  datatype Action = View | Edit | Create | Delete

  datatype Patient = Patient(id: string, firstName: string, lastName: string, dateOfBirth: string,
                             medicalRecordNumber: string, insuranceProvider: Option<string>,
                             primaryCarePhysician: Option<string>)

  datatype Provider = Provider(id: string, name: string, role: Role, credentials: Option<string>)

  datatype AuditLog = AuditLog(id: string, patientId: string, providerId: string, providerName: string,
                               providerRole: Role, timestamp: string, actionType: Action, ipAddress: string)

  /** The optional filters of `getAllAuditLogs`; each field may be absent. */
  datatype Filters = Filters(startDate: Option<string>, endDate: Option<string>,
                             providerId: Option<string>, patientId: Option<string>)

  /** JavaScript string order (`<=` on strings): dictionary order, a prefix before its extensions. */
  predicate AtMost(a: string, b: string)
  {
    a == [] || (b != [] && (a[0] < b[0] || (a[0] == b[0] && AtMost(a[1..], b[1..]))))
  }

  /** The entries of `logs` that `keep` accepts, in their order: `Array.prototype.filter`. */
  function Filter(logs: seq<AuditLog>, keep: AuditLog -> bool): seq<AuditLog>
  {
    if logs == [] then []
    else (if keep(logs[0]) then [logs[0]] else []) + Filter(logs[1..], keep)
  }

  /** `log.patientId === patientId`. */
  function PatientIs(patientId: string): AuditLog -> bool
  {
    (log: AuditLog) => log.patientId == patientId
  }

  /** `log.providerId === providerId`. */
  function ProviderIs(providerId: string): AuditLog -> bool
  {
    (log: AuditLog) => log.providerId == providerId
  }

  /** `log.timestamp >= startDate`. */
  function From(startDate: string): AuditLog -> bool
  {
    (log: AuditLog) => AtMost(startDate, log.timestamp)
  }

  /** `log.timestamp <= endDate`. */
  function Until(endDate: string): AuditLog -> bool
  {
    (log: AuditLog) => AtMost(log.timestamp, endDate)
  }

  /** A filter field counts only when it is present and not the empty string, which JavaScript treats as false. */
  predicate Given(field: Option<string>)
  {
    field.Some? && field.value != ""
  }

  /** The four `if (filters?.…)` steps of `getAllAuditLogs`, applied in the source's order. */
  function Select(logs: seq<AuditLog>, filters: Option<Filters>): seq<AuditLog>
  {
    match filters
    case None => logs
    case Some(f) =>
      var a := if Given(f.startDate) then Filter(logs, From(f.startDate.value)) else logs;
      var b := if Given(f.endDate) then Filter(a, Until(f.endDate.value)) else a;
      var c := if Given(f.providerId) then Filter(b, ProviderIs(f.providerId.value)) else b;
      if Given(f.patientId) then Filter(c, PatientIs(f.patientId.value)) else c
  }

  /** Every supplied filter accepts `log`; an absent or empty one imposes nothing. */
  ghost predicate Matches(log: AuditLog, filters: Option<Filters>)
  {
    match filters
    case None => true
    case Some(f) =>
      && (Given(f.startDate) ==> AtMost(f.startDate.value, log.timestamp))
      && (Given(f.endDate) ==> AtMost(log.timestamp, f.endDate.value))
      && (Given(f.providerId) ==> log.providerId == f.providerId.value)
      && (Given(f.patientId) ==> log.patientId == f.patientId.value)
  }

  /**
   * Places `log` after every entry of `sorted` that is at least as recent:
   * one step of a stable sort under the comparator
   * `time(b.timestamp) - time(a.timestamp)`.
   */
  function Place(log: AuditLog, sorted: seq<AuditLog>, time: string -> int): seq<AuditLog>
  {
    if sorted == [] || time(sorted[0].timestamp) < time(log.timestamp) then [log] + sorted
    else [sorted[0]] + Place(log, sorted[1..], time)
  }

  /** The stable newest-first sort of `logs`, taking the entries in input order. */
  function NewestFirst(logs: seq<AuditLog>, time: string -> int): seq<AuditLog>
  {
    if logs == [] then [] else Place(logs[|logs| - 1], NewestFirst(logs[..|logs| - 1], time), time)
  }

  /** No entry is more recent than one before it. */
  ghost predicate Descending(logs: seq<AuditLog>, time: string -> int)
  {
    forall i, j :: 0 <= i < j < |logs| ==> time(logs[j].timestamp) <= time(logs[i].timestamp)
  }

  /** The entries stamped at time `t`. */
  function AtTime(time: string -> int, t: int): AuditLog -> bool
  {
    (log: AuditLog) => time(log.timestamp) == t
  }

  /**
   * The module-level `auditLogs` array and the three exported functions.
   * The clock and the random sources behind `id`, `timestamp` and
   * `ipAddress` are parameters; `time` stands for
   * `new Date(timestamp).getTime()`.
   */
  class AuditStore {
    var auditLogs: seq<AuditLog>

    /** The store starts empty. */
    constructor()
      ensures auditLogs == []
    {
      auditLogs := [];
    }

    /**
     * `logPatientAccess`: builds a view entry for the patient and the
     * provider, appends it and returns it; earlier entries stay as they were.
     */
    method LogPatientAccess(patient: Patient, provider: Provider, id: string, timestamp: string, ipAddress: string)
      returns (auditLog: AuditLog)
      modifies this
      ensures auditLog.id == id && auditLog.timestamp == timestamp && auditLog.ipAddress == ipAddress
      ensures auditLog.patientId == patient.id && auditLog.actionType == View
      ensures auditLog.providerId == provider.id && auditLog.providerName == provider.name
      ensures auditLog.providerRole == provider.role
      ensures auditLogs == old(auditLogs) + [auditLog]
      ensures ForPatient(patient.id) == old(ForPatient(patient.id)) + [auditLog]
    {
      auditLog := AuditLog(id, patient.id, provider.id, provider.name, provider.role, timestamp, View, ipAddress);
      FilterAppend(auditLogs, [auditLog], PatientIs(patient.id));
      auditLogs := auditLogs + [auditLog];
    }

    /** `getAuditLogsForPatient`: the stored entries of one patient, in insertion order. */
    function ForPatient(patientId: string): seq<AuditLog>
      reads this
    {
      Filter(auditLogs, PatientIs(patientId))
    }

    /** `getAllAuditLogs`: a filtered copy of the store, newest first. */
    function AllAuditLogs(filters: Option<Filters>, time: string -> int): seq<AuditLog>
      reads this
    {
      NewestFirst(Select(auditLogs, filters), time)
    }

    /** A patient's entries are exactly the stored entries with that patient id, in stored order. */
    lemma ForPatientSpec(patientId: string, log: AuditLog)
      ensures multiset(ForPatient(patientId))[log] ==
              if log.patientId == patientId then multiset(auditLogs)[log] else 0
      ensures forall i :: 0 <= i < |ForPatient(patientId)| ==> ForPatient(patientId)[i].patientId == patientId
    {
      FilterCount(auditLogs, PatientIs(patientId), log);
      FilterKeeps(auditLogs, PatientIs(patientId));
    }

    /**
     * `getAllAuditLogs` answers each stored entry that every supplied
     * filter accepts, as often as it is stored and no other, newest first,
     * entries of equal time in stored order.
     */
    lemma AllAuditLogsSpec(filters: Option<Filters>, time: string -> int, log: AuditLog, t: int)
      ensures multiset(AllAuditLogs(filters, time))[log] ==
              if Matches(log, filters) then multiset(auditLogs)[log] else 0
      ensures Descending(AllAuditLogs(filters, time), time)
      ensures Filter(AllAuditLogs(filters, time), AtTime(time, t)) ==
              Filter(Select(auditLogs, filters), AtTime(time, t))
    {
      var selected := Select(auditLogs, filters);
      SelectCount(auditLogs, filters, log);
      NewestFirstCount(selected, time);
      NewestFirstDescending(selected, time);
      NewestFirstStable(selected, time, t);
    }
  }

  /** Filtering distributes over concatenation, so it keeps the input order. */
  lemma {:induction false} FilterAppend(xs: seq<AuditLog>, ys: seq<AuditLog>, keep: AuditLog -> bool)
    ensures Filter(xs + ys, keep) == Filter(xs, keep) + Filter(ys, keep)
  {
    if xs == [] {
      assert xs + ys == ys;
    } else {
      assert (xs + ys)[0] == xs[0] && (xs + ys)[1..] == xs[1..] + ys;
      FilterAppend(xs[1..], ys, keep);
    }
  }

  /** Filtering keeps each accepted entry as often as it occurs and drops the others. */
  lemma {:induction false} FilterCount(logs: seq<AuditLog>, keep: AuditLog -> bool, log: AuditLog)
    ensures multiset(Filter(logs, keep))[log] == if keep(log) then multiset(logs)[log] else 0
  {
    if logs != [] {
      FilterCount(logs[1..], keep, log);
      assert logs == [logs[0]] + logs[1..];
    }
  }

  /** Every entry that filtering keeps is accepted. */
  lemma {:induction false} FilterKeeps(logs: seq<AuditLog>, keep: AuditLog -> bool)
    ensures forall i :: 0 <= i < |Filter(logs, keep)| ==> keep(Filter(logs, keep)[i])
  {
    if logs != [] {
      FilterKeeps(logs[1..], keep);
      var head := if keep(logs[0]) then [logs[0]] else [];
      var r := Filter(logs, keep);
      forall i | 0 <= i < |r|
        ensures keep(r[i])
      {
        if i >= |head| {
          assert r[i] == Filter(logs[1..], keep)[i - |head|];
        }
      }
    }
  }

  /** Filtering with a test no entry passes leaves nothing. */
  lemma {:induction false} FilterNone(logs: seq<AuditLog>, keep: AuditLog -> bool)
    requires forall i :: 0 <= i < |logs| ==> !keep(logs[i])
    ensures Filter(logs, keep) == []
  {
    if logs != [] {
      FilterNone(logs[1..], keep);
    }
  }

  /** The selection keeps exactly the entries every supplied filter accepts. */
  lemma SelectCount(logs: seq<AuditLog>, filters: Option<Filters>, log: AuditLog)
    ensures multiset(Select(logs, filters))[log] == if Matches(log, filters) then multiset(logs)[log] else 0
  {
    if filters.Some? {
      var f := filters.value;
      var a := if Given(f.startDate) then Filter(logs, From(f.startDate.value)) else logs;
      var b := if Given(f.endDate) then Filter(a, Until(f.endDate.value)) else a;
      var c := if Given(f.providerId) then Filter(b, ProviderIs(f.providerId.value)) else b;
      if Given(f.startDate) {
        FilterCount(logs, From(f.startDate.value), log);
      }
      if Given(f.endDate) {
        FilterCount(a, Until(f.endDate.value), log);
      }
      if Given(f.providerId) {
        FilterCount(b, ProviderIs(f.providerId.value), log);
      }
      if Given(f.patientId) {
        FilterCount(c, PatientIs(f.patientId.value), log);
      }
    }
  }

  /** The selection keeps the stored order: selecting from a longer store only adds at the end. */
  lemma SelectAppend(xs: seq<AuditLog>, ys: seq<AuditLog>, filters: Option<Filters>)
    ensures Select(xs + ys, filters) == Select(xs, filters) + Select(ys, filters)
  {
    if filters.Some? {
      var f := filters.value;
      var a, a' := xs + ys, xs;
      var a'' := ys;
      if Given(f.startDate) {
        FilterAppend(a', a'', From(f.startDate.value));
        a', a'' := Filter(a', From(f.startDate.value)), Filter(a'', From(f.startDate.value));
      }
      if Given(f.endDate) {
        FilterAppend(a', a'', Until(f.endDate.value));
        a', a'' := Filter(a', Until(f.endDate.value)), Filter(a'', Until(f.endDate.value));
      }
      if Given(f.providerId) {
        FilterAppend(a', a'', ProviderIs(f.providerId.value));
        a', a'' := Filter(a', ProviderIs(f.providerId.value)), Filter(a'', ProviderIs(f.providerId.value));
      }
      if Given(f.patientId) {
        FilterAppend(a', a'', PatientIs(f.patientId.value));
      }
    }
  }

  /** Placing adds exactly the one entry. */
  lemma {:induction false} PlaceCount(log: AuditLog, sorted: seq<AuditLog>, time: string -> int)
    ensures multiset(Place(log, sorted, time)) == multiset(sorted) + multiset{log}
  {
    if sorted != [] && time(log.timestamp) <= time(sorted[0].timestamp) {
      PlaceCount(log, sorted[1..], time);
      assert sorted == [sorted[0]] + sorted[1..];
    }
  }

  /** Dropping the newest entry keeps a sequence newest first. */
  lemma DescendingTail(sorted: seq<AuditLog>, time: string -> int)
    requires sorted != [] && Descending(sorted, time)
    ensures Descending(sorted[1..], time)
  {
    var tail := sorted[1..];
    forall i, j | 0 <= i < j < |tail|
      ensures time(tail[j].timestamp) <= time(tail[i].timestamp)
    {
      assert tail[i] == sorted[i + 1] && tail[j] == sorted[j + 1];
    }
  }

  /** The first entry after placing is the old first entry or the placed one. */
  lemma PlaceHead(log: AuditLog, sorted: seq<AuditLog>, time: string -> int)
    ensures Place(log, sorted, time) != []
    ensures Place(log, sorted, time)[0] == log || (sorted != [] && Place(log, sorted, time)[0] == sorted[0])
  {
  }

  /** Placing into a newest-first sequence keeps it newest first. */
  lemma {:induction false} PlaceDescending(log: AuditLog, sorted: seq<AuditLog>, time: string -> int)
    requires Descending(sorted, time)
    ensures Descending(Place(log, sorted, time), time)
  {
    if sorted != [] && time(log.timestamp) <= time(sorted[0].timestamp) {
      var tail := sorted[1..];
      DescendingTail(sorted, time);
      var rest := Place(log, tail, time);
      PlaceDescending(log, tail, time);
      PlaceHead(log, tail, time);
      assert time(rest[0].timestamp) <= time(sorted[0].timestamp);
      var r := [sorted[0]] + rest;
      forall i, j | 0 <= i < j < |r|
        ensures time(r[j].timestamp) <= time(r[i].timestamp)
      {
        assert r[j] == rest[j - 1];
        if i > 0 {
          assert r[i] == rest[i - 1];
        } else if j > 1 {
          assert time(rest[j - 1].timestamp) <= time(rest[0].timestamp);
        }
      }
    }
  }

  /**
   * Placing is stable: among the entries of one time, the placed entry goes
   * after those already there.
   */
  lemma {:induction false} PlaceStable(log: AuditLog, sorted: seq<AuditLog>, time: string -> int, t: int)
    requires Descending(sorted, time)
    ensures Filter(Place(log, sorted, time), AtTime(time, t)) ==
            Filter(sorted, AtTime(time, t)) + Filter([log], AtTime(time, t))
  {
    var at := AtTime(time, t);
    if sorted == [] {
    } else if time(sorted[0].timestamp) < time(log.timestamp) {
      if time(log.timestamp) == t {
        FilterNone(sorted, at);
      }
      FilterAppend([log], sorted, at);
    } else {
      DescendingTail(sorted, time);
      PlaceStable(log, sorted[1..], time, t);
    }
  }

  /** Sorting keeps exactly the entries, each as often as before. */
  lemma {:induction false} NewestFirstCount(logs: seq<AuditLog>, time: string -> int)
    ensures multiset(NewestFirst(logs, time)) == multiset(logs)
  {
    if logs != [] {
      var init := logs[..|logs| - 1];
      NewestFirstCount(init, time);
      PlaceCount(logs[|logs| - 1], NewestFirst(init, time), time);
      assert logs == init + [logs[|logs| - 1]];
    }
  }

  /** The sorted copy is newest first. */
  lemma {:induction false} NewestFirstDescending(logs: seq<AuditLog>, time: string -> int)
    ensures Descending(NewestFirst(logs, time), time)
  {
    if logs != [] {
      NewestFirstDescending(logs[..|logs| - 1], time);
      PlaceDescending(logs[|logs| - 1], NewestFirst(logs[..|logs| - 1], time), time);
    }
  }

  /** The sort is stable: entries of the same time keep their input order. */
  lemma {:induction false} NewestFirstStable(logs: seq<AuditLog>, time: string -> int, t: int)
    ensures Filter(NewestFirst(logs, time), AtTime(time, t)) == Filter(logs, AtTime(time, t))
  {
    if logs != [] {
      var init := logs[..|logs| - 1];
      var last := logs[|logs| - 1];
      NewestFirstStable(init, time, t);
      NewestFirstDescending(init, time);
      PlaceStable(last, NewestFirst(init, time), time, t);
      FilterAppend(init, [last], AtTime(time, t));
      assert logs == init + [last];
    }
  }

  /** The string order is total: of two strings, one is at most the other. */
  lemma {:induction false} AtMostTotal(a: string, b: string)
    ensures AtMost(a, b) || AtMost(b, a)
  {
    if a != [] && b != [] && a[0] == b[0] {
      AtMostTotal(a[1..], b[1..]);
    }
  }

  /** A string is at most each of its extensions. */
  lemma {:induction false} PrefixAtMost(e: string, t: string)
    requires |e| <= |t| && t[..|e|] == e
    ensures AtMost(e, t)
  {
    if e != [] {
      assert t[1..][..|e| - 1] == e[1..];
      PrefixAtMost(e[1..], t[1..]);
    }
  }

  /** A proper extension of a string is not at most that string. */
  lemma {:induction false} ExtensionAbove(e: string, t: string)
    requires |e| < |t| && t[..|e|] == e
    ensures !AtMost(t, e)
  {
    if e != [] {
      assert t[1..][..|e| - 1] == e[1..];
      ExtensionAbove(e[1..], t[1..]);
    }
  }

  /**
   * Date filters compare strings: with a date "YYYY-MM-DD" as both bounds,
   * an entry stamped later on that same day, "YYYY-MM-DDT…", passes the
   * start filter and fails the end filter.
   */
  lemma SameDay(day: string, log: AuditLog)
    requires day != [] && |day| < |log.timestamp| && log.timestamp[..|day|] == day
    ensures Matches(log, Some(Filters(Some(day), None, None, None)))
    ensures !Matches(log, Some(Filters(None, Some(day), None, None)))
  {
    PrefixAtMost(day, log.timestamp);
    ExtensionAbove(day, log.timestamp);
  }
}
