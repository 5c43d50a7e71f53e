/** Landing the weekly DUSA imports (app/features/ingest/service.py), from parsed reports on. */
module IngestService {
  import opened Basics

  // ---- The tables ----

  /** The roster fields a report row sets on a member. */
  datatype Info = Info(fullName: Option<string>, email: Option<string>, campus: Option<string>,
                       faculty: Option<string>, paymentOption: Option<string>, membershipType: Option<string>,
                       dusaMember: bool, firstSubscription: Option<int>, lastPaid: Option<int>, endDate: Option<int>)

  datatype Record = Record(studentId: Option<string>, info: Info)

  datatype Member = Member(isCurrent: bool, info: Info)

  type Roster = map<string, Member>

  datatype Kind = Membership | Pnl

  /** Ingested is the status "ok". */
  datatype Status = Ingested | Failed | NeedsReview

  /** What an upload says about its message. */
  datatype Envelope = Envelope(filename: Option<string>, sender: Option<string>, subject: Option<string>,
                               receivedAt: Option<int>)

  /** A `dusa_import` row, keyed by its unique message id. */
  datatype Import = Import(kind: Kind, status: Status, rows: Option<nat>, envelope: Envelope)

  datatype MemberReport = MemberReport(messageId: string, total: nat)

  datatype FinanceReport = FinanceReport(messageId: string, isCurrent: bool, lines: nat)

  datatype Store = Store(imports: map<string, Import>, roster: Roster,
                         memberReports: seq<MemberReport>, financeReports: seq<FinanceReport>)

  /** A parsed workbook; None is a parse error. A report's total is its number of records, named or not. */
  datatype Parsed = Members(records: Option<seq<Record>>) | Ledger(lines: Option<nat>)

  datatype Upload = Upload(messageId: string, envelope: Envelope, parsed: Parsed, overrideGuard: bool)

  /** Conflict is the unique violation that rolls the whole transaction back. */
  datatype Outcome = Duplicate | ParseError | RosterRejected | Conflict | Accepted(rows: nat)

  // ---- The roster guard ----

  /** `_roster_guard_reason` is not None: the report is empty, or fell below four fifths without the override. */
  predicate GuardRefuses(reports: seq<MemberReport>, incoming: nat, overrideGuard: bool) {
    || incoming == 0
    || (!overrideGuard && |reports| > 0 && 5 * incoming < 4 * reports[|reports| - 1].total)
  }

  // ---- Replacing the roster ----

  predicate Named(r: Record) {
    r.studentId.Some? && r.studentId.value != ""
  }

  function SweepCurrent(roster: Roster): Roster {
    map sid | sid in roster :: roster[sid].(isCurrent := false)
  }

  function Upsert(roster: Roster, r: Record): Roster {
    if Named(r) then roster[r.studentId.value := Member(true, r.info)] else roster
  }

  function UpsertAll(roster: Roster, records: seq<Record>): Roster {
    if |records| == 0 then roster
    else Upsert(UpsertAll(roster, records[..|records| - 1]), records[|records| - 1])
  }

  /** The same new student id twice: the lookup does not see the pending insert, so a second row is inserted. */
  predicate RepeatsNewId(roster: Roster, records: seq<Record>) {
    exists i, j :: 0 <= i < j < |records| && Named(records[i]) && records[i].studentId == records[j].studentId
                   && records[i].studentId.value !in roster
  }

  function IdsOf(records: seq<Record>): set<string> {
    set i | 0 <= i < |records| && Named(records[i]) :: records[i].studentId.value
  }

  function CurrentOf(roster: Roster): set<string> {
    set sid | sid in roster && roster[sid].isCurrent
  }

  // ---- `handle_dusa_upload` ----

  function Superseded(reports: seq<FinanceReport>): seq<FinanceReport> {
    seq(|reports|, i requires 0 <= i < |reports| => reports[i].(isCurrent := false))
  }

  function Handle(st: Store, u: Upload): (Store, Outcome) {
    var m := u.messageId;
    if m in st.imports && st.imports[m].status == Ingested then (st, Duplicate)
    else if u.parsed.Members? then
      if u.parsed.records.None? then
        (st.(imports := st.imports[m := Import(Membership, Failed, None, u.envelope)]), ParseError)
      else
        var records := u.parsed.records.value;
        if GuardRefuses(st.memberReports, |records|, u.overrideGuard) then
          (st.(imports := st.imports[m := Import(Membership, NeedsReview, Some(0), u.envelope)]), RosterRejected)
        else if RepeatsNewId(st.roster, records) then (st, Conflict)
        else
          (st.(imports := st.imports[m := Import(Membership, Ingested, Some(|records|), u.envelope)],
               roster := UpsertAll(SweepCurrent(st.roster), records),
               memberReports := st.memberReports + [MemberReport(m, |records|)]),
           Accepted(|records|))
    else if u.parsed.lines.None? then
      (st.(imports := st.imports[m := Import(Pnl, Failed, None, u.envelope)]), ParseError)
    else
      var lines := u.parsed.lines.value;
      (st.(imports := st.imports[m := Import(Pnl, Ingested, Some(lines), u.envelope)],
           financeReports := Superseded(st.financeReports) + [FinanceReport(m, true, lines)]),
       Accepted(lines))
  }

  function Run(st: Store, uploads: seq<Upload>): Store {
    if |uploads| == 0 then st
    else Handle(Run(st, uploads[..|uploads| - 1]), uploads[|uploads| - 1]).0
  }

  const EMPTY: Store := Store(map[], map[], [], [])

  // ---- The tables, updated in place ----

  class DusaTables {
    var imports: map<string, Import>
    var roster: Roster
    var memberReports: seq<MemberReport>
    var financeReports: seq<FinanceReport>

    function State(): Store
      reads this
    {
      Store(imports, roster, memberReports, financeReports)
    }

    constructor ()
      ensures State() == EMPTY
    {
      imports, roster, memberReports, financeReports := map[], map[], [], [];
    }

    /** `_ingest_membership` after the guard: sweep, then turn the rows of this report back on. */
    method IngestMembership(records: seq<Record>) returns (committed: bool)
      modifies this`roster
      ensures committed == !RepeatsNewId(old(roster), records)
      ensures committed ==> roster == UpsertAll(SweepCurrent(old(roster)), records)
    {
      ghost var before := roster;
      roster := SweepCurrent(roster);
      // rows added to the session are not visible to the lookup until the flush at commit
      var stored := roster.Keys;
      var pending: set<string> := {};
      committed := true;
      for i := 0 to |records|
        invariant roster == UpsertAll(SweepCurrent(before), records[..i])
        invariant pending == IdsOf(records[..i]) - before.Keys
        invariant committed == !RepeatsNewId(before, records[..i])
        invariant stored == before.Keys
      {
        OneMoreRecord(before, records, i);
        if Named(records[i]) {
          var sid := records[i].studentId.value;
          if sid !in stored {
            if sid in pending {
              committed := false;
            }
            pending := pending + {sid};
          }
          roster := roster[sid := Member(true, records[i].info)];
        }
      }
      assert records[..|records|] == records;
    }

    method HandleUpload(u: Upload) returns (outcome: Outcome)
      modifies this
      ensures (State(), outcome) == Handle(old(State()), u)
    {
      var m := u.messageId;
      if m in imports && imports[m].status == Ingested {
        return Duplicate;
      }
      match u.parsed
      case Members(parse) =>
        if parse.None? {
          imports := imports[m := Import(Membership, Failed, None, u.envelope)];
          return ParseError;
        }
        var records := parse.value;
        if GuardRefuses(memberReports, |records|, u.overrideGuard) {
          imports := imports[m := Import(Membership, NeedsReview, Some(0), u.envelope)];
          return RosterRejected;
        }
        var savepoint := roster;
        var committed := IngestMembership(records);
        if !committed {
          roster := savepoint;
          return Conflict;
        }
        imports := imports[m := Import(Membership, Ingested, Some(|records|), u.envelope)];
        memberReports := memberReports + [MemberReport(m, |records|)];
        outcome := Accepted(|records|);
      case Ledger(parse) =>
        if parse.None? {
          imports := imports[m := Import(Pnl, Failed, None, u.envelope)];
          return ParseError;
        }
        financeReports := Superseded(financeReports) + [FinanceReport(m, true, parse.value)];
        imports := imports[m := Import(Pnl, Ingested, Some(parse.value), u.envelope)];
        outcome := Accepted(parse.value);
    }
  }

  lemma IdsSnoc(records: seq<Record>, r: Record)
    ensures IdsOf(records + [r]) == IdsOf(records) + if Named(r) then {r.studentId.value} else {}
  {
    var all := records + [r];
    forall sid | sid in IdsOf(records) + if Named(r) then {r.studentId.value} else {}
      ensures sid in IdsOf(all)
    {
      if sid in IdsOf(records) {
        var i :| 0 <= i < |records| && Named(records[i]) && records[i].studentId.value == sid;
        assert all[i] == records[i];
      } else {
        assert all[|records|] == r;
      }
    }
  }

  lemma RepeatsSnoc(roster: Roster, records: seq<Record>, r: Record)
    ensures RepeatsNewId(roster, records + [r]) <==>
            RepeatsNewId(roster, records)
            || (Named(r) && r.studentId.value !in roster && r.studentId.value in IdsOf(records))
  {
    var all := records + [r];
    if RepeatsNewId(roster, records) {
      var i, j :| 0 <= i < j < |records| && Named(records[i]) && records[i].studentId == records[j].studentId
                  && records[i].studentId.value !in roster;
      assert all[i] == records[i] && all[j] == records[j];
    }
    if Named(r) && r.studentId.value !in roster && r.studentId.value in IdsOf(records) {
      var i :| 0 <= i < |records| && Named(records[i]) && records[i].studentId.value == r.studentId.value;
      assert all[i] == records[i] && all[|records|] == r;
    }
  }

  lemma OneMoreRecord(roster: Roster, records: seq<Record>, i: nat)
    requires i < |records|
    ensures var r := records[i];
            && UpsertAll(SweepCurrent(roster), records[..i + 1])
               == Upsert(UpsertAll(SweepCurrent(roster), records[..i]), r)
            && IdsOf(records[..i + 1]) == IdsOf(records[..i]) + (if Named(r) then {r.studentId.value} else {})
            && (RepeatsNewId(roster, records[..i + 1]) <==>
                RepeatsNewId(roster, records[..i])
                || (Named(r) && r.studentId.value !in roster && r.studentId.value in IdsOf(records[..i])))
  {
    assert records[..i + 1] == records[..i] + [records[i]];
    assert records[..i + 1][..i] == records[..i];
    IdsSnoc(records[..i], records[i]);
    RepeatsSnoc(roster, records[..i], records[i]);
  }

  // ---- What an accepted report does to the roster ----

  /** Row i is the last one of a student. */
  ghost predicate LastRow(records: seq<Record>, sid: string, i: int) {
    && 0 <= i < |records| && records[i].studentId == Some(sid)
    && forall j :: i < j < |records| ==> records[j].studentId != Some(sid)
  }

  lemma LastRowSnoc(records: seq<Record>, sid: string, i: int)
    requires |records| > 0 && LastRow(records[..|records| - 1], sid, i) && records[|records| - 1].studentId != Some(sid)
    ensures LastRow(records, sid, i) && records[i] == records[..|records| - 1][i]
  {
  }

  lemma {:induction false} UpsertAllMeaning(roster: Roster, records: seq<Record>)
    ensures UpsertAll(roster, records).Keys == roster.Keys + IdsOf(records)
    ensures forall sid :: sid in roster && sid !in IdsOf(records) ==> UpsertAll(roster, records)[sid] == roster[sid]
    ensures forall sid :: sid in IdsOf(records) ==>
              exists i :: LastRow(records, sid, i) && UpsertAll(roster, records)[sid] == Member(true, records[i].info)
  {
    if |records| > 0 {
      var n := |records| - 1;
      UpsertAllMeaning(roster, records[..n]);
      IdsSnoc(records[..n], records[n]);
      assert records == records[..n] + [records[n]];
      forall sid | sid in IdsOf(records)
        ensures exists i :: LastRow(records, sid, i) && UpsertAll(roster, records)[sid] == Member(true, records[i].info)
      {
        if records[n].studentId == Some(sid) {
          assert Named(records[n]) && LastRow(records, sid, n);
        } else {
          var i :| LastRow(records[..n], sid, i)
                   && UpsertAll(roster, records[..n])[sid] == Member(true, records[..n][i].info);
          LastRowSnoc(records, sid, i);
        }
      }
    }
  }

  /**
   * The whole effect of an upload on the roster: an accepted membership report makes the current members
   * exactly its student ids and deletes no one; every other outcome leaves the roster identical.
   */
  lemma RosterAfterUpload(st: Store, u: Upload)
    ensures var (after, outcome) := Handle(st, u);
            if outcome.Accepted? && u.parsed.Members? then
              && CurrentOf(after.roster) == IdsOf(u.parsed.records.value)
              && after.roster.Keys == st.roster.Keys + IdsOf(u.parsed.records.value)
              && (forall sid :: sid in st.roster && sid !in IdsOf(u.parsed.records.value) ==>
                    after.roster[sid] == st.roster[sid].(isCurrent := false))
            else after.roster == st.roster && after.memberReports == st.memberReports
  {
    var (after, outcome) := Handle(st, u);
    if outcome.Accepted? && u.parsed.Members? {
      UpsertAllMeaning(SweepCurrent(st.roster), u.parsed.records.value);
    }
  }

  /** The last membership report of a run that was accepted. */
  function LastAccepted(st: Store, uploads: seq<Upload>): Option<seq<Record>> {
    if |uploads| == 0 then None
    else
      var n := |uploads| - 1;
      if uploads[n].parsed.Members? && Handle(Run(st, uploads[..n]), uploads[n]).1.Accepted?
      then uploads[n].parsed.records else LastAccepted(st, uploads[..n])
  }

  /** The outcome of a membership report that parsed and was not ingested before, and the import it leaves. */
  lemma ReportOutcome(st: Store, u: Upload)
    requires !(u.messageId in st.imports && st.imports[u.messageId].status == Ingested)
    requires u.parsed.Members? && u.parsed.records.Some?
    ensures var (after, outcome) := Handle(st, u);
            var n, reports := |u.parsed.records.value|, st.memberReports;
            var fell := |reports| > 0 && n as real < 0.8 * reports[|reports| - 1].total as real;
            && (outcome == RosterRejected <==> n == 0 || (!u.overrideGuard && fell))
            && (outcome == Conflict <==> outcome != RosterRejected && RepeatsNewId(st.roster, u.parsed.records.value))
            && (outcome.Accepted? <==> outcome != RosterRejected && outcome != Conflict)
            && (outcome == RosterRejected ==>
                  var rejected := Import(Membership, NeedsReview, Some(0), u.envelope);
                  after == st.(imports := st.imports[u.messageId := rejected]))
            && (outcome == Conflict ==> after == st)
            && (outcome.Accepted? ==>
                  && outcome.rows == n && after.memberReports == reports + [MemberReport(u.messageId, n)]
                  && after.imports == st.imports[u.messageId := Import(Membership, Ingested, Some(n), u.envelope)]
                  && after.financeReports == st.financeReports)
  {
  }

  /** The other outcomes: a message ingested before changes nothing, a parse error only records its import. */
  lemma OtherOutcomes(st: Store, u: Upload)
    ensures var (after, outcome) := Handle(st, u);
            var ingested := u.messageId in st.imports && st.imports[u.messageId].status == Ingested;
            var kind := if u.parsed.Members? then Membership else Pnl;
            var failed := if u.parsed.Members? then u.parsed.records.None? else u.parsed.lines.None?;
            && (outcome == Duplicate <==> ingested) && (ingested ==> after == st)
            && (outcome == ParseError <==> !ingested && failed)
            && (outcome == ParseError ==>
                  after == st.(imports := st.imports[u.messageId := Import(kind, Failed, None, u.envelope)]))
            && (!ingested && !failed && u.parsed.Ledger? ==>
                  && outcome == Accepted(u.parsed.lines.value)
                  && after.imports
                     == st.imports[u.messageId := Import(Pnl, Ingested, Some(u.parsed.lines.value), u.envelope)]
                  && |after.financeReports| == |st.financeReports| + 1
                  && after.financeReports[|st.financeReports|]
                     == FinanceReport(u.messageId, true, u.parsed.lines.value)
                  && (forall i :: 0 <= i < |st.financeReports| ==>
                        after.financeReports[i] == st.financeReports[i].(isCurrent := false))
                  && after.roster == st.roster && after.memberReports == st.memberReports)
  {
  }

  /** After an accepted report a student is current exactly when some row carries their id and it is not empty. */
  lemma CurrentExactly(st: Store, u: Upload, sid: string)
    requires u.parsed.Members? && Handle(st, u).1.Accepted?
    ensures sid in CurrentOf(Handle(st, u).0.roster) <==>
            var records := u.parsed.records.value;
            sid != "" && exists i :: 0 <= i < |records| && records[i].studentId == Some(sid)
  {
    RosterAfterUpload(st, u);
  }

  /** Over any run of uploads the roster is what the last accepted report says: failures and refusals leave no trace. */
  lemma {:induction false} CurrentIsLastReport(st: Store, uploads: seq<Upload>)
    ensures LastAccepted(st, uploads).Some? ==>
              CurrentOf(Run(st, uploads).roster) == IdsOf(LastAccepted(st, uploads).value)
    ensures LastAccepted(st, uploads).None? ==> Run(st, uploads).roster == st.roster
    ensures st.roster.Keys <= Run(st, uploads).roster.Keys
  {
    if |uploads| > 0 {
      var n := |uploads| - 1;
      CurrentIsLastReport(st, uploads[..n]);
      RosterAfterUpload(Run(st, uploads[..n]), uploads[n]);
    }
  }

  // ---- The import state machine ----

  predicate IsOk(imports: map<string, Import>, m: string, kind: Kind) {
    m in imports && imports[m].status == Ingested && imports[m].kind == kind
  }

  /** The reports' message ids are exactly the ok imports of their kind, each once. */
  ghost predicate Corresponds(imports: map<string, Import>, ids: seq<string>, kind: Kind) {
    && (forall i, j :: 0 <= i < j < |ids| ==> ids[i] != ids[j])
    && (forall m :: m in ids <==> IsOk(imports, m, kind))
  }

  function MemberIds(st: Store): seq<string> {
    seq(|st.memberReports|, i requires 0 <= i < |st.memberReports| => st.memberReports[i].messageId)
  }

  function FinanceIds(st: Store): seq<string> {
    seq(|st.financeReports|, i requires 0 <= i < |st.financeReports| => st.financeReports[i].messageId)
  }

  ghost predicate OneToOne(st: Store) {
    Corresponds(st.imports, MemberIds(st), Membership) && Corresponds(st.imports, FinanceIds(st), Pnl)
  }

  /** The newest finance report is the current one, and the only one. */
  ghost predicate OneCurrentFinance(st: Store) {
    forall i :: 0 <= i < |st.financeReports| ==> (st.financeReports[i].isCurrent <==> i == |st.financeReports| - 1)
  }

  lemma RecordImport(imports: map<string, Import>, ids: seq<string>, kind: Kind, m: string, imp: Import)
    requires Corresponds(imports, ids, kind) && !(m in imports && imports[m].status == Ingested)
    ensures Corresponds(imports[m := imp], if imp.status == Ingested && imp.kind == kind then ids + [m] else ids, kind)
  {
    assert m !in ids;
    var after, more := imports[m := imp], ids + [m];
    assert forall x :: x in more <==> x in ids || x == m;
    assert forall x :: x != m ==> (IsOk(after, x, kind) <==> IsOk(imports, x, kind));
  }

  lemma UploadKeepsOneToOne(st: Store, u: Upload)
    requires OneToOne(st) && OneCurrentFinance(st)
    ensures OneToOne(Handle(st, u).0) && OneCurrentFinance(Handle(st, u).0)
  {
    var after := Handle(st, u).0;
    var m := u.messageId;
    if after != st {
      RecordImport(st.imports, MemberIds(st), Membership, m, after.imports[m]);
      RecordImport(st.imports, FinanceIds(st), Pnl, m, after.imports[m]);
      if Handle(st, u).1.Accepted? && u.parsed.Members? {
        assert MemberIds(after) == MemberIds(st) + [m];
        assert FinanceIds(after) == FinanceIds(st);
      } else if Handle(st, u).1.Accepted? {
        assert FinanceIds(after) == FinanceIds(st) + [m];
        assert MemberIds(after) == MemberIds(st);
      }
    }
  }

  /**
   * In every run of uploads, ok membership imports and member reports correspond one to one, likewise P&L
   * imports and finance reports, and once there is a finance report exactly the newest is current.
   */
  lemma {:induction false} ImportsInEveryRun(uploads: seq<Upload>)
    ensures OneToOne(Run(EMPTY, uploads)) && OneCurrentFinance(Run(EMPTY, uploads))
  {
    if |uploads| > 0 {
      ImportsInEveryRun(uploads[..|uploads| - 1]);
      UploadKeepsOneToOne(Run(EMPTY, uploads[..|uploads| - 1]), uploads[|uploads| - 1]);
    }
  }

  /** An ok import is absorbing: no run changes it, and uploading its message again changes nothing at all. */
  lemma {:induction false} OkIsAbsorbing(st: Store, uploads: seq<Upload>, m: string)
    requires m in st.imports && st.imports[m].status == Ingested
    ensures m in Run(st, uploads).imports && Run(st, uploads).imports[m] == st.imports[m]
    ensures forall u: Upload :: u.messageId == m ==> Handle(Run(st, uploads), u) == (Run(st, uploads), Duplicate)
  {
    if |uploads| > 0 {
      OkIsAbsorbing(st, uploads[..|uploads| - 1], m);
    }
  }

  // ---- How fast the roster can shrink ----

  function Pow(b: nat, n: nat): nat {
    if n == 0 then 1 else b * Pow(b, n - 1)
  }

  /** total >= (4/5)^n * first */
  predicate AtLeastPower(n: nat, first: nat, total: nat) {
    Pow(5, n) * total >= Pow(4, n) * first
  }

  function LastTotal(st: Store): nat
    requires |st.memberReports| > 0
  {
    st.memberReports[|st.memberReports| - 1].total
  }

  /**
   * With the override off, n further accepted reports leave at least (4/5)^n of the members:
   * 5^n times the new total is at least 4^n times the old.
   */
  lemma {:induction false} ShrinkIsBounded(st: Store, uploads: seq<Upload>)
    requires |st.memberReports| > 0
    requires forall i :: 0 <= i < |uploads| ==> !uploads[i].overrideGuard
    ensures var after := Run(st, uploads);
            |after.memberReports| >= |st.memberReports|
            && AtLeastPower(|after.memberReports| - |st.memberReports|, LastTotal(st), LastTotal(after))
  {
    if |uploads| > 0 {
      ShrinkIsBounded(st, uploads[..|uploads| - 1]);
      ShrinkGoesOn(st, Run(st, uploads[..|uploads| - 1]), uploads[|uploads| - 1]);
    }
  }

  lemma ShrinkGoesOn(st: Store, before: Store, u: Upload)
    requires 0 < |st.memberReports| <= |before.memberReports| && !u.overrideGuard
    requires AtLeastPower(|before.memberReports| - |st.memberReports|, LastTotal(st), LastTotal(before))
    ensures var after := Handle(before, u).0;
            |after.memberReports| >= |st.memberReports|
            && AtLeastPower(|after.memberReports| - |st.memberReports|, LastTotal(st), LastTotal(after))
  {
    UploadShrinks(before, u);
    var after := Handle(before, u).0;
    if after.memberReports != before.memberReports {
      OneMoreReport(|before.memberReports| - |st.memberReports|, LastTotal(st), LastTotal(before), LastTotal(after));
    }
  }

  /** One guarded upload files at most one report, of at least four fifths of the total before. */
  lemma UploadShrinks(st: Store, u: Upload)
    requires |st.memberReports| > 0 && !u.overrideGuard
    ensures var after := Handle(st, u).0;
            after.memberReports == st.memberReports
            || (|after.memberReports| == |st.memberReports| + 1 && 5 * LastTotal(after) >= 4 * LastTotal(st))
  {
  }

  lemma OneMoreReport(n: nat, first: nat, previous: nat, next: nat)
    requires AtLeastPower(n, first, previous) && 5 * next >= 4 * previous
    ensures AtLeastPower(n + 1, first, next)
  {
    var p, q := Pow(5, n), Pow(4, n);
    assert Pow(5, n + 1) == 5 * p && Pow(4, n + 1) == 4 * q;
    assert p * (5 * next) >= p * (4 * previous);
    assert p * (5 * next) == (5 * p) * next && p * (4 * previous) == 4 * (p * previous);
    assert 4 * (q * first) == (4 * q) * first;
  }
}
