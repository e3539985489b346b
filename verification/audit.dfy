/** The audit trail of a system: the two repositories
    (`AuditLogRepository`, `SecurityAuditRepository`) and what
    `AuditController` builds on them (date bounds, severity parsing, user
    names, statistics, the list of users). Times are seconds; a calendar
    day is a day number. */
module Audit {
  import opened Common
  import opened Text
  import opened Entities
  import opened Query

  /** An `AuditLog` row. */
  datatype AuditLog = AuditLog(
    userId: Option<Id>,
    systemId: Id,
    action: Option<string>,
    details: Option<string>,
    ip: Option<string>,
    createdAt: int)

  /** `SecurityAudit.Severity`, with the three constants the controller
      names. */
  datatype Severity = Low | Medium | High

  /** A `SecurityAudit` row. */
  datatype SecurityAudit = SecurityAudit(
    userId: Option<Id>,
    systemId: Id,
    severity: Option<Severity>,
    event: Option<string>,
    details: Option<string>,
    createdAt: int)

  // ---------------------------------------------------------------------
  // Text search
  // ---------------------------------------------------------------------

  /** `LOWER(column) LIKE LOWER(CONCAT('%', :search, '%'))`; a null column
      matches nothing. The search text keeps its own `%` and `_`
      wildcards. */
  predicate ColumnMatches(column: Option<string>, search: string) {
    column.Some? && Like(Lower(column.value), "%" + Lower(search) + "%")
  }

  /** Lower-casing adds no wildcard. */
  lemma LowerKeepsNoWildcards(p: string)
    requires NoWildcards(p)
    ensures NoWildcards(Lower(p))
  {
    forall i | 0 <= i < |p|
      ensures !IsWildcard(Lower(p)[i])
    {
      assert !IsWildcard(p[i]);
    }
  }

  /** For a search text without wildcards the match is a case-insensitive
      substring test. */
  lemma ColumnMatchesIsSubstring(column: Option<string>, search: string)
    requires NoWildcards(search)
    ensures ColumnMatches(column, search) <==> column.Some? && Contains(Lower(column.value), Lower(search))
  {
    if column.Some? {
      LowerKeepsNoWildcards(search);
      LikeContains(Lower(column.value), Lower(search));
    }
  }

  /** The search of the log queries: action, details or address. */
  predicate LogHit(a: AuditLog, search: string) {
    ColumnMatches(a.action, search) || ColumnMatches(a.details, search) || ColumnMatches(a.ip, search)
  }

  /** The search of the security queries: event or details. */
  predicate SecurityHit(a: SecurityAudit, search: string) {
    ColumnMatches(a.event, search) || ColumnMatches(a.details, search)
  }

  // ---------------------------------------------------------------------
  // Order
  // ---------------------------------------------------------------------

  /** `ids` ordered by `createdAt`, newest first. */
  predicate NewestFirst(ids: seq<Id>, createdAt: Id -> int) {
    forall i, j :: 0 <= i < j < |ids| ==> createdAt(ids[i]) >= createdAt(ids[j])
  }

  /** `ORDER BY createdAt DESC` over a set of rows; rows with the same time
      stay in id order. */
  function OrderNewest(ids: set<Id>, createdAt: Id -> int): (r: seq<Id>)
    ensures NewestFirst(r, createdAt)
    ensures forall x :: x in r <==> x in ids
    ensures |r| == |ids|
  {
    var xs := SortedKeys(ids);
    var r := SortBy(xs, x => -createdAt(x));
    SameMembers(xs, r);
    assert forall x :: x in r <==> x in ids by {
      forall x | x in r
        ensures x in ids
      {
        var i :| 0 <= i < |r| && r[i] == x;
      }
      forall x | x in ids
        ensures x in r
      {
        assert x in xs;
        var i :| 0 <= i < |xs| && xs[i] == x;
      }
    }
    r
  }

  // ---------------------------------------------------------------------
  // The log queries
  // ---------------------------------------------------------------------

  function LogTime(logs: map<Id, AuditLog>): Id -> int {
    x => if x in logs then logs[x].createdAt else 0
  }

  /** `findBySystemIdOrderByCreatedAtDesc`. */
  function LogsOf(logs: map<Id, AuditLog>, systemId: Id): (r: seq<Id>)
    ensures forall x :: x in r <==> x in logs && logs[x].systemId == systemId
    ensures NewestFirst(r, LogTime(logs))
  {
    OrderNewest((set x | x in logs && logs[x].systemId == systemId), LogTime(logs))
  }

  /** `searchBySystemId`: the system's logs whose action, details or
      address contains the text. */
  function SearchLogs(logs: map<Id, AuditLog>, systemId: Id, search: string): (r: seq<Id>)
    ensures forall x :: x in r <==> x in logs && logs[x].systemId == systemId && LogHit(logs[x], search)
    ensures NewestFirst(r, LogTime(logs))
  {
    OrderNewest((set x | x in logs && logs[x].systemId == systemId && LogHit(logs[x], search)), LogTime(logs))
  }

  /** The optional criteria of the filter queries; `None` is a null
      parameter. */
  datatype Criteria = Criteria(search: Option<string>, from: Option<int>, to: Option<int>, userId: Option<Id>)

  /** No criterion at all. */
  const Everything: Criteria := Criteria(None, None, None, None)

  /** A null or empty search, a null bound and a null user constrain
      nothing; the bounds are inclusive. */
  predicate Within(c: Criteria, hit: string -> bool, createdAt: int, userId: Option<Id>) {
    (c.search.None? || c.search.value == "" || hit(c.search.value))
    && (c.from.None? || createdAt >= c.from.value)
    && (c.to.None? || createdAt <= c.to.value)
    && (c.userId.None? || userId == c.userId)
  }

  /** `filterBySystemId` of the logs. */
  function FilterLogs(logs: map<Id, AuditLog>, systemId: Id, c: Criteria): (r: seq<Id>)
    ensures forall x :: x in r <==> (x in logs && logs[x].systemId == systemId
                                     && Within(c, s => LogHit(logs[x], s), logs[x].createdAt, logs[x].userId))
    ensures NewestFirst(r, LogTime(logs))
  {
    OrderNewest((set x | x in logs && logs[x].systemId == systemId
                         && Within(c, s => LogHit(logs[x], s), logs[x].createdAt, logs[x].userId)),
                LogTime(logs))
  }

  /** Without criteria, and with an empty search, the filter is the plain
      list. */
  lemma FilterWithoutCriteria(logs: map<Id, AuditLog>, systemId: Id)
    ensures FilterLogs(logs, systemId, Everything) == LogsOf(logs, systemId)
    ensures FilterLogs(logs, systemId, Criteria(Some(""), None, None, None)) == LogsOf(logs, systemId)
  {
    var all := set x | x in logs && logs[x].systemId == systemId;
    assert (set x | x in logs && logs[x].systemId == systemId
              && Within(Everything, s => LogHit(logs[x], s), logs[x].createdAt, logs[x].userId)) == all;
    assert (set x | x in logs && logs[x].systemId == systemId
              && Within(Criteria(Some(""), None, None, None), s => LogHit(logs[x], s), logs[x].createdAt,
                        logs[x].userId)) == all;
  }

  /** With a non-empty text and nothing else, the filter is the search. */
  lemma FilterIsSearch(logs: map<Id, AuditLog>, systemId: Id, search: string)
    requires search != ""
    ensures FilterLogs(logs, systemId, Criteria(Some(search), None, None, None)) == SearchLogs(logs, systemId, search)
  {
    assert (set x | x in logs && logs[x].systemId == systemId
              && Within(Criteria(Some(search), None, None, None), s => LogHit(logs[x], s), logs[x].createdAt,
                        logs[x].userId))
        == (set x | x in logs && logs[x].systemId == systemId && LogHit(logs[x], search));
  }

  // ---------------------------------------------------------------------
  // The security queries
  // ---------------------------------------------------------------------

  function AuditTime(audits: map<Id, SecurityAudit>): Id -> int {
    x => if x in audits then audits[x].createdAt else 0
  }

  /** `findBySystemIdOrderByCreatedAtDesc` of the security audits. */
  function AuditsOf(audits: map<Id, SecurityAudit>, systemId: Id): (r: seq<Id>)
    ensures forall x :: x in r <==> x in audits && audits[x].systemId == systemId
    ensures NewestFirst(r, AuditTime(audits))
  {
    OrderNewest((set x | x in audits && audits[x].systemId == systemId), AuditTime(audits))
  }

  /** `searchBySystemId` of the security audits: event or details. */
  function SearchAudits(audits: map<Id, SecurityAudit>, systemId: Id, search: string): (r: seq<Id>)
    ensures forall x :: x in r <==> x in audits && audits[x].systemId == systemId && SecurityHit(audits[x], search)
    ensures NewestFirst(r, AuditTime(audits))
  {
    OrderNewest((set x | x in audits && audits[x].systemId == systemId && SecurityHit(audits[x], search)),
                AuditTime(audits))
  }

  /** `filterBySystemId` of the security audits: the log criteria and an
      optional severity, which a row without severity never meets. */
  function FilterAudits(audits: map<Id, SecurityAudit>, systemId: Id, c: Criteria, severity: Option<Severity>)
    : (r: seq<Id>)
    ensures forall x :: x in r <==> (x in audits && audits[x].systemId == systemId
                                     && Within(c, s => SecurityHit(audits[x], s), audits[x].createdAt, audits[x].userId)
                                     && (severity.None? || audits[x].severity == severity))
    ensures NewestFirst(r, AuditTime(audits))
  {
    OrderNewest((set x | x in audits && audits[x].systemId == systemId
                         && Within(c, s => SecurityHit(audits[x], s), audits[x].createdAt, audits[x].userId)
                         && (severity.None? || audits[x].severity == severity)),
                AuditTime(audits))
  }

  /** The audits of a system with a given severity. */
  function WithSeverity(audits: map<Id, SecurityAudit>, systemId: Id, v: Severity): set<Id> {
    set x | x in audits && audits[x].systemId == systemId && audits[x].severity == Some(v)
  }

  /** `countBySystemIdAndSeverity` counts exactly the rows the severity
      filter lists. */
  lemma SeverityCountIsFilterLength(audits: map<Id, SecurityAudit>, systemId: Id, v: Severity)
    ensures |WithSeverity(audits, systemId, v)| == |FilterAudits(audits, systemId, Everything, Some(v))|
  {
    assert (set x | x in audits && audits[x].systemId == systemId
              && Within(Everything, s => SecurityHit(audits[x], s), audits[x].createdAt, audits[x].userId)
              && (Some(v).None? || audits[x].severity == Some(v)))
        == WithSeverity(audits, systemId, v);
  }

  // ---------------------------------------------------------------------
  // The controller
  // ---------------------------------------------------------------------

  /** A date parameter: absent, empty, or a calendar day. */
  datatype DateParam = NoDate | EmptyDate | OnDay(day: int)

  /** `dateFrom + "T00:00:00"`: the first second of the day. */
  function FromBound(p: DateParam): (r: Option<int>)
    ensures r.Some? <==> p.OnDay?
    ensures p.OnDay? ==> r.value == p.day * SecondsPerDay
  {
    if p.OnDay? then Some(p.day * SecondsPerDay) else None
  }

  /** `dateTo + "T23:59:59"`: the last second of the day. */
  function ToBound(p: DateParam): (r: Option<int>)
    ensures r.Some? <==> p.OnDay?
    ensures p.OnDay? ==> r.value == p.day * SecondsPerDay + SecondsPerDay - 1
  {
    if p.OnDay? then Some(p.day * SecondsPerDay + SecondsPerDay - 1) else None
  }

  /** A filter from day `a` to day `b` keeps exactly the times of the days
      `a` through `b`, both included. */
  lemma DayRangeIsInclusive(a: int, b: int, t: int)
    ensures (FromBound(OnDay(a)).value <= t <= ToBound(OnDay(b)).value)
        <==> a * SecondsPerDay <= t < (b + 1) * SecondsPerDay
  {
  }

  /** Counted in `k`-ths of a second, as the stored times are, the last
      instant of day `b` lies on that day but after the upper bound, so a
      range to day `b` leaves out the fraction of its final second. */
  lemma DayRangeMissesLastFraction(b: int, k: int)
    requires k >= 2
    ensures var last := (b + 1) * SecondsPerDay * k - 1;
      && b * SecondsPerDay * k <= last < (b + 1) * SecondsPerDay * k
      && ToBound(OnDay(b)).value * k < last
  {
    var s := (b + 1) * SecondsPerDay;
    assert ToBound(OnDay(b)).value == s - 1;
    assert (s - 1) * k == s * k - k;
    assert b * SecondsPerDay * k == s * k - SecondsPerDay * k;
  }

  /** `Severity.valueOf(severity.toLowerCase())` with an unknown name
      ignored: no severity means no filter. */
  function ParseSeverity(s: Option<string>): (r: Option<Severity>)
    ensures s.None? || s.value == "" ==> r.None?
    ensures r.Some? ==> EqualsIgnoreCase(s.value, SeverityName(r.value))
  {
    if s.None? || s.value == "" then None
    else
      var n := Lower(s.value);
      LowerIdempotent(s.value);
      if n == "low" then Some(Low)
      else if n == "medium" then Some(Medium)
      else if n == "high" then Some(High)
      else None
  }

  function SeverityName(v: Severity): string {
    match v
    case Low => "low"
    case Medium => "medium"
    case High => "high"
  }

  /** A severity is read back from its name in any case; an unknown name
      filters exactly as no severity does. */
  lemma ParseSeverityFacts(v: Severity, s: string, audits: map<Id, SecurityAudit>, systemId: Id, c: Criteria)
    ensures ParseSeverity(Some(SeverityName(v))) == Some(v)
    ensures ParseSeverity(Some(s)) == ParseSeverity(Some(Lower(s)))
    ensures ParseSeverity(Some(s)).None? ==>
      FilterAudits(audits, systemId, c, ParseSeverity(Some(s))) == FilterAudits(audits, systemId, c, None)
  {
    LowerIdempotent(s);
    assert Lower(SeverityName(v)) == SeverityName(v);
    if s != "" {
      assert Lower(s) != "";
    }
  }

  /** The name shown for the author of a row: "Sistema" for none,
      "Usuario eliminado" for an id without account, the account's name
      otherwise. */
  function UserName(users: map<Id, User>, userId: Option<Id>): (r: string)
    ensures userId.None? ==> r == "Sistema"
    ensures userId.Some? && userId.value !in users ==> r == "Usuario eliminado"
    ensures userId.Some? && userId.value in users ==> r == users[userId.value].name
  {
    match userId
    case None => "Sistema"
    case Some(u) => if u in users then users[u].name else "Usuario eliminado"
  }

  /** The e-mail shown beside it: only for an existing account. */
  function UserEmail(users: map<Id, User>, userId: Option<Id>): (r: Option<string>)
    ensures r.Some? <==> userId.Some? && userId.value in users
    ensures r.Some? ==> r.value == users[userId.value].email
  {
    if userId.Some? && userId.value in users then Some(users[userId.value].email) else None
  }

  /** A log as the controller returns it. */
  datatype LogEntry = LogEntry(id: Id, log: AuditLog, userName: string, userEmail: Option<string>)

  /** `convertAuditLogsToResponse`: one entry per row, in the same order. */
  function LogEntries(logs: map<Id, AuditLog>, users: map<Id, User>, ids: seq<Id>): (r: seq<LogEntry>)
    requires forall i :: 0 <= i < |ids| ==> ids[i] in logs
    ensures |r| == |ids|
    ensures forall i :: 0 <= i < |ids| ==> (r[i].id == ids[i] && r[i].log == logs[ids[i]]
                                            && r[i].userName == UserName(users, logs[ids[i]].userId)
                                            && r[i].userEmail == UserEmail(users, logs[ids[i]].userId))
  {
    seq(|ids|, i requires 0 <= i < |ids| =>
      LogEntry(ids[i], logs[ids[i]], UserName(users, logs[ids[i]].userId), UserEmail(users, logs[ids[i]].userId)))
  }

  /** The figures of `getStatistics`. */
  datatype Stats = Stats(totalLogs: nat, high: nat, medium: nat, low: nat)

  /** `getStatistics`: all rows of both kinds, and the security rows by
      severity. */
  function GetStatistics(logs: map<Id, AuditLog>, audits: map<Id, SecurityAudit>, systemId: Id): (s: Stats)
    ensures s.totalLogs == |LogsOf(logs, systemId)| + |AuditsOf(audits, systemId)|
    ensures s.high == |WithSeverity(audits, systemId, High)|
    ensures s.medium == |WithSeverity(audits, systemId, Medium)|
    ensures s.low == |WithSeverity(audits, systemId, Low)|
  {
    var inLogs := set x | x in logs && logs[x].systemId == systemId;
    var inAudits := set x | x in audits && audits[x].systemId == systemId;
    Stats(|inLogs| + |inAudits|,
          |WithSeverity(audits, systemId, High)|, |WithSeverity(audits, systemId, Medium)|,
          |WithSeverity(audits, systemId, Low)|)
  }

  /** The severity counts never exceed the security rows, so never the
      total; rows without severity make up the difference. */
  lemma SeverityCountsBounded(logs: map<Id, AuditLog>, audits: map<Id, SecurityAudit>, systemId: Id)
    ensures var s := GetStatistics(logs, audits, systemId);
      s.high + s.medium + s.low <= |AuditsOf(audits, systemId)| <= s.totalLogs
  {
    var h, m, l := WithSeverity(audits, systemId, High), WithSeverity(audits, systemId, Medium),
                   WithSeverity(audits, systemId, Low);
    var all := set x | x in audits && audits[x].systemId == systemId;
    assert h !! m && (h + m) !! l;
    assert |h + m + l| == |h| + |m| + |l|;
    SubsetSize(h + m + l, all);
  }

  /** `getUsers`: the accounts that wrote a log or a security row of the
      system; rows without author and ids without account are skipped. */
  function AuditUsers(logs: map<Id, AuditLog>, audits: map<Id, SecurityAudit>, users: map<Id, User>, systemId: Id)
    : (r: set<Id>)
    ensures forall u :: u in r <==> (u in users
                                     && ((exists x :: x in logs && logs[x].systemId == systemId && logs[x].userId == Some(u))
                                         || (exists x :: x in audits && audits[x].systemId == systemId
                                                          && audits[x].userId == Some(u))))
  {
    var fromLogs := set x | x in logs && logs[x].systemId == systemId && logs[x].userId.Some? :: logs[x].userId.value;
    var fromAudits := set x | x in audits && audits[x].systemId == systemId && audits[x].userId.Some?
                                :: audits[x].userId.value;
    set u | u in fromLogs + fromAudits && u in users
  }
}
