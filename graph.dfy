/** The two read paths of the graph client, over an abstract Neo4j session:
    the employee-context lookup and the role roster. */
module Graph {

  datatype Option<T> = None | Some(value: T)

  /** A property value as the driver hands it back: `null` where an
      OPTIONAL MATCH found nothing. */
  datatype Value = Null | Str(s: string)

  /** One result record: its columns, in RETURN order, with their values. */
  type Record = seq<(string, Value)>

  /** A record turned into a Python dict. */
  type Dict = map<string, Value>

  /** The Cypher queries the client runs, with their parameters. */
  datatype Query =
    | UserContextQuery(employeeId: string)
    | EmploymentTypeQuery(role: string)
    | ManagerQuery
    | MentorQuery

  /** The database as seen through a session: the records each query yields,
      in the order the driver yields them. */
  type Session = Query -> seq<Record>

  /** The columns `get_user_context` returns, in RETURN order. */
  const UserContextColumns: seq<string> :=
    ["name", "department", "manager", "mentor", "college", "employment_type"]

  /** The columns every roster query returns. */
  const RosterColumns: seq<string> := ["id", "name"]

  function Columns(r: Record): seq<string> {
    seq(|r|, i requires 0 <= i < |r| => r[i].0)
  }

  /** `dict(record)`: every column becomes a key; where a column name
      repeats, the driver's lookup by name sees the first one. */
  function ToDict(r: Record): (d: Dict)
    ensures d.Keys == set i | 0 <= i < |r| :: r[i].0
  {
    if r == [] then map[]
    else
      var rest := ToDict(r[1..]);
      assert forall i :: 0 < i < |r| ==> r[i] == r[1..][i - 1];
      rest[r[0].0 := r[0].1]
  }

  predicate DistinctColumns(r: Record) {
    forall i, j :: 0 <= i < j < |r| ==> r[i].0 != r[j].0
  }

  /** With distinct column names every key maps to its own column's value. */
  lemma {:induction false} ToDictAt(r: Record, i: nat)
    requires DistinctColumns(r) && i < |r|
    ensures r[i].0 in ToDict(r) && ToDict(r)[r[i].0] == r[i].1
  {
    if i > 0 {
      assert r[i] == r[1..][i - 1];
      ToDictAt(r[1..], i - 1);
    }
  }

  // ---------------------------------------------------------------------
  // get_user_context

  /** `get_user_context(employee_id)`: the first record of the context query
      (`single()`), or `None` when there is none or it is empty (`not record`). */
  function GetUserContext(session: Session, employeeId: string): (u: Option<Dict>)
    ensures u.None? <==> (session(UserContextQuery(employeeId)) == []
                          || session(UserContextQuery(employeeId))[0] == [])
    ensures u.Some? ==> u.value != map[]
  {
    var rows := session(UserContextQuery(employeeId));
    if rows == [] || rows[0] == [] then None
    else
      assert rows[0][0].0 in ToDict(rows[0]);
      Some(ToDict(rows[0]))
  }

  // ---------------------------------------------------------------------
  // list_people_by_role

  /** The query `list_people_by_role` dispatches to, if any: exact,
      case-sensitive comparison of the role string. */
  function RoleQuery(role: string): Option<Query> {
    if role == "intern" || role == "full_time" then Some(EmploymentTypeQuery(role))
    else if role == "manager" then Some(ManagerQuery)
    else if role == "mentor" then Some(MentorQuery)
    else None
  }

  /** `list_people_by_role(role)`: one dict per record of the dispatched
      query, in the order the records arrive; `[]` for any other role. */
  function ListPeopleByRole(session: Session, role: string): (people: seq<Dict>)
    ensures RoleQuery(role).None? ==> people == []
    ensures RoleQuery(role).Some? ==> |people| == |session(RoleQuery(role).value)|
  {
    match RoleQuery(role)
    case None => []
    case Some(q) =>
      var rows := session(q);
      seq(|rows|, i requires 0 <= i < |rows| => ToDict(rows[i]))
  }

  // ---------------------------------------------------------------------
  // What the queries' text promises of the database

  /** Strings in Cypher's `ORDER BY` order: lexicographic by character. */
  predicate LexLe(a: string, b: string) {
    a == [] || (b != [] && (a[0] < b[0] || (a[0] == b[0] && LexLe(a[1..], b[1..]))))
  }

  /** The `id` column of a roster record, where it is a string. */
  function IdOf(r: Record): string {
    if |r| > 0 && r[0].1.Str? then r[0].1.s else ""
  }

  predicate RosterRecord(r: Record) {
    Columns(r) == RosterColumns && r[0].1.Str?
  }

  /** A roster query's result: `RETURN x.id AS id, x.name AS name ORDER BY x.id`. */
  predicate RosterRows(rows: seq<Record>) {
    (forall i :: 0 <= i < |rows| ==> RosterRecord(rows[i]))
    && (forall i, j :: 0 <= i < j < |rows| ==> LexLe(IdOf(rows[i]), IdOf(rows[j])))
  }

  /** The session behaves as the query texts say: the context query returns
      its six columns, and each roster query returns `id, name` ordered by
      `id`. This is what the model takes on trust from Neo4j. */
  ghost predicate Conforms(session: Session) {
    (forall id: string, r :: r in session(UserContextQuery(id)) ==> Columns(r) == UserContextColumns)
    && (forall role: string :: RosterRows(session(EmploymentTypeQuery(role))))
    && RosterRows(session(ManagerQuery))
    && RosterRows(session(MentorQuery))
  }

  // ---------------------------------------------------------------------
  // Properties

  /** The roles that run a query are exactly intern, full_time, manager and
      mentor; intern and full_time run the employment-type query with the
      role itself as its parameter. */
  lemma RoleDispatch(role: string)
    ensures RoleQuery(role).Some? <==> role in ["intern", "full_time", "manager", "mentor"]
    ensures RoleQuery(role) == Some(EmploymentTypeQuery(role)) <==> role == "intern" || role == "full_time"
    ensures RoleQuery(role) == Some(ManagerQuery) <==> role == "manager"
    ensures RoleQuery(role) == Some(MentorQuery) <==> role == "mentor"
  {
  }

  /** The dispatch is case-sensitive and closed: the empty role and case
      variants list nobody. */
  lemma UnlistedRoles(session: Session)
    ensures ListPeopleByRole(session, "") == []
    ensures ListPeopleByRole(session, "Intern") == []
    ensures ListPeopleByRole(session, "FULL_TIME") == []
    ensures ListPeopleByRole(session, "Manager") == []
  {
  }

  /** For an unknown role no query runs: the result is the same whatever
      the database holds. */
  lemma UnknownRoleRunsNoQuery(s1: Session, s2: Session, role: string)
    requires RoleQuery(role).None?
    ensures ListPeopleByRole(s1, role) == ListPeopleByRole(s2, role) == []
  {
  }

  /** For a known role only the dispatched query runs: two databases that
      agree on that one query give the same roster. */
  lemma RosterReadsOnlyItsQuery(s1: Session, s2: Session, role: string)
    requires RoleQuery(role).Some?
    requires s1(RoleQuery(role).value) == s2(RoleQuery(role).value)
    ensures ListPeopleByRole(s1, role) == ListPeopleByRole(s2, role)
  {
  }

  /** Roster entry `i` is the `{id, name}` dict of record `i`. */
  lemma RosterEntry(session: Session, role: string, i: nat)
    requires Conforms(session) && RoleQuery(role).Some?
    requires i < |session(RoleQuery(role).value)|
    ensures var r := session(RoleQuery(role).value)[i];
      var d := ListPeopleByRole(session, role)[i];
      d.Keys == {"id", "name"} && d["id"] == r[0].1 && d["name"] == r[1].1
  {
    var r := session(RoleQuery(role).value)[i];
    assert RosterRecord(r);
    assert r[0].0 == Columns(r)[0] && r[1].0 == Columns(r)[1];
    assert DistinctColumns(r);
    ToDictAt(r, 0);
    ToDictAt(r, 1);
    var d := ToDict(r);
    assert d.Keys == {"id", "name"} by {
      assert forall k :: k in d.Keys ==> k == r[0].0 || k == r[1].0;
    }
  }

  /** The roster comes out ascending by id, because the query orders it. */
  lemma RosterSortedById(session: Session, role: string, i: nat, j: nat)
    requires Conforms(session) && RoleQuery(role).Some?
    requires i < j < |ListPeopleByRole(session, role)|
    ensures var people := ListPeopleByRole(session, role);
      "id" in people[i] && "id" in people[j]
      && people[i]["id"].Str? && people[j]["id"].Str?
      && LexLe(people[i]["id"].s, people[j]["id"].s)
  {
    var rows := session(RoleQuery(role).value);
    assert RosterRows(rows);
    RosterEntry(session, role, i);
    RosterEntry(session, role, j);
    assert LexLe(IdOf(rows[i]), IdOf(rows[j]));
  }

  /** The lookup runs only the context query, with the employee id passed
      through unchanged as its parameter. */
  lemma ContextReadsOnlyItsQuery(s1: Session, s2: Session, employeeId: string)
    requires s1(UserContextQuery(employeeId)) == s2(UserContextQuery(employeeId))
    ensures GetUserContext(s1, employeeId) == GetUserContext(s2, employeeId)
  {
  }

  /** A record with exactly the six context columns becomes a dict with
      exactly the six context keys, each holding its column's value. */
  lemma ContextRecordDict(r: Record)
    requires Columns(r) == UserContextColumns
    ensures ToDict(r).Keys == {"name", "department", "manager", "mentor", "college", "employment_type"}
    ensures forall i :: 0 <= i < 6 ==> ToDict(r)[UserContextColumns[i]] == r[i].1
  {
    assert |r| == 6;
    forall i | 0 <= i < 6
      ensures r[i].0 == UserContextColumns[i]
    {
      assert Columns(r)[i] == r[i].0;
    }
    assert DistinctColumns(r);
    forall i | 0 <= i < 6
      ensures ToDict(r)[UserContextColumns[i]] == r[i].1
    {
      ToDictAt(r, i);
    }
    var d := ToDict(r);
    var six := {"name", "department", "manager", "mentor", "college", "employment_type"};
    assert d.Keys == (set i | 0 <= i < |r| :: r[i].0);
    forall k | k in d.Keys
      ensures k in six
    {
      var i :| 0 <= i < 6 && k == r[i].0;
      assert k == UserContextColumns[i];
    }
    assert r[0].0 in d.Keys && r[1].0 in d.Keys && r[2].0 in d.Keys;
    assert r[3].0 in d.Keys && r[4].0 in d.Keys && r[5].0 in d.Keys;
  }

  /** On a conforming database the lookup is `None` exactly when the
      employee does not exist, and otherwise has exactly the six context
      keys, each holding its column's value. */
  lemma UserContextShape(session: Session, employeeId: string)
    requires Conforms(session)
    ensures var rows := session(UserContextQuery(employeeId));
      var u := GetUserContext(session, employeeId);
      (u.None? <==> rows == [])
      && (u.Some? ==>
            u.value.Keys == {"name", "department", "manager", "mentor", "college", "employment_type"}
            && forall i :: 0 <= i < 6 ==> u.value[UserContextColumns[i]] == rows[0][i].1)
  {
    var rows := session(UserContextQuery(employeeId));
    if rows != [] {
      assert rows[0] in rows;
      assert Columns(rows[0]) == UserContextColumns;
      ContextRecordDict(rows[0]);
    }
  }
}
