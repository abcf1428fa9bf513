/** The access-table builder: one grant row per (project, user) pair, built
    from the fetched project list and each project's user list. */
module AccessTable {
  import opened Wrappers
  import opened Strings
  import opened Json

  /** A project of the organization, as listed by the management API. */
  datatype Project = Project(id: string, name: string)

  /** One user record of a project's user list: its identity fields and every
      other attribute as a decoded JSON value. */
  datatype RawUser = RawUser(id: string, email: string, role: string, fields: map<string, Value>)

  /** One row of the access table. `Null` stands for Python's `None`. */
  datatype Grant = Grant(
    userId: string,
    email: string,
    role: string,
    project: string,
    projectId: string,
    organizationId: string,
    expires: Value,
    created: Value,
    reason: Value,
    invitor: Value,
    approver: Value)

  /** The `reason` column: the upstream value itself when it is truthy and
      `"email" in` it holds, otherwise None. */
  function ReasonOf(v: Value): Result<Value>
  {
    if !Truthy(v) then Ok(Null)
    else match Member("email", v)
      case None => Err("TypeError: reason is not iterable")
      case Some(has) => Ok(if has then v else Null)
  }

  /** The `invitor` and `approver` columns: `v["email"]` when `v` is truthy and
      `"email" in v` holds, otherwise None. */
  function NestedEmailOf(v: Value): Result<Value>
  {
    if !Truthy(v) then Ok(Null)
    else match Member("email", v)
      case None => Err("TypeError: value is not iterable")
      case Some(false) => Ok(Null)
      case Some(true) =>
        match v
        case Obj(m) => Ok(m["email"])
        case _ => Err("TypeError: indices must be integers")
  }

  /** The row for user `u` of project `p`; the dict literal evaluates
      `reason`, then `invitor`, then `approver`, so the first of them that
      raises decides the error. */
  function MakeGrant(p: Project, u: RawUser, org: string): Result<Grant>
  {
    var reason := ReasonOf(Get(u.fields, "reason"));
    var invitor := NestedEmailOf(Get(u.fields, "invitor"));
    var approver := NestedEmailOf(Get(u.fields, "approver"));
    if reason.Err? then Err(reason.error)
    else if invitor.Err? then Err(invitor.error)
    else if approver.Err? then Err(approver.error)
    else Ok(Grant(u.id, u.email, u.role, p.name, p.id, org,
                  Get(u.fields, "expires"), Get(u.fields, "created"),
                  reason.value, invitor.value, approver.value))
  }

  /** The rows for the users `us` of project `p`, in order, or the first error. */
  function Rows(p: Project, us: seq<RawUser>, org: string): Result<seq<Grant>>
  {
    if us == [] then Ok([])
    else match Rows(p, us[..|us| - 1], org)
      case Err(e) => Err(e)
      case Ok(front) =>
        match MakeGrant(p, us[|us| - 1], org)
        case Err(e) => Err(e)
        case Ok(g) => Ok(front + [g])
  }

  /** The whole access table: every project's rows, project after project, or
      the first error. `usersOf` is the user list fetched for a project id. */
  function Table(ps: seq<Project>, usersOf: string -> seq<RawUser>, org: string): Result<seq<Grant>>
  {
    if ps == [] then Ok([])
    else match Table(ps[..|ps| - 1], usersOf, org)
      case Err(e) => Err(e)
      case Ok(front) =>
        var last := ps[|ps| - 1];
        match Rows(last, usersOf(last.id), org)
        case Err(e) => Err(e)
        case Ok(back) => Ok(front + back)
  }

  /** The number of user records over all projects. */
  function TotalUsers(ps: seq<Project>, usersOf: string -> seq<RawUser>): nat
  {
    if ps == [] then 0
    else TotalUsers(ps[..|ps| - 1], usersOf) + |usersOf(ps[|ps| - 1].id)|
  }

  /** The nested loop that builds the table by appending one row at a time;
      an extraction that raises ends the load. */
  method BuildTable(projects: seq<Project>, usersOf: string -> seq<RawUser>, org: string)
    returns (r: Result<seq<Grant>>)
    ensures r == Table(projects, usersOf, org)
  {
    var all: seq<Grant> := [];
    for i := 0 to |projects|
      invariant Table(projects[..i], usersOf, org) == Ok(all)
    {
      var p := projects[i];
      var users := usersOf(p.id);
      ghost var before := all;
      ghost var inner: seq<Grant> := [];
      for j := 0 to |users|
        invariant Rows(p, users[..j], org) == Ok(inner)
        invariant all == before + inner
      {
        var g := MakeGrant(p, users[j], org);
        assert users[..j + 1][..j] == users[..j];
        if g.Err? {
          RowsErrExtends(p, users, j + 1, org);
          assert projects[..i + 1][..i] == projects[..i];
          TableErrExtends(projects, usersOf, i + 1, org);
          return Err(g.error);
        }
        all := all + [g.value];
        inner := inner + [g.value];
      }
      assert users[..|users|] == users;
      assert projects[..i + 1][..i] == projects[..i];
    }
    assert projects[..|projects|] == projects;
    return Ok(all);
  }

  /** Once a prefix of a project's users fails, the whole project fails the same way. */
  lemma {:induction false} RowsErrExtends(p: Project, us: seq<RawUser>, k: nat, org: string)
    requires k <= |us| && Rows(p, us[..k], org).Err?
    ensures Rows(p, us, org) == Rows(p, us[..k], org)
    decreases |us| - k
  {
    if k < |us| {
      assert us[..k + 1][..k] == us[..k];
      RowsErrExtends(p, us, k + 1, org);
    } else {
      assert us[..k] == us;
    }
  }

  /** Once a prefix of the projects fails, the whole load fails the same way. */
  lemma {:induction false} TableErrExtends(ps: seq<Project>, usersOf: string -> seq<RawUser>, k: nat, org: string)
    requires k <= |ps| && Table(ps[..k], usersOf, org).Err?
    ensures Table(ps, usersOf, org) == Table(ps[..k], usersOf, org)
    decreases |ps| - k
  {
    if k < |ps| {
      assert ps[..k + 1][..k] == ps[..k];
      TableErrExtends(ps, usersOf, k + 1, org);
    } else {
      assert ps[..k] == ps;
    }
  }

  /** The `reason` rule by shape: the value is kept, unchanged, exactly when
      it is a dict with an "email" key, a str containing "email", or a list
      holding the str "email"; a truthy bool or number raises; in every other
      case the column is None. */
  lemma ReasonRule(v: Value)
    ensures (ReasonOf(v).Ok? && ReasonOf(v).value != Null)
            <==> Truthy(v) && Member("email", v) == Some(true)
    ensures (ReasonOf(v).Ok? && ReasonOf(v).value != Null)
            <==> (v.Obj? && "email" in v.fields) || (v.Str? && HasSubstring(v.s, "email"))
                 || (v.Arr? && Str("email") in v.items)
    ensures ReasonOf(v).Ok? && ReasonOf(v).value != Null ==> ReasonOf(v).value == v
    ensures ReasonOf(v).Err? <==> (v.Bool? && v.b) || (v.Num? && v.n != 0)
  {
    if v.Str? && HasSubstring(v.s, "email") {
      SubstringNoLonger(v.s, "email");
    }
    if v.Obj? && "email" in v.fields {
      assert v.fields != map[];
    }
  }

  /** The `invitor`/`approver` rule by shape: a dict with an "email" key gives
      its "email" value; a str containing "email", a list holding "email", a
      truthy bool or a non-zero number raises; everything else gives None. */
  lemma NestedEmailRule(v: Value)
    ensures v.Obj? && "email" in v.fields ==> NestedEmailOf(v) == Ok(v.fields["email"])
    ensures NestedEmailOf(v).Err?
            <==> (v.Bool? && v.b) || (v.Num? && v.n != 0)
                 || (v.Str? && HasSubstring(v.s, "email")) || (v.Arr? && Str("email") in v.items)
    ensures NestedEmailOf(v).Ok? && !(v.Obj? && "email" in v.fields) ==> NestedEmailOf(v).value == Null
  {
    if v.Str? && HasSubstring(v.s, "email") {
      SubstringNoLonger(v.s, "email");
    }
    if v.Obj? && "email" in v.fields {
      assert v.fields != map[];
    }
  }

  /** A row copies the user's identity, the enclosing project's name and id,
      the session's organization id and the raw `expires`/`created` values. */
  lemma GrantFields(p: Project, u: RawUser, org: string)
    requires MakeGrant(p, u, org).Ok?
    ensures var g := MakeGrant(p, u, org).value;
      && g.userId == u.id && g.email == u.email && g.role == u.role
      && g.project == p.name && g.projectId == p.id && g.organizationId == org
      && g.expires == Get(u.fields, "expires") && g.created == Get(u.fields, "created")
      && g.reason == ReasonOf(Get(u.fields, "reason")).value
      && g.invitor == NestedEmailOf(Get(u.fields, "invitor")).value
      && g.approver == NestedEmailOf(Get(u.fields, "approver")).value
  {
  }

  /** A project's rows: one per user, in the users' order; they all exist
      exactly when no user's extraction raises. */
  lemma {:induction false} RowsSpec(p: Project, us: seq<RawUser>, org: string)
    ensures Rows(p, us, org).Ok? <==> forall j :: 0 <= j < |us| ==> MakeGrant(p, us[j], org).Ok?
    ensures Rows(p, us, org).Ok? ==>
      && |Rows(p, us, org).value| == |us|
      && forall j :: 0 <= j < |us| ==> Rows(p, us, org).value[j] == MakeGrant(p, us[j], org).value
  {
    if us != [] {
      var pre := us[..|us| - 1];
      RowsSpec(p, pre, org);
      assert forall j :: 0 <= j < |pre| ==> pre[j] == us[j];
      if !MakeGrant(p, us[|us| - 1], org).Ok? {
        assert !Rows(p, us, org).Ok?;
      }
    }
  }

  /** The table exists exactly when no (project, user) pair's extraction raises. */
  lemma {:induction false} TableOkIff(ps: seq<Project>, usersOf: string -> seq<RawUser>, org: string)
    ensures Table(ps, usersOf, org).Ok? <==>
      forall i, j :: 0 <= i < |ps| && 0 <= j < |usersOf(ps[i].id)| ==>
        MakeGrant(ps[i], usersOf(ps[i].id)[j], org).Ok?
  {
    if ps != [] {
      var n := |ps| - 1;
      var pre := ps[..n];
      var us := usersOf(ps[n].id);
      TableOkIff(pre, usersOf, org);
      RowsSpec(ps[n], us, org);
      assert forall i :: 0 <= i < n ==> pre[i] == ps[i];
      if Table(pre, usersOf, org).Err? {
        var i, j :| 0 <= i < |pre| && 0 <= j < |usersOf(pre[i].id)|
          && !MakeGrant(pre[i], usersOf(pre[i].id)[j], org).Ok?;
        assert !MakeGrant(ps[i], usersOf(ps[i].id)[j], org).Ok?;
      } else if Rows(ps[n], us, org).Err? {
        var j :| 0 <= j < |us| && !MakeGrant(ps[n], us[j], org).Ok?;
        assert !MakeGrant(ps[n], usersOf(ps[n].id)[j], org).Ok?;
      }
    }
  }

  /** The table has one row per user record over all projects. */
  lemma {:induction false} TableLength(ps: seq<Project>, usersOf: string -> seq<RawUser>, org: string)
    requires Table(ps, usersOf, org).Ok?
    ensures |Table(ps, usersOf, org).value| == TotalUsers(ps, usersOf)
  {
    if ps != [] {
      var n := |ps| - 1;
      TableLength(ps[..n], usersOf, org);
      RowsSpec(ps[n], usersOf(ps[n].id), org);
    }
  }

  /** The first `k + 1` projects' table is the first `k` projects' table
      followed by project `k`'s rows. */
  lemma TableSnoc(ps: seq<Project>, usersOf: string -> seq<RawUser>, org: string, k: nat)
    requires k < |ps| && Table(ps[..k + 1], usersOf, org).Ok?
    ensures Table(ps[..k], usersOf, org).Ok? && Rows(ps[k], usersOf(ps[k].id), org).Ok?
    ensures Table(ps[..k + 1], usersOf, org).value
            == Table(ps[..k], usersOf, org).value + Rows(ps[k], usersOf(ps[k].id), org).value
  {
    assert ps[..k + 1][..k] == ps[..k];
    assert ps[..k + 1][k] == ps[k];
  }

  /** A load's table begins with the table of any prefix of its projects. */
  lemma {:induction false} TablePrefix(ps: seq<Project>, usersOf: string -> seq<RawUser>, org: string, k: nat)
    requires k <= |ps| && Table(ps, usersOf, org).Ok?
    ensures Table(ps[..k], usersOf, org).Ok?
    ensures Table(ps[..k], usersOf, org).value <= Table(ps, usersOf, org).value
    decreases |ps| - k
  {
    if k == |ps| {
      assert ps[..k] == ps;
    } else {
      TablePrefix(ps, usersOf, org, k + 1);
      TableSnoc(ps, usersOf, org, k);
    }
  }

  /** The row of user `j` of project `i` sits right after the rows of all the
      earlier projects. */
  lemma TableAt(ps: seq<Project>, usersOf: string -> seq<RawUser>, org: string, i: nat, j: nat)
    requires Table(ps, usersOf, org).Ok?
    requires i < |ps| && j < |usersOf(ps[i].id)|
    ensures TotalUsers(ps[..i], usersOf) + j < |Table(ps, usersOf, org).value|
    ensures MakeGrant(ps[i], usersOf(ps[i].id)[j], org).Ok?
    ensures Table(ps, usersOf, org).value[TotalUsers(ps[..i], usersOf) + j]
            == MakeGrant(ps[i], usersOf(ps[i].id)[j], org).value
  {
    TablePrefix(ps, usersOf, org, i + 1);
    TableSnoc(ps, usersOf, org, i);
    TableLength(ps[..i], usersOf, org);
    RowsSpec(ps[i], usersOf(ps[i].id), org);
  }

  /** In `rows`, the row of user `j` of project `i` is that pair's grant and
      sits right after the rows of all the projects before `i`. */
  ghost predicate PairRow(ps: seq<Project>, usersOf: string -> seq<RawUser>, org: string,
                          rows: seq<Grant>, i: int, j: int)
    requires 0 <= i < |ps| && 0 <= j < |usersOf(ps[i].id)|
  {
    && TotalUsers(ps[..i], usersOf) + j < |rows|
    && MakeGrant(ps[i], usersOf(ps[i].id)[j], org).Ok?
    && rows[TotalUsers(ps[..i], usersOf) + j] == MakeGrant(ps[i], usersOf(ps[i].id)[j], org).value
  }

  /** The table layout: one row per (project, user) pair, project by project
      and user by user. */
  lemma {:induction false} TableLayout(ps: seq<Project>, usersOf: string -> seq<RawUser>, org: string)
    requires Table(ps, usersOf, org).Ok?
    ensures |Table(ps, usersOf, org).value| == TotalUsers(ps, usersOf)
    ensures forall i, j :: 0 <= i < |ps| && 0 <= j < |usersOf(ps[i].id)| ==>
      PairRow(ps, usersOf, org, Table(ps, usersOf, org).value, i, j)
  {
    TableLength(ps, usersOf, org);
    forall i, j | 0 <= i < |ps| && 0 <= j < |usersOf(ps[i].id)|
      ensures PairRow(ps, usersOf, org, Table(ps, usersOf, org).value, i, j)
    {
      TableAt(ps, usersOf, org, i, j);
    }
  }

  /** The users of projects before `i2` include all users of project `i` and
      of the projects before it, when `i < i2`. */
  lemma {:induction false} TotalUsersGrows(ps: seq<Project>, usersOf: string -> seq<RawUser>, i: nat, i2: nat)
    requires i < i2 <= |ps|
    ensures TotalUsers(ps[..i], usersOf) + |usersOf(ps[i].id)| <= TotalUsers(ps[..i2], usersOf)
    decreases i2
  {
    assert ps[..i2][..i2 - 1] == ps[..i2 - 1];
    if i2 == i + 1 {
      assert ps[..i2][i2 - 1] == ps[i];
    } else {
      TotalUsersGrows(ps, usersOf, i, i2 - 1);
    }
  }

  /** Pair offsets increase with (project, user) in lexicographic order, so
      distinct pairs own distinct rows, project after project and user after
      user. */
  lemma PairOffsetsIncrease(ps: seq<Project>, usersOf: string -> seq<RawUser>, i: nat, j: nat, i2: nat, j2: nat)
    requires i < |ps| && j < |usersOf(ps[i].id)| && i2 < |ps| && j2 < |usersOf(ps[i2].id)|
    requires i < i2 || (i == i2 && j < j2)
    ensures TotalUsers(ps[..i], usersOf) + j < TotalUsers(ps[..i2], usersOf) + j2
  {
    if i < i2 {
      TotalUsersGrows(ps, usersOf, i, i2);
    }
  }

  /** Row `g` carries the organization id `org`, the name and id of one of
      the projects `ps`, and the identity of one of that project's users. */
  ghost predicate DrawnFrom(g: Grant, ps: seq<Project>, usersOf: string -> seq<RawUser>, org: string)
  {
    && g.organizationId == org
    && exists i, j :: 0 <= i < |ps| && 0 <= j < |usersOf(ps[i].id)|
         && g.project == ps[i].name && g.projectId == ps[i].id
         && g.userId == usersOf(ps[i].id)[j].id && g.email == usersOf(ps[i].id)[j].email
         && g.role == usersOf(ps[i].id)[j].role
  }

  /** Every row of a load comes from that load's inputs: nothing from an
      earlier load survives. */
  lemma {:induction false} TableRowsFromInputs(ps: seq<Project>, usersOf: string -> seq<RawUser>, org: string)
    requires Table(ps, usersOf, org).Ok?
    ensures forall g :: g in Table(ps, usersOf, org).value ==> DrawnFrom(g, ps, usersOf, org)
  {
    if ps != [] {
      var n := |ps| - 1;
      var pre := ps[..n];
      var us := usersOf(ps[n].id);
      TableRowsFromInputs(pre, usersOf, org);
      RowsSpec(ps[n], us, org);
      var front := Table(pre, usersOf, org).value;
      var back := Rows(ps[n], us, org).value;
      assert Table(ps, usersOf, org).value == front + back;
      forall g | g in front + back ensures DrawnFrom(g, ps, usersOf, org) {
        if g in front {
          assert DrawnFrom(g, pre, usersOf, org);
          var i, j :| 0 <= i < |pre| && 0 <= j < |usersOf(pre[i].id)|
            && g.project == pre[i].name && g.projectId == pre[i].id
            && g.userId == usersOf(pre[i].id)[j].id && g.email == usersOf(pre[i].id)[j].email
            && g.role == usersOf(pre[i].id)[j].role;
          assert pre[i] == ps[i];
        } else {
          var j :| 0 <= j < |back| && back[j] == g;
          GrantFields(ps[n], us[j], org);
        }
      }
    }
  }
}
