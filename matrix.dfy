/** The access matrix of the overview: one row per distinct email, one column
    per distinct fetched project id, each cell the role icon of the first
    grant for that (email, project id) pair or blank. */
module AccessMatrix {
  import opened Wrappers
  import opened Strings
  import opened Seqs
  import opened AccessTable

  /** A matrix cell: blank, or the role of the first matching grant with its icon. */
  datatype Cell = Blank | Mark(role: string, icon: string)

  /** Row labels (emails), column labels (project ids) and the cells, row by row. */
  datatype Matrix = Matrix(emails: seq<string>, projectIds: seq<string>, cells: seq<seq<Cell>>)

  /** The fixed role-to-icon table. */
  const RoleIcons: map<string, string> := map[
    "Share" := "\U{1F91D}",
    "Admin" := "\U{1F6E0}\U{FE0F}",
    "Guest" := "\U{1F464}",
    "ReadOnly" := "\U{1F441}\U{FE0F}"]

  /** The icon of a role the table does not know. */
  const UnknownIcon: string := "\U{2753}"

  /** `role_icons.get(role, "❓")`. */
  function RoleIcon(role: string): string
  {
    if role in RoleIcons then RoleIcons[role] else UnknownIcon
  }

  /** Exactly the four known roles get an icon other than the unknown one, and
      no two of them share an icon. */
  lemma RoleIconsDistinct(role: string, other: string)
    ensures RoleIcon(role) != UnknownIcon <==> role in {"Share", "Admin", "Guest", "ReadOnly"}
    ensures role in RoleIcons && other in RoleIcons && role != other ==> RoleIcon(role) != RoleIcon(other)
  {
  }

  /** `{p["id"]: p["name"] for p in projects}`: one key per fetched project id. */
  function ProjIdToName(ps: seq<Project>): (m: map<string, string>)
    ensures m.Keys == set p | p in ps :: p.id
  {
    if ps == [] then map[]
    else
      var pre := ps[..|ps| - 1];
      var last := ps[|ps| - 1];
      assert forall p :: p in ps <==> p in pre || p == last;
      ProjIdToName(pre)[last.id := last.name]
  }

  /** A later project with the same id overwrites an earlier one's name: each
      id maps to the name of the last project that has it. */
  lemma {:induction false} ProjIdToNameLastWins(ps: seq<Project>, i: nat)
    requires i < |ps|
    requires forall k :: i < k < |ps| ==> ps[k].id != ps[i].id
    ensures ProjIdToName(ps)[ps[i].id] == ps[i].name
  {
    if i < |ps| - 1 {
      var pre := ps[..|ps| - 1];
      assert pre[i] == ps[i];
      assert forall k :: i < k < |pre| ==> pre[k] == ps[k];
      ProjIdToNameLastWins(pre, i);
    }
  }

  /** The project ids in the order the projects were fetched. */
  function ProjectIds(ps: seq<Project>): (ids: seq<string>)
    ensures |ids| == |ps| && forall i :: 0 <= i < |ps| ==> ids[i] == ps[i].id
  {
    if ps == [] then [] else ProjectIds(ps[..|ps| - 1]) + [ps[|ps| - 1].id]
  }

  /** The table's email column. */
  function Emails(table: seq<Grant>): (es: seq<string>)
    ensures |es| == |table| && forall i :: 0 <= i < |table| ==> es[i] == table[i].email
  {
    if table == [] then [] else Emails(table[..|table| - 1]) + [table[|table| - 1].email]
  }

  /** A grant for `email` in project `pid`. */
  predicate IsFor(g: Grant, email: string, pid: string)
  {
    g.email == email && g.projectId == pid
  }

  /** The cell for (`email`, `pid`): the first matching grant's role and icon,
      or blank when no grant matches. */
  function CellFor(table: seq<Grant>, email: string, pid: string): (c: Cell)
    ensures c == Blank <==> forall k :: 0 <= k < |table| ==> !IsFor(table[k], email, pid)
    ensures c.Mark? ==>
      exists k :: (0 <= k < |table| && IsFor(table[k], email, pid)
        && (forall l :: 0 <= l < k ==> !IsFor(table[l], email, pid))
        && c.role == table[k].role && c.icon == RoleIcon(table[k].role))
  {
    match FirstIndex(table, g => IsFor(g, email, pid))
    case None => Blank
    case Some(k) => Mark(table[k].role, RoleIcon(table[k].role))
  }

  /** The matrix of the overview, for a non-empty or empty table alike. */
  function MatrixOf(table: seq<Grant>, ps: seq<Project>): Matrix
  {
    var emails := SortedDistinct(Emails(table));
    var pids := SortedDistinct(ProjectIds(ps));
    Matrix(emails, pids,
           seq(|emails|, i requires 0 <= i < |emails| =>
             seq(|pids|, j requires 0 <= j < |pids| => CellFor(table, emails[i], pids[j]))))
  }

  /** The nested loop that builds the matrix row by row and cell by cell. */
  method BuildMatrix(table: seq<Grant>, ps: seq<Project>) returns (m: Matrix)
    ensures m == MatrixOf(table, ps)
  {
    var users := SortedDistinct(Emails(table));
    var pids := SortedDistinct(ProjectIds(ps));
    var rows: seq<seq<Cell>> := [];
    for i := 0 to |users|
      invariant |rows| == i
      invariant forall a :: 0 <= a < i ==> rows[a] == seq(|pids|, j requires 0 <= j < |pids| => CellFor(table, users[a], pids[j]))
    {
      var row: seq<Cell> := [];
      for j := 0 to |pids|
        invariant |row| == j
        invariant forall b :: 0 <= b < j ==> row[b] == CellFor(table, users[i], pids[b])
      {
        row := row + [CellFor(table, users[i], pids[j])];
      }
      rows := rows + [row];
    }
    m := Matrix(users, pids, rows);
  }

  /** The shape of the matrix: its rows are the distinct emails of the table
      in increasing order, its columns the distinct ids of the fetched
      projects (the keys of the id-to-name map) in increasing order, and each
      cell is blank exactly when no grant exists for its (email, project id);
      otherwise it shows the first matching grant's role and icon. */
  lemma MatrixShape(table: seq<Grant>, ps: seq<Project>)
    ensures var m := MatrixOf(table, ps);
      && StrictlySorted(m.emails)
      && (forall e :: e in m.emails <==> exists g :: g in table && g.email == e)
      && StrictlySorted(m.projectIds)
      && (forall pid :: pid in m.projectIds <==> pid in ProjIdToName(ps))
      && |m.cells| == |m.emails|
      && forall i, j :: 0 <= i < |m.emails| && 0 <= j < |m.projectIds| ==>
           && |m.cells[i]| == |m.projectIds|
           && m.cells[i][j] == CellFor(table, m.emails[i], m.projectIds[j])
  {
    var m := MatrixOf(table, ps);
    forall e ensures e in m.emails <==> exists g :: g in table && g.email == e {
      if e in Emails(table) {
        var k :| 0 <= k < |table| && Emails(table)[k] == e;
        assert table[k] in table;
      }
      if exists g :: g in table && g.email == e {
        var g :| g in table && g.email == e;
        var k :| 0 <= k < |table| && table[k] == g;
        assert Emails(table)[k] == e;
      }
    }
    forall pid ensures pid in m.projectIds <==> pid in ProjIdToName(ps) {
      if pid in ProjectIds(ps) {
        var k :| 0 <= k < |ps| && ProjectIds(ps)[k] == pid;
        assert ps[k] in ps;
      }
      if pid in ProjIdToName(ps) {
        var p :| p in ps && p.id == pid;
        var k :| 0 <= k < |ps| && ps[k] == p;
        assert ProjectIds(ps)[k] == pid;
      }
    }
  }

  /** The overview as the script computes it: an empty table is a DataFrame
      without columns, so selecting its "email" column raises KeyError. */
  function OverviewAsWritten(table: seq<Grant>, ps: seq<Project>): (r: Result<Matrix>)
    ensures r.Err? <==> table == []
    ensures r.Ok? ==> r.value == MatrixOf(table, ps)
  {
    if table == [] then Err("KeyError: 'email'") else Ok(MatrixOf(table, ps))
  }

  /** Every project answers with no users. */
  function NoUsers(id: string): seq<RawUser>
  {
    []
  }

  /** A load that finds projects but no users, or whose project request fails,
      leaves an empty table; the overview then raises instead of showing the
      fetched projects with no rows. */
  lemma EmptyLoadBreaksOverview(org: string)
    ensures Table([Project("p1", "Alpha")], NoUsers, org) == Ok([])
    ensures OverviewAsWritten([], [Project("p1", "Alpha")]).Err?
    ensures MatrixOf([], [Project("p1", "Alpha")]) == Matrix([], ["p1"], [])
  {
    var ps := [Project("p1", "Alpha")];
    var e: seq<Grant> := [];
    assert ps[..|ps| - 1] == [];
    assert Table(ps[..|ps| - 1], NoUsers, org) == Ok(e);
    assert NoUsers(ps[|ps| - 1].id) == [];
    assert Rows(ps[|ps| - 1], NoUsers(ps[|ps| - 1].id), org) == Ok(e);
    assert e + e == e;
    assert Table(ps, NoUsers, org) == Ok(e);
    assert SortedDistinct(ProjectIds([Project("p1", "Alpha")])) == ["p1"] by {
      assert ProjectIds([Project("p1", "Alpha")]) == ["p1"];
      assert SortedDistinct(["p1"]) == Insert(SortedDistinct([]), "p1");
    }
  }

  /** The corrected overview for an empty table: no rows, and still one
      column per distinct fetched project id. */
  lemma EmptyTableMatrix(ps: seq<Project>)
    ensures MatrixOf([], ps).emails == [] && MatrixOf([], ps).cells == []
    ensures forall pid :: pid in MatrixOf([], ps).projectIds <==> pid in ProjIdToName(ps)
  {
    MatrixShape([], ps);
  }

  /** `emails.index(selected) if selected in emails else 0`: the position of
      the value read from the page address, or the first email. */
  function DefaultIndex(emails: seq<string>, selected: Option<string>): (r: nat)
    ensures selected.Some? && selected.value in emails ==>
      r < |emails| && emails[r] == selected.value
      && forall k :: 0 <= k < r ==> emails[k] != selected.value
    ensures !(selected.Some? && selected.value in emails) ==> r == 0
  {
    if selected.None? then 0
    else match FirstIndex(emails, e => e == selected.value)
      case None => 0
      case Some(k) => k
  }

  /** The page-address read as the script writes it,
      `query_params.get("email", [None])[0]`: `st.query_params` maps a key
      to its string value, so the index keeps only the first character; a
      missing key yields the default list's `None`, and an empty value
      raises IndexError. */
  function SelectedFromUrlAsWritten(param: Option<string>): Result<Option<string>>
  {
    match param
    case None => Ok(None)
    case Some(v) => if v == [] then Err("IndexError: string index out of range") else Ok(Some([v[0]]))
  }

  /** The intended read, `query_params.get("email")`: the whole value. */
  function SelectedFromUrl(param: Option<string>): Option<string>
  {
    param
  }

  /** As written, an email link never preselects its user: every address has
      more than one character, while the value reaching the selection has
      one, so the default index is 0 whatever email the link carries; only
      an empty value raises. */
  lemma UrlEmailNeverPreselects(emails: seq<string>, param: Option<string>)
    requires forall k :: 0 <= k < |emails| ==> |emails[k]| > 1
    ensures SelectedFromUrlAsWritten(param).Err? <==> param == Some([])
    ensures SelectedFromUrlAsWritten(param).Ok? ==>
      DefaultIndex(emails, SelectedFromUrlAsWritten(param).value) == 0
  {
    if SelectedFromUrlAsWritten(param).Ok? && SelectedFromUrlAsWritten(param).value.Some? {
      var sel := SelectedFromUrlAsWritten(param).value;
      assert |sel.value| == 1;
      assert sel.value !in emails by {
        forall k | 0 <= k < |emails| ensures emails[k] != sel.value {
          assert |emails[k]| > 1;
        }
      }
    }
  }

  /** For instance, the link for the second of two users selects the first. */
  lemma UrlEmailExample()
    ensures DefaultIndex(["a@x.com", "b@x.com"], SelectedFromUrlAsWritten(Some("b@x.com")).value) == 0
    ensures DefaultIndex(["a@x.com", "b@x.com"], SelectedFromUrl(Some("b@x.com"))) == 1
  {
    var emails := ["a@x.com", "b@x.com"];
    UrlEmailNeverPreselects(emails, Some("b@x.com"));
    assert emails[1] == "b@x.com";
    assert emails[0] != "b@x.com" by { assert emails[0][0] != "b@x.com"[0]; }
  }

  /** With the intended read, the link for a listed email preselects exactly
      that email. */
  lemma UrlEmailPreselects(emails: seq<string>, email: string)
    requires email in emails
    ensures DefaultIndex(emails, SelectedFromUrl(Some(email))) < |emails|
    ensures emails[DefaultIndex(emails, SelectedFromUrl(Some(email)))] == email
  {
  }
}
