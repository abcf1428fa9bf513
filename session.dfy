/** The per-session state of the dashboard and the two actions that change
    it: loading the access table and removing access. */
module Dashboard {
  import opened Wrappers
  import opened Seqs
  import opened AccessTable
  import opened Removal

  /** What a "Load Users" click did. */
  datatype LoadOutcome = MissingCredentials | Loaded | Raised(error: string)

  /** The session state: credentials, the last load and the audit log. */
  class Session {
    var apiToken: string
    var orgId: string
    var projects: Option<seq<Project>>
    var table: Option<seq<Grant>>
    var auditLogs: seq<AuditEntry>

    /** A new session: credentials from the stored defaults, nothing loaded,
        an empty audit log. */
    constructor (token: string, org: string)
      ensures apiToken == token && orgId == org
      ensures projects == None && table == None && auditLogs == []
    {
      apiToken, orgId := token, org;
      projects, table := None, None;
      auditLogs := [];
    }

    /** The sidebar fields overwrite the credentials on every run. */
    method SetCredentials(token: string, org: string)
      modifies this`apiToken, this`orgId
      ensures apiToken == token && orgId == org
    {
      apiToken, orgId := token, org;
    }

    /** "Load Users": without a token or an organization id nothing changes;
        otherwise the fetched projects and the table built from them replace
        the previous load wholesale, unless building the table raises, in
        which case nothing changes either. `fetched` is the project list the
        API returned and `usersOf` the user list it returns for a project id. */
    method LoadUsers(fetched: seq<Project>, usersOf: string -> seq<RawUser>) returns (outcome: LoadOutcome)
      modifies this`projects, this`table
      ensures apiToken == "" || orgId == "" ==>
        outcome == MissingCredentials && projects == old(projects) && table == old(table)
      ensures apiToken != "" && orgId != "" ==>
        match Table(fetched, usersOf, orgId)
        case Ok(rows) => outcome == Loaded && projects == Some(fetched) && table == Some(rows)
        case Err(e) => outcome == Raised(e) && projects == old(projects) && table == old(table)
    {
      if apiToken == "" || orgId == "" {
        return MissingCredentials;
      }
      var r := BuildTable(fetched, usersOf, orgId);
      match r
      case Err(e) =>
        outcome := Raised(e);
      case Ok(rows) =>
        projects := Some(fetched);
        table := Some(rows);
        outcome := Loaded;
    }

    /** "Remove Selected Access": for each selected project name, in order,
        resolve the user's first row for it, delete, and append one audit
        entry whatever the outcome. `responses[i]` is the API's answer to the
        i-th deletion. The table is left as it is. */
    method RemoveSelectedAccess(host: string, email: string, selected: seq<string>, responses: seq<Response>)
      requires table.Some?
      requires |responses| == |selected|
      requires forall i :: 0 <= i < |selected| ==> Selectable(UserRows(table.value, email), selected[i])
      modifies this`auditLogs
      ensures auditLogs == old(auditLogs) + AuditBatch(host, apiToken, email, UserRows(table.value, email), selected, responses)
      ensures table == old(table) && projects == old(projects)
    {
      var userRows := UserRows(table.value, email);
      for i := 0 to |selected|
        invariant auditLogs == old(auditLogs) + AuditBatch(host, apiToken, email, userRows, selected[..i], responses[..i])
      {
        var name := selected[i];
        var row := Resolve(userRows, name);
        var res := responses[i];
        var entry := EntryFor(host, apiToken, email, row, name, res);
        AuditBatchSnoc(host, apiToken, email, userRows, selected, responses, i);
        auditLogs := auditLogs + [entry];
      }
      assert selected[..|selected|] == selected;
      assert responses[..|responses|] == responses;
    }

    /** The audit log as displayed: newest entry first. */
    function ShownLog(): (shown: seq<AuditEntry>)
      reads this
      ensures |shown| == |auditLogs|
      ensures forall i :: 0 <= i < |auditLogs| ==> shown[i] == auditLogs[|auditLogs| - 1 - i]
    {
      Reversed(auditLogs)
    }
  }
}
