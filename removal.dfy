/** The removal workflow: resolve each selected project name to the selected
    user's first row for it, issue the deletion, and record one audit entry
    per selection with the token header masked. */
module Removal {
  import opened Wrappers
  import opened Strings
  import opened Seqs
  import opened AccessTable

  /** The answer of one deletion request. */
  datatype Response = Response(status: int, text: string)
  {
    /** `requests.Response.ok`: false exactly for the 4xx and 5xx statuses. */
    predicate Ok()
    {
      !(400 <= status < 600)
    }
  }

  /** One audit-log entry: the outcome, who was removed from which project,
      the request line, the headers as logged and, on failure, the response
      text. The timestamp is not modelled. */
  datatype AuditEntry = AuditEntry(
    succeeded: bool,
    email: string,
    userId: string,
    project: string,
    request: string,
    headers: map<string, string>,
    detail: Option<string>)

  const TokenHeader: string := "X-KBC-ManageApiToken"
  const JsonType: string := "application/json"
  const Mask: string := "***"

  /** The headers sent with every request of a session. */
  function RequestHeaders(token: string): map<string, string>
  {
    map[TokenHeader := token, "Content-Type" := JsonType, "Accept" := JsonType]
  }

  /** `{k: ("***" if "Token" in k else v) for k, v in headers.items()}`. */
  function Redact(h: map<string, string>): (r: map<string, string>)
    ensures r.Keys == h.Keys
    ensures forall k :: k in h && HasSubstring(k, "Token") ==> r[k] == Mask
    ensures forall k :: k in h && !HasSubstring(k, "Token") ==> r[k] == h[k]
  {
    map k | k in h :: if HasSubstring(k, "Token") then Mask else h[k]
  }

  /** The session's token header is masked. */
  lemma TokenHeaderMasked()
    ensures HasSubstring(TokenHeader, "Token")
  {
    assert OccursAt(TokenHeader, "Token", 15);
  }

  /** The two other headers of a session are logged as they are. */
  lemma JsonHeadersKept()
    ensures !HasSubstring("Content-Type", "Token") && !HasSubstring("Accept", "Token")
  {
    MissingCharNoSubstring("Content-Type", "Token", 'k');
    MissingCharNoSubstring("Accept", "Token", 'k');
  }

  /** The session's headers as they appear in the log: only the token header
      is masked, so the token value itself is never logged unless it happens
      to equal one of the two other logged strings. */
  lemma LoggedHeaders(token: string)
    ensures Redact(RequestHeaders(token)) == map[TokenHeader := Mask, "Content-Type" := JsonType, "Accept" := JsonType]
    ensures token != Mask && token != JsonType ==> token !in Redact(RequestHeaders(token)).Values
  {
    TokenHeaderMasked();
    JsonHeadersKept();
  }

  /** `f"{MANAGEMENT_API}/manage/projects/{proj_id}/users/{user_id}"`. */
  function DeleteUrl(host: string, projectId: string, userId: string): string
  {
    host + "/manage/projects/" + projectId + "/users/" + userId
  }

  /** `df_users[df_users["email"] == email]`: the selected user's rows, in
      table order. */
  function UserRows(table: seq<Grant>, email: string): (rows: seq<Grant>)
    ensures forall g :: g in rows <==> g in table && g.email == email
  {
    if table == [] then []
    else
      var last := table[|table| - 1];
      UserRows(table[..|table| - 1], email) + (if last.email == email then [last] else [])
  }

  /** The `k`-th of the user's rows, when it is the first of them for project
      `name`, is the first row of the whole table with that email and that
      project name. */
  lemma {:induction false} UserRowsFirst(table: seq<Grant>, email: string, name: string, k: nat)
    requires k < |UserRows(table, email)| && UserRows(table, email)[k].project == name
    requires forall l :: 0 <= l < k ==> UserRows(table, email)[l].project != name
    ensures exists t :: (0 <= t < |table| && table[t] == UserRows(table, email)[k]
      && table[t].email == email && table[t].project == name
      && forall l :: 0 <= l < t ==> !(table[l].email == email && table[l].project == name))
  {
    var n := |table| - 1;
    var pre := table[..n];
    var last := table[n];
    var rows := UserRows(table, email);
    assert table == pre + [last];
    assert rows == UserRows(pre, email) + (if last.email == email then [last] else []);
    if k < |UserRows(pre, email)| {
      assert forall l :: 0 <= l <= k ==> rows[l] == UserRows(pre, email)[l];
      UserRowsFirst(pre, email, name, k);
      var t :| 0 <= t < |pre| && pre[t] == UserRows(pre, email)[k]
        && pre[t].email == email && pre[t].project == name
        && forall l :: 0 <= l < t ==> !(pre[l].email == email && pre[l].project == name);
      assert forall l :: 0 <= l <= t ==> table[l] == pre[l];
    } else {
      assert rows[k] == last && last.email == email;
      forall l | 0 <= l < n
        ensures !(table[l].email == email && table[l].project == name)
      {
        if table[l].email == email {
          assert pre[l] in pre;
          var m :| 0 <= m < |UserRows(pre, email)| && UserRows(pre, email)[m] == pre[l];
          assert rows[m] == pre[l];
        }
      }
    }
  }

  /** A selected project name resolves to the first row of the whole table
      with the selected email and that project name. */
  lemma ResolveInTable(table: seq<Grant>, email: string, name: string)
    requires Selectable(UserRows(table, email), name)
    ensures exists t :: (0 <= t < |table| && table[t] == Resolve(UserRows(table, email), name)
      && table[t].email == email && table[t].project == name
      && forall l :: 0 <= l < t ==> !(table[l].email == email && table[l].project == name))
  {
    var rows := UserRows(table, email);
    var g := Resolve(rows, name);
    assert g.project == name;
    var k :| 0 <= k < |rows| && rows[k] == g
      && forall l :: 0 <= l < k ==> rows[l].project != name;
    UserRowsFirst(table, email, name, k);
  }

  /** Project `name` is among the user's rows: the multiselect offers exactly
      these names. */
  predicate Selectable(rows: seq<Grant>, name: string)
  {
    exists g :: g in rows && g.project == name
  }

  /** `user_projects[user_projects["project"] == name].iloc[0]`: the first of
      the user's rows for project `name`. */
  function Resolve(rows: seq<Grant>, name: string): (g: Grant)
    requires Selectable(rows, name)
    ensures g in rows && g.project == name
    ensures exists k :: 0 <= k < |rows| && rows[k] == g && forall l :: 0 <= l < k ==> rows[l].project != name
  {
    assert exists k :: 0 <= k < |rows| && rows[k].project == name;
    rows[FirstIndex(rows, (g: Grant) => g.project == name).value]
  }

  /** The audit entry of one deletion attempt. */
  function EntryFor(host: string, token: string, email: string, row: Grant, name: string, res: Response): AuditEntry
  {
    AuditEntry(res.Ok(), email, row.userId, name,
               "DELETE " + DeleteUrl(host, row.projectId, row.userId),
               Redact(RequestHeaders(token)),
               if res.Ok() then None else Some(res.text))
  }

  /** A deletion is logged as failed, with the response text, exactly when
      its status is in 400..599; any other status, 1xx to 3xx or 600 and
      above, is logged as a success without text. */
  lemma EntryOutcome(host: string, token: string, email: string, row: Grant, name: string, res: Response)
    ensures var e := EntryFor(host, token, email, row, name, res);
      && (e.succeeded <==> res.status < 400 || 600 <= res.status)
      && (e.detail.Some? <==> 400 <= res.status <= 599)
      && (e.detail.Some? ==> e.detail.value == res.text)
  {
  }

  /** The entries one removal batch appends, one per selection in selection
      order; `responses[i]` answers the deletion for `selected[i]`. */
  function AuditBatch(host: string, token: string, email: string, rows: seq<Grant>,
                      selected: seq<string>, responses: seq<Response>): seq<AuditEntry>
    requires |responses| == |selected|
    requires forall i :: 0 <= i < |selected| ==> Selectable(rows, selected[i])
  {
    if selected == [] then []
    else
      var n := |selected| - 1;
      AuditBatch(host, token, email, rows, selected[..n], responses[..n])
        + [EntryFor(host, token, email, Resolve(rows, selected[n]), selected[n], responses[n])]
  }

  /** Selecting one more project appends exactly that selection's entry. */
  lemma AuditBatchSnoc(host: string, token: string, email: string, rows: seq<Grant>,
                       selected: seq<string>, responses: seq<Response>, k: nat)
    requires |responses| == |selected| && k < |selected|
    requires forall i :: 0 <= i < |selected| ==> Selectable(rows, selected[i])
    ensures AuditBatch(host, token, email, rows, selected[..k + 1], responses[..k + 1])
      == AuditBatch(host, token, email, rows, selected[..k], responses[..k])
         + [EntryFor(host, token, email, Resolve(rows, selected[k]), selected[k], responses[k])]
  {
    assert selected[..k + 1][..k] == selected[..k];
    assert responses[..k + 1][..k] == responses[..k];
  }

  /** A batch logs exactly one entry per selection, in selection order,
      whatever the outcomes: entry `i` names project `selected[i]`, records
      whether deletion `i` succeeded, carries the response text exactly on
      failure, logs the masked headers, and names the user id and the request
      of the user's first row for that project. */
  lemma {:induction false} AuditBatchSpec(host: string, token: string, email: string, rows: seq<Grant>,
                                          selected: seq<string>, responses: seq<Response>)
    requires |responses| == |selected|
    requires forall i :: 0 <= i < |selected| ==> Selectable(rows, selected[i])
    ensures var b := AuditBatch(host, token, email, rows, selected, responses);
      && |b| == |selected|
      && forall i :: 0 <= i < |selected| ==>
           && b[i].project == selected[i]
           && b[i].email == email
           && b[i].succeeded == responses[i].Ok()
           && (b[i].detail == Some(responses[i].text) <==> !responses[i].Ok())
           && (b[i].detail == None <==> responses[i].Ok())
           && b[i].headers == Redact(RequestHeaders(token))
           && b[i].userId == Resolve(rows, selected[i]).userId
           && b[i].request == "DELETE " + DeleteUrl(host, Resolve(rows, selected[i]).projectId, b[i].userId)
  {
    if selected != [] {
      var n := |selected| - 1;
      AuditBatchSpec(host, token, email, rows, selected[..n], responses[..n]);
    }
  }
}
