# Keboola project user manager — access table, matrix and removal workflow

This project models the data-reshaping core of a small administrative dashboard for the Keboola management API. The dashboard lists the projects of an organization and the users of each project. It flattens them into one access table with one grant row per (project, user). From that table it derives a user × project role matrix. It can also remove a user from selected projects, keeping a session audit log. The whole program is one script, `app.py`. The model lifts its inline logic into Dafny modules:

- `Json` (json.dfy): decoded API values, with Python truthiness, `key in value` and `dict.get`.
- `AccessTable` (table.dfy): the extraction rules for one grant row, the table as a specification function (`Table`), and the nested loop that builds it (`BuildTable`).
- `AccessMatrix` (matrix.dfy): the role icons, the id-to-name map, the sorted row and column labels, the cell rule, the matrix loop (`BuildMatrix`) and the removal tab's default email index.
- `Removal` (removal.dfy): request headers and their redaction, resolving a selected project name to a row, and the audit entries of one removal batch.
- `Host` (host.dfy): the stack selector and the `startswith("http")` host check.
- `Dashboard` (session.dfy): the session state as a class. `LoadUsers` either replaces the loaded projects and table wholesale or changes nothing. `RemoveSelectedAccess` appends one audit entry per selection and never touches the table. `ShownLog` shows the log newest first.
- `Strings`, `Seqs`, `Wrappers`: Python's substring test and string order, sort-and-deduplicate, first match, reversal, Option and Result.

Network calls are inputs. The project list is the `fetched` parameter of `LoadUsers`. Each project's user list is a function `usersOf` from project id to records, which also captures the memoised fetch: the same id always yields the same list. Each deletion's answer is one element of `responses`. The removal method requires every selected name to be one of the selected user's project names, which is what the multiselect at app.py:209-212 offers.

The extraction rules follow Python's semantics:
- `reason` is kept whenever `"email" in value` holds. In Python that means a dict with the key "email", a str containing "email", or a list containing the string "email".
- `invitor`/`approver` raise TypeError for a str or list that contains "email", and for a truthy bool or number. A load that raises leaves the session unchanged, because the assignments at app.py:127-128 are never reached.

## Model

| member | source | states |
|---|---|---|
| `AccessTable.ReasonRule` | app.py:122 | with `Json.Truthy` as Python truthiness and `Json.Member` as Python's `in` (a TypeError for None, bools and numbers), `reason` is non-None iff the upstream value is truthy and `"email" in` it holds (a dict key, a substring of a str, an element of a list), and then it is the upstream value unchanged; only a truthy bool or number raises |
| `AccessTable.NestedEmailRule` | app.py:123-124 | `invitor`/`approver` take the nested "email" value exactly for a dict with that key; a str or list containing "email", a truthy bool or a non-zero number raises; anything else gives None |
| `AccessTable.GrantFields` | app.py:113-125 | a row copies the user's id, email and role, the enclosing project's name and id, the session org id and the raw expires/created values, and applies the two extraction rules |
| `AccessTable.RowsSpec` | app.py:112-125 | one project's rows are one per user in user order, and exist iff no user's extraction raises |
| `AccessTable.TableOkIff` | app.py:110-125 | the load builds a table iff no (project, user) pair's extraction raises |
| `AccessTable.TableLength` | app.py:109-125 | the table has as many rows as there are user records over all projects |
| `AccessTable.TableLayout` | app.py:110-125 | exactly one row per (project, user) pair, ordered by project then by user: the row of user j of project i follows all rows of earlier projects |
| `AccessTable.TotalUsersGrows` | app.py:110-125 | the rows of the projects before a later project include all rows of project `i` and of the projects before it |
| `AccessTable.PairOffsetsIncrease` | app.py:110-125 | row offsets increase strictly with (project, user) in lexicographic order, so distinct pairs own distinct rows |
| `AccessTable.TableAt` | app.py:110-125 | the row of user j of project i sits at the offset given by the users of the earlier projects and is that pair's grant |
| `AccessTable.TableRowsFromInputs` | app.py:117-119 | every row carries the session org id and the name and id of a fetched project with one of its users, so nothing from an earlier load survives |
| `AccessTable.BuildTable` | app.py:109-125 | the nested append loop returns exactly the specified table, or the first extraction error |
| `AccessTable.RowsErrExtends` | app.py:112-125 | once a user's extraction raises, the whole project's rows fail with that error |
| `AccessTable.TableErrExtends` | app.py:110-125 | once a project's rows fail, the whole load fails with that error |
| `AccessMatrix.RoleIconsDistinct` | app.py:158-184 | exactly Share, Admin, Guest and ReadOnly get an icon other than the unknown-role icon, and the four icons differ |
| `AccessMatrix.ProjIdToName` | app.py:165 | the id-to-name map has one key per fetched project id |
| `AccessMatrix.ProjIdToNameLastWins` | app.py:165 | each id maps to the name of the last fetched project with that id |
| `AccessMatrix.CellFor` | app.py:181-187 | a cell is blank iff no row has that (email, project id); otherwise it is the role of the first matching row with that role's icon |
| `AccessMatrix.MatrixShape` | app.py:166-189 | rows are the distinct emails in increasing order; columns are the distinct fetched project ids in increasing order, so projects with no users still get a column; every cell follows the cell rule |
| `AccessMatrix.BuildMatrix` | app.py:177-189 | the nested row/cell loop produces exactly the specified matrix |
| `AccessMatrix.OverviewAsWritten` | app.py:172 | the overview raises KeyError exactly when the table is empty, and is otherwise the corrected matrix |
| `AccessMatrix.EmptyLoadBreaksOverview` | app.py:126 | a load of one project whose user list is empty builds the empty table, and the overview then raises on it, where the corrected matrix has no rows and one column |
| `AccessMatrix.EmptyTableMatrix` | app.py:166-172 | for an empty table the matrix has no rows and still one column per distinct fetched project id |
| `AccessMatrix.DefaultIndex` | app.py:203-204 | the default selection is the first position of the value read from the page address (app.py:138) when it is listed, else 0 |
| `AccessMatrix.UrlEmailNeverPreselects` | app.py:138 | as written (`SelectedFromUrlAsWritten`), the address value is cut to its first character, so when every listed email is longer than one character the default index is 0 whatever email the address carries; only an empty value raises |
| `AccessMatrix.UrlEmailExample` | app.py:138 | with two users, the link for the second selects the first as written, and the second with the whole value |
| `AccessMatrix.UrlEmailPreselects` | app.py:173-204 | reading the whole value (`SelectedFromUrl`), the link for a listed email preselects exactly that email |
| `Strings.SortedDistinct` | app.py:172 | `sorted(unique(...))`: strictly increasing in Python's string order, with exactly the input's elements |
| `Strings.StrictlySortedUnique` | app.py:166 | two strictly increasing sequences with the same elements are equal, so the sorted labels are determined by the set of values |
| `Strings.LessTotal` | app.py:166 | Python's string order relates every two different strings |
| `Strings.LessTransitive` | app.py:166 | Python's string order is transitive |
| `Strings.LessIrreflexive` | app.py:166 | no string is less than itself |
| `Strings.MissingCharNoSubstring` | app.py:223 | a string lacking one of the characters of `sub` does not contain `sub` |
| `Seqs.FirstIndex` | app.py:183 | the first position satisfying a filter, or None iff no position does |
| `Removal.Redact` | app.py:223 | redaction keeps the keys; every key containing "Token" maps to "***" and every other value is unchanged |
| `Removal.TokenHeaderMasked` | app.py:68-72 | the token header's key contains "Token" |
| `Removal.JsonHeadersKept` | app.py:68-72 | the Content-Type and Accept keys do not contain "Token" |
| `Removal.LoggedHeaders` | app.py:223 | the logged headers are the token header masked and the two JSON headers unchanged; the token never appears unless it equals "***" or "application/json" |
| `Removal.UserRows` | app.py:206 | the selected user's rows are exactly the table rows with that email |
| `Removal.UserRowsFirst` | app.py:206-216 | the first of the selected user's rows with a project name is the first row of the whole table with that email and that project name |
| `Removal.ResolveInTable` | app.py:206-218 | a selected project name resolves to the first table row with the selected email and that name, which decides the project and user id of the deletion when project names repeat |
| `Removal.EntryOutcome` | app.py:225-237 | with `Removal.Response.Ok` as `requests`' `ok`, a deletion is logged as failed, with the response text, exactly for statuses 400-599; 1xx-3xx and 600 or above are logged as successes without text |
| `Removal.Resolve` | app.py:216-218 | a selected name resolves to the first of the user's rows with that project name |
| `Removal.AuditBatchSnoc` | app.py:215-240 | one more selection appends exactly that selection's entry |
| `Removal.AuditBatchSpec` | app.py:215-240 | one entry per selection in selection order: it names the project, records the deletion's outcome, carries the response text exactly on failure, logs the masked headers, and names the resolved row's user id and delete URL |
| `Seqs.Reversed` | app.py:244 | reversal keeps the length and puts element i at position n-1-i |
| `Dashboard.Session.ShownLog` | app.py:244 | the audit log is shown newest entry first |
| `Dashboard.Session.constructor` | app.py:51-55 | a session starts with its default credentials, nothing loaded and an empty audit log |
| `Dashboard.Session.SetCredentials` | app.py:60-61 | the sidebar fields overwrite the token and the organization id |
| `Dashboard.Session.LoadUsers` | app.py:103-128 | with a missing token or org id nothing changes; otherwise projects and table are replaced wholesale by the fetched projects and the table built from them; if building raises, nothing changes |
| `Dashboard.Session.RemoveSelectedAccess` | app.py:214-240 | appends exactly the batch's entries, one per selection whatever each outcome, and leaves the table and projects unchanged |
| `Host.PresetHostsAccepted` | app.py:26-44 | every preset stack URL passes the host check unchanged |
| `Host.CustomHostChecked` | app.py:37-44 | a custom host is accepted unchanged iff it starts with "http"; the prefilled "https://" passes |

## Left out

- Streamlit presentation: the sidebar, tabs, buttons, select boxes, messages, HTML and markdown rendering, and `st.stop`. These are presentation only. The host check returns None where the page stops.
- HTTP: token verification (app.py:74-83), listing projects and users (app.py:89-98) and the DELETE call (app.py:220). This is network I/O. Their results are inputs: `fetched`, `usersOf` and `responses`. A failed list request is simply an empty input list.
- `st.cache_data` memoisation (app.py:88, 94). Only its visible effect is kept: `usersOf` is a function, so one id always yields one user list.
- pandas: the DataFrame is a sequence of `Grant` records. The CSV export and `to_html` (app.py:152-156, 191-197) are not modelled.
- Clock and text formatting: the audit timestamp (app.py:221), the f-string message texts (app.py:226-237), the HTML links and span markup (app.py:167-175, 185), and the order in which the header dict is printed.
- How Streamlit fills `st.query_params` (app.py:137). The parameter arrives as an optional string. Line 138 keeps only its first character, so the email links never preselect a user; see "## Findings".
- Secrets loading and session-state initialisation (app.py:16-19, 51-55) are reduced to the `Session` constructor's arguments.
- Typed identity fields: a user record's `id`, `email` and `role` and a project's `id` and `name` are strings. So a record without them (`user.get` giving None, or KeyError on `proj["id"]`) is not modelled. The other user attributes are full JSON values. Ids are compared as strings, so numeric project ids that Python would sort numerically at app.py:166 are ordered by code point here ("10" before "9").
- JSON numbers are integers; floating-point values are not modelled.
- `AccessTable.ReasonOf` and `AccessTable.NestedEmailOf` report one generic TypeError text rather than Python's exact message.

## Findings

| source | as written | input that shows it | evidently intended | confidence | as-written member | corrected member |
|---|---|---|---|---|---|---|
| app.py:172 | an empty load stores `pd.DataFrame([])`, which has no columns, so `df_users["email"]` raises KeyError: after the caption, the count line and the CSV button, the role matrix and the User Removal tab never render, on this and every later rerun, because the empty DataFrame stays stored in the session | one fetched project `p1`/"Alpha" with no users, or a failed project request that yields an empty list | an empty matrix with one column per fetched project | not executed; high (`pd.DataFrame([])` has no columns) | `AccessMatrix.EmptyLoadBreaksOverview` | `AccessMatrix.EmptyTableMatrix` |
| app.py:138 | `query_params.get("email", [None])[0]` indexes the parameter's string value and keeps its first character, so `selected_from_url in emails` fails for every real address and the removal tab always preselects the first email | the email link `?email=b@x.com` with users `a@x.com` and `b@x.com`: the value reaching line 204 is `"b"`, the default index 0 | `query_params.get("email")`, the whole address, preselecting `b@x.com` at index 1 | not executed; medium (relies on `st.query_params` mapping keys to strings, as Streamlit documents) | `AccessMatrix.UrlEmailNeverPreselects` | `AccessMatrix.UrlEmailPreselects` |
