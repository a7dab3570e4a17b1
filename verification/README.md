# CleanHNote session store in Dafny

CleanHNote is a single-page task application. All of its state lives in one
in-memory `state` object. That object holds the registered accounts, the
logged-in account and its cached plan (Free or Premium), the personal tasks,
the teams, the team-to-tasks map and the team currently open. Event handlers
change the object directly. This project models that store and its handlers
as a pure transition system and proves the store's consistency rules, along
with the behaviour each handler promises.

Modules:

- `Text`: the ECMAScript string operations the handlers use. It covers
  `trim` with the exact WhiteSpace and LineTerminator set, `toLowerCase` and
  `toUpperCase`, `substring` with its index clamping, and the decimal
  rendering of a number.
- `Seqs`: `Option`, the array operations `findIndex`/`find` (`FindIndex`,
  the first match) and `filter` (`Filter`), and duplicate-freedom.
- `Escape`: `escapeHtml`. It comes in two forms: the source's chain of five
  `replace` calls (`EscapeHtmlAsWritten`) and a character-wise version
  (`EscapeHtml`). A lemma proves the two equal.
- `Store`: the entities (`User`, `Task`, `Team`, `TeamTask`), the `Store`
  record, the `Outcome` of a handler, the initial store, the invariant
  `Valid`, and the filters behind the personal task list and the team list.
- `Handlers`: one function per handler, `Store × inputs → Step(Store,
  Outcome)`. Form fields arrive as the strings the inputs hold. `Date.now()`
  is the parameter `now`, and `Math.random().toString(36)` is the parameter
  `randomText`. Nothing is assumed about either, so two teams can share an
  id or an invite code, as in the source.
- `Invariants`: every handler preserves `Valid`, so every store reachable
  from the initial one is valid (`ReachableValid`).
- `Scenarios`: properties that span several calls.

The invariant `Valid` says:

- emails are unique ignoring case;
- `isLoggedIn` mirrors `currentUser`;
- the current user is a registered account, and the cached plan is that
  account's plan, or Free when nobody is logged in;
- every task owner and team member is a registered email;
- every team's owner is a member;
- no team lists a member twice;
- every team id has an entry in the team-tasks map.

Some behaviours of the code are easy to miss; the model follows the code:

- Registration trims the username and the email but not the password. A
  password of spaces is accepted.
- An invite code has at most six characters, not always six:
  `substring(2, 8)` clamps to the random text's length.
- Team-task assignment does not check that the user is the team owner or
  that the assignee is a member. Only the UI hides the button.
- A task status is any string, because `updateTaskStatus` stores whatever
  it is given.
- With a Premium plan but nobody logged in, team creation would throw on
  `state.currentUser.email` before changing anything. This is the `Crashed`
  outcome. `Invariants.ValidNeverCrashes` shows that no valid store reaches
  it.
- Two teams created in the same millisecond share an id. The second
  creation then resets that id's task list to empty. `CreateTeam` states
  this exactly: only keys other than the new id are left unchanged.

## Model

| member | source | states |
|---|---|---|
| Store.InitialStore | script.js:8-21 | The page starts logged out with plan Free, the one seeded Premium account, no tasks or teams, and no team page open |
| Invariants.InitialValid | script.js:8-21 | The initial store satisfies every consistency rule |
| Text.Trim | script.js:344-345 | The result is the slice of the input between its leading and its trailing whitespace: it is empty exactly when the input is all ECMAScript whitespace, and a non-empty result neither starts nor ends with whitespace |
| Text.TrimCommutesWithLower | script.js:423 | Lower-casing commutes with trimming, because case mapping never creates or removes whitespace |
| Text.JsSubstring | script.js:404 | `substring(start, end)` with 0 <= start <= end returns at most end - start characters: exactly `s[start..end]` when both indices are in range, the rest of the string from `start` when `end` runs past its length, and the empty string when `start` is past it too |
| Text.ToLower | script.js:345 | Each ASCII capital becomes its small letter; every other character and the length are kept |
| Text.ToUpper | script.js:423 | Each ASCII small letter becomes its capital; every other character and the length are kept |
| Text.DecimalRoundTrip | script.js:401 | The decimal text of a timestamp reads back as the same number |
| Seqs.FindIndex | script.js:329 | `find` returns the first element that satisfies the predicate, and returns nothing exactly when no element does |
| Seqs.Filter | script.js:118 | `filter` keeps exactly the elements that satisfy the predicate |
| Seqs.FilterHead | script.js:118 | The head of a filtered list is the first element of the list that passes the filter |
| Seqs.FilterConcat | script.js:173 | Filtering distributes over concatenation, so the filtered views keep the list's order |
| Handlers.Register | script.js:342-367 | Fails with MissingField exactly when the username or email is blank after trimming or the password is empty. Fails with DuplicateEmail exactly when the fields are present and some account's email matches the new email ignoring case. Either failure leaves the store unchanged. Success appends exactly one Free account with the trimmed, lower-cased email, makes it current with plan Free, and leaves tasks and teams alone |
| Handlers.Login | script.js:325-340 | Succeeds exactly when some account matches the trimmed email ignoring case and the password exactly. The first such account becomes current and its plan becomes the session plan. Failure changes nothing |
| Handlers.Logout | script.js:302-305 | Ends the session and resets the plan to Free, keeping accounts, tasks and teams |
| Handlers.AddTask | script.js:369-386 | Without a current user nothing changes. Otherwise exactly one task is put at the front: status "Baru", owner = current email, title and description trimmed. Existing tasks and the rest of the store are unchanged. The owner's task view gains the new task at its head, and it becomes the latest task |
| Store.PersonalTasksView | script.js:101-118 | Logged out, the view is empty. Logged in, it holds exactly the tasks the current user owns |
| Store.LatestTask | script.js:118-149 | The dashboard's latest task exists exactly when the current user owns some task, and it is the first task in the store's list that the user owns; since new tasks go to the front, that is the newest one |
| Handlers.UpdateTaskStatus | script.js:505-513 | An id no task has changes nothing. Otherwise only the status of the first task with that id changes; every other task and field is unchanged, and any string is accepted |
| Scenarios.UpdateToSameStatus | script.js:505-513 | Giving the first task with an id the status it already has succeeds and leaves the store exactly as it was |
| Scenarios.UpdateTaskStatusIdempotent | script.js:505-513 | Setting the same status twice gives the same store as setting it once |
| Handlers.TeamIdInjective | script.js:401 | Teams created at different instants get different `team-<timestamp>` ids |
| Handlers.InviteCode | script.js:404 | A generated invite code is characters 2 to 7 of the random text, upper-cased: exactly six characters when the text has at least eight, the text's length minus two when it is shorter, empty when it has at most two, and no lower-case letter |
| Handlers.CreateTeam | script.js:393-410 | Without a Premium plan: NotPremium, store unchanged. Premium with nobody logged in: Crashed (the handler throws at script.js:405), store unchanged. Otherwise exactly one team is put at the front, owned by the current email with members = [owner], and its id gets an empty task list. Every other team and every other id's task list is unchanged, and the new team heads the creator's team view |
| Store.TeamsView | script.js:160-173 | Logged out, the view is empty. Logged in, it holds exactly the teams that list the current email as a member |
| Handlers.JoinTeam | script.js:417-440 | Logged out: NotLoggedIn. No team has the trimmed, upper-cased code: InvalidCode. The first team with that code already lists the user: AlreadyMember. Each of these leaves the store unchanged. Otherwise exactly the current email is appended to that first team's members and every other team is unchanged |
| Handlers.SelectTeam | script.js:473-477 | Opening a team page changes only which team is current |
| Handlers.MemberLabel | script.js:451-457 | An assignee is labelled with the username of the first account with exactly that email, or with the raw email when no account has it |
| Handlers.AssignTeamTask | script.js:442-462 | Fails with no change when the current team id names no team. Otherwise exactly one task is put at the front of that team's list, which is created if absent. Every other team's list and the rest of the store are unchanged |
| Escape.EscapeHtml | script.js:540-548 | The empty string escapes to the empty string, and the output never contains `<`, `>`, `"` or `'` |
| Escape.ChainIsCharwise | script.js:540-548 | The source's five chained replacements, `&` first, equal the character-wise escape, so entities introduced by later passes are never re-escaped |
| Escape.EscapeConcat | script.js:540-548 | Each character is escaped independently: escape(a + b) = escape(a) + escape(b) |
| Escape.EscapeIdentity | script.js:540-548 | A string without the five special characters is returned unchanged |
| Escape.UnescapeEscape | script.js:540-548 | Escaping loses no information: decoding the five entities gives back the input |
| Invariants.RegisterPreservesValid | script.js:353-363 | Registration keeps emails unique ignoring case and keeps the session consistent |
| Invariants.AddTaskPreservesValid | script.js:376-386 | A new task's owner is a registered account |
| Invariants.UpdateTaskStatusPreservesValid | script.js:505-513 | A status change keeps every task owner registered |
| Invariants.CreateTeamPreservesValid | script.js:400-410 | A new team's owner is its only member, the owner is registered, and the team id has a task list |
| Invariants.JoinTeamPreservesValid | script.js:426-433 | Joining keeps the owner a member, adds no duplicate member, and adds only registered emails |
| Invariants.LoginPreservesValid | script.js:329-334 | Login keeps the session consistent: the current user is a registered account and the plan is its plan |
| Invariants.LogoutPreservesValid | script.js:302-305 | After logout nobody is logged in and the plan is Free |
| Invariants.SelectTeamPreservesValid | script.js:473-477 | Opening a team page keeps every consistency rule |
| Invariants.AssignTeamTaskPreservesValid | script.js:442-462 | Assigning a team task keeps every consistency rule |
| Invariants.ApplyPreservesValid | script.js:302-513 | Every handler keeps every consistency rule |
| Invariants.RunPreservesValid | script.js:302-513 | Any sequence of user actions keeps every consistency rule |
| Invariants.ReachableValid | script.js:8-21 | Every store reachable from the initial store is consistent |
| Invariants.ValidNeverCrashes | script.js:395-405 | In a consistent store no handler throws: a Premium plan always comes with a logged-in user |
| Scenarios.AtMostOneEmailMatch | script.js:353 | With unique emails, at most one account matches a typed email ignoring case, so a successful login matches exactly one account |
| Scenarios.LoginFindsTheAccount | script.js:327-334 | In a consistent store, an account's email in any letter case, with surrounding spaces, plus its password logs in exactly that account with its plan |
| Scenarios.RegisterTwiceFails | script.js:353-356 | After a successful registration, registering an email that differs only in case or surrounding spaces fails with DuplicateEmail and changes nothing |
| Scenarios.RegisterThenLogin | script.js:342-367 | After registering and logging out, the same email and password log the new account back in with plan Free |
| Scenarios.NewAccountCannotCreateTeam | script.js:393-398 | A freshly registered account is on the Free plan, so team creation fails with NotPremium and changes nothing |
| Scenarios.JoinIgnoresCase | script.js:423 | An invite code may be typed in any letter case: joining with the lower-cased code acts exactly like joining with the code |
| Scenarios.JoinSameNormalizedCode | script.js:423-424 | Two typed codes that are equal after trimming and upper-casing have exactly the same effect on any store |
| Scenarios.JoinTwiceFails | script.js:427-429 | Joining the same code again after a successful join fails with AlreadyMember and changes nothing |
| Scenarios.JoinShowsTeam | script.js:430-432 | After a successful join the team appears in the user's team list, which grows by exactly one, and the team has exactly one more member |
| Scenarios.JoinNewestTeam | script.js:424-430 | Joining with the newest team's code as a non-member appends the user to that team |
| Scenarios.SecondUserJoinsNewTeam | script.js:400-430 | When a Premium owner creates a team and a different account logs in and joins with its code, the team's members are exactly [owner, joiner] |
| Scenarios.Relogin | script.js:302-334 | Logging out and back in changes who is logged in but not the teams |
| Scenarios.SelectThenAssign | script.js:444-448 | After opening the page of an existing team, assigning a task to it always finds the team |
| Scenarios.MemberLabelOfAccount | script.js:451-457 | With unique emails, an assignee who has an account is labelled with that account's username |

## Left out

- The DOM and the UI are not modelled: page switching, modals and their animation delays, toasts, form resets and the HTML the render functions build. Only the filters that choose what is rendered are kept.
- `state.currentPage` is page-navigation state and is not part of the `Store` record.
- `renderTeamInfo` and `viewTask` only render and are not modelled. `viewTeam`, which sets `currentTeamId`, is modelled by `SelectTeam`.
- The `formatDate` helper is left out: it depends on JavaScript `Date` parsing and locale-specific output.
- `copyInviteCode` is a clipboard call and is left out.
- Clock and randomness are parameters: `Date.now()` is `now` and `Math.random().toString(36)` is `randomText`. No uniqueness is assumed for either.
- Text.ToLower: case mapping covers the ASCII letters only. JavaScript's `toLowerCase` and `toUpperCase` also map non-ASCII letters, so emails or invite codes that differ only in non-ASCII case compare differently here.
- Text.ToUpper: same restriction as `Text.ToLower`.
- Passwords are compared for plain equality. Authentication security is out of scope.
- The `|| ''` fallbacks for missing input values are not modelled: form inputs always hold strings.
- Escape.EscapeHtml: only strings are modelled. The source's `String(str)` conversion of non-string values is not, and neither is the guard that returns `''` for falsy non-strings such as `0` or `null`.
- `teamTasks` is a JavaScript object, modelled as a map. Inherited prototype keys are ignored: team ids have the form `team-<digits>` and never collide with them.
