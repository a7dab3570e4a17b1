/** The form and button handlers of script.js as pure transitions
    `Store × inputs → Step(Store, Outcome)`.

    DOM reads become parameters (form fields arrive as the raw strings the
    inputs hold), `Date.now()` becomes the parameter `now`, and
    `Math.random().toString(36)` becomes the parameter `randomText`; nothing
    is assumed about either, so equal ids and equal invite codes are
    possible. Toasts, modals, form resets and re-rendering are dropped. Every
    handler checks its conditions before it changes anything, so every
    failing outcome leaves the store exactly as it was. */
module Handlers {
  import opened Seqs
  import opened Text
  import opened Store

  /** Everything outside the account and session fields is unchanged. */
  predicate TasksAndTeamsUnchanged(s: Store, t: Store) {
    && t.personalTasks == s.personalTasks
    && t.teams == s.teams
    && t.teamTasks == s.teamTasks
    && t.currentTeamId == s.currentTeamId
  }

  /** The accounts and the session are unchanged. */
  predicate AccountsUnchanged(s: Store, t: Store) {
    && t.users == s.users
    && t.currentUser == s.currentUser
    && t.isLoggedIn == s.isLoggedIn
    && t.userPlan == s.userPlan
  }

  // ----- accounts and session -----

  /** Some account's email, lower-cased, is `email`. */
  predicate EmailTaken(users: seq<User>, email: string) {
    exists u :: u in users && ToLower(u.email) == email
  }

  /** The registration form (script.js:342-367). The username and email are
      trimmed and the email lower-cased; the password is taken as typed. */
  function Register(s: Store, username: string, email: string, password: string): (r: Step)
    ensures r.outcome == Ok || r.outcome == MissingField || r.outcome == DuplicateEmail
    ensures r.outcome == MissingField <==> AllWhitespace(username) || AllWhitespace(email) || password == ""
    ensures r.outcome == DuplicateEmail <==>
      && !AllWhitespace(username) && !AllWhitespace(email) && password != ""
      && EmailTaken(s.users, ToLower(Trim(email)))
    ensures r.outcome != Ok ==> r.store == s
    ensures r.outcome == Ok ==>
      && |r.store.users| == |s.users| + 1
      && r.store.users[..|s.users|] == s.users
      && var u := r.store.users[|s.users|];
      && u == User(ToLower(Trim(email)), password, Trim(username), Free)
      && r.store.currentUser == Some(u)
      && r.store.isLoggedIn
      && r.store.userPlan == Free
      && TasksAndTeamsUnchanged(s, r.store)
  {
    var name := Trim(username);
    var mail := ToLower(Trim(email));
    if name == "" || mail == "" || password == "" then
      Step(s, MissingField)
    else if EmailTaken(s.users, mail) then
      Step(s, DuplicateEmail)
    else
      var u := User(mail, password, name, Free);
      Step(s.(users := s.users + [u], isLoggedIn := true, currentUser := Some(u), userPlan := Free), Ok)
  }

  /** The stored account matches the typed email ignoring case, and the
      password exactly. */
  predicate Credentials(u: User, email: string, password: string) {
    ToLower(u.email) == ToLower(email) && u.password == password
  }

  /** The login form (script.js:325-340): the first account whose email
      matches the trimmed input ignoring case and whose password matches
      exactly becomes the current user, and its plan the session's plan. */
  function Login(s: Store, email: string, password: string): (r: Step)
    ensures r.outcome == Ok || r.outcome == InvalidCredentials
    ensures r.outcome == Ok <==> exists u :: u in s.users && Credentials(u, Trim(email), password)
    ensures r.outcome != Ok ==> r.store == s
    ensures r.outcome == Ok ==>
      && r.store.currentUser.Some?
      && (exists i :: 0 <= i < |s.users| && r.store.currentUser.value == s.users[i]
            && Credentials(s.users[i], Trim(email), password)
            && forall j :: 0 <= j < i ==> !Credentials(s.users[j], Trim(email), password))
      && r.store.isLoggedIn
      && r.store.userPlan == r.store.currentUser.value.plan
      && r.store.users == s.users
      && TasksAndTeamsUnchanged(s, r.store)
  {
    var typed := Trim(email);
    match FindIndex(s.users, (u: User) => Credentials(u, typed, password))
    case None => Step(s, InvalidCredentials)
    case Some(i) =>
      var u := s.users[i];
      Step(s.(isLoggedIn := true, currentUser := Some(u), userPlan := u.plan), Ok)
  }

  /** The logout button (script.js:302-305): the session ends and the plan
      falls back to Free; accounts, tasks and teams are kept. */
  function Logout(s: Store): (r: Step)
    ensures r.outcome == Ok
    ensures !r.store.isLoggedIn && r.store.currentUser.None? && r.store.userPlan == Free
    ensures r.store.users == s.users
    ensures TasksAndTeamsUnchanged(s, r.store)
  {
    Step(s.(isLoggedIn := false, currentUser := None, userPlan := Free), Ok)
  }

  // ----- personal tasks -----

  /** The add-task form (script.js:369-386): a new task with status "Baru",
      owned by the current user, goes to the front of the task list. */
  function AddTask(s: Store, now: nat, title: string, description: string, level: string, date: string): (r: Step)
    ensures r.outcome == Ok || r.outcome == NotLoggedIn
    ensures r.outcome == NotLoggedIn <==> s.currentUser.None?
    ensures r.outcome != Ok ==> r.store == s
    ensures r.outcome == Ok ==>
      && |r.store.personalTasks| == |s.personalTasks| + 1
      && r.store.personalTasks[1..] == s.personalTasks
      && r.store.personalTasks[0] == Task(now, Trim(title), Trim(description), level, date, "Baru", s.currentUser.value.email)
      && AccountsUnchanged(s, r.store)
      && r.store.teams == s.teams && r.store.teamTasks == s.teamTasks && r.store.currentTeamId == s.currentTeamId
    ensures r.outcome == Ok ==>
      && PersonalTasksView(r.store) == [r.store.personalTasks[0]] + PersonalTasksView(s)
      && LatestTask(r.store) == Some(r.store.personalTasks[0])
  {
    match s.currentUser
    case None => Step(s, NotLoggedIn)
    case Some(u) =>
      var t := Task(now, Trim(title), Trim(description), level, date, "Baru", u.email);
      var s' := s.(personalTasks := [t] + s.personalTasks);
      assert ([t] + s.personalTasks)[1..] == s.personalTasks;
      Step(s', Ok)
  }

  /** `i` is the first task in `tasks` with this id. */
  predicate FirstTaskWithId(tasks: seq<Task>, i: int, id: int) {
    && 0 <= i < |tasks|
    && tasks[i].id == id
    && forall j :: 0 <= j < i ==> tasks[j].id != id
  }

  /** `updateTaskStatus` (script.js:505-513): the first task with the id gets
      the new status, whatever string it is; an unknown id changes nothing. */
  function UpdateTaskStatus(s: Store, taskId: int, newStatus: string): (r: Step)
    ensures r.outcome == Ok || r.outcome == TaskNotFound
    ensures r.outcome == TaskNotFound <==> forall t :: t in s.personalTasks ==> t.id != taskId
    ensures r.outcome != Ok ==> r.store == s
    ensures r.outcome == Ok ==>
      && r.store == s.(personalTasks := r.store.personalTasks)
      && |r.store.personalTasks| == |s.personalTasks|
      && exists i :: FirstTaskWithId(s.personalTasks, i, taskId)
           && r.store.personalTasks[i] == s.personalTasks[i].(status := newStatus)
           && forall j :: 0 <= j < |s.personalTasks| && j != i ==> r.store.personalTasks[j] == s.personalTasks[j]
  {
    match FindIndex(s.personalTasks, (t: Task) => t.id == taskId)
    case None => Step(s, TaskNotFound)
    case Some(i) =>
      var tasks := s.personalTasks[i := s.personalTasks[i].(status := newStatus)];
      assert FirstTaskWithId(s.personalTasks, i, taskId);
      Step(s.(personalTasks := tasks), Ok)
  }

  // ----- teams -----

  /** `team-${Date.now()}` (script.js:401). */
  function TeamId(now: nat): (id: string)
    ensures "team-" <= id
  {
    "team-" + NatToDecimal(now)
  }

  /** Teams created at different instants get different ids. */
  lemma TeamIdInjective(a: nat, b: nat)
    ensures TeamId(a) == TeamId(b) ==> a == b
  {
    if TeamId(a) == TeamId(b) {
      assert NatToDecimal(a) == TeamId(a)[5..];
      assert NatToDecimal(b) == TeamId(b)[5..];
      NatToDecimalInjective(a, b);
    }
  }

  /** `Math.random().toString(36).substring(2, 8).toUpperCase()`
      (script.js:404), with the random text as a parameter: at most six
      characters, and no lower-case letter survives. */
  function InviteCode(randomText: string): (code: string)
    ensures |code| <= 6
    ensures |randomText| >= 8 ==> |code| == 6
    ensures 2 < |randomText| < 8 ==> |code| == |randomText| - 2
    ensures |randomText| <= 2 ==> code == ""
    ensures forall k :: 0 <= k < |code| ==> code[k] == UpperChar(randomText[k + 2])
    ensures forall i :: 0 <= i < |code| ==> !('a' <= code[i] <= 'z')
  {
    ToUpper(JsSubstring(randomText, 2, 8))
  }

  /** The create-team form (script.js:393-410). Only a Premium session may
      create a team; the creator is its owner and only member, and the team
      gets an empty task list. With a Premium plan but nobody logged in the
      source would throw on `state.currentUser.email` before changing
      anything; that is the `Crashed` outcome, which `Valid` stores never
      reach. */
  function CreateTeam(s: Store, now: nat, name: string, description: string, randomText: string): (r: Step)
    ensures r.outcome == Ok || r.outcome == NotPremium || r.outcome == Crashed
    ensures r.outcome == NotPremium <==> s.userPlan != Premium
    ensures r.outcome == Crashed <==> s.userPlan == Premium && s.currentUser.None?
    ensures r.outcome != Ok ==> r.store == s
    ensures r.outcome == Ok ==>
      && var owner := s.currentUser.value.email;
      && var team := Team(TeamId(now), Trim(name), Trim(description), InviteCode(randomText), owner, [owner]);
      && |r.store.teams| == |s.teams| + 1
      && r.store.teams[0] == team
      && r.store.teams[1..] == s.teams
      && r.store.teamTasks.Keys == s.teamTasks.Keys + {team.id}
      && r.store.teamTasks[team.id] == []
      && (forall k :: k in s.teamTasks && k != team.id ==> r.store.teamTasks[k] == s.teamTasks[k])
      && AccountsUnchanged(s, r.store)
      && r.store.personalTasks == s.personalTasks && r.store.currentTeamId == s.currentTeamId
      && TeamsView(r.store) == [team] + TeamsView(s)
  {
    if s.userPlan != Premium then
      Step(s, NotPremium)
    else
      match s.currentUser
      case None => Step(s, Crashed)
      case Some(u) =>
        var team := Team(TeamId(now), Trim(name), Trim(description), InviteCode(randomText), u.email, [u.email]);
        var s' := s.(teams := [team] + s.teams, teamTasks := s.teamTasks[team.id := []]);
        assert TeamsView(s') == [team] + TeamsView(s) by {
          assert ([team] + s.teams)[0] == team && ([team] + s.teams)[1..] == s.teams;
        }
        Step(s', Ok)
  }

  /** `i` is the first team in `teams` with this invite code. */
  predicate FirstTeamWithCode(teams: seq<Team>, i: int, code: string) {
    && 0 <= i < |teams|
    && teams[i].inviteCode == code
    && forall j :: 0 <= j < i ==> teams[j].inviteCode != code
  }

  /** The search predicate of the join form: teams with this invite code. */
  function HasCode(code: string): Team -> bool {
    (t: Team) => t.inviteCode == code
  }

  /** The typed invite code as the join form matches it: trimmed and upper-cased. */
  function NormalizeCode(code: string): string {
    ToUpper(Trim(code))
  }

  /** The join-team form (script.js:417-440). The typed code is trimmed and
      upper-cased; the first team with that code gains the current user's
      email as its last member, unless the email is already a member. */
  function JoinTeam(s: Store, code: string): (r: Step)
    ensures r.outcome == Ok || r.outcome == NotLoggedIn || r.outcome == InvalidCode || r.outcome == AlreadyMember
    ensures r.outcome == NotLoggedIn <==> s.currentUser.None?
    ensures r.outcome == InvalidCode <==>
      s.currentUser.Some? && forall t :: t in s.teams ==> t.inviteCode != NormalizeCode(code)
    ensures r.outcome == AlreadyMember <==>
      s.currentUser.Some? && exists i :: FirstTeamWithCode(s.teams, i, NormalizeCode(code)) && s.currentUser.value.email in s.teams[i].members
    ensures r.outcome != Ok ==> r.store == s
    ensures r.outcome == Ok ==>
      && r.store == s.(teams := r.store.teams)
      && |r.store.teams| == |s.teams|
      && exists i :: FirstTeamWithCode(s.teams, i, NormalizeCode(code))
           && s.currentUser.value.email !in s.teams[i].members
           && r.store.teams[i] == s.teams[i].(members := s.teams[i].members + [s.currentUser.value.email])
           && forall j :: 0 <= j < |s.teams| && j != i ==> r.store.teams[j] == s.teams[j]
  {
    match s.currentUser
    case None => Step(s, NotLoggedIn)
    case Some(u) =>
      var typed := NormalizeCode(code);
      match FindIndex(s.teams, HasCode(typed))
      case None => Step(s, InvalidCode)
      case Some(i) =>
        assert FirstTeamWithCode(s.teams, i, typed);
        var team := s.teams[i];
        if u.email in team.members then
          Step(s, AlreadyMember)
        else
          Step(s.(teams := s.teams[i := team.(members := team.members + [u.email])]), Ok)
  }

  /** `viewTeam` (script.js:473-477): opening a team's page makes it the
      team that task assignment targets; the id is taken as given. */
  function SelectTeam(s: Store, teamId: string): (r: Step)
    ensures r.outcome == Ok
    ensures r.store.currentTeamId == Some(teamId)
    ensures r.store == s.(currentTeamId := r.store.currentTeamId)
  {
    Step(s.(currentTeamId := Some(teamId)), Ok)
  }

  /** `i` is the first account in `users` whose email is exactly `email`. */
  predicate FirstUserWithEmail(users: seq<User>, i: int, email: string) {
    && 0 <= i < |users|
    && users[i].email == email
    && forall j :: 0 <= j < i ==> users[j].email != email
  }

  /** The label shown for an assignee: the username of the first account
      whose email is exactly `member`, or `member` itself. */
  function MemberLabel(users: seq<User>, member: string): (shown: string)
    ensures (forall u :: u in users ==> u.email != member) ==> shown == member
    ensures (exists u :: u in users && u.email == member) ==>
      exists i :: FirstUserWithEmail(users, i, member) && shown == users[i].username
  {
    match FindIndex(users, (u: User) => u.email == member)
    case None => member
    case Some(i) =>
      assert FirstUserWithEmail(users, i, member);
      users[i].username
  }

  /** The assign-team-task form (script.js:442-462). The team is the one
      `currentTeamId` names; the assignee is not checked against the team's
      members. The new task goes to the front of that team's list, which is
      created if missing; no other team's list changes. */
  function AssignTeamTask(s: Store, now: nat, member: string, title: string, description: string, date: string): (r: Step)
    ensures r.outcome == Ok || r.outcome == TeamNotFound
    ensures r.outcome == TeamNotFound <==>
      s.currentTeamId.None? || forall t :: t in s.teams ==> t.id != s.currentTeamId.value
    ensures r.outcome != Ok ==> r.store == s
    ensures r.outcome == Ok ==>
      && var id := s.currentTeamId.value;
      && var task := TeamTask(now, Trim(title), Trim(description), member, MemberLabel(s.users, member), date);
      && r.store == s.(teamTasks := r.store.teamTasks)
      && r.store.teamTasks.Keys == s.teamTasks.Keys + {id}
      && r.store.teamTasks[id] == [task] + (if id in s.teamTasks then s.teamTasks[id] else [])
      && forall k :: k in s.teamTasks && k != id ==> r.store.teamTasks[k] == s.teamTasks[k]
  {
    match s.currentTeamId
    case None => Step(s, TeamNotFound)
    case Some(id) =>
      match FindIndex(s.teams, (t: Team) => t.id == id)
      case None => Step(s, TeamNotFound)
      case Some(i) =>
        var team := s.teams[i];
        var task := TeamTask(now, Trim(title), Trim(description), member, MemberLabel(s.users, member), date);
        var existing := if team.id in s.teamTasks then s.teamTasks[team.id] else [];
        Step(s.(teamTasks := s.teamTasks[team.id := [task] + existing]), Ok)
  }
}
