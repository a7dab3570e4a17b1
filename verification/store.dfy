/** The in-memory session store of CleanHNote (the `state` object of
    script.js) and the consistency rules its handlers maintain.

    The store is an immutable value; every handler in `Handlers` maps a
    store and the submitted form values to a new store and an outcome. The
    `currentPage` field is page navigation and is not part of the model. */
module Store {
  import opened Seqs
  import opened Text

  datatype Plan = Free | Premium

  /** A registered account. The password is kept and compared in plain text. */
  datatype User = User(email: string, password: string, username: string, plan: Plan)

  /** A personal task. `status` is any string: `updateTaskStatus` accepts
      whatever it is given, not only the four statuses the UI offers. */
  datatype Task = Task(
    id: int,
    title: string,
    description: string,
    level: string,
    date: string,
    status: string,
    owner: string)

  datatype Team = Team(
    id: string,
    name: string,
    description: string,
    inviteCode: string,
    owner: string,
    members: seq<string>)

  /** A task assigned within a team; `memberLabel` is a snapshot of the
      assignee's username taken when the task was assigned. */
  datatype TeamTask = TeamTask(
    id: int,
    title: string,
    description: string,
    member: string,
    memberLabel: string,
    date: string)

  datatype Store = Store(
    isLoggedIn: bool,
    userPlan: Plan,
    users: seq<User>,
    currentUser: Option<User>,
    personalTasks: seq<Task>,
    teams: seq<Team>,
    teamTasks: map<string, seq<TeamTask>>,
    currentTeamId: Option<string>)

  /** Why a handler did or did not change the store. `TaskNotFound` is the
      silent no-op of `updateTaskStatus`; `Crashed` is a handler that would
      throw before mutating anything (see `Handlers.CreateTeam`). */
  datatype Outcome =
    | Ok
    | MissingField
    | DuplicateEmail
    | InvalidCredentials
    | NotLoggedIn
    | NotPremium
    | InvalidCode
    | AlreadyMember
    | TeamNotFound
    | TaskNotFound
    | Crashed

  datatype Step = Step(store: Store, outcome: Outcome)

  /** The account the application ships with, for trying out Premium features. */
  const SeedUser := User("User1@gmail.com", "user12345", "PremiumUser", Premium)

  /** The store as the page loads: nobody logged in, plan Free, one account. */
  function InitialStore(): (s: Store)
    ensures !s.isLoggedIn && s.currentUser.None? && s.userPlan == Free
    ensures s.users == [SeedUser]
    ensures s.personalTasks == [] && s.teams == [] && s.teamTasks == map[]
    ensures s.currentTeamId.None?
  {
    Store(false, Free, [SeedUser], None, [], [], map[], None)
  }

  /** No two accounts have emails that are equal ignoring letter case. */
  predicate UniqueEmails(users: seq<User>) {
    forall i, j :: 0 <= i < j < |users| ==> ToLower(users[i].email) != ToLower(users[j].email)
  }

  /** Some account has exactly this email. */
  predicate Registered(users: seq<User>, email: string) {
    exists u :: u in users && u.email == email
  }

  /** `isLoggedIn` mirrors `currentUser`; the current user is a registered
      account; and the cached plan is that account's plan, or Free when
      nobody is logged in (so a Premium plan implies a logged-in user). */
  predicate SessionConsistent(s: Store) {
    && s.isLoggedIn == s.currentUser.Some?
    && match s.currentUser
       case None => s.userPlan == Free
       case Some(u) => u in s.users && s.userPlan == u.plan
  }

  /** The owner is a member, nobody is a member twice, and every member is
      the email of a registered account. */
  predicate TeamConsistent(t: Team, users: seq<User>) {
    && t.owner in t.members
    && NoDuplicates(t.members)
    && forall m :: m in t.members ==> Registered(users, m)
  }

  /** The consistency rules every reachable store satisfies. */
  predicate Valid(s: Store) {
    && UniqueEmails(s.users)
    && SessionConsistent(s)
    && (forall t :: t in s.personalTasks ==> Registered(s.users, t.owner))
    && (forall t :: t in s.teams ==> TeamConsistent(t, s.users))
    && (forall t :: t in s.teams ==> t.id in s.teamTasks)
  }

  /** The filter of the personal task list: tasks owned by `email`. */
  function OwnedBy(email: string): Task -> bool {
    (t: Task) => t.owner == email
  }

  /** The filter of the team list: teams with `email` among their members. */
  function HasMember(email: string): Team -> bool {
    (t: Team) => email in t.members
  }

  /** The personal task list the UI shows: the tasks owned by the current
      user, newest first. Logged out, the UI shows a placeholder instead,
      modelled as the empty list. */
  function PersonalTasksView(s: Store): (v: seq<Task>)
    ensures s.currentUser.None? ==> v == []
    ensures forall i :: 0 <= i < |v| ==> v[i] in s.personalTasks && v[i].owner == s.currentUser.value.email
    ensures s.currentUser.Some? ==> forall i :: 0 <= i < |s.personalTasks| && s.personalTasks[i].owner == s.currentUser.value.email ==> s.personalTasks[i] in v
  {
    match s.currentUser
    case None => []
    case Some(u) => Filter(s.personalTasks, OwnedBy(u.email))
  }

  /** Task `i` of the store's list belongs to the logged-in user. */
  predicate Owns(s: Store, i: int) {
    s.currentUser.Some? && 0 <= i < |s.personalTasks| && s.personalTasks[i].owner == s.currentUser.value.email
  }

  /** The dashboard's "latest task": the head of the personal task view,
      which is the first task in the store's list that the current user
      owns. New tasks are put at the front, so it is the newest one. */
  function LatestTask(s: Store): (t: Option<Task>)
    ensures t.Some? <==> exists i :: Owns(s, i)
    ensures t.Some? ==> exists i :: (Owns(s, i) && t.value == s.personalTasks[i]
      && forall j :: 0 <= j < i ==> !Owns(s, j))
  {
    match s.currentUser
    case None => None
    case Some(u) =>
      var v := PersonalTasksView(s);
      assert (exists i :: Owns(s, i)) ==> |v| > 0 by {
        if i :| Owns(s, i) {
          assert s.personalTasks[i] in v;
        }
      }
      assert |v| > 0 ==> exists i :: (Owns(s, i) && v[0] == s.personalTasks[i]
        && forall j :: 0 <= j < i ==> !Owns(s, j)) by {
        var xs, p := s.personalTasks, OwnedBy(u.email);
        FilterHead(xs, p);
        if |v| > 0 {
          var i :| 0 <= i < |xs| && p(xs[i]) && v[0] == xs[i] && forall j :: 0 <= j < i ==> !p(xs[j]);
          assert Owns(s, i);
        }
      }
      if |v| == 0 then None else Some(v[0])
  }

  /** The team list the UI shows: the teams the current user is a member of. */
  function TeamsView(s: Store): (v: seq<Team>)
    ensures s.currentUser.None? ==> v == []
    ensures forall i :: 0 <= i < |v| ==> v[i] in s.teams && s.currentUser.value.email in v[i].members
    ensures s.currentUser.Some? ==> forall i :: 0 <= i < |s.teams| && s.currentUser.value.email in s.teams[i].members ==> s.teams[i] in v
  {
    match s.currentUser
    case None => []
    case Some(u) => Filter(s.teams, HasMember(u.email))
  }
}
