/** The store's consistency rules (`Store.Valid`) hold in the initial store
    and are preserved by every handler, hence by every sequence of user
    actions the page can receive. */
module Invariants {
  import opened Seqs
  import opened Text
  import opened Store
  import opened Handlers

  /** One user action: a submitted form or a clicked button, with the values
      it carries and the clock and random readings it takes. */
  datatype Action =
    | DoRegister(username: string, email: string, password: string)
    | DoLogin(email: string, password: string)
    | DoLogout
    | DoAddTask(now: nat, title: string, description: string, level: string, date: string)
    | DoUpdateTaskStatus(taskId: int, newStatus: string)
    | DoCreateTeam(now: nat, name: string, description: string, randomText: string)
    | DoJoinTeam(code: string)
    | DoSelectTeam(teamId: string)
    | DoAssignTeamTask(now: nat, member: string, title: string, description: string, date: string)

  function Apply(s: Store, a: Action): Step {
    match a
    case DoRegister(u, e, p) => Register(s, u, e, p)
    case DoLogin(e, p) => Login(s, e, p)
    case DoLogout => Logout(s)
    case DoAddTask(n, t, d, l, dt) => AddTask(s, n, t, d, l, dt)
    case DoUpdateTaskStatus(id, st) => UpdateTaskStatus(s, id, st)
    case DoCreateTeam(n, nm, d, rt) => CreateTeam(s, n, nm, d, rt)
    case DoJoinTeam(c) => JoinTeam(s, c)
    case DoSelectTeam(id) => SelectTeam(s, id)
    case DoAssignTeamTask(n, m, t, d, dt) => AssignTeamTask(s, n, m, t, d, dt)
  }

  /** The store after the actions, applied in order. */
  function Run(s: Store, actions: seq<Action>): Store
    decreases |actions|
  {
    if |actions| == 0 then s else Run(Apply(s, actions[0]).store, actions[1..])
  }

  lemma InitialValid()
    ensures Valid(InitialStore())
  {
  }

  lemma RegisteredGrows(users: seq<User>, u: User, email: string)
    requires Registered(users, email)
    ensures Registered(users + [u], email)
  {
    var w :| w in users && w.email == email;
    assert w in users + [u];
  }

  /** Registration keeps emails unique ignoring case: the stored email is
      already lower-case, and no existing email lower-cases to it. */
  lemma RegisterPreservesValid(s: Store, username: string, email: string, password: string)
    requires Valid(s)
    ensures Valid(Register(s, username, email, password).store)
  {
    var r := Register(s, username, email, password);
    if r.outcome == Ok {
      var s' := r.store;
      var u := s'.users[|s.users|];
      assert s'.users == s.users + [u];
      LowerIdempotent(Trim(email));
      assert ToLower(u.email) == u.email;
      forall i, j | 0 <= i < j < |s'.users|
        ensures ToLower(s'.users[i].email) != ToLower(s'.users[j].email)
      {
        if j == |s.users| {
          assert s'.users[i] in s.users;
        }
      }
      forall m | Registered(s.users, m) ensures Registered(s'.users, m) {
        RegisteredGrows(s.users, u, m);
      }
      assert u in s'.users;
    }
  }

  lemma LoginPreservesValid(s: Store, email: string, password: string)
    requires Valid(s)
    ensures Valid(Login(s, email, password).store)
  {
  }

  lemma LogoutPreservesValid(s: Store)
    requires Valid(s)
    ensures Valid(Logout(s).store)
  {
  }

  /** The new task's owner is the current user, a registered account. */
  lemma AddTaskPreservesValid(s: Store, now: nat, title: string, description: string, level: string, date: string)
    requires Valid(s)
    ensures Valid(AddTask(s, now, title, description, level, date).store)
  {
    var r := AddTask(s, now, title, description, level, date);
    if r.outcome == Ok {
      var u := s.currentUser.value;
      assert Registered(s.users, u.email) by { assert u in s.users; }
      forall t | t in r.store.personalTasks ensures Registered(s.users, t.owner) {
        if t != r.store.personalTasks[0] {
          assert t in r.store.personalTasks[1..];
        }
      }
    }
  }

  lemma UpdateTaskStatusPreservesValid(s: Store, taskId: int, newStatus: string)
    requires Valid(s)
    ensures Valid(UpdateTaskStatus(s, taskId, newStatus).store)
  {
    var r := UpdateTaskStatus(s, taskId, newStatus);
    if r.outcome == Ok {
      forall t | t in r.store.personalTasks ensures Registered(s.users, t.owner) {
        var k :| 0 <= k < |r.store.personalTasks| && r.store.personalTasks[k] == t;
        assert t.owner == s.personalTasks[k].owner;
        assert s.personalTasks[k] in s.personalTasks;
      }
    }
  }

  /** A new team's owner is its only member, a registered account, and the
      team's id gets a task list. */
  lemma CreateTeamPreservesValid(s: Store, now: nat, name: string, description: string, randomText: string)
    requires Valid(s)
    ensures Valid(CreateTeam(s, now, name, description, randomText).store)
  {
    var r := CreateTeam(s, now, name, description, randomText);
    if r.outcome == Ok {
      var u := s.currentUser.value;
      assert Registered(s.users, u.email) by { assert u in s.users; }
      var team := r.store.teams[0];
      assert TeamConsistent(team, s.users);
      assert r.store.teams == [team] + s.teams;
      PrependKeepsTeamsConsistent(s.teams, team, s.users, r.store.teamTasks.Keys);
    }
  }

  /** Putting a consistent team with a known id in front keeps every team
      consistent, with a known id. */
  lemma PrependKeepsTeamsConsistent(teams: seq<Team>, team: Team, users: seq<User>, ids: set<string>)
    requires forall t :: t in teams ==> TeamConsistent(t, users) && t.id in ids
    requires TeamConsistent(team, users) && team.id in ids
    ensures forall t :: t in [team] + teams ==> TeamConsistent(t, users) && t.id in ids
  {
    forall t | t in [team] + teams
      ensures TeamConsistent(t, users) && t.id in ids
    {
      if t != team {
        assert t in teams;
      }
    }
  }

  /** Appending a registered email that is not yet a member to one team
      keeps every team consistent, and keeps every team id. */
  lemma AddMemberKeepsTeamsConsistent(teams: seq<Team>, teams': seq<Team>, users: seq<User>,
                                      ids: set<string>, i: int, e: string)
    requires forall t :: t in teams ==> TeamConsistent(t, users) && t.id in ids
    requires Registered(users, e)
    requires 0 <= i < |teams| == |teams'| && e !in teams[i].members
    requires teams'[i] == teams[i].(members := teams[i].members + [e])
    requires forall j :: 0 <= j < |teams| && j != i ==> teams'[j] == teams[j]
    ensures forall t :: t in teams' ==> TeamConsistent(t, users) && t.id in ids
  {
    assert teams[i] in teams;
    AppendFresh(teams[i].members, e);
    forall t | t in teams'
      ensures TeamConsistent(t, users) && t.id in ids
    {
      var k :| 0 <= k < |teams'| && teams'[k] == t;
      assert teams[k] in teams;
    }
  }

  /** Joining appends an email that is not yet a member, of a registered
      account; the owner stays a member. */
  lemma JoinTeamPreservesValid(s: Store, code: string)
    requires Valid(s)
    ensures Valid(JoinTeam(s, code).store)
  {
    var r := JoinTeam(s, code);
    if r.outcome == Ok {
      var u := s.currentUser.value;
      assert Registered(s.users, u.email) by { assert u in s.users; }
      var i :| FirstTeamWithCode(s.teams, i, NormalizeCode(code))
        && u.email !in s.teams[i].members
        && r.store.teams[i] == s.teams[i].(members := s.teams[i].members + [u.email])
        && forall j :: 0 <= j < |s.teams| && j != i ==> r.store.teams[j] == s.teams[j];
      AddMemberKeepsTeamsConsistent(s.teams, r.store.teams, s.users, s.teamTasks.Keys, i, u.email);
    }
  }

  lemma SelectTeamPreservesValid(s: Store, teamId: string)
    requires Valid(s)
    ensures Valid(SelectTeam(s, teamId).store)
  {
  }

  lemma AssignTeamTaskPreservesValid(s: Store, now: nat, member: string, title: string, description: string, date: string)
    requires Valid(s)
    ensures Valid(AssignTeamTask(s, now, member, title, description, date).store)
  {
  }

  lemma ApplyPreservesValid(s: Store, a: Action)
    requires Valid(s)
    ensures Valid(Apply(s, a).store)
  {
    match a
    case DoRegister(u, e, p) => RegisterPreservesValid(s, u, e, p);
    case DoLogin(e, p) => LoginPreservesValid(s, e, p);
    case DoLogout => LogoutPreservesValid(s);
    case DoAddTask(n, t, d, l, dt) => AddTaskPreservesValid(s, n, t, d, l, dt);
    case DoUpdateTaskStatus(id, st) => UpdateTaskStatusPreservesValid(s, id, st);
    case DoCreateTeam(n, nm, d, rt) => CreateTeamPreservesValid(s, n, nm, d, rt);
    case DoJoinTeam(c) => JoinTeamPreservesValid(s, c);
    case DoSelectTeam(id) => SelectTeamPreservesValid(s, id);
    case DoAssignTeamTask(n, m, t, d, dt) => AssignTeamTaskPreservesValid(s, n, m, t, d, dt);
  }

  lemma {:induction false} RunPreservesValid(s: Store, actions: seq<Action>)
    requires Valid(s)
    ensures Valid(Run(s, actions))
    decreases |actions|
  {
    if |actions| > 0 {
      ApplyPreservesValid(s, actions[0]);
      RunPreservesValid(Apply(s, actions[0]).store, actions[1..]);
    }
  }

  /** Every store the page can reach from its initial state is consistent. */
  lemma ReachableValid(actions: seq<Action>)
    ensures Valid(Run(InitialStore(), actions))
  {
    InitialValid();
    RunPreservesValid(InitialStore(), actions);
  }

  /** In a consistent store no handler throws: a Premium plan always comes
      with a logged-in user, so team creation can read its email. */
  lemma ValidNeverCrashes(s: Store, a: Action)
    requires Valid(s)
    ensures Apply(s, a).outcome != Crashed
  {
    match a
    case DoCreateTeam(n, nm, d, rt) =>
      assert s.userPlan == Premium ==> s.currentUser.Some?;
    case _ =>
  }
}
