/** Properties that span several handler calls: registration followed by
    login, repeated registration, repeated joins, the invite code as the
    owner shares it, and the views the UI renders afterwards. */
module Scenarios {
  import opened Seqs
  import opened Text
  import opened Store
  import opened Handlers

  /** With unique emails, at most one account matches a typed email
      ignoring case; so a successful login matches exactly one account. */
  lemma AtMostOneEmailMatch(users: seq<User>, email: string, i: int, j: int)
    requires UniqueEmails(users)
    requires 0 <= i < |users| && 0 <= j < |users|
    requires ToLower(users[i].email) == ToLower(email) && ToLower(users[j].email) == ToLower(email)
    ensures i == j
  {
  }

  /** In a consistent store, login with an account's email (in any letter
      case, with surrounding whitespace) and its password logs in exactly
      that account, with its plan. */
  lemma LoginFindsTheAccount(s: Store, u: User, email: string, password: string)
    requires Valid(s)
    requires u in s.users && Credentials(u, Trim(email), password)
    ensures Login(s, email, password).outcome == Ok
    ensures Login(s, email, password).store.currentUser == Some(u)
    ensures Login(s, email, password).store.userPlan == u.plan
  {
    var r := Login(s, email, password);
    var k :| 0 <= k < |s.users| && s.users[k] == u;
    var i :| 0 <= i < |s.users| && r.store.currentUser.value == s.users[i]
      && Credentials(s.users[i], Trim(email), password);
    AtMostOneEmailMatch(s.users, Trim(email), i, k);
  }

  /** A second registration whose email differs from a successful one's
      only in letter case or surrounding whitespace is refused as a
      duplicate and changes nothing. */
  lemma RegisterTwiceFails(s: Store, username: string, email: string, password: string,
                           username2: string, email2: string, password2: string)
    requires Register(s, username, email, password).outcome == Ok
    requires !AllWhitespace(username2) && !AllWhitespace(email2) && password2 != ""
    requires ToLower(Trim(email2)) == ToLower(Trim(email))
    ensures var s' := Register(s, username, email, password).store;
      Register(s', username2, email2, password2) == Step(s', DuplicateEmail)
  {
    var s' := Register(s, username, email, password).store;
    var u := s'.users[|s.users|];
    LowerIdempotent(Trim(email));
    assert u in s'.users && ToLower(u.email) == ToLower(Trim(email2));
  }

  /** After registering and logging out, the same email and password log
      the new account back in. */
  lemma RegisterThenLogin(s: Store, username: string, email: string, password: string)
    requires Valid(s)
    requires Register(s, username, email, password).outcome == Ok
    ensures var s1 := Register(s, username, email, password).store;
      var r := Login(Logout(s1).store, email, password);
      r.outcome == Ok && r.store.currentUser == s1.currentUser && r.store.userPlan == Free
  {
    var s1 := Register(s, username, email, password).store;
    var s2 := Logout(s1).store;
    var u := s1.users[|s.users|];
    LowerIdempotent(Trim(email));
    assert Credentials(u, Trim(email), password);
    assert s2.users == s.users + [u];
    assert UniqueEmails(s2.users) by {
      forall i, j | 0 <= i < j < |s2.users|
        ensures ToLower(s2.users[i].email) != ToLower(s2.users[j].email)
      {
        if j == |s.users| {
          assert s2.users[i] in s.users;
        }
      }
    }
    var r := Login(s2, email, password);
    var k := |s.users|;
    var i :| 0 <= i < |s2.users| && r.store.currentUser.value == s2.users[i]
      && Credentials(s2.users[i], Trim(email), password);
    AtMostOneEmailMatch(s2.users, Trim(email), i, k);
  }

  /** A freshly registered account has the Free plan, so it cannot create a team. */
  lemma NewAccountCannotCreateTeam(s: Store, username: string, email: string, password: string,
                                   now: nat, name: string, description: string, randomText: string)
    requires Register(s, username, email, password).outcome == Ok
    ensures var s' := Register(s, username, email, password).store;
      CreateTeam(s', now, name, description, randomText) == Step(s', NotPremium)
  {
  }

  /** Invite codes are matched after trimming and upper-casing, so the code
      may be typed in any letter case. */
  lemma JoinIgnoresCase(s: Store, code: string)
    ensures JoinTeam(s, ToLower(code)) == JoinTeam(s, code)
  {
    TrimCommutesWithLower(code);
    UpperOfLower(Trim(code));
    JoinSameNormalizedCode(s, ToLower(code), code);
  }

  /** The join form looks only at the normalised code. */
  lemma JoinSameNormalizedCode(s: Store, a: string, b: string)
    requires NormalizeCode(a) == NormalizeCode(b)
    ensures JoinTeam(s, a) == JoinTeam(s, b)
  {
  }

  /** Joining the same team twice: the second attempt is refused as
      already a member and changes nothing. */
  lemma JoinTwiceFails(s: Store, code: string)
    requires JoinTeam(s, code).outcome == Ok
    ensures var s' := JoinTeam(s, code).store;
      JoinTeam(s', code) == Step(s', AlreadyMember)
  {
    var s' := JoinTeam(s, code).store;
    var c := NormalizeCode(code);
    var e := s.currentUser.value.email;
    var i :| FirstTeamWithCode(s.teams, i, c)
      && e !in s.teams[i].members
      && s'.teams[i] == s.teams[i].(members := s.teams[i].members + [e])
      && forall j :: 0 <= j < |s.teams| && j != i ==> s'.teams[j] == s.teams[j];
    assert FirstTeamWithCode(s'.teams, i, c);
    assert e in s'.teams[i].members;
  }

  /** A successful join adds exactly one member to the team, and the team
      appears in the joining user's team list, which grows by one. */
  lemma JoinShowsTeam(s: Store, code: string)
    requires JoinTeam(s, code).outcome == Ok
    ensures var s' := JoinTeam(s, code).store;
      && |TeamsView(s')| == |TeamsView(s)| + 1
      && exists i :: 0 <= i < |s'.teams| && s'.teams[i] in TeamsView(s')
           && |s'.teams[i].members| == |s.teams[i].members| + 1
  {
    var s' := JoinTeam(s, code).store;
    var e := s.currentUser.value.email;
    var i :| FirstTeamWithCode(s.teams, i, NormalizeCode(code))
      && e !in s.teams[i].members
      && s'.teams[i] == s.teams[i].(members := s.teams[i].members + [e])
      && forall j :: 0 <= j < |s.teams| && j != i ==> s'.teams[j] == s.teams[j];
    MemberAddedShows(s.teams, s'.teams, i, e);
  }

  /** Adding `e` to one team that lacks it adds exactly that team to the
      teams `e` sees. */
  lemma MemberAddedShows(teams: seq<Team>, teams': seq<Team>, i: int, e: string)
    requires 0 <= i < |teams| == |teams'| && e !in teams[i].members
    requires teams'[i] == teams[i].(members := teams[i].members + [e])
    requires forall j :: 0 <= j < |teams| && j != i ==> teams'[j] == teams[j]
    ensures |Filter(teams', HasMember(e))| == |Filter(teams, HasMember(e))| + 1
    ensures teams'[i] in Filter(teams', HasMember(e))
  {
    assert teams' == teams[i := teams'[i]];
    FilterUpdate(teams, i, teams'[i], HasMember(e));
  }

  /** Joining with the code of the newest team, as a user who is not yet
      a member, appends the user to that team. */
  lemma JoinNewestTeam(s: Store, code: string)
    requires s.currentUser.Some? && |s.teams| > 0
    requires s.teams[0].inviteCode == NormalizeCode(code)
    requires s.currentUser.value.email !in s.teams[0].members
    ensures JoinTeam(s, code).outcome == Ok
    ensures JoinTeam(s, code).store.teams[0].members == s.teams[0].members + [s.currentUser.value.email]
  {
    assert FirstTeamWithCode(s.teams, 0, NormalizeCode(code));
  }

  /** A newly created team is first in the list, with the creator as its
      only member and the generated invite code. */
  lemma NewTeamHead(s: Store, now: nat, name: string, description: string, randomText: string, created: Store)
    requires CreateTeam(s, now, name, description, randomText) == Step(created, Ok)
    ensures s.currentUser.Some? && |created.teams| > 0
    ensures created.teams[0].members == [s.currentUser.value.email]
    ensures created.teams[0].inviteCode == InviteCode(randomText)
  {
  }

  /** Emails that lower-case differently are different. */
  lemma DistinctWhenLowerDiffers(a: string, b: string, typed: string)
    requires ToLower(a) == ToLower(typed) && ToLower(typed) != ToLower(b)
    ensures a != b
  {
  }

  /** A Premium owner creates a team, and a second account logs in and
      joins with its invite code: the team ends with two members, the
      owner first. */
  lemma SecondUserJoinsNewTeam(s: Store, now: nat, name: string, description: string, randomText: string,
                               created: Store, email: string, password: string, joiner: Store, code: string)
    requires CreateTeam(s, now, name, description, randomText) == Step(created, Ok)
    requires Login(Logout(created).store, email, password) == Step(joiner, Ok)
    requires ToLower(Trim(email)) != ToLower(s.currentUser.value.email)
    requires NormalizeCode(code) == InviteCode(randomText)
    ensures JoinTeam(joiner, code).outcome == Ok
    ensures JoinTeam(joiner, code).store.teams[0].members == [s.currentUser.value.email, joiner.currentUser.value.email]
  {
    var owner := s.currentUser.value.email;
    NewTeamHead(s, now, name, description, randomText, created);
    Relogin(created, email, password, joiner);
    DistinctWhenLowerDiffers(joiner.currentUser.value.email, owner, Trim(email));
    JoinAsSecondMember(joiner, code, owner);
  }

  /** A user other than the owner joining a one-member newest team becomes
      its second member. */
  lemma JoinAsSecondMember(s: Store, code: string, owner: string)
    requires s.currentUser.Some? && |s.teams| > 0
    requires s.teams[0].members == [owner] && s.teams[0].inviteCode == NormalizeCode(code)
    requires s.currentUser.value.email != owner
    ensures JoinTeam(s, code).outcome == Ok
    ensures JoinTeam(s, code).store.teams[0].members == [owner, s.currentUser.value.email]
  {
    JoinNewestTeam(s, code);
    assert [owner] + [s.currentUser.value.email] == [owner, s.currentUser.value.email];
  }

  /** Logging out and back in changes only who is logged in. */
  lemma Relogin(s: Store, email: string, password: string, s': Store)
    requires Login(Logout(s).store, email, password) == Step(s', Ok)
    ensures s'.teams == s.teams
    ensures s'.currentUser.Some? && ToLower(s'.currentUser.value.email) == ToLower(Trim(email))
  {
  }

  /** Opening a team's page and then assigning a task always finds the team. */
  lemma SelectThenAssign(s: Store, t: Team, now: nat, member: string, title: string, description: string, date: string)
    requires t in s.teams
    ensures AssignTeamTask(SelectTeam(s, t.id).store, now, member, title, description, date).outcome == Ok
  {
  }

  /** With unique emails, a registered assignee is labelled with that
      account's username. */
  lemma MemberLabelOfAccount(users: seq<User>, u: User)
    requires UniqueEmails(users) && u in users
    ensures MemberLabel(users, u.email) == u.username
  {
    var k :| 0 <= k < |users| && users[k] == u;
    assert exists w :: w in users && w.email == u.email;
    var i :| FirstUserWithEmail(users, i, u.email) && MemberLabel(users, u.email) == users[i].username;
    assert FirstUserWithEmail(users, i, u.email);
    assert 0 <= i < |users|;
    assert users[i].email == u.email;
    AtMostOneEmailMatch(users, u.email, i, k);
  }

  /** Setting a task's status to the status it already has changes nothing. */
  lemma UpdateToSameStatus(s: Store, i: int, taskId: int, newStatus: string)
    requires FirstTaskWithId(s.personalTasks, i, taskId) && s.personalTasks[i].status == newStatus
    ensures UpdateTaskStatus(s, taskId, newStatus) == Step(s, Ok)
  {
    var r := UpdateTaskStatus(s, taskId, newStatus);
    assert s.personalTasks[i] in s.personalTasks;
    var k :| FirstTaskWithId(s.personalTasks, k, taskId)
      && r.store.personalTasks[k] == s.personalTasks[k].(status := newStatus)
      && forall j :: 0 <= j < |s.personalTasks| && j != k ==> r.store.personalTasks[j] == s.personalTasks[j];
    assert k == i;
    assert r.store.personalTasks == s.personalTasks;
  }

  /** Setting the same status twice is the same as setting it once. */
  lemma UpdateTaskStatusIdempotent(s: Store, taskId: int, newStatus: string)
    ensures var s' := UpdateTaskStatus(s, taskId, newStatus).store;
      UpdateTaskStatus(s', taskId, newStatus).store == s'
  {
    var r := UpdateTaskStatus(s, taskId, newStatus);
    if r.outcome == Ok {
      var i :| FirstTaskWithId(s.personalTasks, i, taskId)
        && r.store.personalTasks[i] == s.personalTasks[i].(status := newStatus)
        && forall j :: 0 <= j < |s.personalTasks| && j != i ==> r.store.personalTasks[j] == s.personalTasks[j];
      assert FirstTaskWithId(r.store.personalTasks, i, taskId);
      UpdateToSameStatus(r.store, i, taskId, newStatus);
    }
  }
}
