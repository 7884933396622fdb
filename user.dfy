/** library/cloudera_manager_user.py: list the Cloudera Manager users,
    delete one (`absent`), or create one or bring its roles up to date
    (`present`). */
module User {
  import opened Ansible
  import opened CmApi

  datatype State = Present | Absent | List

  /** The module options `name`, `password`, `roles`,
      `force_password_update` and `state`. */
  datatype Params = Params(name: string, password: Option<string>, roles: Option<seq<string>>,
                           forcePasswordUpdate: bool, state: State)

  /** One entry of the `users` list that list mode reports. */
  datatype UserSummary = UserSummary(username: string, roles: seq<string>)

  datatype Payload = NoPayload | Users(users: seq<UserSummary>)

  /** The exact text of the lookup error that means "no such user". */
  function NotFound(name: string): string {
    "User '" + name + "' does not exist. (error 404)"
  }

  /** The exception the bare `except` raises itself: it formats `e`, which
      no earlier statement bound once the user was found. */
  const UnboundError := "UnboundLocalError"

  /** The `users` list of list mode: one entry per remote user, in the
      order cm_api returned them. */
  function UsersOf(ulist: seq<ApiUser>): (r: seq<UserSummary>)
    ensures |r| == |ulist|
    ensures forall i :: 0 <= i < |ulist| ==> r[i].username == ulist[i].name && r[i].roles == ulist[i].roles
  {
    seq(|ulist|, i requires 0 <= i < |ulist| => UserSummary(ulist[i].name, ulist[i].roles))
  }

  /** The branch of main after the lookup, for `absent` and (any other
      state) `present`. `lookup` is what `get_user` returned or raised;
      `reply` is the text of the exception the mutating call raised, if it
      did. */
  function Decide(p: Params, lookup: Result<ApiUser>, reply: Option<string>): (r: Run<Payload>)
    ensures |r.calls| <= 1
    ensures lookup.Err? && lookup.error != NotFound(p.name) ==> r == Run(Fail(false, lookup.error), [])
    ensures p.state == Absent && lookup.Ok? ==>
              r.calls == [DeleteUser(p.name)] &&
              r.outcome == (if reply.None? then Exit(true, Some("user is deleted"), NoPayload) else Crash(UnboundError))
    ensures p.state == Absent && lookup == Err(NotFound(p.name)) ==>
              r == Run(Exit(true, Some("user is created"), NoPayload), [])
    ensures p.state != Absent && lookup.Ok? && p.roles == Some(lookup.value.roles) ==>
              r == Run(Exit(false, None, NoPayload), [])
    ensures p.state != Absent && lookup.Ok? && p.roles != Some(lookup.value.roles) ==>
              r.calls == [UpdateUser(p.name, if p.forcePasswordUpdate then p.password else None, p.roles)] &&
              r.outcome == (match reply
                            case None => Exit(true, Some("role updated"), NoPayload)
                            case Some(e) => Fail(false, e))
    ensures p.state != Absent && lookup == Err(NotFound(p.name)) ==>
              r.calls == [CreateUser(p.name, p.password, p.roles)] &&
              r.outcome == (match reply
                            case None => Exit(true, Some("user is created"), NoPayload)
                            case Some(e) => Fail(true, e))
    ensures forall c :: c in r.calls && c.UpdateUser? && c.password.Some? ==> p.forcePasswordUpdate
  {
    match lookup
    case Err(e) =>
      if e != NotFound(p.name) then Run(Fail(false, e), [])
      else if p.state == Absent then Run(Exit(true, Some("user is created"), NoPayload), [])
      else
        var call := CreateUser(p.name, p.password, p.roles);
        if reply.Some? then Run(Fail(true, reply.value), [call])
        else Run(Exit(true, Some("user is created"), NoPayload), [call])
    case Ok(current) =>
      if p.state == Absent then
        var call := DeleteUser(p.name);
        if reply.Some? then Run(Crash(UnboundError), [call])
        else Run(Exit(true, Some("user is deleted"), NoPayload), [call])
      else if p.roles != Some(current.roles) then
        var password := if p.forcePasswordUpdate then p.password else None;
        var call := UpdateUser(p.name, password, p.roles);
        if reply.Some? then Run(Fail(false, reply.value), [call])
        else Run(Exit(true, Some("role updated"), NoPayload), [call])
      else
        Run(Exit(false, None, NoPayload), [])
  }

  /** A whole run of main: `ulist` is what `get_all_users` returns in list
      mode. */
  function UserRun(p: Params, ulist: seq<ApiUser>, lookup: Result<ApiUser>, reply: Option<string>): (r: Run<Payload>)
    ensures p.state == List ==> r == Run(Exit(false, None, Users(UsersOf(ulist))), [])
  {
    if p.state == List then Run(Exit(false, None, Users(UsersOf(ulist))), [])
    else Decide(p, lookup, reply)
  }

  method Execute(p: Params, ulist: seq<ApiUser>, lookup: Result<ApiUser>, reply: Option<string>) returns (r: Run<Payload>)
    ensures r == UserRun(p, ulist, lookup, reply)
  {
    if p.state == List {
      var users: seq<UserSummary> := [];
      for i := 0 to |ulist|
        invariant |users| == i
        invariant forall j :: 0 <= j < i ==> users[j] == UserSummary(ulist[j].name, ulist[j].roles)
      {
        var u := UserSummary(ulist[i].name, ulist[i].roles);
        users := users + [u];
      }
      assert users == UsersOf(ulist);
      return Run(Exit(false, None, Users(users)), []);
    }
    r := Decide(p, lookup, reply);
  }

  /** A user as the server stores it. */
  datatype StoredUser = StoredUser(roles: seq<string>, password: Option<string>)

  /** `get_user` against a user table. */
  function Lookup(table: map<string, StoredUser>, name: string): Result<ApiUser> {
    if name in table then Ok(ApiUser(name, table[name].roles)) else Err(NotFound(name))
  }

  /** The user table after one call that succeeded. A call without roles
      leaves the table as it was: what the server does then is not part of
      this model. */
  function ApplyCall(table: map<string, StoredUser>, c: Call): map<string, StoredUser> {
    match c
    case DeleteUser(n) => table - {n}
    case UpdateUser(n, password, roles) =>
      if n in table && roles.Some? then
        table[n := StoredUser(roles.value, if password.Some? then password else table[n].password)]
      else table
    case CreateUser(n, password, roles) =>
      if roles.Some? then table[n := StoredUser(roles.value, password)] else table
    case _ => table
  }

  function ApplyCalls(table: map<string, StoredUser>, calls: seq<Call>): map<string, StoredUser>
    decreases |calls|
  {
    if calls == [] then table else ApplyCalls(ApplyCall(table, calls[0]), calls[1..])
  }

  /** Idempotence of `present`: once a run has exited normally, the same
      options against the table it left behind issue no call and report no
      change. */
  lemma {:induction false} PresentRerunIsNoOp(p: Params, ulist: seq<ApiUser>, table: map<string, StoredUser>,
                                               reply: Option<string>, ulist2: seq<ApiUser>, reply2: Option<string>)
    requires p.state == Present && p.roles.Some?
    requires UserRun(p, ulist, Lookup(table, p.name), reply).outcome.Exit?
    ensures var after := ApplyCalls(table, UserRun(p, ulist, Lookup(table, p.name), reply).calls);
            UserRun(p, ulist2, Lookup(after, p.name), reply2) == Run(Exit(false, None, NoPayload), [])
  {
    var first := UserRun(p, ulist, Lookup(table, p.name), reply);
    if first.calls != [] {
      var after := ApplyCall(table, first.calls[0]);
      assert ApplyCalls(table, first.calls) == ApplyCalls(after, []) == after;
      assert p.name in after && after[p.name].roles == p.roles.value;
    }
  }

  /** `absent` is not idempotent in what it reports: after a delete, the
      rerun finds no user, issues no call, and still reports a change, with
      the create message. */
  lemma {:induction false} AbsentRerunReportsChange(p: Params, ulist: seq<ApiUser>, table: map<string, StoredUser>,
                                                     reply: Option<string>, ulist2: seq<ApiUser>, reply2: Option<string>)
    requires p.state == Absent
    requires UserRun(p, ulist, Lookup(table, p.name), reply).outcome.Exit?
    ensures var after := ApplyCalls(table, UserRun(p, ulist, Lookup(table, p.name), reply).calls);
            UserRun(p, ulist2, Lookup(after, p.name), reply2) == Run(Exit(true, Some("user is created"), NoPayload), [])
  {
    var first := UserRun(p, ulist, Lookup(table, p.name), reply);
    if first.calls != [] {
      var after := ApplyCall(table, first.calls[0]);
      assert ApplyCalls(table, first.calls) == ApplyCalls(after, []) == after;
    }
  }

  /** `present` without `roles` never settles: the missing roles never
      equal an existing user's role list, so every such run issues an
      update and, when it succeeds, reports "role updated" as a change,
      whatever the server stores. */
  lemma RolelessPresentAlwaysUpdates(p: Params, ulist: seq<ApiUser>, table: map<string, StoredUser>,
                                     reply: Option<string>)
    requires p.state == Present && p.roles.None? && p.name in table
    ensures var r := UserRun(p, ulist, Lookup(table, p.name), reply);
            r.calls == [UpdateUser(p.name, if p.forcePasswordUpdate then p.password else None, None)] &&
            (reply.None? ==> r.outcome == Exit(true, Some("role updated"), NoPayload))
  {
  }

  /** Role comparison is sequence equality, so the same roles in another
      order count as a difference and trigger an update. */
  lemma RoleOrderMatters(p: Params, lookup: Result<ApiUser>, reply: Option<string>)
    requires p.state == Present && lookup.Ok?
    requires lookup.value.roles == ["ROLE_ADMIN", "ROLE_USER"] && p.roles == Some(["ROLE_USER", "ROLE_ADMIN"])
    ensures Decide(p, lookup, reply).calls == [UpdateUser(p.name, if p.forcePasswordUpdate then p.password else None, p.roles)]
  {
    assert p.roles != Some(lookup.value.roles) by {
      assert p.roles.value[0] != lookup.value.roles[0];
    }
  }
}
