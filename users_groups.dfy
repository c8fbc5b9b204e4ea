/**
 * The `users_groups` config module (cc_users_groups): create every group,
 * then every user, validating and rewriting each user's `ssh_redirect_user`
 * setting on the way.
 *
 * The normalisation of the `users`/`groups` config (`ug_util`) is not part of
 * this model: `handle` receives its results, the normalised groups and users
 * in iteration order, the default user's name and the cloud's public keys.
 * The distro is reduced to the record of what it was asked to create.
 */
module UsersGroups {
  import opened Wrappers
  import opened PyValues

  const REDIRECT_KEY := "ssh_redirect_user"
  const CLOUD_KEYS_KEY := "cloud_public_ssh_keys"

  /** One request made to the distro. */
  datatype Creation =
    | GroupCreated(group: string, members: seq<string>)
    | UserCreated(user: string, config: Dict)

  /**
   * Why a user was not created; each is raised as a `ValueError` naming the
   * user (and, for an invalid value, the value).
   */
  datatype UserError =
    | RedirectConflict(user: string)
    | RedirectInvalid(user: string, value: Value)

  /** The distro object, reduced to the log of the groups and users it created. */
  class Distro {
    var created: seq<Creation>

    constructor()
      ensures created == []
    {
      created := [];
    }

    /** `distro.create_group(name, members)` */
    method CreateGroup(name: string, members: seq<string>)
      modifies this
      ensures created == old(created) + [GroupCreated(name, members)]
    {
      created := created + [GroupCreated(name, members)];
    }

    /** `distro.create_user(name, **config)` */
    method CreateUser(name: string, config: Dict)
      modifies this
      ensures created == old(created) + [UserCreated(name, config)]
    {
      created := created + [UserCreated(name, config)];
    }
  }

  /** `value in (True, "default")`: Python compares with `==`, so `1` is accepted as well. */
  predicate IsAcceptedRedirect(value: Value)
  {
    value == VBool(true) || value == VInt(1) || value == VStr("default")
  }

  /** The config a user is created with, or the error raised instead. */
  function PrepareUser(user: string, config: Dict, defaultUser: Option<string>, cloudKeys: seq<string>): Result<Dict, UserError>
  {
    var redirect := GetOr(config, REDIRECT_KEY, VBool(false));
    var rest := Pop(config, REDIRECT_KEY);
    if !Truthy(redirect) then Ok(rest)
    else if HasKey(rest, "ssh_authorized_keys") || HasKey(rest, "ssh_import_id") then Err(RedirectConflict(user))
    else if !IsAcceptedRedirect(redirect) then Err(RedirectInvalid(user, redirect))
    else if defaultUser.None? then Ok(rest)
    else Ok(Put(Put(rest, REDIRECT_KEY, VStr(defaultUser.value)), CLOUD_KEYS_KEY, KeyList(cloudKeys)))
  }

  /** The keys as the Python list of strings stored in the config. */
  function KeyList(keys: seq<string>): (r: Value)
    ensures r.VList? && |r.items| == |keys|
    ensures forall i :: 0 <= i < |keys| ==> r.items[i] == VStr(keys[i])
  {
    if keys == [] then VList([]) else VList([VStr(keys[0])] + KeyList(keys[1..]).items)
  }

  /** What the user loop has done so far. */
  datatype UserRun = UserRun(created: seq<Creation>, error: Option<UserError>)

  /** The user loop over `users`: stops at the first error. */
  function UsersLoop(users: seq<(string, Dict)>, defaultUser: Option<string>, cloudKeys: seq<string>): UserRun
  {
    if users == [] then UserRun([], None)
    else
      var run := UsersLoop(users[..|users| - 1], defaultUser, cloudKeys);
      var (user, config) := users[|users| - 1];
      if run.error.Some? then run
      else
        match PrepareUser(user, config, defaultUser, cloudKeys)
        case Ok(c) => UserRun(run.created + [UserCreated(user, c)], None)
        case Err(e) => UserRun(run.created, Some(e))
  }

  /** The group loop. */
  function GroupCreations(groups: seq<(string, seq<string>)>): (r: seq<Creation>)
    ensures |r| == |groups|
    ensures forall i :: 0 <= i < |groups| ==> r[i] == GroupCreated(groups[i].0, groups[i].1)
  {
    if groups == [] then []
    else
      var (name, members) := groups[|groups| - 1];
      GroupCreations(groups[..|groups| - 1]) + [GroupCreated(name, members)]
  }

  /**
   * `handle`. `publicKeys` is `cloud.get_public_ssh_keys()`, where `None`
   * stands for a falsy answer (it becomes `[]`).
   */
  method Handle(distro: Distro, groups: seq<(string, seq<string>)>, users: seq<(string, Dict)>,
                defaultUser: Option<string>, publicKeys: Option<seq<string>>)
    returns (r: Outcome<UserError>)
    modifies distro
    ensures var run := UsersLoop(users, defaultUser, publicKeys.GetOr([]));
      distro.created == old(distro.created) + GroupCreations(groups) + run.created
      && r == (if run.error.Some? then Fail(run.error.value) else Pass)
  {
    var cloudKeys := publicKeys.GetOr([]);
    CreateGroups(distro, groups);
    r := CreateUsers(distro, users, defaultUser, cloudKeys);
  }

  /** The group loop of `handle`. */
  method CreateGroups(distro: Distro, groups: seq<(string, seq<string>)>)
    modifies distro
    ensures distro.created == old(distro.created) + GroupCreations(groups)
  {
    var i := 0;
    while i < |groups|
      invariant 0 <= i <= |groups|
      invariant distro.created == old(distro.created) + GroupCreations(groups[..i])
    {
      var (name, members) := groups[i];
      assert groups[..i + 1][..i] == groups[..i];
      distro.CreateGroup(name, members);
      i := i + 1;
    }
    assert groups[..|groups|] == groups;
  }

  /** The user loop of `handle`: each user's config is checked and rewritten, then the user is created. */
  method CreateUsers(distro: Distro, users: seq<(string, Dict)>, defaultUser: Option<string>, cloudKeys: seq<string>)
    returns (r: Outcome<UserError>)
    modifies distro
    ensures var run := UsersLoop(users, defaultUser, cloudKeys);
      distro.created == old(distro.created) + run.created
      && r == (if run.error.Some? then Fail(run.error.value) else Pass)
  {
    var j := 0;
    while j < |users|
      invariant 0 <= j <= |users|
      invariant UsersLoop(users[..j], defaultUser, cloudKeys).error.None?
      invariant distro.created == old(distro.created) + UsersLoop(users[..j], defaultUser, cloudKeys).created
    {
      var (user, config) := users[j];
      var prepared := RewriteUserConfig(user, config, defaultUser, cloudKeys);
      if prepared.Err? {
        UsersLoopStops(users, j, defaultUser, cloudKeys);
        return Fail(prepared.error);
      }
      UsersLoopCreates(users, j, defaultUser, cloudKeys);
      distro.CreateUser(user, prepared.value);
      j := j + 1;
    }
    assert users[..|users|] == users;
    r := Pass;
  }

  /**
   * The body of the user loop before `create_user`: `ssh_redirect_user` is
   * popped from the config, checked, and replaced by the default user.
   */
  method RewriteUserConfig(user: string, config: Dict, defaultUser: Option<string>, cloudKeys: seq<string>)
    returns (r: Result<Dict, UserError>)
    ensures r == PrepareUser(user, config, defaultUser, cloudKeys)
  {
    var redirect := GetOr(config, REDIRECT_KEY, VBool(false));
    var cfg := Pop(config, REDIRECT_KEY);
    if Truthy(redirect) {
      if HasKey(cfg, "ssh_authorized_keys") || HasKey(cfg, "ssh_import_id") {
        return Err(RedirectConflict(user));
      }
      if !IsAcceptedRedirect(redirect) {
        return Err(RedirectInvalid(user, redirect));
      }
      if defaultUser.Some? {
        cfg := Put(cfg, REDIRECT_KEY, VStr(defaultUser.value));
        cfg := Put(cfg, CLOUD_KEYS_KEY, KeyList(cloudKeys));
      }
      // otherwise the redirect is ignored with a warning
    }
    return Ok(cfg);
  }

  /** A user whose config is accepted is created after the users before it. */
  lemma UsersLoopCreates(users: seq<(string, Dict)>, j: nat, defaultUser: Option<string>, cloudKeys: seq<string>)
    requires j < |users|
    requires UsersLoop(users[..j], defaultUser, cloudKeys).error.None?
    requires PrepareUser(users[j].0, users[j].1, defaultUser, cloudKeys).Ok?
    ensures UsersLoop(users[..j + 1], defaultUser, cloudKeys) ==
      UserRun(UsersLoop(users[..j], defaultUser, cloudKeys).created
              + [UserCreated(users[j].0, PrepareUser(users[j].0, users[j].1, defaultUser, cloudKeys).value)], None)
  {
    assert users[..j + 1][..j] == users[..j];
  }

  /** A failing user ends the loop with that user's error, whatever follows. */
  lemma {:induction false} UsersLoopStops(users: seq<(string, Dict)>, j: nat, defaultUser: Option<string>, cloudKeys: seq<string>)
    requires j < |users|
    requires UsersLoop(users[..j], defaultUser, cloudKeys).error.None?
    requires PrepareUser(users[j].0, users[j].1, defaultUser, cloudKeys).Err?
    ensures UsersLoop(users, defaultUser, cloudKeys) ==
      UserRun(UsersLoop(users[..j], defaultUser, cloudKeys).created,
              Some(PrepareUser(users[j].0, users[j].1, defaultUser, cloudKeys).error))
    decreases |users|
  {
    if j == |users| - 1 {
      assert users[..|users| - 1] == users[..j];
    } else {
      assert users[..|users| - 1][..j] == users[..j];
      UsersLoopStops(users[..|users| - 1], j, defaultUser, cloudKeys);
    }
  }

  // ---------------------------------------------------------------------------
  // Properties of the per-user rule

  /**
   * The created config never carries a redirect other than the default user:
   * the key is always removed and re-added only with that value.
   */
  lemma PrepareUserRedirect(user: string, config: Dict, defaultUser: Option<string>, cloudKeys: seq<string>)
    ensures PrepareUser(user, config, defaultUser, cloudKeys).Ok? ==>
      var c := PrepareUser(user, config, defaultUser, cloudKeys).value;
      Get(c, REDIRECT_KEY) == None
      || (defaultUser.Some? && Get(c, REDIRECT_KEY) == Some(VStr(defaultUser.value)))
  {
    var rest := Pop(config, REDIRECT_KEY);
    assert !HasKey(rest, REDIRECT_KEY);
  }

  /** A truthy redirect together with explicit keys is refused. */
  lemma PrepareUserConflict(user: string, config: Dict, defaultUser: Option<string>, cloudKeys: seq<string>)
    requires Truthy(GetOr(config, REDIRECT_KEY, VBool(false)))
    requires HasKey(config, "ssh_authorized_keys") || HasKey(config, "ssh_import_id")
    ensures PrepareUser(user, config, defaultUser, cloudKeys) == Err(RedirectConflict(user))
  {
    var rest := Pop(config, REDIRECT_KEY);
    assert Get(rest, "ssh_authorized_keys") == Get(config, "ssh_authorized_keys");
    assert Get(rest, "ssh_import_id") == Get(config, "ssh_import_id");
  }

  /** A truthy redirect value other than `True` or `"default"` is refused (the conflict check comes first). */
  lemma PrepareUserInvalid(user: string, config: Dict, defaultUser: Option<string>, cloudKeys: seq<string>)
    requires Truthy(GetOr(config, REDIRECT_KEY, VBool(false)))
    requires !HasKey(config, "ssh_authorized_keys") && !HasKey(config, "ssh_import_id")
    requires !IsAcceptedRedirect(GetOr(config, REDIRECT_KEY, VBool(false)))
    ensures PrepareUser(user, config, defaultUser, cloudKeys) ==
      Err(RedirectInvalid(user, GetOr(config, REDIRECT_KEY, VBool(false))))
  {
    var rest := Pop(config, REDIRECT_KEY);
    assert Get(rest, "ssh_authorized_keys") == Get(config, "ssh_authorized_keys");
    assert Get(rest, "ssh_import_id") == Get(config, "ssh_import_id");
  }

  /** Every error the rule raises comes from a truthy redirect value. */
  lemma PrepareUserErrorsNeedRedirect(user: string, config: Dict, defaultUser: Option<string>, cloudKeys: seq<string>)
    ensures PrepareUser(user, config, defaultUser, cloudKeys).Err? ==>
      Truthy(GetOr(config, REDIRECT_KEY, VBool(false)))
      && PrepareUser(user, config, defaultUser, cloudKeys).error.user == user
  {
  }

  /**
   * Without a default user, an accepted redirect is dropped and the user is
   * created with the rest of its config, unchanged.
   */
  lemma PrepareUserNoDefault(user: string, config: Dict, cloudKeys: seq<string>)
    requires !HasKey(config, "ssh_authorized_keys") && !HasKey(config, "ssh_import_id")
    ensures PrepareUser(user, config, None, cloudKeys).Err? <==>
      Truthy(GetOr(config, REDIRECT_KEY, VBool(false))) && !IsAcceptedRedirect(GetOr(config, REDIRECT_KEY, VBool(false)))
    ensures PrepareUser(user, config, None, cloudKeys).Ok? ==>
      PrepareUser(user, config, None, cloudKeys).value == Pop(config, REDIRECT_KEY)
  {
    var rest := Pop(config, REDIRECT_KEY);
    assert Get(rest, "ssh_authorized_keys") == Get(config, "ssh_authorized_keys");
    assert Get(rest, "ssh_import_id") == Get(config, "ssh_import_id");
  }

  /**
   * With a default user, an accepted redirect becomes the default user's name
   * and the cloud's keys are added; every other setting is kept.
   */
  lemma PrepareUserWithDefault(user: string, config: Dict, default: string, cloudKeys: seq<string>)
    requires IsAcceptedRedirect(GetOr(config, REDIRECT_KEY, VBool(false)))
    requires !HasKey(config, "ssh_authorized_keys") && !HasKey(config, "ssh_import_id")
    ensures PrepareUser(user, config, Some(default), cloudKeys).Ok?
    ensures var c := PrepareUser(user, config, Some(default), cloudKeys).value;
      Get(c, REDIRECT_KEY) == Some(VStr(default))
      && Get(c, CLOUD_KEYS_KEY) == Some(KeyList(cloudKeys))
      && forall k :: k != REDIRECT_KEY && k != CLOUD_KEYS_KEY ==> Get(c, k) == Get(config, k)
  {
    var rest := Pop(config, REDIRECT_KEY);
    assert Get(rest, "ssh_authorized_keys") == Get(config, "ssh_authorized_keys");
    assert Get(rest, "ssh_import_id") == Get(config, "ssh_import_id");
  }

  // ---------------------------------------------------------------------------
  // Properties of the user loop

  /** Without an error every user is created, in order, with its prepared config. */
  lemma {:induction false} UsersLoopAllCreated(users: seq<(string, Dict)>, defaultUser: Option<string>, cloudKeys: seq<string>)
    requires UsersLoop(users, defaultUser, cloudKeys).error.None?
    ensures var run := UsersLoop(users, defaultUser, cloudKeys);
      |run.created| == |users|
      && forall i :: 0 <= i < |users| ==>
           PrepareUser(users[i].0, users[i].1, defaultUser, cloudKeys).Ok?
           && run.created[i] == UserCreated(users[i].0, PrepareUser(users[i].0, users[i].1, defaultUser, cloudKeys).value)
  {
    if users != [] {
      var init := users[..|users| - 1];
      assert UsersLoop(init, defaultUser, cloudKeys).error.None?;
      UsersLoopAllCreated(init, defaultUser, cloudKeys);
      forall i | 0 <= i < |init| ensures init[i] == users[i] { }
    }
  }

  /**
   * With an error, the users before the failing one are created; the
   * failing one and all later ones are not.
   */
  lemma {:induction false} UsersLoopStopsAtFirstError(users: seq<(string, Dict)>, defaultUser: Option<string>, cloudKeys: seq<string>)
    requires UsersLoop(users, defaultUser, cloudKeys).error.Some?
    ensures var run := UsersLoop(users, defaultUser, cloudKeys);
      exists k :: 0 <= k < |users|
        && UsersLoop(users[..k], defaultUser, cloudKeys) == UserRun(run.created, None)
        && PrepareUser(users[k].0, users[k].1, defaultUser, cloudKeys) == Err(run.error.value)
  {
    var run := UsersLoop(users, defaultUser, cloudKeys);
    var init := users[..|users| - 1];
    var prev := UsersLoop(init, defaultUser, cloudKeys);
    if prev.error.Some? {
      UsersLoopKeepsError(users, defaultUser, cloudKeys);
      UsersLoopStopsAtFirstError(init, defaultUser, cloudKeys);
      var k :| 0 <= k < |init| && UsersLoop(init[..k], defaultUser, cloudKeys) == UserRun(prev.created, None)
        && PrepareUser(init[k].0, init[k].1, defaultUser, cloudKeys) == Err(prev.error.value);
      PrefixOfInit(users, k);
      assert run == prev;
      assert UsersLoop(users[..k], defaultUser, cloudKeys) == UserRun(run.created, None)
        && PrepareUser(users[k].0, users[k].1, defaultUser, cloudKeys) == Err(run.error.value);
    } else {
      UsersLoopFailsAtLast(users, defaultUser, cloudKeys);
      var k := |users| - 1;
      assert users[..k] == init;
      assert UsersLoop(users[..k], defaultUser, cloudKeys) == UserRun(run.created, None);
      assert PrepareUser(users[k].0, users[k].1, defaultUser, cloudKeys) == Err(run.error.value);
    }
  }

  lemma PrefixOfInit<T>(s: seq<T>, k: nat)
    requires k < |s| - 1
    ensures s[..|s| - 1][..k] == s[..k] && s[..|s| - 1][k] == s[k]
  {
  }

  /** An error in the earlier users is the loop's result. */
  lemma UsersLoopKeepsError(users: seq<(string, Dict)>, defaultUser: Option<string>, cloudKeys: seq<string>)
    requires users != [] && UsersLoop(users[..|users| - 1], defaultUser, cloudKeys).error.Some?
    ensures UsersLoop(users, defaultUser, cloudKeys) == UsersLoop(users[..|users| - 1], defaultUser, cloudKeys)
  {
  }

  /** An error that was not there before the last user comes from that user. */
  lemma UsersLoopFailsAtLast(users: seq<(string, Dict)>, defaultUser: Option<string>, cloudKeys: seq<string>)
    requires users != [] && UsersLoop(users[..|users| - 1], defaultUser, cloudKeys).error.None?
    requires UsersLoop(users, defaultUser, cloudKeys).error.Some?
    ensures var run := UsersLoop(users, defaultUser, cloudKeys);
      var last := users[|users| - 1];
      run.created == UsersLoop(users[..|users| - 1], defaultUser, cloudKeys).created
      && PrepareUser(last.0, last.1, defaultUser, cloudKeys) == Err(run.error.value)
  {
  }

  /** Since the loop before the failing user had no error, it created exactly the users before it. */
  lemma UsersLoopCreatedCount(users: seq<(string, Dict)>, defaultUser: Option<string>, cloudKeys: seq<string>)
    requires UsersLoop(users, defaultUser, cloudKeys).error.Some?
    ensures |UsersLoop(users, defaultUser, cloudKeys).created| < |users|
  {
    UsersLoopStopsAtFirstError(users, defaultUser, cloudKeys);
    var run := UsersLoop(users, defaultUser, cloudKeys);
    var k :| 0 <= k < |users| && UsersLoop(users[..k], defaultUser, cloudKeys) == UserRun(run.created, None)
      && PrepareUser(users[k].0, users[k].1, defaultUser, cloudKeys) == Err(run.error.value);
    UsersLoopAllCreated(users[..k], defaultUser, cloudKeys);
  }

  /** The users loop only creates users, never groups. */
  lemma {:induction false} UsersLoopOnlyUsers(users: seq<(string, Dict)>, defaultUser: Option<string>, cloudKeys: seq<string>)
    ensures forall c :: c in UsersLoop(users, defaultUser, cloudKeys).created ==> c.UserCreated?
  {
    if users != [] {
      UsersLoopOnlyUsers(users[..|users| - 1], defaultUser, cloudKeys);
    }
  }

  /** Every user the loop creates carries at most the default user as its redirect. */
  lemma {:induction false} UsersLoopRedirects(users: seq<(string, Dict)>, defaultUser: Option<string>, cloudKeys: seq<string>)
    ensures forall c :: c in UsersLoop(users, defaultUser, cloudKeys).created ==>
      c.UserCreated?
      && (Get(c.config, REDIRECT_KEY) == None
          || (defaultUser.Some? && Get(c.config, REDIRECT_KEY) == Some(VStr(defaultUser.value))))
  {
    if users != [] {
      var init := users[..|users| - 1];
      UsersLoopRedirects(init, defaultUser, cloudKeys);
      var (user, config) := users[|users| - 1];
      PrepareUserRedirect(user, config, defaultUser, cloudKeys);
    }
  }

  /**
   * In everything `handle` asks of the distro, every group comes before every
   * user.
   */
  lemma GroupsBeforeUsers(groups: seq<(string, seq<string>)>, users: seq<(string, Dict)>,
                          defaultUser: Option<string>, cloudKeys: seq<string>)
    ensures var all := GroupCreations(groups) + UsersLoop(users, defaultUser, cloudKeys).created;
      forall i, j :: 0 <= i < |all| && 0 <= j < |all| && all[i].UserCreated? && all[j].GroupCreated? ==> j < i
  {
    var all := GroupCreations(groups) + UsersLoop(users, defaultUser, cloudKeys).created;
    UsersLoopOnlyUsers(users, defaultUser, cloudKeys);
    forall i | |groups| <= i < |all| ensures all[i].UserCreated? {
      assert all[i] in UsersLoop(users, defaultUser, cloudKeys).created;
    }
  }
}
