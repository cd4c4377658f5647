/**
 * Users, credentials and mounts: the relational state of src/server/db.ts and
 * the admin handlers of src/server/app.ts that guard it. SQLite enforces the
 * declared constraints, so a statement that would break one fails and changes
 * nothing; row ids are whatever SQLite picks among the unused ones.
 */
module AuthDb {
  import opened Bytes
  import Sessions

  datatype Role = UserRole | AdminRole

  datatype User = User(username: string, role: Role, defaultMount: Option<nat>)

  datatype ApiToken = ApiToken(user: nat, expiresAt: Option<nat>)

  datatype Mount = Mount(name: string, path: string, isDefault: bool, createdBy: Option<nat>)

  datatype Tables = Tables(
    users: map<nat, User>,
    creds: Sessions.Creds,
    apiTokens: map<nat, ApiToken>,
    mounts: map<nat, Mount>,
    access: set<(nat, nat)>,   // (mount, user)
    denials: set<(nat, nat)>
  )

  const EMPTY := Tables(map[], Sessions.Creds(map[], map[]), map[], map[], {}, {})

  predicate NameChar(c: char) {
    'a' <= c <= 'z' || 'A' <= c <= 'Z' || '0' <= c <= '9' || c in "._-"
  }

  predicate ValidUsername(s: string) {
    1 <= |s| <= 64 && forall c :: c in s ==> NameChar(c)
  }

  predicate ValidMountName(s: string) {
    1 <= |s| <= 64 && forall c :: c in s ==> NameChar(c) || c == ' '
  }

  // --- constraints ---------------------------------------------------------------

  /** Every token belongs to an existing user. */
  ghost predicate Owned(m: Sessions.Tokens, users: set<nat>) {
    forall id :: id in m ==> m[id].user in users
  }

  ghost predicate PairsOwned(pairs: set<(nat, nat)>, mounts: set<nat>, users: set<nat>) {
    forall a :: a in pairs ==> a.0 in mounts && a.1 in users
  }

  /** Default mounts exist; usernames are unique. */
  ghost predicate UsersSound(users: map<nat, User>, mounts: set<nat>) {
    && (forall u :: u in users && users[u].defaultMount.Some? ==> users[u].defaultMount.value in mounts)
    && (forall u, v :: u in users && v in users && users[u].username == users[v].username ==> u == v)
  }

  /** Creators exist; names are unique; at most one mount is the default. */
  ghost predicate MountsSound(mounts: map<nat, Mount>, users: set<nat>) {
    && (forall m :: m in mounts && mounts[m].createdBy.Some? ==> mounts[m].createdBy.value in users)
    && (forall m, n :: m in mounts && n in mounts && mounts[m].name == mounts[n].name ==> m == n)
    && (forall m, n :: m in mounts && n in mounts && mounts[m].isDefault && mounts[n].isDefault ==> m == n)
  }

  ghost predicate Integrity(db: Tables) {
    var users, mounts := db.users.Keys, db.mounts.Keys;
    && Owned(db.creds.sessions, users) && Owned(db.creds.refresh, users)
    && (forall id :: id in db.apiTokens ==> db.apiTokens[id].user in users)
    && PairsOwned(db.access, mounts, users) && PairsOwned(db.denials, mounts, users)
    && UsersSound(db.users, mounts)
    && MountsSound(db.mounts, users)
  }

  predicate UsernameTaken(db: Tables, username: string) {
    exists u :: u in db.users && db.users[u].username == username
  }

  ghost function UserNamed(db: Tables, username: string): (r: Option<nat>)
    ensures r.Some? <==> UsernameTaken(db, username)
    ensures r.Some? ==> r.value in db.users && db.users[r.value].username == username
  {
    if UsernameTaken(db, username) then
      var u :| u in db.users && db.users[u].username == username;
      Some(u)
    else None
  }

  ghost predicate HasDefault(db: Tables) {
    exists m :: m in db.mounts && db.mounts[m].isDefault
  }

  ghost function DefaultMount(db: Tables): (r: Option<nat>)
    ensures r.Some? <==> HasDefault(db)
    ensures r.Some? ==> r.value in db.mounts && db.mounts[r.value].isDefault
  {
    if HasDefault(db) then
      var m :| m in db.mounts && db.mounts[m].isDefault;
      Some(m)
    else None
  }

  // --- single statements ---------------------------------------------------------

  function PairsWithout(pairs: set<(nat, nat)>, mount: Option<nat>, user: Option<nat>): set<(nat, nat)> {
    set a | a in pairs && Some(a.0) != mount && Some(a.1) != user
  }

  /** `DELETE FROM users`: sessions, tokens, grants and denials cascade; created mounts lose their creator. */
  function DeleteUserRow(db: Tables, u: nat): Tables {
    Tables(
      db.users - {u},
      Sessions.Creds(Sessions.WithoutUser(db.creds.sessions, u), Sessions.WithoutUser(db.creds.refresh, u)),
      map t | t in db.apiTokens && db.apiTokens[t].user != u :: db.apiTokens[t],
      map m | m in db.mounts ::
        if db.mounts[m].createdBy == Some(u) then db.mounts[m].(createdBy := None) else db.mounts[m],
      PairsWithout(db.access, None, Some(u)),
      PairsWithout(db.denials, None, Some(u)))
  }

  /** `UPDATE users SET default_mount_id = NULL WHERE default_mount_id = m`. */
  function ForgetDefault(users: map<nat, User>, m: nat): map<nat, User> {
    map u | u in users :: if users[u].defaultMount == Some(m) then users[u].(defaultMount := None) else users[u]
  }

  /** `DELETE FROM mounts`: grants and denials cascade; a user still defaulting to the mount blocks it. */
  function DeleteMountRow(db: Tables, m: nat): Option<Tables> {
    if exists u :: u in db.users && db.users[u].defaultMount == Some(m) then None
    else Some(db.(mounts := db.mounts - {m},
                  access := PairsWithout(db.access, Some(m), None),
                  denials := PairsWithout(db.denials, Some(m), None)))
  }

  function InsertMountRow(db: Tables, id: nat, mount: Mount): Option<Tables>
    requires id !in db.mounts
  {
    if (exists m :: m in db.mounts && db.mounts[m].name == mount.name)
       || (mount.isDefault && exists m :: m in db.mounts && db.mounts[m].isDefault)
       || (mount.createdBy.Some? && mount.createdBy.value !in db.users)
    then None
    else Some(db.(mounts := db.mounts[id := mount]))
  }

  // --- operations ----------------------------------------------------------------

  datatype Op =
    | CreateUser(id: nat, username: string, passwordLength: nat, role: Role)
    | SetupFirstUser(id: nat, username: string, passwordLength: nat)
    | DeleteUser(username: string)
    | SetUserDefaultMount(user: nat, choice: Option<nat>)
    | SetUserRole(user: nat, role: Role)
    | Session(t: Sessions.Timed)
    | CreateApiToken(id: nat, username: string, expiresAt: Option<nat>)
    | DeleteApiToken(id: nat)
    | CreateMount(id: nat, name: string, path: string, createdBy: Option<nat>, isDefault: bool)
    | EnsureDefaultMount(id: nat, path: string)
    | DeleteMount(id: nat)
    | Grant(mount: nat, user: nat)
    | Revoke(mount: nat, user: nat)
    | Deny(mount: nat, user: nat)
    | Allow(mount: nat, user: nat)

  datatype Reply = Threw | Done | Changed(yes: bool) | NewRow(id: nat)

  /** SQLite picks a row id no row of the table has; a user's deletion is its own operation. */
  predicate Possible(db: Tables, op: Op) {
    match op
    case CreateUser(id, _, _, _) => id !in db.users
    case SetupFirstUser(id, _, _) => id !in db.users
    case CreateApiToken(id, _, _) => id !in db.apiTokens
    case CreateMount(id, _, _, _, _) => id !in db.mounts
    case EnsureDefaultMount(id, _) => id !in db.mounts
    case Session(t) => !t.event.DeleteUser?
    case _ => true
  }

  function UserCreated(db: Tables, id: nat, username: string, passwordLength: nat, role: Role): (Tables, Reply) {
    if !ValidUsername(username) || passwordLength < 12 || UsernameTaken(db, username) then (db, Threw)
    else (db.(users := db.users[id := User(username, role, None)]), NewRow(id))
  }

  function MountCreated(db: Tables, id: nat, name: string, path: string, createdBy: Option<nat>, isDefault: bool):
      (Tables, Reply)
    requires id !in db.mounts
  {
    if !ValidMountName(name) then (db, Threw)
    else
      match InsertMountRow(db, id, Mount(name, path, isDefault, createdBy))
      case None => (db, Threw)
      case Some(d) => (d, NewRow(id))
  }

  /** What an operation leaves, and answers. */
  ghost function Apply(db: Tables, op: Op): (Tables, Reply)
    requires Possible(db, op)
  {
    match op
    case CreateUser(id, username, passwordLength, role) => UserCreated(db, id, username, passwordLength, role)
    case SetupFirstUser(id, username, passwordLength) =>
      if db.users != map[] then (db, Threw) else UserCreated(db, id, username, passwordLength, AdminRole)
    case DeleteUser(username) =>
      (match UserNamed(db, username)
       case None => (db, Changed(false))
       case Some(u) => (DeleteUserRow(db, u), Changed(true)))
    case SetUserDefaultMount(u, mount) =>
      if u !in db.users then (db, Changed(false))
      else if mount.Some? && mount.value !in db.mounts then (db, Threw)
      else (db.(users := db.users[u := db.users[u].(defaultMount := mount)]), Changed(true))
    case SetUserRole(u, role) =>
      if u !in db.users then (db, Changed(false))
      else (db.(users := db.users[u := db.users[u].(role := role)]), Changed(true))
    case Session(t) =>
      if t.event.Login? && t.event.user !in db.users then (db, Threw)
      else (db.(creds := Sessions.Apply(db.creds, t).0), Done)
    case CreateApiToken(id, username, expiresAt) =>
      (match UserNamed(db, username)
       case None => (db, Threw)
       case Some(u) => (db.(apiTokens := db.apiTokens[id := ApiToken(u, expiresAt)]), NewRow(id)))
    case DeleteApiToken(id) => (db.(apiTokens := db.apiTokens - {id}), Changed(id in db.apiTokens))
    case CreateMount(id, name, path, createdBy, isDefault) => MountCreated(db, id, name, path, createdBy, isDefault)
    case EnsureDefaultMount(id, path) =>
      (match DefaultMount(db)
       case None => MountCreated(db, id, "default", path, None, true)
       case Some(m) => (db.(mounts := db.mounts[m := db.mounts[m].(path := path)]), Done))
    case DeleteMount(m) =>
      if m !in db.mounts || db.mounts[m].isDefault then (db, Changed(false))
      else (Tables(ForgetDefault(db.users, m), db.creds, db.apiTokens, db.mounts - {m},
                   PairsWithout(db.access, Some(m), None), PairsWithout(db.denials, Some(m), None)),
            Changed(true))
    case Grant(m, u) =>
      if m in db.mounts && u in db.users then (db.(access := db.access + {(m, u)}), Done) else (db, Threw)
    case Revoke(m, u) => (db.(access := db.access - {(m, u)}), Done)
    case Deny(m, u) =>
      if m in db.mounts && u in db.users then (db.(denials := db.denials + {(m, u)}), Done) else (db, Threw)
    case Allow(m, u) => (db.(denials := db.denials - {(m, u)}), Done)
  }

  // --- integrity -----------------------------------------------------------------

  lemma UserCreatedKeeps(db: Tables, id: nat, username: string, passwordLength: nat, role: Role)
    requires Integrity(db) && id !in db.users
    ensures Integrity(UserCreated(db, id, username, passwordLength, role).0)
  {}

  lemma MountCreatedKeeps(db: Tables, id: nat, name: string, path: string, createdBy: Option<nat>, isDefault: bool)
    requires Integrity(db) && id !in db.mounts
    ensures Integrity(MountCreated(db, id, name, path, createdBy, isDefault).0)
  {}

  lemma DeleteUserRowKeeps(db: Tables, u: nat)
    requires Integrity(db)
    ensures Integrity(DeleteUserRow(db, u))
  {}

  lemma TokensStayOwned(c: Sessions.Creds, t: Sessions.Timed, users: set<nat>)
    requires Owned(c.sessions, users) && Owned(c.refresh, users)
    requires t.event.Login? ==> t.event.user in users
    ensures Owned(Sessions.Apply(c, t).0.sessions, users) && Owned(Sessions.Apply(c, t).0.refresh, users)
  {}

  lemma SessionKeeps(db: Tables, t: Sessions.Timed)
    requires Integrity(db) && (t.event.Login? ==> t.event.user in db.users)
    ensures Integrity(db.(creds := Sessions.Apply(db.creds, t).0))
  {
    TokensStayOwned(db.creds, t, db.users.Keys);
  }

  lemma PathUpdateKeeps(db: Tables, m: nat, path: string)
    requires Integrity(db) && m in db.mounts
    ensures Integrity(db.(mounts := db.mounts[m := db.mounts[m].(path := path)]))
  {}

  /** Startup leaves the default mount at the configured path, unless its name was taken. */
  lemma EnsuredDefaultHasPath(db: Tables, id: nat, path: string)
    requires Integrity(db) && id !in db.mounts
    ensures var (db', r) := Apply(db, EnsureDefaultMount(id, path));
            if HasDefault(db) || forall m :: m in db.mounts ==> db.mounts[m].name != "default"
            then DefaultMount(db').Some? && db'.mounts[DefaultMount(db').value].path == path
            else r == Threw && db' == db
  {
    var (db', r) := Apply(db, EnsureDefaultMount(id, path));
    ApplyKeepsIntegrity(db, EnsureDefaultMount(id, path));
    var m := if HasDefault(db) then DefaultMount(db).value else id;
    if m in db'.mounts {
      assert db'.mounts[m].isDefault ==> HasDefault(db');
    }
  }

  lemma DeleteMountKeeps(db: Tables, m: nat)
    requires Integrity(db)
    ensures Integrity(Apply(db, DeleteMount(m)).0)
  {}

  lemma UpdateUserKeeps(db: Tables, u: nat, user: User)
    requires Integrity(db) && u in db.users && user.username == db.users[u].username
    requires user.defaultMount.Some? ==> user.defaultMount.value in db.mounts
    ensures Integrity(db.(users := db.users[u := user]))
  {}

  lemma ApplyKeepsIntegrity(db: Tables, op: Op)
    requires Integrity(db) && Possible(db, op)
    ensures Integrity(Apply(db, op).0)
  {
    match op
    case CreateUser(id, username, passwordLength, role) => UserCreatedKeeps(db, id, username, passwordLength, role);
    case SetupFirstUser(id, username, passwordLength) => UserCreatedKeeps(db, id, username, passwordLength, AdminRole);
    case DeleteUser(username) =>
      if UserNamed(db, username).Some? {
        DeleteUserRowKeeps(db, UserNamed(db, username).value);
      }
    case SetUserDefaultMount(u, mount) =>
      if u in db.users && (mount.Some? ==> mount.value in db.mounts) {
        UpdateUserKeeps(db, u, db.users[u].(defaultMount := mount));
      }
    case SetUserRole(u, role) =>
      if u in db.users {
        UpdateUserKeeps(db, u, db.users[u].(role := role));
      }
    case Session(t) =>
      if t.event.Login? ==> t.event.user in db.users {
        SessionKeeps(db, t);
      }
    case CreateMount(id, name, path, createdBy, isDefault) =>
      MountCreatedKeeps(db, id, name, path, createdBy, isDefault);
    case EnsureDefaultMount(id, path) =>
      if DefaultMount(db).None? {
        MountCreatedKeeps(db, id, "default", path, None, true);
      } else {
        PathUpdateKeeps(db, DefaultMount(db).value, path);
      }
    case DeleteMount(m) => DeleteMountKeeps(db, m);
    case _ =>
  }

  /** The database after a run of operations; impossible ones are skipped. */
  ghost function After(ops: seq<Op>): Tables {
    if ops == [] then EMPTY
    else
      var db, op := After(ops[..|ops| - 1]), ops[|ops| - 1];
      if Possible(db, op) then Apply(db, op).0 else db
  }

  /** Every run keeps every reference pointing at a row, names unique and at most one default mount. */
  lemma {:induction false} EveryRunKeepsIntegrity(ops: seq<Op>)
    ensures Integrity(After(ops))
  {
    if ops != [] {
      var db, op := After(ops[..|ops| - 1]), ops[|ops| - 1];
      EveryRunKeepsIntegrity(ops[..|ops| - 1]);
      if Possible(db, op) {
        ApplyKeepsIntegrity(db, op);
      }
    }
  }

  /** A new row inherits nothing, even if its id was used before: nothing refers to it yet. */
  lemma NewRowsStartClean(ops: seq<Op>, op: Op)
    requires Possible(After(ops), op) && Apply(After(ops), op).1.NewRow?
    ensures var db, id := Apply(After(ops), op).0, Apply(After(ops), op).1.id;
            && (op.CreateUser? || op.SetupFirstUser? ==>
                  id in db.users
                  && (forall k :: k in db.creds.sessions ==> db.creds.sessions[k].user != id)
                  && (forall k :: k in db.creds.refresh ==> db.creds.refresh[k].user != id)
                  && (forall k :: k in db.apiTokens ==> db.apiTokens[k].user != id)
                  && (forall a :: a in db.access + db.denials ==> a.1 != id)
                  && (forall m :: m in db.mounts ==> db.mounts[m].createdBy != Some(id)))
            && (op.CreateMount? || op.EnsureDefaultMount? ==>
                  id in db.mounts
                  && (forall a :: a in db.access + db.denials ==> a.0 != id)
                  && (forall u :: u in db.users ==> db.users[u].defaultMount != Some(id)))
  {
    EveryRunKeepsIntegrity(ops);
  }

  lemma OnlyDefault(db: Tables, m: nat)
    requires Integrity(db) && m in db.mounts && db.mounts[m].isDefault
    ensures DefaultMount(db) == Some(m)
  {}

  lemma DefaultRowStays(db: Tables, op: Op, m: nat)
    requires Possible(db, op) && m in db.mounts && db.mounts[m].isDefault
    ensures m in Apply(db, op).0.mounts && Apply(db, op).0.mounts[m].isDefault
  {
    match op
    case DeleteUser(username) =>
    case CreateMount(id, name, path, createdBy, isDefault) =>
    case EnsureDefaultMount(id, path) =>
    case DeleteMount(id) =>
    case _ =>
  }

  /** The default mount, once there, is never lost. */
  lemma DefaultMountStays(db: Tables, op: Op)
    requires Integrity(db) && Possible(db, op) && HasDefault(db)
    ensures DefaultMount(Apply(db, op).0) == DefaultMount(db)
  {
    var m := DefaultMount(db).value;
    var db' := Apply(db, op).0;
    ApplyKeepsIntegrity(db, op);
    DefaultRowStays(db, op, m);
    OnlyDefault(db', m);
  }

  // --- the last admin ------------------------------------------------------------

  function Admins(db: Tables): set<nat> {
    set u | u in db.users && db.users[u].role == AdminRole
  }

  datatype Request =
    | ChangeRole(username: string, role: Role)
    | RemoveUser(username: string)
    | Other(op: Op)          // any other operation the server performs

  datatype Status = NoSuchUser | LastAdmin | Performed

  /** The role and delete-user handlers check the admin count before they act. */
  ghost function Handle(db: Tables, r: Request): (Tables, Status) {
    match r
    case ChangeRole(username, role) =>
      (match UserNamed(db, username)
       case None => (db, NoSuchUser)
       case Some(u) =>
         if db.users[u].role == AdminRole && role == UserRole && |Admins(db)| <= 1 then (db, LastAdmin)
         else (Apply(db, SetUserRole(u, role)).0, Performed))
    case RemoveUser(username) =>
      (match UserNamed(db, username)
       case None => (db, NoSuchUser)
       case Some(u) =>
         if db.users[u].role == AdminRole && |Admins(db)| <= 1 then (db, LastAdmin)
         else (Apply(db, DeleteUser(username)).0, Performed))
    case Other(op) =>
      if op.SetUserRole? || op.DeleteUser? || !Possible(db, op) then (db, Performed) else (Apply(db, op).0, Performed)
  }

  lemma OthersRemain(s: set<nat>, u: nat)
    requires u in s
    ensures |s| <= 1 <==> s - {u} == {}
  {
    assert |s - {u}| == |s| - 1;
  }

  lemma AdminsAfterRole(db: Tables, u: nat, role: Role)
    requires u in db.users
    ensures Admins(Apply(db, SetUserRole(u, role)).0)
         == if role == AdminRole then Admins(db) + {u} else Admins(db) - {u}
  {}

  lemma AdminsAfterDelete(db: Tables, username: string)
    requires UserNamed(db, username).Some?
    ensures Admins(Apply(db, DeleteUser(username)).0) == Admins(db) - {UserNamed(db, username).value}
  {}

  lemma AdminsAfterOther(db: Tables, op: Op)
    requires Possible(db, op) && !op.SetUserRole? && !op.DeleteUser?
    ensures Admins(db) <= Admins(Apply(db, op).0)
  {}

  /** Once there is an admin, no request leaves the server without one. */
  lemma AdminRemains(db: Tables, r: Request)
    requires Admins(db) != {}
    ensures Admins(Handle(db, r).0) != {}
  {
    match r
    case ChangeRole(username, role) =>
      if UserNamed(db, username).Some? {
        var u := UserNamed(db, username).value;
        AdminsAfterRole(db, u, role);
        if u in Admins(db) {
          OthersRemain(Admins(db), u);
        }
      }
    case RemoveUser(username) =>
      if UserNamed(db, username).Some? {
        var u := UserNamed(db, username).value;
        AdminsAfterDelete(db, username);
        if u in Admins(db) {
          OthersRemain(Admins(db), u);
        }
      }
    case Other(op) =>
      if Possible(db, op) && !op.SetUserRole? && !op.DeleteUser? {
        AdminsAfterOther(db, op);
      }
  }

  /** The guard refuses exactly the requests that would leave no admin. */
  lemma RefusedExactly(db: Tables, username: string)
    requires UserNamed(db, username).Some? && Admins(db) != {}
    ensures Handle(db, RemoveUser(username)).1 == LastAdmin
            <==> Admins(Apply(db, DeleteUser(username)).0) == {}
    ensures Handle(db, ChangeRole(username, UserRole)).1 == LastAdmin
            <==> Admins(Apply(db, SetUserRole(UserNamed(db, username).value, UserRole)).0) == {}
    ensures Handle(db, ChangeRole(username, AdminRole)).1 == Performed
  {
    var u := UserNamed(db, username).value;
    AdminsAfterRole(db, u, UserRole);
    AdminsAfterDelete(db, username);
    if u in Admins(db) {
      OthersRemain(Admins(db), u);
    } else {
      assert Admins(db) - {u} == Admins(db);
    }
  }

  ghost function Served(db: Tables, requests: seq<Request>): Tables {
    if requests == [] then db
    else Handle(Served(db, requests[..|requests| - 1]), requests[|requests| - 1]).0
  }

  lemma {:induction false} EveryRunKeepsAnAdmin(db: Tables, requests: seq<Request>)
    requires Admins(db) != {}
    ensures Admins(Served(db, requests)) != {}
  {
    if requests != [] {
      EveryRunKeepsAnAdmin(db, requests[..|requests| - 1]);
      AdminRemains(Served(db, requests[..|requests| - 1]), requests[|requests| - 1]);
    }
  }

  // --- who may browse a mount ----------------------------------------------------

  predicate HasMountAccess(db: Tables, m: nat, user: nat, isAdmin: bool)
    requires m in db.mounts
  {
    isAdmin
    || (if db.mounts[m].isDefault then (m, user) !in db.denials else (m, user) in db.access)
  }

  /** The WHERE clause of `listMountsForUser`. */
  predicate Listed(db: Tables, m: nat, user: nat)
    requires m in db.mounts
  {
    (db.mounts[m].isDefault && (m, user) !in db.denials) || (m, user) in db.access
  }

  /** The rows of `order` (a listing of all mounts) that satisfy the clause, in the same order. */
  function ListMountsForUser(db: Tables, order: seq<nat>, user: nat, isAdmin: bool): seq<nat>
    requires forall m :: m in order ==> m in db.mounts
  {
    if isAdmin then order
    else if order == [] then []
    else (if Listed(db, order[0], user) then [order[0]] else []) + ListMountsForUser(db, order[1..], user, false)
  }

  function Accessible(db: Tables, order: seq<nat>, user: nat, isAdmin: bool): seq<nat>
    requires forall m :: m in order ==> m in db.mounts
  {
    if order == [] then []
    else (if HasMountAccess(db, order[0], user, isAdmin) then [order[0]] else [])
         + Accessible(db, order[1..], user, isAdmin)
  }

  lemma {:induction false} AllAccessibleToAdmin(db: Tables, order: seq<nat>, user: nat)
    requires forall m :: m in order ==> m in db.mounts
    ensures Accessible(db, order, user, true) == order
  {
    if order != [] {
      AllAccessibleToAdmin(db, order[1..], user);
    }
  }

  /** The user is denied a default mount that a grant also names. */
  predicate Contradicted(db: Tables, m: nat, user: nat)
    requires m in db.mounts
  {
    db.mounts[m].isDefault && (m, user) in db.denials && (m, user) in db.access
  }

  lemma {:induction false} AccessibleListed(db: Tables, order: seq<nat>, user: nat)
    requires forall m :: m in order ==> m in db.mounts
    ensures |Accessible(db, order, user, false)| <= |ListMountsForUser(db, order, user, false)|
    ensures (forall m :: m in order ==> !Contradicted(db, m, user))
            ==> ListMountsForUser(db, order, user, false) == Accessible(db, order, user, false)
    ensures (exists m :: m in order && Contradicted(db, m, user))
            ==> |Accessible(db, order, user, false)| < |ListMountsForUser(db, order, user, false)|
  {
    if order != [] {
      AccessibleListed(db, order[1..], user);
      var m := order[0];
      assert m in order && forall k :: k in order <==> k == m || k in order[1..];
      assert HasMountAccess(db, m, user, false) ==> Listed(db, m, user);
      assert Contradicted(db, m, user) <==> Listed(db, m, user) && !HasMountAccess(db, m, user, false);
    }
  }

  /**
   * The mounts a user is shown are those they may open, in order, exactly
   * unless the user is both denied and granted the default mount.
   */
  lemma ListedIsAccessibleExactly(db: Tables, order: seq<nat>, user: nat, isAdmin: bool)
    requires forall m :: m in order ==> m in db.mounts
    ensures ListMountsForUser(db, order, user, isAdmin) == Accessible(db, order, user, isAdmin)
            <==> isAdmin || forall m :: m in order ==> !Contradicted(db, m, user)
  {
    if isAdmin {
      AllAccessibleToAdmin(db, order, user);
    } else {
      AccessibleListed(db, order, user);
    }
  }

  /** Nothing stops that state: two admin requests on the default mount reach it from any other. */
  lemma ContradictionReachable(db: Tables, m: nat, user: nat)
    requires Integrity(db) && m in db.mounts && db.mounts[m].isDefault && user in db.users
    ensures var db' := Apply(Apply(db, Deny(m, user)).0, Grant(m, user)).0;
            Integrity(db') && m in db'.mounts && Contradicted(db', m, user)
            && ListMountsForUser(db', [m], user, false) == [m] && Accessible(db', [m], user, false) == []
  {
    var db1 := Apply(db, Deny(m, user)).0;
    ApplyKeepsIntegrity(db, Deny(m, user));
    ApplyKeepsIntegrity(db1, Grant(m, user));
    ContradictedListing(Apply(db1, Grant(m, user)).0, m, user);
  }

  lemma ContradictedListing(db: Tables, m: nat, user: nat)
    requires m in db.mounts && Contradicted(db, m, user)
    ensures ListMountsForUser(db, [m], user, false) == [m] && Accessible(db, [m], user, false) == []
  {
    assert [m][1..] == [];
  }

  /** A request that is not refused does what it asks, and one that is changes nothing. */
  lemma HandledExactly(db: Tables, username: string, role: Role)
    requires Integrity(db)
    ensures var (db', status) := Handle(db, RemoveUser(username));
            && (status == NoSuchUser <==> !UsernameTaken(db, username))
            && (status == Performed ==> !UsernameTaken(db', username))
            && (status != Performed ==> db' == db)
    ensures var (db', status) := Handle(db, ChangeRole(username, role));
            && (status == NoSuchUser <==> !UsernameTaken(db, username))
            && (status == Performed ==> db'.users[UserNamed(db, username).value].role == role)
            && (status != Performed ==> db' == db)
  {}

  // --- what each operation comes to ----------------------------------------------

  /** Creating a user succeeds exactly for a good, free name and a long enough password, and adds just that user. */
  lemma CreatedExactly(db: Tables, id: nat, username: string, passwordLength: nat, role: Role)
    requires Integrity(db) && id !in db.users
    ensures var (db', r) := Apply(db, CreateUser(id, username, passwordLength, role));
            && (r == NewRow(id) <==> ValidUsername(username) && passwordLength >= 12 && !UsernameTaken(db, username))
            && (r == NewRow(id) ==>
                  db'.users == db.users[id := User(username, role, None)] && UserNamed(db', username) == Some(id)
                  && Admins(db') == if role == AdminRole then Admins(db) + {id} else Admins(db))
            && (r != NewRow(id) ==> r == Threw && db' == db)
  {
    if ValidUsername(username) && passwordLength >= 12 && !UsernameTaken(db, username) {
      var db' := Apply(db, CreateUser(id, username, passwordLength, role)).0;
      UserCreatedKeeps(db, id, username, passwordLength, role);
      assert db'.users[id].username == username;
      assert UsernameTaken(db', username);
    }
  }

  /** The first user is an admin, and only the first can be set up. */
  lemma FirstUserIsAdmin(db: Tables, id: nat, username: string, passwordLength: nat)
    requires Integrity(db) && id !in db.users
    ensures var (db', r) := Apply(db, SetupFirstUser(id, username, passwordLength));
            && (r == NewRow(id) <==> db.users == map[] && ValidUsername(username) && passwordLength >= 12)
            && (r == NewRow(id) ==> Admins(db') == {id} && UserNamed(db', username) == Some(id))
            && (r != NewRow(id) ==> db' == db)
  {
    if db.users == map[] {
      CreatedExactly(db, id, username, passwordLength, AdminRole);
      assert Admins(db) == {};
    }
  }

  /** The two lists of (mount, user) pairs: grants, and denials of the default mount. */
  datatype PairKind = Grants | Denials

  function Pairs(kind: PairKind, db: Tables): set<(nat, nat)> {
    if kind.Grants? then db.access else db.denials
  }

  /** What takes a pair off its list: its own request, or the end of the mount or the user. */
  ghost predicate Lifts(kind: PairKind, db: Tables, op: Op, m: nat, u: nat) {
    match op
    case Revoke(mount, user) => kind.Grants? && mount == m && user == u
    case Allow(mount, user) => kind.Denials? && mount == m && user == u
    case DeleteMount(mount) => mount == m && m in db.mounts && !db.mounts[m].isDefault
    case DeleteUser(username) => UserNamed(db, username) == Some(u)
    case _ => false
  }

  /** A pair is on its list after an operation exactly if that put it there, or it was there and was not taken off. */
  lemma PairsExactly(kind: PairKind, db: Tables, op: Op, m: nat, u: nat)
    requires Integrity(db) && Possible(db, op)
    ensures (m, u) in Pairs(kind, Apply(db, op).0)
            <==> (op == (if kind.Grants? then Grant(m, u) else Deny(m, u)) && m in db.mounts && u in db.users)
                 || ((m, u) in Pairs(kind, db) && !Lifts(kind, db, op, m, u))
  {
    if op.DeleteUser? {
      if UserNamed(db, op.username).Some? {
        assert Apply(db, op).0 == DeleteUserRow(db, UserNamed(db, op.username).value);
      }
    } else if !op.DeleteMount? && !op.Grant? && !op.Revoke? && !op.Deny? && !op.Allow? {
      PairsUntouched(db, op);
    }
  }

  lemma PairsUntouched(db: Tables, op: Op)
    requires Possible(db, op) && !op.DeleteUser? && !op.DeleteMount?
    requires !op.Grant? && !op.Revoke? && !op.Deny? && !op.Allow?
    ensures Apply(db, op).0.access == db.access && Apply(db, op).0.denials == db.denials
  {}

  function Row<T>(m: map<nat, T>, id: nat): Option<T> {
    if id in m then Some(m[id]) else None
  }

  /** Deleting a user takes just that user, and what sessions and tokens of theirs there are. */
  lemma DeletedExactly(db: Tables, username: string)
    requires Integrity(db)
    ensures var (db', r) := Apply(db, DeleteUser(username));
            && (UserNamed(db, username).None? ==> db' == db && r == Changed(false))
            && (UserNamed(db, username).Some? ==>
                  var u := UserNamed(db, username).value;
                  && r == Changed(true) && db'.users == db.users - {u} && db'.mounts.Keys == db.mounts.Keys
                  && forall now :: db'.creds == Sessions.Apply(db.creds, Sessions.Timed(Sessions.DeleteUser(u), now)).0)
  {}

  /** A user's row after an operation, other than its creation or deletion, keeps all but what that sets. */
  lemma UserRowExactly(db: Tables, op: Op, u: nat)
    requires Integrity(db) && Possible(db, op) && !op.CreateUser? && !op.SetupFirstUser? && !op.DeleteUser?
    ensures var before, after := Row(db.users, u), Row(Apply(db, op).0.users, u);
            && (before.Some? <==> after.Some?)
            && (before.Some? ==>
                  && after.value.username == before.value.username
                  && after.value.role == (if op.SetUserRole? && op.user == u then op.role else before.value.role))
  {}

  /** A mount that can be added: a good name, a free one, no second default, an existing creator. */
  ghost predicate Addable(db: Tables, mount: Mount) {
    && ValidMountName(mount.name) && (forall k :: k in db.mounts ==> db.mounts[k].name != mount.name)
    && !(mount.isDefault && HasDefault(db)) && (mount.createdBy.None? || mount.createdBy.value in db.users)
  }

  /** A mount's row after an operation: as asked if it can be added, gone if it may go, or with just what changes. */
  lemma MountRowsExactly(db: Tables, op: Op, m: nat)
    requires Integrity(db) && Possible(db, op)
    ensures Row(Apply(db, op).0.mounts, m)
         == (match op
             case CreateMount(id, name, path, createdBy, isDefault) =>
               var mount := Mount(name, path, isDefault, createdBy);
               if id == m && Addable(db, mount) then Some(mount) else Row(db.mounts, m)
             case EnsureDefaultMount(id, path) =>
               var mount := Mount("default", path, true, None);
               if DefaultMount(db) == Some(m) then Some(db.mounts[m].(path := path))
               else if id == m && Addable(db, mount) then Some(mount) else Row(db.mounts, m)
             case DeleteMount(id) =>
               if id == m && m in db.mounts && !db.mounts[m].isDefault then None else Row(db.mounts, m)
             case DeleteUser(username) =>
               if m in db.mounts && db.mounts[m].createdBy.Some? && UserNamed(db, username) == db.mounts[m].createdBy
               then Some(db.mounts[m].(createdBy := None)) else Row(db.mounts, m)
             case _ => Row(db.mounts, m))
  {
    if op.EnsureDefaultMount? {
      GoodDefaultName();
    }
  }

  lemma GoodDefaultName()
    ensures ValidMountName("default")
  {}

  /** A token works for its owner until it is deleted, or its owner is. */
  lemma ApiTokensExactly(db: Tables, op: Op, id: nat, token: ApiToken)
    requires Integrity(db) && Possible(db, op)
    ensures var db' := Apply(db, op).0;
            id in db'.apiTokens && db'.apiTokens[id] == token
            <==> (op.CreateApiToken? && op.id == id && UserNamed(db, op.username) == Some(token.user)
                  && op.expiresAt == token.expiresAt)
                 || (id in db.apiTokens && db.apiTokens[id] == token && op != DeleteApiToken(id)
                     && !(op.DeleteUser? && UserNamed(db, op.username) == Some(token.user)))
  {
    if op.DeleteUser? {
      if UserNamed(db, op.username).Some? {
        assert Apply(db, op).0 == DeleteUserRow(db, UserNamed(db, op.username).value);
      }
    } else if !op.CreateApiToken? && !op.DeleteApiToken? {
      TokensUntouched(db, op);
    }
  }

  lemma TokensUntouched(db: Tables, op: Op)
    requires Possible(db, op) && !op.DeleteUser? && !op.CreateApiToken? && !op.DeleteApiToken?
    ensures Apply(db, op).0.apiTokens == db.apiTokens
  {}

  /** A user's override is what was last chosen, until its mount is deleted. */
  lemma DefaultChoiceExactly(db: Tables, op: Op, u: nat)
    requires Integrity(db) && Possible(db, op) && u in db.users && u in Apply(db, op).0.users
    ensures Apply(db, op).0.users[u].defaultMount
         == (match op
             case SetUserDefaultMount(user, choice) =>
               if user == u && (choice.None? || choice.value in db.mounts) then choice else db.users[u].defaultMount
             case DeleteMount(m) =>
               if db.users[u].defaultMount == Some(m) && m in db.mounts && !db.mounts[m].isDefault then None
               else db.users[u].defaultMount
             case _ => db.users[u].defaultMount)
  {}

  // --- the code ------------------------------------------------------------------

  class Database {
    var db: Tables

    ghost predicate Valid()
      reads this
    {
      Integrity(db)
    }

    constructor ()
      ensures Valid() && db == EMPTY
    {
      db := EMPTY;
    }

    method GetUserByUsername(username: string) returns (r: Option<nat>)
      requires Valid()
      ensures r == UserNamed(db, username)
    {
      if u :| u in db.users && db.users[u].username == username {
        r := Some(u);
      } else {
        r := None;
      }
    }

    method GetDefaultMount() returns (r: Option<nat>)
      requires Valid()
      ensures r == DefaultMount(db)
    {
      if m :| m in db.mounts && db.mounts[m].isDefault {
        r := Some(m);
      } else {
        r := None;
      }
    }

    method CreateUser(id: nat, username: string, passwordLength: nat, role: Role) returns (r: Reply)
      requires Valid() && id !in db.users
      modifies this
      ensures Valid() && (db, r) == Apply(old(db), Op.CreateUser(id, username, passwordLength, role))
    {
      UserCreatedKeeps(db, id, username, passwordLength, role);
      if !ValidUsername(username) || passwordLength < 12 {
        return Threw;
      }
      var existing := GetUserByUsername(username);
      if existing.Some? {
        return Threw;
      }
      db := db.(users := db.users[id := User(username, role, None)]);
      r := NewRow(id);
    }

    method SetupFirstUser(id: nat, username: string, passwordLength: nat) returns (r: Reply)
      requires Valid() && id !in db.users
      modifies this
      ensures Valid() && (db, r) == Apply(old(db), Op.SetupFirstUser(id, username, passwordLength))
    {
      if |db.users| > 0 {
        return Threw;
      }
      assert db.users == map[];
      r := CreateUser(id, username, passwordLength, AdminRole);
    }

    method DeleteUser(username: string) returns (r: Reply)
      requires Valid()
      modifies this
      ensures Valid() && (db, r) == Apply(old(db), Op.DeleteUser(username))
    {
      var user := GetUserByUsername(username);
      if user.None? {
        return Changed(false);
      }
      var u := user.value;
      DeleteUserRowKeeps(db, u);
      ghost var before := db;
      db := db.(access := PairsWithout(db.access, None, Some(u)));
      db := db.(denials := PairsWithout(db.denials, None, Some(u)));
      db := DeleteUserRow(db, u);
      assert db == DeleteUserRow(before, u);
      r := Changed(true);
    }

    method SetUserDefaultMount(userId: nat, mountId: Option<nat>) returns (r: Reply)
      requires Valid()
      modifies this
      ensures Valid() && (db, r) == Apply(old(db), Op.SetUserDefaultMount(userId, mountId))
    {
      ApplyKeepsIntegrity(db, Op.SetUserDefaultMount(userId, mountId));
      if userId !in db.users {
        return Changed(false);
      }
      if mountId.Some? && mountId.value !in db.mounts {
        return Threw;
      }
      db := db.(users := db.users[userId := db.users[userId].(defaultMount := mountId)]);
      r := Changed(true);
    }

    method CreateMount(id: nat, name: string, path: string, createdBy: Option<nat>, isDefault: bool) returns (r: Reply)
      requires Valid() && id !in db.mounts
      modifies this
      ensures Valid() && (db, r) == Apply(old(db), Op.CreateMount(id, name, path, createdBy, isDefault))
    {
      MountCreatedKeeps(db, id, name, path, createdBy, isDefault);
      if !ValidMountName(name) {
        return Threw;
      }
      var inserted := InsertMountRow(db, id, Mount(name, path, isDefault, createdBy));
      if inserted.None? {
        return Threw;
      }
      db := inserted.value;
      r := NewRow(id);
    }

    method EnsureDefaultMount(id: nat, path: string) returns (r: Reply)
      requires Valid() && id !in db.mounts
      modifies this
      ensures Valid() && (db, r) == Apply(old(db), Op.EnsureDefaultMount(id, path))
    {
      var existing := GetDefaultMount();
      if existing.None? {
        r := CreateMount(id, "default", path, None, true);
        return;
      }
      var m := existing.value;
      PathUpdateKeeps(db, m, path);
      var mount := db.mounts[m];
      if mount.path != path {
        db := db.(mounts := db.mounts[m := mount.(path := path)]);
      } else {
        assert db.mounts == db.mounts[m := mount.(path := path)];
      }
      r := Done;
    }

    /** Clearing the users' defaults first is what keeps the last statement from failing. */
    method DeleteMount(id: nat) returns (r: Reply)
      requires Valid()
      modifies this
      ensures Valid() && (db, r) == Apply(old(db), Op.DeleteMount(id))
    {
      DeleteMountKeeps(db, id);
      if id !in db.mounts || db.mounts[id].isDefault {
        return Changed(false);
      }
      ghost var before := db;
      db := db.(access := PairsWithout(db.access, Some(id), None));
      db := db.(denials := PairsWithout(db.denials, Some(id), None));
      db := db.(users := ForgetDefault(db.users, id));
      var deleted := DeleteMountRow(db, id);
      assert deleted.Some?;
      db := deleted.value;
      assert db == Apply(before, Op.DeleteMount(id)).0;
      r := Changed(true);
    }

    /** The delete-user handler. */
    method HandleRemoveUser(username: string) returns (status: Status)
      requires Valid()
      modifies this
      ensures Valid() && (db, status) == Handle(old(db), RemoveUser(username))
    {
      var target := GetUserByUsername(username);
      if target.None? {
        return NoSuchUser;
      }
      if db.users[target.value].role == AdminRole && |Admins(db)| <= 1 {
        return LastAdmin;
      }
      var _ := DeleteUser(username);
      return Performed;
    }

    /** The role handler. */
    method HandleChangeRole(username: string, role: Role) returns (status: Status)
      requires Valid()
      modifies this
      ensures Valid() && (db, status) == Handle(old(db), ChangeRole(username, role))
    {
      var target := GetUserByUsername(username);
      if target.None? {
        return NoSuchUser;
      }
      var u := target.value;
      if db.users[u].role == AdminRole && role == UserRole && |Admins(db)| <= 1 {
        return LastAdmin;
      }
      ApplyKeepsIntegrity(db, SetUserRole(u, role));
      db := db.(users := db.users[u := db.users[u].(role := role)]);
      return Performed;
    }
  }
}
