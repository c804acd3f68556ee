/** The admin store as a state machine: memory, disk and sessions, and what
    every run of its operations keeps (internal/agentadmin/admin.go). */
module AdminState {
  import opened Wrappers
  import opened AdminDocument

  datatype Session = Session(username: string, expiresAt: int)

  /** The document in memory, the one on disk, and the sessions, keyed by the
      hash of their bearer. */
  datatype State = State(doc: Document, disk: Option<Document>, sessions: map<string, Session>)

  /** One change of the document, with names normalised, products checked, and
      secrets already hashed. */
  datatype Change =
    | MintBootstrap(hash: string)
    | ResetBootstrap(hash: string)
    | CreateFirstUser(presented: string, user: User)
    | AddUser(user: User)
    | SetPassword(name: string, passwordHash: string)
    | SetUserProducts(name: string, products: seq<string>)
    | SetRole(name: string, role: Role, products: seq<string>)
    | DeleteUser(name: string)
    | AddProduct(product: Product)
    | AllocateReleaseCode(id: string, floor: int)
    | RemoveProduct(id: string)
    | IssueToken(token: Token)
    | RotateToken(id: string, hash: string, at: string)
    | RevokeToken(id: string, at: string)

  // ---------------------------------------------------------------------
  // Lookups
  // ---------------------------------------------------------------------

  function UserAt(users: seq<User>, name: string): (index: int)
    ensures -1 <= index < |users|
    ensures index >= 0 ==> users[index].username == name
    ensures index < 0 ==> forall i | 0 <= i < |users| :: users[i].username != name
  {
    if users == [] then -1
    else if users[0].username == name then 0
    else var rest := UserAt(users[1..], name); if rest < 0 then -1 else rest + 1
  }

  function ProductAt(products: seq<Product>, id: string): (index: int)
    ensures -1 <= index < |products|
    ensures index >= 0 ==> products[index].id == id
    ensures index < 0 ==> forall i | 0 <= i < |products| :: products[i].id != id
  {
    if products == [] then -1
    else if products[0].id == id then 0
    else var rest := ProductAt(products[1..], id); if rest < 0 then -1 else rest + 1
  }

  function TokenAt(tokens: seq<Token>, id: string): (index: int)
    ensures -1 <= index < |tokens|
    ensures index >= 0 ==> tokens[index].id == id
    ensures index < 0 ==> forall i | 0 <= i < |tokens| :: tokens[i].id != id
  {
    if tokens == [] then -1
    else if tokens[0].id == id then 0
    else var rest := TokenAt(tokens[1..], id); if rest < 0 then -1 else rest + 1
  }

  function Admins(users: seq<User>): nat {
    if users == [] then 0
    else Admins(users[..|users| - 1]) + if users[|users| - 1].role == Admin then 1 else 0
  }

  /** The tokens not issued for the product, in order. */
  function TokensWithout(tokens: seq<Token>, product: string): seq<Token> {
    if tokens == [] then []
    else
      TokensWithout(tokens[..|tokens| - 1], product) +
      if tokens[|tokens| - 1].product == product then [] else [tokens[|tokens| - 1]]
  }

  function RemoveAt<T>(s: seq<T>, i: nat): seq<T>
    requires i < |s|
  {
    s[..i] + s[i + 1..]
  }

  function Max(a: int, b: int): int {
    if a < b then b else a
  }

  // ---------------------------------------------------------------------
  // The effect of each change, or its refusal
  // ---------------------------------------------------------------------

  function Changed(doc: Document, change: Change): Option<Document> {
    match change
    case MintBootstrap(hash) =>
      if doc.users != [] || |doc.bootstrapHash| == DIGEST_LENGTH then None else Some(doc.(bootstrapHash := hash))
    case ResetBootstrap(hash) =>
      if doc.users != [] then None else Some(doc.(bootstrapHash := hash))
    case CreateFirstUser(presented, user) =>
      if doc.users != [] || |doc.bootstrapHash| != DIGEST_LENGTH || presented != doc.bootstrapHash then None
      else Some(doc.(users := [user], bootstrapHash := ""))
    case AddUser(user) =>
      if UserAt(doc.users, user.username) >= 0 then None else Some(doc.(users := doc.users + [user]))
    case SetPassword(name, passwordHash) =>
      var i := UserAt(doc.users, name);
      if i < 0 then None
      else Some(doc.(users := doc.users[i := doc.users[i].(passwordHash := passwordHash)]))
    case SetUserProducts(name, products) =>
      var i := UserAt(doc.users, name);
      if i < 0 || doc.users[i].role != Owner || products == [] then None
      else Some(doc.(users := doc.users[i := doc.users[i].(products := products)]))
    case SetRole(name, role, products) =>
      var i := UserAt(doc.users, name);
      if i < 0 || (role == Owner && products == []) then None
      else if role == Owner && doc.users[i].role == Admin && Admins(doc.users) == 1 then None
      else
        var owned := if role == Admin then [] else products;
        Some(doc.(users := doc.users[i := doc.users[i].(role := role, products := owned)]))
    case DeleteUser(name) =>
      var i := UserAt(doc.users, name);
      if i < 0 || (doc.users[i].role == Admin && Admins(doc.users) == 1) then None
      else Some(doc.(users := RemoveAt(doc.users, i)))
    case AddProduct(product) =>
      if ProductAt(doc.products, product.id) >= 0 then None else Some(doc.(products := doc.products + [product]))
    case AllocateReleaseCode(id, floor) =>
      var i := ProductAt(doc.products, id);
      if i < 0 || floor < 0 then None
      else
        var next := Max(doc.products[i].lastReleaseCode, floor) + 1;
        Some(doc.(products := doc.products[i := doc.products[i].(lastReleaseCode := next)]))
    case RemoveProduct(id) =>
      var i := ProductAt(doc.products, id);
      if i < 0 then None
      else Some(doc.(products := RemoveAt(doc.products, i), tokens := TokensWithout(doc.tokens, id)))
    case IssueToken(token) =>
      if ProductAt(doc.products, token.product) < 0 then None else Some(doc.(tokens := doc.tokens + [token]))
    case RotateToken(id, hash, at) =>
      var i := TokenAt(doc.tokens, id);
      if i < 0 || doc.tokens[i].Revoked() then None
      else Some(doc.(tokens := doc.tokens[i := doc.tokens[i].(hash := hash, rotatedAt := at)]))
    case RevokeToken(id, at) =>
      var i := TokenAt(doc.tokens, id);
      if i < 0 || doc.tokens[i].Revoked() then None
      else Some(doc.(tokens := doc.tokens[i := doc.tokens[i].(revokedAt := at)]))
  }

  function SessionsWithout(sessions: map<string, Session>, name: string): map<string, Session> {
    map key | key in sessions && sessions[key].username != name :: sessions[key]
  }

  /** A change under the lock: refused, or made and persisted, or rolled back.
      Deleting a user also drops the user's sessions. */
  function Committed(s: State, change: Change, persists: bool): State {
    var changed := Changed(s.doc, change);
    if changed.None? || !persists then s
    else
      State(changed.value, changed,
        if change.DeleteUser? then SessionsWithout(s.sessions, change.name) else s.sessions)
  }

  datatype Op =
    | Commit(change: Change, persists: bool)
    | NewSession(key: string, session: Session)
    | Resolve(key: string, now: int)
    | DropSession(key: string)
    | Restart

  /** The account a bearer stands for. */
  function Account(s: State, key: string, now: int): Option<User> {
    if key in s.sessions && now < s.sessions[key].expiresAt then
      var i := UserAt(s.doc.users, s.sessions[key].username);
      if i < 0 then None else Some(s.doc.users[i])
    else None
  }

  function Without<K, V>(m: map<K, V>, key: K): map<K, V> {
    map k | k in m && k != key :: m[k]
  }

  function Step(s: State, op: Op): State {
    match op
    case Commit(change, persists) => Committed(s, change, persists)
    case NewSession(key, session) => s.(sessions := s.sessions[key := session])
    case Resolve(key, now) => if Account(s, key, now).Some? then s else s.(sessions := Without(s.sessions, key))
    case DropSession(key) => s.(sessions := Without(s.sessions, key))
    case Restart => State(if s.disk.Some? then s.disk.value else EMPTY_DOCUMENT, s.disk, map[])
  }

  function Run(s: State, ops: seq<Op>): State
    decreases |ops|
  {
    if ops == [] then s else Run(Step(s, ops[0]), ops[1..])
  }

  // ---------------------------------------------------------------------
  // The store's invariant
  // ---------------------------------------------------------------------

  /** What the callers of the document guarantee about a change: checked names
      and identifiers, digests of the right length, a token id never seen. */
  ghost predicate Prepared(doc: Document, change: Change) {
    match change
    case CreateFirstUser(_, user) => UserOk(user) && user.role == Admin
    case AddUser(user) => UserOk(user)
    case SetPassword(_, passwordHash) => passwordHash != ""
    case SetUserProducts(_, products) => forall i | 0 <= i < |products| :: IsIdentifier(products[i])
    case SetRole(_, _, products) => forall i | 0 <= i < |products| :: IsIdentifier(products[i])
    case AddProduct(product) => ProductOk(product)
    case IssueToken(token) => TokenOk(token) && !token.Revoked() && TokenAt(doc.tokens, token.id) < 0
    case RotateToken(_, hash, _) => |hash| == DIGEST_LENGTH
    case RevokeToken(_, at) => at != ""
    case _ => true
  }

  /** Memory holds a valid document, and it is the one on disk; with nothing on
      disk yet, it is the empty one. */
  ghost predicate Valid(s: State) {
    Rules(s.doc) && s.doc == if s.disk.Some? then s.disk.value else EMPTY_DOCUMENT
  }

  lemma {:induction false} TokensWithoutKeepsOthers(tokens: seq<Token>, product: string, token: Token)
    ensures token in TokensWithout(tokens, product) <==> token in tokens && token.product != product
  {
    if tokens != [] {
      TokensWithoutKeepsOthers(tokens[..|tokens| - 1], product, token);
      assert tokens == tokens[..|tokens| - 1] + [tokens[|tokens| - 1]];
    }
  }

  ghost predicate DistinctIds(tokens: seq<Token>) {
    forall i, j | 0 <= i < j < |tokens| :: tokens[i].id != tokens[j].id
  }

  lemma {:induction false} TokensWithoutStaysDistinct(tokens: seq<Token>, product: string)
    requires DistinctIds(tokens)
    ensures DistinctIds(TokensWithout(tokens, product))
  {
    if tokens != [] {
      var init, last := tokens[..|tokens| - 1], tokens[|tokens| - 1];
      TokensWithoutStaysDistinct(init, product);
      var kept := TokensWithout(init, product);
      forall i | 0 <= i < |kept| ensures kept[i].id != last.id {
        TokensWithoutKeepsOthers(init, product, kept[i]);
        var j :| 0 <= j < |init| && init[j] == kept[i];
        assert tokens[j].id != tokens[|tokens| - 1].id;
      }
    }
  }

  lemma OthersStayRegistered(products: seq<Product>, i: nat, id: string)
    requires i < |products| && Registered(products, id) && products[i].id != id
    ensures Registered(RemoveAt(products, i), id)
  {
    var p :| 0 <= p < |products| && products[p].id == id;
    assert RemoveAt(products, i)[if p < i then p else p - 1] == products[p];
  }

  lemma RemovalKeepsProductsOk(products: seq<Product>, i: nat)
    requires ProductsOk(products) && i < |products|
    ensures ProductsOk(RemoveAt(products, i))
  {
    hide ProductOk;
  }

  lemma OthersTokensStayOk(tokens: seq<Token>, products: seq<Product>, i: nat)
    requires TokensOk(tokens, products) && i < |products|
    ensures TokensOk(TokensWithout(tokens, products[i].id), RemoveAt(products, i))
  {
    hide TokensWithout, Registered, RemoveAt, TokenOk;
    var kept := TokensWithout(tokens, products[i].id);
    TokensWithoutStaysDistinct(tokens, products[i].id);
    forall k | 0 <= k < |kept|
      ensures TokenOk(kept[k]) && Registered(RemoveAt(products, i), kept[k].product)
    {
      TokensWithoutKeepsOthers(tokens, products[i].id, kept[k]);
      var j :| 0 <= j < |tokens| && tokens[j] == kept[k];
      OthersStayRegistered(products, i, tokens[j].product);
    }
  }

  lemma RemoveProductKeepsRules(doc: Document, id: string)
    requires Rules(doc) && ProductAt(doc.products, id) >= 0
    ensures Rules(Changed(doc, RemoveProduct(id)).value)
  {
    hide ProductsOk, TokensOk, UsersOk, TokensWithout, RemoveAt;
    var i := ProductAt(doc.products, id);
    RemovalKeepsProductsOk(doc.products, i);
    OthersTokensStayOk(doc.tokens, doc.products, i);
  }

  lemma UpdateKeepsUsersOk(users: seq<User>, i: nat, user: User)
    requires UsersOk(users) && i < |users| && UserOk(user) && user.username == users[i].username
    ensures UsersOk(users[i := user])
  {
    hide UserOk;
  }

  lemma AppendKeepsUsersOk(users: seq<User>, user: User)
    requires UsersOk(users) && UserOk(user) && UserAt(users, user.username) < 0
    ensures UsersOk(users + [user])
  {
    hide UserOk, UserAt;
  }

  lemma RemovalKeepsUsersOk(users: seq<User>, i: nat)
    requires UsersOk(users) && i < |users|
    ensures UsersOk(RemoveAt(users, i))
  {
    hide UserOk;
  }

  lemma NoUsersAreOk()
    ensures UsersOk([])
  {}

  lemma UserChangeKeepsRules(doc: Document, change: Change)
    requires Rules(doc) && Prepared(doc, change) && Changed(doc, change).Some?
    requires change.CreateFirstUser? || change.AddUser? || change.SetPassword? || change.SetUserProducts? ||
             change.SetRole? || change.DeleteUser?
    ensures Rules(Changed(doc, change).value)
  {
    hide UserAt, ProductAt, TokenAt, Admins, TokensWithout, RemoveAt, UsersOk, ProductsOk, TokensOk, IsIdentifier,
      IsUsername;
    var users := doc.users;
    match change
    case CreateFirstUser(_, user) =>
      NoUsersAreOk();
      assert [] + [user] == [user];
      AppendKeepsUsersOk([], user);
    case AddUser(user) => AppendKeepsUsersOk(users, user);
    case SetPassword(name, hash) =>
      var i := UserAt(users, name);
      UserIsOk(users, i);
      UpdateKeepsUsersOk(users, i, users[i].(passwordHash := hash));
    case SetUserProducts(name, products) =>
      var i := UserAt(users, name);
      UserIsOk(users, i);
      UpdateKeepsUsersOk(users, i, users[i].(products := products));
    case SetRole(name, role, products) =>
      var i := UserAt(users, name);
      UserIsOk(users, i);
      UpdateKeepsUsersOk(users, i, users[i].(role := role, products := if role == Admin then [] else products));
    case DeleteUser(name) => RemovalKeepsUsersOk(users, UserAt(users, name));
  }

  lemma UserIsOk(users: seq<User>, i: nat)
    requires UsersOk(users) && i < |users|
    ensures UserOk(users[i])
  {}

  lemma ProductChangeKeepsRules(doc: Document, change: Change)
    requires Rules(doc) && Prepared(doc, change) && Changed(doc, change).Some?
    requires change.AddProduct? || change.AllocateReleaseCode?
    ensures Rules(Changed(doc, change).value)
  {
    hide UserAt, TokenAt, Admins, TokensWithout, UsersOk;
    var after := Changed(doc, change).value;
    assert ProductsOk(after.products);
    forall id | Registered(doc.products, id)
      ensures Registered(after.products, id)
    {
      var i :| 0 <= i < |doc.products| && doc.products[i].id == id;
      assert after.products[i].id == id;
    }
  }

  lemma UpdateKeepsTokensOk(tokens: seq<Token>, products: seq<Product>, i: nat, token: Token)
    requires TokensOk(tokens, products) && i < |tokens| && TokenOk(token)
    requires token.id == tokens[i].id && token.product == tokens[i].product
    ensures TokensOk(tokens[i := token], products)
  {
    hide Registered;
  }

  lemma TokenIsOk(tokens: seq<Token>, products: seq<Product>, i: nat)
    requires TokensOk(tokens, products) && i < |tokens|
    ensures TokenOk(tokens[i])
  {}

  lemma AppendKeepsTokensOk(tokens: seq<Token>, products: seq<Product>, token: Token)
    requires TokensOk(tokens, products) && TokenOk(token) && TokenAt(tokens, token.id) < 0
    requires ProductAt(products, token.product) >= 0
    ensures TokensOk(tokens + [token], products)
  {
    hide TokenAt, ProductAt;
    assert products[ProductAt(products, token.product)].id == token.product;
  }

  lemma OtherChangeKeepsRules(doc: Document, change: Change)
    requires Rules(doc) && Prepared(doc, change) && Changed(doc, change).Some?
    requires change.IssueToken? || change.RotateToken? || change.RevokeToken? || change.MintBootstrap? ||
             change.ResetBootstrap?
    ensures Rules(Changed(doc, change).value)
  {
    hide UserAt, ProductAt, TokenAt, Admins, TokensWithout, UsersOk, ProductsOk, TokensOk;
    match change
    case IssueToken(token) => AppendKeepsTokensOk(doc.tokens, doc.products, token);
    case RotateToken(id, hash, at) =>
      var i := TokenAt(doc.tokens, id);
      TokenIsOk(doc.tokens, doc.products, i);
      UpdateKeepsTokensOk(doc.tokens, doc.products, i, doc.tokens[i].(hash := hash, rotatedAt := at));
    case RevokeToken(id, at) =>
      var i := TokenAt(doc.tokens, id);
      TokenIsOk(doc.tokens, doc.products, i);
      UpdateKeepsTokensOk(doc.tokens, doc.products, i, doc.tokens[i].(revokedAt := at));
    case _ =>
  }

  lemma ChangeKeepsRules(doc: Document, change: Change)
    requires Rules(doc) && Prepared(doc, change) && Changed(doc, change).Some?
    ensures Rules(Changed(doc, change).value)
  {
    if change.RemoveProduct? {
      RemoveProductKeepsRules(doc, change.id);
    } else if change.CreateFirstUser? || change.AddUser? || change.SetPassword? || change.SetUserProducts? ||
              change.SetRole? || change.DeleteUser? {
      UserChangeKeepsRules(doc, change);
    } else if change.AddProduct? || change.AllocateReleaseCode? {
      ProductChangeKeepsRules(doc, change);
    } else {
      OtherChangeKeepsRules(doc, change);
    }
  }

  /** Each step is prepared in the state it is taken from. */
  ghost predicate PreparedRun(s: State, ops: seq<Op>)
    decreases |ops|
  {
    ops == [] ||
    ((ops[0].Commit? ==> Prepared(s.doc, ops[0].change)) && PreparedRun(Step(s, ops[0]), ops[1..]))
  }

  lemma StepKeepsValid(s: State, op: Op)
    requires Valid(s) && (op.Commit? ==> Prepared(s.doc, op.change))
    ensures Valid(Step(s, op))
  {
    if op.Commit? && op.persists && Changed(s.doc, op.change).Some? {
      ChangeKeepsRules(s.doc, op.change);
    }
  }

  /** In every reachable state the document obeys its rules and memory equals
      disk, whatever persists failed and however often the server restarted. */
  lemma {:induction false} RunKeepsValid(s: State, ops: seq<Op>)
    requires Valid(s) && PreparedRun(s, ops)
    ensures Valid(Run(s, ops))
    decreases |ops|
  {
    if ops != [] {
      StepKeepsValid(s, ops[0]);
      RunKeepsValid(Step(s, ops[0]), ops[1..]);
    }
  }

  // ---------------------------------------------------------------------
  // Somebody can always manage users
  // ---------------------------------------------------------------------

  function AdminCount(user: User): nat {
    if user.role == Admin then 1 else 0
  }

  lemma {:induction false} AdminsAfterUpdate(users: seq<User>, i: nat, user: User)
    requires i < |users|
    ensures Admins(users[i := user]) + AdminCount(users[i]) == Admins(users) + AdminCount(user)
  {
    var last := |users| - 1;
    var updated := users[i := user];
    if i < last {
      assert updated[..last] == users[..last][i := user];
      AdminsAfterUpdate(users[..last], i, user);
    } else {
      assert updated[..last] == users[..last];
    }
  }

  lemma {:induction false} AdminsAfterRemoval(users: seq<User>, i: nat)
    requires i < |users|
    ensures Admins(RemoveAt(users, i)) + AdminCount(users[i]) == Admins(users)
  {
    var last := |users| - 1;
    var removed := RemoveAt(users, i);
    if i < last {
      assert removed[..last - 1] == RemoveAt(users[..last], i);
      assert removed[last - 1] == users[last];
      AdminsAfterRemoval(users[..last], i);
    } else {
      assert removed == users[..last];
    }
  }

  lemma AdminsAfterAppend(users: seq<User>, user: User)
    ensures Admins(users + [user]) == Admins(users) + AdminCount(user)
  {
    assert (users + [user])[..|users|] == users;
  }

  lemma AdminSurvivesChange(doc: Document, change: Change)
    requires Admins(doc.users) > 0 && Changed(doc, change).Some?
    ensures Admins(Changed(doc, change).value.users) > 0
  {
    hide UserAt, ProductAt, TokenAt, TokensWithout, Admins, RemoveAt;
    match change
    case AddUser(user) => AdminsAfterAppend(doc.users, user);
    case SetPassword(name, hash) =>
      var i := UserAt(doc.users, name);
      AdminsAfterUpdate(doc.users, i, doc.users[i].(passwordHash := hash));
    case SetUserProducts(name, products) =>
      var i := UserAt(doc.users, name);
      AdminsAfterUpdate(doc.users, i, doc.users[i].(products := products));
    case SetRole(name, role, products) =>
      var i := UserAt(doc.users, name);
      AdminsAfterUpdate(doc.users, i, Changed(doc, change).value.users[i]);
    case DeleteUser(name) =>
      AdminsAfterRemoval(doc.users, UserAt(doc.users, name));
    case CreateFirstUser(_, _) => NobodyManages();
    case _ =>
  }

  lemma NobodyManages()
    ensures Admins([]) == 0
  {}

  /** Once there is an admin there is always one. */
  lemma {:induction false} AdminsNeverVanish(s: State, ops: seq<Op>)
    requires Valid(s) && PreparedRun(s, ops) && Admins(s.doc.users) > 0
    ensures Admins(Run(s, ops).doc.users) > 0
    decreases |ops|
  {
    if ops != [] {
      var op := ops[0];
      if op.Commit? && op.persists && Changed(s.doc, op.change).Some? {
        AdminSurvivesChange(s.doc, op.change);
      }
      StepKeepsValid(s, op);
      AdminsNeverVanish(Step(s, op), ops[1..]);
    }
  }

  // ---------------------------------------------------------------------
  // Revocation is permanent
  // ---------------------------------------------------------------------

  /** The token exists and has not been revoked. */
  ghost predicate Alive(doc: Document, id: string) {
    exists i :: 0 <= i < |doc.tokens| && doc.tokens[i].id == id && !doc.tokens[i].Revoked()
  }

  ghost predicate Issues(op: Op, id: string) {
    op.Commit? && op.change.IssueToken? && op.change.token.id == id
  }

  predicate ChangesTokens(change: Change) {
    change.RemoveProduct? || change.IssueToken? || change.RotateToken? || change.RevokeToken?
  }

  predicate ChangesProducts(change: Change) {
    change.AddProduct? || change.AllocateReleaseCode? || change.RemoveProduct?
  }

  /** A change leaves alone what it is not about. */
  lemma OtherPartsStay(doc: Document, change: Change)
    requires Changed(doc, change).Some?
    ensures !ChangesTokens(change) ==> Changed(doc, change).value.tokens == doc.tokens
    ensures !ChangesProducts(change) ==> Changed(doc, change).value.products == doc.products
  {
    hide UserAt, ProductAt, TokenAt, Admins, TokensWithout, RemoveAt;
  }

  lemma DeadAmongFewer(tokens: seq<Token>, product: string, id: string)
    requires forall i | 0 <= i < |tokens| && tokens[i].id == id :: tokens[i].Revoked()
    ensures forall i | 0 <= i < |TokensWithout(tokens, product)| && TokensWithout(tokens, product)[i].id == id ::
      TokensWithout(tokens, product)[i].Revoked()
  {
    hide TokensWithout;
    var kept := TokensWithout(tokens, product);
    forall i | 0 <= i < |kept| && kept[i].id == id
      ensures kept[i].Revoked()
    {
      TokensWithoutKeepsOthers(tokens, product, kept[i]);
      var j :| 0 <= j < |tokens| && tokens[j] == kept[i];
    }
  }

  lemma DeadStaysDead(doc: Document, change: Change, id: string)
    requires Rules(doc) && Prepared(doc, change) && Changed(doc, change).Some?
    requires !Alive(doc, id) && !(change.IssueToken? && change.token.id == id)
    ensures !Alive(Changed(doc, change).value, id)
  {
    hide UserAt, ProductAt, TokenAt, Admins, TokensWithout, RemoveAt, Rules, TokenOk;
    OtherPartsStay(doc, change);
    if ChangesTokens(change) {
      TokensStayDead(doc, change, id);
    }
  }

  lemma TokensStayDead(doc: Document, change: Change, id: string)
    requires ChangesTokens(change) && Prepared(doc, change) && Changed(doc, change).Some?
    requires !Alive(doc, id) && !(change.IssueToken? && change.token.id == id)
    ensures !Alive(Changed(doc, change).value, id)
  {
    hide UserAt, ProductAt, TokenAt, Admins, TokensWithout, RemoveAt, TokenOk;
    match change
    case RemoveProduct(product) => DeadAmongFewer(doc.tokens, product, id);
    case IssueToken(_) =>
    case RotateToken(token, _, _) =>
      var i := TokenAt(doc.tokens, token);
      assert doc.tokens[i].id != id;
    case RevokeToken(token, _) =>
      var i := TokenAt(doc.tokens, token);
      assert doc.tokens[i].id != id;
  }

  lemma RevokingKills(doc: Document, id: string, at: string)
    requires Rules(doc) && at != "" && Changed(doc, RevokeToken(id, at)).Some?
    ensures !Alive(Changed(doc, RevokeToken(id, at)).value, id)
  {}

  /** A token that is revoked, or gone, never works again, across any later
      changes, failures and restarts; ids are not issued twice. */
  lemma {:induction false} RevocationIsPermanent(s: State, ops: seq<Op>, id: string)
    requires Valid(s) && PreparedRun(s, ops) && !Alive(s.doc, id)
    requires forall k | 0 <= k < |ops| :: !Issues(ops[k], id)
    ensures !Alive(Run(s, ops).doc, id)
    decreases |ops|
  {
    if ops != [] {
      var op := ops[0];
      assert !Issues(op, id);
      if op.Commit? && op.persists && Changed(s.doc, op.change).Some? {
        DeadStaysDead(s.doc, op.change, id);
      }
      StepKeepsValid(s, op);
      RevocationIsPermanent(Step(s, op), ops[1..], id);
    }
  }

  // ---------------------------------------------------------------------
  // Sessions die with their user
  // ---------------------------------------------------------------------

  lemma {:induction false} DroppedKeyStaysOut(s: State, ops: seq<Op>, key: string)
    requires key !in s.sessions
    requires forall k | 0 <= k < |ops| :: !(ops[k].NewSession? && ops[k].key == key)
    ensures key !in Run(s, ops).sessions
    decreases |ops|
  {
    if ops != [] {
      assert !(ops[0].NewSession? && ops[0].key == key);
      DroppedKeyStaysOut(Step(s, ops[0]), ops[1..], key);
    }
  }

  /** A session of a deleted user resolves to nobody ever after, even if the name
      is added again; bearers are not minted twice. */
  lemma DeletedUsersSessionsNeverResolve(s: State, name: string, key: string, ops: seq<Op>, now: int)
    requires key in s.sessions && s.sessions[key].username == name
    requires Changed(s.doc, DeleteUser(name)).Some?
    requires forall k | 0 <= k < |ops| :: !(ops[k].NewSession? && ops[k].key == key)
    ensures Account(Run(Step(s, Commit(DeleteUser(name), true)), ops), key, now).None?
  {
    DroppedKeyStaysOut(Step(s, Commit(DeleteUser(name), true)), ops, key);
  }

  // ---------------------------------------------------------------------
  // Release codes are never reissued
  // ---------------------------------------------------------------------

  lemma ProductFoundAt(products: seq<Product>, i: nat)
    requires ProductsOk(products) && i < |products|
    ensures ProductAt(products, products[i].id) == i
  {}

  /** The last code handed out for a registered product. */
  function LastCode(doc: Document, id: string): int {
    var i := ProductAt(doc.products, id);
    if i < 0 then -1 else doc.products[i].lastReleaseCode
  }

  lemma LastCodeAt(doc: Document, i: nat)
    requires Rules(doc) && i < |doc.products|
    ensures LastCode(doc, doc.products[i].id) == doc.products[i].lastReleaseCode
  {
    ProductFoundAt(doc.products, i);
  }

  ghost predicate KeepsProduct(op: Op, id: string) {
    !(op.Commit? && op.change == RemoveProduct(id))
  }

  /** The code a step hands out for the product, if it does. */
  function Claimed(s: State, op: Op, id: string): Option<int> {
    if op.Commit? && op.persists && op.change.AllocateReleaseCode? && op.change.id == id &&
       Changed(s.doc, op.change).Some?
    then Some(LastCode(Step(s, op).doc, id)) else None
  }

  function Claims(s: State, ops: seq<Op>, id: string): seq<int>
    decreases |ops|
  {
    if ops == [] then []
    else
      var claimed := Claimed(s, ops[0], id);
      (if claimed.Some? then [claimed.value] else []) + Claims(Step(s, ops[0]), ops[1..], id)
  }

  lemma RemovalKeepsOtherProduct(products: seq<Product>, r: nat, id: string)
    requires ProductsOk(products) && r < |products| && products[r].id != id
    requires ProductAt(products, id) >= 0
    ensures ProductAt(RemoveAt(products, r), id) >= 0
    ensures RemoveAt(products, r)[ProductAt(RemoveAt(products, r), id)] == products[ProductAt(products, id)]
  {
    var i := ProductAt(products, id);
    var after := RemoveAt(products, r);
    assert ProductsOk(after);
    assert after[if i < r then i else i - 1] == products[i];
    ProductFoundAt(after, if i < r then i else i - 1);
  }

  lemma AddedProductKeepsOthers(products: seq<Product>, product: Product, id: string)
    requires ProductsOk(products) && ProductOk(product) && ProductAt(products, product.id) < 0
    requires ProductAt(products, id) >= 0
    ensures ProductAt(products + [product], id) == ProductAt(products, id)
  {
    hide ProductAt, ProductOk;
    assert ProductsOk(products + [product]);
    ProductFoundAt(products + [product], ProductAt(products, id));
  }

  lemma UpdatedProductIsFound(products: seq<Product>, i: nat, product: Product, id: string)
    requires ProductsOk(products) && i < |products| && product.id == products[i].id && ProductOk(product)
    requires ProductAt(products, id) >= 0
    ensures ProductAt(products[i := product], id) == ProductAt(products, id)
  {
    hide ProductAt, ProductOk;
    assert ProductsOk(products[i := product]);
    ProductFoundAt(products[i := product], ProductAt(products, id));
  }

  /** Only a claim for the product changes its last code, and no change but its
      removal takes it off the list. */
  lemma ProductStays(doc: Document, change: Change, id: string)
    requires ProductsOk(doc.products) && Changed(doc, change).Some?
    requires change.AddProduct? ==> ProductOk(change.product)
    requires ProductAt(doc.products, id) >= 0 && change != RemoveProduct(id)
    ensures var after := Changed(doc, change).value;
      && ProductAt(after.products, id) >= 0
      && if change.AllocateReleaseCode? && change.id == id
         then LastCode(after, id) == Max(LastCode(doc, id), change.floor) + 1
         else LastCode(after, id) == LastCode(doc, id)
  {
    hide UserAt, ProductAt, TokenAt, Admins, TokensWithout, RemoveAt, ProductsOk, ProductOk;
    OtherPartsStay(doc, change);
    if ChangesProducts(change) {
      match change
      case RemoveProduct(other) => RemovalKeepsOtherProduct(doc.products, ProductAt(doc.products, other), id);
      case AllocateReleaseCode(other, floor) =>
        var i := ProductAt(doc.products, other);
        ProductIsOk(doc.products, i);
        var next := Max(doc.products[i].lastReleaseCode, floor) + 1;
        HigherCodeIsOk(doc.products[i], next);
        UpdatedProductIsFound(doc.products, i, doc.products[i].(lastReleaseCode := next), id);
      case AddProduct(product) => AddedProductKeepsOthers(doc.products, product, id);
    }
  }

  lemma ProductIsOk(products: seq<Product>, i: nat)
    requires ProductsOk(products) && i < |products|
    ensures ProductOk(products[i])
  {}

  lemma HigherCodeIsOk(product: Product, code: int)
    requires ProductOk(product) && code >= product.lastReleaseCode
    ensures ProductOk(product.(lastReleaseCode := code))
  {
    hide IsIdentifier, TrimLeft;
  }

  lemma ClaimRaises(s: State, op: Op, id: string)
    requires Valid(s) && (op.Commit? ==> Prepared(s.doc, op.change)) && KeepsProduct(op, id)
    requires ProductAt(s.doc.products, id) >= 0
    ensures ProductAt(Step(s, op).doc.products, id) >= 0
    ensures LastCode(s.doc, id) <= LastCode(Step(s, op).doc, id)
    ensures Claimed(s, op, id).Some? ==>
      && Claimed(s, op, id) == Some(LastCode(Step(s, op).doc, id))
      && LastCode(s.doc, id) < LastCode(Step(s, op).doc, id)
      && op.change.floor < LastCode(Step(s, op).doc, id)
  {
    if op.Commit? && op.persists && Changed(s.doc, op.change).Some? {
      ProductStays(s.doc, op.change, id);
    }
  }

  /** Across claims, failed persists and restarts of one registration the codes
      handed out strictly increase, from above the last one before. */
  lemma {:induction false} CodesAreNeverReissued(s: State, ops: seq<Op>, id: string)
    requires Valid(s) && PreparedRun(s, ops) && ProductAt(s.doc.products, id) >= 0
    requires forall k | 0 <= k < |ops| :: KeepsProduct(ops[k], id)
    ensures forall i | 0 <= i < |Claims(s, ops, id)| :: LastCode(s.doc, id) < Claims(s, ops, id)[i]
    ensures forall i, j | 0 <= i < j < |Claims(s, ops, id)| :: Claims(s, ops, id)[i] < Claims(s, ops, id)[j]
    decreases |ops|
  {
    hide ProductAt, Step, Claimed, Prepared, LastCode, Valid;
    if ops != [] {
      assert KeepsProduct(ops[0], id);
      ClaimRaises(s, ops[0], id);
      StepKeepsValid(s, ops[0]);
      CodesAreNeverReissued(Step(s, ops[0]), ops[1..], id);
      var claims, rest := Claims(s, ops, id), Claims(Step(s, ops[0]), ops[1..], id);
      var claimed := Claimed(s, ops[0], id);
      assert claims == (if claimed.Some? then [claimed.value] else []) + rest;
      forall i | 0 <= i < |claims| ensures LastCode(s.doc, id) < claims[i] {}
      forall i, j | 0 <= i < j < |claims| ensures claims[i] < claims[j] {}
    }
  }

  /** A claim is above the floor it was made with. */
  lemma ClaimsExceedTheirFloor(s: State, op: Op, id: string)
    requires Valid(s) && (op.Commit? ==> Prepared(s.doc, op.change))
    requires Claimed(s, op, id).Some?
    ensures op.change.floor < Claimed(s, op, id).value
  {
    assert op.change == AllocateReleaseCode(id, op.change.floor);
    assert ProductAt(s.doc.products, id) >= 0;
    ClaimRaises(s, op, id);
  }
}
