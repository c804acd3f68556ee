/** What each change of the admin document, and each step of the store, does, in
    terms of the accounts, products, tokens and sessions that are there before
    and after (internal/agentadmin/admin.go). */
module AdminEffects {
  import opened Wrappers
  import opened AdminDocument
  import opened AdminState

  // ---------------------------------------------------------------------
  // Looking things up
  // ---------------------------------------------------------------------

  lemma UserFound(users: seq<User>, name: string)
    requires UsersOk(users)
    ensures UserAt(users, name) >= 0 <==> exists u :: u in users && u.username == name
    ensures forall i | 0 <= i < |users| :: users[i].username == name <==> i == UserAt(users, name)
  {
    hide UserOk;
    var at := UserAt(users, name);
    if at >= 0 {
      assert users[at] in users;
    }
  }

  lemma ProductFound(products: seq<Product>, id: string)
    requires ProductsOk(products)
    ensures ProductAt(products, id) >= 0 <==> exists p :: p in products && p.id == id
    ensures forall i | 0 <= i < |products| :: products[i].id == id <==> i == ProductAt(products, id)
  {
    hide ProductOk;
    var at := ProductAt(products, id);
    if at >= 0 {
      assert products[at] in products;
    }
  }

  lemma TokenFound(tokens: seq<Token>, products: seq<Product>, id: string)
    requires TokensOk(tokens, products)
    ensures TokenAt(tokens, id) >= 0 <==> exists t :: t in tokens && t.id == id
    ensures forall i | 0 <= i < |tokens| :: tokens[i].id == id <==> i == TokenAt(tokens, id)
  {
    hide TokenOk, Registered;
    var at := TokenAt(tokens, id);
    if at >= 0 {
      assert tokens[at] in tokens;
    }
  }

  lemma {:induction false} NoAdmins(users: seq<User>)
    ensures Admins(users) == 0 <==> forall u | u in users :: u.role != Admin
  {
    if users != [] {
      var last := |users| - 1;
      NoAdmins(users[..last]);
      assert users == users[..last] + [users[last]];
    }
  }

  /** The account is an admin, and no other is. */
  ghost predicate IsSoleAdmin(users: seq<User>, name: string) {
    && (exists u :: u in users && u.username == name && u.role == Admin)
    && (forall u | u in users && u.username != name :: u.role != Admin)
  }

  lemma SoleAdminIff(users: seq<User>, name: string)
    requires UsersOk(users) && UserAt(users, name) >= 0
    ensures IsSoleAdmin(users, name) <==> users[UserAt(users, name)].role == Admin && Admins(users) == 1
  {
    hide UserOk;
    UserFound(users, name);
    var i := UserAt(users, name);
    assert users[i] in users;
    AdminsAfterRemoval(users, i);
    NoAdmins(RemoveAt(users, i));
    forall u
      ensures u in RemoveAt(users, i) <==> u in users && u.username != name
    {
      WithoutOne(users, i, u);
    }
  }

  lemma WithoutOne(users: seq<User>, i: nat, u: User)
    requires i < |users| && forall j | 0 <= j < |users| :: users[j].username == users[i].username <==> j == i
    ensures u in RemoveAt(users, i) <==> u in users && u.username != users[i].username
  {
    var kept := RemoveAt(users, i);
    if u in users && u.username != users[i].username {
      var j :| 0 <= j < |users| && users[j] == u;
      assert kept[if j < i then j else j - 1] == u;
    }
    if u in kept {
      var j :| 0 <= j < |kept| && kept[j] == u;
      assert users[if j < i then j else j + 1] == u;
    }
  }

  // ---------------------------------------------------------------------
  // The bootstrap credential
  // ---------------------------------------------------------------------

  /** A credential can be minted while there is no user and none is live, and
      replaced while there is no user. */
  lemma BootstrapMeans(doc: Document, hash: string)
    ensures Changed(doc, MintBootstrap(hash)).Some? <==> |doc.users| == 0 && |doc.bootstrapHash| != 64
    ensures Changed(doc, ResetBootstrap(hash)).Some? <==> |doc.users| == 0
    ensures forall change | change in {MintBootstrap(hash), ResetBootstrap(hash)} && Changed(doc, change).Some? ::
      var after := Changed(doc, change).value;
      after.bootstrapHash == hash && after.users == [] && after.products == doc.products && after.tokens == doc.tokens
  {}

  /** It admits one user, once. */
  lemma FirstUserMeans(doc: Document, presented: string, user: User)
    ensures Changed(doc, CreateFirstUser(presented, user)).Some? <==>
      |doc.users| == 0 && |doc.bootstrapHash| == 64 && presented == doc.bootstrapHash
    ensures Changed(doc, CreateFirstUser(presented, user)).Some? ==>
      var after := Changed(doc, CreateFirstUser(presented, user)).value;
      && after.users == [user] && after.products == doc.products && after.tokens == doc.tokens
      && (forall again, other :: Changed(after, CreateFirstUser(again, other)).None?)
      && (forall hash :: Changed(after, MintBootstrap(hash)).None? && Changed(after, ResetBootstrap(hash)).None?)
  {
    var changed := Changed(doc, CreateFirstUser(presented, user));
    if changed.Some? {
      assert |changed.value.users| == 1;
    }
  }

  // ---------------------------------------------------------------------
  // Users
  // ---------------------------------------------------------------------

  /** Nothing but the users changed. */
  ghost predicate OnlyUsers(before: Document, after: Document) {
    after == before.(users := after.users)
  }

  /** A user joins, at the end, unless the name is taken. */
  lemma AddUserMeans(doc: Document, user: User)
    requires Rules(doc)
    ensures Changed(doc, AddUser(user)).Some? <==> forall u | u in doc.users :: u.username != user.username
    ensures Changed(doc, AddUser(user)).Some? ==>
      var after := Changed(doc, AddUser(user)).value;
      OnlyUsers(doc, after) && after.users == doc.users + [user]
  {
    UserFound(doc.users, user.username);
  }

  /** A password changes for the account of the name alone, if there is one. */
  lemma SetPasswordMeans(doc: Document, name: string, hash: string)
    requires Rules(doc)
    ensures Changed(doc, SetPassword(name, hash)).Some? <==> exists u :: u in doc.users && u.username == name
    ensures Changed(doc, SetPassword(name, hash)).Some? ==>
      var after := Changed(doc, SetPassword(name, hash)).value;
      && OnlyUsers(doc, after) && |after.users| == |doc.users|
      && forall i | 0 <= i < |doc.users| ::
           after.users[i] ==
             if doc.users[i].username == name then doc.users[i].(passwordHash := hash) else doc.users[i]
  {
    hide UserAt;
    UserFound(doc.users, name);
  }

  /** An owner gets other products, and never none; an admin has none to change. */
  lemma SetUserProductsMeans(doc: Document, name: string, products: seq<string>)
    requires Rules(doc)
    ensures Changed(doc, SetUserProducts(name, products)).Some? <==>
      |products| > 0 && exists u :: u in doc.users && u.username == name && u.role == Owner
    ensures Changed(doc, SetUserProducts(name, products)).Some? ==>
      var after := Changed(doc, SetUserProducts(name, products)).value;
      && OnlyUsers(doc, after) && |after.users| == |doc.users|
      && forall i | 0 <= i < |doc.users| ::
           after.users[i] ==
             if doc.users[i].username == name then doc.users[i].(products := products) else doc.users[i]
  {
    hide UserAt;
    UserFound(doc.users, name);
    var at := UserAt(doc.users, name);
    if at >= 0 {
      assert doc.users[at] in doc.users;
    }
  }

  /** A role changes with its products, none for an admin, unless that would take
      the role from the only admin. */
  lemma SetRoleMeans(doc: Document, name: string, role: Role, products: seq<string>)
    requires Rules(doc)
    ensures Changed(doc, SetRole(name, role, products)).Some? <==>
      && (exists u :: u in doc.users && u.username == name)
      && (role == Owner ==> |products| > 0 && !IsSoleAdmin(doc.users, name))
    ensures Changed(doc, SetRole(name, role, products)).Some? ==>
      var after := Changed(doc, SetRole(name, role, products)).value;
      && OnlyUsers(doc, after) && |after.users| == |doc.users|
      && forall i | 0 <= i < |doc.users| ::
           after.users[i] ==
             if doc.users[i].username != name then doc.users[i]
             else doc.users[i].(role := role, products := if role == Admin then [] else products)
  {
    hide UserAt, Admins, IsSoleAdmin;
    UserFound(doc.users, name);
    if UserAt(doc.users, name) >= 0 {
      SoleAdminIff(doc.users, name);
    }
  }

  /** A user goes, and the others stay in order, unless it is the only admin. */
  lemma DeleteUserMeans(doc: Document, name: string) returns (i: nat)
    requires Rules(doc)
    ensures Changed(doc, DeleteUser(name)).Some? <==>
      (exists u :: u in doc.users && u.username == name) && !IsSoleAdmin(doc.users, name)
    ensures Changed(doc, DeleteUser(name)).Some? ==>
      var after := Changed(doc, DeleteUser(name)).value;
      && OnlyUsers(doc, after) && i < |doc.users| && doc.users[i].username == name
      && after.users == doc.users[..i] + doc.users[i + 1..]
      && forall u | u in after.users :: u.username != name
  {
    hide UserAt, Admins, IsSoleAdmin;
    UserFound(doc.users, name);
    i := 0;
    if UserAt(doc.users, name) >= 0 {
      i := UserAt(doc.users, name);
      SoleAdminIff(doc.users, name);
    }
  }

  /** Once somebody is an admin somebody always is. */
  lemma SomebodyAlwaysManages(s: State, ops: seq<Op>)
    requires Valid(s) && PreparedRun(s, ops) && exists u :: u in s.doc.users && u.role == Admin
    ensures exists u :: u in Run(s, ops).doc.users && u.role == Admin
  {
    hide Run, Valid, PreparedRun, Admins;
    NoAdmins(s.doc.users);
    AdminsNeverVanish(s, ops);
    NoAdmins(Run(s, ops).doc.users);
  }

  // ---------------------------------------------------------------------
  // Products and their release codes
  // ---------------------------------------------------------------------

  /** A product joins, at the end, unless its id is taken. */
  lemma AddProductMeans(doc: Document, product: Product)
    requires Rules(doc)
    ensures Changed(doc, AddProduct(product)).Some? <==> forall p | p in doc.products :: p.id != product.id
    ensures Changed(doc, AddProduct(product)).Some? ==>
      var after := Changed(doc, AddProduct(product)).value;
      after == doc.(products := after.products) && after.products == doc.products + [product]
  {
    ProductFound(doc.products, product.id);
  }

  /** A claim gives the product, and it alone, the code one above the larger of
      its last one and the floor. */
  lemma AllocateMeans(doc: Document, id: string, floor: int)
    requires Rules(doc)
    ensures Changed(doc, AllocateReleaseCode(id, floor)).Some? <==>
      floor >= 0 && exists p :: p in doc.products && p.id == id
    ensures Changed(doc, AllocateReleaseCode(id, floor)).Some? ==>
      var after := Changed(doc, AllocateReleaseCode(id, floor)).value;
      && after == doc.(products := after.products) && |after.products| == |doc.products|
      && forall i | 0 <= i < |doc.products| ::
           if doc.products[i].id != id then after.products[i] == doc.products[i]
           else
             var last, code := doc.products[i].lastReleaseCode, after.products[i].lastReleaseCode;
             && after.products[i] == doc.products[i].(lastReleaseCode := code)
             && last < code && floor < code && (code == last + 1 || code == floor + 1)
  {
    hide ProductAt;
    ProductFound(doc.products, id);
  }

  /** A product goes with its tokens; the other products and tokens stay. */
  lemma RemoveProductMeans(doc: Document, id: string) returns (i: nat)
    requires Rules(doc)
    ensures Changed(doc, RemoveProduct(id)).Some? <==> exists p :: p in doc.products && p.id == id
    ensures Changed(doc, RemoveProduct(id)).Some? ==>
      var after := Changed(doc, RemoveProduct(id)).value;
      && after == doc.(products := after.products, tokens := after.tokens)
      && i < |doc.products| && doc.products[i].id == id
      && after.products == doc.products[..i] + doc.products[i + 1..]
      && (forall t :: t in after.tokens <==> t in doc.tokens && t.product != id)
  {
    hide ProductAt, TokensWithout;
    ProductFound(doc.products, id);
    i := 0;
    if ProductAt(doc.products, id) >= 0 {
      i := ProductAt(doc.products, id);
      forall t
        ensures t in TokensWithout(doc.tokens, id) <==> t in doc.tokens && t.product != id
      {
        TokensWithoutKeepsOthers(doc.tokens, id, t);
      }
    }
  }

  // ---------------------------------------------------------------------
  // Tokens
  // ---------------------------------------------------------------------

  /** A token joins, at the end, if its product is registered. */
  lemma IssueMeans(doc: Document, token: Token)
    requires Rules(doc)
    ensures Changed(doc, IssueToken(token)).Some? <==> exists p :: p in doc.products && p.id == token.product
    ensures Changed(doc, IssueToken(token)).Some? ==>
      var after := Changed(doc, IssueToken(token)).value;
      after == doc.(tokens := after.tokens) && after.tokens == doc.tokens + [token]
  {
    ProductFound(doc.products, token.product);
  }

  /** The token of the id, and it alone, gets a new secret, or is revoked; both
      only while it is not revoked. */
  lemma RotateAndRevokeMean(doc: Document, id: string, hash: string, at: string)
    requires Rules(doc)
    ensures forall change | change in {RotateToken(id, hash, at), RevokeToken(id, at)} ::
      && (Changed(doc, change).Some? <==> exists t :: t in doc.tokens && t.id == id && t.revokedAt == "")
      && (Changed(doc, change).Some? ==>
            var after := Changed(doc, change).value;
            && after == doc.(tokens := after.tokens) && |after.tokens| == |doc.tokens|
            && forall i | 0 <= i < |doc.tokens| ::
                 after.tokens[i] ==
                   if doc.tokens[i].id != id then doc.tokens[i]
                   else if change.RotateToken? then doc.tokens[i].(hash := hash, rotatedAt := at)
                   else doc.tokens[i].(revokedAt := at))
  {
    hide TokenAt;
    TokenFound(doc.tokens, doc.products, id);
    var i := TokenAt(doc.tokens, id);
    if i >= 0 {
      assert doc.tokens[i] in doc.tokens;
    }
  }

  // ---------------------------------------------------------------------
  // The store
  // ---------------------------------------------------------------------

  /** A change that is refused or cannot be persisted leaves memory, disk and
      sessions as they were; otherwise memory and disk hold the changed document,
      and of the sessions exactly those of a deleted user go. */
  lemma CommitMeans(s: State, change: Change, persists: bool)
    ensures var t := Step(s, Commit(change, persists));
      if persists && Changed(s.doc, change).Some? then
        && t.doc == Changed(s.doc, change).value && t.disk == Some(t.doc)
        && (forall key :: key in t.sessions <==>
              key in s.sessions && change != DeleteUser(s.sessions[key].username))
        && (forall key | key in t.sessions :: t.sessions[key] == s.sessions[key])
      else t == s
  {}

  /** The account a bearer stands for: the listed user its unexpired session names. */
  lemma AccountIff(s: State, key: string, now: int, user: User)
    requires Rules(s.doc)
    ensures Account(s, key, now) == Some(user) <==>
      && key in s.sessions && now < s.sessions[key].expiresAt
      && user in s.doc.users && user.username == s.sessions[key].username
  {
    hide UserAt;
    if key in s.sessions {
      UserFound(s.doc.users, s.sessions[key].username);
    }
  }

  /** An expired session, an unknown one and one of a user who is gone stand for
      nobody; looking such a bearer up drops its session, and no look-up touches
      anything else. */
  lemma ResolveMeans(s: State, key: string, now: int)
    requires Rules(s.doc)
    ensures var live := key in s.sessions && now < s.sessions[key].expiresAt &&
        exists u :: u in s.doc.users && u.username == s.sessions[key].username;
      var t := Step(s, Resolve(key, now));
      && (Account(s, key, now).Some? <==> live)
      && t.doc == s.doc && t.disk == s.disk
      && (key in t.sessions <==> live)
      && (forall other | other != key :: other in t.sessions <==> other in s.sessions)
      && (forall other | other in t.sessions :: t.sessions[other] == s.sessions[other])
  {
    hide UserAt;
    if key in s.sessions {
      UserFound(s.doc.users, s.sessions[key].username);
    }
  }

  /** Signing in opens the session until it expires, signing out ends it, and a
      restart ends all; none of the three touches the document on disk. */
  lemma SessionStepsMean(s: State, key: string, session: Session, user: User, now: int)
    requires Rules(s.doc) && user in s.doc.users && user.username == session.username
    ensures Account(Step(s, NewSession(key, session)), key, now) ==
      if now < session.expiresAt then Some(user) else None
    ensures Account(Step(s, DropSession(key)), key, now).None?
    ensures forall other | other != key ::
      && Account(Step(s, NewSession(key, session)), other, now) == Account(s, other, now)
      && Account(Step(s, DropSession(key)), other, now) == Account(s, other, now)
    ensures forall other :: Account(Step(s, Restart), other, now).None?
    ensures forall op | op in {NewSession(key, session), DropSession(key), Restart} :: Step(s, op).disk == s.disk
  {
    hide UserAt;
    UserFound(s.doc.users, session.username);
  }
}
