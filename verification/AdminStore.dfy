/** The admin store object: every operation checks, changes the document in
    place, persists, and undoes its own edits if it could not
    (internal/agentadmin/admin.go). Random secrets, password hashes and times
    are inputs, and so is whether a write to disk succeeds. */
module AdminStore {
  import opened Wrappers
  import opened AdminDocument
  import opened AdminState
  import Sets

  const MIN_PASSWORD_LENGTH := 8

  datatype Credential = Credential(hash: string, product: string)

  class Store {
    /** The hex sha256 of a secret. */
    const sha: string -> string
    var doc: Document
    var disk: Option<Document>
    var sessions: map<string, Session>

    function Now(): State
      reads this
    {
      State(doc, disk, sessions)
    }

    ghost predicate Valid()
      reads this
    {
      AdminState.Valid(Now()) && forall x :: |sha(x)| == DIGEST_LENGTH
    }

    /** Open: the document on disk, or the empty one; nothing is written. */
    constructor (sha: string -> string, disk: Option<Document>)
      requires disk.Some? ==> Rules(disk.value)
      requires forall x :: |sha(x)| == DIGEST_LENGTH
      ensures Valid() && this.sha == sha
      ensures Now() == State(if disk.Some? then disk.value else EMPTY_DOCUMENT, disk, map[])
    {
      this.sha, this.disk := sha, disk;
      this.doc := if disk.Some? then disk.value else EMPTY_DOCUMENT;
      this.sessions := map[];
    }

    /** Write the document to disk; what to do about a failure is the caller's. */
    method Persist(persists: bool) returns (saved: bool)
      modifies this`disk
      ensures saved == persists
      ensures disk == (if persists then Some(doc) else old(disk))
    {
      if persists {
        disk := Some(doc);
      }
      saved := persists;
    }

    method FindUser(name: string) returns (index: int)
      ensures index == UserAt(doc.users, name)
    {
      index := -1;
      for i := 0 to |doc.users|
        invariant UserAt(doc.users, name) == (var k := UserAt(doc.users[i..], name); if k < 0 then -1 else k + i)
      {
        assert doc.users[i..][1..] == doc.users[i + 1..];
        if doc.users[i].username == name {
          return i;
        }
      }
    }

    method FindProduct(id: string) returns (index: int)
      ensures index == ProductAt(doc.products, id)
    {
      index := -1;
      for i := 0 to |doc.products|
        invariant ProductAt(doc.products, id) ==
          (var k := ProductAt(doc.products[i..], id); if k < 0 then -1 else k + i)
      {
        assert doc.products[i..][1..] == doc.products[i + 1..];
        if doc.products[i].id == id {
          return i;
        }
      }
    }

    method FindToken(id: string) returns (index: int)
      ensures index == TokenAt(doc.tokens, id)
    {
      index := -1;
      for i := 0 to |doc.tokens|
        invariant TokenAt(doc.tokens, id) == (var k := TokenAt(doc.tokens[i..], id); if k < 0 then -1 else k + i)
      {
        assert doc.tokens[i..][1..] == doc.tokens[i + 1..];
        if doc.tokens[i].id == id {
          return i;
        }
      }
    }

    method CountAdmins() returns (admins: nat)
      ensures admins == Admins(doc.users)
    {
      admins := 0;
      for i := 0 to |doc.users|
        invariant admins == Admins(doc.users[..i])
      {
        assert doc.users[..i + 1][..i] == doc.users[..i];
        if doc.users[i].role == Admin {
          admins := admins + 1;
        }
      }
      assert doc.users[..|doc.users|] == doc.users;
    }

    /** The distinct product ids, if all are identifiers of registered products. */
    method CheckProducts(products: seq<string>) returns (r: Result<seq<string>, string>)
      ensures r.Ok? <==> forall p | p in products :: IsIdentifier(p) && ProductAt(doc.products, p) >= 0
      ensures r.Ok? ==> forall p :: p in r.value <==> p in products
      ensures r.Ok? ==> forall i, j | 0 <= i < j < |r.value| :: r.value[i] != r.value[j]
    {
      var out: seq<string> := [];
      for i := 0 to |products|
        invariant forall p | p in products[..i] :: IsIdentifier(p)
        invariant forall p :: p in out <==> p in products[..i]
        invariant forall j, k | 0 <= j < k < |out| :: out[j] != out[k]
      {
        assert products[..i + 1] == products[..i] + [products[i]];
        if !IsIdentifier(products[i]) {
          assert products[i] in products;
          return Err("invalid product");
        }
        if products[i] in out {
          continue;
        }
        out := out + [products[i]];
      }
      assert products[..|products|] == products;
      for i := 0 to |out|
        invariant forall j | 0 <= j < i :: ProductAt(doc.products, out[j]) >= 0
      {
        var registered := FindProduct(out[i]);
        if registered < 0 {
          assert out[i] in out;
          return Err("product is not registered");
        }
      }
      return Ok(out);
    }

    /** The products a user of the role is given: none for an admin, some for an owner. */
    method ProductsFor(role: Role, products: seq<string>) returns (r: Result<seq<string>, string>)
      ensures r.Ok? <==>
        && (forall p | p in products :: IsIdentifier(p) && ProductAt(doc.products, p) >= 0)
        && (role == Owner ==> products != [])
      ensures r.Ok? ==> forall p :: p in r.value <==> role == Owner && p in products
      ensures r.Ok? ==> (r.value == [] <==> role == Admin)
      ensures r.Ok? ==> forall i | 0 <= i < |r.value| :: IsIdentifier(r.value[i])
    {
      r := CheckProducts(products);
      if r.Err? {
        return;
      }
      assert products != [] ==> products[0] in r.value;
      assert r.value != [] ==> r.value[0] in products;
      forall i | 0 <= i < |r.value| ensures IsIdentifier(r.value[i]) {
        assert r.value[i] in products;
      }
      if role == Owner && |r.value| == 0 {
        return Err("a product owner needs at least one product");
      }
      if role == Admin {
        r := Ok([]);
      }
    }

    // Operators

    method BootstrapToken(secret: string, persists: bool) returns (ok: bool)
      requires Valid()
      modifies this
      ensures Valid() && Now() == Committed(old(Now()), MintBootstrap(sha(secret)), persists)
      ensures ok <==> persists && Changed(old(doc), MintBootstrap(sha(secret))).Some?
    {
      if |doc.users| > 0 {
        return false;
      }
      if |doc.bootstrapHash| == DIGEST_LENGTH {
        return false;
      }
      ok := Mint(secret, persists);
    }

    /** Replace a bootstrap credential, live or not. */
    method Reset(secret: string, persists: bool) returns (ok: bool)
      requires Valid()
      modifies this
      ensures Valid() && Now() == Committed(old(Now()), ResetBootstrap(sha(secret)), persists)
      ensures ok <==> persists && Changed(old(doc), ResetBootstrap(sha(secret))).Some?
    {
      if |doc.users| > 0 {
        return false;
      }
      ok := Mint(secret, persists);
    }

    method Mint(secret: string, persists: bool) returns (ok: bool)
      requires Valid()
      modifies this
      ensures Valid() && sessions == old(sessions) && ok == persists
      ensures doc == (if persists then old(doc).(bootstrapHash := sha(secret)) else old(doc))
      ensures disk == (if persists then Some(doc) else old(disk))
    {
      var previous := doc.bootstrapHash;
      doc := doc.(bootstrapHash := sha(secret));
      ok := Persist(persists);
      if !ok {
        doc := doc.(bootstrapHash := previous);
      }
    }

    /** Consume the bootstrap credential and create the first admin. */
    method CreateFirst(
      bootstrap: string, username: string, password: string, hashed: string, at: string, persists: bool)
      returns (r: Result<User, string>)
      requires Valid() && hashed != ""
      modifies this
      ensures Valid() && (r.Err? ==> Now() == old(Now()))
      ensures r.Ok? <==>
        && persists && NormalizeUsername(username).Some? && |password| >= MIN_PASSWORD_LENGTH
        && old(doc.users) == [] && old(doc.bootstrapHash) == sha(bootstrap)
      ensures r.Ok? ==>
        && r.value == User(NormalizeUsername(username).value, hashed, Admin, [], at)
        && Now() == Committed(old(Now()), CreateFirstUser(sha(bootstrap), r.value), true)
    {
      hide UserAt, ProductAt, TokenAt, Admins, TokensWithout, Rules, NormalizeUsername;
      var name := NormalizeUsername(username);
      if name.None? {
        return Err("invalid username");
      }
      if |password| < MIN_PASSWORD_LENGTH {
        return Err("password too short");
      }
      if |doc.users| > 0 {
        return Err("an operator account already exists");
      }
      if |doc.bootstrapHash| != DIGEST_LENGTH {
        return Err("bootstrap is not live");
      }
      if sha(bootstrap) != doc.bootstrapHash {
        return Err("invalid bootstrap");
      }
      var user := User(name.value, hashed, Admin, [], at);
      var previous := doc;
      assert doc.users + [user] == [user];
      doc := doc.(users := doc.users + [user], bootstrapHash := "");
      var saved := Persist(persists);
      if !saved {
        doc := previous;
        return Err("persist");
      }
      StepKeepsValid(old(Now()), Commit(CreateFirstUser(sha(bootstrap), user), true));
      return Ok(user);
    }

    method Add(
      username: string, password: string, role: Role, products: seq<string>,
      hashed: string, at: string, persists: bool)
      returns (r: Result<User, string>)
      requires Valid() && hashed != ""
      modifies this
      ensures Valid() && (r.Err? ==> Now() == old(Now()))
      ensures r.Ok? <==>
        && persists && NormalizeUsername(username).Some? && |password| >= MIN_PASSWORD_LENGTH
        && (forall p | p in products :: IsIdentifier(p) && ProductAt(old(doc.products), p) >= 0)
        && (role == Owner ==> products != [])
        && UserAt(old(doc.users), NormalizeUsername(username).value) < 0
      ensures r.Ok? ==>
        && r.value == User(NormalizeUsername(username).value, hashed, role, r.value.products, at)
        && (forall p :: p in r.value.products <==> role == Owner && p in products)
        && Now() == Committed(old(Now()), AddUser(r.value), true)
    {
      hide UserAt, ProductAt, TokenAt, Admins, TokensWithout, Rules, NormalizeUsername, IsIdentifier, IsUsername;
      var name := NormalizeUsername(username);
      if name.None? {
        return Err("invalid username");
      }
      if |password| < MIN_PASSWORD_LENGTH {
        return Err("password too short");
      }
      var checked := ProductsFor(role, products);
      if checked.Err? {
        return Err(checked.error);
      }
      var owned := checked.value;
      var found := FindUser(name.value);
      if found >= 0 {
        return Err("user already exists");
      }
      var user := User(name.value, hashed, role, owned, at);
      assert UserOk(user);
      hide UserOk, TokenOk, ProductOk;
      doc := doc.(users := doc.users + [user]);
      var saved := Persist(persists);
      if !saved {
        doc := doc.(users := doc.users[..|doc.users| - 1]);
        LastTakenBack(old(doc).users, user);
        return Err("persist");
      }
      StepKeepsValid(old(Now()), Commit(AddUser(user), true));
      return Ok(user);
    }

    method ChangePassword(username: string, password: string, hashed: string, persists: bool) returns (ok: bool)
      requires Valid() && hashed != ""
      modifies this
      ensures Valid() && (!ok ==> Now() == old(Now()))
      ensures ok <==>
        && persists && NormalizeUsername(username).Some? && |password| >= MIN_PASSWORD_LENGTH
        && UserAt(old(doc.users), NormalizeUsername(username).value) >= 0
      ensures ok ==> Now() == Committed(old(Now()), SetPassword(NormalizeUsername(username).value, hashed), true)
    {
      hide UserAt, ProductAt, TokenAt, Admins, TokensWithout, Rules;
      var name := NormalizeUsername(username);
      if name.None? || |password| < MIN_PASSWORD_LENGTH {
        return false;
      }
      var i := FindUser(name.value);
      if i < 0 {
        return false;
      }
      var previous := doc.users[i].passwordHash;
      doc := doc.(users := doc.users[i := doc.users[i].(passwordHash := hashed)]);
      ok := Persist(persists);
      if !ok {
        doc := doc.(users := doc.users[i := doc.users[i].(passwordHash := previous)]);
        assert doc.users == old(doc).users;
      }
      StepKeepsValid(old(Now()), Commit(SetPassword(name.value, hashed), persists));
    }

    method ChangeUserProducts(username: string, products: seq<string>, persists: bool) returns (r: Result<User, string>)
      requires Valid()
      modifies this
      ensures Valid() && (r.Err? ==> Now() == old(Now()))
      ensures r.Ok? ==>
        && (forall p :: p in r.value.products <==> p in products)
        && NormalizeUsername(username) == Some(r.value.username)
        && Now() == Committed(old(Now()), SetUserProducts(r.value.username, r.value.products), true)
      ensures r.Ok? <==>
        && persists && NormalizeUsername(username).Some? && products != []
        && (forall p | p in products :: IsIdentifier(p) && ProductAt(old(doc.products), p) >= 0)
        && (var i := UserAt(old(doc.users), NormalizeUsername(username).value);
            i >= 0 && old(doc.users)[i].role == Owner)
    {
      hide UserAt, ProductAt, TokenAt, Admins, TokensWithout, Rules, NormalizeUsername, IsIdentifier;
      var name := NormalizeUsername(username);
      if name.None? {
        return Err("invalid username");
      }
      var checked := CheckProducts(products);
      if checked.Err? {
        return Err(checked.error);
      }
      var owned := checked.value;
      assert products != [] ==> products[0] in owned;
      assert owned != [] ==> owned[0] in products;
      var i := FindUser(name.value);
      if i < 0 {
        return Err("user does not exist");
      }
      if doc.users[i].role != Owner {
        return Err("user is an admin and already covers every product");
      }
      if |owned| == 0 {
        return Err("a product owner needs at least one product");
      }
      forall k | 0 <= k < |owned| ensures IsIdentifier(owned[k]) {
        assert owned[k] in products;
      }
      var previous := doc.users[i].products;
      doc := doc.(users := doc.users[i := doc.users[i].(products := owned)]);
      var saved := Persist(persists);
      if !saved {
        doc := doc.(users := doc.users[i := doc.users[i].(products := previous)]);
        assert doc.users == old(doc).users;
      }
      StepKeepsValid(old(Now()), Commit(SetUserProducts(name.value, owned), persists));
      if !saved {
        return Err("persist");
      }
      return Ok(doc.users[i]);
    }

    /** The last admin cannot be demoted. */
    method ChangeRole(username: string, role: Role, products: seq<string>, persists: bool)
      returns (r: Result<User, string>)
      requires Valid()
      modifies this
      ensures Valid() && (r.Err? ==> Now() == old(Now()))
      ensures r.Ok? ==>
        && (forall p :: p in r.value.products <==> role == Owner && p in products)
        && NormalizeUsername(username) == Some(r.value.username) && r.value.role == role
        && Now() == Committed(old(Now()), SetRole(r.value.username, role, r.value.products), true)
      ensures r.Ok? <==>
        && persists && NormalizeUsername(username).Some? && (role == Owner ==> products != [])
        && (forall p | p in products :: IsIdentifier(p) && ProductAt(old(doc.products), p) >= 0)
        && (var i := UserAt(old(doc.users), NormalizeUsername(username).value);
            i >= 0 && !(role == Owner && old(doc.users)[i].role == Admin && Admins(old(doc.users)) == 1))
    {
      hide UserAt, ProductAt, TokenAt, Admins, TokensWithout, Rules, NormalizeUsername, IsIdentifier;
      var name := NormalizeUsername(username);
      if name.None? {
        return Err("invalid username");
      }
      var checked := ProductsFor(role, products);
      if checked.Err? {
        return Err(checked.error);
      }
      var owned := checked.value;
      var i := FindUser(name.value);
      if i < 0 {
        return Err("user does not exist");
      }
      if role != Admin && doc.users[i].role == Admin {
        var admins := CountAdmins();
        if admins == 1 {
          return Err("refusing to demote the last admin");
        }
      }
      var previousRole, previousProducts := doc.users[i].role, doc.users[i].products;
      doc := doc.(users := doc.users[i := doc.users[i].(role := role, products := owned)]);
      var saved := Persist(persists);
      if !saved {
        doc := doc.(users := doc.users[i := doc.users[i].(role := previousRole, products := previousProducts)]);
        assert doc.users == old(doc).users;
      }
      StepKeepsValid(old(Now()), Commit(SetRole(name.value, role, owned), persists));
      if !saved {
        return Err("persist");
      }
      return Ok(doc.users[i]);
    }

    /** The last admin cannot be deleted; a deleted user's sessions go too. */
    method RemoveUser(username: string, persists: bool) returns (ok: bool)
      requires Valid()
      modifies this
      ensures Valid() && (!ok ==> Now() == old(Now()))
      ensures ok <==>
        && persists && NormalizeUsername(username).Some?
        && Changed(old(doc), DeleteUser(NormalizeUsername(username).value)).Some?
      ensures ok ==> Now() == Committed(old(Now()), DeleteUser(NormalizeUsername(username).value), true)
    {
      hide UserAt, ProductAt, TokenAt, Admins, TokensWithout, Rules, NormalizeUsername;
      var name := NormalizeUsername(username);
      if name.None? {
        return false;
      }
      var i := FindUser(name.value);
      if i < 0 {
        return false;
      }
      if doc.users[i].role == Admin {
        var admins := CountAdmins();
        if admins == 1 {
          return false;
        }
      }
      var previous := doc.users;
      doc := doc.(users := doc.users[..i] + doc.users[i + 1..]);
      ok := Persist(persists);
      if ok {
        DropSessionsOf(name.value);
      } else {
        doc := doc.(users := previous);
      }
      StepKeepsValid(old(Now()), Commit(DeleteUser(name.value), persists));
    }

    method DropSessionsOf(name: string)
      modifies this`sessions
      ensures sessions == SessionsWithout(old(sessions), name)
    {
      var rest := sessions.Keys;
      while rest != {}
        invariant rest <= old(sessions).Keys
        invariant sessions == map key | key in old(sessions) && (key in rest || old(sessions)[key].username != name) ::
          old(sessions)[key]
      {
        var key := Sets.Pick(rest);
        if sessions[key].username == name {
          sessions := sessions - {key};
        }
        rest := rest - {key};
      }
    }

    // Products

    method Register(id: string, root: string, profile: string, at: string, persists: bool) returns (ok: bool)
      requires Valid()
      modifies this
      ensures Valid() && (!ok ==> Now() == old(Now()))
      ensures ok <==>
        persists && IsIdentifier(id) && TrimRight(TrimLeft(root)) != "" && ProductAt(old(doc.products), id) < 0
      ensures ok ==> Now() == Committed(old(Now()),
        AddProduct(Product(id, TrimRight(TrimLeft(root)), TrimRight(TrimLeft(profile)), at, 0)), true)
    {
      hide ProductAt, Rules, IsIdentifier, TrimLeft, TrimRight, ProductOk;
      if !IsIdentifier(id) {
        return false;
      }
      var trimmed := TrimRight(TrimLeft(root));
      if trimmed == "" {
        return false;
      }
      var found := FindProduct(id);
      if found >= 0 {
        return false;
      }
      var product := Product(id, trimmed, TrimRight(TrimLeft(profile)), at, 0);
      TrimmedProductIsOk(product, root);
      doc := doc.(products := doc.products + [product]);
      ok := Persist(persists);
      if !ok {
        doc := doc.(products := doc.products[..|doc.products| - 1]);
        LastTakenBack(old(doc).products, product);
      }
      StepKeepsValid(old(Now()), Commit(AddProduct(product), persists));
    }

    /** The next release code: above the last one handed out and above the floor. */
    method Allocate(id: string, floor: int, persists: bool) returns (r: Result<int, string>)
      requires Valid()
      modifies this
      ensures Valid() && Now() == Committed(old(Now()), AllocateReleaseCode(id, floor), persists)
      ensures r == match Claimed(old(Now()), Commit(AllocateReleaseCode(id, floor), persists), id)
                   case Some(code) => Ok(code)
                   case None => Err("no code")
    {
      hide UserAt, ProductAt, TokenAt, Admins, TokensWithout, Rules;
      if floor < 0 {
        return Err("no code");
      }
      var i := FindProduct(id);
      if i < 0 {
        return Err("no code");
      }
      var previous := doc.products[i].lastReleaseCode;
      var next := Max(previous, floor) + 1;
      doc := doc.(products := doc.products[i := doc.products[i].(lastReleaseCode := next)]);
      var saved := Persist(persists);
      if !saved {
        doc := doc.(products := doc.products[i := doc.products[i].(lastReleaseCode := previous)]);
        assert doc.products == old(doc).products;
      }
      StepKeepsValid(old(Now()), Commit(AllocateReleaseCode(id, floor), persists));
      if !saved {
        return Err("no code");
      }
      LastCodeAt(doc, i);
      return Ok(next);
    }

    /** The tokens that outlive a product, in order. */
    method TokensOfOthers(id: string) returns (kept: seq<Token>)
      ensures kept == TokensWithout(doc.tokens, id)
    {
      kept := [];
      for i := 0 to |doc.tokens|
        invariant kept == TokensWithout(doc.tokens[..i], id)
      {
        assert doc.tokens[..i + 1][..i] == doc.tokens[..i];
        if doc.tokens[i].product == id {
          continue;
        }
        kept := kept + [doc.tokens[i]];
      }
      assert doc.tokens[..|doc.tokens|] == doc.tokens;
    }

    method Unregister(id: string, persists: bool) returns (ok: bool)
      requires Valid()
      modifies this
      ensures Valid() && Now() == Committed(old(Now()), RemoveProduct(id), persists)
      ensures ok <==> persists && ProductAt(old(doc.products), id) >= 0
    {
      hide UserAt, ProductAt, TokenAt, Admins, TokensWithout, Rules;
      var index := FindProduct(id);
      if index < 0 {
        return false;
      }
      var kept := TokensOfOthers(id);
      var previousProducts, previousTokens := doc.products, doc.tokens;
      doc := doc.(products := doc.products[..index] + doc.products[index + 1..], tokens := kept);
      ok := Persist(persists);
      if !ok {
        doc := doc.(products := previousProducts, tokens := previousTokens);
      }
      StepKeepsValid(old(Now()), Commit(RemoveProduct(id), persists));
    }

    // Tokens

    method Issue(id: string, secret: string, product: string, note: string, at: string, persists: bool)
      returns (ok: bool)
      requires Valid() && id != "" && TokenAt(doc.tokens, id) < 0
      modifies this
      ensures Valid() && (!ok ==> Now() == old(Now()))
      ensures ok <==> persists && IsIdentifier(product) && ProductAt(old(doc.products), product) >= 0
      ensures ok ==> Now() == Committed(old(Now()), IssueToken(Token(id, product, note, sha(secret), at, "", "")), true)
    {
      hide UserAt, ProductAt, TokenAt, Admins, TokensWithout, Rules;
      if !IsIdentifier(product) {
        return false;
      }
      var registered := FindProduct(product);
      if registered < 0 {
        return false;
      }
      var token := Token(id, product, note, sha(secret), at, "", "");
      doc := doc.(tokens := doc.tokens + [token]);
      ok := Persist(persists);
      if !ok {
        doc := doc.(tokens := doc.tokens[..|doc.tokens| - 1]);
        LastTakenBack(old(doc).tokens, token);
      }
      StepKeepsValid(old(Now()), Commit(IssueToken(token), persists));
    }

    method Rotate(id: string, secret: string, at: string, persists: bool) returns (ok: bool)
      requires Valid()
      modifies this
      ensures Valid() && Now() == Committed(old(Now()), RotateToken(id, sha(secret), at), persists)
      ensures ok <==> persists && Changed(old(doc), RotateToken(id, sha(secret), at)).Some?
    {
      hide UserAt, ProductAt, TokenAt, Admins, TokensWithout, Rules;
      var i := FindToken(id);
      if i < 0 {
        return false;
      }
      if doc.tokens[i].Revoked() {
        return false;
      }
      var previousHash, previousRotated := doc.tokens[i].hash, doc.tokens[i].rotatedAt;
      doc := doc.(tokens := doc.tokens[i := doc.tokens[i].(hash := sha(secret), rotatedAt := at)]);
      ok := Persist(persists);
      if !ok {
        doc := doc.(tokens := doc.tokens[i := doc.tokens[i].(hash := previousHash, rotatedAt := previousRotated)]);
        assert doc.tokens == old(doc).tokens;
      }
      StepKeepsValid(old(Now()), Commit(RotateToken(id, sha(secret), at), persists));
    }

    method Revoke(id: string, at: string, persists: bool) returns (ok: bool)
      requires Valid() && at != ""
      modifies this
      ensures Valid() && Now() == Committed(old(Now()), RevokeToken(id, at), persists)
      ensures ok <==> persists && Changed(old(doc), RevokeToken(id, at)).Some?
    {
      hide UserAt, ProductAt, TokenAt, Admins, TokensWithout, Rules;
      var i := FindToken(id);
      if i < 0 {
        return false;
      }
      if doc.tokens[i].Revoked() {
        return false;
      }
      doc := doc.(tokens := doc.tokens[i := doc.tokens[i].(revokedAt := at)]);
      ok := Persist(persists);
      if !ok {
        doc := doc.(tokens := doc.tokens[i := doc.tokens[i].(revokedAt := "")]);
        assert doc.tokens == old(doc).tokens;
      }
      StepKeepsValid(old(Now()), Commit(RevokeToken(id, at), persists));
    }

    /** Exactly the current hashes of the tokens that are not revoked. */
    method Credentials() returns (out: seq<Credential>)
      requires Valid()
      ensures forall c :: c in out <==>
        exists t :: t in doc.tokens && !t.Revoked() && c == Credential(t.hash, t.product)
    {
      out := [];
      for i := 0 to |doc.tokens|
        invariant forall c :: c in out <==>
          exists t :: t in doc.tokens[..i] && !t.Revoked() && c == Credential(t.hash, t.product)
      {
        var token := doc.tokens[i];
        assert doc.tokens[..i + 1] == doc.tokens[..i] + [token];
        assert TokenOk(token);
        if token.Revoked() {
          continue;
        }
        if |token.hash| != DIGEST_LENGTH {
          continue;
        }
        out := out + [Credential(token.hash, token.product)];
      }
      assert doc.tokens[..|doc.tokens|] == doc.tokens;
    }

    // Sessions

    method SignIn(username: string, secret: string, expiresAt: int) returns (ok: bool)
      requires Valid()
      modifies this
      ensures Valid() && (ok <==> NormalizeUsername(username).Some?)
      ensures Now() ==
        if ok then
          Step(old(Now()), NewSession(sha(secret), Session(NormalizeUsername(username).value, expiresAt)))
        else old(Now())
    {
      var name := NormalizeUsername(username);
      if name.None? {
        return false;
      }
      sessions := sessions[sha(secret) := Session(name.value, expiresAt)];
      return true;
    }

    method SessionUser(secret: string, now: int) returns (user: Option<User>)
      requires Valid()
      modifies this
      ensures Valid()
      ensures secret == "" ==> user.None? && Now() == old(Now())
      ensures secret != "" ==>
        user == Account(old(Now()), sha(secret), now) && Now() == Step(old(Now()), Resolve(sha(secret), now))
    {
      if secret == "" {
        return None;
      }
      var key := sha(secret);
      assert key !in sessions ==> AdminState.Without(sessions, key) == sessions;
      if key !in sessions {
        return None;
      }
      if now >= sessions[key].expiresAt {
        sessions := AdminState.Without(sessions, key);
        return None;
      }
      var i := FindUser(sessions[key].username);
      if i < 0 {
        sessions := AdminState.Without(sessions, key);
        return None;
      }
      return Some(doc.users[i]);
    }

    method SignOut(secret: string)
      requires Valid()
      modifies this
      ensures Valid()
      ensures Now() == if secret == "" then old(Now()) else Step(old(Now()), DropSession(sha(secret)))
    {
      if secret == "" {
        return;
      }
      sessions := AdminState.Without(sessions, sha(secret));
    }
  }

  lemma LastTakenBack<T>(s: seq<T>, x: T)
    ensures (s + [x])[..|s + [x]| - 1] == s
  {}

  lemma {:induction false} TrimRightKeepsFront(s: string)
    requires s != [] && !IsSpace(s[0])
    ensures TrimRight(s) != [] && TrimRight(s)[0] == s[0]
  {
    if IsSpace(s[|s| - 1]) {
      TrimRightKeepsFront(s[..|s| - 1]);
    }
  }

  lemma {:induction false} TrimLeftStopsAtText(s: string)
    ensures TrimLeft(s) == [] || !IsSpace(TrimLeft(s)[0])
  {
    if s != [] && IsSpace(s[0]) {
      TrimLeftStopsAtText(s[1..]);
    }
  }

  lemma TrimmedProductIsOk(product: Product, root: string)
    requires IsIdentifier(product.id) && product.lastReleaseCode == 0
    requires product.root == TrimRight(TrimLeft(root)) && product.root != ""
    ensures ProductOk(product)
  {
    hide IsIdentifier;
    TrimLeftStopsAtText(root);
    if TrimLeft(root) != [] {
      TrimRightKeepsFront(TrimLeft(root));
    }
  }
}
