/** The agent's admin document: its rules, and what each operation does to it
    (internal/agentadmin/admin.go). */
module AdminDocument {
  import opened Wrappers

  datatype Role = Admin | Owner

  datatype User = User(username: string, passwordHash: string, role: Role, products: seq<string>, createdAt: string)

  datatype Product = Product(id: string, root: string, profile: string, createdAt: string, lastReleaseCode: int)

  datatype Token = Token(
    id: string, product: string, note: string, hash: string,
    createdAt: string, rotatedAt: string, revokedAt: string)
  {
    predicate Revoked() { revokedAt != "" }
  }

  datatype Document = Document(
    bootstrapHash: string, users: seq<User>, products: seq<Product>, tokens: seq<Token>)

  const EMPTY_DOCUMENT := Document("", [], [], [])

  /** The length of a sha256 digest in hex. */
  const DIGEST_LENGTH := 64

  // ---------------------------------------------------------------------
  // Names
  // ---------------------------------------------------------------------

  function Lower(c: char): char {
    if 'A' <= c <= 'Z' then c - 'A' + 'a' else c
  }

  predicate IsSpace(c: char) {
    c == ' ' || c == '\t' || c == '\n' || c == '\r'
  }

  function TrimLeft(s: string): string {
    if s != [] && IsSpace(s[0]) then TrimLeft(s[1..]) else s
  }

  function TrimRight(s: string): string {
    if s != [] && IsSpace(s[|s| - 1]) then TrimRight(s[..|s| - 1]) else s
  }

  function LowerAll(s: string): (r: string)
    ensures |r| == |s| && forall i | 0 <= i < |s| :: r[i] == Lower(s[i])
  {
    if s == [] then [] else [Lower(s[0])] + LowerAll(s[1..])
  }

  predicate NameChar(c: char) {
    c == '.' || c == '_' || c == '-' || 'a' <= c <= 'z' || '0' <= c <= '9'
  }

  predicate IsUsername(s: string) {
    2 <= |s| <= 32 && forall i | 0 <= i < |s| :: NameChar(s[i])
  }

  function NormalizeUsername(raw: string): (name: Option<string>)
    ensures name.Some? ==> IsUsername(name.value)
  {
    var name := LowerAll(TrimRight(TrimLeft(raw)));
    if IsUsername(name) then Some(name) else None
  }

  /** A normal name is its own normal form. */
  lemma NormalizeIsIdempotent(name: string)
    requires IsUsername(name)
    ensures NormalizeUsername(name) == Some(name)
  {
    assert TrimLeft(name) == name;
    assert TrimRight(name) == name;
    assert LowerAll(name) == name;
  }

  predicate AlphaNumeric(c: char) {
    'a' <= c <= 'z' || 'A' <= c <= 'Z' || '0' <= c <= '9'
  }

  /** model.CheckIdentifier. */
  predicate IsIdentifier(s: string) {
    && 0 < |s| <= 64 && AlphaNumeric(s[0])
    && forall i | 0 <= i < |s| :: AlphaNumeric(s[i]) || s[i] == '.' || s[i] == '_' || s[i] == '-'
  }

  // ---------------------------------------------------------------------
  // The rules
  // ---------------------------------------------------------------------

  predicate UserOk(user: User) {
    && IsUsername(user.username) && user.passwordHash != ""
    && forall i | 0 <= i < |user.products| :: IsIdentifier(user.products[i])
  }

  predicate ProductOk(product: Product) {
    IsIdentifier(product.id) && TrimLeft(product.root) != "" && product.lastReleaseCode >= 0
  }

  predicate TokenOk(token: Token) {
    token.id != "" && |token.hash| == DIGEST_LENGTH
  }

  ghost predicate Registered(products: seq<Product>, id: string) {
    exists i :: 0 <= i < |products| && products[i].id == id
  }

  ghost predicate UsersOk(users: seq<User>) {
    && (forall i | 0 <= i < |users| :: UserOk(users[i]))
    && (forall i, j | 0 <= i < j < |users| :: users[i].username != users[j].username)
  }

  ghost predicate ProductsOk(products: seq<Product>) {
    && (forall i | 0 <= i < |products| :: ProductOk(products[i]))
    && (forall i, j | 0 <= i < j < |products| :: products[i].id != products[j].id)
  }

  ghost predicate TokensOk(tokens: seq<Token>, products: seq<Product>) {
    && (forall i | 0 <= i < |tokens| :: TokenOk(tokens[i]) && Registered(products, tokens[i].product))
    && (forall i, j | 0 <= i < j < |tokens| :: tokens[i].id != tokens[j].id)
  }

  /** What validateDocument accepts. */
  ghost predicate Rules(doc: Document) {
    UsersOk(doc.users) && ProductsOk(doc.products) && TokensOk(doc.tokens, doc.products)
  }

  method UsersAreOk(users: seq<User>) returns (ok: bool)
    ensures ok <==> UsersOk(users)
  {
    var seen: set<string> := {};
    for i := 0 to |users|
      invariant UsersOk(users[..i])
      invariant forall name :: name in seen <==> exists j :: 0 <= j < i && users[j].username == name
    {
      var user := users[i];
      var name := NormalizeUsername(user.username);
      if name.None? || name.value != user.username {
        if UserOk(user) {
          NormalizeIsIdempotent(user.username);
        }
        return false;
      }
      if name.value in seen {
        return false;
      }
      seen := seen + {name.value};
      if user.passwordHash == "" {
        return false;
      }
      for k := 0 to |user.products|
        invariant forall j | 0 <= j < k :: IsIdentifier(user.products[j])
      {
        if !IsIdentifier(user.products[k]) {
          assert !UserOk(user);
          return false;
        }
      }
    }
    return true;
  }

  method ProductsAreOk(products: seq<Product>) returns (ok: bool, ids: set<string>)
    ensures ok <==> ProductsOk(products)
    ensures ok ==> forall id :: id in ids <==> Registered(products, id)
  {
    ids := {};
    for i := 0 to |products|
      invariant ProductsOk(products[..i])
      invariant forall id :: id in ids <==> exists j :: 0 <= j < i && products[j].id == id
    {
      var product := products[i];
      if !IsIdentifier(product.id) {
        return false, {};
      }
      if product.id in ids {
        return false, {};
      }
      ids := ids + {product.id};
      if TrimLeft(product.root) == "" {
        return false, {};
      }
      if product.lastReleaseCode < 0 {
        return false, {};
      }
    }
    ok := true;
  }

  method TokensAreOk(tokens: seq<Token>, ids: set<string>, ghost products: seq<Product>) returns (ok: bool)
    requires forall id :: id in ids <==> Registered(products, id)
    ensures ok <==> TokensOk(tokens, products)
  {
    var seen: set<string> := {};
    for i := 0 to |tokens|
      invariant TokensOk(tokens[..i], products)
      invariant forall id :: id in seen <==> exists j :: 0 <= j < i && tokens[j].id == id
    {
      var token := tokens[i];
      if token.id == "" {
        return false;
      }
      if token.id in seen {
        return false;
      }
      seen := seen + {token.id};
      if token.product !in ids {
        return false;
      }
      if |token.hash| != DIGEST_LENGTH {
        return false;
      }
    }
    return true;
  }

  method ValidateDocument(doc: Document) returns (ok: bool)
    ensures ok <==> Rules(doc)
  {
    ok := UsersAreOk(doc.users);
    if !ok {
      return;
    }
    var ids;
    ok, ids := ProductsAreOk(doc.products);
    if !ok {
      return;
    }
    ok := TokensAreOk(doc.tokens, ids, doc.products);
  }
}
