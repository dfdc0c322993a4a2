/** The User model: the schema's fields and defaults, its two
    token-issuing methods, and the collection the documents are saved
    to, with the two unique indexes on `username` and `email`. */
module UserModel {
  import opened Wrappers
  import opened Bytes
  import opened Hex
  import opened Credentials

  type Id = nat

  /** crypto.randomBytes(20). */
  const TokenBytes := 20

  /** One hour, in milliseconds, the lifetime of a reset token. */
  const ResetWindow := 3600000

  /** A stored user record.  An absent optional field is `undefined`;
      `resetPasswordExpire` is a timestamp in milliseconds. */
  datatype Account = Account(
    id: Id,
    username: string,
    email: string,
    password: Secret,
    isVerified: bool,
    verificationToken: Option<string>,
    resetPasswordToken: Option<string>,
    resetPasswordExpire: Option<int>)

  /** crypto.randomBytes(20).toString('hex'); the random bytes are an input. */
  function RandomToken(random: seq<byte>): (token: string)
    requires |random| == TokenBytes
    ensures |token| == 2 * TokenBytes
    ensures forall i :: 0 <= i < |token| ==> IsHexChar(token[i])
    ensures Decode(token) == Some(random)
  {
    DecodeEncode(random);
    Encode(random)
  }

  /** Mongoose's `required` check: a string must be non-empty. */
  predicate SecretPresent(p: Secret) {
    p.Digest? || p.text != ""
  }

  /** The schema validators that run before every save. */
  predicate PassesSchema(a: Account) {
    a.username != "" && a.email != "" && SecretPresent(a.password)
  }

  /** Two records that one of the unique indexes (_id, username, email)
      would not let coexist. */
  predicate Clash(a: Account, b: Account) {
    a.id == b.id || a.username == b.username || a.email == b.email
  }

  /** The state the collection is always kept in: every record passed the
      schema, and no two records share an id, a username or an email. */
  ghost predicate Wellformed(s: seq<Account>) {
    && (forall i :: 0 <= i < |s| ==> PassesSchema(s[i]))
    && (forall i, j :: 0 <= i < j < |s| ==> !Clash(s[i], s[j]))
  }

  /** The filters handed to findOne. */
  datatype Query =
    | ByEmail(email: string)
    | ByVerificationToken(token: string)
    | ByResetToken(token: string, now: nat)   // { resetPasswordToken: token, resetPasswordExpire: { $gt: now } }
    | ById(id: Id)

  predicate Matches(a: Account, q: Query) {
    match q
    case ByEmail(e) => a.email == e
    case ByVerificationToken(t) => a.verificationToken == Some(t)
    case ByResetToken(t, now) =>
      a.resetPasswordToken == Some(t) && a.resetPasswordExpire.Some? && a.resetPasswordExpire.value > now
    case ById(id) => a.id == id
  }

  /** findOne: the first record, in collection order, that the filter matches. */
  function FindFirst(s: seq<Account>, q: Query): (r: Option<nat>)
    ensures r.Some? ==> r.value < |s| && Matches(s[r.value], q)
    ensures r.Some? ==> forall j :: 0 <= j < r.value ==> !Matches(s[j], q)
    ensures r.None? <==> forall j :: 0 <= j < |s| ==> !Matches(s[j], q)
  {
    if s == [] then None
    else if Matches(s[0], q) then Some(0)
    else
      match FindFirst(s[1..], q)
      case None => None
      case Some(i) => Some(i + 1)
  }

  /** In a well-formed collection a record is the only one with its id
      and the only one with its email. */
  lemma {:induction false} FindUnique(s: seq<Account>, i: nat)
    requires Wellformed(s) && i < |s|
    ensures FindFirst(s, ById(s[i].id)) == Some(i)
    ensures FindFirst(s, ByEmail(s[i].email)) == Some(i)
  {
    assert Matches(s[i], ById(s[i].id));
    assert Matches(s[i], ByEmail(s[i].email));
  }

  datatype SaveError = ValidationError | DuplicateKey | DocumentNotFound

  /** document.save(): the schema validators run first; a new document is
      then inserted, an existing one replaces the record with its id.
      Either write fails if a unique index would be broken. */
  function Save(s: seq<Account>, doc: Account, isNew: bool): (r: Result<seq<Account>, SaveError>)
    ensures r.Ok? ==> PassesSchema(doc) && doc in r.value
    ensures r.Ok? ==> |r.value| == |s| + (if isNew then 1 else 0)
    ensures r.Ok? && isNew ==> r.value == s + [doc]
    ensures isNew ==> (r.Ok? <==> PassesSchema(doc) && forall j :: 0 <= j < |s| ==> !Clash(s[j], doc))
    ensures r.Ok? && !isNew ==> exists i :: 0 <= i < |s| && s[i].id == doc.id && r.value == s[i := doc]
    ensures r == Err(DuplicateKey) ==> exists j :: 0 <= j < |s| && Clash(s[j], doc)
  {
    if !PassesSchema(doc) then Err(ValidationError)
    else if isNew then
      if exists i | 0 <= i < |s| :: Clash(s[i], doc) then Err(DuplicateKey)
      else Ok(s + [doc])
    else
      match FindFirst(s, ById(doc.id))
      case None => Err(DocumentNotFound)
      case Some(i) =>
        if exists j | 0 <= j < |s| :: j != i && Clash(s[j], doc) then Err(DuplicateKey)
        else assert s[i := doc][i] == doc; Ok(s[i := doc])
  }

  /** A write that goes through keeps the collection well-formed: the
      unique indexes and the validators are never bypassed. */
  lemma SavePreservesWellformed(s: seq<Account>, doc: Account, isNew: bool)
    requires Wellformed(s) && Save(s, doc, isNew).Ok?
    ensures Wellformed(Save(s, doc, isNew).value)
  {
    var s' := Save(s, doc, isNew).value;
    if isNew {
      assert s' == s + [doc];
      forall i, j | 0 <= i < j < |s'| ensures !Clash(s'[i], s'[j]) {
        if j == |s| {
          assert !Clash(s[i], doc);
        }
      }
    } else {
      var k := FindFirst(s, ById(doc.id)).value;
      assert s' == s[k := doc];
      forall i, j | 0 <= i < j < |s'| ensures !Clash(s'[i], s'[j]) {
        if i == k {
          assert !Clash(s[j], doc);
        } else if j == k {
          assert !Clash(s[i], doc);
        }
      }
    }
  }

  /** An insert that collides with a stored record on a unique field fails
      and writes nothing. */
  lemma InsertClashFails(s: seq<Account>, doc: Account, i: nat)
    requires i < |s| && Clash(s[i], doc)
    ensures Save(s, doc, true).Err?
  {
  }

  /** Rewriting a record with its id, username and email kept fails only
      on the schema. */
  lemma {:induction false} UpdateInPlace(s: seq<Account>, i: nat, doc: Account)
    requires Wellformed(s) && i < |s|
    requires doc.id == s[i].id && doc.username == s[i].username && doc.email == s[i].email
    requires PassesSchema(doc)
    ensures Save(s, doc, false) == Ok(s[i := doc])
  {
    FindUnique(s, i);
    forall j | 0 <= j < |s| && j != i ensures !Clash(s[j], doc) {
      if j < i { assert !Clash(s[j], s[i]); } else { assert !Clash(s[i], s[j]); }
    }
  }

  /** A Mongoose document: an in-memory copy of one record whose fields
      the route handlers assign before they save it. */
  class UserDoc {
    const id: Id
    var username: string
    var email: string
    var password: Secret
    var isVerified: bool
    var verificationToken: Option<string>
    var resetPasswordToken: Option<string>
    var resetPasswordExpire: Option<int>
    /** Whether save() inserts (true) or updates (false). */
    var isNew: bool

    function Record(): Account
      reads this
    {
      Account(id, username, email, password, isVerified,
              verificationToken, resetPasswordToken, resetPasswordExpire)
    }

    /** new User({ username, email, password }): the schema defaults
        leave the account unverified and without any token. */
    constructor (id: Id, username: string, email: string, password: string)
      ensures Record() == Account(id, username, email, Plain(password), false, None, None, None)
      ensures isNew
    {
      this.id := id;
      this.username := username;
      this.email := email;
      this.password := Plain(password);
      this.isVerified := false;
      this.verificationToken := None;
      this.resetPasswordToken := None;
      this.resetPasswordExpire := None;
      this.isNew := true;
    }

    /** The document findOne hands back for a stored record. */
    constructor Hydrate(a: Account)
      ensures Record() == a && !isNew
    {
      id := a.id;
      username := a.username;
      email := a.email;
      password := a.password;
      isVerified := a.isVerified;
      verificationToken := a.verificationToken;
      resetPasswordToken := a.resetPasswordToken;
      resetPasswordExpire := a.resetPasswordExpire;
      isNew := false;
    }

    /** getVerificationToken: stores the new token on the document and
        returns it; nothing else changes. */
    method GetVerificationToken(random: seq<byte>) returns (token: string)
      requires |random| == TokenBytes
      modifies this`verificationToken
      ensures token == RandomToken(random)
      ensures Record() == old(Record()).(verificationToken := Some(token))
    {
      token := RandomToken(random);
      verificationToken := Some(token);
    }

    /** getResetPasswordToken: stores the new token and an expiry one hour
        after `now`, replacing any earlier pair; nothing else changes. */
    method GetResetPasswordToken(random: seq<byte>, now: nat) returns (token: string)
      requires |random| == TokenBytes
      modifies this`resetPasswordToken, this`resetPasswordExpire
      ensures token == RandomToken(random)
      ensures Record() == old(Record()).(resetPasswordToken := Some(token), resetPasswordExpire := Some(now + ResetWindow))
    {
      token := RandomToken(random);
      resetPasswordToken := Some(token);
      resetPasswordExpire := Some(now + ResetWindow);
    }
  }

  /** The users collection, with an allocator standing in for ObjectId. */
  class UserStore {
    var accounts: seq<Account>
    var nextId: Id

    ghost predicate Valid()
      reads this
    {
      Wellformed(accounts) && forall i :: 0 <= i < |accounts| ==> accounts[i].id < nextId
    }

    constructor ()
      ensures Valid() && accounts == []
    {
      accounts := [];
      nextId := 0;
    }

    /** A fresh document id, used by no stored record. */
    method NewId() returns (id: Id)
      requires Valid()
      modifies this`nextId
      ensures Valid() && id == old(nextId) && nextId == id + 1
      ensures forall i :: 0 <= i < |accounts| ==> accounts[i].id != id
    {
      id := nextId;
      nextId := nextId + 1;
    }

    /** findOne(filter): a fresh document for the first matching record, or null. */
    method FindOne(q: Query) returns (doc: UserDoc?)
      ensures FindFirst(accounts, q).None? ==> doc == null
      ensures FindFirst(accounts, q).Some? ==>
        doc != null && fresh(doc) && !doc.isNew && doc.Record() == accounts[FindFirst(accounts, q).value]
    {
      var r := FindFirst(accounts, q);
      if r.None? {
        doc := null;
      } else {
        doc := new UserDoc.Hydrate(accounts[r.value]);
      }
    }

    /** doc.save(): the collection becomes what Save says, or stays as it
        was and the error is returned. */
    method SaveDoc(doc: UserDoc) returns (err: Option<SaveError>)
      requires Valid() && doc.id < nextId
      modifies this`accounts, doc`isNew
      ensures Valid()
      ensures match Save(old(accounts), old(doc.Record()), old(doc.isNew))
        case Ok(s') => err.None? && accounts == s' && !doc.isNew
        case Err(e) => err == Some(e) && accounts == old(accounts) && doc.isNew == old(doc.isNew)
    {
      var r := Save(accounts, doc.Record(), doc.isNew);
      match r
      case Ok(s') =>
        SavePreservesWellformed(accounts, doc.Record(), doc.isNew);
        accounts := s';
        doc.isNew := false;
        err := None;
      case Err(e) =>
        err := Some(e);
    }
  }
}
