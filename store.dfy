/**
 * The two collections of the backend (backend/models/User.js and
 * backend/models/Transaction.js) and what Mongoose enforces on them: the
 * e-mail setters (`lowercase`, `trim`), the required fields, the defaults,
 * the status enum, and the unique index on e-mail.
 */
module Store {
  import opened Strings
  import opened Money

  /** A document `_id`. Ids are never reused. */
  type UserId = nat

  /** The `status` enum; no other value can be stored. */
  datatype Status = Active | Inactive | Blocked

  /** A user document as stored. */
  datatype User = User(
    email: string,
    password: string,
    phoneNumber: Option<string>,
    balance: Option<Decimal>,
    status: Status,
    pinHash: Option<string>,
    expiresAt: Option<int>)

  /** A transfer record; `createdAt` is the `timestamps` creation time. */
  datatype Tx = Tx(senderId: UserId, receiverId: UserId, amount: Decimal, createdAt: int)

  /**
   * The fields a caller hands to `User.create`; an absent balance or status
   * takes the schema default.
   */
  datatype NewUser = NewUser(
    email: string,
    password: string,
    phoneNumber: Option<string>,
    balance: Option<Decimal>,
    status: Option<Status>,
    pinHash: Option<string>,
    expiresAt: Option<int>)

  /**
   * The e-mail setters, `lowercase` then `trim`. Mongoose applies them both
   * to stored values and to the values of query filters.
   */
  function NormalizeEmail(e: string): string
  {
    Trim(LowerAscii(e))
  }

  /** Normalising a normalised e-mail changes nothing. */
  lemma NormalizeEmailIdempotent(e: string)
    ensures NormalizeEmail(NormalizeEmail(e)) == NormalizeEmail(e)
    ensures NormalizeEmail(LowerAscii(e)) == NormalizeEmail(e)
  {
    LowerAsciiIsLower(e);
    TrimKeepsLower(LowerAscii(e));
    LowerAsciiIsLower(NormalizeEmail(e));
    TrimIdempotent(LowerAscii(e));
    LowerAsciiIdempotent(e);
  }

  /** The schema's default balance, "0.00". */
  const DefaultBalance := Decimal(false, 0, 2)

  /**
   * Casting and validating a new document: the setters normalise the
   * e-mail, the defaults fill balance and status, and a required field left
   * empty is a validation error.
   */
  function ApplySchema(n: NewUser): (r: Result<User>)
    ensures r.Ok? <==> NormalizeEmail(n.email) != [] && n.password != []
    ensures r.Ok? ==> r.value.email == NormalizeEmail(n.email)
    ensures r.Ok? ==> r.value.balance == Some(if n.balance.Some? then n.balance.value else DefaultBalance)
    ensures r.Ok? ==> r.value.status == (if n.status.Some? then n.status.value else Inactive)
    ensures r.Ok? ==>
      (r.value.password, r.value.phoneNumber, r.value.pinHash, r.value.expiresAt)
      == (n.password, n.phoneNumber, n.pinHash, n.expiresAt)
  {
    var email := NormalizeEmail(n.email);
    if email == [] then Err("User validation failed: email: Path `email` is required.")
    else if n.password == [] then Err("User validation failed: password: Path `password` is required.")
    else
      Ok(User(email, n.password, n.phoneNumber,
              Some(match n.balance case Some(b) => b case None => DefaultBalance),
              match n.status case Some(s) => s case None => Inactive,
              n.pinHash, n.expiresAt))
  }

  /**
   * The invariant of the store: every id below the allocator; every e-mail
   * non-empty and normalised, every password present; the index maps each
   * stored e-mail to its one user and nothing else (so e-mails are unique);
   * every transfer record refers to existing users.
   */
  ghost predicate Consistent(users: map<UserId, User>, index: map<string, UserId>, log: seq<Tx>, nextId: UserId)
  {
    && (forall id :: id in users ==> id < nextId)
    && (forall id :: id in users ==> users[id].email != [] && users[id].password != [])
    && (forall id {:trigger NormalizeEmail(users[id].email)} :: id in users ==>
          NormalizeEmail(users[id].email) == users[id].email)
    && (forall id :: id in users ==> users[id].email in index && index[users[id].email] == id)
    && (forall e :: e in index ==> index[e] in users && users[index[e]].email == e)
    && (forall i :: 0 <= i < |log| ==> log[i].senderId in users && log[i].receiverId in users)
  }

  /** Inserting a valid user with a new e-mail under the next id keeps the invariant. */
  lemma InsertConsistent(users: map<UserId, User>, index: map<string, UserId>, log: seq<Tx>, nextId: UserId, u: User)
    requires Consistent(users, index, log, nextId)
    requires u.email != [] && u.password != [] && NormalizeEmail(u.email) == u.email && u.email !in index
    ensures Consistent(users[nextId := u], index[u.email := nextId], log, nextId + 1)
  {
    var users', index' := users[nextId := u], index[u.email := nextId];
    forall id | id in users' ensures users'[id].email in index' && index'[users'[id].email] == id {
      if id != nextId {
        assert users'[id] == users[id];
        assert users[id].email != u.email;
      }
    }
    forall e | e in index' ensures index'[e] in users' && users'[index'[e]].email == e {
      if e != u.email {
        assert index'[e] == index[e] != nextId;
      }
    }
  }

  /**
   * A change that keeps every user's e-mail and password and adds no user
   * keeps the invariant, whatever it appends to the log about existing users.
   */
  lemma UpdateConsistent(users: map<UserId, User>, index: map<string, UserId>, log: seq<Tx>, nextId: UserId,
                         users': map<UserId, User>, log': seq<Tx>)
    requires Consistent(users, index, log, nextId)
    requires users'.Keys == users.Keys
    requires forall id :: id in users ==> users'[id].email == users[id].email && users'[id].password == users[id].password
    requires forall i :: 0 <= i < |log'| ==> log'[i].senderId in users && log'[i].receiverId in users
    ensures Consistent(users', index, log', nextId)
  {
  }

  /** The id the unique index holds for the normalised query, if any. */
  function LookupEmail(index: map<string, UserId>, q: string): (r: Option<UserId>)
    ensures r.Some? ==> r.value in index.Values
  {
    var e := NormalizeEmail(q);
    if e in index then Some(index[e]) else None
  }

  /**
   * The lookup does not care whether the caller lower-cased or normalised
   * the query first, so the route's `email.toLowerCase()` and the schema's
   * setters on the query agree.
   */
  lemma LookupEmailNormalized(index: map<string, UserId>, q: string)
    ensures LookupEmail(index, LowerAscii(q)) == LookupEmail(index, q)
    ensures LookupEmail(index, NormalizeEmail(q)) == LookupEmail(index, q)
  {
    NormalizeEmailIdempotent(q);
  }

  /** Under the invariant, the index finds exactly the user holding the normalised e-mail. */
  lemma LookupEmailFinds(users: map<UserId, User>, index: map<string, UserId>, log: seq<Tx>, nextId: UserId, q: string)
    requires Consistent(users, index, log, nextId)
    ensures LookupEmail(index, q).Some? ==>
      var id := LookupEmail(index, q).value; id in users && users[id].email == NormalizeEmail(q)
    ensures LookupEmail(index, q).None? ==> forall id :: id in users ==> users[id].email != NormalizeEmail(q)
  {
  }

  /** The users collection, its unique index on e-mail, the transactions collection and the id allocator. */
  class Bank {
    var users: map<UserId, User>
    var emailIndex: map<string, UserId>
    var log: seq<Tx>
    var nextId: UserId

    ghost predicate Valid()
      reads this
    {
      Consistent(users, emailIndex, log, nextId)
    }

    /** Two users never share an e-mail. */
    lemma EmailsUnique(a: UserId, b: UserId)
      requires Valid() && a in users && b in users && users[a].email == users[b].email
      ensures a == b
    {
    }

    constructor ()
      ensures Valid() && users == map[] && emailIndex == map[] && log == [] && nextId == 0
    {
      users := map[];
      emailIndex := map[];
      log := [];
      nextId := 0;
    }

    /**
     * `findOne({ email: q })`: the user whose stored e-mail is the
     * normalised query, if there is one (there is at most one).
     */
    method FindByEmail(q: string) returns (r: Option<UserId>)
      requires Valid()
      ensures r == LookupEmail(emailIndex, q)
      ensures r.Some? ==> r.value in users && users[r.value].email == NormalizeEmail(q)
      ensures r.None? ==> forall id :: id in users ==> users[id].email != NormalizeEmail(q)
    {
      var e := NormalizeEmail(q);
      r := if e in emailIndex then Some(emailIndex[e]) else None;
    }

    /** `findById(id)`: the stored document, if there is one. */
    method FindById(id: UserId) returns (r: Option<User>)
      ensures id in users ==> r == Some(users[id])
      ensures id !in users ==> r == None
    {
      r := if id in users then Some(users[id]) else None;
    }

    /** Saving a document whose only modified path is `balance`. */
    method SetBalance(id: UserId, b: Decimal)
      requires Valid() && id in users
      modifies this
      ensures Valid()
      ensures users == old(users)[id := old(users)[id].(balance := Some(b))]
      ensures emailIndex == old(emailIndex) && log == old(log) && nextId == old(nextId)
    {
      UpdateConsistent(users, emailIndex, log, nextId, users[id := users[id].(balance := Some(b))], log);
      users := users[id := users[id].(balance := Some(b))];
    }

    /** Saving a document after activation: status active, both verification fields unset. */
    method SetActivated(id: UserId)
      requires Valid() && id in users
      modifies this
      ensures Valid()
      ensures users == old(users)[id := old(users)[id].(status := Active, pinHash := None, expiresAt := None)]
      ensures emailIndex == old(emailIndex) && log == old(log) && nextId == old(nextId)
    {
      var u := users[id].(status := Active, pinHash := None, expiresAt := None);
      UpdateConsistent(users, emailIndex, log, nextId, users[id := u], log);
      users := users[id := u];
    }

    /** `Transaction.create` of one record between two stored users. */
    method Append(tx: Tx)
      requires Valid() && tx.senderId in users && tx.receiverId in users
      modifies this
      ensures Valid()
      ensures log == old(log) + [tx]
      ensures users == old(users) && emailIndex == old(emailIndex) && nextId == old(nextId)
    {
      UpdateConsistent(users, emailIndex, log, nextId, users, log + [tx]);
      log := log + [tx];
    }

    /**
     * `User.create`: a validation error, or a duplicate-key error when the
     * normalised e-mail is taken, or a new user under a fresh id. Nothing
     * else changes.
     */
    method Create(n: NewUser) returns (r: Result<UserId>)
      requires Valid()
      modifies this
      ensures Valid() && log == old(log)
      ensures r.Ok? <==>
        && ApplySchema(n).Ok?
        && forall id :: id in old(users) ==> old(users)[id].email != NormalizeEmail(n.email)
      ensures ApplySchema(n).Err? ==> r == Err(ApplySchema(n).error)
      ensures r.Ok? ==>
        && r.value == old(nextId) && r.value !in old(users) && nextId == old(nextId) + 1
        && users == old(users)[r.value := ApplySchema(n).value]
      ensures r.Err? ==> users == old(users) && nextId == old(nextId)
    {
      var u := ApplySchema(n);
      if u.Err? {
        return Err(u.error);
      }
      var e := u.value.email;
      if e in emailIndex {
        assert users[emailIndex[e]].email == NormalizeEmail(n.email);
        return Err("E11000 duplicate key error collection: users index: email_1 dup key");
      }
      assert forall id :: id in users ==> users[id].email != e;
      NormalizeEmailIdempotent(n.email);
      InsertConsistent(users, emailIndex, log, nextId, u.value);
      users, emailIndex, nextId, r := users[nextId := u.value], emailIndex[e := nextId], nextId + 1, Ok(nextId);
    }
  }
}
