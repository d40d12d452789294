/**
 * backend/routes/account.js: reading the balance, transferring money between
 * two users inside one database transaction, and adjusting a balance. Each
 * handler is a method over the store; what it answers and how it leaves the
 * store is given by a function of the state before the request, and the
 * properties the handler promises are lemmas about that function.
 *
 * The database transaction of a transfer is modelled as it behaves: the
 * handler reads and computes on local values, and writes its two balances
 * and its record only once nothing can fail any more. A failure anywhere
 * inside the transaction (a thrown 400, or a fault of the database given by
 * the `fault` parameter) leaves the store as it was.
 */
module Account {
  import opened Strings
  import opened Money
  import opened Js
  import opened Http
  import opened Store
  import opened Middleware

  // ---------------------------------------------------------------------------
  // Reading stored balances
  // ---------------------------------------------------------------------------

  /**
   * `toDecimal128String`: "500.00" when the field is absent (a Decimal128
   * object is always truthy), otherwise the stored value's own string,
   * which reads back as exactly that value.
   */
  function BalanceString(b: Option<Decimal>): (r: string)
    ensures b.None? ==> r == "500.00"
    ensures b.Some? ==> ParsePlainDecimal(r) == b
  {
    if b.None? then "500.00" else DecimalToString(b)
  }

  /**
   * `parseFloat(b ? b.toString() : '0')`: the stored value, or 0 when the
   * field is absent. StoredNumberParses shows it is the number the stored
   * string denotes. A balance too large for a double, which `parseFloat`
   * reads as Infinity, is kept exact here.
   */
  function StoredNumber(b: Option<Decimal>): real
  {
    if b.Some? then b.value.Value() else 0.0
  }

  /** The number read from a stored balance is the number its string denotes (Infinity once too large), and 0 for none. */
  lemma StoredNumberParses(b: Option<Decimal>)
    ensures b.Some? ==> ParseNumber(b.value.ToString()) == NumberOf(StoredNumber(b))
    ensures b.Some? ==> StoredNumber(b) == b.value.Value()
    ensures b.None? ==> StoredNumber(b) == 0.0
  {
    if b.Some? {
      DecimalToNumberIsNumberOfString(b);
      assert DecimalToString(b) == b.value.ToString();
    }
  }

  // ---------------------------------------------------------------------------
  // GET /balance
  // ---------------------------------------------------------------------------

  /**
   * `GET /balance`: 401 without a user id or for an id no user has;
   * otherwise 200 with the stored balance's own string, or "500.00" for a
   * user without one.
   */
  method GetBalance(db: Bank, user: ReqUser) returns (r: Response)
    requires db.Valid()
    ensures UserIdOf(user).None? ==> r == Error(401, "Unauthorized - userId not found")
    ensures UserIdOf(user).Some? && UserIdOf(user).value !in db.users ==>
      r == Error(401, "Unauthorized - user not found")
    ensures UserIdOf(user).Some? && UserIdOf(user).value in db.users ==>
      && r.Json? && r.status == 200 && r.body.BalanceBody?
      && (db.users[UserIdOf(user).value].balance.None? ==> r.body.balance == "500.00")
      && (db.users[UserIdOf(user).value].balance.Some? ==>
            ParsePlainDecimal(r.body.balance) == db.users[UserIdOf(user).value].balance)
  {
    var userId := UserIdOf(user);
    if userId.None? {
      return Error(401, "Unauthorized - userId not found");
    }
    var found := db.FindById(userId.value);
    if found.None? {
      return Error(401, "Unauthorized - user not found");
    }
    r := Json(200, BalanceBody(BalanceString(found.value.balance)));
  }

  // ---------------------------------------------------------------------------
  // POST /transactions
  // ---------------------------------------------------------------------------

  /** The database calls inside the transfer's transaction, in the order they run. */
  datatype Step = FindSender | FindRecipient | SaveSender | SaveRecipient | CreateRecord

  /**
   * A database error thrown at one step, with the `status` and `message`
   * it carries (0 and "" for none), or no error at all.
   */
  datatype Fault = NoFault | Throws(at: Step, status: nat, message: string)

  predicate FaultAt(f: Fault, s: Step)
  {
    f.Throws? && f.at == s
  }

  /** A fault at one of the three writes, which run only after every check passed. */
  predicate FaultInWrites(f: Fault)
  {
    FaultAt(f, SaveSender) || FaultAt(f, SaveRecipient) || FaultAt(f, CreateRecord)
  }

  /**
   * The transfer's `catch`: status `err.status || 500`, body
   * `{ error: err.message || 'Transfer failed' }`.
   */
  function Thrown(status: nat, message: string): (r: Response)
    ensures r.Json? && r.body.ErrorBody?
    ensures r.status != 0 && r.body.error != []
  {
    Error(if status == 0 then 500 else status, if message == [] then "Transfer failed" else message)
  }

  /**
   * The body check: a truthy recipient e-mail that is a string matching
   * `/.+@.+\..+/`, and an amount whose `Number` is finite and positive.
   */
  predicate ValidTransferBody(email: JsValue, amt: Num)
  {
    && Truthy(email) && email.Str? && MatchesEmailPattern(email.s)
    && amt.Finite? && amt.v > 0.0
  }

  /**
   * `findOne({ email: recipientEmail.toLowerCase() })`: the user the
   * unique index names for the lower-cased, then normalised, e-mail.
   */
  function RecipientOf(users: map<UserId, User>, index: map<string, UserId>, email: string): (r: Option<UserId>)
    ensures r.Some? ==> r.value in users
  {
    match LookupEmail(index, LowerAscii(email))
    case Some(id) => if id in users then Some(id) else None
    case None => None
  }

  /** How a transfer ends: answered with an error, store untouched; or committed. */
  datatype TransferResult =
    | Rejected(response: Response)
    | Committed(users: map<UserId, User>, tx: Tx)

  /**
   * What `POST /transactions` does to a store with users `users` and
   * e-mail index `index`, for the amount `amt` = `Number(amount)`: the
   * checks before the transaction, then the transaction.
   */
  function TransferSpec(users: map<UserId, User>, index: map<string, UserId>, user: ReqUser,
                        email: JsValue, amt: Num, fault: Fault, now: int): TransferResult
  {
    if UserIdOf(user).None? then Rejected(Error(401, "Unauthorized"))
    else if !ValidTransferBody(email, amt) then Rejected(Error(400, "Invalid request body"))
    else InTransaction(users, index, UserIdOf(user).value, email.s, amt.v, fault, now)
  }

  /**
   * The body of `session.withTransaction`, step by step: find the sender,
   * find the recipient, check the balance, then write both balances and
   * the record. A thrown error at any point aborts it.
   */
  function InTransaction(users: map<UserId, User>, index: map<string, UserId>, sid: UserId,
                         email: string, amt: real, fault: Fault, now: int): TransferResult
  {
    if FaultAt(fault, FindSender) then Rejected(Thrown(fault.status, fault.message))
    else if sid !in users then Rejected(Thrown(400, "Sender not found"))
    else if FaultAt(fault, FindRecipient) then Rejected(Thrown(fault.status, fault.message))
    else match RecipientOf(users, index, email)
      case None => Rejected(Thrown(400, "Recipient not found"))
      case Some(rid) =>
        if StoredNumber(users[sid].balance) < amt then Rejected(Thrown(400, "Insufficient balance"))
        else if FaultInWrites(fault) then Rejected(Thrown(fault.status, fault.message))
        else Committed(Settle(users, sid, rid, amt), Tx(sid, rid, Quantize(amt, 2), now))
  }

  /**
   * The two saves: the sender's document with `(senderBal - amt).toFixed(2)`,
   * then the recipient's with `(recipientBal + amt).toFixed(2)`, both
   * balances read before either save.
   */
  function Settle(users: map<UserId, User>, sid: UserId, rid: UserId, amt: real): map<UserId, User>
    requires sid in users && rid in users
  {
    var newSender := Quantize(StoredNumber(users[sid].balance) - amt, 2);
    var newRecipient := Quantize(StoredNumber(users[rid].balance) + amt, 2);
    var afterSender := users[sid := users[sid].(balance := Some(newSender))];
    afterSender[rid := afterSender[rid].(balance := Some(newRecipient))]
  }

  /**
   * `POST /transactions`. Validation comes first; then, inside the
   * transaction, the sender by id, the recipient by lower-cased e-mail, the
   * balance check, and the three writes; the new balances are
   * `Decimal128.fromString((x).toFixed(2))`, which is Quantize(x, 2)
   * (FromStringToFixed). The recipient's new balance is computed from the
   * value read before the sender's document was saved, so when the sender
   * sends to their own e-mail the second save overwrites the first.
   */
  method Transfer(db: Bank, user: ReqUser, email: JsValue, amount: JsValue, fault: Fault, now: int)
    returns (r: Response)
    requires db.Valid()
    modifies db
    ensures db.Valid()
    ensures db.emailIndex == old(db.emailIndex) && db.nextId == old(db.nextId)
    ensures match TransferSpec(old(db.users), old(db.emailIndex), user, email, ToNumber(amount), fault, now)
      case Rejected(response) =>
        r == response && db.users == old(db.users) && db.log == old(db.log)
      case Committed(users', tx) =>
        && r == Json(200, MessageBody("Transfer successful"))
        && db.users == users' && db.log == old(db.log) + [tx]
  {
    var senderId := UserIdOf(user);
    if senderId.None? {
      return Error(401, "Unauthorized");
    }
    var amt := ToNumber(amount);
    if !Truthy(email) || !email.Str? || !MatchesEmailPattern(email.s) || amt.NonFinite? || amt.v <= 0.0 {
      return Error(400, "Invalid request body");
    }
    r := RunTransaction(db, senderId.value, email.s, amt.v, fault, now);
  }

  /** The transaction of a transfer: nothing is written until every step succeeded. */
  method RunTransaction(db: Bank, sid: UserId, email: string, amt: real, fault: Fault, now: int)
    returns (r: Response)
    requires db.Valid()
    modifies db
    ensures db.Valid()
    ensures db.emailIndex == old(db.emailIndex) && db.nextId == old(db.nextId)
    ensures match InTransaction(old(db.users), old(db.emailIndex), sid, email, amt, fault, now)
      case Rejected(response) =>
        r == response && db.users == old(db.users) && db.log == old(db.log)
      case Committed(users', tx) =>
        && r == Json(200, MessageBody("Transfer successful"))
        && db.users == users' && db.log == old(db.log) + [tx]
  {
    if FaultAt(fault, FindSender) {
      return Thrown(fault.status, fault.message);
    }
    var sender := db.FindById(sid);
    if sender.None? {
      return Thrown(400, "Sender not found");
    }
    if FaultAt(fault, FindRecipient) {
      return Thrown(fault.status, fault.message);
    }
    var recipientId := db.FindByEmail(LowerAscii(email));
    if recipientId.None? {
      return Thrown(400, "Recipient not found");
    }
    var rid := recipientId.value;
    var senderBal := StoredNumber(sender.value.balance);
    if senderBal < amt {
      return Thrown(400, "Insufficient balance");
    }
    if FaultInWrites(fault) {
      return Thrown(fault.status, fault.message);
    }
    Commit(db, sid, rid, amt, now);
    r := Json(200, MessageBody("Transfer successful"));
  }

  /**
   * The writes of a transfer that passed every check: both new balances
   * from the values read before either save, then the record.
   */
  method Commit(db: Bank, sid: UserId, rid: UserId, amt: real, now: int)
    requires db.Valid() && sid in db.users && rid in db.users
    modifies db
    ensures db.Valid()
    ensures db.users == Settle(old(db.users), sid, rid, amt)
    ensures db.log == old(db.log) + [Tx(sid, rid, Quantize(amt, 2), now)]
    ensures db.emailIndex == old(db.emailIndex) && db.nextId == old(db.nextId)
  {
    ghost var before := db.users;
    var newSenderBal := Quantize(StoredNumber(db.users[sid].balance) - amt, 2);
    var newRecipientBal := Quantize(StoredNumber(db.users[rid].balance) + amt, 2);
    db.SetBalance(sid, newSenderBal);
    ghost var afterSender := db.users;
    db.SetBalance(rid, newRecipientBal);
    assert db.users == afterSender[rid := afterSender[rid].(balance := Some(newRecipientBal))];
    assert db.users == Settle(before, sid, rid, amt);
    db.Append(Tx(sid, rid, Quantize(amt, 2), now));
  }

  // ---------------------------------------------------------------------------
  // Properties of a transfer
  // ---------------------------------------------------------------------------

  /**
   * Validation happens before the store is read: a request without a
   * sender id, or with an invalid body, gets the same answer whatever the
   * store holds and whatever the database would do.
   */
  lemma TransferValidatesFirst(users1: map<UserId, User>, index1: map<string, UserId>, fault1: Fault,
                               users2: map<UserId, User>, index2: map<string, UserId>, fault2: Fault,
                               user: ReqUser, email: JsValue, amt: Num, now: int)
    requires UserIdOf(user).None? || !ValidTransferBody(email, amt)
    ensures TransferSpec(users1, index1, user, email, amt, fault1, now)
         == TransferSpec(users2, index2, user, email, amt, fault2, now)
    ensures TransferSpec(users1, index1, user, email, amt, fault1, now)
         == Rejected(if UserIdOf(user).None? then Error(401, "Unauthorized") else Error(400, "Invalid request body"))
  {
  }

  /**
   * An amount too large for a double, such as "1e309", fails the body check
   * before the transaction starts, whatever the database holds.
   */
  lemma OverflowingTransferRefused(users: map<UserId, User>, index: map<string, UserId>, user: ReqUser,
                                   email: JsValue, fault: Fault, now: int)
    requires UserIdOf(user).Some?
    ensures TransferSpec(users, index, user, email, ToNumber(Str("1e309")), fault, now)
         == Rejected(Error(400, "Invalid request body"))
  {
    OverflowingNumeral();
  }

  /**
   * A transfer commits exactly when the body is valid, the sender exists,
   * a user holds the lower-cased e-mail, the sender's balance covers the
   * amount, and the database raises nothing; it then settles between the
   * sender and that user and logs their ids and the amount in cents.
   */
  lemma TransferCommitsIff(users: map<UserId, User>, index: map<string, UserId>, user: ReqUser,
                           email: JsValue, amt: Num, fault: Fault, now: int)
    ensures TransferSpec(users, index, user, email, amt, fault, now).Committed? <==>
      && UserIdOf(user).Some? && ValidTransferBody(email, amt) && fault == NoFault
      && UserIdOf(user).value in users
      && RecipientOf(users, index, email.s).Some?
      && StoredNumber(users[UserIdOf(user).value].balance) >= amt.v
    ensures TransferSpec(users, index, user, email, amt, fault, now).Committed? ==>
      var sid, rid := UserIdOf(user).value, RecipientOf(users, index, email.s).value;
      TransferSpec(users, index, user, email, amt, fault, now)
        == Committed(Settle(users, sid, rid, amt.v), Tx(sid, rid, Quantize(amt.v, 2), now))
  {
  }

  /**
   * Under the store's invariant the recipient is the one user whose stored
   * e-mail is the normalised requested one, and there is none exactly when
   * no user holds it.
   */
  lemma RecipientIsOwner(users: map<UserId, User>, index: map<string, UserId>, log: seq<Tx>, nextId: UserId,
                         email: string)
    requires Consistent(users, index, log, nextId)
    ensures RecipientOf(users, index, email).Some? ==>
      var rid := RecipientOf(users, index, email).value;
      && users[rid].email == NormalizeEmail(email)
      && forall id :: id in users && users[id].email == NormalizeEmail(email) ==> id == rid
    ensures RecipientOf(users, index, email).None? <==>
      forall id :: id in users ==> users[id].email != NormalizeEmail(email)
  {
    LookupEmailFinds(users, index, log, nextId, LowerAscii(email));
    NormalizeEmailIdempotent(email);
  }

  /** Settling between two stored users and logging their record keeps the invariant. */
  lemma SettleKeepsConsistent(users: map<UserId, User>, index: map<string, UserId>, log: seq<Tx>, nextId: UserId,
                              sid: UserId, rid: UserId, amt: real, tx: Tx)
    requires Consistent(users, index, log, nextId)
    requires sid in users && rid in users && tx.senderId == sid && tx.receiverId == rid
    ensures Consistent(Settle(users, sid, rid, amt), index, log + [tx], nextId)
  {
    SettleFrame(users, sid, rid, amt);
    UpdateConsistent(users, index, log, nextId, Settle(users, sid, rid, amt), log + [tx]);
  }

  /** Settling changes the balances of the two parties and nothing else. */
  lemma SettleFrame(users: map<UserId, User>, sid: UserId, rid: UserId, amt: real)
    requires sid in users && rid in users
    ensures var u' := Settle(users, sid, rid, amt);
      && u'.Keys == users.Keys
      && (forall id :: id in users && id != sid && id != rid ==> u'[id] == users[id])
      && (forall id :: id in users ==> u'[id] == users[id].(balance := u'[id].balance))
  {
  }

  /** A sender whose balance covers a positive amount is never left negative. */
  lemma SettleSenderNotNegative(users: map<UserId, User>, sid: UserId, rid: UserId, amt: real)
    requires sid in users && rid in users
    requires amt > 0.0 && StoredNumber(users[sid].balance) >= amt
    ensures var b := Settle(users, sid, rid, amt)[sid].balance;
      b.Some? && !b.value.negative && b.value.Value() >= 0.0
  {
    var b := Settle(users, sid, rid, amt)[sid].balance.value;
    if sid == rid {
      assert b == Quantize(StoredNumber(users[sid].balance) + amt, 2);
    } else {
      assert b == Quantize(StoredNumber(users[sid].balance) - amt, 2);
    }
    assert !b.negative;
    ScaledNotNegative(b.magnitude, b.scale);
  }

  lemma ScaledNotNegative(m: nat, f: nat)
    ensures Scaled(m, f) >= 0.0
  {
    assert Pow10(f) as real > 0.0;
  }

  /** A value that is a whole number of cents. */
  predicate IsCents(x: real)
  {
    (x * 100.0).Floor as real == x * 100.0
  }

  /** A whole-cent value is its own two-digit quantisation. */
  lemma QuantizeCents(x: real)
    requires IsCents(x)
    ensures Quantize(x, 2).Value() == x
  {
    var k := (x * 100.0).Floor;
    assert x == k as real / 100.0;
    WholeCentsQuantized(k);
  }

  /** Whole cents are closed under sums and differences. */
  lemma CentsArithmetic(a: real, b: real)
    requires IsCents(a) && IsCents(b)
    ensures IsCents(a - b) && IsCents(a + b)
  {
    var ka, kb := (a * 100.0).Floor, (b * 100.0).Floor;
    var d, s := ka - kb, ka + kb;
    assert (a - b) * 100.0 == d as real;
    assert (a + b) * 100.0 == s as real;
    assert (d as real).Floor == d;
    assert (s as real).Floor == s;
  }

  /**
   * Between two different users with whole-cent balances, a whole-cent
   * amount moves exactly: the sender loses it, the recipient gains it, and
   * their sum is conserved.
   */
  lemma SettleConserves(users: map<UserId, User>, sid: UserId, rid: UserId, amt: real)
    requires sid in users && rid in users && sid != rid
    requires IsCents(StoredNumber(users[sid].balance)) && IsCents(StoredNumber(users[rid].balance)) && IsCents(amt)
    ensures var u' := Settle(users, sid, rid, amt);
      && StoredNumber(u'[sid].balance) == StoredNumber(users[sid].balance) - amt
      && StoredNumber(u'[rid].balance) == StoredNumber(users[rid].balance) + amt
      && StoredNumber(u'[sid].balance) + StoredNumber(u'[rid].balance)
         == StoredNumber(users[sid].balance) + StoredNumber(users[rid].balance)
      && Quantize(amt, 2).Value() == amt
  {
    var u' := Settle(users, sid, rid, amt);
    var sb, rb := StoredNumber(users[sid].balance), StoredNumber(users[rid].balance);
    CentsArithmetic(sb, amt);
    CentsArithmetic(rb, amt);
    QuantizeCents(sb - amt);
    QuantizeCents(rb + amt);
    QuantizeCents(amt);
    assert u'[sid].balance == Some(Quantize(sb - amt, 2));
    assert u'[rid].balance == Some(Quantize(rb + amt, 2));
  }

  /** Sending one's whole balance to someone else leaves exactly "0.00". */
  lemma SettleExactBalance(users: map<UserId, User>, sid: UserId, rid: UserId, amt: real)
    requires sid in users && rid in users && sid != rid
    requires StoredNumber(users[sid].balance) == amt
    ensures Settle(users, sid, rid, amt)[sid].balance == Some(Decimal(false, 0, 2))
    ensures Decimal(false, 0, 2).ToString() == "0.00"
  {
    assert RoundedMagnitude(0.0, 2) == 0;
    ZeroString();
  }

  /**
   * Sending to one's own e-mail: the recipient's save, computed from the
   * balance read before the sender's, wins, so the balance ends at the old
   * one plus the amount.
   */
  lemma SettleToSelf(users: map<UserId, User>, sid: UserId, amt: real)
    requires sid in users
    ensures Settle(users, sid, sid, amt)
         == users[sid := users[sid].(balance := Some(Quantize(StoredNumber(users[sid].balance) + amt, 2)))]
  {
  }

  /**
   * An amount below half a cent passes the `> 0` check, and is logged as
   * "0.00"; between whole-cent balances it moves nothing at all.
   */
  lemma TinyAmount(users: map<UserId, User>, sid: UserId, rid: UserId, amt: real)
    requires sid in users && rid in users && sid != rid
    requires 0.0 < amt < 0.005
    requires IsCents(StoredNumber(users[sid].balance)) && IsCents(StoredNumber(users[rid].balance))
    requires StoredNumber(users[sid].balance) >= amt
    ensures Quantize(amt, 2) == Decimal(false, 0, 2)
    ensures var u' := Settle(users, sid, rid, amt);
      && StoredNumber(u'[sid].balance) == StoredNumber(users[sid].balance)
      && StoredNumber(u'[rid].balance) == StoredNumber(users[rid].balance)
  {
    assert Abs(amt) * 100.0 < 0.5;
    var u' := Settle(users, sid, rid, amt);
    var sb, rb := StoredNumber(users[sid].balance), StoredNumber(users[rid].balance);
    QuantizeNear(sb, sb - amt);
    QuantizeNear(rb, rb + amt);
    assert u'[sid].balance == Some(Quantize(sb - amt, 2));
    assert u'[rid].balance == Some(Quantize(rb + amt, 2));
  }

  /**
   * Off whole cents a sub-cent transfer can lose money: after an
   * adjustment leaves 100.005, sending 0.004 to a user holding 50.00 stores
   * 100.00 and 50.00, so half a cent disappears from the two balances.
   */
  lemma SubCentCanVanish(users: map<UserId, User>, sid: UserId, rid: UserId)
    requires sid in users && rid in users && sid != rid
    requires users[sid].balance == Some(Decimal(false, 100005, 3))
    requires users[rid].balance == Some(Decimal(false, 5000, 2))
    ensures StoredNumber(users[sid].balance) >= 0.004
    ensures var u' := Settle(users, sid, rid, 0.004);
      && u'[sid].balance == Some(Decimal(false, 10000, 2))
      && u'[rid].balance == Some(Decimal(false, 5000, 2))
      && StoredNumber(u'[sid].balance) + StoredNumber(u'[rid].balance)
         == StoredNumber(users[sid].balance) + StoredNumber(users[rid].balance) - 0.005
  {
    assert Pow10(2) == 100 && Pow10(3) == 1000;
    assert StoredNumber(users[sid].balance) == 100.005 by {
      assert Scaled(100005, 3) == 100005.0 / 1000.0;
    }
    assert StoredNumber(users[rid].balance) == 50.0 by {
      assert Scaled(5000, 2) == 5000.0 / 100.0;
    }
    assert RoundedMagnitude(100.005 - 0.004, 2) == 10000 by {
      assert Abs(100.005 - 0.004) * 100.0 + 0.5 == 10000.6;
    }
    assert RoundedMagnitude(50.0 + 0.004, 2) == 5000 by {
      assert Abs(50.0 + 0.004) * 100.0 + 0.5 == 5000.9;
    }
    var u' := Settle(users, sid, rid, 0.004);
    assert u'[sid].balance == Some(Decimal(false, 10000, 2));
    assert u'[rid].balance == Some(Decimal(false, 5000, 2));
    assert StoredNumber(u'[sid].balance) == 100.0 by {
      assert Scaled(10000, 2) == 10000.0 / 100.0;
    }
    assert StoredNumber(u'[rid].balance) == 50.0 by {
      assert Scaled(5000, 2) == 5000.0 / 100.0;
    }
  }

  /** A value within less than half a cent of a whole-cent value is quantised to it. */
  lemma QuantizeNear(c: real, x: real)
    requires IsCents(c)
    requires c - 0.005 < x < c + 0.005
    ensures Quantize(x, 2).Value() == c
  {
    var k := (c * 100.0).Floor;
    assert Pow10(2) == 100;
    var m := RoundedMagnitude(x, 2);
    if x < 0.0 {
      assert m == -k;
    } else {
      assert m == k;
    }
    CentsValue(Quantize(x, 2));
  }

  /**
   * A database error anywhere in the transaction rejects the transfer; one
   * from the first lookup answers with the error's status and message, or
   * 500 and "Transfer failed" when it carries none.
   */
  lemma TransferFaultAnswers(users: map<UserId, User>, index: map<string, UserId>, user: ReqUser,
                             email: JsValue, amt: Num, fault: Fault, now: int)
    requires fault.Throws?
    ensures !TransferSpec(users, index, user, email, amt, fault, now).Committed?
    ensures UserIdOf(user).Some? && ValidTransferBody(email, amt) && fault.at == FindSender ==>
      TransferSpec(users, index, user, email, amt, fault, now)
        == Rejected(Error(if fault.status == 0 then 500 else fault.status,
                          if fault.message == [] then "Transfer failed" else fault.message))
  {
  }

  // ---------------------------------------------------------------------------
  // POST /update-balance
  // ---------------------------------------------------------------------------

  /**
   * `Decimal128.fromString((current + delta).toFixed(3))`: the sum rounded
   * to three digits, with no lower bound.
   */
  function AdjustedBalance(b: Option<Decimal>, delta: real): Decimal
  {
    Quantize(StoredNumber(b) + delta, 3)
  }

  /** How a balance adjustment ends: an error, or one user's new balance. */
  datatype AdjustResult = Refused(response: Response) | Adjusted(id: UserId, balance: Decimal)

  /**
   * What `POST /update-balance` does for the amount `delta` =
   * `Number(amount)`, step by step as the handler runs.
   */
  function AdjustSpec(users: map<UserId, User>, user: ReqUser, delta: Num): AdjustResult
  {
    if UserIdOf(user).None? then Refused(Error(401, "Unauthorized - userId not found"))
    else if delta.NonFinite? then Refused(Error(400, "Invalid amount"))
    else if UserIdOf(user).value !in users then Refused(Error(401, "Unauthorized - user not found"))
    else
      var id := UserIdOf(user).value;
      Adjusted(id, AdjustedBalance(users[id].balance, delta.v))
  }

  /**
   * `POST /update-balance`: on success only that user's balance changes, to
   * AdjustedBalance, and the answer carries the new balance's string; no
   * record is logged.
   */
  method UpdateBalance(db: Bank, user: ReqUser, amount: JsValue) returns (r: Response)
    requires db.Valid()
    modifies db
    ensures db.Valid()
    ensures db.log == old(db.log) && db.emailIndex == old(db.emailIndex) && db.nextId == old(db.nextId)
    ensures match AdjustSpec(old(db.users), user, ToNumber(amount))
      case Refused(response) => r == response && db.users == old(db.users)
      case Adjusted(id, b) =>
        && db.users == old(db.users)[id := old(db.users)[id].(balance := Some(b))]
        && r == Json(200, UpdatedBody("Balance updated", BalanceString(Some(b))))
  {
    var userId := UserIdOf(user);
    if userId.None? {
      return Error(401, "Unauthorized - userId not found");
    }
    var delta := ToNumber(amount);
    if delta.NonFinite? {
      return Error(400, "Invalid amount");
    }
    var found := db.FindById(userId.value);
    if found.None? {
      return Error(401, "Unauthorized - user not found");
    }
    var current := StoredNumber(found.value.balance);
    var newBalance := Quantize(current + delta.v, 3);
    assert newBalance == AdjustedBalance(db.users[userId.value].balance, delta.v);
    assert AdjustSpec(db.users, user, delta) == Adjusted(userId.value, newBalance);
    db.SetBalance(userId.value, newBalance);
    r := Json(200, UpdatedBody("Balance updated", BalanceString(Some(newBalance))));
  }

  /**
   * An adjustment succeeds exactly when there is a user id, the amount is
   * a finite number and the user exists: there is no insufficient-funds
   * check. The amount is checked before the user is looked up.
   */
  lemma AdjustSucceedsIff(users: map<UserId, User>, user: ReqUser, delta: Num)
    ensures AdjustSpec(users, user, delta).Adjusted? <==>
      UserIdOf(user).Some? && delta.Finite? && UserIdOf(user).value in users
    ensures UserIdOf(user).Some? && delta.NonFinite? ==>
      AdjustSpec(users, user, delta) == Refused(Error(400, "Invalid amount"))
  {
  }

  /**
   * The new balance has three fractional digits and is within half a
   * thousandth of the exact sum, whatever its sign.
   */
  lemma AdjustedBalanceIsRounded(b: Option<Decimal>, delta: real)
    ensures AdjustedBalance(b, delta).scale == 3
    ensures Abs(AdjustedBalance(b, delta).Value() - (StoredNumber(b) + delta)) <= 0.0005
  {
    QuantizeError(StoredNumber(b) + delta, 3);
    assert Pow10(3) == 1000;
  }

  /**
   * An amount too large for a double, such as "1e309", is Infinity to
   * `Number`, so `isFinite` refuses it before the user is looked up.
   */
  lemma OverflowingAdjustRefused(users: map<UserId, User>, user: ReqUser)
    requires UserIdOf(user).Some?
    ensures AdjustSpec(users, user, ToNumber(Str("1e309"))) == Refused(Error(400, "Invalid amount"))
  {
    OverflowingNumeral();
    assert ToNumber(Str("1e309")) == NonFinite;
  }

  /** With no lower bound, a large negative amount leaves a negative balance. */
  lemma AdjustCanGoNegative(b: Option<Decimal>, delta: real)
    requires StoredNumber(b) + delta <= -0.0005
    ensures AdjustedBalance(b, delta).negative
    ensures AdjustedBalance(b, delta).Value() < 0.0
  {
    var x := StoredNumber(b) + delta;
    var d := AdjustedBalance(b, delta);
    assert Pow10(3) == 1000;
    assert Abs(x) * 1000.0 >= 0.5;
    assert d.magnitude >= 1;
    assert Scaled(d.magnitude, 3) > 0.0;
  }
}
