/**
 * The `users` table of backend/setup_db.py as an in-memory store: rows keyed
 * by email, a `SERIAL` counter for ids, and the constraints `email NOT NULL
 * UNIQUE` and `password NOT NULL` that the database enforces on INSERT.
 */
module Users {
  import opened Wrappers

  /** One row of `users`; the password is kept exactly as supplied. */
  datatype User = User(id: nat, email: string, password: string, profilePic: Option<string>)

  /** The table constraint an INSERT can violate, in the order the database checks them. */
  datatype Constraint = EmailNotNull | PasswordNotNull | EmailUnique

  /**
   * What executing the INSERT raises: a constraint violation (`IntegrityError`),
   * a parameter the driver refuses to send because it holds a NUL character,
   * the `SERIAL` sequence running past its largest value, or any other
   * database failure.
   */
  datatype DbError = IntegrityError(violated: Constraint) | NulCharacter | SequenceExhausted | OperationalError

  /** The largest id a `SERIAL` (4-byte integer) column hands out. */
  const MaxId: nat := 2147483647

  /** A present text parameter that holds a NUL character, which the driver refuses. */
  predicate HasNul(v: Option<string>)
  {
    v.Some? && '\0' in v.value
  }

  /** The committed contents of the table: rows by email and the next `SERIAL` value. */
  datatype Store = Store(rows: map<string, User>, nextId: nat)

  /** The result of one INSERT: the committed store afterwards and the id or error. */
  datatype Outcome = Outcome(store: Store, result: Result<nat, DbError>)

  /**
   * The table's invariant: rows sit under their own email and have distinct
   * ids below the counter, which never passes the sequence's end.
   */
  predicate WellFormed(s: Store)
  {
    1 <= s.nextId <= MaxId + 1 &&
    (forall e :: e in s.rows ==> s.rows[e].email == e && 1 <= s.rows[e].id < s.nextId) &&
    (forall e1, e2 :: e1 in s.rows && e2 in s.rows && e1 != e2 ==> s.rows[e1].id != s.rows[e2].id)
  }

  /** The empty table as created by the schema script. */
  const Empty := Store(map[], 1)

  /** The first constraint that inserting `email`, `password` would violate, if any. */
  function Violation(s: Store, email: Option<string>, password: Option<string>): (c: Option<Constraint>)
    ensures c.None? <==> email.Some? && password.Some? && email.value !in s.rows
    ensures c == Some(EmailUnique) <==> email.Some? && password.Some? && email.value in s.rows
  {
    if email.None? then Some(EmailNotNull)
    else if password.None? then Some(PasswordNotNull)
    else if email.value in s.rows then Some(EmailUnique)
    else None
  }

  /**
   * `INSERT INTO users ... RETURNING id` followed by `commit`. The driver
   * refuses a NUL character before sending anything; `fault` stands for a
   * failure of the database itself; the next id is drawn before the
   * constraints are checked. A failed statement commits nothing.
   */
  function InsertUser(s: Store, email: Option<string>, password: Option<string>, pic: Option<string>, fault: bool): (o: Outcome)
    ensures o.result.Failure? ==> o.store == s
    ensures o.result.Success? ==> o.result.value <= MaxId
    ensures HasNul(email) || HasNul(password) || HasNul(pic) ==> o.result == Failure(NulCharacter)
  {
    if HasNul(email) || HasNul(password) || HasNul(pic) then Outcome(s, Failure(NulCharacter))
    else if fault then Outcome(s, Failure(OperationalError))
    else if s.nextId > MaxId then Outcome(s, Failure(SequenceExhausted))
    else match Violation(s, email, password)
      case Some(c) => Outcome(s, Failure(IntegrityError(c)))
      case None =>
        Outcome(Store(s.rows[email.value := User(s.nextId, email.value, password.value, pic)], s.nextId + 1),
                Success(s.nextId))
  }

  /** Every insert, successful or not, keeps the table well formed. */
  lemma InsertPreservesWellFormed(s: Store, email: Option<string>, password: Option<string>, pic: Option<string>, fault: bool)
    requires WellFormed(s)
    ensures WellFormed(InsertUser(s, email, password, pic, fault).store)
  {
    var o := InsertUser(s, email, password, pic, fault);
    if o.result.Success? {
      var r := o.store.rows;
      forall e1, e2 | e1 in r && e2 in r && e1 != e2 ensures r[e1].id != r[e2].id {
        if e1 != email.value && e2 != email.value {
          assert r[e1] == s.rows[e1] && r[e2] == s.rows[e2];
        }
      }
    }
  }

  /**
   * An insert succeeds exactly when no value holds a NUL character, the
   * database does not fail, ids are not used up, both values are present and
   * the email is new; it then adds one row holding the values as
   * supplied under an id no existing row has, and leaves every other row alone.
   */
  lemma InsertSucceeds(s: Store, email: Option<string>, password: Option<string>, pic: Option<string>, fault: bool)
    requires WellFormed(s)
    ensures var o := InsertUser(s, email, password, pic, fault);
      o.result.Success? <==>
        !fault && !HasNul(email) && !HasNul(password) && !HasNul(pic) && s.nextId <= MaxId &&
        email.Some? && password.Some? && email.value !in s.rows
    ensures var o := InsertUser(s, email, password, pic, fault);
      o.result.Success? ==>
        (forall e :: e in s.rows ==> s.rows[e].id != o.result.value) &&
        o.store.rows.Keys == s.rows.Keys + {email.value} &&
        o.store.rows[email.value] == User(o.result.value, email.value, password.value, pic) &&
        (forall e :: e in s.rows ==> o.store.rows[e] == s.rows[e])
  {
  }

  /**
   * Inserting an email that is already stored fails and leaves the table as
   * it was; the failure is an integrity error unless an earlier check fails.
   */
  lemma DuplicateEmailRejected(s: Store, email: string, password: Option<string>, pic: Option<string>, fault: bool)
    requires email in s.rows
    ensures var o := InsertUser(s, Some(email), password, pic, fault);
      o.store == s && o.result.Failure? &&
      (!fault && !HasNul(Some(email)) && !HasNul(password) && !HasNul(pic) && s.nextId <= MaxId ==>
         o.result.error.IntegrityError?)
  {
  }

  /**
   * A missing email or password fails and stores nothing; the failure is a
   * NOT NULL integrity error unless an earlier check fails.
   */
  lemma MissingValueRejected(s: Store, email: Option<string>, password: Option<string>, pic: Option<string>, fault: bool)
    requires email.None? || password.None?
    ensures var o := InsertUser(s, email, password, pic, fault);
      o.store == s && o.result.Failure? &&
      (!fault && !HasNul(email) && !HasNul(password) && !HasNul(pic) && s.nextId <= MaxId ==>
         o.result.error.IntegrityError? && o.result.error.violated != EmailUnique)
  {
  }

  /** The table as the database holds it, updated in place by each committed INSERT. */
  class UsersTable {
    var rows: map<string, User>
    var nextId: nat

    /** The committed contents as a value. */
    function State(): Store
      reads this
    {
      Store(rows, nextId)
    }

    ghost predicate Valid()
      reads this
    {
      WellFormed(State())
    }

    /** A freshly created, empty table. */
    constructor ()
      ensures Valid() && State() == Empty
    {
      rows := map[];
      nextId := 1;
    }

    /** Executes the INSERT and commits it when it succeeds; a failure commits nothing. */
    method Insert(email: Option<string>, password: Option<string>, pic: Option<string>, fault: bool)
      returns (result: Result<nat, DbError>)
      requires Valid()
      modifies this
      ensures Valid()
      ensures Outcome(State(), result) == InsertUser(old(State()), email, password, pic, fault)
      ensures result.Failure? ==> rows == old(rows) && nextId == old(nextId)
    {
      InsertPreservesWellFormed(State(), email, password, pic, fault);
      if HasNul(email) || HasNul(password) || HasNul(pic) {
        return Failure(NulCharacter);
      }
      if fault {
        return Failure(OperationalError);
      }
      if nextId > MaxId {
        return Failure(SequenceExhausted);
      }
      var violated := Violation(State(), email, password);
      if violated.Some? {
        return Failure(IntegrityError(violated.value));
      }
      var id := nextId;
      rows := rows[email.value := User(id, email.value, password.value, pic)];
      nextId := nextId + 1;
      result := Success(id);
    }
  }
}
