/**
 * The `POST /api/register` handler of backend/app.py: read `email` and
 * `password` from the JSON body, choose a profile picture, INSERT the user
 * and map the outcome to an HTTP status and JSON message.
 */
module Register {
  import opened Wrappers
  import opened Uploads
  import opened ProfilePics
  import opened Users

  /** An HTTP reply: status code, the `message` field and, on success, `user_id`. */
  datatype Response = Response(status: nat, message: string, userId: Option<nat>)

  const Registered := "User registered successfully"
  const EmailExists := "Email already exists"
  const ErrorOccurred := "An error occurred"

  /**
   * The reply for the outcome of the INSERT: 201 with the new id on success,
   * 409 for every integrity error, 500 for any other failure.
   */
  function Respond(result: Result<nat, DbError>): (resp: Response)
    ensures resp.status == 201 <==> result.Success?
    ensures resp.status == 201 ==> resp.userId == Some(result.value) && resp.message == Registered
    ensures resp.status == 409 <==> result.Failure? && result.error.IntegrityError?
    ensures resp.status == 409 ==> resp.userId == None && resp.message == EmailExists
    ensures resp.status == 500 <==> result.Failure? && !result.error.IntegrityError?
    ensures resp.status == 500 ==> resp.userId == None && resp.message == ErrorOccurred
  {
    match result
    case Success(id) => Response(201, Registered, Some(id))
    case Failure(IntegrityError(_)) => Response(409, EmailExists, None)
    case Failure(_) => Response(500, ErrorOccurred, None)
  }

  /**
   * `register`: `email` and `password` are the body's fields (`None` when
   * missing or null), `listing` is the profile-picture directory and `fault`
   * says whether the database fails for a reason other than a constraint.
   * `pic` is the picture that was chosen.
   */
  method Register(db: UsersTable, email: Option<string>, password: Option<string>, listing: seq<string>, fault: bool)
    returns (resp: Response, ghost pic: Option<string>)
    requires db.Valid()
    modifies db
    ensures db.Valid()
    ensures IsPictureChoice(listing, pic)
    ensures db.State() == InsertUser(old(db.State()), email, password, pic, fault).store
    ensures resp == Respond(InsertUser(old(db.State()), email, password, pic, fault).result)
    ensures resp.status != 201 ==> db.rows == old(db.rows) && db.nextId == old(db.nextId)
  {
    var chosen := GetRandomProfilePic(listing);
    pic := chosen;
    var result := db.Insert(email, password, chosen, fault);
    resp := Respond(result);
  }

  /**
   * The status of a registration against a well-formed table: 201 exactly
   * when both fields are present, the email is new and nothing else fails;
   * 500 exactly when a value holds a NUL character, the database fails or
   * ids are used up; 409 otherwise, which covers a taken email and a missing
   * email or password alike. Only a 201 changes the table, and then only by
   * the new user's row.
   */
  lemma RegisterStatus(s: Store, email: Option<string>, password: Option<string>, pic: Option<string>, fault: bool)
    requires WellFormed(s)
    ensures var o := InsertUser(s, email, password, pic, fault); var resp := Respond(o.result);
      var reachesConstraints := !HasNul(email) && !HasNul(password) && !HasNul(pic) && !fault && s.nextId <= MaxId;
      (resp.status == 201 <==> reachesConstraints && email.Some? && password.Some? && email.value !in s.rows) &&
      (resp.status == 409 <==> reachesConstraints && (email.None? || password.None? || email.value in s.rows)) &&
      (resp.status == 500 <==> !reachesConstraints) &&
      (resp.status != 201 ==> o.store == s) &&
      (resp.status == 201 ==> o.store.rows == s.rows[email.value := User(resp.userId.value, email.value, password.value, pic)])
  {
    InsertSucceeds(s, email, password, pic, fault);
  }

  /**
   * Two registrations with the same new email: the first gets 201 when its
   * values hold no NUL character and ids remain; after a 201 the second
   * attempt leaves the table, and so the first user's row, as the first left
   * it, and gets 409 when its own values hold no NUL and an id is left to draw.
   */
  lemma RegisterTwice(s: Store, email: string, p1: string, p2: Option<string>,
                                         pic1: Option<string>, pic2: Option<string>)
    requires WellFormed(s) && email !in s.rows
    ensures var o1 := InsertUser(s, Some(email), Some(p1), pic1, false);
      !HasNul(Some(email)) && !HasNul(Some(p1)) && !HasNul(pic1) && s.nextId <= MaxId ==>
        Respond(o1.result).status == 201
    ensures var o1 := InsertUser(s, Some(email), Some(p1), pic1, false);
      var o2 := InsertUser(o1.store, Some(email), p2, pic2, false);
      Respond(o1.result).status == 201 ==>
        o2.store == o1.store && o2.store.rows[email] == User(o1.result.value, email, p1, pic1) &&
        (!HasNul(p2) && !HasNul(pic2) && s.nextId < MaxId ==> Respond(o2.result).status == 409)
  {
    InsertSucceeds(s, Some(email), Some(p1), pic1, false);
    var o1 := InsertUser(s, Some(email), Some(p1), pic1, false);
    if o1.result.Success? {
      DuplicateEmailRejected(o1.store, email, p2, pic2, false);
    }
  }

  /** An email holding a NUL character is refused by the driver: 500, and nothing is stored. */
  lemma NulEmailRefused(s: Store)
    ensures var o := InsertUser(s, Some("a\0b"), Some("pw"), None, false);
      Respond(o.result).status == 500 && o.store == s
  {
    assert "a\0b"[1] == '\0';
  }
}
