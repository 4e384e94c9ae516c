/**
 * AuthService: sign-up with a duplicate-email pre-check, sign-in that
 * answers an unknown email and a wrong password alike, and the sign-in
 * token over {userId, email}. Hashing and token signing are abstracted.
 */
module Auth {
  import opened Wrappers
  import Roles
  import opened Passwords
  import opened UserErrors
  import opened UserStore
  import opened Users
  import opened Collation

  /** The payload createSignInToken signs. */
  datatype Claims = Claims(userId: Id, email: string)

  /** A signed token, modelled by the claims it carries. */
  datatype Token = Jwt(claims: Claims)

  /** AuthResult: the user and the token handed back to the caller. */
  datatype AuthResult = AuthResult(user: User, token: Token)

  /**
   * The failures of the credential flow: bad credentials (401), an email
   * already registered (409), and a write the database refuses, which the
   * service does not catch (500).
   */
  datatype AuthError = InvalidCredentials | EmailAlreadyExists(email: string) | StorageFailure

  const InvalidCredentialsMessage: string := "Invalid credentials provided"

  /** The conflict message checkDuplicateEmail raises, as written. */
  function DuplicateEmailMessageAsWritten(email: string): string {
    "Email already in use."
  }

  /**
   * The message written does not match the one the email-exists error and
   * the sign-up tests state for any email: it cannot name the email.
   */
  lemma DuplicateEmailMessageOmitsEmail(email: string)
    ensures DuplicateEmailMessageAsWritten(email) != Message(EmailInUse(email))
    ensures Between(DuplicateEmailMessageAsWritten(email), EmailPrefix, EmailSuffix).None?
  {
    assert |DuplicateEmailMessageAsWritten(email)| == 21;
    assert |Message(EmailInUse(email))| == 24 + |email|;
  }

  /** The message of each credential error; a conflict names the email. */
  function ErrorMessage(e: AuthError): (m: string)
    ensures e.EmailAlreadyExists? ==> m == Message(EmailInUse(e.email))
    ensures e.EmailAlreadyExists? ==> Between(m, EmailPrefix, EmailSuffix) == Some(e.email)
    ensures e.InvalidCredentials? ==> m == InvalidCredentialsMessage
  {
    match e
    case InvalidCredentials => InvalidCredentialsMessage
    case EmailAlreadyExists(email) => Message(EmailInUse(email))
    case StorageFailure => "Internal server error"
  }

  /** The HTTP status each credential error reaches the client with. */
  function Status(e: AuthError): (code: int)
    ensures code == 401 <==> e.InvalidCredentials?
    ensures code == 409 <==> e.EmailAlreadyExists?
    ensures code == 500 <==> e.StorageFailure?
  {
    match e
    case InvalidCredentials => 401
    case EmailAlreadyExists(_) => 409
    case StorageFailure => 500
  }

  /** createSignInToken: a token whose claims are exactly {userId, email}. */
  function CreateSignInToken(userId: Id, email: string): (t: Token)
    ensures t.claims.userId == userId && t.claims.email == email
  {
    Jwt(Claims(userId, email))
  }

  /**
   * signIn after its lookup: success exactly when the email is registered
   * and the password verifies against the stored hash; every failure is
   * the same InvalidCredentials error.
   */
  function SignInCheck(found: Option<User>, password: string): (r: Result<AuthResult, AuthError>)
    ensures r.Success? <==> found.Some? && Verify(found.value.password, password)
    ensures r.Failure? ==> r.error == InvalidCredentials && ErrorMessage(r.error) == "Invalid credentials provided"
    ensures r.Success? ==> r.value.user == found.value && r.value.token.claims == Claims(found.value.id, found.value.email)
  {
    if found.None? then Failure(InvalidCredentials)
    else if !Verify(found.value.password, password) then Failure(InvalidCredentials)
    else Success(AuthResult(found.value, CreateSignInToken(found.value.id, found.value.email)))
  }

  /** An unknown email and a wrong password give one and the same answer. */
  lemma SignInFailuresIndistinguishable(u: User, wrong: string, password: string)
    requires !Verify(u.password, wrong)
    ensures SignInCheck(None, password) == SignInCheck(Some(u), wrong)
  {
  }

  /**
   * After a sign-up with a fresh email, signing in with the same password
   * succeeds with a token naming the new id, a wrong password fails with
   * InvalidCredentials, and the email is no longer free for sign-up.
   */
  lemma {:induction false} SignUpThenSignIn(users: map<Id, User>, order: seq<Id>, id: Id, name: string,
                                            email: string, password: string, salt: nat, role: Roles.Role, wrong: string)
    requires Consistent(users, order)
    requires Key(id) !in users && !EmailTaken(users, email)
    requires wrong != password
    ensures var u := User(id, name, email, Hash(password, salt), role);
      && Consistent(users[Key(id) := u], [Key(id)] + order)
      && EmailTaken(users[Key(id) := u], email)
      && SignInCheck(OwnerOf(users[Key(id) := u], email), password) == Success(AuthResult(u, Jwt(Claims(id, email))))
      && SignInCheck(OwnerOf(users[Key(id) := u], email), wrong) == Failure(InvalidCredentials)
  {
    var u := User(id, name, email, Hash(password, salt), role);
    var after := users[Key(id) := u];
    assert after[Key(id)].email == email;
    assert EmailsUnique(after);
    var found := OwnerOf(after, email);
    assert Key(found.value.id) == Key(id);
  }

  /**
   * The lookup by email compares under the collation: spellings of one
   * email that differ only in case are refused alike by the duplicate
   * check and sign in alike.
   */
  lemma SignInIgnoresEmailCase(users: map<Id, User>, order: seq<Id>, e1: string, e2: string, password: string)
    requires Consistent(users, order)
    requires Key(e1) == Key(e2)
    ensures EmailTaken(users, e1) <==> EmailTaken(users, e2)
    ensures SignInCheck(OwnerOf(users, e1), password) == SignInCheck(OwnerOf(users, e2), password)
  {
    OwnerIgnoresCase(users, e1, e2);
  }

  /** AuthService over the users service. */
  class AuthService {
    const usersService: UsersService

    ghost predicate Valid()
      reads this, usersService, usersService.usersRepository
    {
      usersService.Valid()
    }

    constructor (service: UsersService)
      ensures usersService == service
    {
      usersService := service;
    }

    /** checkDuplicateEmail: fail with a conflict when the email is registered. */
    method CheckDuplicateEmail(email: string) returns (o: Outcome<AuthError>)
      requires Valid()
      ensures o.Fail? <==> EmailTaken(usersService.usersRepository.users, email)
      ensures o.Fail? ==> o.error == EmailAlreadyExists(email)
    {
      var existing := usersService.FindUserByEmail(email);
      o := if existing.Some? then Fail(EmailAlreadyExists(email)) else Pass;
    }

    /**
     * signUp: refuse a registered email before hashing or writing anything;
     * otherwise store the name, email, role and the hash of the password,
     * and return the saved user with a token over its id and email.
     * `id` and `salt` stand for the database's id generator and the hash's
     * random salt.
     */
    method SignUp(id: Id, salt: nat, name: string, email: string, password: string, role: Roles.Role)
      returns (r: Result<AuthResult, AuthError>)
      requires Valid()
      modifies usersService.usersRepository
      ensures Valid()
      ensures EmailTaken(old(usersService.usersRepository.users), email) ==> r == Failure(EmailAlreadyExists(email))
      ensures r.Success? <==> !EmailTaken(old(usersService.usersRepository.users), email) && Key(id) !in old(usersService.usersRepository.users)
      ensures r.Failure? && !EmailTaken(old(usersService.usersRepository.users), email) ==> r.error == StorageFailure
      ensures r.Failure? ==>
        && usersService.usersRepository.users == old(usersService.usersRepository.users)
        && usersService.usersRepository.order == old(usersService.usersRepository.order)
      ensures r.Success? ==>
        && r.value.user == User(id, name, email, Hash(password, salt), role)
        && usersService.usersRepository.users == old(usersService.usersRepository.users)[Key(id) := r.value.user]
        && usersService.usersRepository.order == [Key(id)] + old(usersService.usersRepository.order)
        && r.value.token.claims == Claims(id, email)
    {
      var duplicate := CheckDuplicateEmail(email);
      if duplicate.Fail? {
        return Failure(duplicate.error);
      }
      var hashedPassword := Hash(password, salt);
      var saved := usersService.CreateUser(id, CreateUserParams(name, email, hashedPassword, role));
      if saved.Failure? {
        return Failure(StorageFailure);
      }
      var savedUser := saved.value;
      r := Success(AuthResult(savedUser, CreateSignInToken(savedUser.id, savedUser.email)));
    }

    /** signIn: look the email up and check the password; nothing is written. */
    method SignIn(email: string, password: string) returns (r: Result<AuthResult, AuthError>)
      requires Valid()
      ensures r == SignInCheck(OwnerOf(usersService.usersRepository.users, email), password)
      ensures r.Success? ==> Key(r.value.user.email) == Key(email)
    {
      var user := usersService.FindUserByEmail(email);
      r := SignInCheck(user, password);
    }
  }
}
