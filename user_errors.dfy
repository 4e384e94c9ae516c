/**
 * The user error hierarchy (UserError and its five subclasses) as one
 * tagged variant, with the message each subclass builds.
 */
module UserErrors {
  import opened Wrappers

  /** Every subclass of UserError is one variant of this type. */
  datatype UserError =
    | UserNotFound(userId: string)
    | SelfDeletion
    | InsufficientPermissions(message: string)
    | EmailInUse(email: string)
    | UnauthorizedUpdate

  const NotFoundPrefix: string := "User with ID "
  const NotFoundSuffix: string := " not found"
  const EmailPrefix: string := "Email "
  const EmailSuffix: string := " is already in use"
  const SelfDeletionMessage: string := "You cannot delete yourself"
  const DefaultPermissionsMessage: string := "Insufficient permissions for this operation"
  const UnauthorizedUpdateMessage: string := "You are not authorized to update this user"

  /** InsufficientPermissionsError built without an explicit message. */
  function DefaultInsufficientPermissions(): (e: UserError)
    ensures e.InsufficientPermissions? && Message(e) == DefaultPermissionsMessage
  {
    InsufficientPermissions(DefaultPermissionsMessage)
  }

  /**
   * The middle of `m` between `prefix` and `suffix`, when `m` has that
   * shape; it recovers the subject interpolated into a message.
   */
  function Between(m: string, prefix: string, suffix: string): Option<string> {
    if |prefix| + |suffix| <= |m| && m[..|prefix|] == prefix && m[|m| - |suffix|..] == suffix
    then Some(m[|prefix|..|m| - |suffix|])
    else None
  }

  lemma {:induction false} BetweenRecovers(prefix: string, x: string, suffix: string)
    ensures Between(prefix + x + suffix, prefix, suffix) == Some(x)
  {
    var m := prefix + x + suffix;
    assert m[..|prefix|] == prefix;
    assert m[|m| - |suffix|..] == suffix;
    assert m[|prefix|..|m| - |suffix|] == x;
  }

  /**
   * The message each error carries. The user id of a not-found error and
   * the email of an email-in-use error can be read back from the message.
   */
  function Message(e: UserError): (m: string)
    ensures e.UserNotFound? ==> Between(m, NotFoundPrefix, NotFoundSuffix) == Some(e.userId)
    ensures e.EmailInUse? ==> Between(m, EmailPrefix, EmailSuffix) == Some(e.email)
    ensures e.SelfDeletion? ==> m == SelfDeletionMessage
    ensures e.UnauthorizedUpdate? ==> m == UnauthorizedUpdateMessage
    ensures e.InsufficientPermissions? ==> m == e.message
  {
    match e
    case UserNotFound(id) =>
      BetweenRecovers(NotFoundPrefix, id, NotFoundSuffix);
      NotFoundPrefix + id + NotFoundSuffix
    case SelfDeletion => SelfDeletionMessage
    case InsufficientPermissions(msg) => msg
    case EmailInUse(email) =>
      BetweenRecovers(EmailPrefix, email, EmailSuffix);
      EmailPrefix + email + EmailSuffix
    case UnauthorizedUpdate => UnauthorizedUpdateMessage
  }

  /**
   * Apart from a permissions error given a custom text, the message alone
   * tells which error it came from, subject included.
   */
  lemma {:induction false} MessageDeterminesError(e1: UserError, e2: UserError)
    requires !e1.InsufficientPermissions? && !e2.InsufficientPermissions?
    requires Message(e1) == Message(e2)
    ensures e1 == e2
  {
    var m := Message(e1);
    match e1
    case UserNotFound(a) =>
      assert m[0] == 'U' && m[1] == 's';
      if e2.UserNotFound? {
        assert Some(a) == Some(e2.userId);
      }
    case EmailInUse(a) =>
      assert m[0] == 'E';
      if e2.EmailInUse? {
        assert Some(a) == Some(e2.email);
      }
    case SelfDeletion =>
      assert m[0] == 'Y' && m[4] == 'c';
    case UnauthorizedUpdate =>
      assert m[0] == 'Y' && m[4] == 'a';
  }
}
