/** register.php: the sign-up form is checked by one if/elseif chain, and
    only a form that passes every check reaches Auth::register. */
module RegisterPage {
  import opened Common

  datatype RegisterError = MissingFields | PasswordMismatch | PasswordTooShort

  /** The values handed to Auth::register: email and names trimmed, the
      password as typed. */
  datatype Registration = Registration(email: Bytes, password: Bytes, firstName: Bytes, lastName: Bytes)

  const MinPasswordLength := 6

  /** The validation chain of a POSTed form; only its first failing check is
      reported. */
  function ValidateRegistration(email: Bytes, password: Bytes, confirm: Bytes, firstName: Bytes, lastName: Bytes)
    : (r: Result<Registration, RegisterError>)
    ensures r == Err(MissingFields) <==> PhpEmpty(PhpTrim(email)) || PhpEmpty(password) || PhpEmpty(PhpTrim(firstName))
    ensures r == Err(PasswordMismatch) <==>
              !PhpEmpty(PhpTrim(email)) && !PhpEmpty(password) && !PhpEmpty(PhpTrim(firstName)) && password != confirm
    ensures r == Err(PasswordTooShort) <==>
              && !PhpEmpty(PhpTrim(email)) && !PhpEmpty(password) && !PhpEmpty(PhpTrim(firstName))
              && password == confirm && |password| < MinPasswordLength
    ensures r.Ok? ==> r.value == Registration(PhpTrim(email), password, PhpTrim(firstName), PhpTrim(lastName))
  {
    var e := PhpTrim(email);
    var f := PhpTrim(firstName);
    if PhpEmpty(e) || PhpEmpty(password) || PhpEmpty(f) then Err(MissingFields)
    else if password != confirm then Err(PasswordMismatch)
    else if |password| < MinPasswordLength then Err(PasswordTooShort)
    else Ok(Registration(e, password, f, PhpTrim(lastName)))
  }

  /** Registration is attempted exactly for forms whose trimmed email and first
      name are non-empty and whose password is confirmed and at least six bytes;
      the last name may be empty. */
  lemma AcceptedForms(email: Bytes, password: Bytes, confirm: Bytes, firstName: Bytes, lastName: Bytes)
    ensures ValidateRegistration(email, password, confirm, firstName, lastName).Ok? <==>
              && !PhpEmpty(PhpTrim(email)) && !PhpEmpty(PhpTrim(firstName))
              && password == confirm && |password| >= MinPasswordLength
  {
  }

  /** Surrounding white space on the password is not trimmed: a password and
      its confirmation that differ only by it are a mismatch. */
  lemma PasswordNotTrimmed(email: Bytes, password: Bytes, firstName: Bytes, lastName: Bytes)
    requires !PhpEmpty(PhpTrim(email)) && !PhpEmpty(password) && !PhpEmpty(PhpTrim(firstName))
    ensures ValidateRegistration(email, password, password + [32], firstName, lastName) == Err(PasswordMismatch)
  {
    assert |password + [32]| != |password|;
  }

  /** What the page ends with: a validation error, the message Auth::register
      returned, or success. */
  datatype RegisterOutcome = Invalid(error: RegisterError) | RegisterFailed(message: Bytes) | Registered

  /** register.php for a POST. `register` stands for Auth::register, which is
      not part of this model: it is called with the validated values and its
      reply is passed in. */
  function SignUp(email: Bytes, password: Bytes, confirm: Bytes, firstName: Bytes, lastName: Bytes,
                  register: Registration -> Result<(), Bytes>): (o: RegisterOutcome)
    ensures o.Invalid? <==> ValidateRegistration(email, password, confirm, firstName, lastName).Err?
    ensures o.Registered? ==> |password| >= MinPasswordLength && password == confirm
  {
    match ValidateRegistration(email, password, confirm, firstName, lastName)
    case Err(e) => Invalid(e)
    case Ok(form) =>
      match register(form)
      case Ok(_) => Registered
      case Err(message) => RegisterFailed(message)
  }
}
