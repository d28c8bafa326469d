/** The pending verification codes: a plain JavaScript object, keyed by email,
    written by POST /sendVerificationEmail and consumed by POST /validateCode. */
module Verification {
  import opened Wrappers
  import opened JsText
  import opened Users

  /** The property name `verificationCodes[email]` uses: the email itself, or
      "undefined" when the body carried no email. */
  function Key(email: Option<string>): string {
    if email.None? then "undefined" else email.value
  }

  /** Two sent emails share a slot only when they are the same string, while a
      body without an email reads and writes the slot of the email "undefined". */
  lemma KeySlots(a: string, b: string)
    ensures Key(Some(a)) == Key(Some(b)) <==> a == b
    ensures Key(None) == Key(Some("undefined"))
  {
  }

  /** Names every plain object inherits from Object.prototype; reading one that
      the object does not own yields a function or object, never a string or
      `undefined`. */
  const InheritedNames: set<string> := {
    "constructor", "hasOwnProperty", "isPrototypeOf", "propertyIsEnumerable",
    "toLocaleString", "toString", "valueOf", "__proto__",
    "__defineGetter__", "__defineSetter__", "__lookupGetter__", "__lookupSetter__"
  }

  /** What reading `verificationCodes[key]` yields. */
  datatype Lookup = OwnCode(code: string) | InheritedMember | Undefined

  function Read(codes: map<string, string>, key: string): (l: Lookup)
    ensures l.OwnCode? <==> key in codes
    ensures l.OwnCode? ==> l.code == codes[key]
    ensures l.Undefined? <==> key !in codes && key !in InheritedNames
  {
    if key in codes then OwnCode(codes[key])
    else if key in InheritedNames then InheritedMember
    else Undefined
  }

  /** `storedCode === code` where `code` is the request's string (or undefined):
      equal strings match, and so do two undefineds. */
  predicate StrictEquals(stored: Lookup, supplied: Option<string>) {
    match stored
    case OwnCode(c) => supplied == Some(c)
    case InheritedMember => false
    case Undefined => supplied.None?
  }

  /** What `verificationCodes[key] === code` decides: an own code matches only
      the same supplied string, an inherited member matches nothing, and a key
      that is neither matches exactly an unsent code. */
  lemma StrictEqualsRead(codes: map<string, string>, key: string, supplied: Option<string>)
    ensures StrictEquals(Read(codes, key), supplied) <==>
      if key in codes then supplied == Some(codes[key])
      else key !in InheritedNames && supplied.None?
  {
  }

  /** `verificationCodes[key] = code`: an own property is created or overwritten,
      except for "__proto__", whose setter ignores a string. */
  function Assign(codes: map<string, string>, key: string, code: string): (codes': map<string, string>)
    ensures key != "__proto__" ==> Read(codes', key) == OwnCode(code)
    ensures key == "__proto__" ==> codes' == codes
    ensures forall k :: k != key ==> Read(codes', k) == Read(codes, k)
  {
    if key == "__proto__" then codes else codes[key := code]
  }

  /** `SELECT * FROM usuarios WHERE email = ?` finds a row; an absent email is
      sent as NULL, which matches no row. */
  function EmailRegistered(users: seq<Usuario>, email: Option<string>): (registered: bool)
    ensures registered <==> email.Some? && exists k :: 0 <= k < |users| && users[k].email == email.value
  {
    email.Some? && FindByEmail(users, email.value).Some?
  }

  datatype SendResponse = AlreadyRegistered | MailFailed | CodeSent(verificationCode: string)

  function SendStatus(r: SendResponse): (status: int)
    ensures status == 200 <==> r.CodeSent?
    ensures status == 400 <==> r.AlreadyRegistered?
    ensures status == 500 <==> r.MailFailed?
  {
    match r
    case AlreadyRegistered => 400
    case MailFailed => 500
    case CodeSent(_) => 200
  }

  /** The random draw `Math.floor(100000 + Math.random() * 900000)` as text:
      always six decimal digits. */
  function CodeText(draw: nat): (code: string)
    requires 100000 <= draw <= 999999
    ensures |code| == 6 && IsDigits(code) && DecimalValue(code) == draw
  {
    assert Pow10(2) == 100 && Pow10(4) == 10000 && Pow10(5) == 100000 && Pow10(6) == 1000000;
    DecimalLength(draw, 6);
    DecimalRoundTrip(draw);
    Decimal(draw)
  }

  class VerificationCodes {
    var codes: map<string, string>

    /** No code is pending when the server starts. */
    constructor ()
      ensures codes == map[]
    {
      codes := map[];
    }

    /** POST /sendVerificationEmail. `users` is the `usuarios` table, `draw` the
        random number and `mailSent` whether the mail transport succeeded. A
        registered email leaves the codes as they were; otherwise the new code
        replaces any earlier one for that email, and stays stored even when the
        mail fails. */
    method SendVerificationEmail(users: seq<Usuario>, email: Option<string>, draw: nat, mailSent: bool)
      returns (resp: SendResponse)
      requires 100000 <= draw <= 999999
      modifies this
      ensures EmailRegistered(users, email) ==> resp == AlreadyRegistered && codes == old(codes)
      ensures !EmailRegistered(users, email) ==>
        && codes == Assign(old(codes), Key(email), CodeText(draw))
        && resp == (if mailSent then CodeSent(CodeText(draw)) else MailFailed)
    {
      if EmailRegistered(users, email) {
        return AlreadyRegistered;
      }
      var code := CodeText(draw);
      codes := Assign(codes, Key(email), code);
      if mailSent {
        resp := CodeSent(code);
      } else {
        resp := MailFailed;
      }
    }

    /** POST /validateCode, as written: 200 exactly when the stored value and the
        supplied code are strictly equal, in which case that email's entry (and
        only it) is deleted; a mismatch changes nothing. */
    method ValidateCode(email: Option<string>, code: Option<string>) returns (valid: bool)
      modifies this
      ensures valid <==> StrictEquals(Read(old(codes), Key(email)), code)
      ensures valid ==> codes == old(codes) - {Key(email)}
      ensures !valid ==> codes == old(codes)
    {
      var stored := Read(codes, Key(email));
      valid := StrictEquals(stored, code);
      if valid {
        codes := codes - {Key(email)};
      }
    }

    /** POST /validateCode as evidently intended: a code must have been issued
        for the email and must equal the one supplied. */
    method ValidateCodeStrict(email: Option<string>, code: Option<string>) returns (valid: bool)
      modifies this
      ensures valid <==> Key(email) in old(codes) && code == Some(old(codes)[Key(email)])
      ensures valid ==> codes == old(codes) - {Key(email)}
      ensures !valid ==> codes == old(codes)
    {
      var stored := Read(codes, Key(email));
      valid := stored.OwnCode? && StrictEquals(stored, code);
      if valid {
        codes := codes - {Key(email)};
      }
    }
  }

  /** The source's `undefined === undefined`: on a fresh server, a body that
      names an email but sends no code is answered 200. */
  method UnsentCodeAccepted() returns (valid: bool)
    ensures valid
  {
    var store := new VerificationCodes();
    valid := store.ValidateCode(Some("someone@example.com"), None);
  }

  /** The corrected check refuses the same body. */
  method UnsentCodeRefused() returns (valid: bool)
    ensures !valid
  {
    var store := new VerificationCodes();
    valid := store.ValidateCodeStrict(Some("someone@example.com"), None);
  }

  /** Two sends for an unregistered email followed by validations: the first
      code no longer validates, the second does once and then no longer. */
  method ResendThenValidate(users: seq<Usuario>, email: string, first: nat, second: nat)
    returns (firstValid: bool, secondValid: bool, againValid: bool)
    requires !EmailRegistered(users, Some(email)) && email != "__proto__"
    requires 100000 <= first <= 999999 && 100000 <= second <= 999999 && first != second
    ensures !firstValid && secondValid && !againValid
  {
    var store := new VerificationCodes();
    var _ := store.SendVerificationEmail(users, Some(email), first, true);
    var _ := store.SendVerificationEmail(users, Some(email), second, true);
    DecimalInjective(first, second);
    firstValid := store.ValidateCode(Some(email), Some(CodeText(first)));
    secondValid := store.ValidateCode(Some(email), Some(CodeText(second)));
    againValid := store.ValidateCode(Some(email), Some(CodeText(second)));
  }
}
