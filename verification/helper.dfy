/** The credential codec of backend/helper.py: the signed session cookie,
    the password digest and the webhook signature check. */
module Helper {
  import opened Wrappers
  import opened Text
  import opened Crypto
  import Utf8
  import Base64
  import Hex
  import Decimal

  /** `_sign_data`: the HMAC-SHA-256 of the UTF-8 of `data` under the cookie
      key, as uppercase hex. */
  function SignData(env: Env, data: string): (tag: string)
    ensures |tag| == 64
    ensures forall i :: 0 <= i < |tag| ==> Hex.IsUpperHexDigit(tag[i])
    ensures tag == Hex.Upper(Hmac(env.sha256, Utf8.Encode(env.cookieSecretKey), Utf8.Encode(data)))
  {
    var digest := Hmac(env.sha256, Utf8.Encode(env.cookieSecretKey), Utf8.Encode(data));
    Hex.UpperOfLower(digest);
    UpperAscii(Hex.Lower(digest))
  }

  /** The Base64 text of an identity, the part of the cookie before the dot. */
  function Payload(email: string): string {
    Base64.Encode(Utf8.Encode(email))
  }

  /** `cookie_create`: the token is the Base64 of the email, one dot, and
      the tag; it splits at its only dot into exactly those two parts. */
  function CookieCreate(env: Env, email: string): (token: string)
    ensures Count(token, '.') == 1
    ensures Split(token, '.') == [Payload(email), SignData(env, email)]
  {
    Base64.EncodeIsAscii(Utf8.Encode(email));
    Hex.NoDot(Hmac(env.sha256, Utf8.Encode(env.cookieSecretKey), Utf8.Encode(email)), true);
    Text.SplitJoinTwo(Payload(email), SignData(env, email), '.');
    Payload(email) + "." + SignData(env, email)
  }

  /** The exceptions `cookie_decode` lets escape: unpacking a split that did
      not give two parts (ValueError), a Base64 payload with an incomplete
      group (binascii.Error), a payload that is not UTF-8
      (UnicodeDecodeError), a tag `compare_digest` refuses (TypeError). */
  datatype DecodeError = UnpackError | Base64Error | Utf8Error | NonAsciiTag

  /** `cookie_decode`'s outcomes: the email, None, or an exception. */
  datatype CookieResult = Valid(email: string) | Invalid | Raised(error: DecodeError)

  /** The email a payload carries, or the exception decoding it raises:
      binascii.Error when the Base64 is incomplete, UnicodeDecodeError when
      the bytes are not UTF-8. */
  function PayloadEmail(payload: string): (r: Result<string, DecodeError>)
    ensures r == Err(Base64Error) <==> Base64.Decode(Utf8.Encode(payload)).None?
    ensures r == Err(Utf8Error) <==>
      && Base64.Decode(Utf8.Encode(payload)).Some?
      && Utf8.Decode(Base64.Decode(Utf8.Encode(payload)).value).None?
    ensures r.Ok? <==>
      && Base64.Decode(Utf8.Encode(payload)).Some?
      && Utf8.Decode(Base64.Decode(Utf8.Encode(payload)).value).Some?
    ensures r.Ok? ==> Base64.Decode(Utf8.Encode(payload)) == Some(Utf8.Encode(r.value))
  {
    match Base64.Decode(Utf8.Encode(payload))
    case None => Err(Base64Error)
    case Some(bytes) =>
      match Utf8.Decode(bytes)
      case None => Err(Utf8Error)
      case Some(name) =>
        Utf8.EncodeDecode(bytes);
        Ok(name)
  }

  /** `cookie_decode`: no dot gives None, more than one raises on
      unpacking. With exactly one dot the payload's decoding errors escape,
      so does the TypeError of a non-ASCII tag, and otherwise the email
      comes back exactly when the tag is its signature. */
  function CookieDecode(env: Env, cookie: string): (r: CookieResult)
    ensures |cookie| == 0 || '.' !in cookie ==> r == Invalid
    ensures Count(cookie, '.') > 1 ==> r == Raised(UnpackError)
    ensures Count(cookie, '.') == 1 ==>
      var payload, tag := Split(cookie, '.')[0], Split(cookie, '.')[1];
      && (PayloadEmail(payload).Err? ==> r == Raised(PayloadEmail(payload).error))
      && (PayloadEmail(payload).Ok? && !IsAscii(tag) ==> r == Raised(NonAsciiTag))
      && (PayloadEmail(payload).Ok? && IsAscii(tag) ==>
            r == if tag == SignData(env, PayloadEmail(payload).value) then Valid(PayloadEmail(payload).value) else Invalid)
    ensures r.Valid? ==>
      && Count(cookie, '.') == 1
      && Base64.Decode(Utf8.Encode(Split(cookie, '.')[0])) == Some(Utf8.Encode(r.email))
      && Split(cookie, '.')[1] == SignData(env, r.email)
  {
    CountZero(cookie, '.');
    if |cookie| > 0 && '.' in cookie then
      var parts := Split(cookie, '.');
      if |parts| != 2 then Raised(UnpackError)
      else
        match PayloadEmail(parts[0])
        case Err(e) => Raised(e)
        case Ok(name) =>
          Hex.Ascii(Hmac(env.sha256, Utf8.Encode(env.cookieSecretKey), Utf8.Encode(name)), true);
          match CompareDigest(SignData(env, name), parts[1])
          case None => Raised(NonAsciiTag)
          case Some(same) => if same then Valid(name) else Invalid
    else Invalid
  }

  /** A token with one dot whose payload decodes to `email` and whose tag is
      the tag of `email` decodes to `email`. */
  lemma DecodeAccepts(env: Env, cookie: string, email: string)
    requires Count(cookie, '.') == 1
    requires Base64.Decode(Utf8.Encode(Split(cookie, '.')[0])) == Some(Utf8.Encode(email))
    requires Split(cookie, '.')[1] == SignData(env, email)
    ensures CookieDecode(env, cookie) == Valid(email)
  {
    CountZero(cookie, '.');
    Utf8.DecodeEncode(email);
    Hex.Ascii(Hmac(env.sha256, Utf8.Encode(env.cookieSecretKey), Utf8.Encode(email)), true);
  }

  /** A well-formed token carrying any other ASCII tag is refused: None,
      not an exception. */
  lemma DecodeRejectsForgedTag(env: Env, email: string, tag: string)
    requires IsAscii(tag) && '.' !in tag
    requires tag != SignData(env, email)
    ensures CookieDecode(env, Payload(email) + "." + tag) == Invalid
  {
    var payload := Payload(email);
    Base64.EncodeIsAscii(Utf8.Encode(email));
    Text.SplitJoinTwo(payload, tag, '.');
    CountAppend(payload, "." + tag, '.');
    CountAppend(".", tag, '.');
    CountZero(payload, '.');
    CountZero(tag, '.');
    assert payload + "." + tag == payload + ("." + tag);
    assert Count(".", '.') == 1;
    PayloadRoundTrip(email);
    Hex.Ascii(Hmac(env.sha256, Utf8.Encode(env.cookieSecretKey), Utf8.Encode(email)), true);
  }

  /** The payload of `email` decodes back to `email`. */
  lemma PayloadRoundTrip(email: string)
    ensures PayloadEmail(Payload(email)) == Ok(email)
  {
    var bytes := Utf8.Encode(email);
    var text := Base64.Encode(bytes);
    Base64.DecodeEncode(bytes);
    Utf8.EncodeAscii(text);
    assert Utf8.Encode(text) == Base64.Codes(text);
    Utf8.DecodeEncode(email);
  }

  /** Round trip: decoding a token made by `CookieCreate` gives back the
      email it was made for. */
  lemma CookieRoundTrip(env: Env, email: string)
    ensures CookieDecode(env, CookieCreate(env, email)) == Valid(email)
  {
    var token := CookieCreate(env, email);
    PayloadRoundTrip(email);
    DecodeAccepts(env, token, email);
  }

  /** `hash_password`: the SHA-256 of the UTF-8 of the password followed by
      the one process-wide salt, as lowercase hex (no per-user salt). */
  function HashPassword(env: Env, password: string): (digest: string)
    ensures |digest| == 64
    ensures forall i :: 0 <= i < |digest| ==> Hex.IsLowerHexDigit(digest[i])
    ensures digest == Hex.Lower(env.sha256(Utf8.Encode(password + env.passwordSalt)))
  {
    var d := env.sha256(Utf8.Encode(password + env.passwordSalt));
    Hex.LowerOfLower(d);
    LowerAscii(Hex.Lower(d))
  }

  /** The text the webhook signature is computed over: account id, amount,
      transaction id, user id and the webhook secret, in that order, as
      their `str` forms and with no separators. */
  function SignatureText(env: Env, userId: int, accountId: int, amount: int, transactionId: string): string {
    Decimal.Show(accountId) + Decimal.Show(amount) + transactionId + Decimal.Show(userId) + env.webhookSecretKey
  }

  /** `signature_payment_check`: the presented signature must equal the
      lowercase hex SHA-256 of the signature text, character for character. */
  function SignaturePaymentCheck(env: Env, userId: int, accountId: int, amount: int, transactionId: string, signature: string): (ok: bool)
    ensures ok ==> |signature| == 64 && forall i :: 0 <= i < 64 ==> Hex.IsLowerHexDigit(signature[i])
  {
    Hex.Lower(env.sha256(Utf8.Encode(SignatureText(env, userId, accountId, amount, transactionId)))) == signature
  }

  /** The check is an exact, case-sensitive comparison: one field tuple
      admits at most one signature, and its uppercase variant is refused. */
  lemma SignatureUnique(env: Env, userId: int, accountId: int, amount: int, transactionId: string, s1: string, s2: string)
    requires SignaturePaymentCheck(env, userId, accountId, amount, transactionId, s1)
    requires SignaturePaymentCheck(env, userId, accountId, amount, transactionId, s2)
    ensures s1 == s2
    ensures UpperAscii(s1) != s1 ==> !SignaturePaymentCheck(env, userId, accountId, amount, transactionId, UpperAscii(s1))
  {
  }

  /** The lowercase digest of a field tuple's text is accepted for it; with
      `SignatureUnique`, it is the only signature that is. */
  lemma SignatureAccepted(env: Env, userId: int, accountId: int, amount: int, transactionId: string)
    ensures SignaturePaymentCheck(env, userId, accountId, amount, transactionId,
      Hex.Lower(env.sha256(Utf8.Encode(SignatureText(env, userId, accountId, amount, transactionId)))))
  {
  }

  /** The signature does not bind the fields separately: moving a digit from
      the amount to the account id (account 1, amount 23 versus account 12,
      amount 3) leaves the signed text, and so the verdict, unchanged. */
  lemma SignatureFieldsAmbiguous(env: Env, userId: int, transactionId: string, signature: string)
    ensures SignaturePaymentCheck(env, userId, 1, 23, transactionId, signature)
        == SignaturePaymentCheck(env, userId, 12, 3, transactionId, signature)
  {
    assert Decimal.Show(1) + Decimal.Show(23) == "123";
    assert Decimal.Show(12) + Decimal.Show(3) == "123";
    assert SignatureText(env, userId, 1, 23, transactionId) == SignatureText(env, userId, 12, 3, transactionId);
  }
}
