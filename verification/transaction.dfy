/** The Transaction record of transaction.py and its operations: construction,
    the canonical text form, the content hash, signing and validation.

    The Python class mutates its instance in place; here a transaction is an
    immutable value, and an operation that would mutate it returns the new value
    (or the exception it would raise, in which case the caller's value is the
    untouched object). */
module Transactions {
  import opened Wrappers
  import opened Octets
  import Utf8
  import opened Crypto

  /** The amount is dynamically typed in the source (an int or a float) and is
      only ever rendered, never computed with. A float is kept as its IEEE 754
      binary64 bit pattern, so infinities, NaNs and -0.0 are amounts too. */
  datatype Amount = IntAmount(i: int) | FloatAmount(bits: bv64)

  /** Python's `str()` of the values that appear in the canonical string.
      `str(None)` is fixed ("None"); the rendering of amounts and of byte
      strings is left abstract. */
  datatype Renderer = Renderer(amount: Amount -> string, bytes: Bytes -> string)

  /** `sender` None marks a mint (reward) transaction. `signature` None stands
      for the attribute not having been set yet. */
  datatype Transaction = Transaction(
    sender: Option<Bytes>,
    recipient: Bytes,
    amount: Amount,
    signature: Option<Bytes>
  )

  /** The exceptions the operations raise. */
  datatype Error =
    | Unauthorized     // signing key does not belong to the sender
    | SenderNotUtf8    // the sender address is not valid UTF-8 text
    | Unsigned         // a non-mint transaction with no or an empty signature
    | MalformedAddress // the sender address does not decode as a PEM public key

  /** A new transaction: the three given fields and no signature. The hash the
      constructor computes is only logged. */
  function New(fromAddr: Option<Bytes>, toAddr: Bytes, amount: Amount): (t: Transaction)
    ensures t.sender == fromAddr && t.recipient == toAddr && t.amount == amount
    ensures t.signature.None?
  {
    Transaction(fromAddr, toAddr, amount, None)
  }

  function RenderSender(rd: Renderer, sender: Option<Bytes>): string {
    match sender
    case None => "None"
    case Some(b) => rd.bytes(b)
  }

  /** The canonical text form, the only input of the hash. It is built from
      the amount, sender and recipient; the label keeps the source's spelling
      "Ammount". */
  function Str(rd: Renderer, t: Transaction): string {
    "Ammount: " + rd.amount(t.amount) + " From: " + RenderSender(rd, t.sender) + " To: " + rd.bytes(t.recipient)
  }

  /** The bytes that are hashed: the canonical text form in UTF-8. */
  function HashInput(rd: Renderer, t: Transaction): Bytes {
    Utf8.Encode(Str(rd, t))
  }

  function CalculateHash(c: Scheme, rd: Renderer, t: Transaction): Bytes {
    c.hash(HashInput(rd, t))
  }

  /** The signature is present and non-empty (Python's truthiness of bytes). */
  predicate IsSigned(t: Transaction) {
    t.signature.Some? && |t.signature.value| > 0
  }

  /** Signs with `key`, drawing `nonce` as the signature's randomness. Only the
      owner of the sender address may sign, so a mint transaction can never be
      signed. The sender address is also decoded as UTF-8 text for a log
      message; a failure there raises before the signature is stored. On
      success, any earlier signature is replaced. */
  function Sign(c: Scheme, rd: Renderer, t: Transaction, key: PrivateKey, nonce: Nonce): (r: Result<Transaction, Error>)
    ensures t.sender != Some(Address(c, key)) ==> r == Failure(Unauthorized)
    ensures t.sender == Some(Address(c, key)) ==>
      (r == Failure(SenderNotUtf8) <==> Utf8.Decode(Address(c, key)).None?)
    ensures r.Success? <==> t.sender == Some(Address(c, key)) && Utf8.Decode(Address(c, key)).Some?
    ensures r.Success? ==>
      && r.value.sender == t.sender
      && r.value.recipient == t.recipient
      && r.value.amount == t.amount
      && r.value.signature == Some(c.sign(key, CalculateHash(c, rd, t), nonce))
  {
    if Some(Address(c, key)) != t.sender then
      Failure(Unauthorized)
    else if Utf8.Decode(t.sender.value).None? then
      Failure(SenderNotUtf8)
    else
      Success(t.(signature := Some(c.sign(key, CalculateHash(c, rd, t), nonce))))
  }

  /** Whether the transaction is valid: `Success(true)` or `Success(false)` for
      the returned boolean, `Failure` for the raised exception. A mint is valid
      without any check; a non-mint must carry a signature; the sender must
      decode as a public key; then every way `verify` can fail counts as an
      invalid signature. */
  function IsValid(c: Scheme, rd: Renderer, t: Transaction): (r: Result<bool, Error>)
    ensures t.sender.None? ==> r == Success(true)
    ensures r == Failure(Unsigned) <==> t.sender.Some? && !IsSigned(t)
    ensures r == Failure(MalformedAddress) <==>
      t.sender.Some? && IsSigned(t) && c.decodePem(t.sender.value).None?
    ensures r.Failure? ==> r.error == Unsigned || r.error == MalformedAddress
    ensures t.sender.Some? ==>
      (r == Success(true) <==>
        && IsSigned(t)
        && c.decodePem(t.sender.value).Some?
        && c.verify(c.decodePem(t.sender.value).value, t.signature.value, CalculateHash(c, rd, t)) == Verified)
    ensures r == Success(false) <==>
      && t.sender.Some?
      && IsSigned(t)
      && c.decodePem(t.sender.value).Some?
      && c.verify(c.decodePem(t.sender.value).value, t.signature.value, CalculateHash(c, rd, t)) != Verified
    ensures t.sender.Some? && IsSigned(t) && c.decodePem(t.sender.value).Some? ==> r.Success?
  {
    if t.sender.None? then
      Success(true)
    else if !IsSigned(t) then
      Failure(Unsigned)
    else
      match c.decodePem(t.sender.value)
      case None => Failure(MalformedAddress)
      case Some(key) =>
        match c.verify(key, t.signature.value, CalculateHash(c, rd, t))
        case Verified => Success(true)
        case InvalidSignature => Success(false)
        case VerifyFault => Success(false)
  }
}
