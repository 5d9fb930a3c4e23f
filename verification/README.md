# Transaction: a verified model

This project models the `Transaction` record of a small proof-of-work coin
(`transaction.py`). A transaction moves an amount from a sender address to a
recipient address. It has a canonical text form that is SHA-256 hashed. The
sender signs that hash with ECDSA, and anyone can validate the signature
against the sender address, which is the sender's PEM-encoded public key. A
transaction without a sender is a mint (mining reward) and needs no signature.

## Layout

| file | module | contents |
|---|---|---|
| `wrappers.dfy` | `Wrappers` | `Option` (Python's `None`) and `Result` (a return value or a raised exception) |
| `octets.dfy` | `Octets` | byte strings, ASCII |
| `utf8.dfy` | `Utf8` | strict UTF-8 encoder and decoder, both round trips |
| `crypto.dfy` | `Crypto` | keys, the `Scheme` of cryptographic primitives, the correctness predicate `Correct` |
| `transaction.dfy` | `Transactions` | the record, `New`, `Str`, `CalculateHash`, `Sign`, `IsValid` |
| `transaction_properties.dfy` | `TransactionProperties` | what the hash depends on, who can sign, the sign-then-validate round trip |

## Modelling choices

- **Cryptography as parameters.** SHA-256, ECDSA signing and verification, and
  PEM encoding and decoding of public keys come from a foreign library. A
  `Crypto.Scheme` value carries them as functions, and every operation takes
  one. Nothing is assumed about them except `Crypto.Correct`. The lemmas that
  need it take it as a precondition. `Correct` says four things:
  - decoding the PEM encoding of a key gives the key back;
  - PEM encodings are ASCII;
  - signatures are non-empty;
  - a signature made with a private key verifies under its public key for the
    same data.

  `Crypto.ToySchemeIsCorrect` exhibits a scheme that meets `Correct`, so these
  preconditions can be satisfied.
- **Signing randomness.** ECDSA signing draws fresh randomness for each
  signature. `Sign` takes that randomness as a `Nonce` parameter, and `Correct`
  must hold for every nonce.
- **Exceptions** become `Result.Failure` with a closed `Error` type:
  - `Unauthorized`: line 55;
  - `SenderNotUtf8`: a `UnicodeDecodeError` at line 59;
  - `Unsigned`: lines 79-82;
  - `MalformedAddress`: line 86.

  `isValid`'s boolean result is `Success(true)` or `Success(false)`.
- **Mutation.** Mutation in place becomes a returned value. When `Sign` fails,
  the caller keeps its transaction unchanged. This includes any earlier
  signature, because the source raises before the assignment at line 62.
- **The sender decode at line 59.** Line 59 decodes the sender address as UTF-8
  inside an f-string. Python evaluates that f-string even when debug logging is
  off, so a sender address that is not UTF-8 would raise after the
  authorization check and before the signature is stored. The model keeps this
  error path. Under `Correct` the address is ASCII, so the path is never taken.
  `TransactionProperties.OwnerCanSign` proves this.
- **Rendering.** `bytes(str(self), 'utf-8')` (line 45) uses the concrete UTF-8
  encoder. Python's `str()` of an amount and of a byte string are abstract
  functions in a `Renderer`. `str(None)` is fixed as `"None"`. The amount is an
  int or a float that is only ever rendered. A float is kept as its IEEE 754
  binary64 bit pattern, which covers infinities, NaNs and `-0.0`. Some sender
  and recipient properties need the byte rendering to be faithful: injective,
  and never `"None"`. `TransactionProperties.QuotedBytesRendererIsFaithful`
  exhibits a renderer that meets this.
- **Missing and empty signatures.** A signature attribute that was never set
  is `None`. Validating a non-mint transaction with no signature or an empty
  one gives `Unsigned`.
- **Behaviour pinned to the code:**
  - the canonical label is spelled `Ammount:` (line 30);
  - a failed signing leaves any earlier signature in place, because line 55
    raises before line 62 assigns;
  - a sender that cannot be decoded as a key raises, because the decode at
    line 86 is outside the `try`;
  - every exception raised by `verify` gives `false` (lines 94-101).

## Model

| member | source | states |
|---|---|---|
| Transactions.New | transaction.py:20-26 | a new transaction holds exactly the given sender, recipient and amount, and has no signature; computing the hash for the log changes nothing |
| Transactions.Sign | transaction.py:49-62 | raises the authorization error exactly when the key's PEM address differs from the sender, which includes every mint; raises the decode error when the address is not UTF-8; otherwise keeps sender, recipient and amount and stores the key's signature over the transaction's hash, replacing any earlier one |
| Transactions.IsValid | transaction.py:65-101 | a mint is valid whatever its signature; a non-mint without a non-empty signature raises and never returns a boolean; an address that does not decode as a key raises; otherwise the result is true exactly when verification succeeds, and every failing verify outcome gives false rather than an error |
| TransactionProperties.FreshTransactionValidity | transaction.py:20-82 | a freshly constructed transaction validates as true if it is a mint and raises the unsigned error otherwise |
| TransactionProperties.EarlyOutcomesIgnoreScheme | transaction.py:73-82 | the mint outcome (true) and the unsigned outcome (an error) do not depend on the hash, decode or verify primitives at all, so none of them takes part |
| TransactionProperties.HashIgnoresSignature | transaction.py:28-47 | setting or changing the signature never changes the hash |
| TransactionProperties.HashDeterminedByFields | transaction.py:42-47 | two transactions with equal amount, sender and recipient have equal hashes |
| TransactionProperties.AmountChangesHashInput | transaction.py:28-47 | changing only the amount changes the hashed bytes exactly when it changes the amount's rendering; two NaN bit patterns that render alike give the same hash |
| TransactionProperties.SenderChangesHashInput | transaction.py:28-47 | changing only the sender changes the hashed bytes exactly when it changes the sender's rendering; with a faithful byte rendering, every change of sender does, including a change to or from a mint |
| TransactionProperties.RecipientChangesHashInput | transaction.py:28-47 | changing only the recipient changes the hashed bytes exactly when it changes the recipient's rendering; with a faithful byte rendering, every change of recipient does |
| TransactionProperties.MintCannotBeSigned | transaction.py:54-55 | a transaction without a sender cannot be signed by any key |
| TransactionProperties.OwnerCanSign | transaction.py:54-62 | under a correct scheme, signing with the key whose address is the sender always succeeds |
| TransactionProperties.SignKeepsHash | transaction.py:58-62 | the hash of the signed transaction is the hash that was signed |
| TransactionProperties.SignThenValidate | transaction.py:54-93 | under a correct scheme, a successfully signed and unmodified transaction validates as true |
| TransactionProperties.OwnerLifecycleIsValid | transaction.py:20-93 | under a correct scheme, constructing a transaction from the owner's address, signing it with the owner's key and validating it gives true |
| TransactionProperties.ResignReplaces | transaction.py:58-62 | signing an already signed transaction gives the same result as signing the original, so the earlier signature is overwritten |
| Utf8.DecodeEncode | transaction.py:45 | decoding the UTF-8 encoding of the canonical string gives the string back |
| Utf8.EncodeInjective | transaction.py:45 | different canonical strings have different UTF-8 encodings, so the hashed bytes determine the string |
| Utf8.EncodeDecode | transaction.py:59 | every byte string the strict decoder accepts is the encoding of the decoded text |
| Utf8.AsciiDecodes | transaction.py:59 | an ASCII address, such as PEM text, always decodes, to the characters with the same codes |

## Left out

- `toJson` (transaction.py:32-40) is a thin wrapper over `json.dumps`. With byte-string addresses it raises `TypeError` anyway.
- Logging and `print` (lines 14, 26, 59, 63, 71-100) only have side effects. The one place where building a log message can raise, line 59, is modelled.
- The `Block` import and everything at block or ledger level are not part of this model.
- SHA-256, ECDSA and PEM internals are foreign library code. Only the properties in `Crypto.Correct` are assumed.
- Collision resistance and unforgeability are not assumed. So "changing a field changes the digest" and "tampering with a signed transaction makes it invalid" are not claimed.
- TransactionProperties.AmountChangesHashInput: states that the hashed bytes change, not the digest, because that step would need collision resistance.
- TransactionProperties.SenderChangesHashInput: same reason; it stops at the hashed bytes.
- TransactionProperties.RecipientChangesHashInput: same reason; it stops at the hashed bytes.
- Python's `str()` of amounts and byte strings is abstract. The sender and recipient properties assume only that the byte rendering is injective and never yields `"None"`. Nothing is assumed about the amount rendering. It is not injective in Python, because many NaN bit patterns all render as `nan`.
- The kind of exception is not modelled. An unsigned non-mint transaction whose signature was never set raises `AttributeError` at line 79, not the exception at line 82. Both are modelled as the same `Unsigned` error.
- Dynamic typing is not modelled. Addresses are byte strings or `None`, and the amount is an int or a float. Any other type a caller might pass is outside the model.
