/** Properties of the transaction lifecycle: what the hash depends on, who can
    sign, and the sign-then-validate round trip. */
module TransactionProperties {
  import opened Wrappers
  import opened Octets
  import Utf8
  import opened Crypto
  import opened Transactions

  /** Python's rendering keeps distinct byte strings apart: `str()` is
      injective on them, and none renders as "None" (a rendered bytes value
      always starts with `b'`). Nothing of the kind is asked of amounts: many
      NaN bit patterns all render as "nan". */
  ghost predicate BytesRenderFaithful(rd: Renderer) {
    && (forall b1, b2 :: rd.bytes(b1) == rd.bytes(b2) ==> b1 == b2)
    && (forall b :: rd.bytes(b) != "None")
  }

  /** Equal strings with the same prefix and suffix have the same middle. */
  lemma CancelAround(p: string, x: string, y: string, q: string)
    requires p + x + q == p + y + q
    ensures x == y
  {
    var s := p + x + q;
    assert |x| == |y|;
    assert x == s[|p|..|p| + |x|];
    assert y == (p + y + q)[|p|..|p| + |y|];
  }

  /** A renderer in the style of Python's, `b'` + one character per byte + `'`,
      meets `BytesRenderFaithful`, so the lemmas that require it are not
      vacuous. */
  function QuotedBytesRenderer(): Renderer {
    Renderer(
      (a: Amount) => "0",
      (b: Bytes) => "b'" + seq(|b|, i requires 0 <= i < |b| => b[i] as char) + "'")
  }

  lemma QuotedBytesRendererIsFaithful()
    ensures BytesRenderFaithful(QuotedBytesRenderer())
  {
    var rd := QuotedBytesRenderer();
    forall b1: Bytes, b2: Bytes | rd.bytes(b1) == rd.bytes(b2) ensures b1 == b2 {
      var s1 := seq(|b1|, i requires 0 <= i < |b1| => b1[i] as char);
      var s2 := seq(|b2|, i requires 0 <= i < |b2| => b2[i] as char);
      CancelAround("b'", s1, s2, "'");
      assert |b1| == |b2|;
      forall i | 0 <= i < |b1| ensures b1[i] == b2[i] {
        assert s1[i] == s2[i];
      }
    }
    forall b: Bytes ensures rd.bytes(b) != "None" {
      assert rd.bytes(b)[0] == 'b';
    }
  }

  /** A freshly constructed transaction is valid exactly when it is a mint;
      any other must be signed first, and validating it unsigned raises. */
  lemma FreshTransactionValidity(c: Scheme, rd: Renderer, fromAddr: Option<Bytes>, toAddr: Bytes, amount: Amount)
    ensures IsValid(c, rd, New(fromAddr, toAddr, amount)) ==
      (if fromAddr.None? then Success(true) else Failure(Unsigned))
  {}

  /** The mint and unsigned outcomes are decided before any key is decoded or
      any signature verified: they are the same whatever the primitives do. */
  lemma EarlyOutcomesIgnoreScheme(c1: Scheme, rd1: Renderer, c2: Scheme, rd2: Renderer, t: Transaction)
    requires t.sender.None? || !IsSigned(t)
    ensures IsValid(c1, rd1, t) == IsValid(c2, rd2, t)
    ensures IsValid(c1, rd1, t) == (if t.sender.None? then Success(true) else Failure(Unsigned))
  {}

  /** The signature takes no part in the hash. */
  lemma HashIgnoresSignature(c: Scheme, rd: Renderer, t: Transaction, sig: Option<Bytes>)
    ensures CalculateHash(c, rd, t.(signature := sig)) == CalculateHash(c, rd, t)
  {}

  /** The hash is a function of amount, sender and recipient alone. */
  lemma HashDeterminedByFields(c: Scheme, rd: Renderer, t1: Transaction, t2: Transaction)
    requires t1.amount == t2.amount && t1.sender == t2.sender && t1.recipient == t2.recipient
    ensures CalculateHash(c, rd, t1) == CalculateHash(c, rd, t2)
  {}

  lemma RenderSenderInjective(rd: Renderer, s1: Option<Bytes>, s2: Option<Bytes>)
    requires BytesRenderFaithful(rd)
    requires RenderSender(rd, s1) == RenderSender(rd, s2)
    ensures s1 == s2
  {
    if s1.Some? && s2.Some? {
      assert rd.bytes(s1.value) == rd.bytes(s2.value);
    }
  }

  /** Changing the amount alone changes the bytes that are hashed exactly when
      it changes the amount's rendering. */
  lemma AmountChangesHashInput(rd: Renderer, t: Transaction, a: Amount)
    ensures HashInput(rd, t.(amount := a)) != HashInput(rd, t) <==> rd.amount(a) != rd.amount(t.amount)
  {
    var t' := t.(amount := a);
    var q := " From: " + RenderSender(rd, t.sender) + " To: " + rd.bytes(t.recipient);
    assert Str(rd, t') == "Ammount: " + rd.amount(a) + q;
    assert Str(rd, t) == "Ammount: " + rd.amount(t.amount) + q;
    if HashInput(rd, t') == HashInput(rd, t) {
      Utf8.EncodeInjective(Str(rd, t'), Str(rd, t));
      CancelAround("Ammount: ", rd.amount(a), rd.amount(t.amount), q);
    }
  }

  /** Changing the sender alone changes the bytes that are hashed exactly when
      it changes the sender's rendering, which a faithful byte rendering always
      does (including a change to or from a mint). */
  lemma SenderChangesHashInput(rd: Renderer, t: Transaction, s: Option<Bytes>)
    ensures HashInput(rd, t.(sender := s)) != HashInput(rd, t) <==>
      RenderSender(rd, s) != RenderSender(rd, t.sender)
    ensures BytesRenderFaithful(rd) && s != t.sender ==> HashInput(rd, t.(sender := s)) != HashInput(rd, t)
  {
    var t' := t.(sender := s);
    var p := "Ammount: " + rd.amount(t.amount) + " From: ";
    var q := " To: " + rd.bytes(t.recipient);
    assert Str(rd, t') == p + RenderSender(rd, s) + q;
    assert Str(rd, t) == p + RenderSender(rd, t.sender) + q;
    if HashInput(rd, t') == HashInput(rd, t) {
      Utf8.EncodeInjective(Str(rd, t'), Str(rd, t));
      CancelAround(p, RenderSender(rd, s), RenderSender(rd, t.sender), q);
      if BytesRenderFaithful(rd) {
        RenderSenderInjective(rd, s, t.sender);
      }
    }
  }

  /** Changing the recipient alone changes the bytes that are hashed exactly
      when it changes the recipient's rendering, which a faithful byte
      rendering always does. */
  lemma RecipientChangesHashInput(rd: Renderer, t: Transaction, r: Bytes)
    ensures HashInput(rd, t.(recipient := r)) != HashInput(rd, t) <==> rd.bytes(r) != rd.bytes(t.recipient)
    ensures BytesRenderFaithful(rd) && r != t.recipient ==> HashInput(rd, t.(recipient := r)) != HashInput(rd, t)
  {
    var t' := t.(recipient := r);
    var p := "Ammount: " + rd.amount(t.amount) + " From: " + RenderSender(rd, t.sender) + " To: ";
    assert Str(rd, t') == p + rd.bytes(r) + "";
    assert Str(rd, t) == p + rd.bytes(t.recipient) + "";
    if HashInput(rd, t') == HashInput(rd, t) {
      Utf8.EncodeInjective(Str(rd, t'), Str(rd, t));
      CancelAround(p, rd.bytes(r), rd.bytes(t.recipient), "");
    }
  }

  /** A mint transaction cannot be signed by any key. */
  lemma MintCannotBeSigned(c: Scheme, rd: Renderer, t: Transaction, key: PrivateKey, nonce: Nonce)
    requires t.sender.None?
    ensures Sign(c, rd, t, key, nonce) == Failure(Unauthorized)
  {}

  /** Under a correct scheme the owner of the sender address can always sign:
      the address is PEM text, so the UTF-8 decode for the log message cannot
      raise. */
  lemma OwnerCanSign(c: Scheme, rd: Renderer, t: Transaction, key: PrivateKey, nonce: Nonce)
    requires Correct(c)
    requires t.sender == Some(Address(c, key))
    ensures Sign(c, rd, t, key, nonce).Success?
  {
    Utf8.AsciiDecodes(c.encodePem(c.publicOf(key)));
  }

  /** Signing leaves the hash unchanged, so the stored signature is over the
      hash of the signed transaction itself. */
  lemma SignKeepsHash(c: Scheme, rd: Renderer, t: Transaction, key: PrivateKey, nonce: Nonce)
    requires Sign(c, rd, t, key, nonce).Success?
    ensures CalculateHash(c, rd, Sign(c, rd, t, key, nonce).value) == CalculateHash(c, rd, t)
  {
    HashIgnoresSignature(c, rd, t, Sign(c, rd, t, key, nonce).value.signature);
  }

  /** The round trip: under a correct scheme, a transaction that was signed
      successfully and not modified since validates as true. */
  lemma SignThenValidate(c: Scheme, rd: Renderer, t: Transaction, key: PrivateKey, nonce: Nonce)
    requires Correct(c)
    requires Sign(c, rd, t, key, nonce).Success?
    ensures IsValid(c, rd, Sign(c, rd, t, key, nonce).value) == Success(true)
  {
    var t' := Sign(c, rd, t, key, nonce).value;
    var d := CalculateHash(c, rd, t);
    SignKeepsHash(c, rd, t, key, nonce);
    assert t'.signature.value == c.sign(key, d, nonce);
    assert |c.sign(key, d, nonce)| > 0;
    assert c.decodePem(t'.sender.value) == Some(c.publicOf(key));
    assert c.verify(c.publicOf(key), c.sign(key, d, nonce), d) == Verified;
  }

  /** The owner's lifecycle end to end: construct, sign with the sender's own
      key, validate. */
  lemma OwnerLifecycleIsValid(c: Scheme, rd: Renderer, toAddr: Bytes, amount: Amount, key: PrivateKey, nonce: Nonce)
    requires Correct(c)
    ensures var t := New(Some(Address(c, key)), toAddr, amount);
      && Sign(c, rd, t, key, nonce).Success?
      && IsValid(c, rd, Sign(c, rd, t, key, nonce).value) == Success(true)
  {
    var t := New(Some(Address(c, key)), toAddr, amount);
    OwnerCanSign(c, rd, t, key, nonce);
    SignThenValidate(c, rd, t, key, nonce);
  }

  /** Signing again replaces the earlier signature: the result is as if the
      first signature had never been made. */
  lemma ResignReplaces(c: Scheme, rd: Renderer, t: Transaction, k1: PrivateKey, n1: Nonce, k2: PrivateKey, n2: Nonce)
    requires Sign(c, rd, t, k1, n1).Success?
    ensures Sign(c, rd, Sign(c, rd, t, k1, n1).value, k2, n2) == Sign(c, rd, t, k2, n2)
  {
    var t1 := Sign(c, rd, t, k1, n1).value;
    HashIgnoresSignature(c, rd, t, t1.signature);
    assert t1.(signature := Some(c.sign(k2, CalculateHash(c, rd, t), n2)))
        == t.(signature := Some(c.sign(k2, CalculateHash(c, rd, t), n2)));
  }
}
