/** The two self-describing secret formats: `AM2` tokens for attribute values
    (backend/core/passphrase_cipher.py) and `AMS2` values for stored credentials
    (backend/core/crypto.py). The ciphers and the key derivation are parameters. */
module Tokens {
  import opened Common
  import opened Text
  import opened Base64Url

  const KDF_ITERATIONS_FLOOR: nat := 600_000
  const KDF_ITERATIONS_CEILING: nat := 5_000_000
  const MIN_SHARED_SECRET_LENGTH: nat := 12

  const ENVELOPE_VERSION := "AM2"
  const CREDENTIAL_PREFIX := "AMS2"
  const DEFAULT_ALGORITHM := "aes-256-gcm"

  datatype CipherError =
    | PassphraseRequired
    | PassphraseTooShort
    | UnsupportedAlgorithm
    | MalformedToken
    | IterationsOutOfRange
    | AlgorithmMismatch
    | BadBase64
    | DecryptionFailed

  /** The count is accepted: high enough to be safe, low enough to be derived. */
  predicate InBounds(iterations: int) {
    KDF_ITERATIONS_FLOOR <= iterations <= KDF_ITERATIONS_CEILING
  }

  /** `int(text) if text.isdigit() else -1`. */
  function ParseIterations(text: string): int {
    if AllDigits(text) then ParseDecimal(text) else -1
  }

  // ----- AM2 -----

  /** PBKDF2, AES-GCM and UTF-8 as functions. */
  datatype Cipher = Cipher(
    derive: (string, Bytes, nat) -> Bytes,
    seal: (Bytes, Bytes, Bytes) -> Bytes,
    open: (Bytes, Bytes, Bytes) -> Option<Bytes>,
    encode: string -> Bytes,
    decode: Bytes -> Option<string>)

  /** Opening what was sealed under the same key and nonce gives it back, and so does
      decoding what was encoded. */
  ghost predicate Ideal(c: Cipher) {
    && (forall key, nonce, plain :: c.open(key, nonce, c.seal(key, nonce, plain)) == Some(plain))
    && (forall s :: c.decode(c.encode(s)) == Some(s))
  }

  function LowerChar(c: char): char {
    if 'A' <= c <= 'Z' then c - 'A' + 'a' else c
  }

  function Lower(s: string): string {
    seq(|s|, i requires 0 <= i < |s| => LowerChar(s[i]))
  }

  /** `normalize_algorithm`. */
  function NormalizeAlgorithm(value: Option<string>): Result<string, CipherError> {
    if value.None? then Ok(DEFAULT_ALGORITHM)
    else
      var candidate := Lower(Strip(value.value));
      if candidate == "" then Ok(DEFAULT_ALGORITHM)
      else if candidate == DEFAULT_ALGORITHM then Ok(candidate)
      else Err(UnsupportedAlgorithm)
  }

  datatype Fields = Fields(algorithm: string, iterations: nat, salt: string, nonce: string, ciphertext: string)

  /** `_split`. */
  function SplitToken(token: string): Result<Fields, CipherError> {
    var parts := Split(Strip(token), '.');
    if |parts| != 6 || parts[0] != ENVELOPE_VERSION then Err(MalformedToken)
    else
      var iterations := ParseIterations(parts[2]);
      if !InBounds(iterations) then Err(IterationsOutOfRange)
      else Ok(Fields(parts[1], iterations, parts[3], parts[4], parts[5]))
  }

  function CheckPassphrase(passphrase: string): Option<CipherError> {
    if passphrase == "" then Some(PassphraseRequired)
    else if |passphrase| < MIN_SHARED_SECRET_LENGTH then Some(PassphraseTooShort)
    else None
  }

  function TokenText(algorithm: string, iterations: nat, salt: Bytes, nonce: Bytes, sealed: Bytes): string {
    Join([ENVELOPE_VERSION, algorithm, Decimal(iterations), B64e(salt), B64e(nonce), B64e(sealed)], '.')
  }

  /** `encrypt_with_passphrase`; salt and nonce are given, `iterations` is the configured count. */
  function Encrypt(c: Cipher, plaintext: string, passphrase: string, algorithm: Option<string>,
                   salt: Bytes, nonce: Bytes, iterations: nat): Result<string, CipherError>
  {
    var bad := CheckPassphrase(passphrase);
    if bad.Some? then Err(bad.value)
    else
      var algo := NormalizeAlgorithm(algorithm);
      if algo.Err? then Err(algo.error)
      else
        var key := c.derive(passphrase, salt, iterations);
        Ok(TokenText(algo.value, iterations, salt, nonce, c.seal(key, nonce, c.encode(plaintext))))
  }

  /** `decrypt_with_passphrase`. */
  function Decrypt(c: Cipher, token: string, passphrase: string, algorithm: Option<string>)
    : Result<string, CipherError>
  {
    var bad := CheckPassphrase(passphrase);
    if bad.Some? then Err(bad.value)
    else
      var fields := SplitToken(token);
      if fields.Err? then Err(fields.error)
      else
        var f := fields.value;
        var tokenAlgo := NormalizeAlgorithm(Some(f.algorithm));
        if tokenAlgo.Err? then Err(tokenAlgo.error)
        else if algorithm.Some? && NormalizeAlgorithm(algorithm).Err? then Err(UnsupportedAlgorithm)
        else if algorithm.Some? && NormalizeAlgorithm(algorithm) != tokenAlgo then Err(AlgorithmMismatch)
        else DecryptFields(c, f, passphrase)
  }

  function DecryptFields(c: Cipher, f: Fields, passphrase: string): Result<string, CipherError> {
    var salt, nonce, sealed := B64d(f.salt), B64d(f.nonce), B64d(f.ciphertext);
    if salt.None? || nonce.None? || sealed.None? then Err(BadBase64)
    else
      var plain := c.open(c.derive(passphrase, salt.value, f.iterations), nonce.value, sealed.value);
      if plain.None? || c.decode(plain.value).None? then Err(DecryptionFailed)
      else Ok(c.decode(plain.value).value)
  }

  // ----- A produced token splits into its six fields -----

  /** Neither a separator nor whitespace. */
  predicate Plain(s: string) {
    forall i | 0 <= i < |s| :: s[i] != '.' && !IsSpace(s[i])
  }

  lemma AlphabetIsPlain(s: string)
    requires InAlphabet(s)
    ensures Plain(s)
  {
    forall i | 0 <= i < |s|
      ensures s[i] != '.' && !IsSpace(s[i])
    {
      assert SymbolValue(s[i]).Some?;
    }
  }

  lemma DecimalIsPlain(n: nat)
    ensures Plain(Decimal(n))
  {
    assert forall i | 0 <= i < |Decimal(n)| :: IsDigit(Decimal(n)[i]);
  }

  /** No whitespace anywhere: `strip` changes nothing. */
  lemma StripKeepsSolid(s: string)
    requires forall i | 0 <= i < |s| :: !IsSpace(s[i])
    ensures Strip(s) == s
  {
  }

  lemma {:induction false} JoinIsSolid(parts: seq<string>)
    requires forall i | 0 <= i < |parts| :: Plain(parts[i])
    ensures forall i | 0 <= i < |Join(parts, '.')| :: !IsSpace(Join(parts, '.')[i])
  {
    if |parts| >= 1 {
      assert Plain(parts[0]);
      JoinIsSolid(parts[1..]);
    }
  }

  lemma {:induction false} PlainPartsAreSeparable(parts: seq<string>, limit: nat)
    requires parts != [] && limit >= |parts| - 1
    requires forall i | 0 <= i < |parts| :: Plain(parts[i])
    ensures Separable(parts, '.', limit)
    decreases |parts|
  {
    assert Plain(parts[0]);
    if |parts| > 1 {
      PlainPartsAreSeparable(parts[1..], limit - 1);
    }
  }

  /** Plain fields survive joining, stripping and splitting, whatever they hold. */
  lemma {:induction false} PlainFieldsComeBack(parts: seq<string>)
    requires parts != [] && forall i | 0 <= i < |parts| :: Plain(parts[i])
    ensures Split(Strip(Join(parts, '.')), '.') == parts
  {
    JoinIsSolid(parts);
    var s := Join(parts, '.');
    StripKeepsSolid(s);
    JoinLength(parts);
    PlainPartsAreSeparable(parts, |s|);
    SplitUndoesJoin(parts, '.', |s|);
  }

  lemma {:induction false} JoinLength(parts: seq<string>)
    requires parts != []
    ensures |Join(parts, '.')| >= |parts| - 1
  {
    if |parts| > 1 {
      JoinLength(parts[1..]);
    }
  }

  function TokenParts(iterations: nat, salt: Bytes, nonce: Bytes, sealed: Bytes): seq<string> {
    [ENVELOPE_VERSION, DEFAULT_ALGORITHM, Decimal(iterations), B64e(salt), B64e(nonce), B64e(sealed)]
  }

  lemma Base64IsPlain(raw: Bytes)
    ensures Plain(B64e(raw))
  {
    EncodedIsPlain(raw);
    AlphabetIsPlain(B64e(raw));
  }

  lemma TokenPartsArePlain(iterations: nat, salt: Bytes, nonce: Bytes, sealed: Bytes)
    ensures forall i | 0 <= i < 6 :: Plain(TokenParts(iterations, salt, nonce, sealed)[i])
  {
    assert Plain(ENVELOPE_VERSION) && Plain(DEFAULT_ALGORITHM);
    DecimalIsPlain(iterations);
    Base64IsPlain(salt);
    Base64IsPlain(nonce);
    Base64IsPlain(sealed);
  }

  /** A token splits into exactly the fields it was made of; only a count outside the
      accepted bounds is refused. */
  lemma TokenFields(iterations: nat, salt: Bytes, nonce: Bytes, sealed: Bytes)
    ensures SplitToken(TokenText(DEFAULT_ALGORITHM, iterations, salt, nonce, sealed))
            == if InBounds(iterations)
               then Ok(Fields(DEFAULT_ALGORITHM, iterations, B64e(salt), B64e(nonce), B64e(sealed)))
               else Err(IterationsOutOfRange)
  {
    var parts := TokenParts(iterations, salt, nonce, sealed);
    var token := TokenText(DEFAULT_ALGORITHM, iterations, salt, nonce, sealed);
    assert Split(Strip(token), '.') == parts by {
      TokenPartsArePlain(iterations, salt, nonce, sealed);
      PlainFieldsComeBack(parts);
    }
    ParseUndoesDecimal(iterations);
  }

  lemma DefaultAlgorithmIsNormal()
    ensures NormalizeAlgorithm(Some(DEFAULT_ALGORITHM)) == Ok(DEFAULT_ALGORITHM)
  {
    StripKeepsSolid(DEFAULT_ALGORITHM);
    assert Lower(DEFAULT_ALGORITHM) == DEFAULT_ALGORITHM;
  }

  lemma OnlyOneAlgorithm(value: Option<string>)
    ensures NormalizeAlgorithm(value) in {Ok(DEFAULT_ALGORITHM), Err(UnsupportedAlgorithm)}
  {
  }

  lemma FieldsDecrypt(c: Cipher, plaintext: string, passphrase: string, salt: Bytes, nonce: Bytes, iterations: nat)
    requires Ideal(c)
    ensures var sealed := c.seal(c.derive(passphrase, salt, iterations), nonce, c.encode(plaintext));
            DecryptFields(c, Fields(DEFAULT_ALGORITHM, iterations, B64e(salt), B64e(nonce), B64e(sealed)), passphrase)
            == Ok(plaintext)
  {
    RoundTrip(salt);
    RoundTrip(nonce);
    RoundTrip(c.seal(c.derive(passphrase, salt, iterations), nonce, c.encode(plaintext)));
  }

  // ----- What is accepted, and what comes back -----

  /** No algorithm, a blank one, or the one supported, in any case and with white space around. */
  predicate Accepted(algorithm: Option<string>) {
    algorithm.None? || Lower(Strip(algorithm.value)) in {"", "aes-256-gcm"}
  }

  lemma UpperCaseIsAccepted()
    ensures Accepted(Some("AES-256-GCM")) && Accepted(Some(" ")) && !Accepted(Some("aes-128-cbc"))
  {
    StripKeepsSolid("AES-256-GCM");
    StripKeepsSolid("aes-128-cbc");
    assert Lower("AES-256-GCM") == "aes-256-gcm";
    assert " "[1..] == "" && LeftStrip(" ") == "" && Strip(" ") == "" && Lower("") == "";
    var other := Lower("aes-128-cbc");
    assert |other| == 11 && other[4] == '1' && "aes-256-gcm"[4] == '2';
  }

  /** Encryption refuses a passphrase of fewer than twelve characters, then an algorithm that
      is not accepted, and nothing else. */
  lemma EncryptIsOkIff(c: Cipher, plaintext: string, passphrase: string, algorithm: Option<string>,
                       salt: Bytes, nonce: Bytes, iterations: nat)
    ensures var r := Encrypt(c, plaintext, passphrase, algorithm, salt, nonce, iterations);
            && (r.Ok? <==> |passphrase| >= 12 && Accepted(algorithm))
            && (r.Err? ==> r.error == if |passphrase| == 0 then PassphraseRequired
                                      else if |passphrase| < 12 then PassphraseTooShort else UnsupportedAlgorithm)
  {
  }

  /** The text of a token, field by field. */
  lemma EncryptedTextIs(c: Cipher, plaintext: string, passphrase: string, algorithm: Option<string>,
                        salt: Bytes, nonce: Bytes, iterations: nat)
    requires |passphrase| >= 12 && Accepted(algorithm)
    ensures var r := Encrypt(c, plaintext, passphrase, algorithm, salt, nonce, iterations);
            && r.Ok?
            && Split(Strip(r.value), '.')
               == ["AM2", "aes-256-gcm", Decimal(iterations), B64e(salt), B64e(nonce),
                   B64e(c.seal(c.derive(passphrase, salt, iterations), nonce, c.encode(plaintext)))]
  {
    EncryptIsOkIff(c, plaintext, passphrase, algorithm, salt, nonce, iterations);
    OnlyOneAlgorithm(algorithm);
    var sealed := c.seal(c.derive(passphrase, salt, iterations), nonce, c.encode(plaintext));
    TokenPartsArePlain(iterations, salt, nonce, sealed);
    PlainFieldsComeBack(TokenParts(iterations, salt, nonce, sealed));
  }

  /** Decryption refuses a short passphrase before it looks at the token, then a token that has
      not six fields, another version, or a count out of bounds. */
  lemma DecryptRefuses(c: Cipher, token: string, passphrase: string, algorithm: Option<string>)
    ensures var r, parts := Decrypt(c, token, passphrase, algorithm), Split(Strip(token), '.');
            && (|passphrase| == 0 ==> r == Err(PassphraseRequired))
            && (0 < |passphrase| < 12 ==> r == Err(PassphraseTooShort))
            && (|passphrase| >= 12 ==>
                  if |parts| != 6 || parts[0] != "AM2" then r == Err(MalformedToken)
                  else if !AllDigits(parts[2]) || !(600_000 <= ParseDecimal(parts[2]) <= 5_000_000)
                  then r == Err(IterationsOutOfRange)
                  else if !Accepted(Some(parts[1])) then r == Err(UnsupportedAlgorithm)
                  else !Accepted(algorithm) ==> r == Err(UnsupportedAlgorithm))
  {
  }

  /** What it does not refuse it opens with the key derived from the token's own salt and count. */
  lemma DecryptOpens(c: Cipher, token: string, passphrase: string, algorithm: Option<string>)
    requires |passphrase| >= 12 && Accepted(algorithm)
    requires var parts := Split(Strip(token), '.');
             && |parts| == 6 && parts[0] == "AM2" && Accepted(Some(parts[1]))
             && AllDigits(parts[2]) && 600_000 <= ParseDecimal(parts[2]) <= 5_000_000
    ensures var r, parts := Decrypt(c, token, passphrase, algorithm), Split(Strip(token), '.');
            var salt, nonce, sealed := B64d(parts[3]), B64d(parts[4]), B64d(parts[5]);
            if salt.None? || nonce.None? || sealed.None? then r == Err(BadBase64)
            else
              var plain := c.open(c.derive(passphrase, salt.value, ParseDecimal(parts[2])), nonce.value, sealed.value);
              r == if plain.None? || c.decode(plain.value).None? then Err(DecryptionFailed)
                   else Ok(c.decode(plain.value).value)
  {
    OnlyOneAlgorithm(algorithm);
    OnlyOneAlgorithm(Some(Split(Strip(token), '.')[1]));
  }

  /** With one supported algorithm the two that are compared are never different ones. */
  lemma AlgorithmsNeverMismatch(c: Cipher, token: string, passphrase: string, algorithm: Option<string>)
    ensures Decrypt(c, token, passphrase, algorithm) != Err(AlgorithmMismatch)
  {
    OnlyOneAlgorithm(algorithm);
  }

  /** Main result: with an ideal cipher, a passphrase of at least twelve characters and accepted
      algorithms, encryption succeeds, and decrypting the token gives the plaintext back exactly
      when the count it was made with is within bounds. The count configured at decryption
      time plays no part. */
  lemma DecryptUndoesEncrypt(c: Cipher, plaintext: string, passphrase: string, algorithm: Option<string>,
                             salt: Bytes, nonce: Bytes, iterations: nat, expected: Option<string>)
    requires Ideal(c) && |passphrase| >= 12 && Accepted(algorithm) && Accepted(expected)
    ensures Encrypt(c, plaintext, passphrase, algorithm, salt, nonce, iterations).Ok?
    ensures var token := Encrypt(c, plaintext, passphrase, algorithm, salt, nonce, iterations).value;
            Decrypt(c, token, passphrase, expected)
            == if 600_000 <= iterations <= 5_000_000 then Ok(plaintext) else Err(IterationsOutOfRange)
  {
    EncryptIsOkIff(c, plaintext, passphrase, algorithm, salt, nonce, iterations);
    var sealed := c.seal(c.derive(passphrase, salt, iterations), nonce, c.encode(plaintext));
    var token := Encrypt(c, plaintext, passphrase, algorithm, salt, nonce, iterations).value;
    assert token == TokenText(DEFAULT_ALGORITHM, iterations, salt, nonce, sealed) by {
      OnlyOneAlgorithm(algorithm);
    }
    TokenFields(iterations, salt, nonce, sealed);
    DefaultAlgorithmIsNormal();
    OnlyOneAlgorithm(expected);
    FieldsDecrypt(c, plaintext, passphrase, salt, nonce, iterations);
  }

  // ----- AMS2 -----

  /** Fernet and its key derivation as functions; a Fernet token is ASCII text. */
  datatype Fernet = Fernet(
    buildKey: (string, nat) -> Bytes,
    lock: (Bytes, string) -> string,
    unlock: (Bytes, string) -> Option<string>)

  ghost predicate IdealFernet(f: Fernet) {
    && (forall key, plain :: f.unlock(key, f.lock(key, plain)) == Some(plain))
    && (forall key, plain :: Ascii(f.lock(key, plain)))
  }

  /** An `EncryptionService`: its secret, and the count configured when it was built. */
  datatype Service = Service(fernet: Fernet, secret: string, iterations: nat) {

    function Encrypt(plaintext: string): string {
      Join([CREDENTIAL_PREFIX, Decimal(iterations), fernet.lock(fernet.buildKey(secret, iterations), plaintext)], '.')
    }

    /** `None` stands for the one decryption error. */
    function Decrypt(token: string): Option<string> {
      if !Ascii(token) then None
      else
        var parts := SplitAtMost(token, '.', 2);
        if |parts| != 3 then None
        else
          var count := ParseIterations(parts[1]);
          if parts[0] != CREDENTIAL_PREFIX || !InBounds(count) then None
          else fernet.unlock(fernet.buildKey(secret, count), parts[2])
    }
  }

  /** A stored credential is readable by every service with the same secret, whatever count
      that service is configured with, exactly when the stored count is within bounds. */
  lemma CredentialOutlivesConfiguration(writer: Service, reader: Service, plaintext: string)
    requires IdealFernet(writer.fernet)
    requires reader.fernet == writer.fernet && reader.secret == writer.secret
    ensures SplitAtMost(writer.Encrypt(plaintext), '.', 2)
            == ["AMS2", Decimal(writer.iterations),
                writer.fernet.lock(writer.fernet.buildKey(writer.secret, writer.iterations), plaintext)]
    ensures reader.Decrypt(writer.Encrypt(plaintext))
            == if 600_000 <= writer.iterations <= 5_000_000 then Some(plaintext) else None
  {
    var body := writer.fernet.lock(writer.fernet.buildKey(writer.secret, writer.iterations), plaintext);
    var digits := Decimal(writer.iterations);
    var parts := [CREDENTIAL_PREFIX, digits, body];
    DecimalIsPlain(writer.iterations);
    ParseUndoesDecimal(writer.iterations);
    assert Plain(digits);
    assert Separable([body], '.', 0);
    assert parts[1..] == [digits, body] && [digits, body][1..] == [body];
    SplitUndoesJoin(parts, '.', 2);
    AsciiEnvelope(digits, body);
  }

  /** A value that is not ASCII, has not three fields, another prefix, or a count out of bounds
      is refused, whatever the cipher says. */
  lemma CredentialRefused(reader: Service, token: string)
    ensures var parts := SplitAtMost(token, '.', 2);
            reader.Decrypt(token).Some? ==>
              && Ascii(token) && |parts| == 3 && parts[0] == "AMS2" && AllDigits(parts[1])
              && 600_000 <= ParseDecimal(parts[1]) <= 5_000_000
              && reader.Decrypt(token)
                 == reader.fernet.unlock(reader.fernet.buildKey(reader.secret, ParseDecimal(parts[1])), parts[2])
  {
  }

  lemma AsciiEnvelope(digits: string, body: string)
    requires AllDigits(digits) && Ascii(body)
    ensures Ascii(Join([CREDENTIAL_PREFIX, digits, body], '.'))
  {
    var parts := [CREDENTIAL_PREFIX, digits, body];
    assert parts[1..] == [digits, body] && [digits, body][1..] == [body];
    assert Join([digits, body], '.') == digits + "." + body;
    assert Join(parts, '.') == CREDENTIAL_PREFIX + "." + (digits + "." + body);
    assert forall i | 0 <= i < |digits| :: IsDigit(digits[i]);
  }
}
