/** The stored credential format and its check (`hashPassword` and
    `comparePasswords`). The key-derivation function (scrypt with a 64-byte
    output) is a parameter: any deterministic function from a password and
    a salt text to 64 bytes. */
module Credentials {
  import opened Wrappers
  import opened Text
  import opened Hex

  const DigestLength: nat := 64
  const SaltLength: nat := 16

  type Digest = d: seq<byte> | |d| == DigestLength witness seq(64, i => 0)
  type Salt = s: seq<byte> | |s| == SaltLength witness seq(16, i => 0)

  /** `scrypt(password, salt, 64)`; note that the salt it receives is the
      salt's hex text, not its bytes. */
  type Kdf = (string, string) -> Digest

  /** What makes `comparePasswords` throw. */
  datatype CompareError =
    | SaltMissing     // no '.': scrypt is handed an undefined salt
    | LengthMismatch  // the stored digest does not decode to 64 bytes

  /** `hashPassword`: the hex digest of the password under a fresh 16-byte
      salt, a '.', and the hex salt. */
  function HashPassword(kdf: Kdf, password: string, salt: Salt): (stored: string)
    ensures |stored| == 2 * DigestLength + 1 + 2 * SaltLength
    ensures stored[2 * DigestLength] == '.'
  {
    var saltHex := HexEncode(salt);
    HexEncode(kdf(password, saltHex)) + "." + saltHex
  }

  /** `comparePasswords`: split the stored text on '.', decode the first part,
      re-derive from the supplied password and the second part, and compare;
      digests of different lengths make the comparison throw. */
  function ComparePasswords(kdf: Kdf, supplied: string, stored: string): (r: Result<bool, CompareError>)
    ensures r == Err(SaltMissing) <==> |Split(stored, '.')| < 2
    ensures r.Err? <==> |Split(stored, '.')| < 2 || |HexDecode(Split(stored, '.')[0])| != DigestLength
    ensures r.Ok? ==> (r.value <==> HexDecode(Split(stored, '.')[0]) == kdf(supplied, Split(stored, '.')[1]))
  {
    var parts := Split(stored, '.');
    var hashedBuf := HexDecode(parts[0]);
    if |parts| < 2 then Err(SaltMissing)
    else
      var suppliedBuf := kdf(supplied, parts[1]);
      if |hashedBuf| != |suppliedBuf| then Err(LengthMismatch)
      else Ok(hashedBuf == suppliedBuf)
  }

  /** Splitting a stored hash on '.' gives back exactly the hex digest and the
      hex salt, since hex text holds no '.'. */
  lemma HashSplitsIntoDigestAndSalt(kdf: Kdf, password: string, salt: Salt)
    ensures var saltHex := HexEncode(salt);
            Split(HashPassword(kdf, password, salt), '.') == [HexEncode(kdf(password, saltHex)), saltHex]
  {
    var saltHex := HexEncode(salt);
    var digestHex := HexEncode(kdf(password, saltHex));
    NoDotInHex(kdf(password, saltHex));
    NoDotInHex(salt);
    SplitConcat(digestHex, '.', saltHex);
    SplitWithoutSeparator(saltHex, '.');
  }

  /** Checking a password against a stored hash answers whether the KDF gives
      the same digest for it as for the password that was hashed. */
  lemma CompareAgainstHash(kdf: Kdf, supplied: string, password: string, salt: Salt)
    ensures var saltHex := HexEncode(salt);
            ComparePasswords(kdf, supplied, HashPassword(kdf, password, salt))
              == Ok(kdf(supplied, saltHex) == kdf(password, saltHex))
  {
    HashSplitsIntoDigestAndSalt(kdf, password, salt);
    DecodeEncode(kdf(password, HexEncode(salt)));
  }

  /** A password always matches its own hash. */
  lemma OwnHashVerifies(kdf: Kdf, password: string, salt: Salt)
    ensures ComparePasswords(kdf, password, HashPassword(kdf, password, salt)) == Ok(true)
  {
    CompareAgainstHash(kdf, password, password, salt);
  }

  /** A stored value without a '.' makes the check throw, whatever is supplied. */
  lemma NoSeparatorThrows(kdf: Kdf, supplied: string, stored: string)
    requires '.' !in stored
    ensures ComparePasswords(kdf, supplied, stored) == Err(SaltMissing)
  {
    SplitWithoutSeparator(stored, '.');
  }

  /** A stored digest part shorter than 128, or with a character among its
      first 128 whose low byte is not a hex digit, decodes to fewer than 64
      bytes: the check throws instead of answering false. */
  lemma MalformedDigestThrows(kdf: Kdf, supplied: string, stored: string, i: nat)
    requires '.' in stored
    requires i < 2 * DigestLength
    requires var hashed := Split(stored, '.')[0]; i >= |hashed| || !IsHexDigit(LowByte(hashed[i]))
    ensures ComparePasswords(kdf, supplied, stored) == Err(LengthMismatch)
  {
    var parts := Split(stored, '.');
    DecodeStopsAt(parts[0], i);
    JoinSplit(stored, '.');
  }
}
