/** bcrypt password hashing as passlib's CryptContext with the "bcrypt" scheme performs it.
    The password is encoded as UTF-8; a secret longer than passlib's size limit, or one
    containing a NUL byte, is refused with a `ValueError`; otherwise only the first 72
    bytes enter the hash. The hash itself is modelled symbolically, as the term
    `Bcrypt(salt, key)`: by convention only `Verify` inspects it, and its one-wayness is an
    assumption of the symbolic model, not something proved here. */
module PasswordHasher {
  import opened Wrappers
  import opened Errors

  newtype byte = x: int | 0 <= x < 256

  /** passlib's MAX_PASSWORD_SIZE, in bytes of the encoded secret. */
  const MaxPasswordSize := 4096

  /** bcrypt uses at most this many bytes of the secret. */
  const BcryptKeyBytes := 72

  /** The random salt bcrypt draws on every call; randomness becomes an explicit input. */
  type Salt = string

  /** The stored form of a password. It is a different type from `string`, so a
      plaintext password can never be stored where a hash is expected. */
  datatype PasswordHash = Bcrypt(salt: Salt, key: seq<byte>)

  /** The UTF-8 encoding of one Unicode scalar value. Only U+0000 encodes to a byte 0;
      every byte of a multi-byte encoding is at least 0x80. */
  function Utf8Char(c: char): (b: seq<byte>)
    ensures 1 <= |b| <= 4
    ensures (c as int) < 0x80 <==> |b| == 1
    ensures |b| == 1 ==> b[0] as int == c as int
    ensures (exists i :: 0 <= i < |b| && b[i] == 0) <==> c == '\0'
  {
    var n := c as int;
    if n < 0x80 then [n as byte]
    else if n < 0x800 then [(0xC0 + n / 64) as byte, (0x80 + n % 64) as byte]
    else if n < 0x10000 then
      [(0xE0 + n / 4096) as byte, (0x80 + (n / 64) % 64) as byte, (0x80 + n % 64) as byte]
    else
      [(0xF0 + n / 262144) as byte, (0x80 + (n / 4096) % 64) as byte,
       (0x80 + (n / 64) % 64) as byte, (0x80 + n % 64) as byte]
  }

  /** `str.encode("utf-8")`. The encoding is at least as long as the string, and holds a
      NUL byte exactly when the string holds U+0000. */
  function Utf8(s: string): (b: seq<byte>)
    ensures |s| <= |b| <= 4 * |s|
    ensures 0 in b <==> '\0' in s
  {
    if |s| == 0 then []
    else
      var head := Utf8Char(s[0]);
      var tail := Utf8(s[1..]);
      assert 0 in head <==> s[0] == '\0';
      assert '\0' in s <==> s[0] == '\0' || '\0' in s[1..];
      head + tail
  }

  /** A secret bcrypt accepts: within the size limit and free of NUL. */
  predicate Acceptable(password: string)
  {
    |Utf8(password)| <= MaxPasswordSize && '\0' !in password
  }

  /** The bytes bcrypt actually hashes: the first 72 bytes of the encoding. */
  function Key(password: string): (k: seq<byte>)
    ensures |k| <= BcryptKeyBytes && |k| <= |Utf8(password)|
    ensures k == Utf8(password)[..|k|]
    ensures |k| < BcryptKeyBytes ==> k == Utf8(password)
  {
    var b := Utf8(password);
    if |b| <= BcryptKeyBytes then b else b[..BcryptKeyBytes]
  }

  /** The refusal passlib raises for an unacceptable secret (size is checked first). */
  function Refusal(password: string): Error
  {
    if |Utf8(password)| > MaxPasswordSize then PasswordTooLong else PasswordHasNul
  }

  /** `get_password_hash`: hash `password` under `salt`, or raise the hasher's refusal. The
      result carries the salt and verifies exactly the acceptable passwords that share its
      first 72 encoded bytes. */
  function Hash(password: string, salt: Salt): (r: Result<PasswordHash, Error>)
    ensures r.Err? <==> !Acceptable(password)
    ensures r.Err? ==> r.error == PasswordTooLong || r.error == PasswordHasNul
    ensures '\0' in password ==> r.Err?
    ensures r.Ok? ==> r.value.salt == salt
    ensures r.Ok? ==> Verify(password, r.value) == Ok(true)
    ensures r.Ok? ==> forall other :: Acceptable(other) ==>
      (Verify(other, r.value) == Ok(true) <==> Key(other) == Key(password))
  {
    if !Acceptable(password) then Err(Refusal(password))
    else Ok(Bcrypt(salt, Key(password)))
  }

  /** `verify_password`: refuse an unacceptable secret as hashing does; otherwise re-hash
      the secret with the salt stored in `h` and compare. */
  function Verify(password: string, h: PasswordHash): (r: Result<bool, Error>)
    ensures r.Err? <==> !Acceptable(password)
    ensures r.Err? ==> r.error == PasswordTooLong || r.error == PasswordHasNul
    ensures r == Ok(true) ==> Key(password) == h.key
  {
    if !Acceptable(password) then Err(Refusal(password))
    else Ok(Bcrypt(h.salt, Key(password)) == h)
  }

  /** Salting makes hashing non-deterministic: the same acceptable password under two salts
      gives two different hashes, and each still verifies that password. */
  lemma SaltedHashesDiffer(password: string, s1: Salt, s2: Salt)
    requires Acceptable(password)
    requires s1 != s2
    ensures Hash(password, s1).Ok? && Hash(password, s2).Ok?
    ensures Hash(password, s1).value != Hash(password, s2).value
    ensures Verify(password, Hash(password, s1).value) == Ok(true)
    ensures Verify(password, Hash(password, s2).value) == Ok(true)
  {
  }

  /** An ASCII string encodes to one byte per character, with the same values. */
  lemma {:induction false} AsciiUtf8(s: string)
    requires forall i :: 0 <= i < |s| ==> (s[i] as int) < 0x80
    ensures |Utf8(s)| == |s|
    ensures forall i :: 0 <= i < |s| ==> Utf8(s)[i] as int == s[i] as int
  {
    if |s| > 0 {
      AsciiUtf8(s[1..]);
      assert Utf8(s) == Utf8Char(s[0]) + Utf8(s[1..]);
    }
  }

  /** bcrypt's 72-byte limit: two acceptable passwords that share their first 72 encoded
      bytes verify against each other's hash, so a password of 72 `a`s followed by `x` is
      accepted for one hashed as 72 `a`s followed by `y`. */
  lemma TruncatedPasswordsCollide(prefix: string, salt: Salt)
    requires |prefix| == 72
    requires forall i :: 0 <= i < |prefix| ==> 0 < (prefix[i] as int) < 0x80
    ensures Hash(prefix + "y", salt).Ok?
    ensures Verify(prefix + "x", Hash(prefix + "y", salt).value) == Ok(true)
  {
    var px, py := prefix + "x", prefix + "y";
    AsciiUtf8(px);
    AsciiUtf8(py);
    assert '\0' !in px && '\0' !in py by {
      assert forall i :: 0 <= i < |px| ==> px[i] != '\0';
      assert forall i :: 0 <= i < |py| ==> py[i] != '\0';
    }
    assert Key(px) == Key(py) by {
      assert forall i :: 0 <= i < 72 ==> Utf8(px)[i] == Utf8(py)[i];
    }
  }
}
