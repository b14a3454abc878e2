/** The cipher contract of `utils/encryption.py`: key derivation, the
    fail-open encrypt/decrypt pair, ciphertext sniffing, `smart_decrypt` and
    the corrupted-value marker.

    Fernet (AES-CBC with HMAC-SHA256) and PBKDF2-HMAC-SHA256 are foreign
    library calls. They enter the model as function values: `Fernet` bundles
    the key check done by `Fernet(key)`, the sealing and opening of a token and
    the lenient `base64.urlsafe_b64decode` test behind `_is_base64`; `Lawful`
    states the laws the rest of the model relies on. `ToyFernet` is a concrete
    cipher satisfying `Lawful`, so the laws are consistent. */
module Encryption {
  import opened Common

  type Byte = x: int | 0 <= x < 256

  /** PBKDF2 output as requested by the source: exactly 32 bytes. */
  type Bytes32 = b: seq<Byte> | |b| == 32 witness seq(32, i => 0)

  /** A Fernet key as held in the session: base64url text. */
  type Key = string

  const TOKEN_PREFIX: string := "gAAAAA"
  /** A sniffed token must be strictly longer than this. */
  const TOKEN_MIN_LENGTH: nat := 60
  const CORRUPTED_OPEN: string := "[CORRUPTED: "
  const CORRUPTED_CLOSE: string := "...]"
  const CORRUPTED_PREVIEW: nat := 20
  const SALT_BYTES: nat := 16
  const KDF_ITERATIONS: nat := 100000
  const KEY_BYTES: nat := 32

  /** The base64url alphabet: letters, digits, `-` and `_`. */
  predicate UrlSafe(c: char) {
    ('A' <= c <= 'Z') || ('a' <= c <= 'z') || ('0' <= c <= '9') || c == '-' || c == '_'
  }

  /** The Fernet primitives: `validKey` is "`Fernet(key)` does not raise",
      `seal` is `Fernet(key).encrypt`, `open` is `Fernet(key).decrypt` with
      `None` for a rejected token, `decodes` is `_is_base64`. The random IV and
      timestamp of a real token are folded into `seal`. */
  datatype Fernet = Fernet(
    validKey: Key -> bool,
    seal: (Key, string) -> string,
    open: (Key, string) -> Option<string>,
    decodes: string -> bool)

  /** PBKDF2-HMAC-SHA256 with a 32-byte output: (password, salt, iterations). */
  datatype Pbkdf2 = Pbkdf2(derive: (string, seq<Byte>, nat) -> Bytes32)

  /** `not key` is false: a key is present and non-empty. */
  predicate HasKey(key: Option<Key>) {
    key.Some? && key.value != ""
  }

  /** `is_encrypted`: the shape of a Fernet token. */
  predicate IsEncrypted(f: Fernet, text: string) {
    TOKEN_PREFIX <= text && |text| > TOKEN_MIN_LENGTH && f.decodes(text)
  }

  /** The text `base64.urlsafe_b64encode` produces for 32 bytes. */
  predicate IsKeyText(k: Key) {
    |k| == 44 && k[43] == '=' && forall i :: 0 <= i < 43 ==> UrlSafe(k[i])
  }

  /** The value of a base64url character. */
  function SextetValue(c: char): (n: nat)
    requires UrlSafe(c)
    ensures n < 64
  {
    if 'A' <= c <= 'Z' then c as int - 'A' as int
    else if 'a' <= c <= 'z' then c as int - 'a' as int + 26
    else if '0' <= c <= '9' then c as int - '0' as int + 52
    else if c == '-' then 62
    else 63
  }

  /** A key text exactly as `urlsafe_b64encode` writes 32 bytes: the last
      character before `=` carries two padding bits, and they are zero. The
      decoder ignores those bits, so every 32-byte key has four spellings
      and only this one is canonical. */
  predicate CanonicalKey(k: Key) {
    IsKeyText(k) && SextetValue(k[42]) % 4 == 0
  }

  /** Laws of the cipher. Tokens have the sniffed shape (the source's comment
      on `is_encrypted`) and open to what was sealed; a token opens under no
      other canonical key (HMAC authentication: distinct canonical texts are
      distinct key bytes); and every base64url text of 32 bytes is accepted
      as a key. */
  ghost predicate Lawful(f: Fernet) {
    && (forall k, s :: f.validKey(k) && s != "" ==>
          IsEncrypted(f, f.seal(k, s)) && f.open(k, f.seal(k, s)) == Some(s))
    && (forall k, k', s :: CanonicalKey(k) && CanonicalKey(k') && k' != k && s != "" ==>
          f.open(k', f.seal(k, s)) == None)
    && (forall k :: IsKeyText(k) ==> f.validKey(k))
  }

  // ---------------------------------------------------------------------
  // Key derivation.
  // ---------------------------------------------------------------------

  /** Number of `=` characters closing the encoding of `n` bytes. */
  function Padding(n: nat): nat
    decreases n
  {
    if n == 0 then 0 else if n <= 3 then 3 - n else Padding(n - 3)
  }

  /** Length of the encoding of `n` bytes: four characters per started group
      of three. */
  function EncodedLength(n: nat): nat
    decreases n
  {
    if n == 0 then 0 else if n <= 3 then 4 else 4 + EncodedLength(n - 3)
  }

  function Sextet(n: int): (c: char)
    requires 0 <= n < 64
    ensures UrlSafe(c)
    ensures SextetValue(c) == n
  {
    if n < 26 then ('A' as int + n) as char
    else if n < 52 then ('a' as int + n - 26) as char
    else if n < 62 then ('0' as int + n - 52) as char
    else if n == 62 then '-'
    else '_'
  }

  /** One base64url group: the four characters encoding up to three bytes,
      with `=` standing in for the sextets of missing bytes. */
  function EncodeGroup(g: seq<Byte>): (r: string)
    requires 1 <= |g| <= 3
    ensures |r| == 4
    ensures forall i :: 0 <= i < 4 - Padding(|g|) ==> UrlSafe(r[i])
    ensures forall i :: 4 - Padding(|g|) <= i < 4 ==> r[i] == '='
    ensures |g| == 2 ==> SextetValue(r[2]) % 4 == 0
  {
    if |g| == 1 then
      [Sextet(g[0] / 4), Sextet((g[0] % 4) * 16), '=', '=']
    else if |g| == 2 then
      [Sextet(g[0] / 4), Sextet((g[0] % 4) * 16 + g[1] / 16), Sextet((g[1] % 16) * 4), '=']
    else
      [Sextet(g[0] / 4), Sextet((g[0] % 4) * 16 + g[1] / 16),
       Sextet((g[1] % 16) * 4 + g[2] / 64), Sextet(g[2] % 64)]
  }

  /** `base64.urlsafe_b64encode`: four characters per three bytes, the last
      group padded with `=`. */
  function Base64UrlEncode(b: seq<Byte>): (r: string)
    ensures |r| == EncodedLength(|b|)
    ensures Padding(|b|) <= |r|
    ensures forall i :: 0 <= i < |r| - Padding(|b|) ==> UrlSafe(r[i])
    ensures forall i :: |r| - Padding(|b|) <= i < |r| ==> r[i] == '='
    decreases |b|
  {
    if |b| == 0 then ""
    else if |b| <= 3 then EncodeGroup(b)
    else
      var head := EncodeGroup(b[..3]);
      var tail := Base64UrlEncode(b[3..]);
      var r := head + tail;
      assert forall i :: 0 <= i < 4 ==> r[i] == head[i];
      assert forall i :: 4 <= i < |r| ==> r[i] == tail[i - 4];
      r
  }

  /** When the last group holds two bytes, the character before `=` carries
      two zero padding bits. */
  lemma {:induction false} EncodingIsCanonical(b: seq<Byte>)
    requires |b| % 3 == 2
    ensures |Base64UrlEncode(b)| >= 2 && UrlSafe(Base64UrlEncode(b)[|Base64UrlEncode(b)| - 2])
    ensures SextetValue(Base64UrlEncode(b)[|Base64UrlEncode(b)| - 2]) % 4 == 0
    decreases |b|
  {
    if |b| > 3 {
      EncodingIsCanonical(b[3..]);
      var head := EncodeGroup(b[..3]);
      var tail := Base64UrlEncode(b[3..]);
      var r := Base64UrlEncode(b);
      assert r == head + tail;
      assert r[|r| - 2] == tail[|tail| - 2];
    }
  }

  /** `derive_encryption_key`: a `ValueError` for an empty password or salt,
      otherwise the base64url text of the 32 derived bytes. */
  function DeriveKey(kdf: Pbkdf2, password: string, salt: seq<Byte>): (r: Result<Key>)
    ensures r.Err? <==> password == "" || salt == []
    ensures r.Ok? ==> IsKeyText(r.value)
    ensures r.Ok? ==> CanonicalKey(r.value)
  {
    if password == "" || salt == [] then Err("Password and salt are required")
    else
      var key := Base64UrlEncode(kdf.derive(password, salt, KDF_ITERATIONS));
      assert EncodedLength(32) == 44 && Padding(32) == 1;
      EncodingIsCanonical(kdf.derive(password, salt, KDF_ITERATIONS));
      Ok(key)
  }

  /** Under a lawful cipher every derived key is accepted by `Fernet(key)`. */
  lemma DerivedKeyIsValid(f: Fernet, kdf: Pbkdf2, password: string, salt: seq<Byte>)
    requires Lawful(f)
    requires password != "" && salt != []
    ensures DeriveKey(kdf, password, salt).Ok?
    ensures f.validKey(DeriveKey(kdf, password, salt).value)
  {
  }

  /** Two spellings of the 32 zero bytes: the decoder drops the padding bits
      of the last character, so both are keys for the same bytes, and only
      the first is what `urlsafe_b64encode` writes. */
  lemma TwoSpellingsOfOneKey()
    ensures var a := seq(43, i => 'A') + "=";
      var b := seq(42, i => 'A') + "B=";
      a != b && IsKeyText(a) && IsKeyText(b) && CanonicalKey(a) && !CanonicalKey(b)
      && a == Base64UrlEncode(seq(32, i => 0))
  {
    var a := seq(43, i => 'A') + "=";
    var b := seq(42, i => 'A') + "B=";
    assert a[42] != b[42];
    var z: seq<Byte> := seq(32, i => 0);
    var e := Base64UrlEncode(z);
    assert EncodedLength(32) == 44 && Padding(32) == 1;
    ZeroBytesEncodeToA(z);
    assert |e| == 44 && Padding(32) == 1 && e[43] == '=';
    forall i | 0 <= i < 44
      ensures e[i] == a[i]
    {
      if i < 43 {
        assert a[i] == 'A';
        assert i < |e| - Padding(|z|);
        assert e[i] == 'A';
      } else {
        assert a[i] == '=';
      }
    }
  }

  /** Zero bytes encode to `A`s before the padding. */
  lemma {:induction false} ZeroBytesEncodeToA(z: seq<Byte>)
    requires forall i :: 0 <= i < |z| ==> z[i] == 0
    ensures forall i :: 0 <= i < |Base64UrlEncode(z)| - Padding(|z|) ==> Base64UrlEncode(z)[i] == 'A'
    decreases |z|
  {
    assert Sextet(0) == 'A';
    if 0 < |z| <= 3 {
      assert z[0] == 0;
      assert |z| >= 2 ==> z[1] == 0;
      assert |z| == 3 ==> z[2] == 0;
    } else if |z| > 3 {
      var g := z[..3];
      assert g[0] == 0 && g[1] == 0 && g[2] == 0;
      ZeroBytesEncodeToA(z[3..]);
      var head := EncodeGroup(g);
      var tail := Base64UrlEncode(z[3..]);
      var r := Base64UrlEncode(z);
      assert r == head + tail;
      assert Padding(|z|) == Padding(|z| - 3);
      forall i | 0 <= i < |r| - Padding(|z|)
        ensures r[i] == 'A'
      {
        if i >= 4 {
          assert r[i] == tail[i - 4];
          assert i - 4 < |tail| - Padding(|z| - 3);
          assert tail[i - 4] == 'A';
        } else {
          assert head == ['A', 'A', 'A', 'A'];
          assert r[i] == head[i];
        }
      }
    }
  }

  // ---------------------------------------------------------------------
  // Encrypt, decrypt, sniff.
  // ---------------------------------------------------------------------

  /** `encrypt_data`: empty plaintext, a missing key and a key Fernet rejects
      all return the plaintext unchanged. */
  function EncryptData(f: Fernet, plaintext: string, key: Option<Key>): (r: string)
    ensures plaintext == "" || !HasKey(key) ==> r == plaintext
    ensures HasKey(key) && !f.validKey(key.value) ==> r == plaintext
    ensures r != plaintext ==> HasKey(key) && f.validKey(key.value)
    ensures Lawful(f) && plaintext != "" && HasKey(key) && f.validKey(key.value) ==>
      IsEncrypted(f, r) && f.open(key.value, r) == Some(plaintext)
  {
    if plaintext == "" then plaintext
    else if !HasKey(key) then plaintext
    else if !f.validKey(key.value) then plaintext
    else f.seal(key.value, plaintext)
  }

  /** The marker `decrypt_data` returns for a token it cannot open. */
  function Corrupted(ciphertext: string): string {
    CORRUPTED_OPEN + ciphertext[..Min(CORRUPTED_PREVIEW, |ciphertext|)] + CORRUPTED_CLOSE
  }

  /** `decrypt_data`: empty input, a missing key and text that is not
      token-shaped pass through; a token that does not open under the key
      (or a key Fernet rejects) yields the corrupted marker. */
  function DecryptData(f: Fernet, ciphertext: string, key: Option<Key>): (r: string)
    ensures ciphertext == "" || !HasKey(key) || !IsEncrypted(f, ciphertext) ==> r == ciphertext
    ensures (IsEncrypted(f, ciphertext) && HasKey(key)
             && (!f.validKey(key.value) || f.open(key.value, ciphertext).None?)) ==>
      r == "[CORRUPTED: " + ciphertext[..20] + "...]"
    ensures (IsEncrypted(f, ciphertext) && HasKey(key) && f.validKey(key.value)
             && f.open(key.value, ciphertext).Some?) ==> r == f.open(key.value, ciphertext).value
  {
    if ciphertext == "" then ciphertext
    else if !HasKey(key) then ciphertext
    else if !IsEncrypted(f, ciphertext) then ciphertext
    else if !f.validKey(key.value) then Corrupted(ciphertext)
    else match f.open(key.value, ciphertext)
      case Some(p) => p
      case None => Corrupted(ciphertext)
  }

  /** `smart_decrypt`. Because `decrypt_data` already sniffs, the extra test
      changes nothing: the two agree on every input. */
  function SmartDecrypt(f: Fernet, value: string, key: Option<Key>): (r: string)
    ensures r == DecryptData(f, value, key)
    ensures !IsEncrypted(f, value) ==> r == value
  {
    if value == "" then value
    else if IsEncrypted(f, value) then DecryptData(f, value, key)
    else value
  }

  // ---------------------------------------------------------------------
  // Properties.
  // ---------------------------------------------------------------------

  /** Round trip: what `encrypt_data` produces, `decrypt_data` and
      `smart_decrypt` turn back into the plaintext under the same key. */
  lemma RoundTrip(f: Fernet, s: string, key: Option<Key>)
    requires Lawful(f)
    requires HasKey(key) && f.validKey(key.value)
    ensures DecryptData(f, EncryptData(f, s, key), key) == s
    ensures SmartDecrypt(f, EncryptData(f, s, key), key) == s
  {
  }

  /** A token sealed under one key and read under another becomes the
      corrupted marker: the data is not recovered. Both keys are canonical,
      as every derived key is. */
  lemma WrongKeyCorrupts(f: Fernet, k: Key, other: Key, s: string)
    requires Lawful(f)
    requires CanonicalKey(k) && CanonicalKey(other) && s != ""
    requires other != k
    ensures DecryptData(f, f.seal(k, s), Some(other)) == Corrupted(f.seal(k, s))
  {
    var t := f.seal(k, s);
    assert IsEncrypted(f, t);
    if f.validKey(other) {
      assert f.open(other, t) == None;
    }
  }

  /** The corrupted marker starts with `[`, so it is never sniffed as a token:
      decrypting it again leaves it as it is. */
  lemma CorruptedIsInert(f: Fernet, c: string, key: Option<Key>)
    ensures !IsEncrypted(f, Corrupted(c))
    ensures DecryptData(f, Corrupted(c), key) == Corrupted(c)
    ensures SmartDecrypt(f, Corrupted(c), key) == Corrupted(c)
  {
    CorruptedIsNotToken(f, c);
  }

  lemma CorruptedIsNotToken(f: Fernet, c: string)
    ensures !IsEncrypted(f, Corrupted(c))
    ensures Corrupted(c) != ""
  {
    assert Corrupted(c)[0] != TOKEN_PREFIX[0];
  }

  /** Text that is not token-shaped is never sniffed as ciphertext, e.g.
      an ordinary sentence. */
  lemma OrdinaryTextIsNotSniffed(f: Fernet)
    ensures !IsEncrypted(f, "just a normal sentence")
    ensures forall t :: |t| <= TOKEN_MIN_LENGTH ==> !IsEncrypted(f, t)
  {
  }

  /** Decrypting twice changes nothing, unless the first result is itself
      token-shaped (a plaintext that looks like a token). */
  lemma SmartDecryptSettles(f: Fernet, v: string, key: Option<Key>)
    ensures var once := SmartDecrypt(f, v, key);
      SmartDecrypt(f, once, key) == once || IsEncrypted(f, once)
  {
    var once := SmartDecrypt(f, v, key);
    if once != v && IsEncrypted(f, v) && HasKey(key) {
      if !f.validKey(key.value) || f.open(key.value, v).None? {
        CorruptedIsInert(f, v, key);
      }
    }
  }

  /** Without a key both directions are the identity (fail-open). */
  lemma NoKeyPassThrough(f: Fernet, s: string)
    ensures EncryptData(f, s, None) == s && DecryptData(f, s, None) == s
    ensures EncryptData(f, s, Some("")) == s && DecryptData(f, s, Some("")) == s
  {
  }

  // ---------------------------------------------------------------------
  // A concrete lawful cipher.
  // ---------------------------------------------------------------------

  const TOY_FILLER: string := "AAAAAAAAAAA"

  /** Tokens are the prefix, the 44-character key, eleven filler characters
      and the plaintext; a token opens only under the key it carries. */
  function ToyFernet(): Fernet {
    Fernet(
      k => |k| == 44,
      (k, s) => TOKEN_PREFIX + k + TOY_FILLER + s,
      (k, t) => if |t| >= 61 && t[..6] == TOKEN_PREFIX && t[6..50] == k then Some(t[61..]) else None,
      t => true)
  }

  lemma ToyFernetIsLawful()
    ensures Lawful(ToyFernet())
  {
    var f := ToyFernet();
    forall k, s | f.validKey(k) && s != ""
      ensures IsEncrypted(f, f.seal(k, s)) && f.open(k, f.seal(k, s)) == Some(s)
    {
      var t := TOKEN_PREFIX + k + TOY_FILLER + s;
      assert f.seal(k, s) == t;
      assert t[..6] == TOKEN_PREFIX && t[6..50] == k && t[61..] == s;
    }
    forall k, k', s | f.validKey(k) && k' != k && s != ""
      ensures f.open(k', f.seal(k, s)) == None
    {
      var t := TOKEN_PREFIX + k + TOY_FILLER + s;
      assert f.seal(k, s) == t;
      assert t[6..50] == k;
    }
  }
}
