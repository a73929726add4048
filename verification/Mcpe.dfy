/** The MCPE encrypted-file layout: header, nonce and body, and the associated data
    that both sides authenticate. Ciphers and key encapsulation are given functions. */
module Mcpe {
  import opened Prelude
  import opened Utf8

  /** "MCPE" */
  const MAGIC: Bytes := [0x4D, 0x43, 0x50, 0x45]
  const VERSION: byte := 1
  const NONCE_SIZE := 12
  const HEADER_BASE := 8
  const SYMMETRIC_KEY_SIZE := 32

  const AES_256_GCM: byte := 1
  const CHACHA20: byte := 2
  const MLKEM_768: byte := 5
  const MLKEM_1024: byte := 6

  datatype LayoutError = TooSmall | BadMagic | BadVersion | Truncated

  datatype Parsed = Parsed(algorithm: byte, encKey: Bytes, nonce: Bytes, body: Bytes)

  // ---------------------------------------------------------------- source

  /** `as u16`: the low 16 bits. */
  function TruncateU16(n: nat): nat {
    n % 0x1_0000
  }

  function BigEndian16(n: nat): Bytes
    requires n < 0x1_0000
  {
    [n / 0x100, n % 0x100]
  }

  function U16At(data: Bytes, i: nat): nat
    requires i + 1 < |data|
  {
    var high: nat := data[i];
    0x100 * high + data[i + 1]
  }

  /** Every part stands at its place, and the 16-bit length that the decryptor reads is
      the length of the key exactly up to 65535 bytes. */
  method BuildHeader(algorithm: byte, encKey: Bytes) returns (header: Bytes)
    ensures |header| == 8 + |encKey|
    ensures header[..4] == [0x4D, 0x43, 0x50, 0x45] && header[4] == 1 && header[5] == algorithm
    ensures header[8..] == encKey
    ensures var high: nat, low: nat := header[6], header[7]; 256 * high + low == |encKey| <==> |encKey| <= 0xFFFF
    ensures header == Header(algorithm, encKey)
  {
    var keyLen := TruncateU16(|encKey|);
    header := [];
    header := header + MAGIC;
    header := header + [VERSION];
    header := header + [algorithm];
    header := header + BigEndian16(keyLen);
    header := header + encKey;
    HeaderShape(algorithm, encKey);
    TruncationLoses(|encKey|);
  }

  function Header(algorithm: byte, encKey: Bytes): Bytes {
    MAGIC + [VERSION, algorithm] + BigEndian16(TruncateU16(|encKey|)) + encKey
  }

  /** What is authenticated beside the message: the header without its last two bytes. */
  function AssociatedData(algorithm: byte, encKey: Bytes): Bytes {
    var header := Header(algorithm, encKey);
    header[..|header| - 2]
  }

  function ParseEncrypted(data: Bytes): Result<Parsed, LayoutError> {
    if |data| < HEADER_BASE + NONCE_SIZE + 1 then Err(TooSmall)
    else if data[..4] != MAGIC then Err(BadMagic)
    else if data[4] != VERSION then Err(BadVersion)
    else
      var headerTotal := HEADER_BASE + U16At(data, 6);
      if |data| < headerTotal + NONCE_SIZE + 1 then Err(Truncated)
      else Ok(Parsed(data[5], data[HEADER_BASE..headerTotal],
                     data[headerTotal..headerTotal + NONCE_SIZE], data[headerTotal + NONCE_SIZE..]))
  }

  /** The bytes of an encrypted file. */
  function FileBytes(algorithm: byte, encKey: Bytes, nonce: Bytes, body: Bytes): Bytes {
    Header(algorithm, encKey) + nonce + body
  }

  // ------------------------------------------------------------- the layout

  lemma HeaderShape(algorithm: byte, encKey: Bytes)
    ensures var h := Header(algorithm, encKey);
            && |h| == HEADER_BASE + |encKey|
            && h[..4] == MAGIC && h[4] == VERSION && h[5] == algorithm
            && U16At(h, 6) == TruncateU16(|encKey|)
            && h[HEADER_BASE..] == encKey
  {
  }

  lemma FileShape(algorithm: byte, encKey: Bytes, nonce: Bytes, body: Bytes)
    requires |nonce| == NONCE_SIZE
    ensures var data, n := FileBytes(algorithm, encKey, nonce, body), HEADER_BASE + |encKey|;
            && |data| == n + NONCE_SIZE + |body|
            && data[..4] == MAGIC && data[4] == VERSION && data[5] == algorithm
            && U16At(data, 6) == TruncateU16(|encKey|)
            && data[HEADER_BASE..n] == encKey
            && data[n..n + NONCE_SIZE] == nonce && data[n + NONCE_SIZE..] == body
  {
    HeaderShape(algorithm, encKey);
    var h, data := Header(algorithm, encKey), FileBytes(algorithm, encKey, nonce, body);
    hide Header, TruncateU16;
    assert data[..|h|] == h;
    assert data[..4] == h[..4];
    assert data[HEADER_BASE..|h|] == h[HEADER_BASE..];
  }

  /** A file reads back as it was written exactly when the encapsulated key fits the
      16-bit length and the body is not empty. */
  lemma LayoutRoundTrip(algorithm: byte, encKey: Bytes, nonce: Bytes, body: Bytes)
    requires |nonce| == NONCE_SIZE
    ensures ParseEncrypted(FileBytes(algorithm, encKey, nonce, body)) == Ok(Parsed(algorithm, encKey, nonce, body))
            <==> |encKey| <= 0xFFFF && |body| >= 1
  {
    FileShape(algorithm, encKey, nonce, body);
    TruncationLoses(|encKey|);
    hide FileBytes, TruncateU16, U16At;
    var data := FileBytes(algorithm, encKey, nonce, body);
    var r := ParseEncrypted(data);
    if |encKey| > 0xFFFF {
      assert r.Ok? ==> |r.value.encKey| == U16At(data, 6) < |encKey|;
    }
  }

  lemma TruncationLoses(n: nat)
    ensures TruncateU16(n) <= 0xFFFF && (n <= 0xFFFF ==> TruncateU16(n) == n)
  {
  }

  /** Every file that parses is, byte for byte, what its parts are written as. */
  lemma ParsedIsWritten(data: Bytes)
    requires ParseEncrypted(data).Ok?
    ensures var p := ParseEncrypted(data).value;
            && data == FileBytes(p.algorithm, p.encKey, p.nonce, p.body)
            && |p.nonce| == NONCE_SIZE && |p.encKey| <= 0xFFFF && |p.body| >= 1
  {
    var p := ParseEncrypted(data).value;
    var n := HEADER_BASE + |p.encKey|;
    HeaderOf(data, p);
    hide Header;
    assert data == data[..n] + data[n..n + NONCE_SIZE] + data[n + NONCE_SIZE..];
  }

  lemma HeaderOf(data: Bytes, p: Parsed)
    requires ParseEncrypted(data) == Ok(p)
    ensures HEADER_BASE + |p.encKey| <= |data| && data[..HEADER_BASE + |p.encKey|] == Header(p.algorithm, p.encKey)
  {
  }

  /** Exactly the files that are written from parts parse: a nonce of 12 bytes, a key of
      at most 65535 bytes and a body that is not empty. */
  lemma ParsesExactlyWritten(data: Bytes)
    ensures ParseEncrypted(data).Ok? <==>
              exists a, k, n, b :: |n| == 12 && |k| <= 0xFFFF && b != [] && data == FileBytes(a, k, n, b)
    ensures match ParseEncrypted(data) {
              case Ok(p) => data[..5] == [0x4D, 0x43, 0x50, 0x45, 1]
              case Err(TooSmall) => |data| < 21
              case Err(BadMagic) => |data| >= 21 && data[..4] != [0x4D, 0x43, 0x50, 0x45]
              case Err(BadVersion) => |data| >= 21 && data[..4] == [0x4D, 0x43, 0x50, 0x45] && data[4] != 1
              case Err(Truncated) => |data| >= 21 && data[..5] == [0x4D, 0x43, 0x50, 0x45, 1]
            }
  {
    if ParseEncrypted(data).Ok? {
      ParsedIsWritten(data);
    }
    hide ParseEncrypted, FileBytes;
    if exists a, k, n, b :: |n| == 12 && |k| <= 0xFFFF && b != [] && data == FileBytes(a, k, n, b) {
      var a, k, n, b :| |n| == 12 && |k| <= 0xFFFF && b != [] && data == FileBytes(a, k, n, b);
      LayoutRoundTrip(a, k, n, b);
    }
  }

  /** The associated data covers the algorithm, the length of the encapsulated key and
      all of it but its last two bytes. */
  lemma AssociatedDataCovers(a: byte, k: Bytes, b: byte, l: Bytes)
    ensures AssociatedData(a, k) == AssociatedData(b, l) <==>
              a == b && |k| == |l| && (|k| >= 2 ==> k[..|k| - 2] == l[..|l| - 2])
  {
    AssociatedDataShape(a, k);
    AssociatedDataShape(b, l);
    var h, g := Header(a, k), Header(b, l);
    if a == b && |k| == |l| && (|k| >= 2 ==> k[..|k| - 2] == l[..|l| - 2]) {
      HeaderShape(a, k);
      HeaderShape(b, l);
      forall i | 0 <= i < |h| - 2
        ensures h[i] == g[i]
      {
        assert i >= HEADER_BASE ==> h[i] == k[..|k| - 2][i - HEADER_BASE] && g[i] == l[..|l| - 2][i - HEADER_BASE];
      }
      hide Header;
      assert h[..|h| - 2] == g[..|g| - 2];
    }
  }

  lemma AssociatedDataShape(algorithm: byte, encKey: Bytes)
    ensures var d := AssociatedData(algorithm, encKey);
            && |d| == |encKey| + 6 && d[5] == algorithm
            && (|encKey| >= 2 ==> d[HEADER_BASE..] == encKey[..|encKey| - 2])
  {
    HeaderShape(algorithm, encKey);
    var h := Header(algorithm, encKey);
    hide Header;
    if |encKey| >= 2 {
      assert h[..|h| - 2][HEADER_BASE..] == h[HEADER_BASE..][..|encKey| - 2];
    }
  }

  // ------------------------------------------------- encryption as a whole

  datatype Cipher = Aes256Gcm | ChaCha20Poly1305

  /** The foreign code: authenticated encryption and key encapsulation. */
  datatype Primitives = Primitives(
    seal: (Cipher, Bytes, Bytes, Bytes, Bytes) -> Bytes,
    open: (Cipher, Bytes, Bytes, Bytes, Bytes) -> Option<Bytes>,
    encapsulate: (byte, Bytes, Bytes) -> Option<(Bytes, Bytes)>,
    decapsulate: (byte, Bytes, Bytes) -> Option<Bytes>)
  {
    /** Opening undoes sealing under the same key, nonce and associated data, and no
        sealed message is empty. */
    ghost predicate Opens(cipher: Cipher, key: Bytes, nonce: Bytes, message: Bytes, aad: Bytes) {
      var sealed := seal(cipher, key, nonce, message, aad);
      sealed != [] && open(cipher, key, nonce, sealed, aad) == Some(message)
    }

    /** The secret key recovers what was encapsulated for the public key. */
    ghost predicate Recovers(algorithm: byte, publicKey: Bytes, secretKey: Bytes, coins: Bytes) {
      var e := encapsulate(algorithm, publicKey, coins);
      && e.Some?
      && |e.value.0| == CiphertextSize(algorithm)
      && decapsulate(algorithm, secretKey, e.value.0) == Some(e.value.1)
    }
  }

  /** ML-KEM ciphertext sizes, section 8 of FIPS 203. */
  function CiphertextSize(algorithm: byte): nat {
    if algorithm == MLKEM_768 then 1088 else 1568
  }

  datatype CryptError = BadKey | UnknownAlgorithm | BadFile(layout: LayoutError) | CannotOpen

  predicate Symmetric(algorithm: byte) {
    algorithm in {AES_256_GCM, CHACHA20}
  }

  predicate PublicKey(algorithm: byte) {
    algorithm in {MLKEM_768, MLKEM_1024}
  }

  predicate Known(algorithm: byte) {
    Symmetric(algorithm) || PublicKey(algorithm)
  }

  function CipherOf(algorithm: byte): Cipher {
    if algorithm == CHACHA20 then ChaCha20Poly1305 else Aes256Gcm
  }

  function SymmetricEncrypt(p: Primitives, plaintext: Bytes, key: Bytes, nonce: Bytes, algorithm: byte)
    : Result<Bytes, CryptError>
  {
    if |key| != SYMMETRIC_KEY_SIZE then Err(BadKey)
    else
      var aad := AssociatedData(algorithm, []);
      Ok(FileBytes(algorithm, [], nonce, p.seal(CipherOf(algorithm), key, nonce, plaintext, aad)))
  }

  function SymmetricDecrypt(p: Primitives, body: Bytes, key: Bytes, nonce: Bytes, algorithm: byte)
    : Result<Bytes, CryptError>
  {
    if |key| != SYMMETRIC_KEY_SIZE then Err(BadKey)
    else Opened(p.open(CipherOf(algorithm), key, nonce, body, AssociatedData(algorithm, [])))
  }

  function MlkemEncrypt(p: Primitives, plaintext: Bytes, publicKey: Bytes, coins: Bytes, nonce: Bytes, algorithm: byte)
    : Result<Bytes, CryptError>
  {
    match p.encapsulate(algorithm, publicKey, coins)
    case None => Err(BadKey)
    case Some((encKey, secret)) =>
      var aad := AssociatedData(algorithm, encKey);
      Ok(FileBytes(algorithm, encKey, nonce, p.seal(Aes256Gcm, secret, nonce, plaintext, aad)))
  }

  function MlkemDecrypt(p: Primitives, body: Bytes, encKey: Bytes, nonce: Bytes, secretKey: Bytes, algorithm: byte)
    : Result<Bytes, CryptError>
  {
    match p.decapsulate(algorithm, secretKey, encKey)
    case None => Err(BadKey)
    case Some(secret) => Opened(p.open(Aes256Gcm, secret, nonce, body, AssociatedData(algorithm, encKey)))
  }

  function Opened(r: Option<Bytes>): Result<Bytes, CryptError> {
    if r.Some? then Ok(r.value) else Err(CannotOpen)
  }

  /** The caller's key: for the public-key algorithms the public or the secret half. */
  function EncryptFile(p: Primitives, plaintext: Bytes, key: Bytes, coins: Bytes, nonce: Bytes, algorithm: byte)
    : Result<Bytes, CryptError>
  {
    if Symmetric(algorithm) then SymmetricEncrypt(p, plaintext, key, nonce, algorithm)
    else if PublicKey(algorithm) then MlkemEncrypt(p, plaintext, key, coins, nonce, algorithm)
    else Err(UnknownAlgorithm)
  }

  function DecryptFile(p: Primitives, data: Bytes, key: Bytes): Result<Bytes, CryptError> {
    match ParseEncrypted(data)
    case Err(e) => Err(BadFile(e))
    case Ok(f) =>
      if Symmetric(f.algorithm) then SymmetricDecrypt(p, f.body, key, f.nonce, f.algorithm)
      else if PublicKey(f.algorithm) then MlkemDecrypt(p, f.body, f.encKey, f.nonce, key, f.algorithm)
      else Err(UnknownAlgorithm)
  }

  /** A key pair as `generate_key` hands it out: one 32-byte key for the symmetric
      algorithms, matching halves for the others. */
  ghost predicate Matching(p: Primitives, algorithm: byte, encryptKey: Bytes, decryptKey: Bytes, coins: Bytes) {
    if Symmetric(algorithm) then encryptKey == decryptKey && |encryptKey| == SYMMETRIC_KEY_SIZE
    else PublicKey(algorithm) && p.Recovers(algorithm, encryptKey, decryptKey, coins)
  }

  /** Decrypting undoes encrypting for all four algorithms: the decryptor finds the
      algorithm, the encapsulated key and the nonce in the file and rebuilds the very
      associated data that the encryptor used. */
  lemma DecryptUndoesEncrypt(p: Primitives, message: Bytes, encryptKey: Bytes, decryptKey: Bytes,
                             coins: Bytes, nonce: Bytes, algorithm: byte)
    requires |nonce| == NONCE_SIZE && Matching(p, algorithm, encryptKey, decryptKey, coins)
    requires forall cipher, key, aad :: p.Opens(cipher, key, nonce, message, aad)
    ensures EncryptFile(p, message, encryptKey, coins, nonce, algorithm).Ok?
    ensures var file := EncryptFile(p, message, encryptKey, coins, nonce, algorithm).value;
            DecryptFile(p, file, decryptKey) == Ok(message)
  {
    hide ParseEncrypted, FileBytes, AssociatedData;
    if Symmetric(algorithm) {
      var aad := AssociatedData(algorithm, []);
      assert p.Opens(CipherOf(algorithm), encryptKey, nonce, message, aad);
      LayoutRoundTrip(algorithm, [], nonce, p.seal(CipherOf(algorithm), encryptKey, nonce, message, aad));
    } else {
      var (encKey, secret) := p.encapsulate(algorithm, encryptKey, coins).value;
      var aad := AssociatedData(algorithm, encKey);
      assert p.Opens(Aes256Gcm, secret, nonce, message, aad);
      LayoutRoundTrip(algorithm, encKey, nonce, p.seal(Aes256Gcm, secret, nonce, message, aad));
    }
  }

  /** What each algorithm writes: 1 is AES-256-GCM and 2 is ChaCha20-Poly1305 under the
      given key of 32 bytes and without an encapsulated key; 5 and 6 are ML-KEM, with
      AES-256-GCM under the encapsulated secret. There are no others. */
  lemma EachAlgorithm(p: Primitives, message: Bytes, key: Bytes, coins: Bytes, nonce: Bytes, algorithm: byte)
    ensures var file := EncryptFile(p, message, key, coins, nonce, algorithm);
            var aad := AssociatedData(algorithm, []);
            && (algorithm in {1, 2} ==> (file.Ok? <==> |key| == 32))
            && (algorithm == 1 && |key| == 32 ==>
                  file == Ok(FileBytes(1, [], nonce, p.seal(Aes256Gcm, key, nonce, message, aad))))
            && (algorithm == 2 && |key| == 32 ==>
                  file == Ok(FileBytes(2, [], nonce, p.seal(ChaCha20Poly1305, key, nonce, message, aad))))
            && (algorithm in {5, 6} ==>
                  match p.encapsulate(algorithm, key, coins)
                  case None => file.Err?
                  case Some((k, secret)) =>
                    file == Ok(FileBytes(algorithm, k, nonce, p.seal(Aes256Gcm, secret, nonce, message,
                                                                     AssociatedData(algorithm, k)))))
            && (algorithm !in {1, 2, 5, 6} ==> file == Err(UnknownAlgorithm))
  {
    hide FileBytes, AssociatedData;
  }

  // --------------------------------------- what decryption makes of a file's bytes

  /** Two files that decryption treats alike: the same layout error; an unknown algorithm
      in both; equal bytes; or one symmetric algorithm, nonce and body, whatever stands
      in the place of the encapsulated key. */
  predicate Alike(d: Bytes, e: Bytes) {
    match (ParseEncrypted(d), ParseEncrypted(e))
    case (Err(x), Err(y)) => x == y
    case (Ok(f), Ok(g)) =>
      || (!Known(f.algorithm) && !Known(g.algorithm))
      || d == e
      || (Symmetric(f.algorithm) && f.algorithm == g.algorithm && f.nonce == g.nonce && f.body == g.body)
    case _ => false
  }

  /** Primitives that open only what the parts of `f` describe. */
  function OnlyFor(f: Parsed): Primitives {
    Primitives((c, k, n, m, a) => [0],
               (c, k, n, m, a) => if OpensFor(f, c, k, n, m) then Some([]) else None,
               (a, k, r) => None,
               (a, k, e) => if !Symmetric(f.algorithm) && a == f.algorithm && e == f.encKey then Some([]) else None)
  }

  predicate OpensFor(f: Parsed, cipher: Cipher, key: Bytes, nonce: Bytes, body: Bytes) {
    cipher == CipherOf(f.algorithm) && nonce == f.nonce && body == f.body && (Symmetric(f.algorithm) || key == [])
  }

  lemma OnlyForMeaning(f: Parsed, d: Bytes, g: Parsed, key: Bytes)
    requires ParseEncrypted(d) == Ok(g) && Known(f.algorithm) && |key| == SYMMETRIC_KEY_SIZE
    ensures DecryptFile(OnlyFor(f), d, key).Ok? <==>
              || (Symmetric(f.algorithm) && g.algorithm == f.algorithm && g.nonce == f.nonce && g.body == f.body)
              || (!Symmetric(f.algorithm) && g == f)
    ensures DecryptFile(OnlyFor(f), d, key).Ok? ==> DecryptFile(OnlyFor(f), d, key).value == []
  {
    hide ParseEncrypted, AssociatedData;
    var p := OnlyFor(f);
    var aad := AssociatedData(g.algorithm, []);
    assert p.open(CipherOf(g.algorithm), key, g.nonce, g.body, aad) ==
      if OpensFor(f, CipherOf(g.algorithm), key, g.nonce, g.body) then Some([]) else None;
  }

  lemma OpensOnlyAlike(d: Bytes, e: Bytes, key: Bytes)
    requires ParseEncrypted(d).Ok? && Known(ParseEncrypted(d).value.algorithm) && |key| == SYMMETRIC_KEY_SIZE
    requires var p := OnlyFor(ParseEncrypted(d).value); DecryptFile(p, d, key) == DecryptFile(p, e, key)
    ensures Alike(d, e)
  {
    var f := ParseEncrypted(d).value;
    OnlyForMeaning(f, d, f, key);
    ParsedIsWritten(d);
    if ParseEncrypted(e).Ok? {
      ParsedIsWritten(e);
      OnlyForMeaning(f, e, ParseEncrypted(e).value, key);
    }
    hide ParseEncrypted, AssociatedData, FileBytes, OnlyFor;
  }

  lemma AlikeBack(d: Bytes, e: Bytes)
    requires Alike(d, e)
    ensures Alike(e, d)
  {
    hide ParseEncrypted;
  }

  /** Exactly the files that are alike decrypt alike under all keys and all primitives. */
  lemma AlikeFiles(d: Bytes, e: Bytes)
    ensures Alike(d, e) <==> forall p, key :: DecryptFile(p, d, key) == DecryptFile(p, e, key)
  {
    hide ParseEncrypted, AssociatedData, OnlyFor;
    if forall p, key :: DecryptFile(p, d, key) == DecryptFile(p, e, key) {
      var key: Bytes := seq(SYMMETRIC_KEY_SIZE, _ => 0);
      var (x, y) := (ParseEncrypted(d), ParseEncrypted(e));
      if x.Ok? && Known(x.value.algorithm) {
        OpensOnlyAlike(d, e, key);
      } else if y.Ok? && Known(y.value.algorithm) {
        OpensOnlyAlike(e, d, key);
        AlikeBack(e, d);
      } else {
        var none := OnlyFor(Parsed(0, [], [], []));
        assert DecryptFile(none, d, key) == DecryptFile(none, e, key);
      }
    }
  }
}
