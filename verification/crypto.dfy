/** The CryptoJS calls the service makes, and `generateKey`'s dispatch on
    the key size. AES and PBKDF2 themselves are supplied from outside: they
    are the fields of a CryptoLib value the service is built with. */
module Crypto {
  import opened JsText
  import opened UriComponent

  /** The library primitives, as the service uses them:
      - `aesEncrypt(message, passphrase, salt)`: the text of
        `CryptoJS.AES.encrypt(message, passphrase)` when the library draws
        `salt` as its random salt;
      - `aesDecrypt(ciphertext, passphrase)`: the text of
        `CryptoJS.AES.decrypt(ciphertext, passphrase).toString(CryptoJS.enc.Utf8)`,
        None when that call throws;
      - `pbkdf2(passphrase, salt, words)`: the bytes of
        `CryptoJS.PBKDF2(passphrase, salt, { keySize: words })`. */
  datatype CryptoLib = CryptoLib(
    aesEncrypt: (string, string, seq<Byte>) -> string,
    aesDecrypt: (string, string) -> Option<string>,
    pbkdf2: (string, seq<Byte>, nat) -> seq<Byte>)

  /** The default key size and passphrase of `generateKey`. */
  const DefaultKeySize: string := "128/32"
  const DefaultPassPhrase: string := "Secret PassPhrase"

  /** The key sizes the `switch` accepts, as a number of 32-bit words. */
  function KeyWords(keySize: string): (words: Option<nat>)
    ensures words.Some? <==> keySize in {"128/32", "256/32", "512/32"}
    ensures words.Some? ==> words.value in {4, 8, 16}
  {
    if keySize == "128/32" then Some(4)
    else if keySize == "256/32" then Some(8)
    else if keySize == "512/32" then Some(16)
    else None
  }

  function LowerHexDigit(d: nat): (c: char)
    requires d < 16
    ensures ('0' <= c <= '9') || ('a' <= c <= 'f')
  {
    if d < 10 then '0' + d as char else 'a' + (d - 10) as char
  }

  function LowerHexValue(c: char): (v: Option<nat>)
    ensures v.Some? ==> v.value < 16
  {
    if '0' <= c <= '9' then Some(c as nat - '0' as nat)
    else if 'a' <= c <= 'f' then Some(c as nat - 'a' as nat + 10)
    else None
  }

  /** `WordArray.toString()`: two lower-case hex digits per byte. */
  function Hex(bytes: seq<Byte>): (s: string)
    ensures |s| == 2 * |bytes|
    ensures forall k :: 0 <= k < |s| ==> LowerHexValue(s[k]).Some?
  {
    if bytes == [] then []
    else [LowerHexDigit(bytes[0] / 16), LowerHexDigit(bytes[0] % 16)] + Hex(bytes[1..])
  }

  /** Reading hex text back into bytes. */
  function Unhex(s: string): Option<seq<Byte>>
    decreases |s|
  {
    if s == [] then Some([])
    else if |s| == 1 then None
    else match (LowerHexValue(s[0]), LowerHexValue(s[1]), Unhex(s[2..]))
      case (Some(hi), Some(lo), Some(rest)) => Some([hi * 16 + lo] + rest)
      case _ => None
  }

  lemma HexDigitRoundTrip(d: nat)
    requires d < 16
    ensures LowerHexValue(LowerHexDigit(d)) == Some(d)
  {
  }

  /** The hex text of a key determines its bytes. */
  lemma {:induction false} UnhexHex(bytes: seq<Byte>)
    ensures Unhex(Hex(bytes)) == Some(bytes)
    decreases |bytes|
  {
    if bytes != [] {
      var b := bytes[0];
      var s := Hex(bytes);
      HexDigitRoundTrip(b / 16);
      HexDigitRoundTrip(b % 16);
      UnhexHex(bytes[1..]);
      assert s[2..] == Hex(bytes[1..]);
      assert bytes == [b / 16 * 16 + b % 16] + bytes[1..];
    }
  }

  /** `generateKey(keySize, passPhrase)`, with the random salt it draws as a
      parameter. An absent or empty key size is "128/32", an absent or
      empty passphrase the default one; a key size the `switch` does not
      list leaves the function without a `return`, so it yields
      `undefined`. */
  function GenerateKey(lib: CryptoLib, keySize: string, passPhrase: string, salt: seq<Byte>): (key: Completion<string>)
    ensures !key.Throw?
    ensures key.Normal? <==> keySize in {"", "128/32", "256/32", "512/32"}
  {
    var size := if keySize != "" then keySize else DefaultKeySize;
    var secret := if passPhrase != "" then passPhrase else DefaultPassPhrase;
    match KeyWords(size)
    case Some(words) => Normal(Hex(lib.pbkdf2(secret, salt, words)))
    case None => Undefined
  }

  /** A key has as many hex digits as the key size has bits over four, when
      PBKDF2 delivers the four bytes per word it is asked for; it is the hex
      text of what PBKDF2 derived from the passphrase in use, for that many
      words. */
  lemma GenerateKeyShape(lib: CryptoLib, keySize: string, passPhrase: string, salt: seq<Byte>)
    requires forall p: string, w: nat :: |lib.pbkdf2(p, salt, w)| == 4 * w
    ensures var key := GenerateKey(lib, keySize, passPhrase, salt);
      && (keySize in {"", "128/32"} ==> key.Normal? && |key.value| == 32)
      && (keySize == "256/32" ==> key.Normal? && |key.value| == 64)
      && (keySize == "512/32" ==> key.Normal? && |key.value| == 128)
      && (key.Normal? ==>
            var secret := if passPhrase != "" then passPhrase else DefaultPassPhrase;
            Unhex(key.value) == Some(lib.pbkdf2(secret, salt, |key.value| / 8)))
  {
    var key := GenerateKey(lib, keySize, passPhrase, salt);
    if key.Normal? {
      var size := if keySize != "" then keySize else DefaultKeySize;
      var secret := if passPhrase != "" then passPhrase else DefaultPassPhrase;
      var w := KeyWords(size).value;
      UnhexHex(lib.pbkdf2(secret, salt, w));
    }
  }
}
