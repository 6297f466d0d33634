/** Passphrase encryption as OpenSSL does it, in the extension runtime's JavaScript
    (crates/engine/src/crypto_js_polyfill.js) and in the paste reader's Rust (crates/iptv/src/pastesh.rs). */
module Passphrase {
  import opened Wrappers
  import opened HexCodec
  import opened BlockCipher
  import opened Aes

  /** A hash function with digests of one positive length. */
  ghost predicate FixedLength(digest: Bytes -> Bytes, size: nat) {
    size > 0 && forall b :: |digest(b)| == size
  }

  // ---------------------------------------------------------------------------------------------
  // Key derivation

  /** Link n of the derivation: each digests the link before it and the seed. */
  function Link(digest: Bytes -> Bytes, seed: Bytes, n: nat): Bytes {
    if n == 0 then [] else digest(Link(digest, seed, n - 1) + seed)
  }

  function Stream(digest: Bytes -> Bytes, seed: Bytes, n: nat): Bytes {
    if n == 0 then [] else Stream(digest, seed, n - 1) + Link(digest, seed, n)
  }

  lemma {:induction false} StreamLength(digest: Bytes -> Bytes, size: nat, seed: Bytes, n: nat)
    requires FixedLength(digest, size)
    ensures |Stream(digest, seed, n)| == n * size
  {
    if n > 0 {
      StreamLength(digest, size, seed, n - 1);
      assert n * size == (n - 1) * size + size;
    }
  }

  lemma {:induction false} StreamGrows(digest: Bytes -> Bytes, seed: Bytes, m: nat, n: nat)
    requires m <= n
    ensures Stream(digest, seed, m) <= Stream(digest, seed, n)
  {
    if m < n {
      StreamGrows(digest, seed, m, n - 1);
    }
  }

  /** The first `need` bytes of the stream, which has no end. */
  function Derived(digest: Bytes -> Bytes, seed: Bytes, need: nat): Bytes {
    var s := Stream(digest, seed, need);
    if need <= |s| then s[..need] else s
  }

  /** Any long enough stretch of the stream starts with the derived bytes. */
  lemma DerivedIsPrefix(digest: Bytes -> Bytes, size: nat, seed: Bytes, need: nat, n: nat)
    requires FixedLength(digest, size) && need <= n * size
    ensures |Derived(digest, seed, need)| == need && Derived(digest, seed, need) <= Stream(digest, seed, n)
  {
    hide Stream;
    StreamLength(digest, size, seed, need);
    StreamLength(digest, size, seed, n);
    assert need * size == need + need * (size - 1);
    if n <= need {
      StreamGrows(digest, seed, n, need);
    } else {
      StreamGrows(digest, seed, need, n);
    }
  }

  /** Asking for more key material extends what less of it gives. */
  lemma LongerKeyExtends(digest: Bytes -> Bytes, size: nat, seed: Bytes, less: nat, more: nat)
    requires FixedLength(digest, size) && less <= more
    ensures |Derived(digest, seed, more)| == more
    ensures Derived(digest, seed, less) == Derived(digest, seed, more)[..less]
  {
    assert more <= more * size;
    DerivedIsPrefix(digest, size, seed, less, more);
    DerivedIsPrefix(digest, size, seed, more, more);
  }

  function Key(digest: Bytes -> Bytes, pass: Bytes, salt: Bytes): Bytes { Derived(digest, pass + salt, 32) }

  function Iv(digest: Bytes -> Bytes, pass: Bytes, salt: Bytes): Bytes {
    var d := Derived(digest, pass + salt, 48);
    if |d| == 48 then d[32..] else []
  }

  lemma KeyLengths(digest: Bytes -> Bytes, size: nat, pass: Bytes, salt: Bytes)
    requires FixedLength(digest, size)
    ensures |Key(digest, pass, salt)| == 32 && |Iv(digest, pass, salt)| == 16
    ensures Key(digest, pass, salt) + Iv(digest, pass, salt) == Derived(digest, pass + salt, 48)
  {
    LongerKeyExtends(digest, size, pass + salt, 32, 48);
  }

  /** `evp_bytes_to_key`, on bytes. */
  method EvpBytesToKey(digest: Bytes -> Bytes, ghost size: nat, password: Bytes, salt: Bytes, keyLen: nat, ivLen: nat)
    returns (key: Bytes, iv: Bytes)
    requires FixedLength(digest, size)
    ensures |key| == keyLen && |iv| == ivLen && key + iv == Derived(digest, password + salt, keyLen + ivLen)
  {
    hide Derived;
    var out: Bytes, prev: Bytes := [], [];
    ghost var n: nat := 0;
    while |out| < keyLen + ivLen
      invariant out == Stream(digest, password + salt, n) && prev == Link(digest, password + salt, n)
      invariant |out| == n * size
      decreases keyLen + ivLen - |out|
    {
      assert prev + password + salt == prev + (password + salt);
      prev := digest(prev + password + salt);
      out := out + prev;
      assert (n + 1) * size == n * size + size;
      n := n + 1;
    }
    DerivedIsPrefix(digest, size, password + salt, keyLen + ivLen, n);
    key := out[..keyLen];
    iv := out[keyLen..keyLen + ivLen];
    assert key + iv == out[..keyLen + ivLen];
  }

  /** `digest_bridge_json`: an empty `hex` falls through to the digest of the empty `data`. */
  function DigestBridge(digest: Bytes -> Bytes, hex: string): string {
    if hex == "" then HexFromBytes(digest([]))
    else
      match BytesFromHex(hex)
      case Some(bytes) => HexFromBytes(digest(bytes))
      case None => ""
  }

  lemma NoBytes()
    ensures HexFromBytes([]) == ""
  {
  }

  /** `derived` and `block` after n rounds of the loop in `_evpKdf`. */
  function Rounds(digest: Bytes -> Bytes, passHex: string, saltHex: string, n: nat): (string, string) {
    if n == 0 then ("", "")
    else
      var before := Rounds(digest, passHex, saltHex, n - 1);
      var block := DigestBridge(digest, before.1 + passHex + saltHex);
      (before.0 + block, block)
  }

  /** The bridge on text that decodes, the empty text included. */
  lemma BridgeDecodes(digest: Bytes -> Bytes, hex: string)
    ensures DigestBridge(digest, hex) == if BytesFromHex(hex).Some? then HexFromBytes(digest(BytesFromHex(hex).value)) else ""
  {
    if hex == "" {
      HexRoundTrip([]);
      NoBytes();
    }
  }

  /** Over text that decodes every round adds one digest, however the text before it shifts its pairs. */
  lemma {:induction false} RoundsGrow(digest: Bytes -> Bytes, size: nat, passHex: string, saltHex: string, n: nat)
    requires FixedLength(digest, size) && BytesFromHex(passHex + saltHex).Some?
    ensures |Rounds(digest, passHex, saltHex, n).0| == n * (2 * size)
    ensures HexText(Rounds(digest, passHex, saltHex, n).1)
  {
    hide BytesFromHex, HexFromBytes, DigestBridge;
    if n > 0 {
      RoundsGrow(digest, size, passHex, saltHex, n - 1);
      var before := Rounds(digest, passHex, saltHex, n - 1);
      DecodesBehind(before.1, passHex + saltHex);
      assert before.1 + passHex + saltHex == before.1 + (passHex + saltHex);
      BridgeDecodes(digest, before.1 + passHex + saltHex);
      HexIsText(digest(BytesFromHex(before.1 + passHex + saltHex).value));
      assert n * (2 * size) == (n - 1) * (2 * size) + 2 * size;
    }
  }

  lemma {:induction false} RoundsExtend(digest: Bytes -> Bytes, passHex: string, saltHex: string, m: nat, n: nat)
    requires m <= n
    ensures Rounds(digest, passHex, saltHex, m).0 <= Rounds(digest, passHex, saltHex, n).0
  {
    hide DigestBridge;
    if m < n {
      RoundsExtend(digest, passHex, saltHex, m, n - 1);
      assert Rounds(digest, passHex, saltHex, n - 1).0 <= Rounds(digest, passHex, saltHex, n).0;
    }
  }

  /** Over a passphrase and salt that do not decode, no number of rounds derives anything. */
  lemma {:induction false} BadSaltNeverDerives(digest: Bytes -> Bytes, passHex: string, saltHex: string, n: nat)
    requires BytesFromHex(passHex + saltHex).None?
    ensures Rounds(digest, passHex, saltHex, n) == ("", "")
  {
    hide BytesFromHex, HexFromBytes, DigestBridge;
    if n > 0 {
      BadSaltNeverDerives(digest, passHex, saltHex, n - 1);
      var before := Rounds(digest, passHex, saltHex, n - 1);
      BridgeDecodes(digest, passHex + saltHex);
      assert before.1 + passHex + saltHex == passHex + saltHex && before.0 + "" == "";
    }
  }

  /** The loop of `_evpKdf` ends, with any fixed-length digest, exactly when the passphrase and the
      salt together decode. */
  lemma DerivationEndsIff(digest: Bytes -> Bytes, size: nat, passHex: string, saltHex: string, need: nat)
    requires FixedLength(digest, size) && need > 0
    ensures (exists n :: |Rounds(digest, passHex, saltHex, n).0| >= need) <==> BytesFromHex(passHex + saltHex).Some?
  {
    hide BytesFromHex, DigestBridge, Rounds, HexText;
    if BytesFromHex(passHex + saltHex).Some? {
      RoundsGrow(digest, size, passHex, saltHex, need);
      assert need * (2 * size) == need + need * (2 * size - 1);
      assert |Rounds(digest, passHex, saltHex, need).0| >= need;
    } else {
      forall n ensures |Rounds(digest, passHex, saltHex, n).0| < need {
        BadSaltNeverDerives(digest, passHex, saltHex, n);
      }
    }
  }

  /** The salt `zz` never derives, behind any passphrase; `+1` is not hexadecimal, but decodes. */
  lemma ZzNeverDerives(digest: Bytes -> Bytes, pass: Bytes, n: nat)
    ensures Rounds(digest, HexFromBytes(pass), "zz", n) == ("", "")
    ensures !HexText("+1") && BytesFromHex("+1") == Some([1])
  {
    hide Rounds, HexFromBytes, BytesFromHex, HexText;
    HexIsText(pass);
    DecodesBehind(HexFromBytes(pass), "zz");
    LooseText();
    BadSaltNeverDerives(digest, HexFromBytes(pass), "zz", n);
  }

  /** Where the cleaned text is of even length the rounds are the digest stream of its bytes. */
  lemma {:induction false} RoundsAreStream(digest: Bytes -> Bytes, passHex: string, saltHex: string, n: nat)
    requires BytesFromHex(passHex + saltHex).Some? && |Cleaned(passHex + saltHex)| % 2 == 0
    ensures var seed := BytesFromHex(passHex + saltHex).value;
      Rounds(digest, passHex, saltHex, n) == (HexFromBytes(Stream(digest, seed, n)), HexFromBytes(Link(digest, seed, n)))
  {
    hide BytesFromHex, HexFromBytes, DigestBridge, Cleaned;
    var seed := BytesFromHex(passHex + saltHex).value;
    if n == 0 {
      NoBytes();
    } else {
      RoundsAreStream(digest, passHex, saltHex, n - 1);
      var link := Link(digest, seed, n - 1);
      BytesBehind(link, passHex + saltHex);
      assert HexFromBytes(link) + passHex + saltHex == HexFromBytes(link) + (passHex + saltHex);
      BridgeDecodes(digest, HexFromBytes(link) + passHex + saltHex);
      HexConcat(Stream(digest, seed, n - 1), Link(digest, seed, n));
    }
  }

  /** What an encoder wrote is such a text, and its bytes are those that were encoded. */
  lemma EncodedSeed(pass: Bytes, salt: Bytes)
    ensures var seed := HexFromBytes(pass) + HexFromBytes(salt);
      BytesFromHex(seed) == Some(pass + salt) && |Cleaned(seed)| % 2 == 0
  {
    hide HexFromBytes, BytesFromHex, Cleaned;
    HexConcat(pass, salt);
    HexRoundTrip(pass + salt);
    HexIsText(pass + salt);
    CleanedIsSame(HexFromBytes(pass + salt));
    EvenText(HexFromBytes(pass + salt));
  }

  /** `_evpKdf`, wherever it ends: the rounds cut to length, and on text of even cleaned length the
      same key and IV as the Rust derivation over its bytes. */
  method EvpKdf(digest: Bytes -> Bytes, ghost size: nat, passHex: string, saltHex: string, keyLen: nat, ivLen: nat)
    returns (key: string, iv: string)
    requires FixedLength(digest, size) && BytesFromHex(passHex + saltHex).Some?
    ensures |key| == 2 * keyLen && |iv| == 2 * ivLen
    ensures forall n :: |Rounds(digest, passHex, saltHex, n).0| >= 2 * (keyLen + ivLen)
                     ==> key + iv <= Rounds(digest, passHex, saltHex, n).0
    ensures |Cleaned(passHex + saltHex)| % 2 == 0
        ==> key + iv == HexFromBytes(Derived(digest, BytesFromHex(passHex + saltHex).value, keyLen + ivLen))
  {
    hide Derived, HexFromBytes, BytesFromHex, DigestBridge, Cleaned;
    var need := (keyLen + ivLen) * 2;
    var derived, block := "", "";
    ghost var n: nat := 0;
    while |derived| < need
      invariant (derived, block) == Rounds(digest, passHex, saltHex, n)
      invariant |derived| == n * (2 * size)
      decreases need - |derived|
    {
      block := DigestBridge(digest, block + passHex + saltHex);
      derived := derived + block;
      n := n + 1;
      RoundsGrow(digest, size, passHex, saltHex, n);
      assert n * (2 * size) == (n - 1) * (2 * size) + 2 * size;
    }
    key := derived[..keyLen * 2];
    iv := derived[keyLen * 2..keyLen * 2 + ivLen * 2];
    assert key + iv == derived[..need];
    RoundsAgree(digest, passHex, saltHex, n, need);
    if |Cleaned(passHex + saltHex)| % 2 == 0 {
      var seed := BytesFromHex(passHex + saltHex).value;
      RoundsAreStream(digest, passHex, saltHex, n);
      StreamLength(digest, size, seed, n);
      HexPrefix(digest, size, seed, keyLen, ivLen, n);
    }
  }

  lemma RoundsAgree(digest: Bytes -> Bytes, passHex: string, saltHex: string, m: nat, need: nat)
    requires |Rounds(digest, passHex, saltHex, m).0| >= need
    ensures forall n :: |Rounds(digest, passHex, saltHex, n).0| >= need
                     ==> Rounds(digest, passHex, saltHex, m).0[..need] <= Rounds(digest, passHex, saltHex, n).0
  {
    hide Rounds;
    forall n | |Rounds(digest, passHex, saltHex, n).0| >= need
      ensures Rounds(digest, passHex, saltHex, m).0[..need] <= Rounds(digest, passHex, saltHex, n).0
    {
      if m <= n {
        RoundsExtend(digest, passHex, saltHex, m, n);
      } else {
        RoundsExtend(digest, passHex, saltHex, n, m);
      }
    }
  }

  lemma HexPrefix(digest: Bytes -> Bytes, size: nat, seed: Bytes, keyLen: nat, ivLen: nat, n: nat)
    requires FixedLength(digest, size) && keyLen + ivLen <= |Stream(digest, seed, n)| == n * size
    ensures HexFromBytes(Stream(digest, seed, n))[..2 * (keyLen + ivLen)] == HexFromBytes(Derived(digest, seed, keyLen + ivLen))
  {
    hide HexFromBytes, Derived, Stream;
    DerivedIsPrefix(digest, size, seed, keyLen + ivLen, n);
    HexSlice(Stream(digest, seed, n), 0, keyLen + ivLen);
    assert Derived(digest, seed, keyLen + ivLen) == Stream(digest, seed, n)[0..keyLen + ivLen];
  }

  // ---------------------------------------------------------------------------------------------
  // The envelope

  /** `Salted__`. */
  const MAGIC := "53616c7465645f5f"

  /** `btoa` and `atob` over the bytes of a text. */
  datatype Base64 = Base64(encode: Bytes -> string, decode: string -> Option<Bytes>) {
    ghost predicate Inverse() {
      forall b :: decode(encode(b)) == Some(b) && |encode(b)| % 4 == 0 && '-' !in encode(b) && '_' !in encode(b)
    }
  }

  function PlainAlphabet(s: string): (r: string)
    ensures |r| == |s|
    ensures '-' !in s && '_' !in s ==> r == s
  {
    if s == "" then ""
    else [if s[0] == '-' then '+' else if s[0] == '_' then '/' else s[0]] + PlainAlphabet(s[1..])
  }

  function Filled(s: string): (r: string)
    ensures |r| % 4 == 0 && |s| <= |r| < |s| + 4
  {
    if |s| % 4 == 0 then s else if |s| % 4 == 3 then s + "=" else if |s| % 4 == 2 then s + "==" else s + "==="
  }

  /** `_b64ToHex`. */
  function ToHex(codec: Base64, text: string): string {
    match codec.decode(Filled(PlainAlphabet(text)))
    case Some(bytes) => HexFromBytes(bytes)
    case None => ""
  }

  /** `_hexToB64` of hexadecimal text. */
  function FromHex(codec: Base64, hex: string): string
    requires HexText(hex)
  {
    codec.encode(BytesOf(hex))
  }

  function BytesOf(hex: string): (bytes: Bytes)
    requires HexText(hex)
    ensures HexFromBytes(bytes) == hex
  {
    TextRoundTrip(hex);
    BytesFromHex(hex).value
  }

  lemma Base64Undone(codec: Base64, hex: string)
    requires codec.Inverse() && HexText(hex)
    ensures ToHex(codec, FromHex(codec, hex)) == hex
  {
    var b := BytesOf(hex);
    assert codec.decode(codec.encode(b)) == Some(b);
  }

  function UrlAlphabet(s: string): (r: string)
    ensures |r| == |s| && '=' !in s ==> '=' !in r
  {
    if s == "" then "" else [if s[0] == '+' then '-' else if s[0] == '/' then '_' else s[0]] + UrlAlphabet(s[1..])
  }

  lemma {:induction false} PlainOfUrl(s: string)
    requires '-' !in s && '_' !in s
    ensures PlainAlphabet(UrlAlphabet(s)) == s
  {
    if s != "" {
      assert s == [s[0]] + s[1..] && s[0] in s;
      PlainOfUrl(s[1..]);
      var u := UrlAlphabet(s);
      assert u[1..] == UrlAlphabet(s[1..]);
    }
  }

  /** Base64 is read without its padding too, and in the alphabet for addresses. */
  lemma UrlTextIsRead(codec: Base64, bytes: Bytes, body: string, pad: string)
    requires codec.Inverse() && codec.encode(bytes) == body + pad && pad in ["", "=", "=="]
    ensures ToHex(codec, UrlAlphabet(body)) == HexFromBytes(bytes) == ToHex(codec, body)
    ensures forall text :: codec.decode(Filled(PlainAlphabet(text))) == None ==> ToHex(codec, text) == ""
  {
    hide HexFromBytes, PlainAlphabet, UrlAlphabet, Filled, Base64.Inverse;
    EncodedText(codec, bytes);
    assert forall c <- body :: c in body + pad;
    PlainOfUrl(body);
    PaddedBack(body, pad);
  }

  lemma EncodedText(codec: Base64, bytes: Bytes)
    requires codec.Inverse()
    ensures var text := codec.encode(bytes);
      codec.decode(text) == Some(bytes) && |text| % 4 == 0 && '-' !in text && '_' !in text
  {
  }

  lemma PaddedBack(body: string, pad: string)
    requires |body + pad| % 4 == 0 && pad in ["", "=", "=="]
    ensures Filled(body) == body + pad
  {
    assert body + "" == body;
    assert |pad| == (4 - |body| % 4) % 4;
  }

  datatype Parsed = Parsed(salt: Option<string>, ciphertext: string)

  /** `format.OpenSSL.stringify`, before the base64 step. */
  function Envelope(p: Parsed): string {
    (match p.salt
     case Some(salt) => MAGIC + salt
     case None => "") + p.ciphertext
  }

  /** `format.OpenSSL.parse`, after the base64 step. */
  function ParseEnvelope(hex: string): Parsed {
    if MAGIC <= hex && |hex| >= 32 then Parsed(Some(hex[16..32]), hex[32..]) else Parsed(None, hex)
  }

  /** Parsing undoes formatting exactly for a salt of eight bytes, and without a salt exactly when
      the ciphertext does not itself start like an envelope. */
  lemma EnvelopeRoundTripIff(p: Parsed)
    ensures ParseEnvelope(Envelope(p)) == p <==>
      match p.salt
      case Some(salt) => |salt| == 16
      case None => !(MAGIC <= p.ciphertext && |p.ciphertext| >= 32)
  {
    var hex := Envelope(p);
    if p.salt.Some? {
      var salt := p.salt.value;
      assert hex[..16] == MAGIC;
      assert hex[16..] == salt + p.ciphertext;
      if |salt| == 16 {
        assert hex[16..32] == (salt + p.ciphertext)[..16] == salt;
        assert hex[32..] == p.ciphertext;
      }
    } else {
      assert hex == p.ciphertext;
    }
  }

  /** For example: before whole blocks of ciphertext, a salt of one byte comes back filled up with
      the ciphertext's first seven. */
  lemma ShortSaltIsLost(ciphertext: string)
    requires |ciphertext| >= 32 && |ciphertext| % 32 == 0
    ensures ParseEnvelope(Envelope(Parsed(Some("00"), ciphertext))) == Parsed(Some("00" + ciphertext[..14]), ciphertext[14..])
  {
    var hex := Envelope(Parsed(Some("00"), ciphertext));
    assert hex[..16] == MAGIC && hex[16..] == "00" + ciphertext;
    assert hex[16..32] == ("00" + ciphertext)[..16] == "00" + ciphertext[..14];
    assert hex[32..] == ciphertext[14..];
  }

  // ---------------------------------------------------------------------------------------------
  // Encryption and decryption

  datatype Options = Options(mode: Mode, pkcs7: bool, iv: Option<Bytes>)

  /** What a passphrase caller runs on: the hash, the ciphers and the text codec. */
  datatype Runtime = Runtime(digest: Bytes -> Bytes, suite: Suite, codec: Base64) {
    ghost predicate Sound(size: nat) {
      FixedLength(digest, size) && suite.Invertible() && codec.Inverse()
    }

    function IvFor(o: Options, pass: Bytes, salt: Bytes): Bytes {
      match o.iv
      case Some(iv) => iv
      case None => Iv(digest, pass, salt)
    }

    /** `AES.encrypt(message, passphrase, options)`; the caller or the random source supplies the salt. */
    function Encrypt(message: Bytes, pass: Bytes, salt: Bytes, o: Options): Parsed
      requires suite.Invertible()
    {
      Parsed(Some(HexFromBytes(salt)),
        Bridge(suite, true, o.mode, o.pkcs7, HexFromBytes(Key(digest, pass, salt)), HexFromBytes(IvFor(o, pass, salt)), HexFromBytes(message)))
    }

    /** `toString()` of what encryption returns. */
    function Format(p: Parsed): string
      requires HexText(Envelope(p))
    {
      FromHex(codec, Envelope(p))
    }

    /** `AES.decrypt(text, passphrase, options)`, with the salt of the text. */
    function Decrypt(text: string, pass: Bytes, o: Options): string
      requires suite.Invertible()
    {
      var p := ParseEnvelope(ToHex(codec, text));
      var salt := match p.salt case Some(s) => BytesFromHex(s).GetOr([]) case None => [];
      Bridge(suite, false, o.mode, o.pkcs7, HexFromBytes(Key(digest, pass, salt)), HexFromBytes(IvFor(o, pass, salt)), p.ciphertext)
    }
  }

  /** What encryption returns: the salt, and the message under the derived key and the IV that was
      given or else derived; the empty text where the mode refuses them. */
  lemma EncryptGives(r: Runtime, message: Bytes, pass: Bytes, salt: Bytes, o: Options)
    requires r.suite.Invertible()
    ensures var iv := if o.iv.Some? then o.iv.value else Iv(r.digest, pass, salt);
      r.Encrypt(message, pass, salt, o) == Parsed(Some(HexFromBytes(salt)),
        match Apply(r.suite, true, o.mode, o.pkcs7, Key(r.digest, pass, salt), iv, message)
        case Ok(out) => HexFromBytes(out)
        case Err(_) => "")
  {
    hide Apply, Bridge, HexFromBytes, Key, Iv;
    BridgeOnBytes(r.suite, true, o.mode, o.pkcs7, Key(r.digest, pass, salt), r.IvFor(o, pass, salt), message);
  }

  lemma EncryptIsHex(r: Runtime, message: Bytes, pass: Bytes, salt: Bytes, o: Options)
    requires r.suite.Invertible()
    ensures HexText(r.Encrypt(message, pass, salt, o).ciphertext) && HexText(Envelope(r.Encrypt(message, pass, salt, o)))
  {
    hide Key, Iv, Bridge, HexFromBytes;
    assert HexText(MAGIC);
    BridgeIsHex(r.suite, true, o.mode, o.pkcs7, HexFromBytes(Key(r.digest, pass, salt)), HexFromBytes(r.IvFor(o, pass, salt)), HexFromBytes(message));
    HexIsText(salt);
    ConcatIsText(MAGIC, HexFromBytes(salt));
    ConcatIsText(MAGIC + HexFromBytes(salt), r.Encrypt(message, pass, salt, o).ciphertext);
  }

  lemma ConcatIsText(a: string, b: string)
    requires HexText(a) && HexText(b)
    ensures HexText(a + b)
  {
  }

  lemma BridgeIsHex(suite: Suite, encrypting: bool, mode: Mode, pkcs7: bool, key: string, iv: string, data: string)
    requires suite.Invertible()
    ensures HexText(Bridge(suite, encrypting, mode, pkcs7, key, iv, data))
  {
    hide Apply, HexFromBytes, BytesFromHex;
    var k, v, d := BytesFromHex(key), BytesFromHex(iv), BytesFromHex(data);
    if k.Some? && v.Some? && d.Some? {
      var out := Apply(suite, encrypting, mode, pkcs7, k.value, v.value, d.value);
      if out.Ok? {
        HexIsText(out.value);
      }
    }
  }

  lemma FormatRoundTrip(r: Runtime, size: nat, message: Bytes, pass: Bytes, salt: Bytes, o: Options)
    requires r.Sound(size) && |salt| == 8
    ensures var sent := r.Encrypt(message, pass, salt, o);
      HexText(Envelope(sent)) && ParseEnvelope(ToHex(r.codec, r.Format(sent))) == sent
  {
    hide HexFromBytes, Bridge, ToHex, FromHex, Key, Iv;
    var sent := r.Encrypt(message, pass, salt, o);
    EncryptIsHex(r, message, pass, salt, o);
    Base64Undone(r.codec, Envelope(sent));
    EnvelopeRoundTripIff(sent);
  }

  /** Decrypting the formatted result gives the message back, under the same options and any
      passphrase, exactly when the chosen mode takes the message or there is none. */
  lemma DecryptUndoesEncryptIff(r: Runtime, size: nat, message: Bytes, pass: Bytes, salt: Bytes, o: Options)
    requires r.Sound(size) && |salt| == 8
    ensures var sent := r.Encrypt(message, pass, salt, o);
      && HexText(Envelope(sent))
      && (r.Decrypt(r.Format(sent), pass, o) == HexFromBytes(message)
          <==> message == [] || Accepts(o.mode, o.pkcs7, Key(r.digest, pass, salt), r.IvFor(o, pass, salt), message))
  {
    hide HexFromBytes, BytesFromHex, Bridge, ToHex, Key, Iv, Accepts;
    var sent := r.Encrypt(message, pass, salt, o);
    var key, iv := Key(r.digest, pass, salt), r.IvFor(o, pass, salt);
    FormatRoundTrip(r, size, message, pass, salt, o);
    HexRoundTrip(salt);
    BridgeRoundTripIff(r.suite, o.mode, o.pkcs7, key, iv, message);
  }

  lemma BridgeRoundTripIff(suite: Suite, mode: Mode, pkcs7: bool, key: Bytes, iv: Bytes, message: Bytes)
    requires suite.Invertible()
    ensures var sent := Bridge(suite, true, mode, pkcs7, HexFromBytes(key), HexFromBytes(iv), HexFromBytes(message));
      Bridge(suite, false, mode, pkcs7, HexFromBytes(key), HexFromBytes(iv), sent) == HexFromBytes(message)
      <==> message == [] || Accepts(mode, pkcs7, key, iv, message)
  {
    hide HexFromBytes, BytesFromHex, Bridge, Apply, Accepts;
    BridgeOnBytes(suite, true, mode, pkcs7, key, iv, message);
    ApplyRoundTrip(suite, mode, pkcs7, key, iv, message);
    var sent := Apply(suite, true, mode, pkcs7, key, iv, message);
    NoBytes();
    if sent.Ok? {
      BridgeOnBytes(suite, false, mode, pkcs7, key, iv, sent.value);
    } else {
      BridgeOnBytes(suite, false, mode, pkcs7, key, iv, []);
      NothingFromNothing(suite, mode, pkcs7, key, iv, message);
    }
  }

  /** Where encryption fails, decrypting the empty text yields the empty text. */
  lemma NothingFromNothing(suite: Suite, mode: Mode, pkcs7: bool, key: Bytes, iv: Bytes, message: Bytes)
    requires suite.Invertible() && !Accepts(mode, pkcs7, key, iv, message)
    ensures var back := Apply(suite, false, mode, pkcs7, key, iv, []);
      back.Err? || back.value == []
  {
    hide Pad;
  }

  /** With the options left out (chaining, padded, derived IV), every message comes back. */
  lemma DefaultRoundTrip(r: Runtime, size: nat, message: Bytes, pass: Bytes, salt: Bytes)
    requires r.Sound(size) && |salt| == 8
    ensures var o := Options(CBC, true, None);
      && HexText(Envelope(r.Encrypt(message, pass, salt, o)))
      && r.Decrypt(r.Format(r.Encrypt(message, pass, salt, o)), pass, o) == HexFromBytes(message)
  {
    hide Key, Iv, HexFromBytes, ToHex, FromHex, Bridge;
    KeyLengths(r.digest, size, pass, salt);
    DecryptUndoesEncryptIff(r, size, message, pass, salt, Options(CBC, true, None));
  }

  // ---------------------------------------------------------------------------------------------
  // The paste reader

  /** `aes_cbc_decrypt`, where `utf8` says which bytes are text. */
  function CbcText(suite: Suite, utf8: Bytes -> bool, key: Bytes, iv: Bytes, ct: Bytes): Option<Bytes>
    requires suite.Invertible()
  {
    if |key| != 32 then None
    else
      match Cbc(suite.block, false, key, iv, ct, true)
      case Ok(text) => if utf8(text) then Some(text) else None
      case Err(_) => None
  }

  /** It gives a text exactly when the key has 32 bytes, the IV 16, and the blocks decrypt to that
      text padded. */
  lemma CbcTextIff(suite: Suite, utf8: Bytes -> bool, key: Bytes, iv: Bytes, ct: Bytes, text: Bytes)
    requires suite.Invertible()
    ensures CbcText(suite, utf8, key, iv, ct) == Some(text)
      <==> |key| == 32 && |iv| == 16 && |ct| % 16 == 0 && utf8(text)
           && Unchain(suite.block.Decrypting(key), iv, ct) == Pad(text)
  {
    hide Pad, Unchain, Cbc, KeepsBlocks, Undoes;
    if |key| == 32 {
      UnpaddedIff(suite.block, key, iv, ct, text);
    }
  }

  lemma UnpaddedIff(cipher: Cipher, key: Bytes, iv: Bytes, ct: Bytes, text: Bytes)
    requires |key| == 32 && cipher.Invertible(key)
    ensures Cbc(cipher, false, key, iv, ct, true) == Ok(text)
      <==> |iv| == 16 && |ct| % 16 == 0 && Unchain(cipher.Decrypting(key), iv, ct) == Pad(text)
  {
    hide Pad, Unpad, Unchain, Undoes;
    if |iv| == 16 && |ct| % 16 == 0 {
      UnpadIffPadded(Unchain(cipher.Decrypting(key), iv, ct), text);
    }
  }

  /** What `decrypt_blob` makes of a paste; `stretched` is key material from the other derivation,
      tried first. */
  function Decrypted(r: Runtime, utf8: Bytes -> bool, stretched: Bytes, blob: Bytes, password: Bytes): Option<Bytes>
    requires r.suite.Invertible() && |stretched| == 48
  {
    if |blob| < 17 then None
    else
      var first := CbcText(r.suite, utf8, stretched[..32], stretched[32..], blob[16..]);
      if first.Some? && first.value != [] then first
      else CbcText(r.suite, utf8, Key(r.digest, password, blob[8..16]), Iv(r.digest, password, blob[8..16]), blob[16..])
  }

  /** Seventeen bytes at least; a text that is not empty from the stretched key counts, and else what
      the derived key gives, with the salt in bytes 8 to 16. */
  lemma BlobGives(r: Runtime, utf8: Bytes -> bool, stretched: Bytes, blob: Bytes, password: Bytes, text: Bytes)
    requires r.suite.Invertible() && |stretched| == 48
    ensures |blob| <= 16 ==> Decrypted(r, utf8, stretched, blob, password) == None
    ensures |blob| > 16 ==>
      var first := CbcText(r.suite, utf8, stretched[..32], stretched[32..], blob[16..]);
      var second := CbcText(r.suite, utf8, Key(r.digest, password, blob[8..16]), Iv(r.digest, password, blob[8..16]), blob[16..]);
      && (first == Some(text) && text != [] ==> Decrypted(r, utf8, stretched, blob, password) == Some(text))
      && (first in [None, Some([])] ==> Decrypted(r, utf8, stretched, blob, password) == second)
  {
    hide CbcText, Key, Iv;
  }

  method DecryptBlob(r: Runtime, ghost size: nat, utf8: Bytes -> bool, stretched: Bytes, blob: Bytes, password: Bytes)
    returns (text: Option<Bytes>)
    requires r.Sound(size) && |stretched| == 48
    ensures text == Decrypted(r, utf8, stretched, blob, password)
  {
    hide CbcText, Key, Iv;
    if |blob| < 17 {
      return None;
    }
    var salt, ct := blob[8..16], blob[16..];
    text := CbcText(r.suite, utf8, stretched[..32], stretched[32..], ct);
    if text.Some? && text.value != [] {
      return;
    }
    var key, iv := EvpBytesToKey(r.digest, size, password, salt, 32, 16);
    KeyLengths(r.digest, size, password, salt);
    SamePieces(key, iv, Key(r.digest, password, salt), Iv(r.digest, password, salt));
    text := CbcText(r.suite, utf8, key, iv, ct);
  }

  lemma SamePieces(a: Bytes, b: Bytes, c: Bytes, d: Bytes)
    requires |a| == |c| && a + b == c + d
    ensures a == c && b == d
  {
    assert a == (a + b)[..|a|] && b == (a + b)[|a|..];
    assert c == (c + d)[..|c|] && d == (c + d)[|c|..];
  }

  /** What the JavaScript side writes of a text is read back as that text exactly when the stretched
      key makes nothing of it, an empty text, or the same. */
  lemma PasteReadsJavaScriptIff(r: Runtime, size: nat, utf8: Bytes -> bool, stretched: Bytes, message: Bytes, pass: Bytes,
        salt: Bytes)
    requires r.Sound(size) && |salt| == 8 && utf8(message) && |stretched| == 48
    ensures var sent := r.Encrypt(message, pass, salt, Options(CBC, true, None));
      && HexText(Envelope(sent))
      && var blob := BytesOf(Envelope(sent));
      && r.codec.decode(r.Format(sent)) == Some(blob) && |blob| >= 17
      && (Decrypted(r, utf8, stretched, blob, pass) == Some(message)
          <==> CbcText(r.suite, utf8, stretched[..32], stretched[32..], blob[16..]) in [None, Some([]), Some(message)])
  {
    hide CbcText, Key, Iv, HexText, Envelope, BytesOf, Decrypted, Runtime.Encrypt, Runtime.Format;
    PasteReadsJavaScript(r, size, utf8, message, pass, salt);
    var blob := BytesOf(Envelope(r.Encrypt(message, pass, salt, Options(CBC, true, None))));
    SecondTryCounts(r, size, utf8, stretched, blob, pass, message);
  }

  lemma SecondTryCounts(r: Runtime, size: nat, utf8: Bytes -> bool, stretched: Bytes, blob: Bytes, pass: Bytes, message: Bytes)
    requires r.Sound(size) && |stretched| == 48 && |blob| >= 17
    requires CbcText(r.suite, utf8, Key(r.digest, pass, blob[8..16]), Iv(r.digest, pass, blob[8..16]), blob[16..]) == Some(message)
    ensures Decrypted(r, utf8, stretched, blob, pass) == Some(message)
      <==> CbcText(r.suite, utf8, stretched[..32], stretched[32..], blob[16..]) in [None, Some([]), Some(message)]
  {
    hide CbcText, Key, Iv;
  }

  /** The paste reader understands what the JavaScript side writes: its derivation from bytes
      8 to 16 decrypts bytes 16 on to the message, for every text message. */
  lemma PasteReadsJavaScript(r: Runtime, size: nat, utf8: Bytes -> bool, message: Bytes, pass: Bytes, salt: Bytes)
    requires r.Sound(size) && |salt| == 8 && utf8(message)
    ensures var sent := r.Encrypt(message, pass, salt, Options(CBC, true, None));
      && HexText(Envelope(sent))
      && var blob := BytesOf(Envelope(sent));
      && |blob| >= 17 && blob[8..16] == salt
      && r.codec.decode(r.Format(sent)) == Some(blob)
      && CbcText(r.suite, utf8, Key(r.digest, pass, salt), Iv(r.digest, pass, salt), blob[16..]) == Some(message)
  {
    hide Key, Iv, HexFromBytes, Bridge, Cbc, Pad, Apply, BytesFromHex;
    var sent := r.Encrypt(message, pass, salt, Options(CBC, true, None));
    EncryptIsHex(r, message, pass, salt, Options(CBC, true, None));
    var key, iv := Key(r.digest, pass, salt), Iv(r.digest, pass, salt);
    KeyLengths(r.digest, size, pass, salt);
    var ct := EncryptedBytes(r, size, message, pass, salt);
    EnvelopeBytes(salt, ct);
    var blob := BytesOf(Envelope(sent));
    EnvelopeOf(salt, ct, blob);
    assert r.codec.decode(r.codec.encode(blob)) == Some(blob);
  }

  lemma EncryptedBytes(r: Runtime, size: nat, message: Bytes, pass: Bytes, salt: Bytes) returns (ct: Bytes)
    requires r.Sound(size)
    ensures r.Encrypt(message, pass, salt, Options(CBC, true, None)) == Parsed(Some(HexFromBytes(salt)), HexFromBytes(ct))
    ensures ct != [] && Cbc(r.suite.block, false, Key(r.digest, pass, salt), Iv(r.digest, pass, salt), ct, true) == Ok(message)
  {
    hide Key, Iv, HexFromBytes, Bridge, Cbc, Apply, Pad, BytesFromHex;
    var key, iv := Key(r.digest, pass, salt), Iv(r.digest, pass, salt);
    KeyLengths(r.digest, size, pass, salt);
    BridgeOnBytes(r.suite, true, CBC, true, key, iv, message);
    ApplyIsCbc(r.suite, key, iv, message);
    CbcRoundTrip(r.suite.block, key, iv, message, true);
    CipherIsLong(r.suite.block, key, iv, message);
    ct := Cbc(r.suite.block, true, key, iv, message, true).value;
  }

  lemma ApplyIsCbc(suite: Suite, key: Bytes, iv: Bytes, message: Bytes)
    requires suite.Invertible()
    ensures Apply(suite, true, CBC, true, key, iv, message) == Cbc(suite.block, true, key, iv, message, true)
  {
    hide Cbc;
  }

  lemma CipherIsLong(cipher: Cipher, key: Bytes, iv: Bytes, message: Bytes)
    requires cipher.Invertible(key) && |key| == 32 && |iv| == BLOCK
    ensures Cbc(cipher, true, key, iv, message, true).Ok? && |Cbc(cipher, true, key, iv, message, true).value| >= 1
  {
    UnpadIffPadded(Pad(message), message);
    ChainLength(cipher.Encrypting(key), iv, Pad(message));
  }

  const MAGIC_BYTES: Bytes := [0x53, 0x61, 0x6c, 0x74, 0x65, 0x64, 0x5f, 0x5f]

  lemma EnvelopeBytes(salt: Bytes, ct: Bytes)
    ensures Envelope(Parsed(Some(HexFromBytes(salt)), HexFromBytes(ct))) == HexFromBytes(MAGIC_BYTES + salt + ct)
  {
    MagicBytes();
    hide HexFromBytes;
    HexConcat(MAGIC_BYTES + salt, ct);
    HexConcat(MAGIC_BYTES, salt);
  }

  lemma MagicBytes()
    ensures HexFromBytes(MAGIC_BYTES) == MAGIC
  {
    var h := HexFromBytes(MAGIC_BYTES);
    assert h[2 * 0] == '5' && h[2 * 0 + 1] == '3' && h[2 * 1] == '6' && h[2 * 1 + 1] == '1';
    assert h[2 * 2] == '6' && h[2 * 2 + 1] == 'c' && h[2 * 3] == '7' && h[2 * 3 + 1] == '4';
    assert h[2 * 4] == '6' && h[2 * 4 + 1] == '5' && h[2 * 5] == '6' && h[2 * 5 + 1] == '4';
    assert h[2 * 6] == '5' && h[2 * 6 + 1] == 'f' && h[2 * 7] == '5' && h[2 * 7 + 1] == 'f';
  }

  lemma EnvelopeOf(salt: Bytes, ct: Bytes, blob: Bytes)
    requires |salt| == 8 && HexFromBytes(blob) == HexFromBytes(MAGIC_BYTES + salt + ct)
    ensures blob[8..16] == salt && blob[16..] == ct
  {
    HexRoundTrip(blob);
    HexRoundTrip(MAGIC_BYTES + salt + ct);
    assert blob == MAGIC_BYTES + salt + ct;
  }
}
