/** The AES modes of the crypto bridge: cipher-block chaining beside electronic codebook and an
    authenticated mode (crates/engine/src/crypto_host.rs:99-196, 237-261, 285-298). */
module Aes {
  import opened Wrappers
  import opened HexCodec
  import opened BlockCipher

  /** Exclusive or of the low bits of two numbers. */
  function Xor(a: int, b: int, bits: nat): (r: int)
    requires a >= 0 && b >= 0
    ensures r >= 0
  {
    if bits == 0 then 0 else 2 * Xor(a / 2, b / 2, bits - 1) + (a + b) % 2
  }

  function Pow2(n: nat): (r: nat)
    ensures r >= 1
  {
    if n == 0 then 1 else 2 * Pow2(n - 1)
  }

  lemma {:induction false} XorUndone(a: int, b: int, bits: nat)
    requires 0 <= a < Pow2(bits) && 0 <= b < Pow2(bits)
    ensures 0 <= Xor(a, b, bits) < Pow2(bits)
    ensures Xor(Xor(a, b, bits), b, bits) == a
  {
    if bits > 0 {
      XorUndone(a / 2, b / 2, bits - 1);
      var r := Xor(a, b, bits);
      Halves(Xor(a / 2, b / 2, bits - 1), (a + b) % 2);
      ParityUndone(a, b, r);
    }
  }

  lemma Halves(high: int, bit: int)
    requires 0 <= bit < 2
    ensures (2 * high + bit) / 2 == high && (2 * high + bit) % 2 == bit
  {
  }

  lemma ParityUndone(a: int, b: int, r: int)
    requires r % 2 == (a + b) % 2
    ensures (r + b) % 2 == a % 2 && 2 * (a / 2) + a % 2 == a
  {
  }

  lemma EightBits()
    ensures Pow2(8) == 256
  {
    assert Pow2(4) == 16;
  }

  function XorByte(a: byte, b: byte): byte {
    EightBits();
    XorUndone(a, b, 8);
    Xor(a, b, 8)
  }

  /** One block combined with another, byte by byte. */
  function XorBlock(a: Bytes, b: Bytes): (r: Bytes)
    requires |a| == |b|
    ensures |r| == |a|
  {
    seq(|a|, i requires 0 <= i < |a| => XorByte(a[i], b[i]))
  }

  lemma XorBlockUndone(a: Bytes, b: Bytes)
    requires |a| == |b|
    ensures XorBlock(XorBlock(a, b), b) == a
  {
    forall i | 0 <= i < |a| ensures XorByte(XorByte(a[i], b[i]), b[i]) == a[i] {
      EightBits();
      XorUndone(a[i], b[i], 8);
    }
  }

  /** Bit k of a number, the lowest being bit 0. */
  function Bit(x: nat, k: nat): nat { if k == 0 then x % 2 else Bit(x / 2, k - 1) }

  lemma {:induction false} XorByBits(a: nat, b: nat, bits: nat, k: nat)
    requires k < bits
    ensures Bit(Xor(a, b, bits), k) == if Bit(a, k) == Bit(b, k) then 0 else 1
  {
    Halves(Xor(a / 2, b / 2, bits - 1), (a + b) % 2);
    if k > 0 {
      XorByBits(a / 2, b / 2, bits - 1, k - 1);
    }
  }

  /** A block whose bits are set where those of the other two differ. */
  ghost predicate Differences(x: Bytes, a: Bytes, b: Bytes) {
    && |x| == |a| == |b|
    && forall i, k | 0 <= i < |x| && 0 <= k < 8 :: Bit(x[i], k) == if Bit(a[i], k) == Bit(b[i], k) then 0 else 1
  }

  lemma XorIsDifferences(a: Bytes, b: Bytes)
    requires |a| == |b|
    ensures Differences(XorBlock(a, b), a, b)
  {
    forall i, k | 0 <= i < |a| && 0 <= k < 8
      ensures Bit(XorBlock(a, b)[i], k) == if Bit(a[i], k) == Bit(b[i], k) then 0 else 1
    {
      XorByBits(a[i], b[i], 8, k);
    }
  }

  /** Each plain block is combined with the cipher block before it, then encrypted. */
  function Chain(f: Bytes -> Bytes, before: Bytes, data: Bytes): Bytes
    requires |before| == BLOCK && |data| % BLOCK == 0 && KeepsBlocks(f)
    decreases |data|
  {
    if data == [] then []
    else
      var c := f(XorBlock(data[..BLOCK], before));
      c + Chain(f, c, data[BLOCK..])
  }

  function Unchain(g: Bytes -> Bytes, before: Bytes, data: Bytes): Bytes
    requires |before| == BLOCK && |data| % BLOCK == 0 && KeepsBlocks(g)
    decreases |data|
  {
    if data == [] then []
    else XorBlock(g(data[..BLOCK]), before) + Unchain(g, data[..BLOCK], data[BLOCK..])
  }

  lemma {:induction false} ChainLength(f: Bytes -> Bytes, before: Bytes, data: Bytes)
    requires |before| == BLOCK && |data| % BLOCK == 0 && KeepsBlocks(f)
    ensures |Chain(f, before, data)| == |data|
    decreases |data|
  {
    if data != [] {
      ChainLength(f, f(XorBlock(data[..BLOCK], before)), data[BLOCK..]);
    }
  }

  function BlockAt(data: Bytes, k: nat): Bytes
    requires 16 * (k + 1) <= |data|
  {
    data[16 * k..16 * (k + 1)]
  }

  /** Cipher block k is what encrypting makes of plain block k combined with the cipher block before
      it, and with the IV in front. */
  lemma {:induction false} ChainedBlock(f: Bytes -> Bytes, iv: Bytes, data: Bytes, k: nat)
    requires |iv| == 16 && |data| % 16 == 0 && KeepsBlocks(f) && 16 * (k + 1) <= |data|
    ensures |Chain(f, iv, data)| == |data|
    ensures var sent := Chain(f, iv, data);
      exists x :: Differences(x, BlockAt(data, k), if k == 0 then iv else BlockAt(sent, k - 1)) && BlockAt(sent, k) == f(x)
    decreases |data|
  {
    hide KeepsBlocks, Differences;
    var head, tail, sent := data[..16], data[16..], Chain(f, iv, data);
    var x := XorBlock(head, iv);
    XorIsDifferences(head, iv);
    ChainLength(f, iv, data);
    FirstOfChain(f, iv, data);
    var rest := Chain(f, f(x), tail);
    if k == 0 {
      assert BlockAt(data, 0) == head && BlockAt(sent, 0) == f(x);
    } else {
      ChainedBlock(f, f(x), tail, k - 1);
      BlockBehind(head, tail, k);
      BlockBehind(f(x), rest, k);
      assert data == head + tail;
      if k == 1 {
        assert BlockAt(sent, 0) == f(x);
      } else {
        BlockBehind(f(x), rest, k - 1);
      }
    }
  }

  lemma FirstOfChain(f: Bytes -> Bytes, iv: Bytes, data: Bytes)
    requires |iv| == 16 && |data| % 16 == 0 && data != [] && KeepsBlocks(f)
    ensures var x := XorBlock(data[..16], iv);
      |f(x)| == 16 && Chain(f, iv, data) == f(x) + Chain(f, f(x), data[16..])
  {
  }

  lemma BlockBehind(head: Bytes, tail: Bytes, k: nat)
    requires |head| == 16 && k >= 1 && 16 * k <= |tail|
    ensures BlockAt(head + tail, k) == BlockAt(tail, k - 1)
  {
  }

  lemma {:induction false} ChainUndone(f: Bytes -> Bytes, g: Bytes -> Bytes, before: Bytes, data: Bytes)
    requires |before| == BLOCK && |data| % BLOCK == 0 && KeepsBlocks(f) && KeepsBlocks(g) && Undoes(g, f)
    ensures |Chain(f, before, data)| == |data|
    ensures Unchain(g, before, Chain(f, before, data)) == data
    decreases |data|
  {
    hide KeepsBlocks, Undoes;
    ChainLength(f, before, data);
    if data == [] {
      assert Chain(f, before, data) == [];
    } else {
      var head, tail := data[..BLOCK], data[BLOCK..];
      var x := XorBlock(head, before);
      OneUndone(f, g, x);
      ChainUndone(f, g, f(x), tail);
      ChainLength(f, f(x), tail);
      var rest := Chain(f, f(x), tail);
      calc {
        Unchain(g, before, Chain(f, before, data));
      ==
        Unchain(g, before, f(x) + rest);
      == { UnchainCons(g, before, f(x), rest); }
        XorBlock(g(f(x)), before) + Unchain(g, f(x), rest);
      == { XorBlockUndone(head, before); }
        head + tail;
      ==
        data;
      }
    }
  }

  lemma OneUndone(f: Bytes -> Bytes, g: Bytes -> Bytes, x: Bytes)
    requires |x| == BLOCK && Undoes(g, f)
    ensures |f(x)| == BLOCK && g(f(x)) == x
  {
  }

  lemma UnchainCons(g: Bytes -> Bytes, before: Bytes, c: Bytes, rest: Bytes)
    requires |before| == BLOCK && |c| == BLOCK && |rest| % BLOCK == 0 && KeepsBlocks(g)
    ensures Unchain(g, before, c + rest) == XorBlock(g(c), before) + Unchain(g, c, rest)
  {
    assert (c + rest)[..BLOCK] == c && (c + rest)[BLOCK..] == rest;
  }

  /** `aes_cbc`; the source's checks come in this order. */
  function Cbc(cipher: Cipher, encrypting: bool, key: Bytes, iv: Bytes, data: Bytes, pkcs7: bool): Result<Bytes, AesError>
    requires |key| == 16 || |key| == 32 ==> cipher.Invertible(key)
  {
    if |iv| != BLOCK then Err(BadIv)
    else if |key| != 16 && |key| != 32 then Err(BadKey)
    else
      var input := if encrypting && pkcs7 then Pad(data) else data;
      if |input| % BLOCK != 0 then Err(NotBlocks)
      else if encrypting then Ok(Chain(cipher.Encrypting(key), iv, input))
      else
        var out := Unchain(cipher.Decrypting(key), iv, input);
        if !pkcs7 then Ok(out)
        else
          match Unpad(out)
          case Some(message) => Ok(message)
          case None => Err(BadPadding)
  }

  lemma CbcRoundTrip(cipher: Cipher, key: Bytes, iv: Bytes, message: Bytes, pkcs7: bool)
    requires cipher.Invertible(key) && (|key| == 16 || |key| == 32) && |iv| == BLOCK
    requires pkcs7 || |message| % BLOCK == 0
    ensures Cbc(cipher, true, key, iv, message, pkcs7).Ok?
    ensures Cbc(cipher, false, key, iv, Cbc(cipher, true, key, iv, message, pkcs7).value, pkcs7) == Ok(message)
  {
    var input := if pkcs7 then Pad(message) else message;
    UnpadIffPadded(input, message);
    ChainUndone(cipher.Encrypting(key), cipher.Decrypting(key), iv, input);
  }

  datatype Mode = CBC | ECB | GCM

  /** What the bridge calls: a block cipher, and an authenticated cipher over key and nonce. */
  datatype Suite = Suite(block: Cipher, seal: (Bytes, Bytes, Bytes) -> Bytes, open: (Bytes, Bytes, Bytes) -> Option<Bytes>) {

    ghost predicate Invertible() {
      && (forall key :: |key| == 16 || |key| == 32 ==> block.Invertible(key))
      && (forall key, nonce, data :: |nonce| == NONCE ==> open(key, nonce, seal(key, nonce, data)) == Some(data))
    }
  }

  const NONCE := 12

  function SealOrOpen(suite: Suite, encrypting: bool, key: Bytes, iv: Bytes, data: Bytes): Result<Bytes, AesError> {
    if |iv| != NONCE then Err(BadIv)
    else if |key| != 16 && |key| != 32 then Err(BadKey)
    else if encrypting then Ok(suite.seal(key, iv, data))
    else
      match suite.open(key, iv, data)
      case Some(message) => Ok(message)
      case None => Err(BadTag)
  }

  /** `aes_hex` on bytes. */
  function Apply(suite: Suite, encrypting: bool, mode: Mode, pkcs7: bool, key: Bytes, iv: Bytes,
        data: Bytes): Result<Bytes, AesError>
    requires suite.Invertible()
  {
    if mode == GCM then SealOrOpen(suite, encrypting, key, iv, data)
    else if mode == ECB then Ecb(suite.block, encrypting, key, data, pkcs7)
    else Cbc(suite.block, encrypting, key, iv, data, pkcs7)
  }

  /** When encryption succeeds: a usable key and IV, and whole blocks where nothing is padded. */
  predicate Accepts(mode: Mode, pkcs7: bool, key: Bytes, iv: Bytes, message: Bytes) {
    && (|key| == 16 || |key| == 32)
    && (mode == CBC ==> |iv| == 16)
    && (mode == GCM ==> |iv| == 12)
    && (mode == GCM || pkcs7 || |message| % 16 == 0)
  }

  lemma ApplyRoundTrip(suite: Suite, mode: Mode, pkcs7: bool, key: Bytes, iv: Bytes, message: Bytes)
    requires suite.Invertible()
    ensures var sent := Apply(suite, true, mode, pkcs7, key, iv, message);
      && (sent.Ok? <==> Accepts(mode, pkcs7, key, iv, message))
      && (sent.Ok? ==> Apply(suite, false, mode, pkcs7, key, iv, sent.value) == Ok(message))
  {
    hide Pad, Unpad, Chain, Unchain, MapBlocks;
    UnpadIffPadded(Pad(message), message);
    if Accepts(mode, pkcs7, key, iv, message) {
      if mode == ECB {
        EcbRoundTrip(suite.block, key, message, pkcs7);
      } else if mode == CBC {
        CbcRoundTrip(suite.block, key, iv, message, pkcs7);
      }
    }
  }

  /** The bridge: hexadecimal in and out, the empty text on any failure. */
  function Bridge(suite: Suite, encrypting: bool, mode: Mode, pkcs7: bool, key: string, iv: string, data: string): string
    requires suite.Invertible()
  {
    var k, v, d := BytesFromHex(key), BytesFromHex(iv), BytesFromHex(data);
    if k.None? || v.None? || d.None? then ""
    else
      match Apply(suite, encrypting, mode, pkcs7, k.value, v.value, d.value)
      case Ok(out) => HexFromBytes(out)
      case Err(_) => ""
  }

  lemma BridgeOnBytes(suite: Suite, encrypting: bool, mode: Mode, pkcs7: bool, key: Bytes, iv: Bytes, data: Bytes)
    requires suite.Invertible()
    ensures Bridge(suite, encrypting, mode, pkcs7, HexFromBytes(key), HexFromBytes(iv), HexFromBytes(data))
         == match Apply(suite, encrypting, mode, pkcs7, key, iv, data)
            case Ok(out) => HexFromBytes(out)
            case Err(_) => ""
  {
    hide Apply, HexFromBytes, BytesFromHex;
    HexRoundTrip(key);
    HexRoundTrip(iv);
    HexRoundTrip(data);
  }
}
