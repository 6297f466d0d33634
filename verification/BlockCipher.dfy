/** PKCS#7 padding and electronic-codebook encryption over any invertible block cipher
    (crates/engine/src/crypto_host.rs:197-282). */
module BlockCipher {
  import opened Wrappers
  import opened HexCodec

  const BLOCK := 16

  type Bytes = seq<byte>

  function Repeat(b: byte, n: nat): (r: Bytes)
    ensures |r| == n && forall i :: 0 <= i < n ==> r[i] == b
  {
    seq(n, _ => b)
  }

  function Pad(data: Bytes): Bytes {
    var pad := BLOCK - |data| % BLOCK;
    data + Repeat(pad, pad)
  }

  function Unpad(data: Bytes): Option<Bytes> {
    if data == [] || |data| % BLOCK != 0 then None
    else
      var pad := data[|data| - 1];
      if pad == 0 || pad > BLOCK then None
      else if exists i :: |data| - pad <= i < |data| && data[i] != pad then None
      else Some(data[..|data| - pad])
  }

  /** Unpadding accepts exactly the padded messages, and gives the message back. */
  lemma UnpadIffPadded(data: Bytes, message: Bytes)
    ensures Unpad(data) == Some(message) <==> data == Pad(message)
    ensures |Pad(message)| % BLOCK == 0
  {
    var full := BLOCK - |message| % BLOCK;
    PaddedLength(|message|);
    if Unpad(data) == Some(message) {
      var pad := data[|data| - 1];
      LastPad(|data|, pad);
      assert data == message + data[|message|..];
      assert data[|message|..] == Repeat(pad, pad);
    }
    if data == Pad(message) {
      assert data[|data| - 1] == full;
      assert data[..|data| - full] == message;
    }
  }

  /** Padding adds one to sixteen bytes, each telling how many there are. */
  lemma PadIs(message: Bytes)
    ensures var padded := Pad(message);
      && |message| < |padded| <= |message| + 16 && |padded| % 16 == 0 && padded[..|message|] == message
      && forall i :: |message| <= i < |padded| ==> padded[i] == |padded| - |message|
  {
    PaddedLength(|message|);
  }

  lemma PaddedLength(n: nat)
    ensures (n + (BLOCK - n % BLOCK)) % BLOCK == 0 && 1 <= BLOCK - n % BLOCK <= BLOCK
  {
  }

  lemma LastPad(length: nat, pad: nat)
    requires length % BLOCK == 0 && 1 <= pad <= BLOCK && pad <= length
    ensures BLOCK - (length - pad) % BLOCK == pad
  {
  }

  /** A block function applied to each whole block, in place order. */
  function MapBlocks(f: Bytes -> Bytes, data: Bytes): Bytes {
    if |data| < BLOCK then data else f(data[..BLOCK]) + MapBlocks(f, data[BLOCK..])
  }

  ghost predicate KeepsBlocks(f: Bytes -> Bytes) {
    forall b :: |b| == BLOCK ==> |f(b)| == BLOCK
  }

  ghost predicate Undoes(g: Bytes -> Bytes, f: Bytes -> Bytes) {
    forall b :: |b| == BLOCK ==> |f(b)| == BLOCK && g(f(b)) == b
  }

  lemma {:induction false} MapBlocksLength(f: Bytes -> Bytes, data: Bytes)
    requires KeepsBlocks(f)
    ensures |MapBlocks(f, data)| == |data|
  {
    if |data| >= BLOCK {
      MapBlocksLength(f, data[BLOCK..]);
      assert |f(data[..BLOCK])| == BLOCK;
    }
  }

  lemma {:induction false} MapBlocksUndone(f: Bytes -> Bytes, g: Bytes -> Bytes, data: Bytes)
    requires Undoes(g, f)
    ensures MapBlocks(g, MapBlocks(f, data)) == data
  {
    if |data| >= BLOCK {
      var head, rest := f(data[..BLOCK]), MapBlocks(f, data[BLOCK..]);
      MapBlocksUndone(f, g, data[BLOCK..]);
      assert |data[..BLOCK]| == BLOCK && |head| == BLOCK;
      assert (head + rest)[..BLOCK] == head && (head + rest)[BLOCK..] == rest;
      assert data == data[..BLOCK] + data[BLOCK..];
    }
  }

  lemma {:induction false} MapBlocksConcat(f: Bytes -> Bytes, a: Bytes, b: Bytes)
    requires |a| % BLOCK == 0
    ensures MapBlocks(f, a + b) == MapBlocks(f, a) + MapBlocks(f, b)
  {
    if a == [] {
      assert a + b == b;
      assert MapBlocks(f, a) + MapBlocks(f, b) == MapBlocks(f, b);
    } else {
      MapBlocksConcat(f, a[BLOCK..], b);
      assert (a + b)[..BLOCK] == a[..BLOCK] && (a + b)[BLOCK..] == a[BLOCK..] + b;
      assert f(a[..BLOCK]) + (MapBlocks(f, a[BLOCK..]) + MapBlocks(f, b)) == f(a[..BLOCK]) + MapBlocks(f, a[BLOCK..]) + MapBlocks(f, b);
    }
  }

  /** A keyed block cipher: encryption and decryption of one block. */
  datatype Cipher = Cipher(encrypt: (Bytes, Bytes) -> Bytes, decrypt: (Bytes, Bytes) -> Bytes) {
    function Encrypting(key: Bytes): Bytes -> Bytes { b => encrypt(key, b) }

    function Decrypting(key: Bytes): Bytes -> Bytes { b => decrypt(key, b) }

    ghost predicate Invertible(key: Bytes) {
      && Undoes(Decrypting(key), Encrypting(key))
      && KeepsBlocks(Encrypting(key)) && KeepsBlocks(Decrypting(key))
    }
  }

  datatype AesError = NotBlocks | BadKey | BadPadding | BadIv | BadTag

  function Ecb(cipher: Cipher, encrypting: bool, key: Bytes, data: Bytes, pkcs7: bool): Result<Bytes, AesError> {
    var input := if encrypting && pkcs7 then Pad(data) else data;
    if |input| % BLOCK != 0 then Err(NotBlocks)
    else if |key| != 16 && |key| != 32 then Err(BadKey)
    else
      var out := MapBlocks(if encrypting then cipher.Encrypting(key) else cipher.Decrypting(key), input);
      if !encrypting && pkcs7 then
        match Unpad(out)
        case Some(message) => Ok(message)
        case None => Err(BadPadding)
      else Ok(out)
  }

  /** `aes_ecb`: the blocks of one buffer, transformed in place. */
  method AesEcb(cipher: Cipher, encrypting: bool, key: Bytes, data: Bytes,
        pkcs7: bool) returns (r: Result<Bytes, AesError>)
    requires cipher.Invertible(key)
    ensures r == Ecb(cipher, encrypting, key, data, pkcs7)
  {
    hide Unpad, Pad;
    var input := if encrypting && pkcs7 then Pad(data) else data;
    if |input| % BLOCK != 0 {
      return Err(NotBlocks);
    }
    if |key| != 16 && |key| != 32 {
      return Err(BadKey);
    }
    var out := new byte[|input|](i requires 0 <= i < |input| => input[i]);
    assert out[..] == input;
    TransformBlocks(out, if encrypting then cipher.Encrypting(key) else cipher.Decrypting(key));
    if !encrypting && pkcs7 {
      var message := Unpad(out[..]);
      if message.None? {
        return Err(BadPadding);
      }
      return Ok(message.value);
    }
    r := Ok(out[..]);
  }

  /** The loop over `chunks_exact_mut`. */
  method TransformBlocks(out: array<byte>, f: Bytes -> Bytes)
    requires out.Length % BLOCK == 0 && KeepsBlocks(f)
    modifies out
    ensures out[..] == MapBlocks(f, old(out[..]))
  {
    hide MapBlocks;
    ghost var input := out[..];
    var at := 0;
    assert MapBlocks(f, input[..0]) == [] by { EmptyBlocks(f); }
    while at < out.Length
      invariant 0 <= at <= out.Length && at % BLOCK == 0
      invariant out[..at] == MapBlocks(f, input[..at])
      invariant out[at..] == input[at..]
    {
      var chunk := out[at..at + BLOCK];
      NextBlock(f, input, at, chunk);
      WriteBlock(out, at, f(chunk));
      at := at + BLOCK;
    }
    assert input[..at] == input && out[..at] == out[..];
  }

  lemma EmptyBlocks(f: Bytes -> Bytes)
    ensures MapBlocks(f, []) == []
  {
  }

  lemma NextBlock(f: Bytes -> Bytes, input: Bytes, at: nat, chunk: Bytes)
    requires KeepsBlocks(f) && at % BLOCK == 0 && at + BLOCK <= |input| && chunk == input[at..at + BLOCK]
    ensures MapBlocks(f, input[..at + BLOCK]) == MapBlocks(f, input[..at]) + f(chunk)
    ensures |f(chunk)| == BLOCK
  {
    assert input[..at + BLOCK] == input[..at] + chunk;
    MapBlocksConcat(f, input[..at], chunk);
    OneBlock(f, chunk);
  }

  lemma OneBlock(f: Bytes -> Bytes, chunk: Bytes)
    requires |chunk| == BLOCK && |f(chunk)| == BLOCK
    ensures MapBlocks(f, chunk) == f(chunk)
  {
    assert chunk[..BLOCK] == chunk && chunk[BLOCK..] == [];
    assert f(chunk) + [] == f(chunk);
  }

  method WriteBlock(out: array<byte>, at: nat, block: Bytes)
    requires |block| == BLOCK && at + BLOCK <= out.Length
    modifies out
    ensures out[..] == old(out[..at]) + block + old(out[at + BLOCK..])
  {
    for i := 0 to BLOCK
      invariant out[..at] == old(out[..at])
      invariant out[at..at + i] == block[..i]
      invariant out[at + i..] == old(out[at + i..])
    {
      out[at + i] := block[i];
      assert out[at..at + i + 1] == out[at..at + i] + [block[i]];
    }
    assert out[..] == out[..at] + out[at..at + BLOCK] + out[at + BLOCK..];
  }

  /** Decrypting undoes encrypting, on every message with padding and on whole blocks without. */
  lemma EcbRoundTrip(cipher: Cipher, key: Bytes, message: Bytes, pkcs7: bool)
    requires cipher.Invertible(key) && (|key| == 16 || |key| == 32)
    requires pkcs7 || |message| % BLOCK == 0
    ensures Ecb(cipher, true, key, message, pkcs7).Ok?
    ensures Ecb(cipher, false, key, Ecb(cipher, true, key, message, pkcs7).value, pkcs7) == Ok(message)
  {
    var input := if pkcs7 then Pad(message) else message;
    UnpadIffPadded(input, message);
    MapBlocksLength(cipher.Encrypting(key), input);
    MapBlocksUndone(cipher.Encrypting(key), cipher.Decrypting(key), input);
  }
}
