/** Bytes and hexadecimal text on both sides of the crypto bridge
    (crates/engine/src/crypto_host.rs:18-44, crates/engine/src/crypto_js_polyfill.js:3-22). */
module HexCodec {
  import opened Wrappers
  import Text

  type byte = x: int | 0 <= x < 256

  function HexDigit(n: int): (c: char)
    requires 0 <= n < 16
    ensures IsHex(c) && DigitValue(c) == n
  {
    if n < 10 then (n + '0' as int) as char else (n - 10 + 'a' as int) as char
  }

  /** A lower-case hexadecimal digit. */
  predicate IsHex(c: char) { '0' <= c <= '9' || 'a' <= c <= 'f' }

  function DigitValue(c: char): (n: int)
    requires IsHex(c)
    ensures 0 <= n < 16
  {
    if c <= '9' then c as int - '0' as int else c as int - 'a' as int + 10
  }

  lemma DigitOfHex(c: char)
    requires IsHex(c)
    ensures HexDigit(DigitValue(c)) == c
  {
  }

  function HexFromBytes(bytes: seq<byte>): (r: string)
    ensures |r| == 2 * |bytes|
    ensures forall i :: 0 <= i < |bytes| ==> r[2 * i] == HexDigit(bytes[i] / 16) && r[2 * i + 1] == HexDigit(bytes[i] % 16)
  {
    if bytes == [] then ""
    else
      var front := HexFromBytes(bytes[..|bytes| - 1]);
      front + [HexDigit(bytes[|bytes| - 1] / 16), HexDigit(bytes[|bytes| - 1] % 16)]
  }

  /** `u8::from_str_radix` on two characters: two digits, or a plus sign and one. */
  function PairValue(a: char, b: char): Option<byte> {
    if !IsHex(b) then None
    else if IsHex(a) then Some(DigitValue(a) * 16 + DigitValue(b))
    else if a == '+' then Some(DigitValue(b))
    else None
  }

  function WithoutSpace(s: string): string {
    if s == "" then ""
    else if Text.IsSpace(s[0]) then WithoutSpace(s[1..])
    else [s[0]] + WithoutSpace(s[1..])
  }

  /** The decoded pairs of an even-length text, if all of them decode. */
  function DecodePairs(s: string): Option<seq<byte>>
    requires |s| % 2 == 0
  {
    if s == "" then Some([])
    else
      var front, last := DecodePairs(s[..|s| - 2]), PairValue(s[|s| - 2], s[|s| - 1]);
      if front.Some? && last.Some? then Some(front.value + [last.value]) else None
  }

  /** Lower case, without white space; trimming it first takes nothing more (`TrimmingAddsNothing`). */
  function Cleaned(hex: string): string { WithoutSpace(Text.LowerAscii(hex)) }

  function BytesFromHex(hex: string): Option<seq<byte>> {
    DecodePairs(Evened(Cleaned(hex)))
  }

  function Evened(s: string): (r: string)
    ensures |r| % 2 == 0
  {
    if |s| % 2 == 0 then s else "0" + s
  }

  lemma {:induction false} CleanedConcat(a: string, b: string)
    ensures Cleaned(a + b) == Cleaned(a) + Cleaned(b)
  {
    hide Text.IsSpace, Text.ToLowerAscii, Cleaned;
    if a == "" {
      assert a + b == b && Cleaned("") == "" by { NothingToClean(); }
    } else {
      CleanedConcat(a[1..], b);
      assert a + b == [a[0]] + (a[1..] + b) && a == [a[0]] + a[1..];
      CleanedCons(a[0], a[1..]);
      CleanedCons(a[0], a[1..] + b);
      var c := Text.ToLowerAscii(a[0]);
      var first := if Text.IsSpace(c) then "" else [c];
      assert first + (Cleaned(a[1..]) + Cleaned(b)) == first + Cleaned(a[1..]) + Cleaned(b);
    }
  }

  lemma CleanedCons(x: char, s: string)
    ensures var c := Text.ToLowerAscii(x); Cleaned([x] + s) == (if Text.IsSpace(c) then "" else [c]) + Cleaned(s)
  {
    hide Text.IsSpace, Text.ToLowerAscii;
    CleanedFront([x] + s);
    assert ([x] + s)[1..] == s;
  }

  lemma NothingToClean()
    ensures Cleaned("") == ""
  {
  }

  lemma CleanedFront(s: string)
    requires s != ""
    ensures var c := Text.ToLowerAscii(s[0]); Cleaned(s) == (if Text.IsSpace(c) then "" else [c]) + Cleaned(s[1..])
  {
    hide Text.IsSpace, Text.ToLowerAscii;
    assert Text.LowerAscii(s) == [Text.ToLowerAscii(s[0])] + Text.LowerAscii(s[1..]);
  }

  lemma {:induction false} CleanedSpace(s: string)
    requires forall c <- s :: Text.IsSpace(c)
    ensures Cleaned(s) == ""
  {
    if s != "" {
      assert Text.IsSpace(s[0]);
      CleanedSpace(s[1..]);
      CleanedFront(s);
    }
  }

  lemma TrimmingAddsNothing(s: string)
    ensures WithoutSpace(Text.LowerAscii(Text.Trim(s))) == Cleaned(s)
  {
    hide WithoutSpace, Text.LowerAscii, Text.IsSpace, Text.TrimStart, Text.TrimEnd;
    var t, m := Text.TrimStart(s), Text.Trim(s);
    var lead, trail := s[..|s| - |t|], t[|m|..];
    Text.TrimStartIsTail(s);
    assert s == lead + t && t == m + trail;
    CleanedConcat(lead, t);
    CleanedConcat(m, trail);
    CleanedSpace(lead);
    CleanedSpace(trail);
  }

  method DecodeHex(hex: string) returns (r: Option<seq<byte>>)
    ensures r == BytesFromHex(hex)
  {
    hide Cleaned, PairValue, WithoutSpace, Text.LowerAscii, Text.Trim;
    var cleaned := WithoutSpace(Text.LowerAscii(Text.Trim(hex)));
    TrimmingAddsNothing(hex);
    if cleaned == "" {
      return Some([]);
    }
    var even := Evened(cleaned);
    var out: seq<byte> := [];
    for i := 0 to |even| / 2
      invariant DecodePairs(even[..2 * i]) == Some(out)
    {
      assert even[..2 * (i + 1)][..2 * i] == even[..2 * i];
      var v := PairValue(even[2 * i], even[2 * i + 1]);
      if v.None? {
        FailsEarly(even, 2 * (i + 1));
        return None;
      }
      out := out + [v.value];
    }
    assert even[..2 * (|even| / 2)] == even;
    r := Some(out);
  }

  lemma {:induction false} FailsEarly(s: string, n: nat)
    requires |s| % 2 == 0 && n <= |s| && n % 2 == 0 && DecodePairs(s[..n]).None?
    ensures DecodePairs(s).None?
  {
    if n == |s| {
      assert s[..n] == s;
    } else {
      var front := s[..|s| - 2];
      assert front[..n] == s[..n];
      FailsEarly(front, n);
    }
  }

  /** Text that `hex_from_bytes` can have produced. */
  predicate HexText(s: string) { |s| % 2 == 0 && forall c <- s :: IsHex(c) }

  lemma HexIsText(bytes: seq<byte>)
    ensures HexText(HexFromBytes(bytes))
  {
    var r := HexFromBytes(bytes);
    forall i | 0 <= i < |r| ensures IsHex(r[i]) {
      assert r[2 * (i / 2)] == HexDigit(bytes[i / 2] / 16) && r[2 * (i / 2) + 1] == HexDigit(bytes[i / 2] % 16);
    }
  }

  lemma {:induction false} CleanedIsSame(s: string)
    requires HexText(s)
    ensures Cleaned(s) == s
  {
    hide Text.LowerAscii, WithoutSpace, IsHex;
    forall c | c in s ensures !Text.IsSpace(c) && Text.ToLowerAscii(c) == c {
      HexIsPlain(c);
    }
    hide Text.IsSpace, Text.ToLowerAscii;
    assert Text.LowerAscii(s) == s by {
      forall i | 0 <= i < |s| ensures Text.LowerAscii(s)[i] == s[i] { assert s[i] in s; }
    }
    NoSpaceToDrop(s);
  }

  lemma HexIsPlain(c: char)
    requires IsHex(c)
    ensures !Text.IsSpace(c) && Text.ToLowerAscii(c) == c
  {
  }

  lemma {:induction false} NoSpaceToDrop(s: string)
    requires forall c <- s :: !Text.IsSpace(c)
    ensures WithoutSpace(s) == s
  {
    if s != "" {
      NoSpaceToDrop(s[1..]);
      assert s == [s[0]] + s[1..];
    }
  }

  lemma {:induction false} PairsOfHex(bytes: seq<byte>)
    ensures DecodePairs(HexFromBytes(bytes)) == Some(bytes)
  {
    hide HexFromBytes, HexDigit, PairValue;
    if bytes == [] {
      assert HexFromBytes(bytes) == "" by { assert |HexFromBytes(bytes)| == 0; }
    } else {
      var front, last := bytes[..|bytes| - 1], bytes[|bytes| - 1];
      PairsOfHex(front);
      assert bytes == front + [last];
      PairOfDigits(last);
      AppendHex(front, last);
      AppendPair(HexFromBytes(front), HexDigit(last / 16), HexDigit(last % 16));
    }
  }

  lemma PairOfDigits(b: byte)
    ensures PairValue(HexDigit(b / 16), HexDigit(b % 16)) == Some(b)
  {
    hide HexDigit, DigitValue;
    assert b == b / 16 * 16 + b % 16;
  }

  lemma AppendPair(s: string, a: char, b: char)
    requires |s| % 2 == 0
    ensures DecodePairs(s + [a, b]) ==
            if DecodePairs(s).Some? && PairValue(a, b).Some? then Some(DecodePairs(s).value + [PairValue(a, b).value]) else None
  {
    hide PairValue;
    assert (s + [a, b])[..|s|] == s;
  }

  /** Decoding undoes encoding, and encoding undoes decoding on text an encoder produced. */
  lemma HexRoundTrip(bytes: seq<byte>)
    ensures BytesFromHex(HexFromBytes(bytes)) == Some(bytes)
  {
    HexIsText(bytes);
    CleanedIsSame(HexFromBytes(bytes));
    PairsOfHex(bytes);
  }

  lemma {:induction false} HexOfPairs(s: string)
    requires HexText(s)
    ensures DecodePairs(s).Some? && HexFromBytes(DecodePairs(s).value) == s
  {
    hide PairValue, HexFromBytes, HexDigit;
    if s == "" {
      assert HexFromBytes([]) == "";
    } else {
      var front, a, b := s[..|s| - 2], s[|s| - 2], s[|s| - 1];
      HexOfPairs(front);
      PairOfHex(a, b);
      AppendHex(DecodePairs(front).value, PairValue(a, b).value);
      assert s == front + [a, b];
    }
  }

  lemma PairOfHex(a: char, b: char)
    requires IsHex(a) && IsHex(b)
    ensures PairValue(a, b).Some?
    ensures HexDigit(PairValue(a, b).value / 16) == a && HexDigit(PairValue(a, b).value % 16) == b
  {
    DigitOfHex(a);
    DigitOfHex(b);
  }

  lemma AppendHex(bytes: seq<byte>, last: byte)
    ensures HexFromBytes(bytes + [last]) == HexFromBytes(bytes) + [HexDigit(last / 16), HexDigit(last % 16)]
  {
    assert (bytes + [last])[..|bytes|] == bytes;
  }

  lemma TextRoundTrip(s: string)
    requires HexText(s)
    ensures BytesFromHex(s).Some? && HexFromBytes(BytesFromHex(s).value) == s
  {
    CleanedIsSame(s);
    HexOfPairs(s);
  }

  lemma {:induction false} HexConcat(a: seq<byte>, b: seq<byte>)
    ensures HexFromBytes(a + b) == HexFromBytes(a) + HexFromBytes(b)
  {
    hide HexFromBytes, HexDigit;
    if b == [] {
      assert a + b == a;
      assert HexFromBytes(b) == "" by { assert |HexFromBytes(b)| == 0; }
    } else {
      var front, last := b[..|b| - 1], b[|b| - 1];
      HexConcat(a, front);
      assert a + b == (a + front) + [last] && b == front + [last];
      AppendHex(a + front, last);
      AppendHex(front, last);
    }
  }

  // ---------------------------------------------------------------------------------------------
  // Text behind whole bytes

  lemma CleanedBehind(hex: string, s: string)
    requires HexText(hex)
    ensures Cleaned(hex + s) == hex + Cleaned(s)
  {
    hide Cleaned;
    CleanedIsSame(hex);
    CleanedConcat(hex, s);
  }

  lemma {:induction false} DecodeConcat(a: string, b: string)
    requires |a| % 2 == 0 && |b| % 2 == 0
    ensures DecodePairs(a + b).Some? <==> DecodePairs(a).Some? && DecodePairs(b).Some?
    ensures DecodePairs(a + b).Some? ==> DecodePairs(a + b).value == DecodePairs(a).value + DecodePairs(b).value
  {
    hide PairValue, DecodePairs;
    if b == "" {
      assert a + b == a;
      assert DecodePairs("") == Some([]) by { NoPairs(); }
    } else {
      var front, x, y := b[..|b| - 2], b[|b| - 2], b[|b| - 1];
      DecodeConcat(a, front);
      AppendPair(a + front, x, y);
      AppendPair(front, x, y);
      assert b == front + [x, y] && a + b == a + front + [x, y];
    }
  }

  lemma NoPairs()
    ensures DecodePairs("") == Some([])
  {
  }

  /** Text decodes behind whole bytes exactly when it decodes alone: of an odd number of characters
      the first needs to be a digit either way. */
  lemma DecodesBehind(hex: string, s: string)
    requires HexText(hex)
    ensures BytesFromHex(hex + s).Some? <==> BytesFromHex(s).Some?
  {
    hide Cleaned, DecodePairs, HexText, BytesFromHex, Evened;
    var c := Cleaned(s);
    CleanedBehind(hex, s);
    DecodesCleaned(hex + s);
    DecodesCleaned(s);
    EvenText(hex);
    EvenedBehind(hex, c);
    if |c| % 2 == 0 {
      DecodeConcat(hex, c);
    } else {
      OddBehind(hex, c);
    }
  }

  /** Of an even number of characters its pairs stay as they were. */
  lemma BytesBehind(bytes: seq<byte>, s: string)
    requires |Cleaned(s)| % 2 == 0 && BytesFromHex(s).Some?
    ensures BytesFromHex(HexFromBytes(bytes) + s) == Some(bytes + BytesFromHex(s).value)
  {
    hide Cleaned, DecodePairs, HexText, BytesFromHex, Evened, HexFromBytes;
    var hex := HexFromBytes(bytes);
    HexIsText(bytes);
    PairsOfHex(bytes);
    CleanedBehind(hex, s);
    DecodesCleaned(hex + s);
    DecodesCleaned(s);
    EvenedBehind(hex, Cleaned(s));
    DecodeConcat(hex, Cleaned(s));
  }

  lemma DecodesCleaned(s: string)
    ensures BytesFromHex(s) == DecodePairs(Evened(Cleaned(s)))
  {
  }

  lemma EvenedBehind(hex: string, c: string)
    requires |hex| % 2 == 0
    ensures |c| % 2 == 0 ==> |hex + c| % 2 == 0 && Evened(hex + c) == hex + c && Evened(c) == c
    ensures |c| % 2 == 1 ==> Evened(hex + c) == "0" + (hex + c) && Evened(c) == "0" + c
  {
  }

  lemma EvenText(hex: string)
    requires HexText(hex)
    ensures |hex| % 2 == 0 && DecodePairs(hex).Some?
  {
    HexOfPairs(hex);
  }

  lemma OddBehind(hex: string, c: string)
    requires HexText(hex) && |c| % 2 == 1
    ensures DecodePairs("0" + (hex + c)).Some? <==> DecodePairs("0" + c).Some?
  {
    hide PairValue, DecodePairs;
    var head, rest := [c[0]], c[1..];
    DecodeConcat("0" + hex + head, rest);
    DecodeConcat("0" + head, rest);
    assert "0" + (hex + c) == ("0" + hex + head) + rest && "0" + c == ("0" + head) + rest;
    ShiftedDecodes(hex, c[0]);
    ShiftedDecodes("", c[0]);
    assert "0" + "" + head == "0" + head;
  }

  lemma ShiftedDecodes(hex: string, c: char)
    requires HexText(hex)
    ensures DecodePairs("0" + hex + [c]).Some? <==> IsHex(c)
  {
    hide DecodePairs, PairValue;
    var all := "0" + hex + [c];
    if IsHex(c) {
      HexOfPairs(all);
    } else {
      var front := all[..|all| - 2];
      AppendPair(front, all[|all| - 2], c);
      NotADigit(all[|all| - 2], c);
      assert all == front + [all[|all| - 2], c];
    }
  }

  lemma NotADigit(a: char, b: char)
    requires !IsHex(b)
    ensures PairValue(a, b).None?
  {
  }

  /** Two characters that cleaning leaves alone. */
  lemma CleanPair(a: char, b: char)
    requires !Text.IsSpace(a) && !Text.IsSpace(b) && Text.ToLowerAscii(a) == a && Text.ToLowerAscii(b) == b
    ensures BytesFromHex([a, b]) == if PairValue(a, b).Some? then Some([PairValue(a, b).value]) else None
  {
    hide PairValue, Text.IsSpace, Text.ToLowerAscii, Cleaned, BytesFromHex, DecodePairs, Evened;
    PairIsClean(a, b);
    DecodesCleaned([a, b]);
    EvenedBehind("", [a, b]);
    NoPairs();
    AppendPair("", a, b);
    var none: seq<byte> := [];
    assert "" + [a, b] == [a, b];
    assert PairValue(a, b).Some? ==> none + [PairValue(a, b).value] == [PairValue(a, b).value];
  }

  lemma PairIsClean(a: char, b: char)
    requires !Text.IsSpace(a) && !Text.IsSpace(b) && Text.ToLowerAscii(a) == a && Text.ToLowerAscii(b) == b
    ensures Cleaned([a, b]) == [a, b]
  {
    hide Text.IsSpace, Text.ToLowerAscii, Text.LowerAscii, WithoutSpace;
    var s := [a, b];
    assert Text.LowerAscii(s) == s;
    NoSpaceToDrop(s);
  }

  lemma TwoPairs()
    ensures PairValue('z', 'z') == None && PairValue('+', '1') == Some(1)
    ensures !IsHex('+')
  {
  }

  /** Not all that decodes is hexadecimal. */
  lemma LooseText()
    ensures BytesFromHex("zz") == None
    ensures BytesFromHex("+1") == Some([1]) && !HexText("+1")
  {
    hide BytesFromHex, PairValue, IsHex;
    TwoPairs();
    CleanPair('z', 'z');
    CleanPair('+', '1');
    assert ['z', 'z'] == "zz" && ['+', '1'] == "+1";
    assert '+' in "+1" by { assert "+1"[0] == '+'; }
  }

  lemma HexSlice(a: seq<byte>, i: nat, j: nat)
    requires i <= j <= |a|
    ensures HexFromBytes(a)[2 * i..2 * j] == HexFromBytes(a[i..j])
  {
    hide HexFromBytes;
    assert a == a[..i] + a[i..j] + a[j..];
    HexConcat(a[..i] + a[i..j], a[j..]);
    HexConcat(a[..i], a[i..j]);
  }

  // ---------------------------------------------------------------------------------------------
  // 32-bit words

  /** `parseInt(c, 16) | 0` of eight digits, kept unsigned: `>>>` reads it back so. */
  function WordOf(c: string): int
    requires |c| == 8 && HexText(c)
  {
    ByteAt(c, 0) * 0x100_0000 + ByteAt(c, 1) * 0x1_0000 + ByteAt(c, 2) * 0x100 + ByteAt(c, 3)
  }

  function ByteAt(c: string, k: nat): byte
    requires 2 * k + 1 < |c| && HexText(c)
  {
    DigitValue(c[2 * k]) * 16 + DigitValue(c[2 * k + 1])
  }

  function Zeros(n: nat): (r: string)
    ensures |r| == n && forall c <- r :: c == '0'
  {
    if n == 0 then "" else "0" + Zeros(n - 1)
  }

  /** Eight digits from position i on, filled up with zeros. */
  function Chunk(hex: string, i: nat): (r: string)
    requires i <= |hex|
    ensures |r| == 8
  {
    var c := hex[i..if i + 8 <= |hex| then i + 8 else |hex|];
    c + Zeros(8 - |c|)
  }

  /** Word k stands for the k-th eight digits. */
  ghost predicate StandFor(words: seq<int>, hex: string) {
    forall k :: 0 <= k < |words| ==> 8 * k <= |hex| && HexText(Chunk(hex, 8 * k)) && words[k] == WordOf(Chunk(hex, 8 * k))
  }

  lemma ChunkIsHex(hex: string, i: nat)
    requires i <= |hex| && HexText(hex)
    ensures HexText(Chunk(hex, i))
  {
  }

  method HexToWords(hex: string) returns (words: seq<int>)
    requires HexText(hex)
    ensures |words| == (|hex| + 7) / 8 && StandFor(words, hex)
  {
    hide WordOf, Chunk;
    words := [];
    var i := 0;
    while i < |hex|
      invariant i == 8 * |words| && i < |hex| + 8
      invariant StandFor(words, hex)
    {
      ChunkIsHex(hex, i);
      words := words + [WordOf(Chunk(hex, i))];
      i := i + 8;
    }
  }

  /** `(w >>> (24 - (i % 4) * 8)) & 0xff`. */
  function ByteOfWord(w: int, k: nat): byte
    requires k < 4
  {
    (w / (if k == 0 then 0x100_0000 else if k == 1 then 0x1_0000 else if k == 2 then 0x100 else 1)) % 256
  }

  function WordAt(words: seq<int>, k: nat): int { if k < |words| then words[k] else 0 }

  method WordsToHex(words: seq<int>, sigBytes: nat) returns (hex: string)
    ensures |hex| == 2 * sigBytes
    ensures forall i :: 0 <= i < sigBytes ==>
      var b := ByteOfWord(WordAt(words, i / 4), i % 4);
      hex[2 * i] == HexDigit(b / 16) && hex[2 * i + 1] == HexDigit(b % 16)
    ensures forall i :: 4 * |words| <= i < sigBytes ==> hex[2 * i] == '0' && hex[2 * i + 1] == '0'
  {
    hex := "";
    for i := 0 to sigBytes
      invariant |hex| == 2 * i
      invariant forall j :: 0 <= j < i ==>
        var b := ByteOfWord(WordAt(words, j / 4), j % 4);
        hex[2 * j] == HexDigit(b / 16) && hex[2 * j + 1] == HexDigit(b % 16)
    {
      var b := ByteOfWord(WordAt(words, i / 4), i % 4);
      hex := hex + [HexDigit(b / 16), HexDigit(b % 16)];
    }
  }

  lemma WordHoldsBytes(c: string, k: nat)
    requires |c| == 8 && HexText(c) && k < 4
    ensures ByteOfWord(WordOf(c), k) == ByteAt(c, k)
  {
    SplitWord(ByteAt(c, 0), ByteAt(c, 1), ByteAt(c, 2), ByteAt(c, 3));
  }

  lemma SplitWord(a: int, b: int, c: int, d: int)
    requires 0 <= a < 256 && 0 <= b < 256 && 0 <= c < 256 && 0 <= d < 256
    ensures var w := a * 0x100_0000 + b * 0x1_0000 + c * 0x100 + d;
      && w / 0x100_0000 % 256 == a && w / 0x1_0000 % 256 == b && w / 0x100 % 256 == c && w % 256 == d
  {
    var w := a * 0x100_0000 + b * 0x1_0000 + c * 0x100 + d;
    assert w / 0x100 == a * 0x1_0000 + b * 0x100 + c;
    assert w / 0x1_0000 == a * 0x100 + b;
    assert w / 0x100_0000 == a;
  }

  /** Going through words and back leaves hexadecimal text as it was, filled-up last word included. */
  method ThroughWords(hex: string) returns (back: string)
    requires HexText(hex)
    ensures back == hex
  {
    var words := HexToWords(hex);
    back := WordsToHex(words, |hex| / 2);
    forall j | 0 <= j < |hex| ensures back[j] == hex[j] {
      WordByteIsHexByte(words, hex, j / 2);
      var b := ByteOfWord(WordAt(words, j / 2 / 4), j / 2 % 4);
      assert back[2 * (j / 2)] == HexDigit(b / 16) && back[2 * (j / 2) + 1] == HexDigit(b % 16);
    }
  }

  lemma WordByteIsHexByte(words: seq<int>, hex: string, i: nat)
    requires HexText(hex) && |words| == (|hex| + 7) / 8 && StandFor(words, hex) && i < |hex| / 2
    ensures var b := ByteOfWord(WordAt(words, i / 4), i % 4);
      HexDigit(b / 16) == hex[2 * i] && HexDigit(b % 16) == hex[2 * i + 1]
  {
    hide WordOf, ByteOfWord, Chunk;
    var k, j := i / 4, i % 4;
    var c := Chunk(hex, 8 * k);
    assert words[k] == WordOf(c) && HexText(c);
    WordHoldsBytes(c, j);
    ChunkDigits(hex, k, j);
    DigitOfHex(hex[2 * i]);
    DigitOfHex(hex[2 * i + 1]);
  }

  lemma ChunkDigits(hex: string, k: nat, j: nat)
    requires j < 4 && 8 * k + 2 * j + 1 < |hex|
    ensures Chunk(hex, 8 * k)[2 * j] == hex[8 * k + 2 * j] && Chunk(hex, 8 * k)[2 * j + 1] == hex[8 * k + 2 * j + 1]
  {
  }
}
