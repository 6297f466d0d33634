/** Strings: trimming, splitting, searching and ordering, as the Rust and Python libraries do them. */
module Text {
  import opened Wrappers

  /** The characters `str::trim` removes: Unicode White_Space. */
  predicate IsSpace(c: char) {
    || 9 as char <= c <= 13 as char
    || c == ' '
    || c == 0x85 as char
    || c == 0xA0 as char
    || c == 0x1680 as char
    || 0x2000 as char <= c <= 0x200A as char
    || c == 0x2028 as char
    || c == 0x2029 as char
    || c == 0x202F as char
    || c == 0x205F as char
    || c == 0x3000 as char
  }

  /** By code point: the 25 characters with that property. */
  lemma SpaceIs(c: char)
    ensures IsSpace(c) <==> c as int in [9, 10, 11, 12, 13, 32, 133, 160, 5760, 8192, 8193, 8194, 8195, 8196, 8197, 8198, 8199,
                                         8200, 8201, 8202, 8232, 8233, 8239, 8287, 12288]
  {
  }

  function TrimStart(s: string): (r: string)
    ensures r != "" ==> !IsSpace(r[0])
    ensures |r| <= |s|
    ensures forall i :: 0 <= i < |s| - |r| ==> IsSpace(s[i])
  {
    if s != "" && IsSpace(s[0]) then TrimStart(s[1..]) else s
  }

  lemma {:induction false} TrimStartIsTail(s: string)
    ensures s[|s| - |TrimStart(s)|..] == TrimStart(s)
  {
    hide IsSpace;
    if s != "" && IsSpace(s[0]) {
      TrimStartIsTail(s[1..]);
      var r := TrimStart(s[1..]);
      assert s[|s| - |r|..] == s[1..][|s| - 1 - |r|..];
    }
  }

  function TrimEnd(s: string): (r: string)
    ensures r != "" ==> !IsSpace(r[|r| - 1])
    ensures r <= s
    ensures forall i :: |r| <= i < |s| ==> IsSpace(s[i])
  {
    if s != "" && IsSpace(s[|s| - 1]) then TrimEnd(s[..|s| - 1]) else s
  }

  function Trim(s: string): string {
    TrimEnd(TrimStart(s))
  }

  predicate Trimmed(s: string) {
    s != "" ==> !IsSpace(s[0]) && !IsSpace(s[|s| - 1])
  }

  lemma TrimIsTrimmed(s: string)
    ensures Trimmed(Trim(s))
  {
    hide IsSpace, TrimStart, TrimEnd;
    var t := TrimStart(s);
    var r := TrimEnd(t);
    if r != "" {
      assert r[0] == t[0];
    }
  }

  /** Only space is taken off, and all of it: nothing is left exactly of a text that is all space. */
  lemma TrimIsEmptyIff(s: string)
    ensures Trim(s) == "" <==> forall c <- s :: IsSpace(c)
  {
    hide IsSpace;
    if forall c <- s :: IsSpace(c) {
      SpacesTrim(s);
    } else {
      var c :| c in s && !IsSpace(c);
      var i :| 0 <= i < |s| && s[i] == c;
      var t := TrimStart(s);
      TrimStartIsTail(s);
      var j := i - (|s| - |t|);
      assert t[j] == c && j < |TrimEnd(t)|;
    }
  }

  lemma TrimmedIsFixed(s: string)
    requires Trimmed(s)
    ensures Trim(s) == s
  {
  }

  lemma {:induction false} TrimEndBehind(s: string, n: string)
    requires s != "" && !IsSpace(s[|s| - 1])
    ensures TrimEnd(s + n) == s + TrimEnd(n)
    decreases |n|
  {
    hide IsSpace;
    if n != "" && IsSpace(n[|n| - 1]) {
      assert (s + n)[..|s + n| - 1] == s + n[..|n| - 1];
      TrimEndBehind(s, n[..|n| - 1]);
    } else if n == "" {
      assert s + n == s;
    }
  }

  lemma {:induction false} TrimEndCons(c: char, s: string)
    requires !(IsSpace(c) && TrimEnd(s) == "")
    ensures TrimEnd([c] + s) == [c] + TrimEnd(s)
    decreases |s|
  {
    hide IsSpace;
    var all := [c] + s;
    if s == "" {
      assert all == [c];
    } else if IsSpace(s[|s| - 1]) {
      assert all[..|all| - 1] == [c] + s[..|s| - 1];
      TrimEndCons(c, s[..|s| - 1]);
    }
  }

  /** Trimming the end first changes nothing. */
  lemma {:induction false} TrimOfTrimEnd(s: string)
    ensures Trim(TrimEnd(s)) == Trim(s)
  {
    hide IsSpace, TrimEnd;
    if s == "" {
      assert TrimEnd(s) <= s;
    } else {
      assert s == [s[0]] + s[1..];
      if IsSpace(s[0]) {
        TrimOfTrimEnd(s[1..]);
        if TrimEnd(s[1..]) == "" {
          SpaceOnly(s);
        } else {
          TrimEndCons(s[0], s[1..]);
          assert ([s[0]] + TrimEnd(s[1..]))[1..] == TrimEnd(s[1..]);
        }
      } else {
        TrimEndCons(s[0], s[1..]);
        TrimEndTwice(s);
      }
    }
  }

  lemma SpaceOnly(s: string)
    requires s != "" && IsSpace(s[0]) && TrimEnd(s[1..]) == ""
    ensures TrimEnd(s) == "" && Trim(s) == ""
  {
    hide IsSpace;
    assert forall i :: 0 <= i < |s[1..]| ==> IsSpace(s[1..][i]);
    assert forall i :: 0 <= i < |s| ==> IsSpace(s[i]) by {
      forall i | 0 <= i < |s| ensures IsSpace(s[i]) {
        assert i > 0 ==> s[i] == s[1..][i - 1];
      }
    }
    SpacesTrim(s);
  }

  lemma {:induction false} SpacesTrim(s: string)
    requires forall i :: 0 <= i < |s| ==> IsSpace(s[i])
    ensures TrimEnd(s) == "" && TrimStart(s) == ""
  {
    hide IsSpace;
    if s != "" {
      SpacesTrim(s[1..]);
      SpacesTrim(s[..|s| - 1]);
    }
  }

  lemma TrimEndTwice(s: string)
    requires s != "" && !IsSpace(s[0])
    ensures TrimEnd(TrimEnd(s)) == TrimEnd(s) && TrimStart(TrimEnd(s)) == TrimEnd(s) && TrimStart(s) == s
  {
    hide IsSpace;
    var r := TrimEnd(s);
    assert r != "" ==> r[0] == s[0];
  }

  /** `s.split(c)`: the pieces between separators, at least one. */
  function Split(s: string, c: char): (parts: seq<string>)
    ensures |parts| >= 1
    ensures forall p <- parts :: c !in p
  {
    if s == "" then [""]
    else
      var rest := Split(s[1..], c);
      if s[0] == c then [""] + rest else [[s[0]] + rest[0]] + rest[1..]
  }

  /** `parts.join(c)`. */
  function Join(parts: seq<string>, c: char): string {
    if |parts| == 0 then ""
    else if |parts| == 1 then parts[0]
    else parts[0] + [c] + Join(parts[1..], c)
  }

  /** What one more leading character does to the pieces. */
  lemma SplitCons(x: char, s: string, c: char)
    ensures x == c ==> Split([x] + s, c) == [""] + Split(s, c)
    ensures x != c ==> Split([x] + s, c) == [[x] + Split(s, c)[0]] + Split(s, c)[1..]
  {
    assert ([x] + s)[1..] == s;
  }

  lemma {:induction false} SplitNone(s: string, c: char)
    requires c !in s
    ensures Split(s, c) == [s]
  {
    if s != "" {
      SplitNone(s[1..], c);
      SplitCons(s[0], s[1..], c);
      assert s == [s[0]] + s[1..];
    }
  }

  lemma {:induction false} SplitConcat(a: string, c: char, b: string)
    ensures Split(a + [c] + b, c) == Split(a, c) + Split(b, c)
  {
    if a == "" {
      assert a + [c] + b == [c] + b;
      SplitCons(c, b, c);
    } else {
      var tail := a[1..] + [c] + b;
      SplitConcat(a[1..], c, b);
      SplitCons(a[0], tail, c);
      SplitCons(a[0], a[1..], c);
      assert a + [c] + b == [a[0]] + tail && a == [a[0]] + a[1..];
      PushFront(a[0], Split(a[1..], c), Split(b, c));
    }
  }

  lemma PushFront(x: char, first: seq<string>, rest: seq<string>)
    requires first != []
    ensures [[x] + (first + rest)[0]] + (first + rest)[1..] == ([[x] + first[0]] + first[1..]) + rest
    ensures [""] + (first + rest) == ([""] + first) + rest
  {
  }

  lemma SplitHead(a: string, c: char, b: string)
    requires c !in a
    ensures Split(a + [c] + b, c) == [a] + Split(b, c)
  {
    SplitConcat(a, c, b);
    SplitNone(a, c);
  }

  lemma {:induction false} JoinSplit(s: string, c: char)
    ensures Join(Split(s, c), c) == s
  {
    if s != "" {
      JoinSplit(s[1..], c);
      SplitCons(s[0], s[1..], c);
      assert s == [s[0]] + s[1..];
      JoinHead(s[0], Split(s[1..], c), c);
    }
  }

  lemma {:induction false} SplitJoin(parts: seq<string>, c: char)
    requires parts != [] && forall p <- parts :: c !in p
    ensures Split(Join(parts, c), c) == parts
  {
    if |parts| == 1 {
      SplitNone(parts[0], c);
    } else {
      SplitJoin(parts[1..], c);
      SplitHead(parts[0], c, Join(parts[1..], c));
    }
  }

  /** Joining with one more character in front. */
  lemma JoinHead(x: char, parts: seq<string>, c: char)
    requires parts != []
    ensures Join([[x] + parts[0]] + parts[1..], c) == [x] + Join(parts, c)
    ensures Join([""] + parts, c) == [c] + Join(parts, c)
  {
    assert ([[x] + parts[0]] + parts[1..])[1..] == parts[1..];
    assert ([""] + parts)[1..] == parts;
  }

  /** `needle` occurs in `s` at position `i`. */
  predicate OccursAt(s: string, needle: string, i: nat) {
    i + |needle| <= |s| && s[i..i + |needle|] == needle
  }

  /** The first position at or after `from` where `needle` occurs. */
  function Find(s: string, needle: string, from: nat): (r: Option<nat>)
    requires from <= |s|
    ensures r.Some? ==> from <= r.value && OccursAt(s, needle, r.value)
    ensures r.Some? ==> forall i :: from <= i < r.value ==> !OccursAt(s, needle, i)
    ensures r.None? ==> forall i :: from <= i ==> !OccursAt(s, needle, i)
    decreases |s| - from
  {
    if from + |needle| > |s| then None
    else if OccursAt(s, needle, from) then Some(from)
    else Find(s, needle, from + 1)
  }

  function ToLowerAscii(c: char): char {
    if 'A' <= c <= 'Z' then (c as int + 32) as char else c
  }

  /** By code point: 26 letters move up by 32, and nothing else does. */
  lemma LowerIs(c: char)
    ensures 65 <= c as int <= 90 ==> ToLowerAscii(c) as int == c as int + 32
    ensures c as int < 65 || c as int > 90 ==> ToLowerAscii(c) == c
  {
  }

  function LowerAscii(s: string): (r: string)
    ensures |r| == |s|
    ensures forall i :: 0 <= i < |s| ==> r[i] == ToLowerAscii(s[i])
  {
    if s == "" then "" else [ToLowerAscii(s[0])] + LowerAscii(s[1..])
  }

  /** What stands before the first `c`. */
  function UpTo(s: string, c: char): (r: string)
    ensures r <= s && c !in r
    ensures c !in s ==> r == s
  {
    if s == "" || s[0] == c then "" else [s[0]] + UpTo(s[1..], c)
  }

  lemma {:induction false} UpToBehind(a: string, s: string, c: char)
    requires c !in a
    ensures UpTo(a + s, c) == a + UpTo(s, c)
  {
    hide UpTo;
    if a == "" {
      assert a + s == s && "" + UpTo(s, c) == UpTo(s, c);
    } else {
      UpToBehind(a[1..], s, c);
      assert a + s == [a[0]] + (a[1..] + s) && a == [a[0]] + a[1..];
      UpToCons(a[0], a[1..] + s, c);
      assert [a[0]] + (a[1..] + UpTo(s, c)) == a + UpTo(s, c);
    }
  }

  lemma UpToCons(x: char, s: string, c: char)
    requires x != c
    ensures UpTo([x] + s, c) == [x] + UpTo(s, c)
  {
    assert ([x] + s)[1..] == s;
  }

  predicate EndsWith(s: string, tail: string) { |tail| <= |s| && s[|s| - |tail|..] == tail }

  function Least(a: nat, b: nat): nat { if a < b then a else b }

  /** Lexicographic order on strings, a total order. */
  predicate LexLe(a: string, b: string) {
    || a == ""
    || (b != "" && (a[0] < b[0] || (a[0] == b[0] && LexLe(a[1..], b[1..]))))
  }

  /** The first character that differs decides, if any does. */
  ghost predicate Smaller(a: string, b: string) { exists i: nat :: SmallerAt(a, b, i) }

  ghost predicate SmallerAt(a: string, b: string, i: nat) { i < |a| && i < |b| && a[..i] == b[..i] && a[i] < b[i] }

  /** A prefix comes first; otherwise the first character that differs decides. */
  lemma {:induction false} LexLeIff(a: string, b: string)
    ensures LexLe(a, b) <==> a <= b || Smaller(a, b)
  {
    hide Smaller;
    if a != "" && b != "" {
      if a[0] == b[0] {
        LexLeIff(a[1..], b[1..]);
        SmallerTail(a, b);
        assert a == [a[0]] + a[1..] && b == [b[0]] + b[1..];
      } else {
        SmallerFirst(a, b);
      }
    } else {
      NotSmaller(a, b);
    }
  }

  lemma NotSmaller(a: string, b: string)
    requires a == "" || b == ""
    ensures !Smaller(a, b)
  {
  }

  lemma SmallerFirst(a: string, b: string)
    requires a != "" && b != "" && a[0] != b[0]
    ensures Smaller(a, b) <==> a[0] < b[0]
  {
    if a[0] < b[0] {
      assert SmallerAt(a, b, 0);
    }
    if i: nat :| SmallerAt(a, b, i) {
      assert i > 0 ==> a[..i][0] == b[..i][0];
    }
  }

  lemma SmallerTail(a: string, b: string)
    requires a != "" && b != "" && a[0] == b[0]
    ensures Smaller(a, b) <==> Smaller(a[1..], b[1..])
  {
    if i: nat :| SmallerAt(a[1..], b[1..], i) {
      assert a[..i + 1] == [a[0]] + a[1..][..i] && b[..i + 1] == [b[0]] + b[1..][..i];
      assert SmallerAt(a, b, i + 1);
    }
    if i: nat :| SmallerAt(a, b, i) {
      assert i > 0;
      assert a[1..][..i - 1] == a[..i][1..] && b[1..][..i - 1] == b[..i][1..];
      assert SmallerAt(a[1..], b[1..], i - 1);
    }
  }

  lemma {:induction false} LexTotal(a: string, b: string)
    ensures LexLe(a, b) || LexLe(b, a)
    ensures LexLe(a, b) && LexLe(b, a) ==> a == b
  {
    if a != "" && b != "" && a[0] == b[0] {
      LexTotal(a[1..], b[1..]);
      if a[1..] == b[1..] {
        assert a == [a[0]] + a[1..] && b == [b[0]] + b[1..];
      }
    }
  }

  lemma {:induction false} LexTransitive(a: string, b: string, c: string)
    requires LexLe(a, b) && LexLe(b, c)
    ensures LexLe(a, c)
  {
    if a != "" && b != "" && c != "" && a[0] == b[0] == c[0] {
      LexTransitive(a[1..], b[1..], c[1..]);
    }
  }

  const DIGITS := "0123456789"

  /** The decimal form of an integer, as `format!("{n}")` prints it. */
  function Decimal(n: int): (r: string)
    ensures r != ""
    ensures forall c <- r :: c == '-' || c in DIGITS
    decreases if n < 0 then 1 else 0, if n < 0 then -n else n
  {
    if n < 0 then "-" + Decimal(-n)
    else if n < 10 then [DIGITS[n]]
    else Decimal(n / 10) + [DIGITS[n % 10]]
  }

  /** One digit after the other, the units last. */
  lemma DecimalIs(tens: int, units: int)
    requires tens >= 0 && 0 <= units < 10
    ensures Decimal(units) == [(48 + units) as char]
    ensures tens > 0 ==> Decimal(10 * tens + units) == Decimal(tens) + [(48 + units) as char]
    ensures tens > 0 ==> Decimal(-tens) == "-" + Decimal(tens)
  {
    assert (10 * tens + units) / 10 == tens && (10 * tens + units) % 10 == units;
    assert DIGITS[units] == (48 + units) as char;
  }
}
