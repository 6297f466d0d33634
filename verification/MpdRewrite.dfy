/** Making the absolute addresses of a DASH manifest relative to the proxied session
    (crates/proxy/src/ext.rs:35-51, 208-260). */
module MpdRewrite {
  import opened Wrappers
  import opened Text

  const SCHEMES := ["https://", "http://"]
  const ATTRS := ["media=\"", "initialization=\"", "sourceURL=\"", "value=\""]
  const OPEN := "<BaseURL>"
  const CLOSE := "</BaseURL>"

  predicate Contains(s: string, needle: string) { Find(s, needle, 0).Some? }

  /** `abs.strip_prefix(base)`. */
  function Strip(abs: string, base: string): (r: Option<string>)
    ensures r.Some? <==> base <= abs
    ensures r.Some? ==> abs == base + r.value
  {
    if base <= abs then Some(abs[|base|..]) else None
  }

  // ---------------------------------------------------------------------------------------------
  // One attribute, one scheme

  /** Where the next value starts and ends, if an attribute with this scheme is found and closed. */
  function NextValue(s: string, attr: string, scheme: string): (r: Option<(nat, nat)>)
    ensures r.Some? ==> |attr| <= r.value.0 <= r.value.1 < |s| && s[r.value.1] == '"'
    ensures r.Some? ==> OccursAt(s, attr + scheme, r.value.0 - |attr|) && '"' !in s[r.value.0..r.value.1]
  {
    match Find(s, attr + scheme, 0)
    case None => None
    case Some(at) =>
      match Find(s, "\"", at + |attr|)
      case None => None
      case Some(end) =>
        NoQuoteBefore(s, at + |attr|, end);
        Some((at + |attr|, end))
  }

  lemma NoQuoteBefore(s: string, from: nat, end: nat)
    requires from <= end <= |s| && forall i :: from <= i < end ==> !OccursAt(s, "\"", i)
    ensures '"' !in s[from..end]
  {
    forall i: nat | from <= i < end ensures s[i] != '"' {
      assert OccursAt(s, "\"", i) <==> s[i] == '"';
    }
  }

  function AttrPass(s: string, attr: string, scheme: string, base: string): string
    decreases |s|
  {
    match NextValue(s, attr, scheme)
    case None => s
    case Some((start, end)) => Edited(s, start, end, base) + AttrPass(s[end + 1..], attr, scheme, base)
  }

  /** Everything up to and including the closing quote, the value made relative where it can be. */
  function Edited(s: string, start: nat, end: nat, base: string): string
    requires start <= end < |s|
  {
    s[..start] + Strip(s[start..end], base).GetOr(s[start..end]) + "\""
  }

  /** `replace_range(start..end, text)`. */
  function Replaced(s: string, start: nat, end: nat, text: string): (r: string)
    requires start <= end <= |s|
    ensures |r| == |s| - (end - start) + |text|
  {
    s[..start] + text + s[end..]
  }

  /** The loop for one attribute and scheme, editing the text in place. */
  method RewriteAttr(s: string, attr: string, scheme: string, base: string) returns (out: string)
    ensures out == AttrPass(s, attr, scheme, base)
  {
    hide NextValue, Replaced, ValuesOnward, Strip;
    out := s;
    var search := 0;
    AllValuesOnward(s, attr, scheme, base);
    while true
      invariant 0 <= search <= |out| && ValuesOnward(out, search, attr, scheme, base, s)
      decreases |out| - search
    {
      ghost var before, from := out, search;
      var value := NextValue(out[search..], attr, scheme);
      if value.None? {
        NoValueOnward(out, search, attr, scheme, base, s);
        break;
      }
      var start, end := search + value.value.0, search + value.value.1;
      var abs := out[start..end];
      var rel := Strip(abs, base);
      if rel.Some? {
        out := Replaced(out, start, end, rel.value);
        search := start + |rel.value| + 1;
      } else {
        search := end + 1;
      }
      ValueEdited(before, from, value.value.0, value.value.1, attr, scheme, base, out, search, s);
    }
  }

  /** The text up to a position is final, and the pass over the rest completes it. */
  ghost predicate ValuesOnward(out: string, search: nat, attr: string, scheme: string, base: string, s: string) {
    search <= |out| && out[..search] + AttrPass(out[search..], attr, scheme, base) == AttrPass(s, attr, scheme, base)
  }

  lemma AllValuesOnward(s: string, attr: string, scheme: string, base: string)
    ensures ValuesOnward(s, 0, attr, scheme, base, s)
  {
    assert s[0..] == s && s[..0] == "";
    assert "" + AttrPass(s, attr, scheme, base) == AttrPass(s, attr, scheme, base);
  }

  lemma NoValueOnward(out: string, search: nat, attr: string, scheme: string, base: string, s: string)
    requires ValuesOnward(out, search, attr, scheme, base, s) && NextValue(out[search..], attr, scheme).None?
    ensures out == AttrPass(s, attr, scheme, base)
  {
    PassUnfolds(out[search..], attr, scheme, base);
    assert out[..search] + out[search..] == out;
  }

  lemma ValueEdited(before: string, from: nat, start: nat, end: nat, attr: string, scheme: string, base: string,
                    out: string, search: nat, s: string)
    requires from <= |before| && NextValue(before[from..], attr, scheme) == Some((start, end)) && ValuesOnward(before, from, attr, scheme, base, s)
    requires var abs := before[from + start..from + end]; var rel := Strip(abs, base);
      && out == (if rel.Some? then Replaced(before, from + start, from + end, rel.value) else before)
      && search == from + start + |rel.GetOr(abs)| + 1
    ensures search <= |out| && ValuesOnward(out, search, attr, scheme, base, s) && |out| - search < |before| - from
  {
    hide NextValue, Edited, Replaced, AttrPass, Strip;
    PassUnfolds(before[from..], attr, scheme, base);
    EditInPlace(before, from, start, end, base, out, search);
    Associate(before[..from], Edited(before[from..], start, end, base), AttrPass(out[search..], attr, scheme, base));
  }

  lemma PassUnfolds(s: string, attr: string, scheme: string, base: string)
    ensures AttrPass(s, attr, scheme, base) ==
      match NextValue(s, attr, scheme)
      case None => s
      case Some((start, end)) => Edited(s, start, end, base) + AttrPass(s[end + 1..], attr, scheme, base)
  {
    hide NextValue, Edited;
  }

  lemma Associate(a: string, b: string, c: string)
    ensures a + (b + c) == a + b + c
  {
  }

  lemma EditInPlace(before: string, from: nat, start: nat, end: nat, base: string, out: string, search: nat)
    requires from <= |before| && start <= end < |before| - from && before[from + end] == '"'
    requires var abs := before[from + start..from + end]; var rel := Strip(abs, base);
      && out == (if rel.Some? then Replaced(before, from + start, from + end, rel.value) else before)
      && search == from + start + |rel.GetOr(abs)| + 1
    ensures search <= |out| && out[..search] == before[..from] + Edited(before[from..], start, end, base)
    ensures out[search..] == before[from..][end + 1..]
  {
    hide Strip;
    var rest := before[from..];
    var abs, tail := rest[start..end], rest[end + 1..];
    SliceOfSuffix(before, from, start, end);
    SliceOfSuffix(before, from, end, |rest|);
    ThreeParts(rest, start, end);
    QuoteSplits(rest, end);
    assert before[from + end..] == rest[end..];
    Splits(before[..from], rest);
    PutInPlace(before, before[..from], rest[..start], abs, Strip(abs, base), tail, out);
  }

  lemma ThreeParts(s: string, i: nat, j: nat)
    requires i <= j <= |s|
    ensures s == s[..i] + s[i..j] + s[j..]
  {
  }

  lemma PutInPlace(before: string, a: string, head: string, abs: string, rel: Option<string>, tail: string, out: string)
    requires before == a + (head + abs + ("\"" + tail))
    requires out == if rel.Some? then a + head + rel.value + ("\"" + tail) else before
    ensures var done := a + (head + rel.GetOr(abs) + "\"");
      |done| <= |out| && out[..|done|] == done && out[|done|..] == tail
  {
    Regroup(a, head, rel.GetOr(abs), "\"", tail);
    Splits(a + (head + rel.GetOr(abs) + "\""), tail);
  }

  lemma Regroup(a: string, b: string, c: string, d: string, e: string)
    ensures a + (b + c + d) + e == a + b + c + (d + e)
    ensures a + (b + c + (d + e)) == a + b + c + (d + e)
    ensures a + (b + c + d + e) == a + b + c + (d + e)
    ensures a + (b + c + d + e) == a + b + c + d + e
  {
  }

  lemma SliceOfSuffix(s: string, from: nat, i: nat, j: nat)
    requires from <= |s| && i <= j <= |s| - from
    ensures s[from..][i..j] == s[from + i..from + j] && s[..from] + s[from..][..i] == s[..from + i]
  {
  }

  lemma QuoteSplits(s: string, i: nat)
    requires i < |s| && s[i] == '"'
    ensures s[i..] == "\"" + s[i + 1..]
  {
  }

  lemma Splits(a: string, b: string)
    ensures (a + b)[..|a|] == a && (a + b)[|a|..] == b
  {
  }

  // ---------------------------------------------------------------------------------------------
  // What a pass edits

  /** A stretch of the text: kept, or an address under the base cut down to its tail, with the white
      space around it, or an element emptied because the base without its slashes starts its address. */
  datatype Piece =
    | Keep(text: string)
    | Cut(lead: string, rel: string, trail: string)
    | Emptied(text: string)

  function PieceBefore(p: Piece, base: string): string {
    match p
    case Keep(text) => text
    case Cut(lead, rel, trail) => lead + base + rel + trail
    case Emptied(text) => text
  }

  function PieceAfter(p: Piece): string {
    match p
    case Keep(text) => text
    case Cut(_, rel, _) => rel
    case Emptied(_) => ""
  }

  function Before(pieces: seq<Piece>, base: string): string {
    if pieces == [] then "" else PieceBefore(pieces[0], base) + Before(pieces[1..], base)
  }

  function After(pieces: seq<Piece>): string {
    if pieces == [] then "" else PieceAfter(pieces[0]) + After(pieces[1..])
  }

  lemma {:induction false} BeforeConcat(a: seq<Piece>, b: seq<Piece>, base: string)
    ensures Before(a + b, base) == Before(a, base) + Before(b, base)
  {
    hide PieceBefore, Before;
    if a == [] {
      assert a + b == b && Before(a, base) == "" by { NoPieces(base); }
    } else {
      BeforeConcat(a[1..], b, base);
      FirstBefore(a[0], a[1..], base);
      FirstBefore(a[0], a[1..] + b, base);
      assert a == [a[0]] + a[1..] && a + b == [a[0]] + (a[1..] + b);
      Associate(PieceBefore(a[0], base), Before(a[1..], base), Before(b, base));
    }
  }

  lemma NoPieces(base: string)
    ensures Before([], base) == "" && After([]) == ""
  {
  }

  lemma FirstBefore(p: Piece, rest: seq<Piece>, base: string)
    ensures Before([p] + rest, base) == PieceBefore(p, base) + Before(rest, base)
    ensures After([p] + rest) == PieceAfter(p) + After(rest)
  {
    assert ([p] + rest)[1..] == rest;
  }

  lemma {:induction false} AfterConcat(a: seq<Piece>, b: seq<Piece>)
    ensures After(a + b) == After(a) + After(b)
  {
    hide PieceAfter, After;
    if a == [] {
      assert a + b == b && After(a) == "" by { NoPieces(""); }
    } else {
      AfterConcat(a[1..], b);
      FirstBefore(a[0], a[1..], "");
      FirstBefore(a[0], a[1..] + b, "");
      assert a == [a[0]] + a[1..] && a + b == [a[0]] + (a[1..] + b);
      Associate(PieceAfter(a[0]), After(a[1..]), After(b));
    }
  }

  function AttrPieces(s: string, attr: string, scheme: string, base: string): (pieces: seq<Piece>)
    decreases |s|
  {
    match NextValue(s, attr, scheme)
    case None => [Keep(s)]
    case Some((start, end)) =>
      [Keep(s[..start]), ValuePiece(s[start..end], base), Keep("\"")] + AttrPieces(s[end + 1..], attr, scheme, base)
  }

  function ValuePiece(abs: string, base: string): Piece {
    match Strip(abs, base)
    case Some(rel) => Cut("", rel, "")
    case None => Keep(abs)
  }

  lemma AfterThree(a: Piece, b: Piece, c: Piece, rest: seq<Piece>, base: string)
    ensures After([a, b, c] + rest) == PieceAfter(a) + PieceAfter(b) + PieceAfter(c) + After(rest)
    ensures Before([a, b, c] + rest, base) == PieceBefore(a, base) + PieceBefore(b, base) + PieceBefore(c, base) + Before(rest, base)
  {
    hide PieceAfter, PieceBefore;
    AfterConcat([a, b, c], rest);
    BeforeConcat([a, b, c], rest, base);
    assert [a, b, c][1..] == [b, c] && [b, c][1..] == [c] && [c][1..] == [];
    AfterOne(c, base);
    AfterTwo(b, c, base);
  }

  lemma AfterTwo(a: Piece, b: Piece, base: string)
    ensures After([a, b]) == PieceAfter(a) + PieceAfter(b) && Before([a, b], base) == PieceBefore(a, base) + PieceBefore(b, base)
  {
    hide PieceAfter, PieceBefore;
    assert [a, b][1..] == [b];
    AfterOne(b, base);
  }

  lemma AfterOne(a: Piece, base: string)
    ensures After([a]) == PieceAfter(a) && Before([a], base) == PieceBefore(a, base)
  {
  }

  /** One attribute pass is a set of such cuts: putting the base back restores the text. */
  lemma {:induction false} AttrPassCuts(s: string, attr: string, scheme: string, base: string)
    requires '"' !in scheme
    ensures var pieces := AttrPieces(s, attr, scheme, base);
      Before(pieces, base) == s && After(pieces) == AttrPass(s, attr, scheme, base) && CutsAreValues(pieces, attr, scheme, base)
    decreases |s|
  {
    hide NextValue, Strip, ValuePiece, PieceBefore, PieceAfter, CutsAreValues, Edited;
    PassUnfolds(s, attr, scheme, base);
    PiecesUnfold(s, attr, scheme, base);
    var value := NextValue(s, attr, scheme);
    if value.None? {
      AfterOne(Keep(s), base);
      OnePiece(s, base, attr, scheme);
    } else {
      var start, end := value.value.0, value.value.1;
      var rest := s[end + 1..];
      var piece := ValuePiece(s[start..end], base);
      AttrPassCuts(rest, attr, scheme, base);
      AfterThree(Keep(s[..start]), piece, Keep("\""), AttrPieces(rest, attr, scheme, base), base);
      EditedPiece(s, start, end, base);
      ValueBounds(s, attr, scheme);
      CutsExtend(s, attr, scheme, base, start, end, AttrPieces(rest, attr, scheme, base));
    }
  }

  lemma PiecesUnfold(s: string, attr: string, scheme: string, base: string)
    ensures AttrPieces(s, attr, scheme, base) ==
      match NextValue(s, attr, scheme)
      case None => [Keep(s)]
      case Some((start, end)) =>
        [Keep(s[..start]), ValuePiece(s[start..end], base), Keep("\"")] + AttrPieces(s[end + 1..], attr, scheme, base)
  {
    hide NextValue, ValuePiece;
  }

  lemma OnePiece(s: string, base: string, attr: string, scheme: string)
    ensures PieceBefore(Keep(s), base) == s == PieceAfter(Keep(s)) && CutsAreValues([Keep(s)], attr, scheme, base)
  {
  }

  lemma EditedPiece(s: string, start: nat, end: nat, base: string)
    requires start <= end < |s| && s[end] == '"'
    ensures var piece := ValuePiece(s[start..end], base);
      && Edited(s, start, end, base) == PieceAfter(Keep(s[..start])) + PieceAfter(piece) + PieceAfter(Keep("\""))
      && PieceBefore(Keep(s[..start]), base) + PieceBefore(piece, base) + PieceBefore(Keep("\""), base) + s[end + 1..] == s
  {
    assert s[..start] + s[start..end] + "\"" + s[end + 1..] == s;
    assert "" + base == base;
  }

  lemma ValueBounds(s: string, attr: string, scheme: string)
    requires NextValue(s, attr, scheme).Some? && '"' !in scheme
    ensures var (start, end) := NextValue(s, attr, scheme).value;
      EndsWith(s[..start], attr) && scheme <= s[start..end] && '"' !in s[start..end]
  {
    var (start, end) := NextValue(s, attr, scheme).value;
    hide NextValue;
    var at := start - |attr|;
    Splits(attr, scheme);
    SliceOfSlice(s, at, at + |attr + scheme|, 0, |attr|);
    SliceOfSlice(s, at, at + |attr + scheme|, |attr|, |attr + scheme|);
    assert s[..start][at..] == s[at..start];
    SchemeIsWithin(s, start, end, scheme);
  }

  lemma SliceOfSlice(s: string, i: nat, j: nat, a: nat, b: nat)
    requires i <= j <= |s| && a <= b <= j - i
    ensures s[i..j][a..b] == s[i + a..i + b]
  {
    forall k | 0 <= k < b - a ensures s[i..j][a..b][k] == s[i + a..i + b][k] {
      assert s[i..j][a + k] == s[i + (a + k)];
    }
  }

  lemma SchemeIsWithin(s: string, start: nat, end: nat, scheme: string)
    requires start <= end < |s| && start + |scheme| <= |s| && s[start..start + |scheme|] == scheme && s[end] == '"' && '"' !in scheme
    ensures scheme <= s[start..end]
  {
    forall k | start <= k < start + |scheme| ensures s[k] != '"' {
      assert s[k] == s[start..start + |scheme|][k - start];
    }
    if start + |scheme| <= end {
      assert s[start..end][..|scheme|] == s[start..start + |scheme|];
    }
  }

  lemma CutsExtend(s: string, attr: string, scheme: string, base: string, start: nat, end: nat, rest: seq<Piece>)
    requires start <= end < |s| && EndsWith(s[..start], attr) && scheme <= s[start..end] && '"' !in s[start..end]
    requires CutsAreValues(rest, attr, scheme, base)
    ensures CutsAreValues([Keep(s[..start]), ValuePiece(s[start..end], base), Keep("\"")] + rest, attr, scheme, base)
  {
    var head := [Keep(s[..start]), ValuePiece(s[start..end], base), Keep("\"")];
    var all := head + rest;
    forall i | 0 <= i < |all| && !all[i].Keep? ensures CutIsValue(all, i, attr, scheme, base) {
      if i >= 3 {
        assert CutIsValue(rest, i - 3, attr, scheme, base);
        assert all[i] == rest[i - 3] && all[i - 1] == rest[i - 4] && all[i + 1] == rest[i - 2];
      } else {
        assert i == 1 && all[1] == head[1];
      }
    }
  }

  /** Every address cut by the pass is the whole value of such an attribute, of that scheme. */
  ghost predicate CutsAreValues(pieces: seq<Piece>, attr: string, scheme: string, base: string) {
    forall i :: 0 <= i < |pieces| && !pieces[i].Keep? ==> CutIsValue(pieces, i, attr, scheme, base)
  }

  ghost predicate CutIsValue(pieces: seq<Piece>, i: nat, attr: string, scheme: string, base: string)
    requires i < |pieces|
  {
    && pieces[i].Cut? && pieces[i].lead == "" && pieces[i].trail == ""
    && 0 < i < |pieces| - 1 && EndsWith(PieceAfter(pieces[i - 1]), attr) && pieces[i + 1] == Keep("\"")
    && scheme <= base + pieces[i].rel && '"' !in base + pieces[i].rel
  }

  // ---------------------------------------------------------------------------------------------
  // The BaseURL elements

  /** `base.trim_end_matches('/')`. */
  function WithoutSlashes(base: string): (r: string)
    ensures r <= base && (r != "" ==> r[|r| - 1] != '/')
    ensures forall i :: |r| <= i < |base| ==> base[i] == '/'
  {
    if base != "" && base[|base| - 1] == '/' then WithoutSlashes(base[..|base| - 1]) else base
  }

  function Lead(text: string): string { text[..|text| - |TrimStart(text)|] }

  function Trail(text: string): string { TrimStart(text)[|Trim(text)|..] }

  lemma TrimParts(text: string)
    ensures Lead(text) + Trim(text) + Trail(text) == text
    ensures forall c <- Lead(text) + Trail(text) :: IsSpace(c)
  {
    hide TrimStart, TrimEnd, IsSpace;
    var t, m := TrimStart(text), Trim(text);
    TrimStartIsTail(text);
    assert text == Lead(text) + t;
    assert t == m + Trail(text);
    assert Lead(text) + (m + Trail(text)) == Lead(text) + m + Trail(text);
    SpacesAround(text, t, m);
  }

  lemma SpacesAround(text: string, t: string, m: string)
    requires |t| <= |text| && m <= t
    requires forall i :: 0 <= i < |text| - |t| ==> IsSpace(text[i])
    requires forall i :: |m| <= i < |t| ==> IsSpace(t[i])
    ensures forall c <- text[..|text| - |t|] + t[|m|..] :: IsSpace(c)
  {
    hide IsSpace;
    assert forall i :: 0 <= i < |t[|m|..]| ==> t[|m|..][i] == t[|m| + i];
  }

  predicate Absolute(abs: string) { "http://" <= abs || "https://" <= abs }

  /** What becomes of an element's content. */
  function ContentPiece(text: string, base: string): Piece {
    var abs := Trim(text);
    if !Absolute(abs) then Keep(text)
    else
      match Strip(abs, base)
      case Some(rel) => Cut(Lead(text), rel, Trail(text))
      case None => if WithoutSlashes(base) <= abs then Emptied(text) else Keep(text)
  }

  /** Where the content of the next element starts and ends. */
  function NextElement(s: string): (r: Option<(nat, nat)>)
    ensures r.Some? ==> |OPEN| <= r.value.0 <= r.value.1 <= |s| - |CLOSE| && OccursAt(s, CLOSE, r.value.1) && OccursAt(s, OPEN, r.value.0 - |OPEN|)
  {
    match Find(s, OPEN, 0)
    case None => None
    case Some(at) =>
      match Find(s, CLOSE, at + |OPEN|)
      case None => None
      case Some(end) => Some((at + |OPEN|, end))
  }

  function BasePass(s: string, base: string): string
    decreases |s|
  {
    match NextElement(s)
    case None => s
    case Some((start, end)) =>
      s[..start] + PieceAfter(ContentPiece(s[start..end], base)) + CLOSE + BasePass(s[end + |CLOSE|..], base)
  }

  function BasePieces(s: string, base: string): seq<Piece>
    decreases |s|
  {
    match NextElement(s)
    case None => [Keep(s)]
    case Some((start, end)) =>
      [Keep(s[..start]), ContentPiece(s[start..end], base), Keep(CLOSE)] + BasePieces(s[end + |CLOSE|..], base)
  }

  /** Every edit is of a whole element content: an absolute address under the base, with white space
      around it, or one that only the base without its slashes starts. */
  ghost predicate EditsAreContents(pieces: seq<Piece>, base: string) {
    forall i :: 0 <= i < |pieces| && !pieces[i].Keep? ==> EditIsContent(pieces, i, base)
  }

  ghost predicate EditIsContent(pieces: seq<Piece>, i: nat, base: string)
    requires i < |pieces|
  {
    && 0 < i < |pieces| - 1 && EndsWith(PieceAfter(pieces[i - 1]), OPEN) && pieces[i + 1] == Keep(CLOSE)
    && IsContent(pieces[i], base)
  }

  ghost predicate IsContent(p: Piece, base: string) {
    && (p.Cut? ==> Absolute(base + p.rel) && forall c <- p.lead + p.trail :: IsSpace(c))
    && (p.Emptied? ==> Absolute(Trim(p.text)) && WithoutSlashes(base) <= Trim(p.text) && !(base <= Trim(p.text)))
  }

  lemma ContentCases(text: string, base: string)
    ensures var abs := Trim(text);
      ContentPiece(text, base) ==
      if Absolute(abs) && Strip(abs, base).Some? then Cut(Lead(text), Strip(abs, base).value, Trail(text))
      else if Absolute(abs) && WithoutSlashes(base) <= abs then Emptied(text) else Keep(text)
    ensures PieceAfter(ContentPiece(text, base)) ==
      match ContentPiece(text, base)
      case Keep(kept) => kept
      case Cut(_, rel, _) => rel
      case Emptied(_) => ""
  {
    hide Trim, Lead, Trail, Absolute, WithoutSlashes;
  }

  lemma ContentIsPiece(text: string, base: string)
    ensures PieceBefore(ContentPiece(text, base), base) == text
  {
    hide Lead, Trail, Trim, WithoutSlashes, Absolute;
    TrimParts(text);
    var abs := Trim(text);
    if base <= abs {
      assert Lead(text) + base + abs[|base|..] == Lead(text) + abs;
    }
  }

  lemma ContentPieceIsFit(s: string, start: nat, end: nat, base: string, rest: seq<Piece>)
    requires start <= end <= |s| && EndsWith(s[..start], OPEN) && EditsAreContents(rest, base)
    ensures EditsAreContents([Keep(s[..start]), ContentPiece(s[start..end], base), Keep(CLOSE)] + rest, base)
  {
    hide ContentPiece, EndsWith, PieceAfter, IsContent;
    var head := [Keep(s[..start]), ContentPiece(s[start..end], base), Keep(CLOSE)];
    var all := head + rest;
    assert PieceAfter(Keep(s[..start])) == s[..start] by { KeptText(s[..start]); }
    forall i | 0 <= i < |all| && !all[i].Keep? ensures EditIsContent(all, i, base) {
      if i >= 3 {
        assert EditIsContent(rest, i - 3, base);
        assert all[i] == rest[i - 3] && all[i - 1] == rest[i - 4] && all[i + 1] == rest[i - 2];
      } else {
        assert i == 1 && all[1] == head[1];
        ContentFits(s[start..end], base);
      }
    }
  }

  lemma KeptText(text: string)
    ensures PieceAfter(Keep(text)) == text
  {
  }

  lemma ContentFits(text: string, base: string)
    ensures IsContent(ContentPiece(text, base), base)
  {
    hide Trim, Lead, Trail, WithoutSlashes;
    TrimParts(text);
  }

  lemma {:induction false} BasePassEdits(s: string, base: string)
    ensures var pieces := BasePieces(s, base);
      Before(pieces, base) == s && After(pieces) == BasePass(s, base) && EditsAreContents(pieces, base)
    decreases |s|
  {
    hide NextElement, ContentPiece, PieceBefore, PieceAfter, EditsAreContents;
    var element := NextElement(s);
    if element.None? {
      assert BasePieces(s, base) == [Keep(s)];
      AfterOne(Keep(s), base);
      KeptWhole(s, base);
    } else {
      var start, end := element.value.0, element.value.1;
      var rest := s[end + |CLOSE|..];
      BasePassEdits(rest, base);
      AfterThree(Keep(s[..start]), ContentPiece(s[start..end], base), Keep(CLOSE), BasePieces(rest, base), base);
      ElementParts(s, start, end, base);
      ContentPieceIsFit(s, start, end, base, BasePieces(rest, base));
    }
  }

  lemma KeptWhole(s: string, base: string)
    ensures PieceBefore(Keep(s), base) == s == PieceAfter(Keep(s)) && EditsAreContents([Keep(s)], base)
  {
  }

  lemma ElementParts(s: string, start: nat, end: nat, base: string)
    requires |OPEN| <= start <= end && OccursAt(s, CLOSE, end) && OccursAt(s, OPEN, start - |OPEN|)
    ensures PieceBefore(Keep(s[..start]), base) == s[..start] == PieceAfter(Keep(s[..start]))
    ensures PieceBefore(Keep(CLOSE), base) == CLOSE == PieceAfter(Keep(CLOSE))
    ensures s[..start] + PieceBefore(ContentPiece(s[start..end], base), base) + CLOSE + s[end + |CLOSE|..] == s
    ensures EndsWith(s[..start], OPEN)
  {
    hide ContentPiece;
    var content, tail := s[start..end], s[end + |CLOSE|..];
    ContentIsPiece(content, base);
    assert PieceBefore(ContentPiece(content, base), base) == content;
    assert s[end..] == CLOSE + tail;
    assert s == s[..start] + content + s[end..];
    assert s[..start] + content + (CLOSE + tail) == s[..start] + content + CLOSE + tail;
    assert s[..start][start - |OPEN|..] == s[start - |OPEN|..start];
  }

  lemma {:induction false} ShiftedFind(a: string, s: string, needle: string, k: nat)
    requires k <= |s|
    ensures var sought := Find(s, needle, k);
      Find(a + s, needle, |a| + k) == if sought.Some? then Some(sought.value + |a|) else None
    decreases |s| - k
  {
    if k + |needle| <= |s| {
      assert (a + s)[|a| + k..|a| + k + |needle|] == s[k..k + |needle|];
      if !OccursAt(s, needle, k) {
        ShiftedFind(a, s, needle, k + 1);
      }
    }
  }

  lemma {:induction false} FindLater(s: string, needle: string, from: nat, to: nat)
    requires from <= to <= |s| && forall i :: from <= i < to ==> !OccursAt(s, needle, i)
    ensures Find(s, needle, from) == Find(s, needle, to)
    decreases |s| - from
  {
    if from < to {
      FindLater(s, needle, from + 1, to);
    }
  }

  lemma OccursWithin(s: string, needle: string, i: nat)
    requires OccursAt(s, needle, i)
    ensures i + |needle| <= |s|
  {
  }

  lemma NoOpenInClose(t: string, i: nat)
    requires i < |CLOSE|
    ensures !OccursAt(CLOSE + t, OPEN, i)
  {
    var s := CLOSE + t;
    assert s[i] == CLOSE[i] && (i == 0 ==> s[1] == '/');
  }

  /** No element starts inside a closing tag, so going on before or after it is the same. */
  lemma ClosingTagIsSkipped(t: string)
    ensures NextElement(CLOSE + t) == match NextElement(t)
                                      case None => None
                                      case Some((start, end)) => Some((start + |CLOSE|, end + |CLOSE|))
  {
    var s := CLOSE + t;
    hide OccursAt, Find;
    forall i | 0 <= i < |CLOSE| ensures !OccursAt(s, OPEN, i) {
      NoOpenInClose(t, i);
    }
    FindLater(s, OPEN, 0, |CLOSE|);
    ShiftedFind(CLOSE, t, OPEN, 0);
    var at := Find(t, OPEN, 0);
    if at.Some? {
      OccursWithin(t, OPEN, at.value);
      ShiftedFind(CLOSE, t, CLOSE, at.value + |OPEN|);
    }
  }

  lemma BasePassSkipsClose(t: string, base: string)
    ensures BasePass(CLOSE + t, base) == CLOSE + BasePass(t, base)
  {
    hide NextElement, ContentPiece, PieceAfter, BasePass;
    ClosingTagIsSkipped(t);
    var s := CLOSE + t;
    var element := NextElement(t);
    if element.None? {
      BasePassUnfolds(t, base);
      BasePassUnfolds(s, base);
    } else {
      var start, end := element.value.0, element.value.1;
      var piece, rest := PieceAfter(ContentPiece(t[start..end], base)), BasePass(t[end + |CLOSE|..], base);
      BasePassUnfolds(t, base);
      assert BasePass(t, base) == t[..start] + piece + CLOSE + rest;
      AfterPrefix(CLOSE, t, start, end);
      AfterPrefix(CLOSE, t, 0, start);
      AfterPrefix(CLOSE, t, 0, end + |CLOSE|);
      BasePassUnfolds(s, base);
      assert BasePass(s, base) == CLOSE + t[..start] + piece + CLOSE + rest;
      Reassociate(CLOSE, t[..start], piece, CLOSE, rest);
    }
  }

  lemma Reassociate(a: string, b: string, c: string, d: string, e: string)
    ensures a + (b + c + d + e) == a + b + c + d + e
  {
  }

  lemma AfterPrefix(a: string, t: string, i: nat, j: nat)
    requires i <= j <= |t|
    ensures (a + t)[i + |a|..j + |a|] == t[i..j] && (a + t)[..j + |a|] == a + t[..j] && (a + t)[j + |a|..] == t[j..]
  {
  }

  lemma BasePassUnfolds(s: string, base: string)
    ensures BasePass(s, base) ==
      match NextElement(s)
      case None => s
      case Some((start, end)) =>
        s[..start] + PieceAfter(ContentPiece(s[start..end], base)) + CLOSE + BasePass(s[end + |CLOSE|..], base)
  {
    hide NextElement, ContentPiece, PieceAfter;
  }

  /** The text up to a position is final, and the pass over the rest completes it. */
  ghost predicate Onward(out: string, search: nat, base: string, s: string) {
    search <= |out| && out[..search] + BasePass(out[search..], base) == BasePass(s, base)
  }

  lemma FromTheStart(s: string, base: string)
    ensures Onward(s, 0, base, s)
  {
    assert s[0..] == s && s[..0] == "";
    assert "" + BasePass(s, base) == BasePass(s, base);
  }

  lemma NothingOnward(out: string, search: nat, base: string, s: string)
    requires Onward(out, search, base, s) && NextElement(out[search..]).None?
    ensures out == BasePass(s, base)
  {
    BasePassUnfolds(out[search..], base);
    assert out[..search] + out[search..] == out;
  }

  /** The loop over the BaseURL elements, editing the text in place. */
  method RewriteBaseUrls(s: string, base: string) returns (out: string)
    ensures out == BasePass(s, base)
  {
    hide *;
    out := s;
    var search := 0;
    FromTheStart(s, base);
    while true
      invariant 0 <= search <= |out| && Onward(out, search, base, s)
      decreases |out| - search
    {
      ghost var before, from := out, search;
      var element := NextElement(out[search..]);
      if element.None? {
        NothingOnward(out, search, base, s);
        break;
      }
      var start, end := search + element.value.0, search + element.value.1;
      var text := out[start..end];
      var abs := Trim(text);
      ContentCases(text, base);
      if Absolute(abs) && Strip(abs, base).Some? {
        var rel := Strip(abs, base).value;
        out := Replaced(out, start, end, rel);
        search := start + |rel|;
        ContentEdited(before, from, element.value.0, element.value.1, base, ContentPiece(text, base), rel, out, search, s);
      } else if Absolute(abs) && WithoutSlashes(base) <= abs {
        out := Replaced(out, start, end, "");
        search := start;
        ContentEdited(before, from, element.value.0, element.value.1, base, ContentPiece(text, base), "", out, search, s);
      } else {
        search := end + 10;
        ContentKept(before, from, element.value.0, element.value.1, base, ContentPiece(text, base), s);
      }
    }
  }

  lemma ContentEdited(before: string, from: nat, start: nat, end: nat, base: string, piece: Piece, text: string,
        out: string, search: nat, s: string)
    requires from <= |before| && NextElement(before[from..]) == Some((start, end)) && Onward(before, from, base, s)
    requires piece == ContentPiece(before[from + start..from + end], base) && PieceAfter(piece) == text
    requires out == Replaced(before, from + start, from + end, text) && search == from + start + |text|
    ensures search <= |out| && Onward(out, search, base, s)
    ensures |out| - search < |before| - from
  {
    hide BasePass, ContentPiece, PieceAfter, NextElement;
    var rest := before[from..];
    var tail := rest[end + |CLOSE|..];
    BasePassUnfolds(rest, base);
    SliceOfSuffix(before, from, start, end);
    SliceOfSuffix(before, from, end, |rest|);
    ClosingTag(rest, end);
    assert before[from + end..] == rest[end..];
    BasePassSkipsClose(tail, base);
    PutBefore(before[..from], rest[..start], text, tail, BasePass(tail, base), out);
  }

  lemma PutBefore(a: string, head: string, text: string, tail: string, onward: string, out: string)
    requires out == a + head + text + (CLOSE + tail)
    ensures var n := |a| + |head| + |text|;
      n <= |out| && out[..n] + (CLOSE + onward) == a + (head + text + CLOSE + onward) && out[n..] == CLOSE + tail
  {
    Splits(a + head + text, CLOSE + tail);
    Regroup(a, head, text, CLOSE, onward);
  }

  lemma ClosingTag(s: string, end: nat)
    requires OccursAt(s, CLOSE, end)
    ensures s[end..] == CLOSE + s[end + |CLOSE|..]
  {
  }

  lemma ContentKept(before: string, from: nat, start: nat, end: nat, base: string, piece: Piece, s: string)
    requires from <= |before| && NextElement(before[from..]) == Some((start, end)) && Onward(before, from, base, s)
    requires piece == ContentPiece(before[from + start..from + end], base) && piece == Keep(before[from + start..from + end])
    ensures from + end + 10 <= |before| && Onward(before, from + end + 10, base, s)
  {
    hide BasePass, ContentPiece, NextElement;
    var rest := before[from..];
    BasePassUnfolds(rest, base);
    var text, tail := rest[start..end], rest[end + |CLOSE|..];
    SliceOfSuffix(before, from, start, end);
    ClosingTag(rest, end);
    ThreeParts(rest, start, end);
    Splits(before[..from], rest);
    KeptInPlace(before, before[..from], rest[..start], text, tail, BasePass(tail, base));
  }

  lemma KeptInPlace(before: string, a: string, head: string, text: string, tail: string, onward: string)
    requires before == a + (head + text + (CLOSE + tail))
    ensures var n := |a| + |head| + |text| + |CLOSE|;
      n <= |before| && before[..n] + onward == a + (head + text + CLOSE + onward) && before[n..] == tail
  {
    Regroup(a, head, text, CLOSE, tail);
    Regroup(a, head, text, CLOSE, onward);
    Splits(a + (head + text + CLOSE), tail);
  }

  // ---------------------------------------------------------------------------------------------
  // The whole rewrite

  const PASSES := |SCHEMES| * |ATTRS|

  /** The text after the first n attribute passes: every attribute for the first scheme, then for the second. */
  function AfterPasses(body: string, base: string, n: nat): string
    requires n <= PASSES
  {
    if n == 0 then body else AttrPass(AfterPasses(body, base, n - 1), ATTRS[(n - 1) % |ATTRS|], SCHEMES[(n - 1) / |ATTRS|], base)
  }

  function AllPasses(body: string, base: string): string { BasePass(AfterPasses(body, base, PASSES), base) }

  /** `rewrite_mpd_absolute_urls`. */
  method RewriteAbsoluteUrls(body: string, base: string) returns (out: string)
    ensures out == AllPasses(body, base)
  {
    hide AttrPass, BasePass, Find;
    if !Contains(body, "http://") && !Contains(body, "https://") {
      NothingAbsolute(body, base);
      return body;
    }
    out := body;
    for i := 0 to |SCHEMES|
      invariant out == AfterPasses(body, base, i * |ATTRS|)
    {
      for j := 0 to |ATTRS|
        invariant out == AfterPasses(body, base, i * |ATTRS| + j)
      {
        out := RewriteAttr(out, ATTRS[j], SCHEMES[i], base);
      }
    }
    out := RewriteBaseUrls(out, base);
  }

  /** What the passes did: eight sets of cuts of attribute values, then the edits of the BaseURL
      elements. From the result and these, the base put back restores the body, stage by stage. */
  lemma PassesAreCuts(body: string, base: string, n: nat)
    requires n < PASSES
    ensures var attr, scheme, text := ATTRS[n % |ATTRS|], SCHEMES[n / |ATTRS|], AfterPasses(body, base, n);
      var pieces := AttrPieces(text, attr, scheme, base);
      && Before(pieces, base) == text
      && After(pieces) == AfterPasses(body, base, n + 1)
      && CutsAreValues(pieces, attr, scheme, base)
    ensures var text := AfterPasses(body, base, PASSES);
      var pieces := BasePieces(text, base);
      && Before(pieces, base) == text
      && After(pieces) == AllPasses(body, base)
      && EditsAreContents(pieces, base)
  {
    hide AttrPieces, AttrPass, BasePass, BasePieces, Before, After, CutsAreValues, EditsAreContents;
    AttrPassCuts(AfterPasses(body, base, n), ATTRS[n % |ATTRS|], SCHEMES[n / |ATTRS|], base);
    BasePassEdits(AfterPasses(body, base, PASSES), base);
  }

  lemma NeedleWithin(s: string, a: string, needle: string, i: nat)
    requires OccursAt(s, a + needle, i)
    ensures Contains(s, needle)
  {
    assert s[i + |a|..i + |a| + |needle|] == (a + needle)[|a|..];
    assert OccursAt(s, needle, i + |a|);
  }

  lemma NoAttrToEdit(body: string, attr: string, scheme: string, base: string)
    requires !Contains(body, scheme)
    ensures AttrPass(body, attr, scheme, base) == body
  {
    var value := NextValue(body, attr, scheme);
    if value.Some? {
      NeedleWithin(body, attr, scheme, value.value.0 - |attr|);
    }
  }

  /** Returning early changes nothing: without an absolute address no pass edits anything. */
  lemma NothingAbsolute(body: string, base: string)
    requires !Contains(body, "http://") && !Contains(body, "https://")
    ensures AllPasses(body, base) == body
  {
    hide AttrPass, BasePass, Contains;
    NoPassEdits(body, base, PASSES);
    NoElementToEdit(body, base);
  }

  lemma {:induction false} NoPassEdits(body: string, base: string, n: nat)
    requires n <= PASSES && !Contains(body, "http://") && !Contains(body, "https://")
    ensures AfterPasses(body, base, n) == body
  {
    hide AttrPass, Contains;
    if n > 0 {
      NoPassEdits(body, base, n - 1);
      assert SCHEMES[(n - 1) / |ATTRS|] == "https://" || SCHEMES[(n - 1) / |ATTRS|] == "http://";
      NoAttrToEdit(body, ATTRS[(n - 1) % |ATTRS|], SCHEMES[(n - 1) / |ATTRS|], base);
    }
  }

  lemma {:induction false} NoElementToEdit(body: string, base: string)
    requires !Contains(body, "http://") && !Contains(body, "https://")
    ensures BasePass(body, base) == body
    decreases |body|
  {
    hide *;
    BasePassUnfolds(body, base);
    var element := NextElement(body);
    if element.Some? {
      var start, end := element.value.0, element.value.1;
      var rest := body[end + |CLOSE|..];
      RestIsShorter(body, end);
      NoneInSlice(body, end + |CLOSE|, |body|);
      NoneInSlice(body, start, end);
      assert rest == body[end + |CLOSE|..|body|];
      NoElementToEdit(rest, base);
      NotAbsolute(body[start..end], base);
      KeptElement(body, start, end, base);
    }
  }

  lemma RestIsShorter(s: string, end: nat)
    requires end + |CLOSE| <= |s|
    ensures |s[end + |CLOSE|..]| < |s|
  {
  }

  lemma KeptElement(s: string, start: nat, end: nat, base: string)
    requires |OPEN| <= start <= end && OccursAt(s, CLOSE, end) && OccursAt(s, OPEN, start - |OPEN|)
    requires ContentPiece(s[start..end], base) == Keep(s[start..end])
    ensures s[..start] + PieceAfter(ContentPiece(s[start..end], base)) + CLOSE + s[end + |CLOSE|..] == s
  {
    hide ContentPiece;
    ElementParts(s, start, end, base);
  }

  lemma NoneInSlice(s: string, i: nat, j: nat)
    requires i <= j <= |s| && !Contains(s, "http://") && !Contains(s, "https://")
    ensures !Contains(s[i..j], "http://") && !Contains(s[i..j], "https://")
  {
    hide Contains;
    SliceContains(s, "http://", i, j);
    SliceContains(s, "https://", i, j);
  }

  lemma SliceContains(s: string, needle: string, i: nat, j: nat)
    requires i <= j <= |s|
    ensures Contains(s[i..j], needle) ==> Contains(s, needle)
  {
    if Contains(s[i..j], needle) {
      var at := Find(s[i..j], needle, 0).value;
      assert s[i..j] == s[i..][..j - i];
      SliceOfSuffix(s, i, at, at + |needle|);
      assert s[i..j][at..at + |needle|] == s[i..][at..at + |needle|];
      assert OccursAt(s, needle, i + at);
    }
  }

  lemma NotAbsolute(text: string, base: string)
    requires !Contains(text, "http://") && !Contains(text, "https://")
    ensures ContentPiece(text, base) == Keep(text)
  {
    hide Contains, Lead, Trail, Trim, WithoutSlashes;
    TrimParts(text);
    if "http://" <= Trim(text) {
      TrimmedOccurs(text, "http://");
    }
    if "https://" <= Trim(text) {
      TrimmedOccurs(text, "https://");
    }
  }

  lemma TrimmedOccurs(text: string, needle: string)
    requires needle <= Trim(text)
    ensures Contains(text, needle)
  {
    hide Trim, Lead, Trail;
    TrimParts(text);
    var at := |Lead(text)|;
    assert text[at..at + |needle|] == Trim(text)[..|needle|];
    assert OccursAt(text, needle, at);
  }

  // ---------------------------------------------------------------------------------------------
  // The base of a session

  /** The position after the last slash. */
  function AfterLastSlash(s: string): (n: nat)
    ensures n <= |s| && '/' !in s[n..]
    ensures n > 0 ==> s[n - 1] == '/'
  {
    if s == "" then 0
    else if s[|s| - 1] == '/' then |s|
    else
      var n := AfterLastSlash(s[..|s| - 1]);
      assert s[n..] == s[..|s| - 1][n..] + [s[|s| - 1]];
      n
  }

  /** `split_base_entry`. */
  function SplitBaseEntry(url: string): (string, string) {
    var path := UpTo(url, '?');
    var n := AfterLastSlash(path);
    if n == 0 then (path + "/", "index") else (path[..n], if n == |path| then "index" else path[n..])
  }

  /** A session base ends in a slash and has no query, nor a fragment if the address had none; with a
      file name after it, it and the file name make up the address up to the query; without one the
      entry is called index. */
  lemma BaseEndsInSlash(url: string)
    ensures var (base, entry) := SplitBaseEntry(url);
      && EndsWith(base, "/") && '?' !in base && ('#' !in url ==> '#' !in base) && entry != "" && '/' !in entry
      && ('/' in UpTo(url, '?') && !EndsWith(UpTo(url, '?'), "/") ==> base + entry == UpTo(url, '?'))
      && ('/' !in UpTo(url, '?') ==> base == UpTo(url, '?') + "/" && entry == "index")
      && (EndsWith(UpTo(url, '?'), "/") ==> base == UpTo(url, '?') && entry == "index")
  {
    hide AfterLastSlash, UpTo;
    var path := UpTo(url, '?');
    var n := AfterLastSlash(path);
    BaseOfPath(path, n);
    if '#' !in url {
      assert path <= url && forall c <- path :: c in url;
    }
  }

  /** A path cut behind its last slash. */
  lemma BaseOfPath(path: string, n: nat)
    requires n <= |path| && (n > 0 ==> path[n - 1] == '/') && '/' !in path[n..]
    ensures n > 0 ==> EndsWith(path[..n], "/") && path[..n] + path[n..] == path && forall c <- path[..n] :: c in path
    ensures EndsWith(path + "/", "/") && forall c <- path + "/" :: c in path || c == '/'
    ensures n == |path| > 0 ==> EndsWith(path, "/")
    ensures n == 0 ==> '/' !in path
  {
    if n > 0 {
      assert path[..n][n - 1..] == "/";
    } else {
      assert path[0..] == path;
    }
  }
}
