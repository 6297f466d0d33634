/** What the rewriting of a DASH manifest does to its text, element by element and value by value
    (crates/proxy/src/ext.rs:208-260). */
module MpdEdits {
  import opened Wrappers
  import opened Text
  import opened MpdRewrite

  ghost predicate Occurs(s: string, needle: string) { exists i :: OccursAt(s, needle, i) }

  /** The text is there first behind `n` characters. */
  ghost predicate FirstAt(s: string, needle: string, n: nat) { OccursAt(s, needle, n) && forall i :: 0 <= i < n ==> !OccursAt(s, needle, i) }

  lemma FirstIsFound(s: string, needle: string, from: nat, n: nat)
    requires from <= n && OccursAt(s, needle, n) && forall i :: from <= i < n ==> !OccursAt(s, needle, i)
    ensures from <= |s| && Find(s, needle, from) == Some(n)
  {
    hide Find;
    assert from <= |s|;
    var found := Find(s, needle, from);
    assert found.Some?;
  }

  // ---------------------------------------------------------------------------------------------
  // Attribute values

  /** The first value of an attribute and scheme loses the base it starts with, or stays, and the
      rest of the text is treated in the same way. */
  lemma FirstValueIsCut(a: string, attr: string, scheme: string, v: string, b: string, base: string)
    requires FirstAt(a + attr + v + "\"" + b, attr + scheme, |a|) && '"' !in v
    ensures AttrPass(a + attr + v + "\"" + b, attr, scheme, base)
         == a + attr + (if base <= v then v[|base|..] else v) + "\"" + AttrPass(b, attr, scheme, base)
  {
    hide AttrPass, Find, FirstAt;
    var s := a + attr + v + "\"" + b;
    var start := |a| + |attr|;
    ValueParts(a + attr, v, b);
    assert OccursAt(s, attr + scheme, |a|) && forall i :: 0 <= i < |a| ==> !OccursAt(s, attr + scheme, i) by { SaysFirst(s, attr + scheme, |a|); }
    FirstIsFound(s, attr + scheme, 0, |a|);
    FirstIsFound(s, "\"", start, start + |v|);
    assert s[..start] == a + attr && s[start..start + |v|] == v && s[start + |v| + 1..] == b;
    assert NextValue(s, attr, scheme) == Some((start, start + |v|));
    PassUnfolds(s, attr, scheme, base);
    Associate(a + attr, v, "\"");
  }

  lemma SaysFirst(s: string, needle: string, n: nat)
    requires FirstAt(s, needle, n)
    ensures OccursAt(s, needle, n) && forall i :: 0 <= i < n ==> !OccursAt(s, needle, i)
  {
  }

  lemma ValueParts(head: string, v: string, b: string)
    requires '"' !in v
    ensures var s := head + v + "\"" + b;
      && s[..|head|] == head && s[|head|..|head| + |v|] == v && s[|head| + |v| + 1..] == b
      && OccursAt(s, "\"", |head| + |v|) && forall i :: |head| <= i < |head| + |v| ==> !OccursAt(s, "\"", i)
  {
    var s := head + v + "\"" + b;
    forall i | |head| <= i < |head| + |v| ensures !OccursAt(s, "\"", i) {
      assert s[i] == v[i - |head|] && v[i - |head|] in v;
      assert i < |s| ==> s[i..i + 1] == [s[i]];
    }
  }

  /** Without such a value the text stays. */
  lemma NoValueStays(s: string, attr: string, scheme: string, base: string)
    requires !Occurs(s, attr + scheme)
    ensures AttrPass(s, attr, scheme, base) == s
  {
  }

  /** And so it does behind a value that is never closed. */
  lemma OpenValueStays(a: string, attr: string, scheme: string, v: string, base: string)
    requires FirstAt(a + attr + v, attr + scheme, |a|) && '"' !in v
    ensures AttrPass(a + attr + v, attr, scheme, base) == a + attr + v
  {
    hide Find, FirstAt;
    var s := a + attr + v;
    SaysFirst(s, attr + scheme, |a|);
    FirstIsFound(s, attr + scheme, 0, |a|);
    forall i | |a| + |attr| <= i < |s| ensures s[i] != '"' {
      assert s[i] == v[i - |a| - |attr|] && v[i - |a| - |attr|] in v;
    }
    forall i | |a| + |attr| <= i ensures !OccursAt(s, "\"", i) {
      assert i < |s| ==> s[i..i + 1] == [s[i]];
    }
    assert NextValue(s, attr, scheme) == None;
  }

  // ---------------------------------------------------------------------------------------------
  // BaseURL elements

  /** What stands in the element afterwards. An address is absolute with either scheme; under the base
      it is cut to its tail, and emptied where only the base without its last slashes starts it. */
  ghost predicate Becomes(content: string, base: string, after: string) {
    var t := Trim(content);
    if !("http://" <= t || "https://" <= t) then after == content
    else if base <= t then base + after == t
    else if exists n :: 0 <= n <= |base| && base[..n] <= t && (n == 0 || base[n - 1] != '/') && forall i :: n <= i < |base| ==> base[i] == '/'
    then after == ""
    else after == content
  }

  lemma SlashesOff(base: string, t: string)
    ensures WithoutSlashes(base) <= t
      <==> exists n :: 0 <= n <= |base| && base[..n] <= t && (n == 0 || base[n - 1] != '/') && forall i :: n <= i < |base| ==> base[i] == '/'
  {
    hide WithoutSlashes;
    var r := WithoutSlashes(base);
    assert base[..|r|] == r && r == base[..|r|];
    if n :| 0 <= n <= |base| && base[..n] <= t && (n == 0 || base[n - 1] != '/') && forall i :: n <= i < |base| ==> base[i] == '/' {
      assert r != "" ==> r[|r| - 1] == base[|r| - 1];
      assert n == |r|;
    }
  }

  lemma ContentBecomes(content: string, base: string)
    ensures Becomes(content, base, PieceAfter(ContentPiece(content, base)))
  {
    hide Trim, Lead, Trail, WithoutSlashes;
    SlashesOff(base, Trim(content));
  }

  /** The first element is edited so, and the text behind it treated in the same way. */
  lemma FirstElementBecomes(a: string, content: string, b: string, base: string) returns (after: string)
    requires FirstAt(a + "<BaseURL>" + content + "</BaseURL>" + b, "<BaseURL>", |a|)
    requires FirstAt(content + "</BaseURL>" + b, "</BaseURL>", |content|)
    ensures Becomes(content, base, after)
    ensures BasePass(a + "<BaseURL>" + content + "</BaseURL>" + b, base)
         == a + "<BaseURL>" + after + "</BaseURL>" + BasePass(b, base)
  {
    hide BasePass, Find, FirstAt, ContentPiece, Becomes;
    var s := a + "<BaseURL>" + content + "</BaseURL>" + b;
    var start := |a| + |"<BaseURL>"|;
    after := PieceAfter(ContentPiece(content, base));
    ContentBecomes(content, base);
    SaysFirst(s, "<BaseURL>", |a|);
    SaysFirst(content + "</BaseURL>" + b, "</BaseURL>", |content|);
    FirstIsFound(s, "<BaseURL>", 0, |a|);
    ElementPartsOf(a + "<BaseURL>", content, b);
    FirstIsFound(s, "</BaseURL>", start, start + |content|);
    assert NextElement(s) == Some((start, start + |content|));
    BasePassUnfolds(s, base);
    assert s[..start] == a + "<BaseURL>";
  }

  lemma ElementPartsOf(head: string, content: string, b: string)
    requires forall i :: 0 <= i < |content| ==> !OccursAt(content + "</BaseURL>" + b, "</BaseURL>", i)
    ensures var s := head + content + "</BaseURL>" + b;
      && s[..|head|] == head && s[|head|..|head| + |content|] == content && s[|head| + |content| + |"</BaseURL>"|..] == b
      && OccursAt(s, "</BaseURL>", |head| + |content|)
      && forall i :: |head| <= i < |head| + |content| ==> !OccursAt(s, "</BaseURL>", i)
  {
    var s, tail := head + content + "</BaseURL>" + b, content + "</BaseURL>" + b;
    assert s == head + tail;
    forall i | |head| <= i < |head| + |content| ensures !OccursAt(s, "</BaseURL>", i) {
      assert !OccursAt(tail, "</BaseURL>", i - |head|);
      assert s[i..] == tail[i - |head|..];
      if i + |"</BaseURL>"| <= |s| {
        assert s[i..i + |"</BaseURL>"|] == tail[i - |head|..i - |head| + |"</BaseURL>"|];
      }
    }
  }

  /** Without an element the text stays. */
  lemma NoElementStays(s: string, base: string)
    requires !Occurs(s, "<BaseURL>")
    ensures BasePass(s, base) == s
  {
    hide BasePass, ContentPiece;
    BasePassUnfolds(s, base);
  }

  /** And so it does behind one that is never closed. */
  lemma OpenElementStays(a: string, content: string, base: string)
    requires FirstAt(a + "<BaseURL>" + content, "<BaseURL>", |a|) && !Occurs(content, "</BaseURL>")
    ensures BasePass(a + "<BaseURL>" + content, base) == a + "<BaseURL>" + content
  {
    hide BasePass, Find, FirstAt, ContentPiece;
    var s, head := a + "<BaseURL>" + content, a + "<BaseURL>";
    BasePassUnfolds(s, base);
    SaysFirst(s, "<BaseURL>", |a|);
    FirstIsFound(s, "<BaseURL>", 0, |a|);
    assert s == head + content;
    forall i | |head| <= i ensures !OccursAt(s, "</BaseURL>", i) {
      assert !OccursAt(content, "</BaseURL>", i - |head|);
      if i + |"</BaseURL>"| <= |s| {
        assert s[i..i + |"</BaseURL>"|] == content[i - |head|..i - |head| + |"</BaseURL>"|];
      }
    }
    assert NextElement(s) == None;
  }

  // ---------------------------------------------------------------------------------------------
  // All passes

  /** Four attributes with https, the same four with http, and then the elements. */
  lemma PassesInOrder(body: string, base: string)
    ensures var secure := AttrPass(AttrPass(AttrPass(AttrPass(body, "media=\"", "https://", base),
        "initialization=\"", "https://", base), "sourceURL=\"", "https://", base), "value=\"", "https://", base);
      var plain := AttrPass(AttrPass(AttrPass(AttrPass(secure, "media=\"", "http://", base),
        "initialization=\"", "http://", base), "sourceURL=\"", "http://", base), "value=\"", "http://", base);
      AllPasses(body, base) == BasePass(plain, base)
  {
    hide AttrPass, BasePass;
    assert PASSES == 8;
    NextPass(body, base, 1);
    NextPass(body, base, 2);
    NextPass(body, base, 3);
    NextPass(body, base, 4);
    NextPass(body, base, 5);
    NextPass(body, base, 6);
    NextPass(body, base, 7);
    NextPass(body, base, 8);
    assert AfterPasses(body, base, 0) == body;
  }

  lemma NextPass(body: string, base: string, n: nat)
    requires 1 <= n <= PASSES
    ensures AfterPasses(body, base, n)
         == AttrPass(AfterPasses(body, base, n - 1), ATTRS[(n - 1) % |ATTRS|], SCHEMES[(n - 1) / |ATTRS|], base)
  {
    hide AttrPass;
  }
}
