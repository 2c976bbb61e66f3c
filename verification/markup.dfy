/** The tag rewriting `_getValue` of src/cazary.js applies to the body's
    markup before handing it out: four global, case-insensitive regular
    expression replacements `(<\/?)p\b` -> `$1div`, `(<\/?)em\b` -> `$1i`,
    `(<\/?)strong\b` -> `$1b` and `(<\/?)del\b` -> `$1s`, in that order. */
module Markup {
  import opened Wrappers
  import opened Text

  /** A tag name as the four expressions use them: a non-empty run of
      lower-case ASCII letters. */
  predicate IsTagName(s: string) {
    |s| > 0 && Letters(s)
  }

  /** `name\b` at the front of `t`: the letters of `name` regardless of case,
      then the end of `t` or a character outside `\w`. */
  predicate NameMatches(t: string, name: string)
    decreases |name|
  {
    if name == [] then t == [] || !IsWordChar(t[0])
    else t != [] && FoldAscii(t[0]) == FoldAscii(name[0]) && NameMatches(t[1..], name[1..])
  }

  /** Whether `(<\/?)name\b` matches at the start of `t`, and if so the length
      of the kept group `(<\/?)`. The optional slash is tried first and the
      match without it is tried when the rest fails. */
  function TagAt(t: string, name: string): (p: Option<nat>)
    ensures p.Some? ==> 1 <= p.value <= 2 && p.value + |name| <= |t| && t[0] == '<'
  {
    if |t| >= 2 && t[0] == '<' && t[1] == '/' && NameMatches(t[2..], name) then
      NameMatchesShape(t[2..], name); Some(2)
    else if |t| >= 1 && t[0] == '<' && NameMatches(t[1..], name) then
      NameMatchesShape(t[1..], name); Some(1)
    else None
  }

  /** `s.replace(/(<\/?)name\b/gi, "$1" + repl)`: the scan resumes after each
      match and one character further after each position that fails. */
  function Rewrite(s: string, name: string, repl: string): string
    decreases |s|
  {
    if s == [] then []
    else match TagAt(s, name)
      case Some(p) => s[..p] + repl + Rewrite(s[p + |name|..], name, repl)
      case None => [s[0]] + Rewrite(s[1..], name, repl)
  }

  /** The value `_getValue` returns for the body's markup `html`. */
  function Normalize(html: string): string {
    var a := Rewrite(html, "p", "div");
    var b := Rewrite(a, "em", "i");
    var c := Rewrite(b, "strong", "b");
    Rewrite(c, "del", "s")
  }

  /** No position of `s` starts an opening or closing tag called `name`. */
  predicate Clean(s: string, name: string) {
    forall k | 0 <= k < |s| :: TagAt(s[k..], name) == None
  }

  /** Markup free of the four tags `_getValue` replaces. */
  predicate NoLegacyTags(s: string) {
    Clean(s, "p") && Clean(s, "em") && Clean(s, "strong") && Clean(s, "del")
  }

  /** The first position after 0 where a `<` stands, or `|s|`. */
  function NextOpen(s: string): (j: nat)
    requires s != []
    ensures 1 <= j <= |s|
    ensures '<' !in s[1..j]
    ensures j < |s| ==> s[j] == '<'
  {
    var i := IndexOf(s[1..], '<');
    if i < 0 then assert s[1..|s|] == s[1..]; |s|
    else assert s[1..i + 1] == s[1..][..i]; i + 1
  }

  // ---------------------------------------------------------------------
  // Matching a name.

  /** A matched name is followed by the end of the text or a non-word character. */
  lemma {:induction false} NameMatchesShape(t: string, name: string)
    requires NameMatches(t, name)
    ensures |name| <= |t|
    ensures |name| == |t| || !IsWordChar(t[|name|])
    decreases |name|
  {
    if name != [] {
      NameMatchesShape(t[1..], name[1..]);
      if |name| < |t| {
        assert t[1..][|name| - 1] == t[|name|];
      }
    }
  }

  /** Whether a name matches does not depend on what follows a `<`. */
  lemma {:induction false} NameMatchesAppend(x: string, b: string, name: string)
    requires Letters(name)
    requires b == [] || b[0] == '<'
    ensures NameMatches(x + b, name) == NameMatches(x, name)
    decreases |name|
  {
    if name == [] {
      if x == [] {
        assert x + b == b;
      } else {
        assert (x + b)[0] == x[0];
      }
    } else if x == [] {
      assert x + b == b;
      assert FoldAscii(name[0]) == name[0];
    } else {
      assert (x + b)[0] == x[0];
      assert (x + b)[1..] == x[1..] + b;
      NameMatchesAppend(x[1..], b, name[1..]);
    }
  }

  /** Letters `r` followed by a non-word character (or nothing) do not match
      any other name `m`. */
  lemma {:induction false} NoNameAfter(r: string, rest: string, m: string)
    requires Letters(r) && Letters(m) && r != m
    requires rest == [] || !IsWordChar(rest[0])
    ensures !NameMatches(r + rest, m)
    decreases |m|
  {
    var t := r + rest;
    if r == [] {
      assert t == rest;
      if rest != [] {
        assert FoldAscii(m[0]) == m[0];
      }
    } else if m == [] {
      assert t[0] == r[0];
    } else if r[0] != m[0] {
      assert t[0] == r[0];
      assert FoldAscii(r[0]) == r[0] && FoldAscii(m[0]) == m[0];
    } else {
      assert r == [r[0]] + r[1..] && m == [m[0]] + m[1..];
      assert t[1..] == r[1..] + rest;
      NoNameAfter(r[1..], rest, m[1..]);
    }
  }

  /** Whether a tag starts at the front of `a` does not depend on what follows
      `a` when that begins with `<`. */
  lemma TagAtAppend(a: string, b: string, name: string)
    requires Letters(name) && a != []
    requires b == [] || b[0] == '<'
    ensures TagAt(a + b, name) == TagAt(a, name)
  {
    var t := a + b;
    assert t[0] == a[0];
    assert t[1..] == a[1..] + b;
    NameMatchesAppend(a[1..], b, name);
    if |a| >= 2 {
      assert t[1] == a[1];
      assert t[2..] == a[2..] + b;
      NameMatchesAppend(a[2..], b, name);
    } else if |b| > 0 {
      assert t[1] == b[0];
    }
  }

  /** A rewritten tag `<repl` or `</repl`, followed by a non-word character or
      the end, starts no tag called `m` unless `repl` is `m`. */
  lemma ReplacedTagIsNot(pre: string, r: string, rest: string, m: string)
    requires IsTagName(r) && IsTagName(m) && r != m
    requires pre == ['<'] || pre == ['<', '/']
    requires rest == [] || !IsWordChar(rest[0])
    ensures TagAt(pre + r + rest, m) == None
  {
    var t := pre + r + rest;
    if |pre| == 1 {
      assert t[1] == r[0];
      assert t[1..] == r + rest;
      NoNameAfter(r, rest, m);
    } else {
      assert t[1] == '/';
      assert t[2..] == r + rest;
      NoNameAfter(r, rest, m);
      assert t[1..][0] == '/';
      assert FoldAscii(m[0]) == m[0];
    }
  }

  // ---------------------------------------------------------------------
  // Locality of the scan: a match never reaches past the next `<`.

  /** One step of the scan over a match. */
  lemma RewriteAtTag(s: string, name: string, repl: string, p: nat)
    requires TagAt(s, name) == Some(p)
    ensures p + |name| <= |s|
    ensures Rewrite(s, name, repl) == s[..p] + repl + Rewrite(s[p + |name|..], name, repl)
  {
  }

  /** One step of the scan over a position where no match starts. */
  lemma RewriteAtText(s: string, name: string, repl: string)
    requires s != [] && TagAt(s, name) == None
    ensures Rewrite(s, name, repl) == [s[0]] + Rewrite(s[1..], name, repl)
  {
  }

  /** A rewritten string starts with the character the original starts with. */
  lemma RewriteFront(s: string, name: string, repl: string)
    requires s != []
    ensures Rewrite(s, name, repl) != [] && Rewrite(s, name, repl)[0] == s[0]
  {
  }

  /** Rewriting distributes over a cut just before a `<`. */
  lemma {:induction false} RewriteAppend(a: string, b: string, name: string, repl: string)
    requires Letters(name)
    requires b == [] || b[0] == '<'
    ensures Rewrite(a + b, name, repl) == Rewrite(a, name, repl) + Rewrite(b, name, repl)
    decreases |a|, 1
  {
    if a == [] {
      assert a + b == b;
      assert Rewrite(a, name, repl) == [];
    } else if TagAt(a, name).Some? {
      RewriteAppendTag(a, b, name, repl, TagAt(a, name).value);
    } else {
      RewriteAppendText(a, b, name, repl);
    }
  }

  lemma {:induction false} RewriteAppendTag(a: string, b: string, name: string, repl: string, p: nat)
    requires Letters(name) && a != [] && TagAt(a, name) == Some(p)
    requires b == [] || b[0] == '<'
    ensures Rewrite(a + b, name, repl) == Rewrite(a, name, repl) + Rewrite(b, name, repl)
    decreases |a|, 0
  {
    var ra := a[p + |name|..];
    var x, y := Rewrite(ra, name, repl), Rewrite(b, name, repl);
    RewriteAtTag(a, name, repl, p);
    AppendTagStep(a, b, name, repl, p);
    RewriteAppend(ra, b, name, repl);
    ConcatAssoc(a[..p] + repl, x, y);
  }

  lemma AppendTagStep(a: string, b: string, name: string, repl: string, p: nat)
    requires Letters(name) && a != [] && TagAt(a, name) == Some(p)
    requires b == [] || b[0] == '<'
    ensures p + |name| <= |a|
    ensures Rewrite(a + b, name, repl) == a[..p] + repl + Rewrite(a[p + |name|..] + b, name, repl)
  {
    var t := a + b;
    TagAtAppend(a, b, name);
    assert t[..p] == a[..p];
    assert t[p + |name|..] == a[p + |name|..] + b;
    RewriteAtTag(t, name, repl, p);
  }

  lemma {:induction false} RewriteAppendText(a: string, b: string, name: string, repl: string)
    requires Letters(name) && a != [] && TagAt(a, name) == None
    requires b == [] || b[0] == '<'
    ensures Rewrite(a + b, name, repl) == Rewrite(a, name, repl) + Rewrite(b, name, repl)
    decreases |a|, 0
  {
    var x, y := Rewrite(a[1..], name, repl), Rewrite(b, name, repl);
    RewriteAtText(a, name, repl);
    AppendTextStep(a, b, name, repl);
    RewriteAppend(a[1..], b, name, repl);
    ConcatAssoc([a[0]], x, y);
  }

  lemma AppendTextStep(a: string, b: string, name: string, repl: string)
    requires Letters(name) && a != [] && TagAt(a, name) == None
    requires b == [] || b[0] == '<'
    ensures Rewrite(a + b, name, repl) == [a[0]] + Rewrite(a[1..] + b, name, repl)
  {
    var t := a + b;
    TagAtAppend(a, b, name);
    assert t[0] == a[0];
    assert t[1..] == a[1..] + b;
    RewriteAtText(t, name, repl);
  }

  lemma ConcatAssoc(c: string, x: string, y: string)
    ensures c + (x + y) == (c + x) + y
  {
  }

  /** Text without any `<` is left as it is. */
  lemma {:induction false} RewriteText(s: string, name: string, repl: string)
    requires '<' !in s
    ensures Rewrite(s, name, repl) == s
    decreases |s|
  {
    if s != [] {
      assert s[0] != '<';
      assert '<' !in s[1..];
      RewriteAtText(s, name, repl);
      RewriteText(s[1..], name, repl);
    }
  }

  // ---------------------------------------------------------------------
  // What a pass of the replacement leaves behind.

  /** Rewriting a stretch with no `<` past its front: the result again has no
      `<` past its front, and starts no tag called `m` unless the stretch did
      and `m` is not the replaced name. */
  lemma RewriteChunk(c: string, name: string, repl: string, m: string)
    requires IsTagName(name) && IsTagName(repl) && IsTagName(m) && repl != m
    requires c != [] && '<' !in c[1..]
    requires m == name || TagAt(c, m) == None
    ensures var x := Rewrite(c, name, repl);
      x != [] && '<' !in x[1..] && TagAt(x, m) == None
  {
    match TagAt(c, name)
    case Some(p) =>
      RewriteChunkTag(c, name, repl, m, p);
    case None =>
      RewriteAtText(c, name, repl);
      RewriteText(c[1..], name, repl);
      assert [c[0]] + c[1..] == c;
  }

  /** The case of `RewriteChunk` where the stretch starts with the tag. */
  lemma RewriteChunkTag(c: string, name: string, repl: string, m: string, p: nat)
    requires IsTagName(name) && IsTagName(repl) && IsTagName(m) && repl != m
    requires c != [] && '<' !in c[1..]
    requires TagAt(c, name) == Some(p)
    ensures var x := Rewrite(c, name, repl);
      x != [] && '<' !in x[1..] && TagAt(x, m) == None
  {
    var pre, rest := c[..p], c[p + |name|..];
    ChunkTagParts(c, name, repl, p);
    ReplacedTagIsNot(pre, repl, rest, m);
    var x := pre + repl + rest;
    assert x[1..] == pre[1..] + repl + rest;
    assert forall i | 0 <= i < |repl| :: repl[i] != '<';
  }

  /** A stretch that starts with the tag: the kept group, the replacement and
      the untouched remainder, which starts with no word character. */
  lemma ChunkTagParts(c: string, name: string, repl: string, p: nat)
    requires Letters(name) && c != [] && '<' !in c[1..]
    requires TagAt(c, name) == Some(p)
    ensures var pre, rest := c[..p], c[p + |name|..];
      && (pre == ['<'] || pre == ['<', '/'])
      && (rest == [] || !IsWordChar(rest[0]))
      && '<' !in rest
      && Rewrite(c, name, repl) == pre + repl + rest
  {
    var rest := c[p + |name|..];
    KeptGroup(c, name, p);
    assert '<' !in rest by {
      assert rest == c[1..][p + |name| - 1..];
    }
    assert rest == [] || !IsWordChar(rest[0]) by {
      NameMatchesShape(c[p..], name);
      if rest != [] {
        assert rest[0] == c[p..][|name|];
      }
    }
    RewriteAtTag(c, name, repl, p);
    RewriteText(rest, name, repl);
  }

  /** The text the group `(<\/?)` keeps. */
  lemma KeptGroup(c: string, name: string, p: nat)
    requires TagAt(c, name) == Some(p)
    ensures c[..p] == ['<'] || c[..p] == ['<', '/']
  {
    if p == 2 {
      assert c[1] == '/';
    }
  }

  /** Cleanliness of `x + y` when `x` has no `<` past its front and `y`
      begins with one. */
  lemma CleanConcat(x: string, y: string, m: string)
    requires Letters(m)
    requires x == [] || '<' !in x[1..]
    requires y == [] || y[0] == '<'
    requires x != [] ==> TagAt(x, m) == None
    requires Clean(y, m)
    ensures Clean(x + y, m)
  {
    var t := x + y;
    forall k | 0 <= k < |t|
      ensures TagAt(t[k..], m) == None
    {
      if k < |x| {
        if k == 0 {
          TagAtAppend(x, y, m);
          assert t[0..] == t;
        } else {
          assert t[k..][0] == x[k] == x[1..][k - 1];
        }
      } else {
        assert t[k..] == y[k - |x|..];
      }
    }
  }

  lemma CleanSuffix(s: string, j: nat, m: string)
    requires j <= |s| && Clean(s, m)
    ensures Clean(s[j..], m)
  {
    forall k | 0 <= k < |s[j..]|
      ensures TagAt(s[j..][k..], m) == None
    {
      assert s[j..][k..] == s[j + k..];
    }
  }

  /** One pass of the replacement leaves no tag called `name` behind and
      creates no tag called `m`, when `repl` is not `m`. */
  lemma {:induction false} RewriteClean(s: string, name: string, repl: string, m: string)
    requires IsTagName(name) && IsTagName(repl) && IsTagName(m) && repl != m
    requires m == name || Clean(s, m)
    ensures Clean(Rewrite(s, name, repl), m)
    decreases |s|
  {
    if s != [] {
      var j := NextOpen(s);
      var c, b := s[..j], s[j..];
      assert s == c + b;
      assert c[1..] == s[1..j];
      RewriteAppend(c, b, name, repl);
      if m != name {
        CleanSuffix(s, j, m);
        TagAtAppend(c, b, m);
        assert s[0..] == s;
      }
      RewriteClean(b, name, repl, m);
      RewriteChunk(c, name, repl, m);
      if b != [] {
        RewriteFront(b, name, repl);
      }
      CleanConcat(Rewrite(c, name, repl), Rewrite(b, name, repl), m);
    }
  }

  /** Markup already free of the tag is left as it is. */
  lemma {:induction false} RewriteKeepsClean(s: string, name: string, repl: string)
    requires Clean(s, name)
    ensures Rewrite(s, name, repl) == s
    decreases |s|
  {
    if s != [] {
      assert s[0..] == s;
      RewriteAtText(s, name, repl);
      CleanSuffix(s, 1, name);
      RewriteKeepsClean(s[1..], name, repl);
    }
  }

  /** The names and replacements `_getValue` uses meet the conditions above. */
  lemma LegacyNames()
    ensures IsTagName("p") && IsTagName("em") && IsTagName("strong") && IsTagName("del")
    ensures IsTagName("div") && IsTagName("i") && IsTagName("b") && IsTagName("s")
    ensures "div" != "p" && "i" != "p" && "i" != "em"
    ensures "b" != "p" && "b" != "em" && "b" != "strong"
    ensures "s" != "p" && "s" != "em" && "s" != "strong" && "s" != "del"
  {
    assert "i"[0] != "p"[0] && "b"[0] != "p"[0] && "s"[0] != "p"[0];
  }

  // ---------------------------------------------------------------------
  // Properties of the value `_getValue` hands out.

  /** The value contains no `p`, `em`, `strong` or `del` tag, opening or closing. */
  lemma NormalizeRemovesLegacyTags(html: string)
    ensures NoLegacyTags(Normalize(html))
  {
    LegacyNames();
    var a := Rewrite(html, "p", "div");
    var b := Rewrite(a, "em", "i");
    var c := Rewrite(b, "strong", "b");
    RewriteClean(html, "p", "div", "p");
    RewriteClean(a, "em", "i", "p");
    RewriteClean(a, "em", "i", "em");
    RewriteClean(b, "strong", "b", "p");
    RewriteClean(b, "strong", "b", "em");
    RewriteClean(b, "strong", "b", "strong");
    RewriteClean(c, "del", "s", "p");
    RewriteClean(c, "del", "s", "em");
    RewriteClean(c, "del", "s", "strong");
    RewriteClean(c, "del", "s", "del");
  }

  /** Markup without those tags comes back unchanged. */
  lemma NormalizeKeepsModernMarkup(html: string)
    requires NoLegacyTags(html)
    ensures Normalize(html) == html
  {
    RewriteKeepsClean(html, "p", "div");
    RewriteKeepsClean(html, "em", "i");
    RewriteKeepsClean(html, "strong", "b");
    RewriteKeepsClean(html, "del", "s");
  }

  /** Reading the value twice gives the same markup as reading it once. */
  lemma NormalizeIdempotent(html: string)
    ensures Normalize(Normalize(html)) == Normalize(html)
  {
    NormalizeRemovesLegacyTags(html);
    NormalizeKeepsModernMarkup(Normalize(html));
  }

  /** Plain text, without any markup, is handed out as it is. */
  lemma NormalizeText(html: string)
    requires '<' !in html
    ensures Normalize(html) == html
  {
    RewriteText(html, "p", "div");
    RewriteText(html, "em", "i");
    RewriteText(html, "strong", "b");
    RewriteText(html, "del", "s");
  }

  // ---------------------------------------------------------------------
  // A worked example: `<p>hi</p>` reads back as `<div>hi</div>`. The
  // strings are passed as parameters so that the verifier does not unfold
  // the functions over the literals character by character.

  /** `<p` opens a paragraph tag at the front of `<p>hi`. */
  lemma ParagraphOpenTag(a: string)
    requires a == "<p>hi"
    ensures TagAt(a, "p") == Some(1)
  {
    assert a[1..] == "p>hi";
    assert NameMatches(a[1..], "p");
  }

  /** `</p` closes a paragraph tag at the front of `</p>`. */
  lemma ParagraphCloseTag(b: string)
    requires b == "</p>"
    ensures TagAt(b, "p") == Some(2)
  {
    assert b[2..] == "p>";
    assert NameMatches(b[2..], "p");
  }

  lemma OpenPass(a: string, repl: string)
    requires a == "<p>hi" && repl == "div"
    ensures Rewrite(a, "p", repl) == "<div>hi"
  {
    ParagraphOpenTag(a);
    RewriteAtTag(a, "p", repl, 1);
    RewriteText(a[2..], "p", repl);
    assert a[..1] + repl + a[2..] == "<div>hi";
  }

  lemma ClosePass(b: string, repl: string)
    requires b == "</p>" && repl == "div"
    ensures Rewrite(b, "p", repl) == "</div>"
  {
    ParagraphCloseTag(b);
    RewriteAtTag(b, "p", repl, 2);
    RewriteText(b[3..], "p", repl);
    assert b[..2] + repl + b[3..] == "</div>";
  }

  /** The first pass turns both paragraph tags into `div` tags. */
  lemma FirstPassExample(s: string, a: string, b: string)
    requires a == "<p>hi" && b == "</p>" && s == a + b
    ensures Rewrite(s, "p", "div") == "<div>hi" + "</div>"
  {
    RewriteAppend(a, b, "p", "div");
    OpenPass(a, "div");
    ClosePass(b, "div");
  }

  /** Text starting `di` names none of the inline tags. */
  lemma DiNotName(t: string, m: string)
    requires |t| >= 2 && t[0] == 'd' && t[1] == 'i'
    requires m == "em" || m == "strong" || m == "del"
    ensures !NameMatches(t, m)
  {
    assert FoldAscii(t[0]) == 'd' && FoldAscii(t[1]) == 'i';
    if m == "del" {
      assert FoldAscii(m[1]) == 'e';
      assert !NameMatches(t[1..], m[1..]);
    } else {
      assert FoldAscii(m[0]) != 'd';
    }
  }

  /** Text starting with a slash names no tag. */
  lemma SlashNotName(t: string, m: string)
    requires t != [] && t[0] == '/'
    requires m == "em" || m == "strong" || m == "del"
    ensures !NameMatches(t, m)
  {
    assert FoldAscii(t[0]) == '/' && FoldAscii(m[0]) != '/';
  }

  /** `<div>hi</div>` holds none of the tags the later passes look for. */
  lemma DivClean(a: string, b: string, m: string)
    requires a == "<div>hi" && b == "</div>"
    requires m == "em" || m == "strong" || m == "del"
    ensures Clean(a + b, m)
  {
    DiNotName(a[1..], m);
    DiNotName(b[2..], m);
    SlashNotName(b[1..], m);
    assert b + [] == b;
    CleanConcat(b, [], m);
    CleanConcat(a, b, m);
  }

  lemma DivText(x: string, y: string)
    requires x == "<div>hi" && y == "</div>"
    ensures x + y == "<div>hi</div>"
  {
  }

  /** A paragraph is handed out as a `div`. */
  lemma NormalizeExample(html: string)
    requires html == "<p>hi</p>"
    ensures Normalize(html) == "<div>hi</div>"
  {
    var a, b := "<p>hi", "</p>";
    FirstPassExample(html, a, b);
    var x, y := "<div>hi", "</div>";
    DivClean(x, y, "em");
    DivClean(x, y, "strong");
    DivClean(x, y, "del");
    RewriteKeepsClean(x + y, "em", "i");
    RewriteKeepsClean(x + y, "strong", "b");
    RewriteKeepsClean(x + y, "del", "s");
    DivText(x, y);
  }
}
