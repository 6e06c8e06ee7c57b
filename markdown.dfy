/**
 * The two string rewrites applied to the HTML markdown-it renders: every
 * highlighted code block opening `<pre class="hljs">` becomes a macOS-style
 * block with a title bar, then every bare `<h2>…</h2>` gets an icon span.
 * markdown-it and highlight.js themselves are parameters.
 */
module Markdown {
  import opened Wrappers
  import opened Strings
  import opened OrderedMap

  // ----- Global replacement of a plain pattern -----

  /** `s.replace(/pat/g, rep)` for a pattern of plain characters and a replacement
      without `$`: the scan goes left to right, replaces each occurrence it meets and
      resumes after it. */
  function ReplaceAll(s: string, pat: string, rep: string): string
    requires pat != []
    decreases |s|
  {
    if s == [] then []
    else if StartsWith(s, pat) then rep + ReplaceAll(s[|pat|..], pat, rep)
    else [s[0]] + ReplaceAll(s[1..], pat, rep)
  }

  /** The pieces of `s` between the occurrences that scan replaces, in order. */
  function SplitOn(s: string, pat: string): (pieces: seq<string>)
    requires pat != []
    ensures |pieces| >= 1
    decreases |s|
  {
    if s == [] then [[]]
    else if StartsWith(s, pat) then [[]] + SplitOn(s[|pat|..], pat)
    else
      var rest := SplitOn(s[1..], pat);
      [[s[0]] + rest[0]] + rest[1..]
  }

  /** How many occurrences the scan replaces. */
  function Matches(s: string, pat: string): nat
    requires pat != []
    decreases |s|
  {
    if s == [] then 0
    else if StartsWith(s, pat) then 1 + Matches(s[|pat|..], pat)
    else Matches(s[1..], pat)
  }

  lemma JoinCons(c: char, parts: seq<string>, sep: string)
    requires |parts| >= 1
    ensures Join([[c] + parts[0]] + parts[1..], sep) == [c] + Join(parts, sep)
  {
    var r := [[c] + parts[0]] + parts[1..];
    if |parts| > 1 {
      assert r[1..] == parts[1..];
    }
  }

  /** Replacing is splitting at the occurrences and joining the pieces with the
      replacement: the text between occurrences is kept verbatim. */
  lemma {:induction false} ReplaceAllSplits(s: string, pat: string, rep: string)
    requires pat != []
    ensures ReplaceAll(s, pat, rep) == Join(SplitOn(s, pat), rep)
    decreases |s|
  {
    if s != [] {
      if StartsWith(s, pat) {
        ReplaceAllSplits(s[|pat|..], pat, rep);
        var pieces := SplitOn(s[|pat|..], pat);
        assert ([[]] + pieces)[1..] == pieces;
        AppendEmpty(rep);
      } else {
        ReplaceAllSplits(s[1..], pat, rep);
        JoinCons(s[0], SplitOn(s[1..], pat), rep);
      }
    }
  }

  /** Replacing each occurrence by the pattern itself gives the string back. */
  lemma {:induction false} ReplaceAllSelf(s: string, pat: string)
    requires pat != []
    ensures ReplaceAll(s, pat, pat) == s
    decreases |s|
  {
    if s != [] {
      if StartsWith(s, pat) {
        ReplaceAllSelf(s[|pat|..], pat);
        TakeDrop(s, |pat|);
      } else {
        ReplaceAllSelf(s[1..], pat);
        ConsAppend(s, []);
      }
    }
  }

  /** The pieces joined with the pattern are the string: nothing outside the
      occurrences is lost or changed. */
  lemma SplitOnJoin(s: string, pat: string)
    requires pat != []
    ensures Join(SplitOn(s, pat), pat) == s
  {
    ReplaceAllSplits(s, pat, pat);
    ReplaceAllSelf(s, pat);
  }

  /** One piece more than there are occurrences replaced. */
  lemma {:induction false} SplitOnCount(s: string, pat: string)
    requires pat != []
    ensures |SplitOn(s, pat)| == Matches(s, pat) + 1
    decreases |s|
  {
    if s != [] {
      if StartsWith(s, pat) {
        SplitOnCount(s[|pat|..], pat);
      } else {
        SplitOnCount(s[1..], pat);
      }
    }
  }

  lemma Distribute(m: int, d: int)
    ensures (1 + m) * d == d + m * d
  {
  }

  /** Each occurrence replaced changes the length by the difference of the two texts. */
  lemma {:induction false} ReplaceAllLength(s: string, pat: string, rep: string)
    requires pat != []
    ensures |ReplaceAll(s, pat, rep)| == |s| + Matches(s, pat) * (|rep| - |pat|)
    decreases |s|
  {
    if s != [] {
      if StartsWith(s, pat) {
        var rest := s[|pat|..];
        var n, d := Matches(rest, pat), |rep| - |pat|;
        ReplaceAllLength(rest, pat, rep);
        assert |ReplaceAll(s, pat, rep)| == |rep| + |ReplaceAll(rest, pat, rep)|;
        assert Matches(s, pat) == 1 + n;
        assert |rest| == |s| - |pat|;
        Distribute(n, d);
      } else {
        ReplaceAllLength(s[1..], pat, rep);
        assert |ReplaceAll(s, pat, rep)| == 1 + |ReplaceAll(s[1..], pat, rep)|;
        assert Matches(s, pat) == Matches(s[1..], pat);
      }
    }
  }

  /** The replacement joins the pieces between occurrences with `rep`, where
      joining them with `pat` gives `s` back. */
  lemma ReplaceAllPieces(s: string, pat: string, rep: string)
    requires pat != []
    ensures ReplaceAll(s, pat, rep) == Join(SplitOn(s, pat), rep)
    ensures Join(SplitOn(s, pat), pat) == s
    ensures |SplitOn(s, pat)| == Matches(s, pat) + 1
    ensures |ReplaceAll(s, pat, rep)| == |s| + Matches(s, pat) * (|rep| - |pat|)
  {
    ReplaceAllSplits(s, pat, rep);
    SplitOnJoin(s, pat);
    SplitOnCount(s, pat);
    ReplaceAllLength(s, pat, rep);
  }

  /** A string where the pattern does not occur is left as it is. */
  lemma {:induction false} ReplaceAllNoMatch(s: string, pat: string, rep: string)
    requires pat != []
    requires forall i :: !OccursAt(s, i, pat)
    ensures ReplaceAll(s, pat, rep) == s
    decreases |s|
  {
    if s != [] {
      assert !OccursAt(s, 0, pat);
      forall i ensures !OccursAt(s[1..], i, pat) {
        if i >= 0 {
          OccursTail(s, i + 1, pat);
        }
      }
      ReplaceAllNoMatch(s[1..], pat, rep);
      ConsAppend(s, []);
    }
  }

  /** An occurrence past the end of `u` is an occurrence in what follows `u`. */
  lemma OccursShift(u: string, x: string, i: int, t: string)
    requires i >= |u|
    ensures OccursAt(u + x, i, t) <==> OccursAt(x, i - |u|, t)
  {
    if i + |t| <= |u + x| {
      assert (u + x)[i..i + |t|] == x[i - |u|..i - |u| + |t|];
    }
  }

  /** A scan's output can begin with text free of the replacement's first character
      only where the input begins with that text. */
  lemma {:induction false} ReplacedPrefix(t: string, pat: string, rep: string, w: string)
    requires pat != [] && rep != [] && rep[0] !in w
    requires StartsWith(ReplaceAll(t, pat, rep), w)
    ensures StartsWith(t, w)
    decreases |t|
  {
    if w != [] && t != [] {
      var r := ReplaceAll(t, pat, rep);
      assert r[0] == w[0] by {
        assert r[..|w|] == w;
      }
      if StartsWith(t, pat) {
        assert false;
      } else {
        var r' := ReplaceAll(t[1..], pat, rep);
        assert r == [t[0]] + r';
        assert r'[..|w| - 1] == r[1..|w|] == w[1..];
        ReplacedPrefix(t[1..], pat, rep, w[1..]);
        assert t[..|w|] == [t[0]] + t[1..][..|w| - 1];
      }
    }
  }

  // ----- Code-block decoration -----

  /** The opening tag the highlight callback gives every code block. */
  const PreOpen: string := "<pre class=\"hljs\">"

  /** `<span class="dot KIND"></span>`. */
  function Dot(kind: string): string {
    "<span class=\"dot " + kind + "\"></span>"
  }

  /** `<div class="CLS">INNER</div>`. */
  function Div(cls: string, inner: string): string {
    "<div class=\"" + cls + "\">" + inner + "</div>"
  }

  /** The title bar: three dots, `close`, `minimize` and `maximize`, in that order. */
  function TitleBar(): string {
    Div("macos-title-bar", Div("macos-dots", Dot("close") + Dot("minimize") + Dot("maximize")))
  }

  /** What each `<pre class="hljs">` becomes: the block keeps the `hljs` class, gains
      `macos-code-block`, and is followed by the title bar. */
  function DecoratedOpen(): string {
    "<pre class=\"hljs" + " macos-code-block\">" + TitleBar()
  }

  /** The decoration: every exact `<pre class="hljs">` replaced. */
  function Decorate(html: string): string {
    ReplaceAll(html, PreOpen, DecoratedOpen())
  }

  /** No `<` directly followed by `p`: nowhere could `<pre` start. */
  predicate NoPreStart(w: string) {
    forall i :: 0 <= i < |w| - 1 ==> !(w[i] == '<' && w[i + 1] == 'p')
  }

  lemma NoPreStartAppend(a: string, b: string)
    requires NoPreStart(a) && NoPreStart(b)
    requires a == [] || b == [] || a[|a| - 1] != '<' || b[0] != 'p'
    ensures NoPreStart(a + b)
  {
    forall i | 0 <= i < |a + b| - 1
      ensures !((a + b)[i] == '<' && (a + b)[i + 1] == 'p')
    {
      if i + 1 < |a| {
        assert (a + b)[i] == a[i] && (a + b)[i + 1] == a[i + 1];
      } else if i >= |a| {
        assert (a + b)[i] == b[i - |a|] && (a + b)[i + 1] == b[i - |a| + 1];
      }
    }
  }

  /** A `<pre class="hljs">` starting inside `w` past its first character needs a `<`
      directly followed by `p` inside `w`. */
  lemma NoPreInside(w: string, t: string, i: int)
    requires w != [] && NoPreStart(w[1..]) && w[|w| - 1] != '<'
    requires 0 < i < |w|
    ensures !OccursAt(w + t, i, PreOpen)
  {
    assert w[i] == w[1..][i - 1];
    if i + 1 < |w| {
      assert w[i + 1] == w[1..][i];
    }
    assert PreOpen[0] == '<' && PreOpen[1] == 'p';
  }

  /** A `<pre class="hljs">` starting at the beginning of `w` needs the closing quote
      at index 16. */
  lemma NoPreAtStart(w: string, t: string)
    requires |w| > 16 && w[16] != '"'
    ensures !OccursAt(w + t, 0, PreOpen)
  {
    assert |PreOpen| == 18 && PreOpen[16] == '"';
    assert (w + t)[16] == w[16];
  }

  lemma DotNoPreStart(kind: string)
    requires NoPreStart(kind) && kind != [] && kind[|kind| - 1] != '<'
    ensures NoPreStart(Dot(kind))
  {
    NoPreStartAppend("<span class=\"dot ", kind);
    NoPreStartAppend("<span class=\"dot " + kind, "\"></span>");
  }

  lemma DivNoPreStart(cls: string, inner: string)
    requires NoPreStart(cls) && cls != [] && cls[|cls| - 1] != '<'
    requires NoPreStart(inner)
    ensures NoPreStart(Div(cls, inner))
    ensures Div(cls, inner)[|Div(cls, inner)| - 1] == '>'
  {
    NoPreStartAppend("<div class=\"", cls);
    NoPreStartAppend("<div class=\"" + cls, "\">");
    NoPreStartAppend("<div class=\"" + cls + "\">", inner);
    NoPreStartAppend("<div class=\"" + cls + "\">" + inner, "</div>");
  }

  lemma TitleBarNoPreStart()
    ensures NoPreStart(TitleBar()) && TitleBar() != [] && TitleBar()[0] == '<'
    ensures TitleBar()[|TitleBar()| - 1] == '>'
  {
    DotNoPreStart("close");
    DotNoPreStart("minimize");
    DotNoPreStart("maximize");
    var dots := Dot("close") + Dot("minimize") + Dot("maximize");
    NoPreStartAppend(Dot("close"), Dot("minimize"));
    NoPreStartAppend(Dot("close") + Dot("minimize"), Dot("maximize"));
    DivNoPreStart("macos-dots", dots);
    DivNoPreStart("macos-title-bar", Div("macos-dots", dots));
  }

  lemma DecoratedOpenStart()
    ensures |DecoratedOpen()| > 16 && DecoratedOpen()[16] == ' ' && DecoratedOpen()[0] == '<'
  {
    var a, b := "<pre class=\"hljs", " macos-code-block\">";
    assert |a| == 16;
    assert DecoratedOpen()[16] == b[0];
  }

  lemma DecoratedOpenRest()
    ensures NoPreStart(DecoratedOpen()[1..]) && DecoratedOpen()[|DecoratedOpen()| - 1] == '>'
  {
    var a, b, bar := "<pre class=\"hljs", " macos-code-block\">", TitleBar();
    TitleBarNoPreStart();
    NoPreStartAppend(a[1..] + b, bar);
    TailOfAppend(a + b, bar);
    TailOfAppend(a, b);
  }

  /** No `<pre class="hljs">` starts inside the decorated opening, whatever follows it. */
  lemma DecoratedHasNoPre(t: string, i: int)
    requires 0 <= i < |DecoratedOpen()|
    ensures !OccursAt(DecoratedOpen() + t, i, PreOpen)
  {
    DecoratedOpenStart();
    DecoratedOpenRest();
    if i == 0 {
      NoPreAtStart(DecoratedOpen(), t);
    } else {
      NoPreInside(DecoratedOpen(), t, i);
    }
  }

  /** A pattern at the start of `[c] + rest` puts its tail at the start of `rest`. */
  lemma OccursAtConsTail(c: char, rest: string, t: string)
    requires t != [] && OccursAt([c] + rest, 0, t)
    ensures |rest| >= |t| - 1 && rest[..|t| - 1] == t[1..]
  {
    assert ([c] + rest)[..|t|][1..] == rest[..|t| - 1];
  }

  /** After decoration no `<pre class="hljs">` is left anywhere. */
  lemma {:induction false} NoPreOpenRemains(html: string, i: int)
    ensures !OccursAt(Decorate(html), i, PreOpen)
    decreases |html|
  {
    var w := DecoratedOpen();
    if html != [] {
      if StartsWith(html, PreOpen) {
        var rest := Decorate(html[|PreOpen|..]);
        assert Decorate(html) == w + rest;
        if 0 <= i < |w| {
          DecoratedHasNoPre(rest, i);
        } else if i >= |w| {
          NoPreOpenRemains(html[|PreOpen|..], i - |w|);
          OccursShift(w, rest, i, PreOpen);
        }
      } else {
        var rest := Decorate(html[1..]);
        assert Decorate(html) == [html[0]] + rest;
        if i >= 1 {
          NoPreOpenRemains(html[1..], i - 1);
          OccursShift([html[0]], rest, i, PreOpen);
        } else if i == 0 && OccursAt(Decorate(html), 0, PreOpen) {
          var tail := PreOpen[1..];
          assert '<' !in tail;
          DecoratedOpenStart();
          OccursAtConsTail(html[0], rest, PreOpen);
          ReplacedPrefix(html[1..], PreOpen, w, tail);
          assert false;
        }
      }
    }
  }

  /** Decorating twice is decorating once. */
  lemma DecorateIdempotent(html: string)
    ensures Decorate(Decorate(html)) == Decorate(html)
  {
    forall i ensures !OccursAt(Decorate(html), i, PreOpen) {
      NoPreOpenRemains(html, i);
    }
    ReplaceAllNoMatch(Decorate(html), PreOpen, DecoratedOpen());
  }

  /** Decoration keeps every piece between two code-block openings verbatim, the
      `<code>` contents included, and inserts one title bar per opening. */
  lemma DecorateKeepsText(html: string)
    ensures Decorate(html) == Join(SplitOn(html, PreOpen), DecoratedOpen())
    ensures Join(SplitOn(html, PreOpen), PreOpen) == html
    ensures |SplitOn(html, PreOpen)| == Matches(html, PreOpen) + 1
    ensures |Decorate(html)| == |html| + Matches(html, PreOpen) * (|DecoratedOpen()| - |PreOpen|)
  {
    ReplaceAllPieces(html, PreOpen, DecoratedOpen());
  }

  // ----- The code blocks markdown-it emits -----

  /** The block the `highlight` option returns around the code's HTML. */
  function CodeBlock(body: string): string {
    PreOpen + "<code>" + body + "</code></pre>"
  }

  /** markdown-it's `utils.escapeHtml` on one character: `&`, `<`, `>` and `"` become
      entities, every other character stays. */
  function EscapeChar(c: char): string {
    if c == '&' then "&amp;"
    else if c == '<' then "&lt;"
    else if c == '>' then "&gt;"
    else if c == '"' then "&quot;"
    else [c]
  }

  /** markdown-it's `utils.escapeHtml`: the escaped text holds no `<`, `>` or `"`. */
  function EscapeHtml(s: string): (r: string)
    ensures forall i :: 0 <= i < |r| ==> r[i] != '<' && r[i] != '>' && r[i] != '"'
    ensures |r| >= |s|
    decreases |s|
  {
    if s == [] then [] else EscapeChar(s[0]) + EscapeHtml(s[1..])
  }

  /** Text with none of the four special characters is its own escape. */
  lemma {:induction false} EscapePlain(s: string)
    requires forall i :: 0 <= i < |s| ==> s[i] != '&' && s[i] != '<' && s[i] != '>' && s[i] != '"'
    ensures EscapeHtml(s) == s
    decreases |s|
  {
    if s != [] {
      EscapePlain(s[1..]);
      assert [s[0]] + s[1..] == s;
    }
  }

  /** The code's HTML inside a block: the highlighter's output when the language is
      named, known and highlighting succeeds, else the escaped code. `known` stands for
      `hljs.getLanguage` and `highlight` for `hljs.highlight(str, {language: lang}).value`
      (None where it throws). */
  function HighlightedCode(str: string, lang: string, known: string -> bool,
                           highlight: (string, string) -> Option<string>): string
  {
    if lang != [] && known(lang) && highlight(str, lang).Some? then highlight(str, lang).value
    else EscapeHtml(str)
  }

  /** The `highlight` option: the code's HTML between `<pre class="hljs"><code>` and
      `</code></pre>`. */
  function HighlightBlock(str: string, lang: string, known: string -> bool,
                          highlight: (string, string) -> Option<string>): (block: string)
    ensures StartsWith(block, PreOpen + "<code>")
    ensures |block| >= |PreOpen| + 19 && block[|block| - 13..] == "</code></pre>"
  {
    var body := HighlightedCode(str, lang, known, highlight);
    StartsWithAppend(PreOpen + "<code>", body + "</code></pre>");
    CodeBlock(body)
  }

  /** What decoration makes of a highlight block: one title bar and the code's HTML
      verbatim. Escaped code always qualifies; highlighted code does when its HTML has
      no `<p`. */
  lemma HighlightDecorated(str: string, lang: string, known: string -> bool,
                           highlight: (string, string) -> Option<string>)
    ensures lang != [] && known(lang) && highlight(str, lang).Some? && NoPreStart(highlight(str, lang).value) ==>
      Decorate(HighlightBlock(str, lang, known, highlight))
        == DecoratedOpen() + "<code>" + highlight(str, lang).value + "</code></pre>"
    ensures lang == [] || !known(lang) || highlight(str, lang).None? ==>
      Decorate(HighlightBlock(str, lang, known, highlight))
        == DecoratedOpen() + "<code>" + EscapeHtml(str) + "</code></pre>"
  {
    var body := HighlightedCode(str, lang, known, highlight);
    if lang == [] || !known(lang) || highlight(str, lang).None? {
      assert body == EscapeHtml(str);
      DecorateCodeBlock(body);
    } else if NoPreStart(body) {
      DecorateCodeBlock(body);
    }
  }

  lemma NoPreStartNoPre(w: string, i: int)
    requires NoPreStart(w)
    ensures !OccursAt(w, i, PreOpen)
  {
    if 0 <= i && i + |PreOpen| <= |w| {
      assert w[i] == w[i..i + |PreOpen|][0] && w[i + 1] == w[i..i + |PreOpen|][1];
    }
  }

  /** A pattern followed by text where it does not occur is replaced once. */
  lemma ReplaceAllHead(pat: string, rest: string, rep: string)
    requires pat != []
    requires forall i :: !OccursAt(rest, i, pat)
    ensures ReplaceAll(pat + rest, pat, rep) == rep + rest
  {
    ReplaceAllNoMatch(rest, pat, rep);
    DropAppend(pat, rest);
    StartsWithAppend(pat, rest);
  }

  /** A code block whose HTML has no `<p` gets exactly one title bar and keeps its code. */
  lemma DecorateCodeBlock(body: string)
    requires NoPreStart(body)
    ensures Decorate(CodeBlock(body)) == DecoratedOpen() + "<code>" + body + "</code></pre>"
  {
    var rest := "<code>" + body + "</code></pre>";
    NoPreStartAppend("<code>", body);
    NoPreStartAppend("<code>" + body, "</code></pre>");
    forall i ensures !OccursAt(rest, i, PreOpen) {
      NoPreStartNoPre(rest, i);
    }
    ReplaceAllHead(PreOpen, rest, DecoratedOpen());
    assert CodeBlock(body) == PreOpen + rest;
  }

  // ----- Heading icons -----

  const H2Open: string := "<h2>"
  const H2Close: string := "</h2>"
  const Pin: string := "\U{1F4CC}"

  /** The icon map, an object literal with four own keys. */
  const HeadingIcons: Entries := [
    ("功能特性", "\U{1F4CB}"),
    ("代码示例", "\U{1F4BB}"),
    ("响应式设计", "\U{1F4F1}"),
    ("主题切换", "\U{1F3A8}")]

  /** The icon for a trimmed heading: its own entry in the map, or the pin. */
  function HeadingIcon(key: string): string {
    Var(HeadingIcons, key, Pin)
  }

  lemma HeadingIconChoice(key: string)
    ensures key == "功能特性" ==> HeadingIcon(key) == "\U{1F4CB}"
    ensures key == "代码示例" ==> HeadingIcon(key) == "\U{1F4BB}"
    ensures key == "响应式设计" ==> HeadingIcon(key) == "\U{1F4F1}"
    ensures key == "主题切换" ==> HeadingIcon(key) == "\U{1F3A8}"
    ensures HeadingIcon(key) == Pin <==> key !in Keys(HeadingIcons)
  {
    assert Keys(HeadingIcons) == ["功能特性", "代码示例", "响应式设计", "主题切换"];
    GetFound(HeadingIcons, key);
  }

  /** The names a plain object inherits from `Object.prototype`. */
  const ObjectPrototypeMembers: seq<string> := [
    "constructor", "__defineGetter__", "__defineSetter__", "hasOwnProperty",
    "__lookupGetter__", "__lookupSetter__", "isPrototypeOf", "propertyIsEnumerable",
    "toString", "valueOf", "__proto__", "toLocaleString"]

  /** `headingIcons[key] || '📌'` on the plain object as written: an inherited member is
      found as well, it is truthy (a function, or the prototype itself for `__proto__`),
      and the template prints `inherited(key)`, its string form. */
  function HeadingIconAsWritten(key: string, inherited: string -> string): string {
    if key in Keys(HeadingIcons) then HeadingIcon(key)
    else if key in ObjectPrototypeMembers then inherited(key)
    else Pin
  }

  /** Own keys and all other names agree with the map lookup; a heading named
      `constructor` gets the source text of `Object` as its icon. */
  lemma HeadingIconAsWrittenDiffers(key: string, inherited: string -> string)
    requires inherited("constructor") == ObjectSource
    ensures key !in ObjectPrototypeMembers ==> HeadingIconAsWritten(key, inherited) == HeadingIcon(key)
    ensures HeadingIconAsWritten("constructor", inherited) != HeadingIcon("constructor")
  {
    HeadingIconChoice(key);
    HeadingIconChoice("constructor");
    assert "constructor" !in Keys(HeadingIcons) by {
      assert Keys(HeadingIcons) == ["功能特性", "代码示例", "响应式设计", "主题切换"];
    }
    assert ObjectSource[0] != Pin[0];
  }

  /** The lookup as written, as a function of the trimmed heading. */
  function IconAsWritten(inherited: string -> string): string -> string {
    key => HeadingIconAsWritten(key, inherited)
  }

  /** The string form of the `Object` constructor. */
  const ObjectSource: string := "function Object() " + "{ [native code] }"

  /** The characters the regex `.` does not match: ECMAScript's line terminators. */
  predicate IsLineTerminator(c: char) {
    c == '\n' || c == '\r' || c == '\U{2028}' || c == '\U{2029}'
  }

  /** Where the lazy `(.*?)<\/h2>` stops in the text after an opening `<h2>`: it tries
      `</h2>` at each index in turn and gives up at a line terminator or the end. */
  function LazyClose(t: string): (r: Option<nat>)
    ensures r.Some? ==> OccursAt(t, r.value, H2Close)
  {
    if StartsWith(t, H2Close) then Some(0)
    else if t == [] || IsLineTerminator(t[0]) then None
    else match LazyClose(t[1..]) case None => None case Some(j) => Some(j + 1)
  }

  /** Nothing before index `j` stops or blocks the lazy match. */
  ghost predicate OpenBefore(t: string, j: int) {
    j <= |t| && forall k :: 0 <= k < j ==> !IsLineTerminator(t[k]) && !OccursAt(t, k, H2Close)
  }

  lemma OccursTail(t: string, i: int, x: string)
    requires t != [] && i >= 1
    ensures OccursAt(t, i, x) <==> OccursAt(t[1..], i - 1, x)
  {
    if i + |x| <= |t| {
      SliceOfSlice(t, 1, |t|, i - 1, i - 1 + |x|);
    }
  }

  lemma OpenBeforeTail(t: string, j: int)
    requires t != [] && !IsLineTerminator(t[0]) && !OccursAt(t, 0, H2Close) && j >= 1
    ensures OpenBefore(t, j) <==> OpenBefore(t[1..], j - 1)
  {
    if OpenBefore(t, j) {
      forall k | 0 <= k < j - 1
        ensures !IsLineTerminator(t[1..][k]) && !OccursAt(t[1..], k, H2Close)
      {
        OccursTail(t, k + 1, H2Close);
      }
    }
    if OpenBefore(t[1..], j - 1) {
      forall k | 0 <= k < j ensures !IsLineTerminator(t[k]) && !OccursAt(t, k, H2Close) {
        if k > 0 {
          OccursTail(t, k, H2Close);
          assert t[k] == t[1..][k - 1];
        }
      }
    }
  }

  /** The lazy match ends at `j` exactly when `</h2>` is there and nothing before it
      stops or blocks the match. */
  lemma {:induction false} LazyCloseIff(t: string, j: nat)
    ensures LazyClose(t) == Some(j) <==> OccursAt(t, j, H2Close) && OpenBefore(t, j)
    decreases |t|
  {
    if StartsWith(t, H2Close) {
      assert OccursAt(t, 0, H2Close);
    } else if t == [] || IsLineTerminator(t[0]) {
      assert !OccursAt(t, 0, H2Close);
    } else if j > 0 {
      assert !OccursAt(t, 0, H2Close);
      LazyCloseIff(t[1..], j - 1);
      OccursTail(t, j, H2Close);
      OpenBeforeTail(t, j);
    }
  }

  /** A heading text the regex takes whole: no line terminator, no `</h2>`. */
  ghost predicate HeadingText(t: string) {
    forall k :: 0 <= k < |t| ==> !IsLineTerminator(t[k]) && !OccursAt(t, k, H2Close)
  }

  /** `<h2>T</h2>` rendered with the icon `icon` gives its trimmed text, and `T` verbatim. */
  function IconHeading(text: string, icon: string -> string): string {
    H2Open + "<span class=\"heading-icon\">" + icon(Trim(text)) + "</span>" + text + H2Close
  }

  /** `html.replace(/<h2>(.*?)<\/h2>/g, …)`: scanning left to right, each bare `<h2>`
      with a lazy match gets its icon from `icon` and the scan resumes after the `</h2>`. */
  function AddHeadingIcons(html: string, icon: string -> string): string
    decreases |html|
  {
    if html == [] then []
    else if StartsWith(html, H2Open) && LazyClose(html[4..]).Some? then
      var j := LazyClose(html[4..]).value;
      IconHeading(html[4..4 + j], icon) + AddHeadingIcons(html[4 + j + 5..], icon)
    else [html[0]] + AddHeadingIcons(html[1..], icon)
  }

  /** `</h2>` never overlaps itself, so in `t + "</h2>"` the first one after a heading
      text is the appended one. */
  lemma HeadingTextCloses(t: string, rest: string)
    requires HeadingText(t)
    ensures OpenBefore(t + H2Close + rest, |t|)
  {
    var after := t + H2Close + rest;
    forall k | 0 <= k < |t|
      ensures !IsLineTerminator(after[k]) && !OccursAt(after, k, H2Close)
    {
      assert after[k] == t[k];
      if k + |H2Close| <= |t| {
        assert after[k..k + |H2Close|] == t[k..k + |H2Close|];
      } else {
        assert after[k..k + |H2Close|][|t| - k] == after[|t|] == '<';
      }
    }
  }

  lemma AddHeadingIconsAt(html: string, j: nat, icon: string -> string)
    requires StartsWith(html, H2Open) && LazyClose(html[4..]) == Some(j)
    ensures AddHeadingIcons(html, icon) == IconHeading(html[4..4 + j], icon) + AddHeadingIcons(html[4 + j + 5..], icon)
  {
  }

  /** A bare `<h2>T</h2>` with a heading text is replaced whole, and the scan
      goes on after it. */
  lemma HeadingRewritten(t: string, rest: string, icon: string -> string)
    requires HeadingText(t)
    ensures AddHeadingIcons(H2Open + t + H2Close + rest, icon) == IconHeading(t, icon) + AddHeadingIcons(rest, icon)
  {
    var html := H2Open + t + H2Close + rest;
    HeadingSlices(t, rest);
    HeadingTextCloses(t, rest);
    LazyCloseIff(html[4..], |t|);
    AddHeadingIconsAt(html, |t|, icon);
  }

  lemma HeadingSlices(t: string, rest: string)
    ensures var html := H2Open + t + H2Close + rest;
      && StartsWith(html, H2Open) && html[4..] == t + H2Close + rest
      && html[4..4 + |t|] == t && html[4 + |t| + 5..] == rest
      && OccursAt(t + H2Close + rest, |t|, H2Close)
  {
    var after := t + H2Close + rest;
    assert H2Open + t + H2Close + rest == H2Open + after;
    DropAppend(H2Open, after);
    StartsWithAppend(H2Open, after);
    assert after[|t|..|t| + |H2Close|] == H2Close;
  }

  /** A line break before any `</h2>` leaves the lazy match without an end. */
  lemma {:induction false} LineBreakUnclosed(t: string, c: char, rest: string)
    requires HeadingText(t) && IsLineTerminator(c)
    ensures LazyClose(t + [c] + rest) == None
    decreases |t|
  {
    var after := t + [c] + rest;
    assert after[|t|] == c;
    assert !StartsWith(after, H2Close) by {
      if |t| < |H2Close| <= |after| {
        assert after[..|H2Close|][|t|] == c;
      } else if |H2Close| <= |t| {
        assert after[..|H2Close|] == t[..|H2Close|];
        assert !OccursAt(t, 0, H2Close);
      }
    }
    if t != [] {
      assert !IsLineTerminator(t[0]) && after[0] == t[0];
      assert HeadingText(t[1..]) by {
        forall k | 0 <= k < |t[1..]|
          ensures !IsLineTerminator(t[1..][k]) && !OccursAt(t[1..], k, H2Close)
        {
          OccursTail(t, k + 1, H2Close);
        }
      }
      LineBreakUnclosed(t[1..], c, rest);
      assert after[1..] == t[1..] + [c] + rest;
    }
  }

  /** A line break inside a heading stops the match at that `<h2>`: it is kept as it is. */
  lemma LineBreakBlocks(t: string, c: char, rest: string, icon: string -> string)
    requires HeadingText(t) && IsLineTerminator(c)
    ensures AddHeadingIcons(H2Open + t + [c] + rest, icon) == [H2Open[0]] + AddHeadingIcons((H2Open + t + [c] + rest)[1..], icon)
  {
    LineBreakUnclosed(t, c, rest);
    assert (H2Open + t + [c] + rest)[4..] == t + [c] + rest;
  }

  /** Text where no `<h2>` starts keeps its characters, and the scan goes on after it. */
  lemma {:induction false} NoHeadingKept(u: string, v: string, icon: string -> string)
    requires forall i :: 0 <= i < |u| ==> !OccursAt(u + v, i, H2Open)
    ensures AddHeadingIcons(u + v, icon) == u + AddHeadingIcons(v, icon)
    decreases |u|
  {
    if u != [] {
      assert !OccursAt(u + v, 0, H2Open);
      var w := u + v;
      assert w[1..] == u[1..] + v;
      forall i | 0 <= i < |u[1..]| ensures !OccursAt(u[1..] + v, i, H2Open) {
        OccursShift([u[0]], u[1..] + v, i + 1, H2Open);
        assert [u[0]] + (u[1..] + v) == w;
      }
      assert !StartsWith(w, H2Open) by {
        assert !OccursAt(w, 0, H2Open);
      }
      assert AddHeadingIcons(w, icon) == [w[0]] + AddHeadingIcons(w[1..], icon);
      NoHeadingKept(u[1..], v, icon);
      ConsAppend(u, AddHeadingIcons(v, icon));
    } else {
      assert u + v == v;
    }
  }

  /** A document without `<h2>` comes out as it went in. */
  lemma NoHeadingUnchanged(html: string, icon: string -> string)
    requires forall i :: !OccursAt(html, i, H2Open)
    ensures AddHeadingIcons(html, icon) == html
  {
    assert html + [] == html;
    NoHeadingKept(html, [], icon);
    assert AddHeadingIcons([], icon) == [];
  }

  /** A document that is one heading with a trimmed heading text gets that text's icon. */
  lemma SingleHeading(t: string, icon: string -> string)
    requires HeadingText(t) && IsTrimmed(t)
    ensures AddHeadingIcons(H2Open + t + H2Close, icon)
      == H2Open + "<span class=\"heading-icon\">" + icon(t) + "</span>" + t + H2Close
  {
    TrimTrimmed(t);
    HeadingRewritten(t, [], icon);
    assert H2Open + t + H2Close + [] == H2Open + t + H2Close;
    assert AddHeadingIcons([], icon) == [];
  }

  /** The trimmed heading text inherited from `Object.prototype` that shows the lookup. */
  const ConstructorKey: string := "constructor"

  /** `<h2>constructor</h2>` as written gets the source text of `Object` as its icon;
      the own-key lookup gives it the pin. */
  lemma ConstructorHeading(inherited: string -> string)
    requires inherited(ConstructorKey) == ObjectSource
    ensures AddHeadingIcons(H2Open + ConstructorKey + H2Close, IconAsWritten(inherited))
      == H2Open + "<span class=\"heading-icon\">" + ObjectSource + "</span>" + ConstructorKey + H2Close
    ensures AddHeadingIcons(H2Open + ConstructorKey + H2Close, HeadingIcon)
      == H2Open + "<span class=\"heading-icon\">" + Pin + "</span>" + ConstructorKey + H2Close
  {
    var t := ConstructorKey;
    assert HeadingText(t) by {
      forall k | 0 <= k < |t| ensures !IsLineTerminator(t[k]) && !OccursAt(t, k, H2Close) {
        assert t[k] != '<';
      }
    }
    assert IsTrimmed(t);
    HeadingIconAsWrittenDiffers(t, inherited);
    HeadingIconChoice(t);
    assert HeadingIconAsWritten(t, inherited) == ObjectSource by {
      assert t in ObjectPrototypeMembers;
      assert t !in Keys(HeadingIcons) by {
        assert Keys(HeadingIcons) == ["功能特性", "代码示例", "响应式设计", "主题切换"];
      }
    }
    SingleHeading(t, IconAsWritten(inherited));
    SingleHeading(t, HeadingIcon);
  }

  // ----- The parser -----

  /** `MarkdownParser`: holds the configured markdown-it instance, given here as its
      `render` (whose fenced code blocks come from `HighlightBlock`). */
  class MarkdownParser {
    const render: string -> string

    constructor(render: string -> string)
      ensures this.render == render
    {
      this.render := render;
    }

    /** `parse`. */
    method Parse(content: string) returns (html: string)
      ensures html == render(content)
    {
      html := render(content);
    }

    /** `parseWithCodeStyle`: render, decorate the code blocks, then add heading icons
        with the lookup as written; `inherited` gives the string form of the members a
        plain object inherits. */
    method ParseWithCodeStyle(content: string, inherited: string -> string) returns (html: string)
      ensures html == AddHeadingIcons(Decorate(render(content)), IconAsWritten(inherited))
    {
      html := Parse(content);
      html := Decorate(html);
      html := AddHeadingIcons(html, IconAsWritten(inherited));
    }
  }
}
