/**
 * `transformTags`: for each entry of TAG_MAPPING, one global case-insensitive
 * replace of open tags `<from(\s[^>]*)?>` by `<to$1>`, then one of close tags
 * `</from>` by `</to>`.
 *
 * A regex replace scans left to right: where the pattern matches, the match is
 * replaced and scanning resumes after it; elsewhere one character is copied.
 * Every match begins with `<` and ends at the first `>` after it.
 */
module WechatTags {
  import opened Wrappers
  import opened Strings

  /** TAG_MAPPING, in the order `Object.entries` lists it. */
  const TagMapping: seq<(string, string)> :=
    [("article", "section"), ("main", "section"), ("nav", "section"), ("aside", "section")]

  /** One global `replace` of `transformTags`. */
  datatype Pass =
    | OpenTag(from: string, to: string)   // `<from(\s[^>]*)?>` with flags `gi`, replaced by `<to$1>`
    | CloseTag(from: string, to: string)  // `</from>` with flags `gi`, replaced by `</to>`

  /** The passes the loop of `transformTags` runs for `mapping`, in order. */
  function Passes(mapping: seq<(string, string)>): (ps: seq<Pass>)
    ensures |ps| == 2 * |mapping|
  {
    if mapping == [] then []
    else
      var (fromTag, toTag) := mapping[|mapping| - 1];
      Passes(mapping[..|mapping| - 1]) + [OpenTag(fromTag, toTag), CloseTag(fromTag, toTag)]
  }

  /** The eight passes of TAG_MAPPING. */
  const TagPasses: seq<Pass> := [
    OpenTag("article", "section"), CloseTag("article", "section"),
    OpenTag("main", "section"), CloseTag("main", "section"),
    OpenTag("nav", "section"), CloseTag("nav", "section"),
    OpenTag("aside", "section"), CloseTag("aside", "section")
  ]

  lemma TagPassesOfMapping()
    ensures Passes(TagMapping) == TagPasses
  {
    var m := TagMapping;
    assert m[..1][..0] == [];
    assert Passes(m[..1]) == TagPasses[..2];
    assert m[..2][..1] == m[..1];
    assert Passes(m[..2]) == TagPasses[..4];
    assert m[..3][..2] == m[..2];
    assert Passes(m[..3]) == TagPasses[..6];
    assert m[..3] == m[..|m| - 1];
  }

  /** The index of the first `>` of `s` at or after `from`. */
  function FirstClose(s: string, from: nat): (k: Option<nat>)
    ensures k.Some? ==> from <= k.value < |s| && s[k.value] == '>'
    decreases |s| - from
  {
    if from >= |s| then None
    else if s[from] == '>' then Some(from)
    else FirstClose(s, from + 1)
  }

  /** `s` starts with `word` in any ASCII case. */
  predicate PrefixIgnoreCase(s: string, word: string)
  {
    if word == [] then true
    else s != [] && LowerAscii(s[0]) == word[0] && PrefixIgnoreCase(s[1..], word[1..])
  }

  /** The length of the match of `<from(\s[^>]*)?>` at the start of `s`, 0 when there is
      none: `<`, the tag name in any ASCII case, and then either `>` at once, or a whitespace
      character, everything up to the next `>`, and that `>`. */
  function OpenMatchLength(from: string, s: string): (n: nat)
    ensures n == 0 || (|from| + 2 <= n <= |s| && s[n - 1] == '>')
  {
    var j := 1 + |from|;
    if |s| > j && s[0] == '<' && PrefixIgnoreCase(s[1..], from) then
      if s[j] == '>' then j + 1
      else if IsWhitespace(s[j]) then
        match FirstClose(s, j + 1)
        case Some(k) => k + 1
        case None => 0
      else 0
    else 0
  }

  /** The length of the match of `</from>` at the start of `s`, 0 when there is none. */
  function CloseMatchLength(from: string, s: string): (n: nat)
    ensures n == 0 || (|from| + 2 <= n <= |s| && s[n - 1] == '>')
  {
    var n := |from| + 3;
    if |s| >= n && s[0] == '<' && s[1] == '/' && PrefixIgnoreCase(s[2..], from) && s[n - 1] == '>'
    then n
    else 0
  }

  /** The length of the match of `p`'s pattern at the start of `s`; 0 when it does not match
      there. */
  function MatchLength(p: Pass, s: string): (n: nat)
    ensures n == 0 || (|p.from| + 2 <= n <= |s| && s[n - 1] == '>')
  {
    match p
    case OpenTag(from, _) => OpenMatchLength(from, s)
    case CloseTag(from, _) => CloseMatchLength(from, s)
  }

  /** What a match of length `n` of `p` at the start of `s` is replaced by; the open tag keeps
      the attribute text `$1` (empty when the group did not take part). */
  function Replacement(p: Pass, s: string, n: nat): string
    requires |p.from| + 2 <= n <= |s|
  {
    match p
    case OpenTag(from, to) => "<" + to + s[1 + |from|..n - 1] + ">"
    case CloseTag(_, to) => "</" + to + ">"
  }

  /** `s.replace(pattern, replacement)` for the global pattern of `p`. */
  function ApplyPass(p: Pass, s: string): string
    decreases |s|
  {
    if s == [] then []
    else
      var n := MatchLength(p, s);
      if n > 0 then Replacement(p, s, n) + ApplyPass(p, s[n..])
      else [s[0]] + ApplyPass(p, s[1..])
  }

  /** Steps `f(p, _)` run one after the other, for the `p` of `ps` in order. */
  function RunAll<P>(f: (P, string) -> string, ps: seq<P>, s: string): string
  {
    if ps == [] then s else f(ps[|ps| - 1], RunAll(f, ps[..|ps| - 1], s))
  }

  lemma RunAllTwo<P>(f: (P, string) -> string, ps: seq<P>, a: P, b: P, s: string)
    ensures RunAll(f, ps + [a, b], s) == f(b, f(a, RunAll(f, ps, s)))
  {
    assert (ps + [a, b])[..|ps| + 1] == ps + [a];
    assert (ps + [a])[..|ps|] == ps;
  }

  /** The passes run one after the other, the first pass first. */
  function ApplyPasses(ps: seq<Pass>, s: string): string
  {
    RunAll(ApplyPass, ps, s)
  }

  /** What `transformTags(html)` returns. */
  function TagsTransformed(html: string): string {
    ApplyPasses(TagPasses, html)
  }

  lemma PassesPrefix(mapping: seq<(string, string)>, i: nat)
    requires i < |mapping|
    ensures Passes(mapping[..i + 1])
         == Passes(mapping[..i]) + [OpenTag(mapping[i].0, mapping[i].1), CloseTag(mapping[i].0, mapping[i].1)]
  {
    assert mapping[..i + 1][..i] == mapping[..i];
  }

  lemma ApplyPassesTwo(ps: seq<Pass>, a: Pass, b: Pass, s: string)
    ensures ApplyPasses(ps + [a, b], s) == ApplyPass(b, ApplyPass(a, ApplyPasses(ps, s)))
  {
    RunAllTwo(ApplyPass, ps, a, b, s);
  }

  /** `transformTags`: one open-tag and one close-tag replace per entry of TAG_MAPPING. */
  method TransformTags(html: string) returns (transformedHtml: string)
    ensures transformedHtml == TagsTransformed(html)
  {
    transformedHtml := html;
    for i := 0 to |TagMapping|
      invariant transformedHtml == ApplyPasses(Passes(TagMapping[..i]), html)
    {
      var (fromTag, toTag) := TagMapping[i];
      PassesPrefix(TagMapping, i);
      ApplyPassesTwo(Passes(TagMapping[..i]), OpenTag(fromTag, toTag), CloseTag(fromTag, toTag), html);
      transformedHtml := ApplyPass(OpenTag(fromTag, toTag), transformedHtml);
      transformedHtml := ApplyPass(CloseTag(fromTag, toTag), transformedHtml);
    }
    assert TagMapping[..|TagMapping|] == TagMapping;
    TagPassesOfMapping();
  }

  // ----- Where matches can start and end -----

  /** The tag names are lower-case ASCII words and the replacement names hold no angle bracket. */
  predicate ValidPass(p: Pass) {
    LowerWord(p.from) && '<' !in p.to && '>' !in p.to
  }

  predicate LowerWord(w: string) {
    w != [] && forall i :: 0 <= i < |w| ==> 'a' <= w[i] <= 'z'
  }

  predicate AllValid(ps: seq<Pass>) {
    forall i :: 0 <= i < |ps| ==> ValidPass(ps[i])
  }

  lemma TagNamesAreWords()
    ensures LowerWord("article") && LowerWord("main") && LowerWord("nav") && LowerWord("aside")
    ensures '<' !in "section" && '>' !in "section"
  {
    assert "article" == ['a', 'r', 't', 'i', 'c', 'l', 'e'];
    assert "aside" == ['a', 's', 'i', 'd', 'e'];
    assert "section" == ['s', 'e', 'c', 't', 'i', 'o', 'n'];
  }

  lemma TagPassesValid()
    ensures AllValid(TagPasses)
  {
    TagNamesAreWords();
  }

  /** A complete tag that holds no other angle bracket. */
  predicate IsTagUnit(u: string) {
    |u| >= 2 && u[0] == '<' && u[|u| - 1] == '>'
    && forall i :: 1 <= i < |u| - 1 ==> u[i] != '<' && u[i] != '>'
  }

  /** The pieces a string with well-separated tags is made of: a complete tag, or one
      character that does not open a tag. */
  predicate IsUnit(u: string) {
    IsTagUnit(u) || (|u| == 1 && u[0] != '<')
  }

  lemma TagUnitTail(u: string)
    requires IsTagUnit(u)
    ensures '<' !in u[1..]
  {
    forall i | 0 <= i < |u[1..]|
      ensures u[1..][i] != '<'
    {
      assert u[1..][i] == u[i + 1];
    }
  }

  /** The first `>` at or after `from` in a complete tag is its last character, whatever
      follows the tag. */
  lemma {:induction false} FirstCloseInTag(u: string, t: string, from: nat)
    requires IsTagUnit(u) && 1 <= from <= |u| - 1
    ensures FirstClose(u + t, from) == Some(|u| - 1)
    ensures FirstClose(u, from) == Some(|u| - 1)
    decreases |u| - from
  {
    if from < |u| - 1 {
      FirstCloseInTag(u, t, from + 1);
    }
  }

  /** Only the first `|word|` characters decide whether `word` is a prefix. */
  lemma {:induction false} PrefixIgnoreCaseAppend(a: string, b: string, word: string)
    requires |word| <= |a|
    ensures PrefixIgnoreCase(a + b, word) == PrefixIgnoreCase(a, word)
  {
    if word != [] {
      TailOfAppend(a, b);
      PrefixIgnoreCaseAppend(a[1..], b, word[1..]);
    }
  }

  /** A prefix match folds each character to the one of `word` at the same place. */
  lemma {:induction false} PrefixIgnoreCaseAt(s: string, word: string, k: nat)
    requires PrefixIgnoreCase(s, word) && k < |word|
    ensures k < |s| && LowerAscii(s[k]) == word[k]
  {
    if k > 0 {
      PrefixIgnoreCaseAt(s[1..], word[1..], k - 1);
    }
  }

  /** A string equal to `word` up to case starts every string it begins. */
  lemma {:induction false} PrefixIgnoreCaseOf(x: string, word: string, y: string)
    requires EqualsIgnoreCase(x, word)
    ensures PrefixIgnoreCase(x + y, word)
  {
    if x != [] {
      TailOfAppend(x, y);
      assert EqualsIgnoreCase(x[1..], word[1..]) by {
        forall i | 0 <= i < |x[1..]|
          ensures LowerAscii(x[1..][i]) == word[1..][i]
        {
          assert x[1..][i] == x[i + 1];
        }
      }
      PrefixIgnoreCaseOf(x[1..], word[1..], y);
    }
  }

  /** Whether a pass matches at the start of a complete tag is decided by the tag alone, and a
      match covers the whole tag. */
  lemma MatchInTag(p: Pass, u: string, t: string)
    requires ValidPass(p) && IsTagUnit(u)
    ensures MatchLength(p, u + t) == MatchLength(p, u)
    ensures MatchLength(p, u) == 0 || MatchLength(p, u) == |u|
  {
    var s := u + t;
    var m := |p.from|;
    TailOfAppend(u, t);
    assert s[0] == u[0] && s[1] == u[1];
    match p
    case OpenTag(from, _) =>
      var j := 1 + m;
      if j < |u| {
        PrefixIgnoreCaseAppend(u[1..], t, from);
        assert s[j] == u[j];
        if s[j] != '>' && IsWhitespace(s[j]) {
          FirstCloseInTag(u, t, j + 1);
        }
      } else if PrefixIgnoreCase(s[1..], from) {
        PrefixIgnoreCaseAt(s[1..], from, |u| - 2);
      }
    case CloseTag(from, _) =>
      var n := m + 3;
      DropOfAppend(u, t, 2);
      if n <= |u| {
        PrefixIgnoreCaseAppend(u[2..], t, from);
        assert s[n - 1] == u[n - 1];
      } else if |u| >= 3 && PrefixIgnoreCase(s[2..], from) {
        PrefixIgnoreCaseAt(s[2..], from, |u| - 3);
      }
  }

  // ----- A pass over well-separated pieces -----

  /** Where no match starts, a pass copies one character. */
  lemma PassCopies(p: Pass, s: string)
    requires s != [] && MatchLength(p, s) == 0
    ensures ApplyPass(p, s) == [s[0]] + ApplyPass(p, s[1..])
  {
  }

  /** No match starts at a character other than `<`. */
  lemma NoMatchOutsideTag(p: Pass, s: string)
    requires s != [] && s[0] != '<'
    ensures MatchLength(p, s) == 0
  {
  }

  /** Text that opens no tag passes through unchanged and does not affect what follows. */
  lemma {:induction false} PassText(p: Pass, w: string, t: string)
    requires '<' !in w
    ensures ApplyPass(p, w + t) == w + ApplyPass(p, t)
  {
    if w != [] {
      var s := w + t;
      assert s[0] == w[0];
      NoMatchOutsideTag(p, s);
      PassCopies(p, s);
      TailOfAppend(w, t);
      PassText(p, w[1..], t);
      ConsAppend(w, ApplyPass(p, t));
    } else {
      AppendEmpty(t);
    }
  }

  /** A character that opens no tag is kept. */
  lemma PassOnChar(p: Pass, c: char)
    requires c != '<'
    ensures ApplyPass(p, [c]) == [c]
  {
    assert [c][1..] == [];
  }

  /** Where a match starts, a pass writes its replacement and resumes after it. */
  lemma PassReplaces(p: Pass, s: string)
    requires MatchLength(p, s) > 0
    ensures ApplyPass(p, s) == Replacement(p, s, MatchLength(p, s)) + ApplyPass(p, s[MatchLength(p, s)..])
  {
  }

  /** The replacement depends only on the matched text. */
  lemma ReplacementOfAppend(p: Pass, u: string, t: string, n: nat)
    requires |p.from| + 2 <= n <= |u|
    ensures Replacement(p, u + t, n) == Replacement(p, u, n)
  {
    SliceOfAppend(u, t, 1 + |p.from|, n - 1);
  }

  /** A pass changes a complete tag into its replacement, or not at all. */
  lemma PassOnTag(p: Pass, u: string)
    requires ValidPass(p) && IsTagUnit(u)
    ensures MatchLength(p, u) == |u| ==> ApplyPass(p, u) == Replacement(p, u, |u|)
    ensures MatchLength(p, u) != |u| ==> ApplyPass(p, u) == u
  {
    MatchInTag(p, u, []);
    if MatchLength(p, u) == |u| {
      PassReplaces(p, u);
      assert u[|u|..] == [];
      AppendEmpty(Replacement(p, u, |u|));
    } else {
      PassCopies(p, u);
      TagUnitTail(u);
      PassText(p, u[1..], []);
      AppendEmpty(u[1..]);
      ConsAppend(u, []);
      AppendEmpty(u);
    }
  }

  lemma PassDistributesMatch(p: Pass, u: string, t: string)
    requires ValidPass(p) && IsTagUnit(u) && MatchLength(p, u) == |u|
    ensures ApplyPass(p, u + t) == ApplyPass(p, u) + ApplyPass(p, t)
  {
    MatchInTag(p, u, t);
    PassOnTag(p, u);
    PassReplaces(p, u + t);
    DropAppend(u, t);
    ReplacementOfAppend(p, u, t, |u|);
  }

  /** Where no match starts and no further tag opens, the text is copied as it stands. */
  lemma PassSkips(p: Pass, w: string, t: string)
    requires w != [] && '<' !in w[1..]
    requires ApplyPass(p, w + t) == [w[0]] + ApplyPass(p, (w + t)[1..])
    ensures ApplyPass(p, w + t) == w + ApplyPass(p, t)
  {
    TailOfAppend(w, t);
    PassText(p, w[1..], t);
    ConsAppend(w, ApplyPass(p, t));
  }

  lemma PassDistributesNoMatch(p: Pass, u: string, t: string)
    requires ValidPass(p) && IsTagUnit(u) && MatchLength(p, u) != |u|
    ensures ApplyPass(p, u + t) == ApplyPass(p, u) + ApplyPass(p, t)
  {
    MatchInTag(p, u, t);
    TagUnitTail(u);
    PassCopies(p, u + t);
    PassSkips(p, u, t);
    PassOnTag(p, u);
  }

  /** A pass treats a piece and what follows it separately. */
  lemma PassDistributes(p: Pass, u: string, t: string)
    requires ValidPass(p) && IsUnit(u)
    ensures ApplyPass(p, u + t) == ApplyPass(p, u) + ApplyPass(p, t)
  {
    if !IsTagUnit(u) {
      PassText(p, u, t);
      PassText(p, u, []);
      AppendEmpty(u);
    } else if MatchLength(p, u) == |u| {
      PassDistributesMatch(p, u, t);
    } else {
      PassDistributesNoMatch(p, u, t);
    }
  }

  /** Text without angle brackets between `<` and `>` is a complete tag. */
  lemma TagOf(a: string)
    requires '<' !in a && '>' !in a
    ensures IsTagUnit("<" + a + ">")
  {
    var u := "<" + a + ">";
    forall i | 1 <= i < |u| - 1
      ensures u[i] != '<' && u[i] != '>'
    {
      assert u[i] == a[i - 1];
    }
  }

  /** The inside of a complete tag holds no angle bracket. */
  lemma TagInside(u: string, i: nat, j: nat)
    requires IsTagUnit(u) && 1 <= i <= j <= |u| - 1
    ensures '<' !in u[i..j] && '>' !in u[i..j]
  {
    assert forall k :: 0 <= k < j - i ==> u[i..j][k] == u[i + k];
  }

  /** The replacement of a complete tag is again a complete tag. */
  lemma ReplacementIsTag(p: Pass, u: string)
    requires ValidPass(p) && IsTagUnit(u) && |p.from| + 2 <= |u|
    ensures IsTagUnit(Replacement(p, u, |u|))
  {
    match p
    case OpenTag(from, to) =>
      var attrs := u[1 + |from|..|u| - 1];
      TagInside(u, 1 + |from|, |u| - 1);
      TagOf(to + attrs);
      assert "<" + to + attrs + ">" == "<" + (to + attrs) + ">";
    case CloseTag(_, to) =>
      TagOf("/" + to);
      assert "</" + to + ">" == "<" + ("/" + to) + ">";
  }

  /** A pass leaves every piece a piece. */
  lemma PassKeepsUnit(p: Pass, u: string)
    requires ValidPass(p) && IsUnit(u)
    ensures IsUnit(ApplyPass(p, u))
  {
    if IsTagUnit(u) {
      PassOnTag(p, u);
      if MatchLength(p, u) == |u| {
        ReplacementIsTag(p, u);
      }
    } else {
      PassText(p, u, []);
      AppendEmpty(u);
    }
  }

  /** Text without `>` holds no match, so no pass changes it. */
  lemma {:induction false} PassWithoutClose(p: Pass, s: string)
    requires '>' !in s
    ensures ApplyPass(p, s) == s
  {
    if s != [] {
      assert MatchLength(p, s) == 0;
      assert '>' !in s[1..];
      PassWithoutClose(p, s[1..]);
      ConsAppend(s, []);
      AppendEmpty(s);
      AppendEmpty(s[1..]);
    }
  }

  // ----- All the passes -----

  /** Running a sequence of steps after another is running them together. */
  lemma {:induction false} RunAllAppend<P>(f: (P, string) -> string, ps: seq<P>, qs: seq<P>, s: string)
    ensures RunAll(f, ps + qs, s) == RunAll(f, qs, RunAll(f, ps, s))
  {
    if qs == [] {
      assert ps + qs == ps;
    } else {
      assert (ps + qs)[..|ps + qs| - 1] == ps + qs[..|qs| - 1];
      RunAllAppend(f, ps, qs[..|qs| - 1], s);
    }
  }

  lemma ApplyPassesLast(ps: seq<Pass>, s: string)
    requires ps != []
    ensures ApplyPasses(ps, s) == ApplyPass(ps[|ps| - 1], ApplyPasses(ps[..|ps| - 1], s))
  {
  }

  lemma ApplyPassesAppend(ps: seq<Pass>, qs: seq<Pass>, s: string)
    ensures ApplyPasses(ps + qs, s) == ApplyPasses(qs, ApplyPasses(ps, s))
  {
    RunAllAppend(ApplyPass, ps, qs, s);
  }

  lemma AllValidInit(ps: seq<Pass>)
    requires AllValid(ps) && ps != []
    ensures AllValid(ps[..|ps| - 1]) && ValidPass(ps[|ps| - 1])
  {
    assert forall i :: 0 <= i < |ps| - 1 ==> ps[..|ps| - 1][i] == ps[i];
  }

  /** The passes treat a piece and what follows it separately, and leave a piece a piece. */
  lemma {:induction false} PassesDistribute(ps: seq<Pass>, u: string, t: string)
    requires AllValid(ps) && IsUnit(u)
    ensures ApplyPasses(ps, u + t) == ApplyPasses(ps, u) + ApplyPasses(ps, t)
    ensures IsUnit(ApplyPasses(ps, u))
  {
    if ps != [] {
      var init, last := ps[..|ps| - 1], ps[|ps| - 1];
      AllValidInit(ps);
      PassesDistribute(init, u, t);
      PassDistributes(last, ApplyPasses(init, u), ApplyPasses(init, t));
      PassKeepsUnit(last, ApplyPasses(init, u));
      ApplyPassesLast(ps, u + t);
      ApplyPassesLast(ps, u);
      ApplyPassesLast(ps, t);
    }
  }

  /** Text that opens no tag is kept by all the passes, whatever follows it. */
  lemma {:induction false} PassesText(ps: seq<Pass>, w: string, t: string)
    requires '<' !in w
    ensures ApplyPasses(ps, w + t) == w + ApplyPasses(ps, t)
  {
    if ps != [] {
      var init, last := ps[..|ps| - 1], ps[|ps| - 1];
      PassesText(init, w, t);
      PassText(last, w, ApplyPasses(init, t));
      ApplyPassesLast(ps, w + t);
      ApplyPassesLast(ps, t);
    }
  }

  /** A character that opens no tag is kept by all the passes. */
  lemma {:induction false} PassesOnChar(ps: seq<Pass>, c: char)
    requires c != '<'
    ensures ApplyPasses(ps, [c]) == [c]
  {
    if ps != [] {
      PassesOnChar(ps[..|ps| - 1], c);
      PassOnChar(ps[|ps| - 1], c);
      ApplyPassesLast(ps, [c]);
    }
  }

  /** Text without `>` is kept by all the passes. */
  lemma {:induction false} PassesWithoutClose(ps: seq<Pass>, s: string)
    requires '>' !in s
    ensures ApplyPasses(ps, s) == s
  {
    if ps != [] {
      PassesWithoutClose(ps[..|ps| - 1], s);
      PassWithoutClose(ps[|ps| - 1], s);
      ApplyPassesLast(ps, s);
    }
  }

  // ----- Renamed tags stay renamed -----

  /** A pass of TAG_MAPPING's kind: it renames to `section`, and its name does not start with `s`. */
  predicate IntoSection(p: Pass) {
    ValidPass(p) && p.to == "section" && p.from[0] != 's'
  }

  predicate AllIntoSection(ps: seq<Pass>) {
    forall i :: 0 <= i < |ps| ==> IntoSection(ps[i])
  }

  lemma AllIntoSectionInit(ps: seq<Pass>)
    requires AllIntoSection(ps) && ps != []
    ensures AllIntoSection(ps[..|ps| - 1]) && IntoSection(ps[|ps| - 1])
  {
    assert forall i :: 0 <= i < |ps| - 1 ==> ps[..|ps| - 1][i] == ps[i];
  }

  lemma AllIntoSectionValid(ps: seq<Pass>)
    requires AllIntoSection(ps)
    ensures AllValid(ps)
  {
  }

  lemma TagPassesIntoSection()
    ensures AllIntoSection(TagPasses)
  {
    TagNamesAreWords();
  }

  /** A tag as the passes write it: `<s…>` or `</s…>`. */
  predicate Renamed(r: string) {
    IsTagUnit(r) && |r| >= 3 && (r[1] == 's' || (r[1] == '/' && r[2] == 's'))
  }

  /** No pass of TAG_MAPPING's kind matches a tag it could have written. */
  lemma RenamedNoMatch(p: Pass, r: string)
    requires IntoSection(p) && Renamed(r)
    ensures MatchLength(p, r) == 0
  {
    match p
    case OpenTag(from, _) =>
      if PrefixIgnoreCase(r[1..], from) {
        PrefixIgnoreCaseAt(r[1..], from, 0);
      }
    case CloseTag(from, _) =>
      if r[1] == '/' && PrefixIgnoreCase(r[2..], from) {
        PrefixIgnoreCaseAt(r[2..], from, 0);
      }
  }

  lemma RenamedStays(p: Pass, r: string)
    requires IntoSection(p) && Renamed(r)
    ensures ApplyPass(p, r) == r
  {
    RenamedNoMatch(p, r);
    PassOnTag(p, r);
  }

  lemma {:induction false} RenamedStaysAll(ps: seq<Pass>, r: string)
    requires AllIntoSection(ps) && Renamed(r)
    ensures ApplyPasses(ps, r) == r
  {
    if ps != [] {
      AllIntoSectionInit(ps);
      RenamedStaysAll(ps[..|ps| - 1], r);
      RenamedStays(ps[|ps| - 1], r);
      ApplyPassesLast(ps, r);
    }
  }

  /** What a pass of TAG_MAPPING's kind writes for a tag is a renamed tag. */
  lemma ReplacementRenamed(p: Pass, u: string)
    requires IntoSection(p) && IsTagUnit(u) && |p.from| + 2 <= |u|
    ensures Renamed(Replacement(p, u, |u|))
  {
    ReplacementIsTag(p, u);
    var r := Replacement(p, u, |u|);
    match p
    case OpenTag(from, to) =>
      assert r[1] == to[0];
    case CloseTag(_, to) =>
      assert r[1] == '/' && r[2] == to[0];
  }

  /** A pass of TAG_MAPPING's kind keeps a piece or renames it. */
  lemma PassFate(p: Pass, u: string)
    requires IntoSection(p) && IsUnit(u)
    ensures ApplyPass(p, u) == u || Renamed(ApplyPass(p, u))
  {
    if IsTagUnit(u) {
      PassOnTag(p, u);
      if MatchLength(p, u) == |u| {
        ReplacementRenamed(p, u);
      }
    } else {
      PassText(p, u, []);
      AppendEmpty(u);
    }
  }

  /** All the passes together keep a piece or rename it. */
  lemma {:induction false} UnitFate(ps: seq<Pass>, u: string)
    requires AllIntoSection(ps) && IsUnit(u)
    ensures ApplyPasses(ps, u) == u || Renamed(ApplyPasses(ps, u))
  {
    if ps != [] {
      var init, last := ps[..|ps| - 1], ps[|ps| - 1];
      AllIntoSectionInit(ps);
      UnitFate(init, u);
      ApplyPassesLast(ps, u);
      if ApplyPasses(init, u) == u {
        PassFate(last, u);
      } else {
        RenamedStays(last, ApplyPasses(init, u));
      }
    }
  }

  /** Running the passes twice over one piece is running them once. */
  lemma UnitIdempotent(ps: seq<Pass>, u: string)
    requires AllIntoSection(ps) && IsUnit(u)
    ensures ApplyPasses(ps, ApplyPasses(ps, u)) == ApplyPasses(ps, u)
  {
    UnitFate(ps, u);
    if ApplyPasses(ps, u) != u {
      RenamedStaysAll(ps, ApplyPasses(ps, u));
    }
  }

  // ----- Idempotence -----

  lemma {:induction false} FirstCloseShape(s: string, from: nat)
    ensures FirstClose(s, from).Some? ==> forall i :: from <= i < FirstClose(s, from).value ==> s[i] != '>'
    ensures FirstClose(s, from).None? ==> forall i :: from <= i < |s| ==> s[i] != '>'
    decreases |s| - from
  {
    if from < |s| && s[from] != '>' {
      FirstCloseShape(s, from + 1);
    }
  }

  /** Each `<` that some `>` follows is closed by the first such `>` before any other `<`
      opens: no tag is written inside another one. Text after the last `>` is free. */
  predicate TagsDoNotNest(s: string)
    decreases |s|
  {
    match FirstClose(s, 0)
    case None => true
    case Some(k) =>
      if s[0] != '<' then TagsDoNotNest(s[1..])
      else '<' !in s[1..k] && TagsDoNotNest(s[k + 1..])
  }

  /** A `<`, the text up to the first `>` when it holds no `<`, and that `>`, form a tag. */
  lemma TagUnitOfPrefix(s: string, k: nat)
    requires s != [] && s[0] == '<' && FirstClose(s, 0) == Some(k) && '<' !in s[1..k]
    ensures IsTagUnit(s[..k + 1])
  {
    FirstCloseShape(s, 0);
    var u := s[..k + 1];
    forall i | 1 <= i < |u| - 1
      ensures u[i] != '<' && u[i] != '>'
    {
      assert u[i] == s[1..k][i - 1];
    }
  }

  /** The first piece of a string whose tags do not nest, and the rest. */
  lemma FirstPiece(s: string, k: nat) returns (n: nat)
    requires TagsDoNotNest(s) && FirstClose(s, 0) == Some(k)
    ensures 1 <= n <= |s| && IsUnit(s[..n]) && TagsDoNotNest(s[n..])
  {
    if s[0] != '<' {
      n := 1;
    } else {
      n := k + 1;
      TagUnitOfPrefix(s, k);
    }
  }

  /** Running the passes of TAG_MAPPING's kind twice is running them once, on a string whose
      tags do not nest. */
  lemma {:induction false} PassesIdempotent(ps: seq<Pass>, s: string)
    requires AllIntoSection(ps) && TagsDoNotNest(s)
    ensures ApplyPasses(ps, ApplyPasses(ps, s)) == ApplyPasses(ps, s)
    decreases |s|
  {
    match FirstClose(s, 0)
    case None =>
      FirstCloseShape(s, 0);
      assert '>' !in s;
      PassesWithoutClose(ps, s);
    case Some(k) =>
      var n := FirstPiece(s, k);
      var u, rest := s[..n], s[n..];
      PassesIdempotent(ps, rest);
      TakeDrop(s, n);
      AllIntoSectionValid(ps);
      PassesDistribute(ps, u, rest);
      PassesDistribute(ps, ApplyPasses(ps, u), ApplyPasses(ps, rest));
      UnitIdempotent(ps, u);
  }

  /** `transformTags` is idempotent on HTML whose tags do not nest. */
  lemma TransformIdempotent(html: string)
    requires TagsDoNotNest(html)
    ensures TagsTransformed(TagsTransformed(html)) == TagsTransformed(html)
  {
    TagPassesIntoSection();
    PassesIdempotent(TagPasses, html);
  }

  /** `transformTags` works piece by piece: a tag (or a character outside tags) and what follows
      it are transformed separately. */
  lemma TransformDistributes(u: string, t: string)
    requires IsUnit(u)
    ensures TagsTransformed(u + t) == TagsTransformed(u) + TagsTransformed(t)
  {
    TagPassesValid();
    PassesDistribute(TagPasses, u, t);
  }

  /** `transformTags` keeps text that opens no tag. */
  lemma TransformKeepsText(w: string, t: string)
    requires '<' !in w
    ensures TagsTransformed(w + t) == w + TagsTransformed(t)
  {
    PassesText(TagPasses, w, t);
  }

  // ----- Which tags are renamed -----

  /** The passes of TAG_MAPPING: the open-tag pass of entry `i / 2` at even `i`, its
      close-tag pass at odd `i`. */
  lemma TagPassesOrder()
    ensures forall i :: 0 <= i < |TagPasses| ==>
      TagPasses[i].from == TagMapping[i / 2].0 && TagPasses[i].to == TagMapping[i / 2].1
      && (TagPasses[i].OpenTag? <==> i % 2 == 0)
  {
  }

  /** `<x attrs>`, with `x` the tag name in any ASCII case, is a tag the open-tag pass of that
      name matches whole; the replacement keeps the attribute text. */
  lemma OpenTagMatches(name: string, to: string, x: string, attrs: string)
    requires LowerWord(name) && EqualsIgnoreCase(x, name)
    requires attrs == [] || IsWhitespace(attrs[0])
    requires '<' !in attrs && '>' !in attrs
    ensures IsTagUnit("<" + x + attrs + ">")
    ensures MatchLength(OpenTag(name, to), "<" + x + attrs + ">") == |"<" + x + attrs + ">"|
    ensures Replacement(OpenTag(name, to), "<" + x + attrs + ">", |"<" + x + attrs + ">"|)
         == "<" + to + attrs + ">"
  {
    var u := "<" + x + attrs + ">";
    var j := 1 + |x|;
    forall i | 1 <= i < |u| - 1
      ensures u[i] != '<' && u[i] != '>'
    {
      if i < j {
        assert u[i] == x[i - 1];
        assert LowerAscii(x[i - 1]) == name[i - 1];
      } else {
        assert u[i] == attrs[i - j];
      }
    }
    assert u[1..] == x + (attrs + ">");
    PrefixIgnoreCaseOf(x, name, attrs + ">");
    if attrs != [] {
      assert u[j] == attrs[0];
      FirstCloseInTag(u, [], j + 1);
    }
    assert u[j..|u| - 1] == attrs;
  }

  /** `</x>`, with `x` the tag name in any ASCII case, is a tag the close-tag pass of that name
      matches whole. */
  lemma CloseTagMatches(name: string, to: string, x: string)
    requires LowerWord(name) && EqualsIgnoreCase(x, name)
    ensures IsTagUnit("</" + x + ">")
    ensures MatchLength(CloseTag(name, to), "</" + x + ">") == |"</" + x + ">"|
  {
    var u := "</" + x + ">";
    forall i | 1 <= i < |u| - 1
      ensures u[i] != '<' && u[i] != '>'
    {
      if i >= 2 {
        assert u[i] == x[i - 2];
        assert LowerAscii(x[i - 2]) == name[i - 2];
      }
    }
    assert u[2..] == x + ">";
    PrefixIgnoreCaseOf(x, name, ">");
  }

  /** No pass matches `<x…` for a name `x` that differs from its own at place `d`, and no
      close-tag pass matches it at all. */
  lemma OpenTagOtherPass(p: Pass, x: string, rest: string, name: string, d: nat)
    requires ValidPass(p) && LowerWord(name) && EqualsIgnoreCase(x, name)
    requires p.OpenTag? ==> d < |name| && d < |p.from| && name[d] != p.from[d]
    ensures MatchLength(p, "<" + x + rest) == 0
  {
    var s := "<" + x + rest;
    assert s[1] == x[0];
    assert LowerAscii(x[0]) == name[0];
    if p.OpenTag? && PrefixIgnoreCase(s[1..], p.from) {
      PrefixIgnoreCaseAt(s[1..], p.from, d);
    }
  }

  /** No pass matches `</x>` for a name `x` that differs from its own at place `d`, and no
      open-tag pass matches it at all. */
  lemma CloseTagOtherPass(p: Pass, x: string, name: string, d: nat)
    requires ValidPass(p) && LowerWord(name) && EqualsIgnoreCase(x, name)
    requires p.CloseTag? ==> d < |name| && d < |p.from| && name[d] != p.from[d]
    ensures MatchLength(p, "</" + x + ">") == 0
  {
    var s := "</" + x + ">";
    if p.CloseTag? && PrefixIgnoreCase(s[2..], p.from) {
      PrefixIgnoreCaseAt(s[2..], p.from, d);
    }
  }

  /** Passes that match no tag leave it as it is. */
  lemma {:induction false} NoPassMatches(ps: seq<Pass>, u: string)
    requires AllValid(ps) && IsTagUnit(u)
    requires forall i :: 0 <= i < |ps| ==> MatchLength(ps[i], u) == 0
    ensures ApplyPasses(ps, u) == u
  {
    if ps != [] {
      AllValidInit(ps);
      assert forall i :: 0 <= i < |ps| - 1 ==> ps[..|ps| - 1][i] == ps[i];
      NoPassMatches(ps[..|ps| - 1], u);
      PassOnTag(ps[|ps| - 1], u);
      ApplyPassesLast(ps, u);
    }
  }

  /** The first place where entries `i` and `k` of TAG_MAPPING differ in name. */
  function NameDifference(i: nat, k: nat): nat
    requires i < |TagMapping| && k < |TagMapping|
  {
    if TagMapping[i].0[0] == TagMapping[k].0[0] then 1 else 0
  }

  lemma NamesDiffer(i: nat, k: nat)
    requires i < |TagMapping| && k < |TagMapping| && i != k
    ensures NameDifference(i, k) < |TagMapping[i].0| && NameDifference(i, k) < |TagMapping[k].0|
    ensures TagMapping[i].0[NameDifference(i, k)] != TagMapping[k].0[NameDifference(i, k)]
  {
  }

  /** Passes that match no tag before one that renames it, and then any more: the tag ends
      up renamed. */
  lemma PassesAround(ps: seq<Pass>, m: nat, u: string, r: string)
    requires AllIntoSection(ps) && m < |ps|
    requires forall i :: 0 <= i < m ==> MatchLength(ps[i], u) == 0
    requires IsTagUnit(u) && ApplyPass(ps[m], u) == r && Renamed(r)
    ensures ApplyPasses(ps, u) == r
  {
    var before, after := ps[..m], ps[m + 1..];
    SplitAround(ps, m);
    assert AllIntoSection(before) && AllIntoSection(after);
    NoPassMatches(before, u);
    ApplyPassesAppend(before + [ps[m]], after, u);
    ApplyPassesLast(before + [ps[m]], u);
    RenamedStaysAll(after, r);
  }

  lemma TransformAround(m: nat, u: string, r: string)
    requires m < |TagPasses|
    requires forall i :: 0 <= i < m ==> MatchLength(TagPasses[i], u) == 0
    requires IsTagUnit(u) && ApplyPass(TagPasses[m], u) == r && Renamed(r)
    ensures TagsTransformed(u) == r
  {
    TagPassesIntoSection();
    PassesAround(TagPasses, m, u, r);
  }

  lemma SplitAround(ps: seq<Pass>, m: nat)
    requires m < |ps|
    ensures ps == (ps[..m] + [ps[m]]) + ps[m + 1..]
    ensures (ps[..m] + [ps[m]])[..m] == ps[..m] && (ps[..m] + [ps[m]])[m] == ps[m]
    ensures forall i :: 0 <= i < m ==> ps[..m][i] == ps[i]
    ensures forall i :: m + 1 <= i < |ps| ==> ps[m + 1..][i - m - 1] == ps[i]
  {
  }

  /** The passes of TAG_MAPPING before the open-tag pass of entry `k` do not match its tags. */
  lemma PassesBeforeOpen(k: nat, x: string, attrs: string)
    requires k < |TagMapping| && EqualsIgnoreCase(x, TagMapping[k].0)
    ensures forall i :: 0 <= i < 2 * k ==> MatchLength(TagPasses[i], "<" + x + attrs + ">") == 0
  {
    TagNamesAreWords();
    TagPassesOrder();
    TagPassesValid();
    assert "<" + x + (attrs + ">") == "<" + x + attrs + ">";
    forall i | 0 <= i < 2 * k
      ensures MatchLength(TagPasses[i], "<" + x + (attrs + ">")) == 0
    {
      NamesDiffer(i / 2, k);
      OpenTagOtherPass(TagPasses[i], x, attrs + ">", TagMapping[k].0, NameDifference(i / 2, k));
    }
  }

  /** The two passes of entry `k` of TAG_MAPPING. */
  lemma TagPassAt(k: nat)
    requires k < |TagMapping|
    ensures TagPasses[2 * k] == OpenTag(TagMapping[k].0, "section")
    ensures TagPasses[2 * k + 1] == CloseTag(TagMapping[k].0, "section")
    ensures IntoSection(OpenTag(TagMapping[k].0, "section")) && IntoSection(CloseTag(TagMapping[k].0, "section"))
  {
    TagPassesOrder();
    TagPassesIntoSection();
    assert IntoSection(TagPasses[2 * k]) && IntoSection(TagPasses[2 * k + 1]);
  }

  /** An open-tag pass of TAG_MAPPING's kind renames its tags to `section`. */
  lemma OpenPassRenames(name: string, x: string, attrs: string)
    requires IntoSection(OpenTag(name, "section")) && EqualsIgnoreCase(x, name)
    requires attrs == [] || IsWhitespace(attrs[0])
    requires '<' !in attrs && '>' !in attrs
    ensures IsTagUnit("<" + x + attrs + ">")
    ensures ApplyPass(OpenTag(name, "section"), "<" + x + attrs + ">") == "<section" + attrs + ">"
    ensures Renamed("<section" + attrs + ">")
  {
    var u := "<" + x + attrs + ">";
    var p := OpenTag(name, "section");
    OpenTagMatches(name, "section", x, attrs);
    PassOnTag(p, u);
    SectionTag(attrs);
    ReplacementRenamed(p, u);
  }

  lemma SectionTag(attrs: string)
    ensures "<" + "section" + attrs + ">" == "<section" + attrs + ">"
  {
  }

  /** The passes of TAG_MAPPING before the close-tag pass of entry `k` do not match its tags. */
  lemma PassesBeforeClose(k: nat, x: string)
    requires k < |TagMapping| && EqualsIgnoreCase(x, TagMapping[k].0)
    ensures forall i :: 0 <= i < 2 * k + 1 ==> MatchLength(TagPasses[i], "</" + x + ">") == 0
  {
    TagNamesAreWords();
    TagPassesOrder();
    TagPassesValid();
    forall i | 0 <= i < 2 * k + 1
      ensures MatchLength(TagPasses[i], "</" + x + ">") == 0
    {
      if i % 2 == 0 {
        CloseTagOtherPass(TagPasses[i], x, TagMapping[k].0, 0);
      } else {
        NamesDiffer(i / 2, k);
        CloseTagOtherPass(TagPasses[i], x, TagMapping[k].0, NameDifference(i / 2, k));
      }
    }
  }

  /** An open tag of a name in TAG_MAPPING, in any ASCII case and with or without attributes,
      becomes a `section` open tag with the same attributes. */
  lemma OpenTagRenamed(k: nat, x: string, attrs: string)
    requires k < |TagMapping| && EqualsIgnoreCase(x, TagMapping[k].0)
    requires attrs == [] || IsWhitespace(attrs[0])
    requires '<' !in attrs && '>' !in attrs
    ensures TagsTransformed("<" + x + attrs + ">") == "<section" + attrs + ">"
  {
    TagPassAt(k);
    PassesBeforeOpen(k, x, attrs);
    OpenPassRenames(TagMapping[k].0, x, attrs);
    TransformAround(2 * k, "<" + x + attrs + ">", "<section" + attrs + ">");
  }

  /** A close tag of a name in TAG_MAPPING, in any ASCII case, becomes `</section>`. */
  lemma CloseTagRenamed(k: nat, x: string)
    requires k < |TagMapping| && EqualsIgnoreCase(x, TagMapping[k].0)
    ensures TagsTransformed("</" + x + ">") == "</section>"
  {
    TagPassAt(k);
    PassesBeforeClose(k, x);
    ClosePassRenames(TagMapping[k].0, x);
    TransformAround(2 * k + 1, "</" + x + ">", "</section>");
  }

  /** A close-tag pass of TAG_MAPPING's kind renames its tags to `section`. */
  lemma ClosePassRenames(name: string, x: string)
    requires IntoSection(CloseTag(name, "section")) && EqualsIgnoreCase(x, name)
    ensures IsTagUnit("</" + x + ">")
    ensures ApplyPass(CloseTag(name, "section"), "</" + x + ">") == "</section>"
    ensures Renamed("</section>")
  {
    var u := "</" + x + ">";
    var p := CloseTag(name, "section");
    CloseTagMatches(name, "section", x);
    PassOnTag(p, u);
    ReplacementRenamed(p, u);
  }

  // ----- Which tags are kept -----

  /** The characters of `s` before its first whitespace character or `>`. */
  function NameAt(s: string): string
  {
    if s == [] || IsWhitespace(s[0]) || s[0] == '>' then [] else [s[0]] + NameAt(s[1..])
  }

  /** The name a tag starts with, `/` included for a close tag: what follows `<` up to
      whitespace or `>`. */
  function TagName(u: string): string
    requires u != []
  {
    NameAt(u[1..])
  }

  lemma ToLowerCons(c: char, z: string)
    ensures ToLowerAscii([c] + z) == [LowerAscii(c)] + ToLowerAscii(z)
  {
    assert ([c] + z)[1..] == z;
  }

  /** A word that starts `s` up to case and is followed by whitespace or `>` is the name there. */
  lemma {:induction false} NameAtPrefix(s: string, word: string)
    requires PrefixIgnoreCase(s, word) && forall i :: 0 <= i < |word| ==> 'a' <= word[i] <= 'z'
    requires |word| < |s| && (IsWhitespace(s[|word|]) || s[|word|] == '>')
    ensures ToLowerAscii(NameAt(s)) == word
  {
    if word != [] {
      assert s[1..][|word| - 1] == s[|word|];
      NameAtPrefix(s[1..], word[1..]);
      ToLowerCons(s[0], NameAt(s[1..]));
      assert [word[0]] + word[1..] == word;
    }
  }

  /** A pass that matches a tag whole has the tag's name, up to case. */
  lemma MatchedTagName(p: Pass, u: string)
    requires ValidPass(p) && IsTagUnit(u) && MatchLength(p, u) > 0
    ensures p.OpenTag? ==> ToLowerAscii(TagName(u)) == p.from
    ensures p.CloseTag? ==> ToLowerAscii(TagName(u)) == "/" + p.from
  {
    match p
    case OpenTag(from, _) =>
      assert u[1..][|from|] == u[1 + |from|];
      NameAtPrefix(u[1..], from);
    case CloseTag(from, _) =>
      assert u[1..][1..] == u[2..];
      assert u[2..][|from|] == u[|from| + 2];
      NameAtPrefix(u[2..], from);
      ToLowerCons('/', NameAt(u[2..]));
  }

  /** A tag whose name, up to case, is none of TAG_MAPPING's (open or close) is left as it is:
      `<header>`, `<articles>`, `<section>`, `<br/>`. */
  lemma OtherTagUntouched(u: string)
    requires IsTagUnit(u)
    requires forall k :: 0 <= k < |TagMapping| ==>
      ToLowerAscii(TagName(u)) != TagMapping[k].0 && ToLowerAscii(TagName(u)) != "/" + TagMapping[k].0
    ensures TagsTransformed(u) == u
  {
    TagPassesOrder();
    TagPassesValid();
    forall i | 0 <= i < |TagPasses|
      ensures MatchLength(TagPasses[i], u) == 0
    {
      MatchInTag(TagPasses[i], u, []);
      if MatchLength(TagPasses[i], u) > 0 {
        MatchedTagName(TagPasses[i], u);
      }
    }
    NoPassMatches(TagPasses, u);
  }

  // ----- Nested tags -----

  lemma FirstCloseAt(s: string, from: nat, k: nat)
    requires from <= k < |s| && s[k] == '>'
    requires forall i :: from <= i < k ==> s[i] != '>'
    ensures FirstClose(s, from) == Some(k)
    decreases k - from
  {
    if from < k {
      FirstCloseAt(s, from + 1, k);
    }
  }

  /** Text that starts like a tag the passes wrote (`<s…`) and opens no other tag is kept,
      whatever follows it. */
  lemma {:induction false} PassesSkipRenamedStart(ps: seq<Pass>, w: string, t: string)
    requires AllIntoSection(ps) && |w| >= 2 && w[0] == '<' && w[1] == 's' && '<' !in w[1..]
    ensures ApplyPasses(ps, w + t) == w + ApplyPasses(ps, t)
  {
    if ps != [] {
      var init, last := ps[..|ps| - 1], ps[|ps| - 1];
      AllIntoSectionInit(ps);
      PassesSkipRenamedStart(init, w, t);
      var s := w + ApplyPasses(init, t);
      assert s[0] == '<' && s[1] == 's';
      TailOfAppend(w, ApplyPasses(init, t));
      PassCopies(last, s);
      PassSkips(last, w, ApplyPasses(init, t));
      ApplyPassesLast(ps, w + t);
      ApplyPassesLast(ps, t);
    }
  }

  /** The pieces of `<x <v>` followed by `>`: where the name ends and the inner tag `v` lies. */
  lemma NestedShape(x: string, v: string)
    requires IsTagUnit(v)
    ensures ("<" + x + " " + v + ">")[1..] == x + (" " + v + ">")
    ensures ("<" + x + " " + v + ">")[1 + |x|] == ' '
    ensures forall i :: 2 + |x| <= i < 1 + |x| + |v| ==> ("<" + x + " " + v + ">")[i] != '>'
    ensures ("<" + x + " " + v + ">")[1 + |x| + |v|] == '>'
    ensures ("<" + x + " " + v + ">")[2 + |x| + |v|..] == ">"
    ensures ("<" + x + " " + v + ">")[1 + |x|..1 + |x| + |v|] == " " + v[..|v| - 1]
  {
    var s := "<" + x + " " + v + ">";
    forall i | 2 + |x| <= i < 1 + |x| + |v|
      ensures s[i] != '>'
    {
      assert s[i] == v[i - 2 - |x|];
    }
  }

  lemma NestedDrop(x: string, v: string)
    ensures ("<" + x + " " + v + ">")[2 + |x| + |v|..] == ">"
  {
  }

  lemma NestedResult(v: string)
    requires v != [] && v[|v| - 1] == '>'
    ensures "<" + "section" + (" " + v[..|v| - 1]) + ">" + ">" == "<section " + (v + ">")
  {
    assert v == v[..|v| - 1] + ">";
  }

  /** An open-tag pass matches a tag with another tag written inside it up to the inner tag's
      `>`. */
  lemma NestedMatch(name: string, x: string, v: string)
    requires IntoSection(OpenTag(name, "section")) && EqualsIgnoreCase(x, name) && IsTagUnit(v)
    ensures MatchLength(OpenTag(name, "section"), "<" + x + " " + v + ">") == 2 + |x| + |v|
    ensures Replacement(OpenTag(name, "section"), "<" + x + " " + v + ">", 2 + |x| + |v|)
         == "<" + "section" + (" " + v[..|v| - 1]) + ">"
  {
    var s := "<" + x + " " + v + ">";
    var j := 1 + |x|;
    NestedShape(x, v);
    PrefixIgnoreCaseOf(x, name, " " + v + ">");
    FirstCloseAt(s, j + 1, j + |v|);
  }

  /** So the open-tag pass leaves the inner tag as it is. */
  lemma NestedOpenPass(name: string, x: string, v: string)
    requires IntoSection(OpenTag(name, "section")) && EqualsIgnoreCase(x, name) && IsTagUnit(v)
    ensures ApplyPass(OpenTag(name, "section"), "<" + x + " " + v + ">") == "<section " + (v + ">")
  {
    var s := "<" + x + " " + v + ">";
    var p := OpenTag(name, "section");
    NestedMatch(name, x, v);
    NestedDrop(x, v);
    PassReplaces(p, s);
    PassOnChar(p, '>');
    NestedResult(v);
  }

  /** Passes that match neither `<s…` nor an inner tag `v` keep `<s… v>`. */
  lemma NestedRest(ps: seq<Pass>, w: string, v: string)
    requires AllIntoSection(ps) && IsTagUnit(v)
    requires |w| >= 2 && w[0] == '<' && w[1] == 's' && '<' !in w[1..]
    requires forall i :: 0 <= i < |ps| ==> MatchLength(ps[i], v) == 0
    ensures ApplyPasses(ps, w + (v + ">")) == w + (v + ">")
  {
    PassesSkipRenamedStart(ps, w, v + ">");
    AllIntoSectionValid(ps);
    NoPassMatches(ps, v);
    PassesDistribute(ps, v, ">");
    PassesOnChar(ps, '>');
  }

  /** The passes of TAG_MAPPING after the first do not match an `article` open tag. */
  lemma LaterPassesSkipArticle(x: string)
    requires EqualsIgnoreCase(x, "article")
    ensures forall i :: 0 <= i < |TagPasses[1..]| ==> MatchLength(TagPasses[1..][i], "<" + x + ">") == 0
  {
    TagNamesAreWords();
    TagPassesOrder();
    TagPassesValid();
    forall i | 0 <= i < |TagPasses[1..]|
      ensures MatchLength(TagPasses[1..][i], "<" + x + ">") == 0
    {
      assert TagPasses[1..][i] == TagPasses[i + 1];
      if (i + 1) % 2 == 0 {
        NamesDiffer((i + 1) / 2, 0);
        OpenTagOtherPass(TagPasses[i + 1], x, ">", "article", NameDifference((i + 1) / 2, 0));
      } else {
        OpenTagOtherPass(TagPasses[i + 1], x, ">", "article", 0);
      }
    }
  }

  lemma SplitFirst(ps: seq<Pass>)
    requires ps != []
    ensures ps == [ps[0]] + ps[1..] && [ps[0]][..0] == []
  {
  }

  /** A name equal to a lower-case word up to case, between `<` and `>`, is a complete tag. */
  lemma NameTag(x: string, name: string)
    requires LowerWord(name) && EqualsIgnoreCase(x, name)
    ensures IsTagUnit("<" + x + ">")
  {
    assert forall i :: 0 <= i < |x| ==> LowerAscii(x[i]) == name[i];
    TagOf(x);
  }

  lemma TagPassesTail()
    ensures AllIntoSection(TagPasses[1..])
  {
    TagPassesIntoSection();
    assert forall i :: 0 <= i < |TagPasses| - 1 ==> TagPasses[1..][i] == TagPasses[i + 1];
  }

  /** The first run of `transformTags` over `<x <x>>`, `x` being `article` in any case. */
  lemma NestedOnce(x: string, w: string)
    requires EqualsIgnoreCase(x, "article") && w == "<section "
    ensures TagsTransformed("<" + x + " " + ("<" + x + ">") + ">") == w + (("<" + x + ">") + ">")
  {
    var v := "<" + x + ">";
    var s := "<" + x + " " + v + ">";
    TagNamesAreWords();
    TagPassesIntoSection();
    NameTag(x, "article");
    NestedOpenPass("article", x, v);
    LaterPassesSkipArticle(x);
    TagPassesTail();
    NestedRest(TagPasses[1..], w, v);
    SplitFirst(TagPasses);
    ApplyPassesAppend([TagPasses[0]], TagPasses[1..], s);
    ApplyPassesLast([TagPasses[0]], s);
  }

  /** The second run renames the inner tag. */
  lemma NestedTwice(x: string, w: string)
    requires EqualsIgnoreCase(x, "article") && w == "<section "
    ensures TagsTransformed(w + (("<" + x + ">") + ">")) == w + ("<section>" + ">")
  {
    var v := "<" + x + ">";
    TagPassesIntoSection();
    TagNamesAreWords();
    NameTag(x, "article");
    assert "<" + x + [] + ">" == v;
    assert "<section" + [] + ">" == "<section>";
    PassesSkipRenamedStart(TagPasses, w, v + ">");
    TransformDistributes(v, ">");
    OpenTagRenamed(0, x, []);
    PassesOnChar(TagPasses, '>');
  }

  lemma NestedLiterals(x: string)
    ensures "<" + x + " <" + x + ">>" == "<" + x + " " + ("<" + x + ">") + ">"
    ensures "<section " + (("<" + x + ">") + ">") == "<section <" + x + ">>"
    ensures "<section " + ("<section>" + ">") == "<section <section>>"
  {
  }

  /** `transformTags` is not idempotent on nested tags: in `<article <article>>` the first run
      renames the outer tag only, the second run the inner one. */
  lemma NestedNotIdempotent(x: string)
    requires EqualsIgnoreCase(x, "article")
    ensures TagsTransformed("<" + x + " <" + x + ">>") == "<section <" + x + ">>"
    ensures TagsTransformed(TagsTransformed("<" + x + " <" + x + ">>")) == "<section <section>>"
  {
    NestedLiterals(x);
    NestedOnce(x, "<section ");
    NestedTwice(x, "<section ");
  }
}
