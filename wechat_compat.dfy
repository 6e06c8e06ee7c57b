/**
 * The document-level stages of the WeChat compatibility pass:
 * `sanitizeInlineStyles`, which filters the `style` attribute of every element
 * in place; `checkWechatCompatibility`, which reports forbidden tags and
 * properties off the allow-list; and `processWechatCompatibility`, which
 * inlines the CSS, renames the tags and sanitizes.
 *
 * A parsed document is the list `querySelectorAll('*')` returns: every element
 * in document order, each with its tag name and its `style` attribute if it has
 * one.
 */
module WechatCompat {
  import opened Wrappers
  import opened Strings
  import opened WechatStyles
  import opened WechatTags

  /** One element of a parsed document: `element.tagName` and `element.getAttribute('style')`
      (`None` when `hasAttribute('style')` is false). */
  datatype Element = Element(tagName: string, style: Option<string>)

  // ----- sanitizeInlineStyles -----

  /** What `sanitizeInlineStyles` makes of one element: a `style` attribute is replaced by its
      filtered text, kept even when that is empty; an element without one is left alone. */
  function SanitizedElement(e: Element): Element {
    match e.style
    case None => e
    case Some(originalStyle) => Element(e.tagName, Some(FilteredStyle(originalStyle)))
  }

  /** The elements after `sanitizeInlineStyles`. */
  function Sanitized(doc: seq<Element>): seq<Element> {
    seq(|doc|, i requires 0 <= i < |doc| => SanitizedElement(doc[i]))
  }

  /** The document once the loop has handled its first `i` elements. */
  function SanitizedUpTo(doc: seq<Element>, i: nat): seq<Element>
    requires i <= |doc|
  {
    Sanitized(doc[..i]) + doc[i..]
  }

  /** Each turn of the loop sanitizes one more element where it stands. */
  lemma SanitizedUpToStep(doc: seq<Element>, i: nat)
    requires i < |doc|
    ensures SanitizedUpTo(doc, i + 1) == SanitizedUpTo(doc, i)[i := SanitizedElement(doc[i])]
  {
    assert doc[..i + 1][..i] == doc[..i];
  }

  lemma SanitizedUpToEnds(doc: seq<Element>)
    ensures SanitizedUpTo(doc, 0) == doc && SanitizedUpTo(doc, |doc|) == Sanitized(doc)
  {
    assert doc[..|doc|] == doc;
  }

  /** The loop of `sanitizeInlineStyles` over the parsed elements, updating each in place. */
  method SanitizeInlineStyles(doc: array<Element>)
    modifies doc
    ensures doc[..] == Sanitized(old(doc[..]))
  {
    ghost var original := doc[..];
    SanitizedUpToEnds(original);
    for i := 0 to doc.Length
      invariant doc[..] == SanitizedUpTo(original, i)
    {
      var element := doc[i];
      assert element == original[i];
      SanitizedUpToStep(original, i);
      match element.style
      case Some(originalStyle) =>
        var filteredStyle := FilterCssProperties(originalStyle);
        doc[i] := Element(element.tagName, Some(filteredStyle));
      case None =>
    }
  }

  /** Sanitizing keeps every tag name and which elements carry a `style` attribute,
      and replaces each `style` by its filtered text. */
  lemma SanitizeKeepsShape(doc: seq<Element>)
    ensures |Sanitized(doc)| == |doc|
    ensures forall i :: 0 <= i < |doc| ==>
      Sanitized(doc)[i].tagName == doc[i].tagName && (Sanitized(doc)[i].style.Some? <==> doc[i].style.Some?)
    ensures forall i :: 0 <= i < |doc| && doc[i].style.Some? ==>
      Sanitized(doc)[i].style == Some(FilteredStyle(doc[i].style.value))
    ensures forall i :: 0 <= i < |doc| && doc[i].style.None? ==> Sanitized(doc)[i] == doc[i]
  {
  }

  /** Sanitizing a sanitized document changes nothing. */
  lemma SanitizeIdempotent(doc: seq<Element>)
    ensures Sanitized(Sanitized(doc)) == Sanitized(doc)
  {
    forall i | 0 <= i < |doc|
      ensures Sanitized(Sanitized(doc))[i] == Sanitized(doc)[i]
    {
      if doc[i].style.Some? {
        FilterIdempotent(doc[i].style.value);
      }
    }
  }

  // ----- checkWechatCompatibility -----

  /** The tags the editor refuses. */
  const ForbiddenTags: seq<string> := ["script", "iframe", "object", "embed", "form"]

  /** One entry of `issues`. */
  datatype Issue =
    | UnsupportedTag(tag: string)            // `不支持的标签: ${tagName}`
    | UnsupportedProperty(property: string)  // `不支持的 CSS 属性: ${property}`

  /** The text the source pushes for an issue. */
  function Message(issue: Issue): string {
    match issue
    case UnsupportedTag(tag) => "不支持的标签: " + tag
    case UnsupportedProperty(property) => "不支持的 CSS 属性: " + property
  }

  /** The issue of the first loop for one element: its lower-cased tag name when forbidden. */
  function TagIssue(e: Element): Option<Issue> {
    var tagName := ToLowerAscii(e.tagName);
    if tagName in ForbiddenTags then Some(UnsupportedTag(tagName)) else None
  }

  /** The issue for one rule of a style: its trimmed property when non-empty and not
      allow-listed. A rule without `:` is all property. */
  function RuleIssue(rule: string): Option<Issue> {
    var property := RuleProperty(rule);
    if property != [] && !Allowed(property) then Some(UnsupportedProperty(property)) else None
  }

  /** The issues of the second loop for one element. */
  function StyleIssues(e: Element): seq<Issue> {
    match e.style
    case None => []
    case Some(style) => FilterMap(RuleIssue, StyleRules(style))
  }

  /** The tag issues of a document, in document order. */
  function TagIssues(doc: seq<Element>): seq<Issue> {
    FilterMap(TagIssue, doc)
  }

  /** The property issues of a document, element by element and rule by rule. */
  function PropertyIssues(doc: seq<Element>): seq<Issue> {
    FlatMap(StyleIssues, doc)
  }

  /** Everything `checkWechatCompatibility` reports: the tag issues, then the property issues. */
  function Issues(doc: seq<Element>): seq<Issue> {
    TagIssues(doc) + PropertyIssues(doc)
  }

  lemma ConcatAssoc(a: seq<Issue>, b: seq<Issue>, c: seq<Issue>)
    ensures a + b + c == a + (b + c)
  {
  }

  /** `checkWechatCompatibility` over the parsed elements: one loop for the tags, then one for
      the styles with an inner loop over the rules. */
  method CheckWechatCompatibility(doc: seq<Element>) returns (isValid: bool, issues: seq<Issue>)
    ensures issues == Issues(doc)
    ensures isValid <==> issues == []
  {
    issues := [];
    for i := 0 to |doc|
      invariant issues == TagIssues(doc[..i])
    {
      var tagName := ToLowerAscii(doc[i].tagName);
      FilterMapStep(TagIssue, doc, i);
      if tagName in ForbiddenTags {
        issues := issues + [UnsupportedTag(tagName)];
      }
    }
    assert doc[..|doc|] == doc;
    ghost var tagIssues := issues;
    for i := 0 to |doc|
      invariant issues == tagIssues + PropertyIssues(doc[..i])
    {
      FlatMapStep(StyleIssues, doc, i);
      ghost var before := issues;
      match doc[i].style
      case Some(style) =>
        var styleRules := StyleRules(style);
        for j := 0 to |styleRules|
          invariant issues == before + FilterMap(RuleIssue, styleRules[..j])
        {
          var property := RuleProperty(styleRules[j]);
          FilterMapStep(RuleIssue, styleRules, j);
          if property != [] && !Allowed(property) {
            ConcatAssoc(before, FilterMap(RuleIssue, styleRules[..j]), [UnsupportedProperty(property)]);
            issues := issues + [UnsupportedProperty(property)];
          } else {
            assert FilterMap(RuleIssue, styleRules[..j]) + [] == FilterMap(RuleIssue, styleRules[..j]);
          }
        }
        assert styleRules[..|styleRules|] == styleRules;
        ConcatAssoc(tagIssues, PropertyIssues(doc[..i]), StyleIssues(doc[i]));
      case None =>
        assert PropertyIssues(doc[..i]) + [] == PropertyIssues(doc[..i]);
    }
    assert doc[..|doc|] == doc;
    isValid := |issues| == 0;
  }

  /** A style has no issues exactly when each of its rules names no property or an allowed one. */
  lemma StyleIssuesEmpty(e: Element)
    requires e.style.Some?
    ensures StyleIssues(e) == [] <==>
      forall r :: r in StyleRules(e.style.value) ==> RuleProperty(r) == [] || Allowed(RuleProperty(r))
  {
    var rules := StyleRules(e.style.value);
    FilterMapEmpty(RuleIssue, rules);
    assert forall r :: r in rules <==> exists i :: 0 <= i < |rules| && rules[i] == r;
  }

  /** A document is valid exactly when no element has a forbidden tag and no rule of any
      `style` names a property off the allow-list. */
  lemma ValidIff(doc: seq<Element>)
    ensures Issues(doc) == [] <==>
      (forall i :: 0 <= i < |doc| ==> ToLowerAscii(doc[i].tagName) !in ForbiddenTags)
      && (forall i, r :: 0 <= i < |doc| && doc[i].style.Some? && r in StyleRules(doc[i].style.value) ==>
            RuleProperty(r) == [] || Allowed(RuleProperty(r)))
  {
    FilterMapEmpty(TagIssue, doc);
    FlatMapEmpty(StyleIssues, doc);
    forall i | 0 <= i < |doc| && doc[i].style.Some?
      ensures StyleIssues(doc[i]) == [] <==>
        forall r :: r in StyleRules(doc[i].style.value) ==> RuleProperty(r) == [] || Allowed(RuleProperty(r))
    {
      StyleIssuesEmpty(doc[i]);
    }
  }

  /** Each issue names a forbidden tag or a property off the allow-list, and all the tag
      issues come before all the property issues. */
  lemma IssuesReport(doc: seq<Element>)
    ensures forall k :: 0 <= k < |TagIssues(doc)| ==>
      Issues(doc)[k].UnsupportedTag? && Issues(doc)[k].tag in ForbiddenTags
    ensures forall k :: |TagIssues(doc)| <= k < |Issues(doc)| ==>
      Issues(doc)[k].UnsupportedProperty? && Issues(doc)[k].property != [] && !Allowed(Issues(doc)[k].property)
  {
    forall k | 0 <= k < |TagIssues(doc)|
      ensures Issues(doc)[k].UnsupportedTag? && Issues(doc)[k].tag in ForbiddenTags
    {
      FilterMapValues(TagIssue, doc, k);
    }
    forall k | 0 <= k < |PropertyIssues(doc)|
      ensures PropertyIssues(doc)[k].UnsupportedProperty? && PropertyIssues(doc)[k].property != []
           && !Allowed(PropertyIssues(doc)[k].property)
    {
      PropertyIssueReports(doc, k);
    }
  }

  lemma PropertyIssueReports(doc: seq<Element>, k: nat)
    requires k < |PropertyIssues(doc)|
    ensures PropertyIssues(doc)[k].UnsupportedProperty? && PropertyIssues(doc)[k].property != []
         && !Allowed(PropertyIssues(doc)[k].property)
  {
    FlatMapValues(StyleIssues, doc, k);
    var i, j :| 0 <= i < |doc| && 0 <= j < |StyleIssues(doc[i])| && StyleIssues(doc[i])[j] == PropertyIssues(doc)[k];
    FilterMapValues(RuleIssue, StyleRules(doc[i].style.value), j);
  }

  /** The validator and the sanitizer agree: a sanitized document has no property issue. */
  lemma SanitizedHasNoPropertyIssues(doc: seq<Element>)
    ensures PropertyIssues(Sanitized(doc)) == []
  {
    var clean := Sanitized(doc);
    forall i | 0 <= i < |clean|
      ensures StyleIssues(clean[i]) == []
    {
      if doc[i].style.Some? {
        FilteredPropertiesAllowed(doc[i].style.value);
        StyleIssuesEmpty(clean[i]);
      }
    }
    FlatMapEmpty(StyleIssues, clean);
  }

  /** After sanitizing, exactly the tag issues of the input remain. */
  lemma SanitizedIssues(doc: seq<Element>)
    ensures Issues(Sanitized(doc)) == TagIssues(doc)
  {
    SanitizedHasNoPropertyIssues(doc);
    FilterMapSame(doc, Sanitized(doc));
  }

  lemma {:induction false} FilterMapSame(xs: seq<Element>, ys: seq<Element>)
    requires |xs| == |ys| && forall i :: 0 <= i < |xs| ==> xs[i].tagName == ys[i].tagName
    ensures TagIssues(ys) == TagIssues(xs)
  {
    if xs != [] {
      FilterMapSame(xs[1..], ys[1..]);
    }
  }

  // ----- processWechatCompatibility -----

  /** What `processWechatCompatibility(html, css)` leaves, as parsed elements: the inliner's
      output with its tags renamed, parsed, and sanitized. */
  function Processed(inline: (string, string) -> string, parse: string -> seq<Element>, html: string, css: string)
    : seq<Element>
  {
    Sanitized(parse(TagsTransformed(inline(html, css))))
  }

  /** `processWechatCompatibility`: inline the CSS (`juice.inlineContent`, here `inline`), rename
      the tags, then sanitize the parsed elements. */
  method ProcessWechatCompatibility(inline: (string, string) -> string, parse: string -> seq<Element>,
                                    html: string, css: string)
    returns (sanitized: seq<Element>)
    ensures sanitized == Processed(inline, parse, html, css)
  {
    var inlinedHtml := inline(html, css);
    var transformedHtml := TransformTags(inlinedHtml);
    var elements := parse(transformedHtml);
    var doc := new Element[|elements|](i requires 0 <= i < |elements| => elements[i]);
    assert doc[..] == elements;
    SanitizeInlineStyles(doc);
    sanitized := doc[..];
  }

  /** Whatever the inliner returns, the processed document has no property issue, and its only
      issues are the forbidden tags of the renamed document. */
  lemma ProcessedPassesStyleCheck(inline: (string, string) -> string, parse: string -> seq<Element>,
                                  html: string, css: string)
    ensures PropertyIssues(Processed(inline, parse, html, css)) == []
    ensures Issues(Processed(inline, parse, html, css)) == TagIssues(parse(TagsTransformed(inline(html, css))))
  {
    var doc := parse(TagsTransformed(inline(html, css)));
    SanitizedHasNoPropertyIssues(doc);
    SanitizedIssues(doc);
    assert Processed(inline, parse, html, css) == Sanitized(doc);
  }
}
