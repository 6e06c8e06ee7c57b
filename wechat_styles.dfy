/**
 * The CSS property allow-list of the WeChat editor and `filterCssProperties`,
 * which reduces an inline `style` string to the allow-listed declarations.
 *
 * A style string is split on `;`; blank rules are skipped; each rule is split
 * on `:` and its first two parts trimmed into a property and a value
 * (anything after a second `:` is lost); a rule is kept when both are
 * non-empty and the property is on the list; kept rules are set into a `Map`
 * in order (a repeated property keeps its first position and takes the last
 * value); the result is `property: value` pairs joined by `"; "`.
 */
module WechatStyles {
  import opened Wrappers
  import opened Strings
  import OrderedMap

  /** CSS_WHITELIST: the 39 properties the editor keeps. */
  const CssWhitelist: seq<string> := [
    "color", "font-size", "font-family", "font-weight", "text-align",
    "text-decoration", "line-height", "margin", "margin-top", "margin-right",
    "margin-bottom", "margin-left", "padding", "padding-top", "padding-right",
    "padding-bottom", "padding-left", "background-color", "border", "border-top",
    "border-right", "border-bottom", "border-left", "border-radius", "display",
    "width", "height", "max-width", "max-height", "min-width",
    "min-height", "overflow", "overflow-x", "overflow-y", "white-space",
    "word-break", "word-wrap", "letter-spacing", "vertical-align"
  ]

  /** `CSS_WHITELIST.has(p)`: an exact, case-sensitive match. */
  predicate Allowed(p: string) {
    p in CssWhitelist
  }

  lemma WhitelistSize()
    ensures |CssWhitelist| == 39
  {
  }

  /** `rules.filter(rule => rule.trim())`. */
  function NonBlank(rules: seq<string>): (r: seq<string>)
  {
    if rules == [] then []
    else if Trim(rules[0]) != [] then [rules[0]] + NonBlank(rules[1..])
    else NonBlank(rules[1..])
  }

  /** The filter keeps rules of `rules` only, and only those `trim` leaves non-empty. */
  lemma {:induction false} NonBlankKept(rules: seq<string>)
    ensures forall r :: r in NonBlank(rules) ==> r in rules && Trim(r) != []
  {
    if rules != [] {
      NonBlankKept(rules[1..]);
    }
  }

  /** Every rule that `trim` leaves non-empty is kept. */
  lemma {:induction false} NonBlankKeepsAll(rules: seq<string>)
    requires forall i :: 0 <= i < |rules| ==> Trim(rules[i]) != []
    ensures NonBlank(rules) == rules
  {
    if rules != [] {
      NonBlankKeepsAll(rules[1..]);
    }
  }

  /** `style.split(';').filter(rule => rule.trim())`. */
  function StyleRules(style: string): (rules: seq<string>)
  {
    NonBlank(Split(style, ';'))
  }

  /** Every rule is free of `;` and not blank. */
  lemma StyleRulesShape(style: string)
    ensures forall r :: r in StyleRules(style) ==> ';' !in r && Trim(r) != []
  {
    NonBlankKept(Split(style, ';'));
    SplitPieces(style, ';');
  }

  /** The first element of `rule.split(':').map(part => part.trim())`. */
  function RuleProperty(rule: string): string {
    Trim(Split(rule, ':')[0])
  }

  /** The second element, undefined when the rule has no `:`. */
  function RuleValue(rule: string): Option<string> {
    var parts := Split(rule, ':');
    if |parts| >= 2 then Some(Trim(parts[1])) else None
  }

  /** `property && value && CSS_WHITELIST.has(property)`, and the pair it sets. */
  function KeptDeclaration(rule: string): Option<(string, string)> {
    var p := RuleProperty(rule);
    match RuleValue(rule)
    case Some(v) => if p != [] && v != [] && Allowed(p) then Some((p, v)) else None
    case None => None
  }

  /** The kept declarations of the rules, in rule order, repeats included. */
  function KeptDeclarations(rules: seq<string>): OrderedMap.Entries {
    FilterMap(KeptDeclaration, rules)
  }

  /** The `Map` `filterCssProperties` fills from `style`. */
  function StyleEntries(style: string): OrderedMap.Entries {
    OrderedMap.FromEntries(KeptDeclarations(StyleRules(style)))
  }

  /** `${property}: ${value}` for each entry. */
  function DeclarationTexts(entries: OrderedMap.Entries): (r: seq<string>)
    ensures |r| == |entries|
    ensures forall i :: 0 <= i < |entries| ==> r[i] == entries[i].0 + ": " + entries[i].1
  {
    if entries == [] then []
    else [entries[0].0 + ": " + entries[0].1] + DeclarationTexts(entries[1..])
  }

  /** The entries written back as a style string, joined by `"; "`. */
  function RenderStyle(entries: OrderedMap.Entries): string {
    Join(DeclarationTexts(entries), "; ")
  }

  /** What `filterCssProperties(style)` returns. */
  function FilteredStyle(style: string): string {
    RenderStyle(StyleEntries(style))
  }

  /** `filterCssProperties`: splits the style, fills a `Map` in a loop, joins the entries. */
  method FilterCssProperties(style: string) returns (filtered: string)
    ensures filtered == FilteredStyle(style)
  {
    var styleMap: OrderedMap.Entries := [];
    var styleRules := StyleRules(style);
    ghost var kept: OrderedMap.Entries := [];
    for i := 0 to |styleRules|
      invariant kept == KeptDeclarations(styleRules[..i])
      invariant styleMap == OrderedMap.FromEntries(kept)
    {
      var rule := styleRules[i];
      var property := RuleProperty(rule);
      var value := RuleValue(rule);
      FilterMapStep(KeptDeclaration, styleRules, i);
      if property != [] && value.Some? && value.value != [] && Allowed(property) {
        OrderedMap.FromEntriesAppend(kept, (property, value.value));
        styleMap := OrderedMap.Set(styleMap, property, value.value);
        kept := kept + [(property, value.value)];
      }
    }
    assert styleRules[..|styleRules|] == styleRules;
    filtered := RenderStyle(styleMap);
  }

  // ----- What a kept declaration looks like -----

  /** Non-empty, trimmed, and free of both separators: what `trim` leaves of a split piece. */
  predicate CleanText(t: string) {
    t != [] && IsTrimmed(t) && ':' !in t && ';' !in t
  }

  /** A declaration the filter can produce: an allowed property and a value, both clean. */
  predicate CleanDeclaration(d: (string, string)) {
    Allowed(d.0) && CleanText(d.0) && CleanText(d.1)
  }

  predicate CleanEntries(entries: OrderedMap.Entries) {
    OrderedMap.DistinctKeys(entries) && forall d :: d in entries ==> CleanDeclaration(d)
  }

  /** A trimmed piece without separators that is not blank is clean. */
  lemma TrimClean(x: string)
    requires ':' !in x && ';' !in x && Trim(x) != []
    ensures CleanText(Trim(x))
  {
    TrimShape(x);
    if ':' in Trim(x) {
      TrimChars(x, ':');
    }
    if ';' in Trim(x) {
      TrimChars(x, ';');
    }
  }

  lemma KeptDeclarationClean(rule: string)
    requires ';' !in rule
    requires KeptDeclaration(rule).Some?
    ensures CleanDeclaration(KeptDeclaration(rule).value)
  {
    var parts := Split(rule, ':');
    SplitPieces(rule, ':');
    if ';' in parts[0] {
      SplitChars(rule, ':', 0, ';');
    }
    if ';' in parts[1] {
      SplitChars(rule, ':', 1, ';');
    }
    TrimClean(parts[0]);
    TrimClean(parts[1]);
  }

  lemma {:induction false} KeptDeclarationsClean(rules: seq<string>)
    requires forall i :: 0 <= i < |rules| ==> ';' !in rules[i]
    ensures forall d :: d in KeptDeclarations(rules) ==> CleanDeclaration(d)
  {
    if rules != [] {
      KeptDeclarationsClean(rules[1..]);
      if KeptDeclaration(rules[0]).Some? {
        KeptDeclarationClean(rules[0]);
      }
    }
  }

  /** The `Map` behind every filtered style holds only clean, allow-listed declarations. */
  lemma StyleEntriesClean(style: string)
    ensures CleanEntries(StyleEntries(style))
  {
    StyleRulesShape(style);
    KeptDeclarationsClean(StyleRules(style));
    OrderedMap.FromEntriesShape(KeptDeclarations(StyleRules(style)));
  }

  // ----- Reading a rendered style back -----

  /** Each piece after the first gains the space that follows `;` in `"; "`. */
  function Spaced(xs: seq<string>): (r: seq<string>)
    ensures |r| == |xs| && forall i :: 0 <= i < |xs| ==> r[i] == " " + xs[i]
  {
    if xs == [] then [] else [" " + xs[0]] + Spaced(xs[1..])
  }

  lemma SemicolonSpace(a: string, b: string)
    ensures a + "; " + b == a + ";" + (" " + b)
  {
    assert "; " == ";" + " ";
  }

  lemma {:induction false} JoinSpaced(xs: seq<string>)
    requires xs != []
    ensures Join(Spaced(xs), ";") == " " + Join(xs, "; ")
  {
    if |xs| > 1 {
      var ys := Spaced(xs);
      JoinSpaced(xs[1..]);
      assert ys[1..] == Spaced(xs[1..]);
      calc {
        Join(ys, ";");
        ys[0] + ";" + Join(ys[1..], ";");
        (" " + xs[0]) + ";" + (" " + Join(xs[1..], "; "));
        { SemicolonSpace(xs[0], Join(xs[1..], "; ")); }
        " " + (xs[0] + "; " + Join(xs[1..], "; "));
        " " + Join(xs, "; ");
      }
    }
  }

  /** `a; b; c` is `a`, ` b`, ` c` joined by `;`. */
  lemma {:induction false} JoinSemicolonSpace(xs: seq<string>)
    requires xs != []
    ensures Join(xs, "; ") == Join([xs[0]] + Spaced(xs[1..]), ";")
  {
    if |xs| > 1 {
      var ys := [xs[0]] + Spaced(xs[1..]);
      JoinSpaced(xs[1..]);
      assert ys[1..] == Spaced(xs[1..]);
      calc {
        Join(ys, ";");
        xs[0] + ";" + Join(Spaced(xs[1..]), ";");
        xs[0] + ";" + (" " + Join(xs[1..], "; "));
        { SemicolonSpace(xs[0], Join(xs[1..], "; ")); }
        Join(xs, "; ");
      }
    }
  }

  /** The rule a rendered declaration becomes when its style is split again. */
  lemma ReparseDeclaration(lead: string, d: (string, string))
    requires lead == [] || lead == " "
    requires CleanDeclaration(d)
    ensures ';' !in lead + d.0 + ": " + d.1
    ensures Trim(lead + d.0 + ": " + d.1) != []
    ensures RuleProperty(lead + d.0 + ": " + d.1) == d.0
    ensures KeptDeclaration(lead + d.0 + ": " + d.1) == Some(d)
  {
    var p, v := d.0, d.1;
    var rule := lead + p + ": " + v;
    assert rule == (lead + p) + [':'] + (" " + v);
    SplitAtSeparator(lead + p, ':', " " + v);
    SplitNoSeparator(" " + v, ':');
    assert Split(rule, ':') == [lead + p, " " + v];
    TrimSkipsLeadingWhitespace(' ', v);
    TrimTrimmed(v);
    TrimTrimmed(p);
    if lead == " " {
      TrimSkipsLeadingWhitespace(' ', p);
    } else {
      assert lead + p == p;
    }
    assert Trim(lead + p) == p;
    TrimEmpty(rule);
    assert rule[|lead|] == p[0] && !IsWhitespace(p[0]);
  }

  /** The rules a rendered style splits into: each declaration text, those after the first
      with the space of the `"; "` before them. */
  function RenderedPieces(entries: OrderedMap.Entries): (pieces: seq<string>)
    requires entries != []
    ensures |pieces| == |entries|
  {
    var texts := DeclarationTexts(entries);
    [texts[0]] + Spaced(texts[1..])
  }

  lemma RenderedPieceText(entries: OrderedMap.Entries, i: nat)
    requires i < |entries|
    ensures RenderedPieces(entries)[i] == (if i == 0 then [] else " ") + entries[i].0 + ": " + entries[i].1
  {
  }

  lemma RenderedPiece(entries: OrderedMap.Entries, i: nat)
    requires CleanEntries(entries) && i < |entries|
    ensures ';' !in RenderedPieces(entries)[i] && Trim(RenderedPieces(entries)[i]) != []
    ensures RuleProperty(RenderedPieces(entries)[i]) == entries[i].0
    ensures KeptDeclaration(RenderedPieces(entries)[i]) == Some(entries[i])
  {
    assert entries[i] in entries;
    RenderedPieceText(entries, i);
    ReparseDeclaration(if i == 0 then [] else " ", entries[i]);
  }

  lemma RenderedSplit(entries: OrderedMap.Entries)
    requires entries != []
    requires forall i :: 0 <= i < |entries| ==>
      ';' !in RenderedPieces(entries)[i] && Trim(RenderedPieces(entries)[i]) != []
    ensures StyleRules(RenderStyle(entries)) == RenderedPieces(entries)
  {
    var pieces := RenderedPieces(entries);
    JoinSemicolonSpace(DeclarationTexts(entries));
    SplitJoin(pieces, ';');
    NonBlankKeepsAll(pieces);
  }

  /** Re-splitting a rendered style gives one rule per entry, each keeping exactly that entry. */
  lemma RenderedRules(entries: OrderedMap.Entries)
    requires CleanEntries(entries)
    ensures |StyleRules(RenderStyle(entries))| == |entries|
    ensures forall i :: 0 <= i < |entries| ==>
      RuleProperty(StyleRules(RenderStyle(entries))[i]) == entries[i].0
    ensures KeptDeclarations(StyleRules(RenderStyle(entries))) == entries
  {
    if entries == [] {
      assert RenderStyle(entries) == [];
      assert StyleRules([]) == [];
    } else {
      var pieces := RenderedPieces(entries);
      forall i | 0 <= i < |entries|
        ensures ';' !in pieces[i] && Trim(pieces[i]) != []
        ensures RuleProperty(pieces[i]) == entries[i].0
        ensures KeptDeclaration(pieces[i]) == Some(entries[i])
      {
        RenderedPiece(entries, i);
      }
      RenderedSplit(entries);
      FilterMapAll(KeptDeclaration, pieces, entries);
    }
  }

  // ----- Properties of the filter -----

  /** Splitting the filtered style again yields exactly the entries the filter kept. */
  lemma FilteredReparses(style: string)
    ensures KeptDeclarations(StyleRules(FilteredStyle(style))) == StyleEntries(style)
  {
    StyleEntriesClean(style);
    RenderedRules(StyleEntries(style));
  }

  /** Whitelist closure: every rule of the output names an allow-listed property. */
  lemma FilteredPropertiesAllowed(style: string)
    ensures forall r :: r in StyleRules(FilteredStyle(style)) ==> RuleProperty(r) != [] && Allowed(RuleProperty(r))
  {
    var entries := StyleEntries(style);
    StyleEntriesClean(style);
    RenderedRules(entries);
    var rules := StyleRules(FilteredStyle(style));
    forall r | r in rules
      ensures RuleProperty(r) != [] && Allowed(RuleProperty(r))
    {
      var i :| 0 <= i < |rules| && rules[i] == r;
      assert entries[i] in entries;
    }
  }

  /** Idempotence: filtering a filtered style changes nothing. */
  lemma FilterIdempotent(style: string)
    ensures FilteredStyle(FilteredStyle(style)) == FilteredStyle(style)
  {
    StyleEntriesClean(style);
    FilteredReparses(style);
    OrderedMap.FromEntriesDistinct(StyleEntries(style));
  }

  /** The output is `""` exactly when no declaration survives. */
  lemma FilteredEmpty(style: string)
    ensures FilteredStyle(style) == [] <==> StyleEntries(style) == []
  {
    var entries := StyleEntries(style);
    if entries != [] {
      var texts := DeclarationTexts(entries);
      StyleEntriesClean(style);
      assert entries[0] in entries;
      if |texts| > 1 {
        assert |Join(texts, "; ")| >= |texts[0]|;
      }
    }
  }

  /** A property survives exactly when some rule keeps it, and it carries the value of the
      last such rule. */
  lemma FilteredValue(style: string, p: string)
    ensures OrderedMap.Get(StyleEntries(style), p)
         == OrderedMap.LastValue(KeptDeclarations(StyleRules(style)), p)
    ensures p in OrderedMap.Keys(StyleEntries(style)) <==> p in OrderedMap.Keys(KeptDeclarations(StyleRules(style)))
  {
    OrderedMap.FromEntriesGet(KeptDeclarations(StyleRules(style)), p);
    OrderedMap.FromEntriesShape(KeptDeclarations(StyleRules(style)));
  }

  /** A later rule for a property already set keeps the property where it is and replaces its value. */
  lemma RepeatedPropertyStays(rules: seq<string>, rule: string, p: string, v: string)
    requires KeptDeclaration(rule) == Some((p, v))
    requires p in OrderedMap.Keys(OrderedMap.FromEntries(KeptDeclarations(rules)))
    ensures OrderedMap.Keys(OrderedMap.FromEntries(KeptDeclarations(rules + [rule])))
         == OrderedMap.Keys(OrderedMap.FromEntries(KeptDeclarations(rules)))
    ensures OrderedMap.Get(OrderedMap.FromEntries(KeptDeclarations(rules + [rule])), p) == Some(v)
  {
    FilterMapAppend(KeptDeclaration, rules, rule);
    var es := KeptDeclarations(rules);
    assert (es + [(p, v)])[..|es|] == es;
    OrderedMap.SetKeys(OrderedMap.FromEntries(es), p, v);
    OrderedMap.SetGet(OrderedMap.FromEntries(es), p, v, p);
  }

  /** Only the text between the first and the second `:` is the value. */
  lemma SecondColonDropsRest(p: string, v: string, rest: string)
    requires ':' !in p && ':' !in v
    ensures RuleValue(p + ":" + v + ":" + rest) == Some(Trim(v))
  {
    assert p + ":" + v + ":" + rest == p + [':'] + (v + [':'] + rest);
    SplitAtSeparator(p, ':', v + [':'] + rest);
    SplitAtSeparator(v, ':', rest);
  }

  /** A rule without `:` has no value and is dropped. */
  lemma NoColonDropped(rule: string)
    requires ':' !in rule
    ensures KeptDeclaration(rule) == None
  {
    SplitNoSeparator(rule, ':');
  }
}
