# md-wx core in Dafny

md-wx renders Markdown into HTML that can be pasted into the WeChat
public-account editor. This project models the logic behind that rendering.

- **Themes.** The five themes each carry 13 CSS custom properties. A
  `ThemeManager` stores the current theme and its variables, and generates
  the theme stylesheet. Every `var || fallback` of the template is modelled
  with JavaScript's truthiness rule.
- **Markdown post-processing.** Two rewrites run after markdown-it:
  - every highlighted `<pre class="hljs">` gets a macOS-style title bar;
  - every bare `<h2>…</h2>` gets an icon span.
- **WeChat compatibility.**
  - Tag renaming: `article`, `main`, `nav` and `aside` become `section`.
  - The CSS allow-list filter, `filterCssProperties`.
  - In-place sanitizing of every element's `style` attribute.
  - The validator, which reports forbidden tags and disallowed properties.
  - The whole pipeline: inline the CSS, rename the tags, sanitize.

Modules follow the source files:

| file | module | models |
|---|---|---|
| `wrappers.dfy` | `Wrappers` | `T \| undefined` as `Option`; map-and-filter and flat-map over lists |
| `strings.dfy` | `Strings` | `trim` with ECMAScript's whitespace set, `split` on one character, `join`, ASCII case folding |
| `ordered_map.dfy` | `OrderedMap` | a JavaScript `Map` (and a plain object's own keys) as insertion-ordered entries; `m[k] \|\| fallback` |
| `wechat_styles.dfy` | `WechatStyles` | `CSS_WHITELIST`, `filterCssProperties` |
| `wechat_tags.dfy` | `WechatTags` | `TAG_MAPPING`, `transformTags` |
| `wechat_compat.dfy` | `WechatCompat` | `sanitizeInlineStyles`, `checkWechatCompatibility`, `processWechatCompatibility` |
| `themes.dfy` | `Themes` | `THEMES`, `DEFAULT_THEME`, the `THEMES.find` lookup |
| `theme_manager.dfy` | `ThemeManagement` | class `ThemeManager`, `generateThemeCss`, the renderer's `updateThemeVariables` |
| `markdown.dfy` | `Markdown` | the `highlight` option, `parseWithCodeStyle`, `addHeadingIcons`, class `MarkdownParser` |

Regular-expression replacements become recursive functions that scan left to
right, as `String.prototype.replace` with the `g` flag does. Loops that update
state stay loops:
- `filterCssProperties`;
- the `transformTags` loop over the mapping;
- the checker's two loops;
- `setTheme`;
- `getAllVariables`;
- `sanitizeInlineStyles`, which updates an array of elements in place.

Each such method is proved equal to a function, and the properties are proved
about that function.

Three behaviours of the code are worth knowing:

- `transformTags` is not idempotent on nested tags. It renames tags with
  `<tag(\s[^>]*)?>`, and that pattern can match a tag that holds another tag:
  - one pass turns `<article <article>>` into `<section <article>>`;
  - a second pass renames the inner tag too.

  `WechatTags.NestedNotIdempotent` proves this. Idempotence is proved for
  documents whose tags do not nest; that is `WechatTags.TransformIdempotent`.
- `parseWithCodeStyle` only inserts the title bar after the literal
  `<pre class="hljs">`; it leaves the rest of a code block as it is. The
  insertion is idempotent and keeps the code text.
- `getAllVariables` copies the `Map` onto a plain object with
  `variables[key] = value`. For the key `__proto__` that assignment runs the
  setter inherited from `Object.prototype`, which ignores a string. So a stored
  `__proto__` entry is readable with `getVariable` but is missing from
  `getAllVariables()` and from the `:root` block of `generateThemeCss()`.
  `ThemeManagement.PlainObjectCopy` states this; registered themes are not
  affected (`ThemeManagement.RegisteredPlainObject`).

## Model

| member | source | states |
|---|---|---|
| WechatStyles.WhitelistSize | src/utils/wechatCompat.ts:17-57 | the allow-list holds 39 property names |
| WechatStyles.StyleRulesShape | src/utils/wechatCompat.ts:89 | every rule kept by `split(';').filter(rule => rule.trim())` has no `;` and is not blank |
| WechatStyles.NonBlankKept | src/utils/wechatCompat.ts:89 | the filter keeps only rules of the input that are not all whitespace |
| WechatStyles.NoColonDropped | src/utils/wechatCompat.ts:92-93 | a rule without `:` has no value and is dropped |
| WechatStyles.SecondColonDropsRest | src/utils/wechatCompat.ts:92 | destructuring `[property, value]` keeps only the text between the first and second `:` as the value, trimmed |
| WechatStyles.FilterCssProperties | src/utils/wechatCompat.ts:85-102 | the loop that fills the `Map` and joins its entries computes the filtered style |
| WechatStyles.FilteredValue | src/utils/wechatCompat.ts:91-96 | a property's filtered value is the value of its last allowed declaration; it is present when some allowed declaration has it |
| WechatStyles.RepeatedPropertyStays | src/utils/wechatCompat.ts:94 | setting a property again keeps the key order and replaces the value |
| WechatStyles.DeclarationTexts | src/utils/wechatCompat.ts:100 | each entry is written `property: value`, one text per entry |
| WechatStyles.RenderedRules | src/utils/wechatCompat.ts:99-101 | splitting a rendered style on `;` gives back one rule per entry, with its property and the entries themselves |
| WechatStyles.FilteredReparses | src/utils/wechatCompat.ts:85-102 | parsing the filtered style again gives exactly the entries kept |
| WechatStyles.FilteredPropertiesAllowed | src/utils/wechatCompat.ts:93 | every rule of the output names a non-empty allow-listed property |
| WechatStyles.FilteredEmpty | src/utils/wechatCompat.ts:85-102 | the output is empty exactly when no declaration is kept |
| WechatStyles.FilterIdempotent | src/utils/wechatCompat.ts:85-102 | filtering a filtered style changes nothing |
| WechatTags.TagPassesOfMapping | src/utils/wechatCompat.ts:7-12 | the passes are built from the four mapping entries, each giving an open-tag pass and then a close-tag pass |
| WechatTags.TagPassesOrder | src/utils/wechatCompat.ts:68-75 | pass `i` belongs to mapping entry `i / 2`, and even passes are open-tag passes |
| WechatTags.FirstClose | src/utils/wechatCompat.ts:69 | where the `[^>]*` scan ends there is a `>`, at or after its start |
| WechatTags.OpenMatchLength | src/utils/wechatCompat.ts:69 | an open-tag match is at least the name plus `<>` long and ends in `>` |
| WechatTags.TransformTags | src/utils/wechatCompat.ts:64-78 | the `forEach` over the mapping, with its two `replace` calls, computes `TagsTransformed` |
| WechatTags.OpenTagRenamed | src/utils/wechatCompat.ts:69-73 | an open tag of any of the four names, in any letter case, with attributes without `<`, becomes `<section…>` with its attributes verbatim |
| WechatTags.CloseTagRenamed | src/utils/wechatCompat.ts:70-74 | a close tag of any of the four names, in any letter case, becomes `</section>` |
| WechatTags.OtherTagUntouched | src/utils/wechatCompat.ts:69-74 | a tag whose name is none of the four is left as it is |
| WechatTags.TransformKeepsText | src/utils/wechatCompat.ts:64-78 | text without `<` is kept verbatim |
| WechatTags.TransformDistributes | src/utils/wechatCompat.ts:64-78 | the rewrite of a tag followed by more HTML is the tag's rewrite followed by the rest's |
| WechatTags.TransformIdempotent | src/utils/wechatCompat.ts:64-78 | on HTML whose tags do not nest, transforming twice is transforming once |
| WechatTags.NestedNotIdempotent | src/utils/wechatCompat.ts:69-73 | `<article <article>>` becomes `<section <article>>`, and a second pass gives `<section <section>>` |
| WechatCompat.SanitizeInlineStyles | src/utils/wechatCompat.ts:109-124 | the loop over the elements leaves the array equal to the sanitized document |
| WechatCompat.SanitizeKeepsShape | src/utils/wechatCompat.ts:115-121 | sanitizing keeps the number of elements, every tag name, and which elements carry `style`; a `style` becomes its filtered text, kept even when empty; an element without one is unchanged |
| WechatCompat.SanitizeIdempotent | src/utils/wechatCompat.ts:109-124 | sanitizing twice is sanitizing once |
| WechatCompat.CheckWechatCompatibility | src/utils/wechatCompat.ts:150-186 | the two loops report all tag issues, then all property issues, and `isValid` holds exactly when there are none |
| WechatCompat.StyleIssuesEmpty | src/utils/wechatCompat.ts:169-179 | an element's style raises no issue exactly when every rule has an empty or allowed property |
| WechatCompat.ValidIff | src/utils/wechatCompat.ts:159-185 | a document is valid exactly when no lower-cased tag name is forbidden and no styled rule names a disallowed property |
| WechatCompat.IssuesReport | src/utils/wechatCompat.ts:159-180 | the first issues name forbidden tags; the rest name non-empty disallowed properties |
| WechatCompat.PropertyIssueReports | src/utils/wechatCompat.ts:168-180 | each property issue names a non-empty property off the allow-list |
| WechatCompat.SanitizedHasNoPropertyIssues | src/utils/wechatCompat.ts:109-124 | a sanitized document raises no property issue |
| WechatCompat.SanitizedIssues | src/utils/wechatCompat.ts:109-124 | a sanitized document's issues are exactly the original's tag issues |
| WechatCompat.ProcessWechatCompatibility | src/utils/wechatCompat.ts:132-143 | the pipeline inlines the CSS, renames the tags and sanitizes, in that order |
| WechatCompat.ProcessedPassesStyleCheck | src/utils/wechatCompat.ts:132-143 | processed output raises no property issue; its issues are the forbidden tags of the renamed document |
| Themes.Find | src/MdWxRenderer.tsx:49 | `THEMES.find(t => t.id === themeId)` gives a listed theme carrying that id |
| Themes.FindSome | src/MdWxRenderer.tsx:49 | a theme is found exactly when some theme has the id |
| Themes.FindFirst | src/MdWxRenderer.tsx:49 | the first theme with the id is the one found |
| Themes.RegistryIds | src/constants/themes.ts:6-112 | there are five themes: classical, dark, tech, simple and dreamy, in that order |
| Themes.RegistryIdsDistinct | src/constants/themes.ts:6-112 | no two themes share an id |
| Themes.RegistryShape | src/constants/themes.ts:6-112 | every theme has `name == id` and the same 13 variable keys, each once |
| Themes.FindRegistered | src/constants/themes.ts:6-112 | looking up a theme's id finds that theme |
| Themes.FindThemeSome | src/constants/themes.ts:6-112 | a lookup succeeds exactly for the five ids |
| Themes.DefaultRegistered | src/constants/themes.ts:117 | the default theme id finds the first theme, classical |
| ThemeManagement.ThemeManager.constructor | src/utils/themeManager.ts:9-12 | a new manager holds the given theme, `classical` by default, and no variables |
| ThemeManagement.ThemeManager.SetTheme | src/utils/themeManager.ts:19-30 | the theme id is stored; the variables are cleared, then set one entry after the other; keys stay distinct |
| ThemeManagement.ThemeManager.GetCurrentTheme | src/utils/themeManager.ts:53-55 | gives the stored theme id |
| ThemeManagement.ThemeManager.GetVariable | src/utils/themeManager.ts:62-64 | gives the stored value; it is defined exactly when the key was set |
| ThemeManagement.ThemeManager.GetAllVariables | src/utils/themeManager.ts:70-76 | the object filled by the loop holds the stored entries, in order, except a `__proto__` entry, which the plain object's inherited setter drops |
| ThemeManagement.ThemeManager.GenerateThemeCss | src/utils/themeManager.ts:82-242 | the CSS is the `:root` block of that plain-object copy followed by the common rules |
| ThemeManagement.PlainObjectMember | src/utils/themeManager.ts:71-74 | an entry reaches the plain object exactly when its key is not `__proto__` |
| ThemeManagement.PlainObjectCopy | src/utils/themeManager.ts:71-74 | the copy keeps distinct keys and the order, holds exactly the entries not keyed `__proto__`, never holds `__proto__`, and is the whole list when no key is `__proto__` |
| ThemeManagement.RegisteredPlainObject | src/utils/themeManager.ts:70-76 | a registered theme's variables are copied whole, since every key starts with `--` |
| ThemeManagement.VariablesReadBack | src/utils/themeManager.ts:19-30 | setting entries whose keys are distinct stores them as given, and each reads back |
| ThemeManagement.Declarations | src/utils/themeManager.ts:89-90 | one `key: value;` line per variable |
| ThemeManagement.RootDeclares | src/utils/themeManager.ts:87-93 | the CSS starts with the `:root` block, which declares every variable as `key: value;` |
| ThemeManagement.EmptyRoot | src/utils/themeManager.ts:87-93 | without variables the `:root` block is empty |
| ThemeManagement.RuleInCss | src/utils/themeManager.ts:96-241 | each of the 24 common rules appears in the CSS |
| ThemeManagement.HeadingColour | src/utils/themeManager.ts:104-109 | the heading colour is `--heading-color`, else `--text-primary`, else `#333`; each is skipped when missing or empty |
| ThemeManagement.HeadingAccent | src/utils/themeManager.ts:111-121 | the `h1` bottom border and the `h2` left border use `--accent-color`, else `#007bff` |
| ThemeManagement.LinkAccent | src/utils/themeManager.ts:131-134 | links are coloured `--accent-color`, else `#007bff` |
| ThemeManagement.BlockquoteAccent | src/utils/themeManager.ts:149-156 | the blockquote border uses `--accent-color`, else `#007bff`, and the background `--bg-secondary`, else `#f8f9fa` |
| ThemeManagement.FoundTheme | src/constants/themes.ts:6-112 | a found theme's variables have distinct keys |
| ThemeManagement.SelectTheme | src/MdWxRenderer.tsx:48-53 | a known id sets the manager to that theme and its variables; an unknown id changes nothing |
| ThemeManagement.DefaultThemeAgrees | src/utils/themeManager.ts:9 | the manager's default theme is the registry's default, and it is registered |
| ThemeManagement.RegisteredThemeCss | src/utils/themeManager.ts:87-93 | the CSS of a registered theme declares each of its variables |
| Markdown.EscapeHtml | src/utils/markdown.ts:25 | escaping leaves no `<`, `>` or `"` and never shortens the text |
| Markdown.EscapePlain | src/utils/markdown.ts:25 | text without `&`, `<`, `>` or `"` is its own escape |
| Markdown.HighlightBlock | src/utils/markdown.ts:18-26 | every block the highlight option returns starts with `<pre class="hljs"><code>` and ends with `</code></pre>` |
| Markdown.HighlightDecorated | src/utils/markdown.ts:18-26 | after the decoration of line 48, a block for a named, known language that highlights without throwing is the decorated opening, `<code>`, the highlighter's HTML verbatim (when it holds no `<p`) and `</code></pre>`; every other block is the decorated opening around the escaped code, unconditionally |
| Markdown.ReplaceAllPieces | src/utils/markdown.ts:48 | a global literal replacement joins the pieces between occurrences with the replacement; joining them with the pattern gives the input back; the length grows by the difference per occurrence |
| Markdown.DecorateKeepsText | src/utils/markdown.ts:48 | decoration keeps every piece between openings verbatim, with one title bar per opening |
| Markdown.NoPreOpenRemains | src/utils/markdown.ts:48 | no `<pre class="hljs">` is left after decoration |
| Markdown.DecorateIdempotent | src/utils/markdown.ts:48 | decorating twice is decorating once |
| Markdown.DecorateCodeBlock | src/utils/markdown.ts:48 | a code block becomes the decorated opening followed by its `<code>` verbatim |
| Markdown.HeadingIconChoice | src/utils/markdown.ts:63-72 | the four known titles get 📋, 💻, 📱 and 🎨, and exactly the other titles get 📌 |
| Markdown.HeadingIconAsWrittenDiffers | src/utils/markdown.ts:72 | the lookup as written agrees with the own-key lookup except on `Object.prototype` names; a heading `constructor` gets the source text of `Object` |
| Markdown.LazyClose | src/utils/markdown.ts:71 | where the lazy match ends, `</h2>` starts |
| Markdown.LazyCloseIff | src/utils/markdown.ts:71 | the match ends at `j` exactly when `</h2>` is at `j` and no line terminator or earlier `</h2>` comes before it |
| Markdown.HeadingRewritten | src/utils/markdown.ts:71-74 | for any icon lookup, `<h2>T</h2>` becomes `<h2><span class="heading-icon">I</span>T</h2>`, with `I` the lookup of the trimmed `T` and `T` verbatim, and the scan resumes after it |
| Markdown.SingleHeading | src/utils/markdown.ts:71-74 | a document that is one heading with a trimmed text gets that text's icon |
| Markdown.ConstructorHeading | src/utils/markdown.ts:63-74 | `<h2>constructor</h2>` as written gets the source text of `Object` as its icon, where the own-key lookup gives 📌 |
| Markdown.LineBreakBlocks | src/utils/markdown.ts:71 | a line terminator before any `</h2>` leaves that `<h2>` as it is |
| Markdown.NoHeadingKept | src/utils/markdown.ts:71-74 | text where no `<h2>` starts is kept, and the rewrite goes on after it |
| Markdown.NoHeadingUnchanged | src/utils/markdown.ts:71-74 | HTML without `<h2>` is unchanged |
| Markdown.MarkdownParser.constructor | src/utils/markdown.ts:12-28 | the parser keeps the configured markdown-it renderer |
| Markdown.MarkdownParser.Parse | src/utils/markdown.ts:35-37 | parsing is rendering |
| Markdown.MarkdownParser.ParseWithCodeStyle | src/utils/markdown.ts:44-54 | render, then decorate the code blocks, then add the heading icons with the lookup as written, inherited members included |

## Left out

- JavaScript `Map`s and plain objects are lists of entries in insertion order. A plain object lists integer-like keys first; no registered theme key is integer-like, so that ordering is not modelled.
- ThemeManagement.ThemeManager.GetAllVariables and ThemeManagement.ThemeManager.GenerateThemeCss: `Object.entries` order is assumed to be insertion order; a variable set with an integer-like key such as `"1"` would come first in the source.
- `DOMParser`, `querySelectorAll('*')` and `innerHTML` are not modelled. A parsed document is the list of its elements, each with a tag name and an optional `style`. In `processWechatCompatibility` the parser is a parameter. Serialising back to HTML is not modelled.
- `juice.inlineContent` is a parameter of the pipeline.
- markdown-it and highlight.js are parameters:
  - `MarkdownParser` takes markdown-it's `render`;
  - the `highlight` option takes `getLanguage` and `highlight`; markdown-it's `escapeHtml` is modelled.
- The `markdownParser` singleton is not modelled. markdown-it's `html`, `linkify` and `typographer` options are not modelled.
- `applyTheme` is not modelled: it writes the variables onto `document.documentElement.style`.
- `toLowerCase` and the `i` flag are modelled for ASCII letters only.
- All character counts are in Unicode scalar values; JavaScript counts UTF-16 code units. None of the rewrites depends on positions, so the results agree.
- WechatTags.TransformIdempotent: proved only for HTML whose tags do not nest, because the code is not idempotent on nested tags (see WechatTags.NestedNotIdempotent).
- Markdown.DecorateCodeBlock: assumes the code's HTML contains no `<p`. That holds for escaped code, which holds no `<` at all, and for highlight.js's spans. Any other code still keeps its text, by Markdown.DecorateKeepsText.
- Markdown.HighlightDecorated: the highlighted case is stated for highlighter HTML without `<p`, as for Markdown.DecorateCodeBlock; highlight.js is not modelled, so its output is not known to meet that.
- WechatTags.OpenTagRenamed: stated for attributes without `<`. An attribute text holding `<` may itself begin a tag that a later pass renames; WechatTags.NestedNotIdempotent shows such a case.
- Markdown.MarkdownParser.ParseWithCodeStyle: the string forms of the members a plain object inherits from `Object.prototype` depend on the JavaScript engine, so they are the parameter `inherited`.
- Markdown.HeadingRewritten: stated for heading texts without a line terminator and without `</h2>`. Other texts are covered by Markdown.LazyCloseIff and Markdown.LineBreakBlocks.
- ThemeManagement.ThemeManager.GetAllVariables and ThemeManagement.ThemeManager.GenerateThemeCss: require the class invariant that keys are distinct. Every constructor and method establishes it.

## Findings

| source | as written | input that shows it | evidently intended | confidence | as-written member | corrected member |
|---|---|---|---|---|---|---|
| src/utils/markdown.ts:72 | `headingIcons[headingText.trim()] \|\| '📌'` indexes a plain object literal, so names inherited from `Object.prototype` are found too and are truthy | a heading `## constructor` renders with the icon `function Object() { [native code] }`; `## __proto__` gives `[object Object]` | only the four own keys map to their emoji, every other title gets 📌 | not executed | Markdown.HeadingIconAsWritten, used by Markdown.MarkdownParser.ParseWithCodeStyle (shown by Markdown.HeadingIconAsWrittenDiffers and Markdown.ConstructorHeading) | Markdown.HeadingIcon (proved by Markdown.HeadingIconChoice; Markdown.ConstructorHeading shows the rewrite with it) |
