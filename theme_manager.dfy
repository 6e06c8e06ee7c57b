/**
 * The theme store: a manager object holding the current theme id and its CSS
 * variables, the CSS text it generates from them, and the renderer's rule for
 * selecting a theme from the registry by id.
 */
module ThemeManagement {
  import opened Wrappers
  import opened Strings
  import opened OrderedMap
  import Themes

  /** The theme a new manager starts with. */
  const InitialTheme: string := "classical"

  /** One line of the `:root` block: `${key}: ${value};`. */
  function Declaration(e: (string, string)): string {
    e.0 + ": " + e.1 + ";"
  }

  function Declarations(vars: Entries): (ds: seq<string>)
    ensures |ds| == |vars|
  {
    seq(|vars|, i requires 0 <= i < |vars| => Declaration(vars[i]))
  }

  /** The first template: the variables as custom properties of `:root`, in map order. */
  function RootCss(vars: Entries): string {
    "\n      :root {\n" + "        " + Join(Declarations(vars), "\n        ") + "\n      }\n    "
  }

  /** A declaration line of a rule: indented eight spaces, `property: value;`. */
  function DeclarationLines(declarations: seq<(string, string)>): string {
    if declarations == [] then []
    else "        " + declarations[0].0 + ": " + declarations[0].1 + ";\n" + DeclarationLines(declarations[1..])
  }

  /** A rule as the template lays it out: the selector indented six spaces and
      followed by ` {`, one line per declaration, and `}` indented six spaces. */
  function Rule(selector: string, declarations: seq<(string, string)>): string {
    "      " + selector + " {\n" + DeclarationLines(declarations) + "      }"
  }

  /** A rule preceded by a comment line. */
  function Commented(comment: string, rule: string): string {
    "      /* " + comment + " */\n" + rule
  }

  /** Rule `k` of the second template (counting from 0), with its fallbacks for missing
      or empty variables. Long literals are written in pieces. */
  function RuleAt(vars: Entries, k: nat): string {
    match k
      case 0 => Rule("body", [
        ("font-family", Var(vars, "--font-family", "system-ui, -apple-system, " + "BlinkMacSystemFont, " + "\"Segoe UI\", Roboto, " + "sans-serif")),
        ("line-height", Var(vars, "--line-height", "1.7")),
        ("color", Var(vars, "--text-primary", "#333")),
        ("background-color", Var(vars, "--bg-primary", "#fff"))])
      case 1 => Rule("h1, h2, h3, h4, h5, h6", [
        ("font-weight", "600"),
        ("margin-top", "1.5em"),
        ("margin-bottom", "0.75em"),
        ("color", Var(vars, "--heading-color", Var(vars, "--text-primary", "#333")))])
      case 2 => Rule("h1", [
        ("font-size", "2.5rem"),
        ("border-bottom", "2px solid " + Var(vars, "--accent-color", "#007bff")),
        ("padding-bottom", "0.5rem")])
      case 3 => Rule("h2", [
        ("font-size", "2rem"),
        ("border-left", "4px solid " + Var(vars, "--accent-color", "#007bff")),
        ("padding-left", "1rem")])
      case 4 => Rule("h3", [
        ("font-size", "1.5rem")])
      case 5 => Rule("p", [
        ("margin-bottom", "1rem")])
      case 6 => Rule("a", [
        ("color", Var(vars, "--accent-color", "#007bff")),
        ("text-decoration", "none")])
      case 7 => Rule("a:hover", [
        ("text-decoration", "underline")])
      case 8 => Rule("ul, ol", [
        ("margin-bottom", "1rem"),
        ("padding-left", "1.5rem")])
      case 9 => Rule("li", [
        ("margin-bottom", "0.5rem")])
      case 10 => Rule("blockquote", [
        ("border-left", "4px solid " + Var(vars, "--accent-color", "#007bff")),
        ("padding", "1rem 1.5rem"),
        ("margin", "1.5rem 0"),
        ("background-color", Var(vars, "--bg-secondary", "#f8f9fa")),
        ("border-radius", "0 8px 8px 0"),
        ("font-style", "italic")])
      case 11 => Rule("code", [
        ("font-family", Var(vars, "--font-family-mono", "Menlo, Monaco, Consolas, " + "\"Courier New\", monospace")),
        ("background-color", Var(vars, "--code-bg", "#f8f9fa")),
        ("padding", "0.2em 0.4em"),
        ("border-radius", "4px"),
        ("font-size", "0.9em")])
      case 12 => Rule("pre", [
        ("background-color", Var(vars, "--code-bg", "#f8f9fa")),
        ("padding", "1.5rem"),
        ("border-radius", "8px"),
        ("overflow-x", "auto"),
        ("margin", "1.5rem 0")])
      case 13 => Rule("pre code", [
        ("background", "none"),
        ("padding", "0")])
      case 14 => Commented("macOS 风格代码块", Rule(".macos-code-block", [
        ("position", "relative"),
        ("border-radius", "12px"),
        ("overflow", "hidden"),
        ("margin-bottom", "1rem"),
        ("box-shadow", "0 4px 12px rgba(0, 0, 0, 0.15)")]))
      case 15 => Rule(".macos-title-bar", [
        ("background-color", "#f1f1f1"),
        ("padding", "8px 12px"),
        ("display", "flex"),
        ("align-items", "center"),
        ("border-bottom", "1px solid #e0e0e0")])
      case 16 => Rule(".macos-dots", [
        ("display", "flex"),
        ("gap", "8px")])
      case 17 => Rule(".dot", [
        ("width", "12px"),
        ("height", "12px"),
        ("border-radius", "50%")])
      case 18 => Rule(".dot.close", [
        ("background-color", "#ff5f56")])
      case 19 => Rule(".dot.minimize", [
        ("background-color", "#ffbd2e")])
      case 20 => Rule(".dot.maximize", [
        ("background-color", "#27ca3f")])
      case 21 => Rule(".macos-code-block code", [
        ("display", "block"),
        ("padding", "16px"),
        ("font-family", "'Consolas', 'Monaco', " + "'Courier New', monospace"),
        ("font-size", "14px"),
        ("line-height", "1.5"),
        ("overflow-x", "auto")])
      case 22 => Commented("暗黑主题代码块标题栏", Rule(".theme-dark .macos-title-bar", [
        ("background-color", "#333333"),
        ("border-bottom-color", "#444444")]))
      case _ => Commented("科技主题代码块标题栏", Rule(".theme-tech .macos-title-bar", [
        ("background-color", "#1a1f3a"),
        ("border-bottom-color", "#2a2f4a")]))
  }

  /** The twenty-four rules of the second template, in order. */
  function Rules(vars: Entries): (rules: seq<string>)
    ensures |rules| == 24
  {
    seq(24, k requires 0 <= k < 24 => RuleAt(vars, k))
  }

  /** The second template: its rules, one blank line of six spaces between two rules. */
  function CommonCss(vars: Entries): string {
    "\n" + Join(Rules(vars), "\n      \n") + "\n    "
  }

  /** `generateThemeCss()` as a function of the variables alone. */
  function ThemeCss(vars: Entries): string {
    RootCss(vars) + CommonCss(vars)
  }

  /** Every rule of the second template is in the generated CSS. */
  lemma RuleInCss(vars: Entries, k: nat)
    requires k < 24
    ensures Contains(ThemeCss(vars), RuleAt(vars, k))
  {
    assert Rules(vars)[k] == RuleAt(vars, k);
    var joined := Join(Rules(vars), "\n      \n");
    JoinContains(Rules(vars), "\n      \n", k);
    ContainsInfix(Rules(vars)[k], "\n", joined, "\n    ");
    ContainsInfix(Rules(vars)[k], RootCss(vars), CommonCss(vars), []);
    AppendEmpty(ThemeCss(vars));
  }

  /** The generated CSS opens with the `:root` block, which declares every stored
      variable as `key: value;`. */
  lemma RootDeclares(vars: Entries, i: nat)
    requires i < |vars|
    ensures StartsWith(ThemeCss(vars), RootCss(vars))
    ensures Contains(RootCss(vars), vars[i].0 + ": " + vars[i].1 + ";")
  {
    var joined := Join(Declarations(vars), "\n        ");
    JoinContains(Declarations(vars), "\n        ", i);
    ContainsInfix(Declarations(vars)[i], "\n      :root {\n" + "        ", joined, "\n      }\n    ");
    StartsWithAppend(RootCss(vars), CommonCss(vars));
  }

  /** With no variables the `:root` block is empty. */
  lemma EmptyRoot()
    ensures RootCss([]) == "\n      :root {\n        \n      }\n    "
  {
  }

  /** The `h1` and `h2` borders take `--accent-color`, or `#007bff` when it is missing
      or empty. */
  lemma HeadingAccent(vars: Entries, c: string)
    requires (Get(vars, "--accent-color") == Some(c) && c != [])
          || (!Truthy(Get(vars, "--accent-color")) && c == "#007bff")
    ensures Contains(ThemeCss(vars), Rule("h1", [
      ("font-size", "2.5rem"),
      ("border-bottom", "2px solid " + c),
      ("padding-bottom", "0.5rem")]))
    ensures Contains(ThemeCss(vars), Rule("h2", [
      ("font-size", "2rem"),
      ("border-left", "4px solid " + c),
      ("padding-left", "1rem")]))
  {
    assert Var(vars, "--accent-color", "#007bff") == c;
    RuleInCss(vars, 2);
    RuleInCss(vars, 3);
  }

  /** The link colour takes `--accent-color`, or `#007bff` when it is missing or empty. */
  lemma LinkAccent(vars: Entries, c: string)
    requires (Get(vars, "--accent-color") == Some(c) && c != [])
          || (!Truthy(Get(vars, "--accent-color")) && c == "#007bff")
    ensures Contains(ThemeCss(vars), Rule("a", [
      ("color", c),
      ("text-decoration", "none")]))
  {
    assert Var(vars, "--accent-color", "#007bff") == c;
    RuleInCss(vars, 6);
  }

  /** The blockquote border takes `--accent-color`, or `#007bff` when it is missing or
      empty. */
  lemma BlockquoteAccent(vars: Entries, c: string)
    requires (Get(vars, "--accent-color") == Some(c) && c != [])
          || (!Truthy(Get(vars, "--accent-color")) && c == "#007bff")
    ensures Contains(ThemeCss(vars), Rule("blockquote", [
      ("border-left", "4px solid " + c),
      ("padding", "1rem 1.5rem"),
      ("margin", "1.5rem 0"),
      ("background-color", Var(vars, "--bg-secondary", "#f8f9fa")),
      ("border-radius", "0 8px 8px 0"),
      ("font-style", "italic")]))
  {
    assert Var(vars, "--accent-color", "#007bff") == c;
    RuleInCss(vars, 10);
  }

  /** Headings take `--heading-color`, else `--text-primary`, else `#333`; each of the
      three counts only when present and not empty. */
  lemma HeadingColour(vars: Entries, c: string)
    requires (Get(vars, "--heading-color") == Some(c) && c != [])
          || (!Truthy(Get(vars, "--heading-color")) && Get(vars, "--text-primary") == Some(c) && c != [])
          || (!Truthy(Get(vars, "--heading-color")) && !Truthy(Get(vars, "--text-primary")) && c == "#333")
    ensures Contains(ThemeCss(vars), Rule("h1, h2, h3, h4, h5, h6", [
      ("font-weight", "600"),
      ("margin-top", "1.5em"),
      ("margin-bottom", "0.75em"),
      ("color", c)]))
  {
    assert Var(vars, "--heading-color", Var(vars, "--text-primary", "#333")) == c;
    RuleInCss(vars, 1);
  }

  /** Filling a map from entries that already have one entry per key gives them back:
      what the getters read after `setTheme(id, variables)`. */
  lemma VariablesReadBack(variables: Entries, k: string)
    requires DistinctKeys(variables)
    ensures FromEntries(variables) == variables
    ensures Get(FromEntries(variables), k) == Get(variables, k)
    ensures k !in Keys(variables) ==> Get(FromEntries(variables), k) == None
  {
    FromEntriesDistinct(variables);
    GetFound(variables, k);
  }

  /** The key whose assignment on a plain object goes to the `__proto__` setter
      inherited from `Object.prototype`; that setter ignores a string value. */
  const ProtoKey: string := "__proto__"

  /** `obj[key] = value` on a plain object whose own keys are `obj`'s. */
  function AssignProperty(obj: Entries, key: string, value: string): Entries {
    if key == ProtoKey then obj else Set(obj, key, value)
  }

  function OwnEntry(e: (string, string)): Option<(string, string)> {
    if e.0 == ProtoKey then None else Some(e)
  }

  /** The own entries of a plain object filled, in order, from entries with distinct
      keys: all of them except a `__proto__` entry. */
  function PlainObjectEntries(vars: Entries): Entries {
    FilterMap(OwnEntry, vars)
  }

  /** An entry is copied exactly when its key is not `__proto__`. */
  lemma {:induction false} PlainObjectMember(vars: Entries, e: (string, string))
    ensures e in PlainObjectEntries(vars) <==> e in vars && e.0 != ProtoKey
    decreases |vars|
  {
    if vars != [] {
      PlainObjectMember(vars[1..], e);
      assert vars == [vars[0]] + vars[1..];
    }
  }

  lemma {:induction false} PlainObjectDistinct(vars: Entries)
    requires DistinctKeys(vars)
    ensures DistinctKeys(PlainObjectEntries(vars))
    decreases |vars|
  {
    if vars != [] {
      var rest := vars[1..];
      assert DistinctKeys(rest) by {
        forall i, j | 0 <= i < j < |rest| ensures rest[i].0 != rest[j].0 {
          assert rest[i] == vars[i + 1] && rest[j] == vars[j + 1];
        }
      }
      PlainObjectDistinct(rest);
      var copied := PlainObjectEntries(rest);
      if vars[0].0 != ProtoKey {
        forall j | 0 <= j < |copied| ensures copied[j].0 != vars[0].0 {
          PlainObjectMember(rest, copied[j]);
          var k :| 0 <= k < |rest| && rest[k] == copied[j];
          assert rest[k] == vars[k + 1];
        }
        assert PlainObjectEntries(vars) == [vars[0]] + copied;
      }
    }
  }

  /** Copying entries with distinct keys into a plain object keeps their order and drops
      exactly a `__proto__` entry; entries without that key are copied whole. */
  lemma PlainObjectCopy(vars: Entries)
    requires DistinctKeys(vars)
    ensures DistinctKeys(PlainObjectEntries(vars))
    ensures forall e :: e in PlainObjectEntries(vars) <==> e in vars && e.0 != ProtoKey
    ensures ProtoKey !in Keys(PlainObjectEntries(vars))
    ensures ProtoKey !in Keys(vars) ==> PlainObjectEntries(vars) == vars
  {
    PlainObjectDistinct(vars);
    forall e ensures e in PlainObjectEntries(vars) <==> e in vars && e.0 != ProtoKey {
      PlainObjectMember(vars, e);
    }
    var copied := PlainObjectEntries(vars);
    forall i | 0 <= i < |copied| ensures Keys(copied)[i] != ProtoKey {
      PlainObjectMember(vars, copied[i]);
    }
    if ProtoKey !in Keys(vars) {
      assert forall i :: 0 <= i < |vars| ==> Keys(vars)[i] == vars[i].0;
      FilterMapAll(OwnEntry, vars, vars);
    }
  }

  /** `ThemeManager`. */
  class ThemeManager {
    var currentTheme: string
    var themeVariables: Entries

    /** The stored variables are a `Map`: one entry per key. */
    ghost predicate Valid()
      reads this
    {
      DistinctKeys(themeVariables)
    }

    constructor(initialTheme: string := InitialTheme)
      ensures Valid()
      ensures currentTheme == initialTheme && themeVariables == []
    {
      currentTheme := initialTheme;
      themeVariables := [];
    }

    /** Records the theme id, clears the variables, then sets each given entry in
        order. Nothing of the previous theme is kept. */
    method SetTheme(themeId: string, variables: Entries)
      modifies this
      ensures Valid()
      ensures currentTheme == themeId && themeVariables == FromEntries(variables)
    {
      currentTheme := themeId;
      themeVariables := [];
      for i := 0 to |variables|
        invariant currentTheme == themeId
        invariant themeVariables == FromEntries(variables[..i])
      {
        FromEntriesAppend(variables[..i], variables[i]);
        assert variables[..i + 1] == variables[..i] + [variables[i]];
        themeVariables := Set(themeVariables, variables[i].0, variables[i].1);
      }
      assert variables[..|variables|] == variables;
      FromEntriesShape(variables);
    }

    method GetCurrentTheme() returns (themeId: string)
      ensures themeId == currentTheme
    {
      themeId := currentTheme;
    }

    /** `map.get(key)`: the stored value, or undefined when the key is not stored. */
    method GetVariable(key: string) returns (value: Option<string>)
      ensures value == Get(themeVariables, key)
      ensures value.Some? <==> key in Keys(themeVariables)
    {
      GetFound(themeVariables, key);
      value := Get(themeVariables, key);
    }

    /** Assigns every stored entry, in map order, onto a fresh plain object; a stored
        `__proto__` entry is dropped by the inherited setter. */
    method GetAllVariables() returns (variables: Entries)
      requires Valid()
      ensures variables == PlainObjectEntries(themeVariables)
    {
      variables := [];
      for i := 0 to |themeVariables|
        invariant variables == FromEntries(PlainObjectEntries(themeVariables[..i]))
      {
        var (key, value) := themeVariables[i];
        FilterMapStep(OwnEntry, themeVariables, i);
        if key == ProtoKey {
          assert PlainObjectEntries(themeVariables[..i + 1]) == PlainObjectEntries(themeVariables[..i]);
        } else {
          assert PlainObjectEntries(themeVariables[..i + 1])
            == PlainObjectEntries(themeVariables[..i]) + [(key, value)];
          FromEntriesAppend(PlainObjectEntries(themeVariables[..i]), (key, value));
        }
        variables := AssignProperty(variables, key, value);
      }
      assert themeVariables[..|themeVariables|] == themeVariables;
      PlainObjectDistinct(themeVariables);
      FromEntriesDistinct(PlainObjectEntries(themeVariables));
    }

    /** Builds the CSS from a copy of the variables; the manager is not changed. */
    method GenerateThemeCss() returns (css: string)
      requires Valid()
      ensures css == ThemeCss(PlainObjectEntries(themeVariables))
    {
      var variables := GetAllVariables();
      css := [];
      AppendEmpty(RootCss(variables));
      css := css + RootCss(variables);
      css := css + CommonCss(variables);
    }
  }

  /** A theme found in the registry has one entry per variable key. */
  lemma FoundTheme(themeId: string)
    requires Themes.FindTheme(themeId).Some?
    ensures DistinctKeys(Themes.FindTheme(themeId).value.variables)
  {
    var t := Themes.FindTheme(themeId).value;
    var i :| 0 <= i < |Themes.Registry| && Themes.Registry[i] == t;
    Themes.RegistryShape(i);
  }

  /** The renderer's theme update: a registered id sets that theme's variables; an
      unregistered id leaves the manager as it was. */
  method SelectTheme(manager: ThemeManager, themeId: string)
    modifies manager
    ensures Themes.FindTheme(themeId).None? ==>
      manager.currentTheme == old(manager.currentTheme) && manager.themeVariables == old(manager.themeVariables)
    ensures Themes.FindTheme(themeId).Some? ==>
      manager.Valid() && manager.currentTheme == themeId
      && manager.themeVariables == Themes.FindTheme(themeId).value.variables
  {
    var themeConfig := Themes.FindTheme(themeId);
    if themeConfig.Some? {
      manager.SetTheme(themeId, themeConfig.value.variables);
      FoundTheme(themeId);
      FromEntriesDistinct(themeConfig.value.variables);
    }
  }

  /** A registered theme's keys all start with `--`, so its plain-object copy is whole. */
  lemma RegisteredPlainObject(i: nat)
    requires i < |Themes.Registry|
    ensures PlainObjectEntries(Themes.Registry[i].variables) == Themes.Registry[i].variables
  {
    Themes.RegistryShape(i);
    assert ProtoKey !in Themes.ThemeKeys by {
      forall j | 0 <= j < |Themes.ThemeKeys| ensures Themes.ThemeKeys[j] != ProtoKey {
        assert Themes.ThemeKeys[j][0] == '-';
      }
    }
    PlainObjectCopy(Themes.Registry[i].variables);
  }

  /** The default id names a registered theme and is the manager's initial theme. */
  lemma DefaultThemeAgrees()
    ensures Themes.DefaultTheme == InitialTheme
    ensures Themes.FindTheme(InitialTheme).Some?
  {
    Themes.DefaultRegistered();
  }

  /** After a registered theme is selected, the generated `:root` block declares each of
      its thirteen variables. */
  lemma RegisteredThemeCss(i: nat, j: nat)
    requires i < |Themes.Registry| && j < |Themes.Registry[i].variables|
    ensures Contains(ThemeCss(Themes.Registry[i].variables),
      Themes.Registry[i].variables[j].0 + ": " + Themes.Registry[i].variables[j].1 + ";")
  {
    var vars := Themes.Registry[i].variables;
    RootDeclares(vars, j);
    ContainsInfix(vars[j].0 + ": " + vars[j].1 + ";", [], RootCss(vars), CommonCss(vars));
    AppendEmpty(RootCss(vars));
  }
}
