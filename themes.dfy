/**
 * The theme registry: five constant themes, the default theme id, and the
 * lookup the renderer uses to pick a theme by id before handing its variables
 * to the theme manager.
 */
module Themes {
  import opened Wrappers
  import opened OrderedMap

  /** A theme: id, name, the two texts shown to the user, and its CSS variables in
      declaration order. */
  datatype ThemeConfig = ThemeConfig(
    id: string,
    name: string,
    displayName: string,
    description: string,
    variables: Entries)

  /** The variable keys every theme declares, in the order they declare them. */
  const ThemeKeys: seq<string> := [
    "--bg-primary", "--bg-secondary", "--text-primary", "--text-secondary",
    "--accent-color", "--border-color", "--shadow", "--glass-bg", "--glass-border",
    "--heading-color", "--code-bg", "--blockquote-bg", "--blockquote-border"
  ]

  const Classical: ThemeConfig := ThemeConfig(
    "classical", "classical", "古典主题",
    "暖色调设计，模拟古典书籍的配色风格，适合文化类、历史类内容",
    [
      ("--bg-primary", "#f8f5f0"),
      ("--bg-secondary", "#f0ebe5"),
      ("--text-primary", "#3a2e25"),
      ("--text-secondary", "#6b5b4e"),
      ("--accent-color", "#8b4513"),
      ("--border-color", "#d4c5b8"),
      ("--shadow", "0 2px 8px rgba(139, 69, 19, 0.1)"),
      ("--glass-bg", "rgba(248, 245, 240, 0.8)"),
      ("--glass-border", "rgba(139, 69, 19, 0.2)"),
      ("--heading-color", "#3a2e25"),
      ("--code-bg", "#f0ebe5"),
      ("--blockquote-bg", "#f0ebe5"),
      ("--blockquote-border", "#d4c5b8")
    ])

  const Dark: ThemeConfig := ThemeConfig(
    "dark", "dark", "暗黑主题",
    "深色背景搭配红色强调色，适合夜间阅读和专业场景",
    [
      ("--bg-primary", "#1a1a1a"),
      ("--bg-secondary", "#2a2a2a"),
      ("--text-primary", "#e0e0e0"),
      ("--text-secondary", "#b0b0b0"),
      ("--accent-color", "#ff4500"),
      ("--border-color", "#444444"),
      ("--shadow", "0 2px 8px rgba(0, 0, 0, 0.3)"),
      ("--glass-bg", "rgba(26, 26, 26, 0.8)"),
      ("--glass-border", "rgba(255, 69, 0, 0.2)"),
      ("--heading-color", "#ffffff"),
      ("--code-bg", "#2d2d2d"),
      ("--blockquote-bg", "rgba(255, 255, 255, 0.1)"),
      ("--blockquote-border", "#ff4500")
    ])

  const Tech: ThemeConfig := ThemeConfig(
    "tech", "tech", "科技主题",
    "深蓝色背景搭配亮蓝色强调色，科技感十足，适合技术类内容",
    [
      ("--bg-primary", "#0a0e27"),
      ("--bg-secondary", "#1a1f3a"),
      ("--text-primary", "#ffffff"),
      ("--text-secondary", "#b0c4de"),
      ("--accent-color", "#00d4ff"),
      ("--border-color", "#2a2f4a"),
      ("--shadow", "0 2px 8px rgba(0, 212, 255, 0.2)"),
      ("--glass-bg", "rgba(10, 14, 39, 0.8)"),
      ("--glass-border", "rgba(0, 212, 255, 0.2)"),
      ("--heading-color", "#ffffff"),
      ("--code-bg", "#1a1f3a"),
      ("--blockquote-bg", "rgba(0, 212, 255, 0.1)"),
      ("--blockquote-border", "#00d4ff")
    ])

  const Simple: ThemeConfig := ThemeConfig(
    "simple", "simple", "简约主题",
    "纯白背景，简洁明了，突出内容，适合干货类、技术类内容",
    [
      ("--bg-primary", "#ffffff"),
      ("--bg-secondary", "#f5f5f5"),
      ("--text-primary", "#333333"),
      ("--text-secondary", "#666666"),
      ("--accent-color", "#2196f3"),
      ("--border-color", "#e0e0e0"),
      ("--shadow", "0 2px 8px rgba(0, 0, 0, 0.1)"),
      ("--glass-bg", "rgba(255, 255, 255, 0.8)"),
      ("--glass-border", "rgba(33, 150, 243, 0.2)"),
      ("--heading-color", "#333333"),
      ("--code-bg", "#f5f5f5"),
      ("--blockquote-bg", "#f5f5f5"),
      ("--blockquote-border", "#2196f3")
    ])

  const Dreamy: ThemeConfig := ThemeConfig(
    "dreamy", "dreamy", "梦幻主题",
    "淡蓝紫色调，梦幻柔和，适合情感类、生活类内容",
    [
      ("--bg-primary", "#f0f4ff"),
      ("--bg-secondary", "#e6ebff"),
      ("--text-primary", "#374151"),
      ("--text-secondary", "#4b5563"),
      ("--accent-color", "#8b5cf6"),
      ("--border-color", "#d6daff"),
      ("--shadow", "0 2px 8px rgba(139, 92, 246, 0.15)"),
      ("--glass-bg", "rgba(240, 244, 255, 0.8)"),
      ("--glass-border", "rgba(139, 92, 246, 0.2)"),
      ("--heading-color", "#374151"),
      ("--code-bg", "#e6ebff"),
      ("--blockquote-bg", "#e6ebff"),
      ("--blockquote-border", "#8b5cf6")
    ])

  /** `THEMES`. */
  const Registry: seq<ThemeConfig> := [Classical, Dark, Tech, Simple, Dreamy]

  /** `DEFAULT_THEME`. */
  const DefaultTheme: string := "classical"

  function Ids(themes: seq<ThemeConfig>): (ids: seq<string>)
    ensures |ids| == |themes|
  {
    seq(|themes|, i requires 0 <= i < |themes| => themes[i].id)
  }

  /** `themes.find(t => t.id === id)`: the first theme with that id, if any. */
  function Find(themes: seq<ThemeConfig>, id: string): (r: Option<ThemeConfig>)
    ensures r.Some? ==> r.value in themes && r.value.id == id
  {
    if themes == [] then None
    else if themes[0].id == id then Some(themes[0])
    else Find(themes[1..], id)
  }

  /** `THEMES.find(t => t.id === id)`. */
  function FindTheme(id: string): Option<ThemeConfig> {
    Find(Registry, id)
  }

  /** Found exactly when some theme has the id. */
  lemma {:induction false} FindSome(themes: seq<ThemeConfig>, id: string)
    ensures Find(themes, id).Some? <==> id in Ids(themes)
  {
    if themes != [] {
      FindSome(themes[1..], id);
      assert Ids(themes) == [themes[0].id] + Ids(themes[1..]);
    }
  }

  /** What is found is the first theme with the id. */
  lemma {:induction false} FindFirst(themes: seq<ThemeConfig>, id: string, i: nat)
    requires i < |themes| && themes[i].id == id
    requires forall j :: 0 <= j < i ==> themes[j].id != id
    ensures Find(themes, id) == Some(themes[i])
  {
    if i > 0 {
      assert forall j :: 0 <= j < i - 1 ==> themes[1..][j] == themes[j + 1];
      FindFirst(themes[1..], id, i - 1);
    }
  }

  /** With pairwise distinct ids, looking up a theme's id finds that theme. */
  lemma FindDistinct(themes: seq<ThemeConfig>, i: nat)
    requires i < |themes|
    requires forall j, k :: 0 <= j < k < |themes| ==> themes[j].id != themes[k].id
    ensures Find(themes, themes[i].id) == Some(themes[i])
  {
    FindFirst(themes, themes[i].id, i);
  }

  /** The registry holds exactly five themes, with these ids in this order. */
  lemma RegistryIds()
    ensures |Registry| == 5
    ensures Ids(Registry) == ["classical", "dark", "tech", "simple", "dreamy"]
  {
  }

  /** No two themes share an id, so a lookup by id is deterministic. */
  lemma RegistryIdsDistinct()
    ensures forall j, k :: 0 <= j < k < |Registry| ==> Registry[j].id != Registry[k].id
  {
    RegistryIds();
  }

  /** The thirteen keys are pairwise distinct. */
  lemma ThemeKeysDistinct()
    ensures forall j, k :: 0 <= j < k < |ThemeKeys| ==> ThemeKeys[j] != ThemeKeys[k]
  {
  }

  lemma ClassicalKeys()
    ensures Classical.name == Classical.id && Keys(Classical.variables) == ThemeKeys
  {
  }

  lemma DarkKeys()
    ensures Dark.name == Dark.id && Keys(Dark.variables) == ThemeKeys
  {
  }

  lemma TechKeys()
    ensures Tech.name == Tech.id && Keys(Tech.variables) == ThemeKeys
  {
  }

  lemma SimpleKeys()
    ensures Simple.name == Simple.id && Keys(Simple.variables) == ThemeKeys
  {
  }

  lemma DreamyKeys()
    ensures Dreamy.name == Dreamy.id && Keys(Dreamy.variables) == ThemeKeys
  {
  }

  /** Entries with the thirteen keys have one entry per key. */
  lemma ThemeKeysEntries(v: Entries)
    requires Keys(v) == ThemeKeys
    ensures DistinctKeys(v)
  {
    ThemeKeysDistinct();
    assert forall j :: 0 <= j < |v| ==> v[j].0 == ThemeKeys[j];
  }

  /** Every theme is named by its id and declares the same thirteen variables, each once. */
  lemma RegistryShape(i: nat)
    requires i < |Registry|
    ensures Registry[i].name == Registry[i].id
    ensures Keys(Registry[i].variables) == ThemeKeys
    ensures DistinctKeys(Registry[i].variables)
  {
    var t := Registry[i];
    if i == 0 {
      ClassicalKeys();
    } else if i == 1 {
      DarkKeys();
    } else if i == 2 {
      TechKeys();
    } else if i == 3 {
      SimpleKeys();
    } else {
      DreamyKeys();
    }
    ThemeKeysEntries(t.variables);
  }

  /** Looking up a registered id finds its theme. */
  lemma FindRegistered(i: nat)
    requires i < |Registry|
    ensures FindTheme(Registry[i].id) == Some(Registry[i])
  {
    RegistryIdsDistinct();
    FindDistinct(Registry, i);
  }

  /** A lookup succeeds exactly for the five registered ids. */
  lemma FindThemeSome(id: string)
    ensures FindTheme(id).Some? <==> id in ["classical", "dark", "tech", "simple", "dreamy"]
  {
    FindSome(Registry, id);
    RegistryIds();
  }

  /** The default theme is registered: it is the first theme. */
  lemma DefaultRegistered()
    ensures FindTheme(DefaultTheme) == Some(Registry[0])
  {
    FindRegistered(0);
  }
}
