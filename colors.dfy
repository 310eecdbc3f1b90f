/** Theme colours (src/lib/colors.ts): the names of the selectable themes,
    and how a theme key resolves to a colour through the theme's
    definitions. */
module Colors {
  import opened Text

  /** A theme entry: one definition for both modes, or a dark and a light
      variant. */
  datatype ThemeValue = Plain(definition: string) | Variant(dark: string, light: string)

  /** A loaded theme: its entries by key, and its named definitions. */
  datatype Theme = Theme(theme: map<string, ThemeValue>, defs: map<string, string>)

  /** What `getThemeColor(theme)(key)` yields: a string, `undefined` (a
      definition name `defs` lacks), or a thrown TypeError (a key the theme
      lacks, whose `undefined` entry has no `dark`). */
  datatype Color = Value(color: string) | Undefined | TypeError

  const ColorPrefix: string := "#"

  /** The definition an entry names: the string itself, or the dark variant. */
  function Definition(v: ThemeValue): (r: string)
    ensures v.Plain? ==> r == v.definition
    ensures v.Variant? ==> r == v.dark
  {
    match v
    case Plain(s) => s
    case Variant(dark, _) => dark
  }

  /** `getThemeColor`. */
  function GetThemeColor(theme: Theme, key: string): (r: Color)
    ensures key !in theme.theme <==> r.TypeError?
  {
    if key !in theme.theme then TypeError
    else
      var def := Definition(theme.theme[key]);
      if StartsWith(def, ColorPrefix) then Value(def)
      else if def in theme.defs then Value(theme.defs[def])
      else Undefined
  }

  /** A definition that is already a colour is returned as it is. */
  lemma ColorReturnedVerbatim(theme: Theme, key: string)
    requires key in theme.theme && StartsWith(Definition(theme.theme[key]), ColorPrefix)
    ensures GetThemeColor(theme, key) == Value(Definition(theme.theme[key]))
  {
  }

  /** The light variant is never read: replacing it changes no colour. */
  lemma LightIgnored(theme: Theme, key: string, light: string)
    requires key in theme.theme && theme.theme[key].Variant?
    ensures GetThemeColor(theme.(theme := theme.theme[key := theme.theme[key].(light := light)]), key)
            == GetThemeColor(theme, key)
  {
  }

  /** Any other definition is looked up once: what `defs` holds under it is
      the result, even when that is itself the name of a definition. */
  lemma LookedUpOnce(theme: Theme, key: string)
    requires key in theme.theme
    requires !StartsWith(Definition(theme.theme[key]), ColorPrefix)
    ensures Definition(theme.theme[key]) in theme.defs ==>
              GetThemeColor(theme, key) == Value(theme.defs[Definition(theme.theme[key])])
    ensures Definition(theme.theme[key]) !in theme.defs ==> GetThemeColor(theme, key) == Undefined
  {
  }

  /** A theme whose definitions are all colours and whose entries all name a
      colour or a definition resolves every key it has to a colour. */
  lemma ClosedThemeYieldsColors(theme: Theme, key: string)
    requires forall name :: name in theme.defs ==> StartsWith(theme.defs[name], ColorPrefix)
    requires key in theme.theme
    requires StartsWith(Definition(theme.theme[key]), ColorPrefix) || Definition(theme.theme[key]) in theme.defs
    ensures GetThemeColor(theme, key).Value? && StartsWith(GetThemeColor(theme, key).color, ColorPrefix)
  {
  }

  /** The keys of `THEMES_MAP`, in declaration order. */
  const ThemesMapKeys: seq<string> := [
    "aura", "ayu", "catppuccin", "cobalt2", "dracula", "everforest", "github",
    "gruvbox", "kanagawa", "material", "matrix", "monokai", "nightowl", "nord",
    "oneDark", "opencode", "palenight", "rosepine", "solarized", "synthwave84",
    "tokyonight", "vesper", "zenburn"
  ]

  /** The theme names a configuration may choose: `custom`, then every
      built-in theme. */
  const Themes: seq<string> := ["custom"] + ThemesMapKeys

  /** `custom` comes first, then the 23 built-in themes in declaration
      order; `custom` is not the name of a built-in theme. */
  lemma ThemesNames()
    ensures |Themes| == 24 && Themes[0] == "custom" && Themes[1..] == ThemesMapKeys
    ensures "custom" !in ThemesMapKeys
  {
  }
}
