/** The settings logic of the viewer component (src/components/NanoProteinViewer.tsx): format
    detection, the `color` URL parameter, default chain colours, the per-file settings record
    chosen when the user switches files, the per-file settings map, and the dispatch of a colour
    mode to at most one theme update. Network, engine and rendering work are left to the caller:
    the chains the engine reports and the URL parameter are inputs. */
module ViewerSettings {
  import opened Types
  import opened Text
  import Molstar

  /** `detectFormat(nameOrUrl, explicit)`. */
  function DetectFormat(nameOrUrl: string, explicit: Option<StructureFormat>): (f: StructureFormat)
    ensures explicit.Some? ==> f == explicit.value
    ensures explicit.None? ==>
      var l := ToLower(nameOrUrl);
      (f == Mmcif <==> EndsWith(l, ".cif") || EndsWith(l, ".mmcif")) &&
      (f == Sdf <==> !EndsWith(l, ".cif") && !EndsWith(l, ".mmcif") && EndsWith(l, ".sdf"))
  {
    if explicit.Some? then explicit.value
    else
      var l := ToLower(nameOrUrl);
      if EndsWith(l, ".cif") || EndsWith(l, ".mmcif") then Mmcif
      else if EndsWith(l, ".sdf") then Sdf
      else Pdb
  }

  /** The format given to a fetched entry: the name when there is one, else the URL. */
  function FetchedFormat(entry: StructureUrl): (f: StructureFormat)
    ensures entry.format.Some? ==> f == entry.format.value
    ensures entry.format.None? && entry.name != "" ==> f == DetectFormat(entry.name, None)
    ensures entry.format.None? && entry.name == "" ==> f == DetectFormat(entry.url, None)
  {
    DetectFormat(if entry.name != "" then entry.name else entry.url, entry.format)
  }

  /** The case of the name is irrelevant to the detected format. */
  lemma DetectFormatIgnoresCase(nameOrUrl: string)
    ensures DetectFormat(ToLower(nameOrUrl), None) == DetectFormat(nameOrUrl, None)
  {
    var l := ToLower(nameOrUrl);
    assert ToLower(l) == l;
  }

  /** `['none', 'custom', ..., 'rainbow'].includes(param)`: the mode a URL parameter names. */
  function ParseColorMode(s: string): (r: Option<ColorMode>)
    ensures r.Some? ==> ModeName(r.value) == s
  {
    if s == "none" then Some(ModeNone)
    else if s == "custom" then Some(ModeCustom)
    else if s == "element" then Some(ModeElement)
    else if s == "residue" then Some(ModeResidue)
    else if s == "secondary" then Some(ModeSecondary)
    else if s == "chain" then Some(ModeChain)
    else if s == "rainbow" then Some(ModeRainbow)
    else None
  }

  /** Every mode name is accepted back as that mode: the seven names are exactly the valid ones. */
  lemma ParseModeNameRoundTrip(m: ColorMode)
    ensures ParseColorMode(ModeName(m)) == Some(m)
  {
  }

  /** The valid mode of the `color` parameter (absent, empty or unknown gives none). */
  function UrlColorMode(param: Option<string>): (r: Option<ColorMode>)
    ensures r.Some? <==> param.Some? && exists m :: ModeName(m) == param.value
    ensures r.Some? ==> ModeName(r.value) == param.value
  {
    if param.None? then None
    else
      var r := ParseColorMode(param.value);
      assert r.None? ==> forall m :: ModeName(m) != param.value by {
        forall m ensures r.None? ==> ModeName(m) != param.value { ParseModeNameRoundTrip(m); }
      }
      r
  }

  /** The colour mode the component starts with: the URL's mode, else `custom`. */
  function InitialColorMode(param: Option<string>): (m: ColorMode)
    ensures UrlColorMode(param).Some? ==> m == UrlColorMode(param).value
    ensures UrlColorMode(param).None? ==> m == ModeCustom
  {
    UrlColorMode(param).GetOr(ModeCustom)
  }

  /** The ten default chain colours. */
  const DefaultChainPalette: seq<string> :=
    ["#FF6B6B", "#4ECDC4", "#45B7D1", "#FFA07A", "#98D8C8", "#F7DC6F", "#BB8FCE", "#85C1E2", "#F8B4B4", "#52B788"]

  function DefaultChainColor(i: nat): string {
    DefaultChainPalette[i % |DefaultChainPalette|]
  }

  /** The map `cc` after `chains.forEach((c, i) => { cc[c] = defaults[i % 10] })`. */
  function ChainColorMap(chains: seq<string>): ChainColors
    decreases |chains|
  {
    if chains == [] then map[]
    else ChainColorMap(chains[..|chains| - 1])[chains[|chains| - 1] := DefaultChainColor(|chains| - 1)]
  }

  /** The keys of the default map are exactly the detected chains. */
  lemma {:induction false} ChainColorMapKeys(chains: seq<string>)
    ensures ChainColorMap(chains).Keys == set c | c in chains
    decreases |chains|
  {
    if chains != [] {
      var p := chains[..|chains| - 1];
      ChainColorMapKeys(p);
      assert chains == p + [chains[|chains| - 1]];
    }
  }

  /** The chain at position `i` gets `defaults[i mod 10]` unless it is detected again later
      (the last write wins; `listChains` never reports a chain twice). */
  lemma {:induction false} ChainColorMapAt(chains: seq<string>, i: nat)
    requires i < |chains|
    requires forall j :: i < j < |chains| ==> chains[j] != chains[i]
    ensures chains[i] in ChainColorMap(chains)
    ensures ChainColorMap(chains)[chains[i]] == DefaultChainPalette[i % 10]
    decreases |chains|
  {
    var n := |chains| - 1;
    if i < n {
      var p := chains[..n];
      ChainColorMapAt(p, i);
    }
  }

  /** Builds the default chain colours the way the component does, one chain at a time. */
  method AssignDefaultChainColors(chains: seq<string>) returns (cc: ChainColors)
    ensures cc == ChainColorMap(chains)
  {
    cc := map[];
    var i := 0;
    while i < |chains|
      invariant 0 <= i <= |chains|
      invariant cc == ChainColorMap(chains[..i])
    {
      assert chains[..i + 1][..i] == chains[..i];
      cc := cc[chains[i] := DefaultChainColor(i)];
      i := i + 1;
    }
    assert chains[..|chains|] == chains;
  }

  /** The chain colours after a load: the defaults when chains were detected, else unchanged. */
  function ChainColorsAfterDetect(current: ChainColors, chains: seq<string>): (cc: ChainColors)
    ensures |chains| > 0 ==> cc.Keys == set c | c in chains
    ensures |chains| > 0 ==> forall i :: 0 <= i < |chains| && (forall j :: i < j < |chains| ==> chains[j] != chains[i]) ==>
      cc[chains[i]] == DefaultChainPalette[i % 10]
    ensures |chains| == 0 ==> cc == current
  {
    if |chains| > 0 then
      ChainColorMapKeys(chains);
      assert forall i :: 0 <= i < |chains| && (forall j :: i < j < |chains| ==> chains[j] != chains[i]) ==>
        ChainColorMap(chains)[chains[i]] == DefaultChainPalette[i % 10] by {
        forall i | 0 <= i < |chains| && (forall j :: i < j < |chains| ==> chains[j] != chains[i]) {
          ChainColorMapAt(chains, i);
        }
      }
      ChainColorMap(chains)
    else current
  }

  /** `getKey(idx)`: the file's name, or the index in decimal when the name is empty or the
      index is past the end. */
  function GetKey(loaded: seq<LoadedStructure>, idx: nat): (k: string)
    ensures k != []
    ensures idx < |loaded| && loaded[idx].name != "" ==> k == loaded[idx].name
    ensures !(idx < |loaded| && loaded[idx].name != "") ==> k == NatToString(idx)
  {
    if idx < |loaded| && loaded[idx].name != "" then loaded[idx].name else NatToString(idx)
  }

  /** Two unnamed files at different positions are stored under different keys. */
  lemma UnnamedKeysDistinct(loaded: seq<LoadedStructure>, i: nat, j: nat)
    requires i < |loaded| && j < |loaded| && i != j
    requires loaded[i].name == "" && loaded[j].name == ""
    ensures GetKey(loaded, i) != GetKey(loaded, j)
  {
    if GetKey(loaded, i) == GetKey(loaded, j) {
      NatToStringInjective(i, j);
    }
  }

  /** The colour mode chosen on a file switch: the URL's mode, else the saved record's mode,
      else the structure style's mode, else the current mode. */
  function ResolveColorMode(url: Option<ColorMode>, saved: Option<ViewerSettings>, incoming: Option<Style>, current: ColorMode): (m: ColorMode)
    ensures url.Some? ==> m == url.value
    ensures url.None? && saved.Some? ==> m == saved.value.colorMode
    ensures url.None? && saved.None? && incoming.Some? && incoming.value.colorMode.Some? ==> m == incoming.value.colorMode.value
    ensures url.None? && saved.None? && (incoming.None? || incoming.value.colorMode.None?) ==> m == current
  {
    if url.Some? then url.value
    else if saved.Some? then saved.value.colorMode
    else if incoming.Some? && incoming.value.colorMode.Some? then incoming.value.colorMode.value
    else current
  }

  /** The optional surface style of an optional style (`incoming?.surface`). */
  function StyleSurface(incoming: Option<Style>): Option<SurfaceStyle> {
    if incoming.Some? then incoming.value.surface else None
  }

  /** The record built for a file being switched to (`next`): the saved record with a new
      colour mode and new chain colours, or, if no record was saved, the structure's style laid
      over the current values field by field. */
  function NextSettings(saved: Option<ViewerSettings>, incoming: Option<Style>, current: ViewerSettings, mode: ColorMode, chainColors: ChainColors): (r: ViewerSettings)
    ensures r.colorMode == mode && r.chainColors == chainColors
    ensures saved.Some? ==> r == saved.value.(colorMode := mode, chainColors := chainColors)
    ensures saved.None? ==>
      && r.secondaryColors == current.secondaryColors
      && r.rainbowPalette == current.rainbowPalette
      && (incoming.Some? && incoming.value.customColor.Some? ==> r.customColor == incoming.value.customColor.value)
      && (incoming.None? || incoming.value.customColor.None? ==> r.customColor == current.customColor)
      && (incoming.Some? && incoming.value.illustrative.Some? ==> r.illustrative == incoming.value.illustrative.value)
      && (incoming.None? || incoming.value.illustrative.None? ==> r.illustrative == current.illustrative)
      && (r.surface.enabled <==> StyleSurface(incoming).Some? && StyleSurface(incoming).value.enabled)
      && (StyleSurface(incoming).None? ==> r.surface == current.surface.(enabled := false))
      && (StyleSurface(incoming).Some? ==>
            var ss := StyleSurface(incoming).value;
            && r.surface.opacity == ss.opacity.GetOr(current.surface.opacity)
            && r.surface.inherit == ss.inherit.GetOr(current.surface.inherit)
            && r.surface.customColor == ss.customColor.GetOr(current.surface.customColor))
  {
    if saved.Some? then
      saved.value.(colorMode := mode, chainColors := chainColors)
    else
      var s := StyleSurface(incoming);
      ViewerSettings(
        mode,
        if incoming.Some? then incoming.value.customColor.GetOr(current.customColor) else current.customColor,
        current.secondaryColors,
        current.rainbowPalette,
        chainColors,
        if incoming.Some? then incoming.value.illustrative.GetOr(current.illustrative) else current.illustrative,
        Surface(
          s.Some? && s.value.enabled,
          if s.Some? then s.value.opacity.GetOr(current.surface.opacity) else current.surface.opacity,
          if s.Some? then s.value.inherit.GetOr(current.surface.inherit) else current.surface.inherit,
          if s.Some? then s.value.customColor.GetOr(current.surface.customColor) else current.surface.customColor))
  }

  /** Returning to a file whose settings were saved, with no URL mode, restores that record
      unchanged except for the freshly detected chain colours. */
  lemma ReturnRestoresSaved(saved: ViewerSettings, incoming: Option<Style>, current: ViewerSettings, chainColors: ChainColors)
    ensures NextSettings(Some(saved), incoming, current, ResolveColorMode(None, Some(saved), incoming, current.colorMode), chainColors)
      == saved.(chainColors := chainColors)
  {
  }

  /** The theme update a colour mode issues: none for `none` and for `custom` without a
      colour, otherwise exactly one update for that mode with that mode's parameters. */
  function Dispatch(s: ViewerSettings): (r: Option<ThemeRequest>)
    ensures r.None? <==> s.colorMode == ModeNone || (s.colorMode == ModeCustom && s.customColor == "")
    ensures r.Some? ==> r.value.mode == s.colorMode
    ensures r.Some? ==> r.value.params == match s.colorMode
      case ModeCustom => NoThemeParams.(hex := Some(s.customColor))
      case ModeSecondary => NoThemeParams.(secondaryColors := Some(s.secondaryColors))
      case ModeChain => NoThemeParams.(chainColors := Some(s.chainColors))
      case ModeRainbow => NoThemeParams.(palette := Some(PaletteName(s.rainbowPalette)))
      case _ => NoThemeParams
  {
    match s.colorMode
    case ModeNone => None
    case ModeCustom => if s.customColor != "" then Some(ThemeRequest(ModeCustom, NoThemeParams.(hex := Some(s.customColor)))) else None
    case ModeSecondary => Some(ThemeRequest(ModeSecondary, NoThemeParams.(secondaryColors := Some(s.secondaryColors))))
    case ModeElement => Some(ThemeRequest(ModeElement, NoThemeParams))
    case ModeResidue => Some(ThemeRequest(ModeResidue, NoThemeParams))
    case ModeChain => Some(ThemeRequest(ModeChain, NoThemeParams.(chainColors := Some(s.chainColors))))
    case ModeRainbow => Some(ThemeRequest(ModeRainbow, NoThemeParams.(palette := Some(PaletteName(s.rainbowPalette)))))
  }

  /** What the engine adapter does with the dispatched update of each mode. */
  lemma DispatchedPlan(s: ViewerSettings)
    requires Dispatch(s).Some?
    ensures
      var plan := Molstar.PlanColorTheme(Dispatch(s).value.mode, Dispatch(s).value.params);
      && (s.colorMode == ModeCustom ==> plan == Molstar.NamedTheme("uniform", Molstar.UniformValue(HexColorValue(s.customColor))))
      && (s.colorMode == ModeElement ==> plan == Molstar.NamedTheme("element-symbol", Molstar.NoParams))
      && (s.colorMode == ModeResidue ==> plan == Molstar.NamedTheme("residue-name", Molstar.NoParams))
      && (s.colorMode == ModeSecondary ==>
            plan == Molstar.NamedTheme("secondary-structure", Molstar.SecondaryTheme(Molstar.SecondaryFanOut(s.secondaryColors), -1, 0)))
      && (s.colorMode == ModeChain && |s.chainColors| > 0 ==> plan == Molstar.ChainColorTheme(s.chainColors))
      && (s.colorMode == ModeChain && |s.chainColors| == 0 ==> plan == Molstar.NamedTheme("chain-id", Molstar.NoParams))
      && (s.colorMode == ModeRainbow ==> plan == Molstar.RainbowTheme(Molstar.PaletteTable(PaletteName(s.rainbowPalette)).value))
  {
    Molstar.EveryPaletteKnown(s.rainbowPalette);
  }

  /** Every default chain colour is a `#RRGGBB` colour. */
  lemma DefaultPaletteIsHex(k: nat)
    requires k < 10
    ensures IsHexColor(DefaultChainPalette[k])
  {
    var c := DefaultChainPalette[k];
    assert forall j :: 1 <= j < 7 ==> IsHexDigit(c[j]);
    assert forall j :: 0 <= j < 6 ==> c[1..][j] == c[j + 1];
  }

  /** A chain given its default colour is drawn by the registered chain theme in exactly that
      colour: the palette entry read as a hexadecimal number. */
  lemma DefaultColorReachesEngine(chains: seq<string>, i: nat, u: Molstar.ChainUnit)
    requires i < |chains|
    requires forall j :: i < j < |chains| ==> chains[j] != chains[i]
    requires Molstar.ChainIdString(Molstar.UnitChainId(u)) == chains[i]
    ensures Molstar.ChainColorFor(ChainColorMap(chains), u) == Some(HexValue(DefaultChainPalette[i % 10][1..]))
  {
    ChainColorMapAt(chains, i);
    DefaultPaletteIsHex(i % 10);
    HexColorParsesItsDigits(DefaultChainPalette[i % 10]);
  }

  /** The values the component starts with. */
  function InitialSettings(colorParam: Option<string>): (r: ViewerSettings)
    ensures r.colorMode == InitialColorMode(colorParam) && r.customColor == "" && r.chainColors == map[]
    ensures r.surface == Surface(false, 40, true, "#4ECDC4") && !r.illustrative
    ensures Dispatch(r).None? <==> UrlColorMode(colorParam) in {None, Some(ModeNone), Some(ModeCustom)}
  {
    ViewerSettings(
      InitialColorMode(colorParam),
      "",
      SecondaryColors("#0FA3FF", "#24B235", "#E8E8E8"),
      PRainbow,
      map[],
      false,
      Surface(false, 40, true, "#4ECDC4"))
  }

  /** The controls after the initial load applied the first structure's style (the state setters
      of the style branch; a style surface falls back to 40, true and #4ECDC4). */
  function ApplyInitialStyle(current: ViewerSettings, s: Style, mode: ColorMode, chainColors: ChainColors): (r: ViewerSettings)
    ensures r.colorMode == mode && r.chainColors == chainColors
    ensures r.secondaryColors == current.secondaryColors && r.rainbowPalette == current.rainbowPalette
    ensures r.customColor == s.customColor.GetOr(current.customColor)
    ensures r.illustrative == s.illustrative.GetOr(current.illustrative)
    ensures s.surface.None? ==> r.surface == current.surface
    ensures s.surface.Some? ==>
      var ss := s.surface.value;
      r.surface == Surface(ss.enabled, ss.opacity.GetOr(40), ss.inherit.GetOr(true), ss.customColor.GetOr("#4ECDC4"))
  {
    current.(
      colorMode := mode,
      customColor := s.customColor.GetOr(current.customColor),
      chainColors := chainColors,
      illustrative := s.illustrative.GetOr(current.illustrative),
      surface := if s.surface.Some? then
          Surface(s.surface.value.enabled, s.surface.value.opacity.GetOr(40), s.surface.value.inherit.GetOr(true), s.surface.value.customColor.GetOr("#4ECDC4"))
        else current.surface)
  }

  /** The controls the initial load sets and the record it stores for the first file agree
      except in the surface: where the style's surface leaves a field out, the controls fall
      back to 40, `true` and `#4ECDC4` and the record to the current surface; without a style
      surface the controls keep the current surface and the record stores it disabled. */
  lemma InitialStyleAgainstRecord(current: ViewerSettings, s: Style, mode: ColorMode, cc: ChainColors)
    ensures
      var shown := ApplyInitialStyle(current, s, mode, cc);
      var stored := NextSettings(None, Some(s), current, mode, cc);
      && shown.(surface := stored.surface) == stored
      && (s.surface.Some? ==> shown.surface.enabled == stored.surface.enabled)
      && (s.surface.Some? && s.surface.value.opacity.None? ==> shown.surface.opacity == 40 && stored.surface.opacity == current.surface.opacity)
      && (s.surface.Some? && s.surface.value.inherit.None? ==> shown.surface.inherit && stored.surface.inherit == current.surface.inherit)
      && (s.surface.Some? && s.surface.value.customColor.None? ==>
            shown.surface.customColor == "#4ECDC4" && stored.surface.customColor == current.surface.customColor)
      && (s.surface.None? ==> shown.surface == current.surface && stored.surface == current.surface.(enabled := false))
  {
  }

  /** A file named `1` and an unnamed file at index 1 are stored under the same key. */
  lemma NamedAndUnnamedKeysMeet(data: string)
    ensures
      var loaded := [LoadedStructure("1", data, Pdb, None), LoadedStructure("", data, Pdb, None)];
      GetKey(loaded, 0) == GetKey(loaded, 1) == "1"
  {
    assert NatToString(1) == "1";
  }

  /** The initial load keys the first file by its name, while a later switch uses `getKey`:
      for an unnamed first file the two keys differ. */
  lemma FirstUnnamedKeysDiffer(results: seq<LoadedStructure>)
    requires results != [] && results[0].name == ""
    ensures results[0].name != GetKey(results, 0) && GetKey(results, 0) == "0"
  {
    assert NatToString(0) == "0";
  }

  /** The component state that outlives a render: the current control values, the per-file
      settings map, the loaded structures, the current index and the detected chains. */
  class SettingsStore {
    var current: ViewerSettings
    var byFile: map<string, ViewerSettings>
    var loaded: seq<LoadedStructure>
    var currentIndex: int
    var detectedChains: seq<string>

    constructor (colorParam: Option<string>)
      ensures current == InitialSettings(colorParam)
      ensures byFile == map[] && loaded == [] && currentIndex == -1 && detectedChains == []
    {
      current := InitialSettings(colorParam);
      byFile := map[];
      loaded := [];
      currentIndex := -1;
      detectedChains := [];
    }

    /** True when the current index names a loaded file. */
    predicate HasCurrent()
      reads this
    {
      0 <= currentIndex < |loaded|
    }

    /** A change of the `color` parameter (popstate): a valid mode replaces the current one. */
    method OnUrlChange(colorParam: Option<string>)
      modifies this
      ensures UrlColorMode(colorParam).Some? ==> current == old(current).(colorMode := UrlColorMode(colorParam).value)
      ensures UrlColorMode(colorParam).None? ==> current == old(current)
      ensures byFile == old(byFile) && loaded == old(loaded) && currentIndex == old(currentIndex)
      ensures detectedChains == old(detectedChains)
    {
      var m := UrlColorMode(colorParam);
      if m.Some? {
        current := current.(colorMode := m.value);
      }
    }

    /** The persisting effect: the current controls are stored under the current file's key;
        no other entry changes. */
    method Persist()
      modifies this
      ensures HasCurrent() ==> byFile == old(byFile)[GetKey(loaded, currentIndex) := current]
      ensures !HasCurrent() ==> byFile == old(byFile)
      ensures current == old(current) && loaded == old(loaded) && currentIndex == old(currentIndex)
      ensures detectedChains == old(detectedChains)
    {
      if 0 <= currentIndex < |loaded| {
        byFile := byFile[GetKey(loaded, currentIndex) := current];
      }
    }

    /** One chain-colour picker change: `{ ...prev, [id]: hex }`. */
    method SetChainColor(id: string, hex: string)
      modifies this
      ensures current == old(current).(chainColors := old(current).chainColors[id := hex])
      ensures byFile == old(byFile) && loaded == old(loaded) && currentIndex == old(currentIndex)
      ensures detectedChains == old(detectedChains)
    {
      current := current.(chainColors := current.chainColors[id := hex]);
    }

    /** Local files handed over by the controls are appended, without a style. */
    method AddLocalStructures(items: seq<(string, string, StructureFormat)>)
      modifies this
      ensures |loaded| == |old(loaded)| + |items|
      ensures loaded[..|old(loaded)|] == old(loaded)
      ensures forall i :: 0 <= i < |items| ==>
        loaded[|old(loaded)| + i] == LoadedStructure(items[i].0, items[i].1, items[i].2, None)
      ensures current == old(current) && byFile == old(byFile) && currentIndex == old(currentIndex)
      ensures detectedChains == old(detectedChains)
    {
      var added := seq(|items|, i requires 0 <= i < |items| => LoadedStructure(items[i].0, items[i].1, items[i].2, None));
      loaded := loaded + added;
    }

    /** `onSelectIndex(idx)`: store the current controls under the current key, then build the
        record of the selected file from the URL mode, its saved record (as it was before this
        call), its style and the current values, make it current, store it, and return the theme
        update it calls for. `chains` is what the engine reports after loading the file. */
    method SelectIndex(idx: int, colorParam: Option<string>, chains: seq<string>) returns (request: Option<ThemeRequest>)
      modifies this
      ensures !(0 <= idx < |old(loaded)|) ==>
        request.None? && current == old(current) && byFile == old(byFile) && currentIndex == old(currentIndex)
        && detectedChains == old(detectedChains)
      ensures 0 <= idx < |old(loaded)| ==>
        var key := GetKey(old(loaded), idx);
        var saved := if key in old(byFile) then Some(old(byFile)[key]) else None;
        var incoming := old(loaded)[idx].style;
        var mode := ResolveColorMode(UrlColorMode(colorParam), saved, incoming, old(current).colorMode);
        var persisted := if 0 <= old(currentIndex) < |old(loaded)|
          then old(byFile)[GetKey(old(loaded), old(currentIndex)) := old(current)] else old(byFile);
        && current == NextSettings(saved, incoming, old(current), mode, ChainColorsAfterDetect(old(current).chainColors, chains))
        && byFile == persisted[key := current]
        && currentIndex == idx
        && detectedChains == chains
        && request == Dispatch(current)
      ensures loaded == old(loaded)
    {
      if idx < 0 || idx >= |loaded| {
        return None;
      }
      var saved := if GetKey(loaded, idx) in byFile then Some(byFile[GetKey(loaded, idx)]) else None;
      if 0 <= currentIndex < |loaded| {
        byFile := byFile[GetKey(loaded, currentIndex) := current];
      }
      currentIndex := idx;
      detectedChains := chains;
      var chainColors := current.chainColors;
      if |chains| > 0 {
        chainColors := AssignDefaultChainColors(chains);
      }
      var key := GetKey(loaded, idx);
      var mode := ResolveColorMode(UrlColorMode(colorParam), saved, loaded[idx].style, current.colorMode);
      var next := NextSettings(saved, loaded[idx].style, current, mode, chainColors);
      current := next;
      byFile := byFile[key := next];
      request := Dispatch(next);
    }

    /** The initial load of the fetched structures `results` (the fetching itself is left out):
        the first structure becomes current, its chains get default colours, its style is
        applied, its settings entry is written (or, without a style, created only if missing),
        and the theme update for the resulting mode is returned. */
    method InitialLoad(results: seq<LoadedStructure>, colorParam: Option<string>, chains: seq<string>) returns (request: Option<ThemeRequest>)
      modifies this
      ensures results == [] ==>
        request.None? && current == old(current) && byFile == old(byFile) && loaded == []
        && currentIndex == -1 && detectedChains == old(detectedChains)
      ensures results != [] ==>
        var key := results[0].name;
        var url := UrlColorMode(colorParam);
        var cc := ChainColorsAfterDetect(old(current).chainColors, chains);
        && loaded == results && currentIndex == 0 && detectedChains == chains
        && (results[0].style.Some? ==>
              var s := results[0].style.value;
              var mode := if url.Some? then url.value else s.colorMode.GetOr(old(current).colorMode);
              && current == ApplyInitialStyle(old(current), s, mode, cc)
              && byFile == old(byFile)[key := NextSettings(None, results[0].style, old(current), mode, cc)])
        && (results[0].style.None? ==>
              && current == old(current).(colorMode := url.GetOr(old(current).colorMode), chainColors := cc)
              && byFile == (if key in old(byFile) then old(byFile) else old(byFile)[key := old(current)]))
        && request == Dispatch(current)
    {
      loaded := results;
      if |results| == 0 {
        currentIndex := -1;
        return None;
      }
      currentIndex := 0;
      detectedChains := chains;
      var chainColors := current.chainColors;
      if |chains| > 0 {
        chainColors := AssignDefaultChainColors(chains);
      }
      var key := results[0].name;
      var url := UrlColorMode(colorParam);
      if results[0].style.Some? {
        var s := results[0].style.value;
        var mode := if url.Some? then url.value else s.colorMode.GetOr(current.colorMode);
        var record := NextSettings(None, results[0].style, current, mode, chainColors);
        current := ApplyInitialStyle(current, s, mode, chainColors);
        byFile := byFile[key := record];
      } else {
        if key !in byFile {
          byFile := byFile[key := current];
        }
        current := current.(colorMode := url.GetOr(current.colorMode), chainColors := chainColors);
      }
      request := Dispatch(current);
    }
  }
}
