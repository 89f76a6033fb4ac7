/** Record shapes shared by the viewer component, its panels and the engine adapter
    (src/types.ts and the state records of src/components/NanoProteinViewer.tsx). */
module Types {

  datatype Option<+T> = None | Some(value: T) {
    /** The value, or `default` when absent (the `??` operator). */
    function GetOr(default: T): T {
      match this
      case Some(v) => v
      case None => default
    }
  }

  /** `StructureFormat`. */
  datatype StructureFormat = Pdb | Mmcif | Sdf

  /** The seven colour modes of the viewer; the engine accepts every mode except `none`. */
  datatype ColorMode = ModeNone | ModeCustom | ModeElement | ModeResidue | ModeSecondary | ModeChain | ModeRainbow

  type ThemeMode = m: ColorMode | m != ModeNone witness ModeCustom

  /** The six rainbow palettes the controls offer. */
  datatype Palette = PRainbow | PViridis | PPlasma | PMagma | PBlueRed | PPastel

  function ModeName(m: ColorMode): string {
    match m
    case ModeNone => "none"
    case ModeCustom => "custom"
    case ModeElement => "element"
    case ModeResidue => "residue"
    case ModeSecondary => "secondary"
    case ModeChain => "chain"
    case ModeRainbow => "rainbow"
  }

  function PaletteName(p: Palette): string {
    match p
    case PRainbow => "rainbow"
    case PViridis => "viridis"
    case PPlasma => "plasma"
    case PMagma => "magma"
    case PBlueRed => "blue-red"
    case PPastel => "pastel"
  }

  /** The optional `surface` part of a structure's `style`. */
  datatype SurfaceStyle = SurfaceStyle(enabled: bool, opacity: Option<int>, inherit: Option<bool>, customColor: Option<string>)

  /** The optional `style` a structure URL may carry. */
  datatype Style = Style(colorMode: Option<ColorMode>, customColor: Option<string>, illustrative: Option<bool>, surface: Option<SurfaceStyle>)

  /** `StructureUrl`: what the caller of the viewer passes in. */
  datatype StructureUrl = StructureUrl(name: string, url: string, format: Option<StructureFormat>, style: Option<Style>)

  /** `LoadedStructure`: a fetched (or locally read) structure text. */
  datatype LoadedStructure = LoadedStructure(name: string, data: string, format: StructureFormat, style: Option<Style>)

  /** The surface controls: `{ enabled, opacity, inherit, customColor }`. */
  datatype Surface = Surface(enabled: bool, opacity: int, inherit: bool, customColor: string)

  /** The secondary-structure colours: `{ helix, sheet, coil }`. */
  datatype SecondaryColors = SecondaryColors(helix: string, sheet: string, coil: string)

  type ChainColors = map<string, string>

  /** `ViewerSettings`: the seven control values that are saved per file. */
  datatype ViewerSettings = ViewerSettings(
    colorMode: ColorMode,
    customColor: string,
    secondaryColors: SecondaryColors,
    rainbowPalette: Palette,
    chainColors: ChainColors,
    illustrative: bool,
    surface: Surface)

  /** `ColorThemeParams`: the optional parameters of a colour-theme update. */
  datatype ColorThemeParams = ColorThemeParams(
    chainColors: Option<ChainColors>,
    hex: Option<string>,
    secondaryColors: Option<SecondaryColors>,
    palette: Option<string>)

  const NoThemeParams := ColorThemeParams(None, None, None, None)

  /** One call `updateColorTheme(mode, params)`. */
  datatype ThemeRequest = ThemeRequest(mode: ThemeMode, params: ColorThemeParams)
}
