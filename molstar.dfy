/** The engine adapter of src/utils/molstar.ts: the mount state of one viewer handle and the
    page-wide behaviour flag, chain listing, the colour-theme plan for a mode, and the surface
    rule. The engine itself is abstract: what the adapter asks of it is appended to a command
    log, and the part of its scene the adapter reads (structures, their components and
    representations, and the chain units) is a field. */
module Molstar {
  import opened Types
  import opened Text

  /** Identity of a DOM element used as a host. */
  type Host = nat

  /** A cell of the engine's state tree. A surface the adapter adds is named after the
      component cell it is added to. */
  datatype Cell = Node(id: nat) | SurfaceOf(component: Cell)

  /** A chain identifier: `label_asym_id` is a string, `chainGroupId` a string or a number. */
  datatype ChainId = IdStr(s: string) | IdNum(n: int)

  datatype ChainUnit = ChainUnit(labelAsymId: Option<string>, chainGroupId: Option<ChainId>)

  /** The `type` parameter of a representation: absent, an object with an optional `name`, or
      a plain string. */
  datatype TypeField = TypeAbsent | TypeObject(name: Option<string>) | TypeString(s: string)

  /** The colours of the eleven secondary-structure kinds; `None` is `NaN`. */
  datatype SecondaryParams = SecondaryParams(
    alphaHelix: Option<int>, threeTenHelix: Option<int>, piHelix: Option<int>,
    betaStrand: Option<int>, betaTurn: Option<int>,
    coil: Option<int>, bend: Option<int>, turn: Option<int>, dna: Option<int>, rna: Option<int>, carbohydrate: Option<int>)

  /** The parameters of a colour theme: `{}`, `{ value }`, or the secondary-structure colours
      with `saturation` and `lightness`. */
  datatype ThemeParams = NoParams | UniformValue(value: Option<int>) | SecondaryTheme(colors: SecondaryParams, saturation: int, lightness: int)

  /** The `colorTheme` parameter of a representation. */
  datatype BaseTheme = BaseTheme(name: Option<string>, params: Option<ThemeParams>)

  datatype Representation = Representation(cell: Cell, typeField: TypeField, colorTheme: Option<BaseTheme>)

  datatype Component = Component(cell: Cell, representations: Option<seq<Representation>>)

  /** A structure of the hierarchy; `units` is absent when its data carries no units. */
  datatype Structure = Structure(components: Option<seq<Component>>, units: Option<seq<ChainUnit>>)

  /** What `updateColorTheme` does for a mode: register a per-chain colour theme, register a
      rainbow theme over a palette, or set a named built-in theme on every representation. */
  datatype ThemePlan = ChainColorTheme(chainColors: ChainColors) | RainbowTheme(colors: seq<string>) | NamedTheme(name: string, params: ThemeParams)

  /** The requests the adapter makes to the engine. */
  datatype Command =
    | CreatePlugin(host: Host, defaultBehaviors: bool)
    | ClearPlugin
    | DisposePlugin
    | UnmountRoot(host: Host)
    | ApplyTheme(plan: ThemePlan)
    | DeleteCells(cells: seq<Cell>)
    | AddSurface(component: Cell, opacity: int, colorName: string, colorParams: ThemeParams)
    | ResetCamera

  /** The options of `applySurface`. */
  datatype SurfaceOptions = SurfaceOptions(opacity: Option<int>, inherit: Option<bool>, customColor: Option<string>)

  const FallbackColor: int := 0x4ECDC4

  // ---------------------------------------------------------------- chains

  /** `label_asym_id ?? chainGroupId ?? 'A'`. */
  function UnitChainId(u: ChainUnit): (id: ChainId)
    ensures u.labelAsymId.Some? ==> id == IdStr(u.labelAsymId.value)
    ensures u.labelAsymId.None? && u.chainGroupId.Some? ==> id == u.chainGroupId.value
    ensures u.labelAsymId.None? && u.chainGroupId.None? ==> id == IdStr("A")
  {
    if u.labelAsymId.Some? then IdStr(u.labelAsymId.value)
    else if u.chainGroupId.Some? then u.chainGroupId.value
    else IdStr("A")
  }

  /** JavaScript truthiness of an identifier: the empty string and 0 are false. */
  predicate Truthy(id: ChainId) {
    match id
    case IdStr(s) => s != ""
    case IdNum(n) => n != 0
  }

  function ChainIdString(id: ChainId): string {
    match id
    case IdStr(s) => s
    case IdNum(n) => IntToString(n)
  }

  /** The identifiers `listChains` collects from some units. */
  function UnitIds(units: seq<ChainUnit>): set<string>
    decreases |units|
  {
    if units == [] then {}
    else
      var id := UnitChainId(units[|units| - 1]);
      UnitIds(units[..|units| - 1]) + (if Truthy(id) then {ChainIdString(id)} else {})
  }

  /** The identifiers `listChains` collects from some structures. */
  function ChainIds(structures: seq<Structure>): set<string>
    decreases |structures|
  {
    if structures == [] then {}
    else
      var s := structures[|structures| - 1];
      ChainIds(structures[..|structures| - 1]) + (if s.units.Some? then UnitIds(s.units.value) else {})
  }

  /** An identifier is listed exactly when some unit of some structure yields it. */
  lemma {:induction false} UnitIdsMembers(units: seq<ChainUnit>, x: string)
    ensures x in UnitIds(units) <==> exists k :: 0 <= k < |units| && Truthy(UnitChainId(units[k])) && ChainIdString(UnitChainId(units[k])) == x
    decreases |units|
  {
    if units != [] {
      var p := units[..|units| - 1];
      UnitIdsMembers(p, x);
      if x in UnitIds(p) {
        var k :| 0 <= k < |p| && Truthy(UnitChainId(p[k])) && ChainIdString(UnitChainId(p[k])) == x;
        assert units[k] == p[k];
      }
      if exists k :: 0 <= k < |units| && Truthy(UnitChainId(units[k])) && ChainIdString(UnitChainId(units[k])) == x {
        var k :| 0 <= k < |units| && Truthy(UnitChainId(units[k])) && ChainIdString(UnitChainId(units[k])) == x;
        if k < |p| { assert p[k] == units[k]; }
      }
    }
  }

  /** Units labelled `B` and numbered `1` are listed as `1` then `B`. */
  lemma ListChainsExample()
    ensures ChainIds([Structure(None, Some([ChainUnit(Some("B"), None), ChainUnit(None, Some(IdNum(1)))]))]) == {"1", "B"}
    ensures StrLess("1", "B")
  {
    var us := [ChainUnit(Some("B"), None), ChainUnit(None, Some(IdNum(1)))];
    assert us[..1] == [ChainUnit(Some("B"), None)];
    assert us[..1][..0] == [];
    assert UnitIds(us[..1]) == {"B"};
    assert IntToString(1) == "1";
    assert ChainIdString(UnitChainId(us[1])) == "1";
    assert UnitIds(us) == {"B", "1"};
    var st := [Structure(None, Some(us))];
    assert st[..0] == [];
    assert ChainIds(st) == ChainIds([]) + UnitIds(us);
  }

  /** The chain colour the registered chain theme gives a unit: the colour stored under its
      identifier, read as hexadecimal, or 0x4ECDC4 when there is none or it is empty. */
  function ChainColorFor(chainColors: ChainColors, u: ChainUnit): (r: Option<int>)
    ensures ChainIdString(UnitChainId(u)) !in chainColors ==> r == Some(FallbackColor)
    ensures ChainIdString(UnitChainId(u)) in chainColors && chainColors[ChainIdString(UnitChainId(u))] == "" ==> r == Some(FallbackColor)
    ensures ChainIdString(UnitChainId(u)) in chainColors && chainColors[ChainIdString(UnitChainId(u))] != "" ==>
      r == HexColorValue(chainColors[ChainIdString(UnitChainId(u))])
  {
    var key := ChainIdString(UnitChainId(u));
    if key in chainColors && chainColors[key] != "" then HexColorValue(chainColors[key]) else Some(FallbackColor)
  }

  // ---------------------------------------------------------------- colour themes

  /** The built-in theme a mode maps to. */
  function ThemeName(mode: ThemeMode): (name: string)
    ensures mode == ModeElement <==> name == "element-symbol"
    ensures mode == ModeResidue <==> name == "residue-name"
    ensures mode == ModeSecondary <==> name == "secondary-structure"
    ensures mode == ModeChain <==> name == "chain-id"
    ensures mode == ModeCustom || mode == ModeRainbow <==> name == "uniform"
  {
    match mode
    case ModeElement => "element-symbol"
    case ModeResidue => "residue-name"
    case ModeSecondary => "secondary-structure"
    case ModeChain => "chain-id"
    case _ => "uniform"
  }

  /** The secondary-structure fan-out of the three chosen colours. */
  function SecondaryFanOut(c: SecondaryColors): (p: SecondaryParams)
    ensures p.alphaHelix == p.threeTenHelix == p.piHelix == HexColorValue(c.helix)
    ensures p.betaStrand == p.betaTurn == HexColorValue(c.sheet)
    ensures p.coil == p.bend == p.turn == p.dna == p.rna == p.carbohydrate == HexColorValue(c.coil)
  {
    var h, s, k := HexColorValue(c.helix), HexColorValue(c.sheet), HexColorValue(c.coil);
    SecondaryParams(h, h, h, s, s, k, k, k, k, k, k)
  }

  /** `themeParams`: the uniform value of a non-empty custom colour, the secondary fan-out of
      given secondary colours, and `{}` otherwise. */
  function ThemeParamsFor(mode: ThemeMode, params: ColorThemeParams): (p: ThemeParams)
    ensures mode == ModeCustom && params.hex.Some? && params.hex.value != "" ==> p == UniformValue(HexColorValue(params.hex.value))
    ensures mode == ModeSecondary && params.secondaryColors.Some? ==> p == SecondaryTheme(SecondaryFanOut(params.secondaryColors.value), -1, 0)
    ensures (!(mode == ModeCustom && params.hex.Some? && params.hex.value != "")
      && !(mode == ModeSecondary && params.secondaryColors.Some?)) ==> p == NoParams
  {
    if mode == ModeCustom && params.hex.Some? && params.hex.value != "" then UniformValue(HexColorValue(params.hex.value))
    else if mode == ModeSecondary && params.secondaryColors.Some? then SecondaryTheme(SecondaryFanOut(params.secondaryColors.value), -1, 0)
    else NoParams
  }

  const RainbowColors: seq<string> := ["#0000FF", "#00FFFF", "#00FF00", "#FFFF00", "#FF8000", "#FF0000"]

  /** The palette table. */
  function PaletteTable(name: string): (r: Option<seq<string>>)
    ensures r.Some? ==> |r.value| >= 2
    ensures name == "rainbow" ==> r == Some(RainbowColors)
  {
    if name == "rainbow" then Some(RainbowColors)
    else if name == "viridis" then Some(["#440154", "#482878", "#3e4989", "#31688e", "#26828e", "#1f9e89", "#35b779", "#6ece58", "#b5de2b", "#fde724"])
    else if name == "plasma" then Some(["#0d0887", "#46039f", "#7201a8", "#9c179e", "#bd3786", "#d8576b", "#ed7953", "#fb9f3a", "#fdca26", "#f0f921"])
    else if name == "magma" then Some(["#000004", "#1c1044", "#4f127b", "#812581", "#b5367a", "#e55964", "#fb8861", "#fec287", "#fcfdbf"])
    else if name == "blue-red" then Some(["#0000FF", "#FF0000"])
    else if name == "pastel" then Some(["#FFB3BA", "#FFDFBA", "#FFFFBA", "#BAFFC9", "#BAE1FF", "#E0BBE4"])
    else None
  }

  /** `palettes[params.palette || 'rainbow'] || palettes['rainbow']`. */
  function PaletteColors(palette: Option<string>): (colors: seq<string>)
    ensures |colors| >= 2
    ensures palette.Some? && PaletteTable(palette.value).Some? ==> colors == PaletteTable(palette.value).value
    ensures palette.None? || PaletteTable(palette.value).None? ==> colors == RainbowColors
  {
    var name := if palette.Some? && palette.value != "" then palette.value else "rainbow";
    if PaletteTable(name).Some? then PaletteTable(name).value else RainbowColors
  }

  /** The table knows exactly the six palette names. */
  lemma PaletteTableNames(name: string)
    ensures PaletteTable(name).Some? <==> name in {"rainbow", "viridis", "plasma", "magma", "blue-red", "pastel"}
  {
  }

  /** Each of the six palettes the controls offer is found under its own name. */
  lemma EveryPaletteKnown(p: Palette)
    ensures PaletteTable(PaletteName(p)).Some?
    ensures PaletteColors(Some(PaletteName(p))) == PaletteTable(PaletteName(p)).value
  {
  }

  /** The plan `updateColorTheme(mode, params)` follows once structures exist. */
  function PlanColorTheme(mode: ThemeMode, params: ColorThemeParams): (plan: ThemePlan)
    ensures plan.ChainColorTheme? <==> mode == ModeChain && params.chainColors.Some? && |params.chainColors.value| > 0
    ensures plan.ChainColorTheme? ==> plan.chainColors == params.chainColors.value
    ensures plan.RainbowTheme? <==> mode == ModeRainbow
    ensures plan.RainbowTheme? ==> plan.colors == PaletteColors(params.palette)
    ensures plan.NamedTheme? ==> plan.name == ThemeName(mode) && plan.params == ThemeParamsFor(mode, params)
  {
    if mode == ModeChain && params.chainColors.Some? && |params.chainColors.value| > 0 then ChainColorTheme(params.chainColors.value)
    else if mode == ModeRainbow then RainbowTheme(PaletteColors(params.palette))
    else NamedTheme(ThemeName(mode), ThemeParamsFor(mode, params))
  }

  /** The name a registered theme is known by in the scene. The random suffix the adapter
      appends is not modelled. */
  function RegisteredName(plan: ThemePlan): string {
    match plan
    case ChainColorTheme(_) => "custom-chain-react-"
    case RainbowTheme(_) => "rainbow-sequence-react-"
    case NamedTheme(name, _) => name
  }

  function PlanTheme(plan: ThemePlan): BaseTheme {
    match plan
    case NamedTheme(name, params) => BaseTheme(Some(name), Some(params))
    case _ => BaseTheme(Some(RegisteredName(plan)), Some(NoParams))
  }

  /** A named theme is set on every representation; a registered theme on the representations
      of every component of a structure with at least one component. */
  function ComponentRetheme(c: Component, t: BaseTheme): Component {
    if c.representations.None? then c
    else c.(representations := Some(seq(|c.representations.value|, k requires 0 <= k < |c.representations.value| =>
      c.representations.value[k].(colorTheme := Some(t)))))
  }

  function Rethemed(structures: seq<Structure>, plan: ThemePlan): seq<Structure> {
    seq(|structures|, i requires 0 <= i < |structures| =>
      var s := structures[i];
      if s.components.None? then s
      else s.(components := Some(seq(|s.components.value|, j requires 0 <= j < |s.components.value| =>
        ComponentRetheme(s.components.value[j], PlanTheme(plan))))))
  }

  // ---------------------------------------------------------------- surfaces

  /** `typeof typeField === 'object' ? typeField?.name : typeField`. */
  function TypeNameOf(r: Representation): (t: Option<string>)
    ensures r.typeField.TypeObject? ==> t == r.typeField.name
    ensures r.typeField.TypeString? ==> t == Some(r.typeField.s)
    ensures r.typeField.TypeAbsent? ==> t.None?
  {
    match r.typeField
    case TypeAbsent => None
    case TypeObject(name) => name
    case TypeString(s) => Some(s)
  }

  predicate IsSurface(r: Representation) {
    TypeNameOf(r) == Some("gaussian-surface") || TypeNameOf(r) == Some("molecular-surface")
  }

  /** A representation is a surface when its type names a Gaussian or molecular surface,
      whether the name is the object's `name` or the plain string; a representation without a
      type, or whose type object has no name, is not. */
  lemma SurfaceTypeNames(c: Cell, n: string, theme: Option<BaseTheme>)
    ensures IsSurface(Representation(c, TypeObject(Some(n)), theme)) <==> n == "gaussian-surface" || n == "molecular-surface"
    ensures IsSurface(Representation(c, TypeString(n), theme)) <==> n == "gaussian-surface" || n == "molecular-surface"
    ensures !IsSurface(Representation(c, TypeObject(None), theme)) && !IsSurface(Representation(c, TypeAbsent, theme))
  {
  }

  /** The representations the adapter visits: those of components that have a list, of
      structures that have components. */
  function ComponentReps(comps: seq<Component>): seq<Representation>
    decreases |comps|
  {
    if comps == [] then []
    else
      var c := comps[|comps| - 1];
      ComponentReps(comps[..|comps| - 1]) + c.representations.GetOr([])
  }

  function AllReps(structures: seq<Structure>): seq<Representation>
    decreases |structures|
  {
    if structures == [] then []
    else
      var s := structures[|structures| - 1];
      AllReps(structures[..|structures| - 1]) + ComponentReps(s.components.GetOr([]))
  }

  /** The cells of the surface representations among `reps`, in order. */
  function SurfaceCells(reps: seq<Representation>): seq<Cell>
    decreases |reps|
  {
    if reps == [] then []
    else SurfaceCells(reps[..|reps| - 1]) + (if IsSurface(reps[|reps| - 1]) then [reps[|reps| - 1].cell] else [])
  }

  lemma {:induction false} SurfaceCellsAppend(a: seq<Representation>, b: seq<Representation>)
    ensures SurfaceCells(a + b) == SurfaceCells(a) + SurfaceCells(b)
    decreases |b|
  {
    if b != [] {
      var b' := b[..|b| - 1];
      assert (a + b)[..|a + b| - 1] == a + b';
      assert (a + b)[|a + b| - 1] == b[|b| - 1];
      SurfaceCellsAppend(a, b');
    } else {
      assert a + b == a;
    }
  }

  /** A cell is deleted exactly when it is the cell of a surface representation: a
      `gaussian-surface` or `molecular-surface`, by object name or by plain string. */
  lemma {:induction false} SurfaceCellsExact(reps: seq<Representation>, x: Cell)
    ensures x in SurfaceCells(reps) <==> exists r :: r in reps && IsSurface(r) && r.cell == x
    decreases |reps|
  {
    if reps != [] {
      var p := reps[..|reps| - 1];
      SurfaceCellsExact(p, x);
      assert reps == p + [reps[|reps| - 1]];
    }
  }

  /** A surface given by its object name and one given by a plain string are both deleted,
      in order; a representation without a type is kept. */
  lemma SurfaceCellsExample()
    ensures SurfaceCells([
      Representation(Node(1), TypeObject(Some("gaussian-surface")), None),
      Representation(Node(2), TypeString("molecular-surface"), None),
      Representation(Node(3), TypeAbsent, None)]) == [Node(1), Node(2)]
  {
    var reps := [
      Representation(Node(1), TypeObject(Some("gaussian-surface")), None),
      Representation(Node(2), TypeString("molecular-surface"), None),
      Representation(Node(3), TypeAbsent, None)];
    assert reps[..1][..0] == [];
    assert SurfaceCells(reps[..1]) == [Node(1)];
    assert reps[..2][..1] == reps[..1];
    assert SurfaceCells(reps[..2]) == [Node(1), Node(2)];
    assert reps[..|reps| - 1] == reps[..2];
    assert !IsSurface(reps[2]);
  }

  /** The `toDelete` loop: walk structures, components and representations and collect the
      cells of surface representations. */
  method CollectSurfaceCells(structures: seq<Structure>) returns (toDelete: seq<Cell>)
    ensures toDelete == SurfaceCells(AllReps(structures))
  {
    toDelete := [];
    var i := 0;
    while i < |structures|
      invariant 0 <= i <= |structures|
      invariant toDelete == SurfaceCells(AllReps(structures[..i]))
    {
      assert structures[..i + 1][..i] == structures[..i];
      var comps := structures[i].components.GetOr([]);
      var part := CollectComponentSurfaceCells(comps);
      SurfaceCellsAppend(AllReps(structures[..i]), ComponentReps(comps));
      toDelete := toDelete + part;
      i := i + 1;
    }
    assert structures[..|structures|] == structures;
  }

  /** The two inner levels of the `toDelete` loop. */
  method CollectComponentSurfaceCells(comps: seq<Component>) returns (cells: seq<Cell>)
    ensures cells == SurfaceCells(ComponentReps(comps))
  {
    cells := [];
    var j := 0;
    while j < |comps|
      invariant 0 <= j <= |comps|
      invariant cells == SurfaceCells(ComponentReps(comps[..j]))
    {
      assert comps[..j + 1][..j] == comps[..j];
      var reps := comps[j].representations.GetOr([]);
      var k := 0;
      var part := [];
      while k < |reps|
        invariant 0 <= k <= |reps|
        invariant part == SurfaceCells(reps[..k])
      {
        assert reps[..k + 1][..k] == reps[..k];
        if IsSurface(reps[k]) {
          part := part + [reps[k].cell];
        }
        k := k + 1;
      }
      assert reps[..|reps|] == reps;
      SurfaceCellsAppend(ComponentReps(comps[..j]), reps);
      cells := cells + part;
      j := j + 1;
    }
    assert comps[..|comps|] == comps;
  }

  /** The scene after the engine deleted `cells`. */
  function WithoutCells(structures: seq<Structure>, cells: seq<Cell>): seq<Structure> {
    seq(|structures|, i requires 0 <= i < |structures| =>
      var s := structures[i];
      if s.components.None? then s
      else s.(components := Some(seq(|s.components.value|, j requires 0 <= j < |s.components.value| =>
        var c := s.components.value[j];
        if c.representations.None? then c
        else c.(representations := Some(Keep(c.representations.value, cells)))))))
  }

  function Keep(reps: seq<Representation>, cells: seq<Cell>): (r: seq<Representation>)
    ensures forall x :: x in r ==> x in reps && x.cell !in cells
    decreases |reps|
  {
    if reps == [] then []
    else Keep(reps[..|reps| - 1], cells) + (if reps[|reps| - 1].cell in cells then [] else [reps[|reps| - 1]])
  }

  /** The colour of a new surface: the first representation's theme when inheriting (name
      `chain-id` and `{}` by default), else the custom colour, else 0x4ECDC4. */
  function SurfaceColor(c: Component, options: SurfaceOptions): (r: (string, ThemeParams))
    ensures options.inherit == Some(true) ==>
      var base := if c.representations.Some? && |c.representations.value| > 0 then c.representations.value[0].colorTheme else None;
      && (base.Some? && base.value.name.Some? && base.value.name.value != "" ==> r.0 == base.value.name.value)
      && (!(base.Some? && base.value.name.Some? && base.value.name.value != "") ==> r.0 == "chain-id")
      && (base.Some? && base.value.params.Some? ==> r.1 == base.value.params.value)
      && (!(base.Some? && base.value.params.Some?) ==> r.1 == NoParams)
    ensures options.inherit != Some(true) && options.customColor.Some? && options.customColor.value != "" ==>
      r == ("uniform", UniformValue(HexColorValue(options.customColor.value)))
    ensures options.inherit != Some(true) && !(options.customColor.Some? && options.customColor.value != "") ==>
      r == ("uniform", UniformValue(Some(FallbackColor)))
  {
    if options.inherit == Some(true) then
      var base := if c.representations.Some? && |c.representations.value| > 0 then c.representations.value[0].colorTheme else None;
      var name := if base.Some? && base.value.name.Some? && base.value.name.value != "" then base.value.name.value else "chain-id";
      var params := if base.Some? && base.value.params.Some? then base.value.params.value else NoParams;
      (name, params)
    else if options.customColor.Some? && options.customColor.value != "" then
      ("uniform", UniformValue(HexColorValue(options.customColor.value)))
    else
      ("uniform", UniformValue(Some(FallbackColor)))
  }

  /** The `addRepresentation` request for one component. */
  function AddFor(c: Component, options: SurfaceOptions): (r: Command)
    ensures r.AddSurface? && r.component == c.cell && r.opacity == options.opacity.GetOr(40)
    ensures (r.colorName, r.colorParams) == SurfaceColor(c, options)
  {
    var color := SurfaceColor(c, options);
    AddSurface(c.cell, options.opacity.GetOr(40), color.0, color.1)
  }

  /** The component once the engine added its new surface at the end. */
  function WithSurface(c: Component, options: SurfaceOptions): Component {
    var color := SurfaceColor(c, options);
    var rep := Representation(SurfaceOf(c.cell), TypeObject(Some("gaussian-surface")), Some(BaseTheme(Some(color.0), Some(color.1))));
    c.(representations := Some(c.representations.GetOr([]) + [rep]))
  }

  /** The requests for the components of some structures, in order. */
  function AddsFor(structures: seq<Structure>, options: SurfaceOptions): seq<Command>
    decreases |structures|
  {
    if structures == [] then []
    else
      var s := structures[|structures| - 1];
      AddsFor(structures[..|structures| - 1], options) + AddsForComponents(s.components.GetOr([]), options)
  }

  function AddsForComponents(comps: seq<Component>, options: SurfaceOptions): seq<Command>
    decreases |comps|
  {
    if comps == [] then []
    else AddsForComponents(comps[..|comps| - 1], options) + [AddFor(comps[|comps| - 1], options)]
  }

  function WithSurfaces(structures: seq<Structure>, options: SurfaceOptions): seq<Structure> {
    seq(|structures|, i requires 0 <= i < |structures| =>
      var s := structures[i];
      if s.components.None? then s
      else s.(components := Some(seq(|s.components.value|, j requires 0 <= j < |s.components.value| =>
        WithSurface(s.components.value[j], options)))))
  }

  /** The add loop: one surface request per component of every structure that has
      components, each with the colour `SurfaceColor` chooses. */
  method CollectSurfaceAdds(structures: seq<Structure>, options: SurfaceOptions) returns (adds: seq<Command>)
    ensures adds == AddsFor(structures, options)
  {
    adds := [];
    var i := 0;
    while i < |structures|
      invariant 0 <= i <= |structures|
      invariant adds == AddsFor(structures[..i], options)
    {
      assert structures[..i + 1][..i] == structures[..i];
      var s := structures[i];
      if s.components.Some? {
        var comps := s.components.value;
        var j := 0;
        while j < |comps|
          invariant 0 <= j <= |comps|
          invariant adds == AddsFor(structures[..i], options) + AddsForComponents(comps[..j], options)
        {
          assert comps[..j + 1][..j] == comps[..j];
          var color := SurfaceColor(comps[j], options);
          adds := adds + [AddSurface(comps[j].cell, options.opacity.GetOr(40), color.0, color.1)];
          j := j + 1;
        }
        assert comps[..|comps|] == comps;
      }
      i := i + 1;
    }
    assert structures[..|structures|] == structures;
  }

  /** Number of surface representations of a component. */
  function SurfaceCount(reps: seq<Representation>): nat
    decreases |reps|
  {
    if reps == [] then 0
    else SurfaceCount(reps[..|reps| - 1]) + (if IsSurface(reps[|reps| - 1]) then 1 else 0)
  }

  lemma {:induction false} SurfaceCountAppend(a: seq<Representation>, r: Representation)
    ensures SurfaceCount(a + [r]) == SurfaceCount(a) + (if IsSurface(r) then 1 else 0)
  {
    assert (a + [r])[..|a + [r]| - 1] == a;
  }

  lemma {:induction false} NoSurfaceCountZero(reps: seq<Representation>)
    requires forall r :: r in reps ==> !IsSurface(r)
    ensures SurfaceCount(reps) == 0
    decreases |reps|
  {
    if reps != [] {
      NoSurfaceCountZero(reps[..|reps| - 1]);
    }
  }

  lemma {:induction false} ComponentRepsMember(comps: seq<Component>, j: nat, r: Representation)
    requires j < |comps| && comps[j].representations.Some? && r in comps[j].representations.value
    ensures r in ComponentReps(comps)
    decreases |comps|
  {
    if j < |comps| - 1 {
      ComponentRepsMember(comps[..|comps| - 1], j, r);
    }
  }

  lemma {:induction false} AllRepsMember(structures: seq<Structure>, i: nat, j: nat, r: Representation)
    requires i < |structures| && structures[i].components.Some?
    requires j < |structures[i].components.value|
    requires structures[i].components.value[j].representations.Some?
    requires r in structures[i].components.value[j].representations.value
    ensures r in AllReps(structures)
    decreases |structures|
  {
    if i < |structures| - 1 {
      AllRepsMember(structures[..|structures| - 1], i, j, r);
    } else {
      ComponentRepsMember(structures[i].components.value, j, r);
    }
  }

  /** After the deletion no representation of any component is a surface. */
  lemma NoSurfaceLeft(structures: seq<Structure>, i: nat, j: nat)
    requires i < |structures| && structures[i].components.Some? && j < |structures[i].components.value|
    ensures
      var after := WithoutCells(structures, SurfaceCells(AllReps(structures)));
      var c := after[i].components.value[j];
      c.representations.Some? ==> SurfaceCount(c.representations.value) == 0
  {
    var cells := SurfaceCells(AllReps(structures));
    var after := WithoutCells(structures, cells);
    var c0 := structures[i].components.value[j];
    var c := after[i].components.value[j];
    if c.representations.Some? {
      assert c.representations.value == Keep(c0.representations.value, cells);
      forall r | r in c.representations.value ensures !IsSurface(r) {
        assert r in c0.representations.value && r.cell !in cells;
        if IsSurface(r) {
          AllRepsMember(structures, i, j, r);
          SurfaceCellsExact(AllReps(structures), r.cell);
        }
      }
      NoSurfaceCountZero(c.representations.value);
    }
  }

  /** Enabling the surface leaves exactly one surface on every component: the old ones are
      deleted first and one new one is added. */
  lemma ExactlyOneSurface(structures: seq<Structure>, options: SurfaceOptions, i: nat, j: nat)
    requires i < |structures| && structures[i].components.Some? && j < |structures[i].components.value|
    ensures
      var after := WithSurfaces(WithoutCells(structures, SurfaceCells(AllReps(structures))), options);
      var c := after[i].components.value[j];
      c.representations.Some? && SurfaceCount(c.representations.value) == 1
  {
    var removed := WithoutCells(structures, SurfaceCells(AllReps(structures)));
    NoSurfaceLeft(structures, i, j);
    var c0 := removed[i].components.value[j];
    var color := SurfaceColor(c0, options);
    var rep := Representation(SurfaceOf(c0.cell), TypeObject(Some("gaussian-surface")), Some(BaseTheme(Some(color.0), Some(color.1))));
    if c0.representations.None? {
      NoSurfaceCountZero([]);
    }
    SurfaceCountAppend(c0.representations.GetOr([]), rep);
  }

  /** A surface that inherits its colour takes the theme the last colour update set: after
      `updateColorTheme(mode, params)` every component whose first representation exists gets
      that theme's name and parameters. */
  lemma InheritFollowsTheme(structures: seq<Structure>, mode: ThemeMode, params: ColorThemeParams, options: SurfaceOptions, i: nat, j: nat)
    requires i < |structures| && structures[i].components.Some? && j < |structures[i].components.value|
    requires structures[i].components.value[j].representations.Some? && |structures[i].components.value[j].representations.value| > 0
    requires options.inherit == Some(true)
    ensures
      var plan := PlanColorTheme(mode, params);
      var c := Rethemed(structures, plan)[i].components.value[j];
      SurfaceColor(c, options) == (RegisteredName(plan), PlanTheme(plan).params.value)
  {
    var plan := PlanColorTheme(mode, params);
    assert RegisteredName(plan) != "" by {
      if plan.NamedTheme? {
        assert plan.name == ThemeName(mode);
      }
    }
  }

  // ---------------------------------------------------------------- mount state

  /** The page: whether a browser window exists, and the flag that lets only the first plugin
      on the page keep the default behaviours. */
  class Page {
    const hasWindow: bool
    var behaviorsInitialized: bool
    /** How many plugins were created with the default behaviours. */
    ghost var defaultPlugins: nat

    ghost predicate Valid()
      reads this
    {
      defaultPlugins == if behaviorsInitialized then 1 else 0
    }

    constructor (hasWindow: bool)
      ensures Valid() && this.hasWindow == hasWindow && !behaviorsInitialized && defaultPlugins == 0
    {
      this.hasWindow := hasWindow;
      behaviorsInitialized := false;
      defaultPlugins := 0;
    }
  }

  /** One handle returned by `createMolstarViewer`: whether a plugin exists (`viewer`), the
      host it is bound to, the hosts with a cached React root, the engine's structures and the
      requests made so far. */
  class Viewer {
    var mounted: bool
    var hostEl: Option<Host>
    var rootCache: set<Host>
    var scene: seq<Structure>
    var log: seq<Command>

    /** A plugin exists exactly when a host is bound, and that host has a cached root; without
        a plugin there is no scene. */
    ghost predicate Valid()
      reads this
    {
      (mounted <==> hostEl.Some?) && (mounted ==> hostEl.value in rootCache) && (!mounted ==> scene == [])
    }

    constructor ()
      ensures Valid() && !mounted && hostEl == None && rootCache == {} && scene == [] && log == []
    {
      mounted := false;
      hostEl := None;
      rootCache := {};
      scene := [];
      log := [];
    }

    /** `mount(container)`. Same host: nothing happens. Another host: the old plugin is cleared
        and disposed, the old host's root unmounted and forgotten, and the binding cleared; then,
        in a browser, a plugin is created on the container, keeping the default behaviours only
        if no plugin on the page has done so before. */
    method Mount(page: Page, container: Host)
      requires Valid() && page.Valid()
      modifies this, page
      ensures Valid() && page.Valid()
      ensures old(mounted) && old(hostEl) == Some(container) ==>
        mounted && hostEl == old(hostEl) && rootCache == old(rootCache) && scene == old(scene) && log == old(log)
        && page.behaviorsInitialized == old(page.behaviorsInitialized) && page.defaultPlugins == old(page.defaultPlugins)
      ensures !(old(mounted) && old(hostEl) == Some(container)) ==>
        var teardown := if old(mounted) then [ClearPlugin, DisposePlugin, UnmountRoot(old(hostEl).value)] else [];
        var kept := if old(mounted) then old(rootCache) - {old(hostEl).value} else old(rootCache);
        && (!page.hasWindow ==>
              && !mounted && hostEl == None && rootCache == kept && log == old(log) + teardown
              && (old(mounted) ==> scene == []) && (!old(mounted) ==> scene == old(scene))
              && page.behaviorsInitialized == old(page.behaviorsInitialized) && page.defaultPlugins == old(page.defaultPlugins))
        && (page.hasWindow ==>
              && mounted && hostEl == Some(container) && rootCache == kept + {container} && scene == []
              && log == old(log) + teardown + [CreatePlugin(container, !old(page.behaviorsInitialized))]
              && page.behaviorsInitialized
              && page.defaultPlugins == old(page.defaultPlugins) + (if old(page.behaviorsInitialized) then 0 else 1))
    {
      if mounted && hostEl == Some(container) {
        return;
      }
      if mounted && hostEl.Some? && hostEl.value != container {
        log := log + [ClearPlugin, DisposePlugin];
        scene := [];
        if hostEl.value in rootCache {
          log := log + [UnmountRoot(hostEl.value)];
          rootCache := rootCache - {hostEl.value};
        }
        mounted := false;
        hostEl := None;
      }
      if !page.hasWindow {
        return;
      }
      var keepDefaults := !page.behaviorsInitialized;
      if keepDefaults {
        page.behaviorsInitialized := true;
        page.defaultPlugins := page.defaultPlugins + 1;
      }
      log := log + [CreatePlugin(container, keepDefaults)];
      rootCache := rootCache + {container};
      scene := [];
      mounted := true;
      hostEl := Some(container);
    }

    /** `clear()`: clears the plugin's scene if there is one. */
    method Clear()
      modifies this
      ensures mounted == old(mounted) && hostEl == old(hostEl) && rootCache == old(rootCache)
      ensures old(mounted) ==> scene == [] && log == old(log) + [ClearPlugin]
      ensures !old(mounted) ==> scene == old(scene) && log == old(log)
    {
      if mounted {
        log := log + [ClearPlugin];
        scene := [];
      }
    }

    /** `resetView()`. */
    method ResetView()
      modifies this
      ensures mounted == old(mounted) && hostEl == old(hostEl) && rootCache == old(rootCache) && scene == old(scene)
      ensures log == old(log) + (if old(mounted) then [ResetCamera] else [])
    {
      if mounted {
        log := log + [ResetCamera];
      }
    }

    /** `listChains()`: the distinct truthy chain identifiers of all units, as strings, sorted;
        nothing when no plugin exists. */
    method ListChains() returns (chains: seq<string>)
      ensures !mounted ==> chains == []
      ensures mounted ==> StrictlySorted(chains) && forall x :: x in chains <==> x in ChainIds(scene)
    {
      if !mounted {
        return [];
      }
      var out: set<string> := {};
      var i := 0;
      while i < |scene|
        invariant 0 <= i <= |scene|
        invariant out == ChainIds(scene[..i])
      {
        assert scene[..i + 1][..i] == scene[..i];
        var units := scene[i].units;
        if units.Some? {
          var us := units.value;
          var j := 0;
          while j < |us|
            invariant 0 <= j <= |us|
            invariant out == ChainIds(scene[..i]) + UnitIds(us[..j])
          {
            assert us[..j + 1][..j] == us[..j];
            var id := UnitChainId(us[j]);
            if Truthy(id) {
              out := out + {ChainIdString(id)};
            }
            j := j + 1;
          }
          assert us[..|us|] == us;
        }
        i := i + 1;
      }
      assert scene[..|scene|] == scene;
      chains := SortStrings(out);
    }

    /** `updateColorTheme(mode, params)`: nothing without a plugin or without structures;
        otherwise the plan for the mode is applied to the scene's representations. */
    method UpdateColorTheme(mode: ThemeMode, params: ColorThemeParams)
      modifies this
      ensures mounted == old(mounted) && hostEl == old(hostEl) && rootCache == old(rootCache)
      ensures !old(mounted) || old(scene) == [] ==> scene == old(scene) && log == old(log)
      ensures old(mounted) && old(scene) != [] ==>
        log == old(log) + [ApplyTheme(PlanColorTheme(mode, params))]
        && scene == Rethemed(old(scene), PlanColorTheme(mode, params))
    {
      if !mounted || |scene| == 0 {
        return;
      }
      var plan := PlanColorTheme(mode, params);
      var next := Rethemed(scene, plan);
      log := log + [ApplyTheme(plan)];
      scene := next;
    }

    /** `resetColorTheme()`: every representation gets `chain-id` with `{}`. */
    method ResetColorTheme()
      modifies this
      ensures mounted == old(mounted) && hostEl == old(hostEl) && rootCache == old(rootCache)
      ensures !old(mounted) || old(scene) == [] ==> scene == old(scene) && log == old(log)
      ensures old(mounted) && old(scene) != [] ==>
        log == old(log) + [ApplyTheme(NamedTheme("chain-id", NoParams))]
        && scene == Rethemed(old(scene), NamedTheme("chain-id", NoParams))
    {
      if !mounted || |scene| == 0 {
        return;
      }
      log := log + [ApplyTheme(NamedTheme("chain-id", NoParams))];
      scene := Rethemed(scene, NamedTheme("chain-id", NoParams));
    }

    /** `applySurface(enabled, options)`: nothing without a plugin or structures; otherwise
        every surface representation is deleted (one request, only if there is one), and, when
        enabled, one surface is requested per component with the colour `SurfaceColor` picks
        from the refreshed scene. */
    method ApplySurface(enabled: bool, options: SurfaceOptions)
      modifies this
      ensures mounted == old(mounted) && hostEl == old(hostEl) && rootCache == old(rootCache)
      ensures !old(mounted) || old(scene) == [] ==> scene == old(scene) && log == old(log)
      ensures old(mounted) && old(scene) != [] ==>
        var cells := SurfaceCells(AllReps(old(scene)));
        var removed := WithoutCells(old(scene), cells);
        var deletion := if cells != [] then [DeleteCells(cells)] else [];
        && (!enabled ==> scene == removed && log == old(log) + deletion)
        && (enabled ==> scene == WithSurfaces(removed, options) && log == old(log) + deletion + AddsFor(removed, options))
    {
      if !mounted || |scene| == 0 {
        return;
      }
      var toDelete := CollectSurfaceCells(scene);
      var deletion: seq<Command> := if |toDelete| > 0 then [DeleteCells(toDelete)] else [];
      var removed := WithoutCells(scene, toDelete);
      if !enabled {
        log := log + deletion;
        scene := removed;
        return;
      }
      var adds := CollectSurfaceAdds(removed, options);
      log := log + deletion + adds;
      scene := WithSurfaces(removed, options);
    }
  }
}
