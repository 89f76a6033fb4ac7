# nano-protein-viewer-react — a Dafny model of its settings, adapter and grid logic

The repository wraps the Mol* molecular viewer in a React component. This project models
the logic around that wrapping:

- **`ViewerSettings`** models `NanoProteinViewer.tsx`. It covers:
  - format detection;
  - validation of the `color` URL parameter;
  - default chain colours;
  - the record built for a file when the user switches to it, and how the URL mode, the saved record, the structure's style and the current controls take precedence;
  - the per-file settings map (`settingsByFile`), as class `SettingsStore` whose methods update it one key at a time;
  - the dispatch of a colour mode to at most one theme update.
- **`Molstar`** models `molstar.ts`. It covers:
  - the mount state of one viewer handle, and the page-wide flag that lets only the first plugin keep the default behaviours (classes `Viewer` and `Page`);
  - `listChains`;
  - the colour-theme plan for each mode: theme name, hexadecimal parameters, the secondary-structure fan-out, and the chain-colour and palette fallbacks;
  - the surface rule of `applySurface`.

  The engine is abstract. Each request the adapter makes is appended to a command log. The part of the scene the adapter reads is a field: structures, their components and representations, and the chain units.
- **`Controls`** models `ControlsPanel.tsx`:
  - local file sniffing;
  - turning chosen files into load items;
  - the one-field edits of the surface and secondary-colour records;
  - the values the colour inputs show;
  - the mode labels.
- **`Grid`** models `GridView.tsx`. `GridState` is a class with an array of viewer slots and the least-recently-used order of active tiles. `Activate`, `DeactivateOldest` and `Reset` change both in place. The module also has the column and row computation.
- **`Text`** holds the JavaScript string operations the above rely on: `toLowerCase`, `endsWith`, `includes`, `replace('#', '')`, `parseInt(s, 16)`, `String(n)` and the default string sort. **`Types`** mirrors `src/types.ts` and the component's state records.

Other inputs are parameters of the model:
- the `color` URL parameter;
- the chains the engine reports after a load;
- whether a grid tile's host element exists;
- whether a callback prop was given.

JavaScript `undefined` and `null` become `Option.None`, and `NaN` from `parseInt` becomes `None`.

## Model

| member | source | states |
|---|---|---|
| Text.ParseIntHex | src/utils/molstar.ts:344 | `parseInt(s, 16)` yields a number exactly when, after white space, an optional sign and an optional `0x`, a hexadecimal digit follows (`NaN` otherwise) |
| Text.TrimStartSuffix | src/utils/molstar.ts:344 | skipping the leading white space removes only a prefix |
| Text.ParseIntHexValue | src/utils/molstar.ts:344 | hexadecimal digits followed by a non-digit (and not a lone `0` before `x`) read as the exact integer they denote; from 2^53 up JavaScript rounds it (see Left out) |
| Text.ParseIntHexNegative | src/utils/molstar.ts:344 | a `-` before a number negates it, and `NaN` stays `NaN` |
| Text.ParseIntHexPrefixed | src/utils/molstar.ts:344 | a `0x` prefix is skipped before the digits |
| Text.OneDigitColor | src/utils/molstar.ts:344 | `#` with one hexadecimal digit reads as that digit's value |
| Text.ShortColorExamples | __tests__/molstar.util.test.ts:118 | the test's secondary colours `#a`, `#b`, `#c` read as 10, 11, 12 |
| Text.Capitalize | src/components/Panels/ControlsPanel.tsx:91 | same length, first character upper-cased, the rest unchanged |
| Text.ToLower | src/components/NanoProteinViewer.tsx:172 | `toLowerCase` keeps the length and maps every capital ASCII letter to its small letter, every other character to itself |
| Text.RemoveFirstHash | src/utils/molstar.ts:344 | `replace('#','')` shortens the string by one if it holds a `#` and leaves it unchanged otherwise |
| Text.RemoveFirstHashAt | src/utils/molstar.ts:344 | when the first `#` is at index k, the result is the string with exactly that character taken out |
| Text.HexColorParsesItsDigits | src/utils/molstar.ts:344 | every `#RGB`/`#RRGGBB` string is read as exactly the number its digits denote, below 16^3 or 16^6 |
| Text.NatToStringInjective | src/components/NanoProteinViewer.tsx:168 | `String(idx)` is injective on indices |
| Text.SortStrings | src/utils/molstar.ts:429 | `Array.from(set).sort()` returns a strictly increasing list with exactly the set's elements |
| ViewerSettings.DetectFormat | src/components/NanoProteinViewer.tsx:170-176 | explicit format wins; otherwise mmcif iff the lower-cased name ends `.cif`/`.mmcif`, sdf iff it ends `.sdf` and not those, else pdb |
| ViewerSettings.DetectFormatIgnoresCase | src/components/NanoProteinViewer.tsx:172 | the case of the name does not change the detected format |
| ViewerSettings.FetchedFormat | src/components/NanoProteinViewer.tsx:182 | a fetched entry gets its explicit format, else the format detected from its name when it has one, else from its URL |
| ViewerSettings.ParseColorMode | src/components/NanoProteinViewer.tsx:135-136 | an accepted parameter is the name of the mode it yields |
| ViewerSettings.ParseModeNameRoundTrip | src/components/NanoProteinViewer.tsx:135-137 | each of the seven mode names is accepted as that mode |
| ViewerSettings.UrlColorMode | src/components/NanoProteinViewer.tsx:119-123 | the parameter gives a mode iff it is present and one of the seven names, and then that mode |
| ViewerSettings.InitialColorMode | src/components/NanoProteinViewer.tsx:131-140 | the initial mode is the URL's valid mode, else `custom` |
| ViewerSettings.ChainColorMapKeys | src/components/NanoProteinViewer.tsx:214-216 | the default chain-colour map has exactly the detected chains as keys |
| ViewerSettings.ChainColorMapAt | src/components/NanoProteinViewer.tsx:342-346 | the i-th detected chain maps to `defaults[i mod 10]` (unless detected again later) |
| ViewerSettings.AssignDefaultChainColors | src/components/NanoProteinViewer.tsx:212-219 | the `forEach` loop builds exactly that map |
| ViewerSettings.ChainColorsAfterDetect | src/components/NanoProteinViewer.tsx:340-347 | with detected chains: exactly those keys, the i-th chain (unless detected again later) mapped to `defaults[i mod 10]`; without chains the current colours stay |
| ViewerSettings.GetKey | src/components/NanoProteinViewer.tsx:168 | the key is the file's name, or the index in decimal when the name is empty or missing; never empty |
| ViewerSettings.UnnamedKeysDistinct | src/components/NanoProteinViewer.tsx:168 | two unnamed files are saved under different keys |
| ViewerSettings.NamedAndUnnamedKeysMeet | src/components/NanoProteinViewer.tsx:168 | a file named `1` at index 0 and an unnamed file at index 1 share the key `1` |
| ViewerSettings.FirstUnnamedKeysDiffer | src/components/NanoProteinViewer.tsx:221 | an unnamed first file is stored by the initial load under its name `''`, while `getKey(0)` is `0` |
| ViewerSettings.ResolveColorMode | src/components/NanoProteinViewer.tsx:359 | precedence: URL mode, else saved mode, else style mode, else current mode |
| ViewerSettings.NextSettings | src/components/NanoProteinViewer.tsx:360-377 | with a saved record: that record with the new mode and chain colours; without one: the style overrides the current values field by field, the surface is enabled iff the style's surface is, and its opacity, inherit flag and colour are the style surface's, else the current ones |
| ViewerSettings.ReturnRestoresSaved | src/components/NanoProteinViewer.tsx:359-364 | without a URL mode, returning to a saved file restores its record except the chain colours |
| ViewerSettings.Dispatch | src/components/NanoProteinViewer.tsx:391-406 | no update iff the mode is none or custom with an empty colour; otherwise one update for that mode with that mode's parameters |
| ViewerSettings.DispatchedPlan | src/components/NanoProteinViewer.tsx:391-406 | what the adapter does with each dispatched update: theme name and parameters per mode, the chain theme only with a non-empty map, the selected palette |
| ViewerSettings.DefaultPaletteIsHex | src/components/NanoProteinViewer.tsx:342 | every default chain colour is a `#RRGGBB` colour |
| ViewerSettings.DefaultColorReachesEngine | src/utils/molstar.ts:233-236 | a chain given its default colour is drawn in that palette entry's numeric value |
| ViewerSettings.InitialSettings | src/components/NanoProteinViewer.tsx:131-147 | the start values: the initial mode, no custom colour, no chain colours, surface `{false, 40, true, #4ECDC4}`, not illustrative; no theme update iff the URL gives no mode, `none` or `custom` |
| ViewerSettings.ApplyInitialStyle | src/components/NanoProteinViewer.tsx:230-250 | the style branch of the initial load: mode and chain colours set; custom colour and illustrative flag from the style when given; secondary colours and palette kept; a style surface replaces the surface, its missing fields falling back to 40, `true` and `#4ECDC4` |
| ViewerSettings.InitialStyleAgainstRecord | src/components/NanoProteinViewer.tsx:230-264 | the controls and the record stored for the first file agree except in the surface: their fallbacks for missing style-surface fields differ (40/`true`/`#4ECDC4` against the current surface), and without a style surface the record stores the current surface disabled |
| ViewerSettings.SettingsStore.constructor | src/components/NanoProteinViewer.tsx:141-147 | the initial controls, an empty settings map, no file |
| ViewerSettings.SettingsStore.OnUrlChange | src/components/NanoProteinViewer.tsx:119-123 | a valid `color` parameter replaces the mode; nothing else changes |
| ViewerSettings.SettingsStore.Persist | src/components/NanoProteinViewer.tsx:480-489 | only the entry of the current key changes, to the current controls; nothing without a current file |
| ViewerSettings.SettingsStore.SetChainColor | src/components/NanoProteinViewer.tsx:545 | one chain's colour is replaced |
| ViewerSettings.SettingsStore.AddLocalStructures | src/components/NanoProteinViewer.tsx:554-556 | local items are appended, without a style, old entries unchanged |
| ViewerSettings.SettingsStore.SelectIndex | src/components/NanoProteinViewer.tsx:310-406 | out of range: nothing; otherwise persist the current controls, build the next record from the saved record as it was before the call, store it under the file's key, and return its dispatch; the surface request that follows (line 408) is `Viewer.ApplySurface` on the new `current.surface` |
| ViewerSettings.SettingsStore.InitialLoad | src/components/NanoProteinViewer.tsx:193-295 | the first structure becomes current; with a style its record is written; without a style an existing entry is left untouched and a missing one gets the controls as they were; the dispatch of the result is returned |
| Molstar.UnitChainId | src/utils/molstar.ts:424 | `label_asym_id`, else `chainGroupId`, else `'A'` |
| Molstar.UnitIdsMembers | src/utils/molstar.ts:423-426 | an id is collected iff some unit's `label_asym_id ?? chainGroupId ?? 'A'` is truthy and prints as it |
| Molstar.ListChainsExample | __tests__/molstar.util.test.ts:124-133 | units `B` and `1` are listed as `1`, `B` |
| Molstar.ChainColorFor | src/utils/molstar.ts:233-236 | a chain missing from the map or mapped to `''` gets 0x4ECDC4; otherwise its colour read as hexadecimal |
| Molstar.ThemeName | src/utils/molstar.ts:331-340 | element→element-symbol, residue→residue-name, secondary→secondary-structure, chain→chain-id, custom and rainbow→uniform, each iff |
| Molstar.SecondaryFanOut | src/utils/molstar.ts:347-368 | the helix colour goes to the three helix kinds, the sheet colour to strand and turn, the coil colour to the other six |
| Molstar.ThemeParamsFor | src/utils/molstar.ts:342-371 | custom with a colour gives its uniform value, secondary with colours gives the fan-out with saturation -1 and lightness 0, everything else `{}` |
| Molstar.PaletteTable | src/utils/molstar.ts:257-264 | `rainbow` gives the rainbow table; every table has at least two colours |
| Molstar.PaletteTableNames | src/utils/molstar.ts:257-264 | a name is in the table iff it is one of the six palettes |
| Molstar.PaletteColors | src/utils/molstar.ts:257-266 | a known palette gives its table; absent, empty or unknown names give the rainbow table |
| Molstar.EveryPaletteKnown | src/utils/molstar.ts:257-264 | the six palettes the controls offer are all in the table |
| Molstar.PlanColorTheme | src/utils/molstar.ts:222-345 | the chain theme iff mode chain with a non-empty map, the rainbow theme iff mode rainbow, otherwise the named theme with its parameters |
| Molstar.TypeNameOf | src/utils/molstar.ts:473 | a type object gives its name, a type string itself, no type nothing |
| Molstar.SurfaceTypeNames | src/utils/molstar.ts:472-474 | a representation is a surface iff its type, as object name or string, names a Gaussian or molecular surface; one without a type or without a name is not |
| Molstar.SurfaceCellsExact | src/utils/molstar.ts:471-474 | a cell is deleted iff it belongs to a representation whose type, as object name or string, is `gaussian-surface` or `molecular-surface` |
| Molstar.SurfaceCellsExample | __tests__/molstar.util.test.ts:167-177 | both seeded surface kinds are deleted |
| Molstar.CollectSurfaceCells | src/utils/molstar.ts:466-477 | the nested loop collects exactly the surface cells of all representations, in order |
| Molstar.CollectComponentSurfaceCells | src/utils/molstar.ts:469-476 | the same for the components of one structure |
| Molstar.SurfaceColor | src/utils/molstar.ts:495-508 | inherit: the first representation's theme name (default `chain-id`) and parameters (default `{}`); else a custom colour as a uniform value; else uniform 0x4ECDC4 |
| Molstar.AddFor | src/utils/molstar.ts:510-515 | one surface request on the component's cell, with `opacity ?? 40` and the colour `SurfaceColor` chooses |
| Molstar.CollectSurfaceAdds | src/utils/molstar.ts:490-520 | one surface request per component of the refreshed scene, in order |
| Molstar.NoSurfaceLeft | src/utils/molstar.ts:464-483 | after the deletion no component has a surface representation |
| Molstar.ExactlyOneSurface | src/utils/molstar.ts:464-520 | an enabled surface leaves exactly one surface on every component, whatever was there before |
| Molstar.InheritFollowsTheme | src/utils/molstar.ts:497-501 | an inheriting surface takes the theme the last colour update set |
| Molstar.Page.constructor | src/utils/molstar.ts:8 | no plugin has taken the default behaviours yet |
| Molstar.Viewer.constructor | src/utils/molstar.ts:53-56 | no plugin, no host, no cached roots |
| Molstar.Viewer.Mount | src/utils/molstar.ts:58-159 | same host: no-op; another host: clear, dispose, unmount and forget the old root, unbind; then, in a browser, create a plugin on the container keeping the default behaviours only if it is the page's first |
| Molstar.Viewer.Clear | src/utils/molstar.ts:161-164 | clears the scene iff a plugin exists |
| Molstar.Viewer.ResetView | src/utils/molstar.ts:523-526 | resets the camera iff a plugin exists |
| Molstar.Viewer.ListChains | src/utils/molstar.ts:414-430 | empty without a plugin; otherwise strictly sorted with exactly the collected ids |
| Molstar.Viewer.UpdateColorTheme | src/utils/molstar.ts:213-390 | nothing without a plugin or structures; otherwise the mode's plan is applied to the representations |
| Molstar.Viewer.ResetColorTheme | src/utils/molstar.ts:392-412 | every representation gets `chain-id` with `{}` |
| Molstar.Viewer.ApplySurface | src/utils/molstar.ts:458-521 | delete the surface cells (one request, only if any), stop if disabled, else one new surface per component |
| Controls.DetectLocalFormat | src/components/Panels/ControlsPanel.tsx:38-45 | never sdf; `.cif`/`.mmcif` then `.pdb`/`.pdbqt` on the lower-cased name; null iff no extension and no content marker |
| Controls.ContentDecidesWithoutExtension | src/components/Panels/ControlsPanel.tsx:42-43 | without extension `data_`/`_atom_site` give mmcif, else `ATOM`/`HETATM` give pdb |
| Controls.ExtensionWinsOverContent | src/components/Panels/ControlsPanel.tsx:39-41 | upper-case extensions are recognised and beat the content |
| Controls.ExampleNamesDecide | __tests__/components/ControlsPanel.files.test.tsx:28-29 | `1CRN.pdb` is pdb and `AF.cif` is mmcif whatever their content |
| Controls.Recognised | src/components/Panels/ControlsPanel.tsx:49-55 | at most one item per file |
| Controls.RecognisedFormats | src/components/Panels/ControlsPanel.tsx:52-53 | each item carries its file's detected format; one item per file when every file is detected |
| Controls.RecognisedAppend | src/components/Panels/ControlsPanel.tsx:50-54 | recognising files commutes with splitting them |
| Controls.RecognisedExact | src/components/Panels/ControlsPanel.tsx:50-54 | an item is produced iff a file with that name and text has that detected format |
| Controls.RecognisedExample | __tests__/components/ControlsPanel.files.test.tsx:28-35 | the two uploaded files become two items in order |
| Controls.HandleFiles | src/components/Panels/ControlsPanel.tsx:47-56 | the callback is called iff files and callback exist and some file is recognised, with the recognised files in order |
| Controls.SetEnabled | src/components/Panels/ControlsPanel.tsx:213-218 | changes only `enabled` |
| Controls.SetOpacity | src/components/Panels/ControlsPanel.tsx:229-234 | changes only `opacity` |
| Controls.SetInherit | src/components/Panels/ControlsPanel.tsx:242-247 | changes only `inherit` |
| Controls.SetSurfaceColor | src/components/Panels/ControlsPanel.tsx:255-260 | changes only `customColor` |
| Controls.SurfaceRequest | src/components/NanoProteinViewer.tsx:469 | the options passed to `applySurface` carry each field of the surface record |
| Controls.SurfaceEditsReachEngine | src/components/Panels/ControlsPanel.tsx:229-260 | the engine's request after an edit: the opacity edit changes only the opacity; the colour edit gives the colour's uniform value when not inheriting and changes nothing when inheriting; the inherit edit keeps opacity and component |
| Controls.EnableInitialSurface | __tests__/components/ControlsPanel.test.tsx:44-48 | ticking the box on the initial surface gives `{true, 40, true, #4ECDC4}` |
| Controls.SetHelix | src/components/Panels/ControlsPanel.tsx:166 | changes only `helix` |
| Controls.SetSheet | src/components/Panels/ControlsPanel.tsx:167 | changes only `sheet` |
| Controls.SetCoil | src/components/Panels/ControlsPanel.tsx:168 | changes only `coil` |
| Controls.SecondaryEditsReachEngine | src/components/Panels/ControlsPanel.tsx:166-168 | each colour edit recolours exactly its own kinds in the engine's fan-out: helix the three helices, sheet strand and turn, coil the other six |
| Controls.ColorInputValue | src/components/Panels/ControlsPanel.tsx:129 | shows the colour iff it is `#` and 3 or 6 hex digits, else `#ffffff`; what is shown always passes the check |
| Controls.ShownColorParses | src/components/Panels/ControlsPanel.tsx:129 | what the input shows is read by the adapter as a number below 16^6 |
| Controls.ChainInputValue | src/components/Panels/ControlsPanel.tsx:192 | the chain's colour, or `#4ECDC4` when missing or empty |
| Controls.ModeLabel | src/components/Panels/ControlsPanel.tsx:91 | `Select` iff the mode is none; otherwise the mode name with its first letter upper-cased |
| Controls.MenuLabel | src/components/Panels/ControlsPanel.tsx:98 | `None` iff none, otherwise the button's label |
| Controls.LabelsDistinct | src/components/Panels/ControlsPanel.tsx:91-98 | different modes have different labels |
| Controls.LabelExamples | __tests__/components/ControlsPanel.test.tsx:30-34 | rainbow is labelled `Rainbow`, custom `Custom` |
| Grid.Cap | src/components/Panels/GridView.tsx:76-86 | the bound is at least one and at least `maxActive` |
| Grid.Without | src/components/Panels/GridView.tsx:72 | the filter keeps every other element and drops `x`, without repetitions if there were none, one shorter if `x` occurred once |
| Grid.WithoutKeepsOrder | src/components/Panels/GridView.tsx:72 | the kept tiles stay in their order: any two of them appear in the input in the same order |
| Grid.NextOrder | src/components/Panels/GridView.tsx:70-86 | the new order holds only old tiles and the index, holds the index when it was active or got a viewer, and grows by at most one |
| Grid.NextOrderKeepsBound | src/components/Panels/GridView.tsx:70-86 | activation keeps the order free of repetitions and within the bound |
| Grid.NextOrderMostRecent | src/components/Panels/GridView.tsx:70-86 | the activated tile ends last unless it could not be created |
| Grid.NextOrderEviction | src/components/Panels/GridView.tsx:76-78 | a new tile on a full order evicts exactly the oldest and keeps the others in order; a reactivation evicts nothing |
| Grid.GridState.constructor | src/components/Panels/GridView.tsx:12-13 | empty slots, empty order |
| Grid.GridState.Reset | src/components/Panels/GridView.tsx:16-20 | one empty slot per file, empty order |
| Grid.GridState.DeactivateOldest | src/components/Panels/GridView.tsx:57-67 | no-op on an empty order; otherwise the oldest tile leaves the order and its slot is emptied |
| Grid.GridState.Activate | src/components/Panels/GridView.tsx:69-88 | the order becomes `NextOrder`, the slots follow it, the evicted tile is reported and `onSelect` is called only for a newly created viewer |
| Grid.Cols | src/components/Panels/GridView.tsx:91 | `max(1, min(n, 6))`: n for 1 to 6 files, 6 above, 1 for none |
| Grid.Rows | src/components/Panels/GridView.tsx:92 | at least one row, and the rows hold all files |
| Grid.CeilDiv | src/components/Panels/GridView.tsx:92 | the least quotient that covers the dividend |
| Grid.GridFits | src/components/Panels/GridView.tsx:91-92 | cols·rows ≥ n, and no unneeded row |

## Left out

- Rendering, inline styles, the dark/light CSS injected into the page, and the `theme` URL parameter: presentation only.
- `fetch` and the asynchronous load effect, its `isCancelled` flag and `Promise.all`. `SettingsStore.InitialLoad` starts from the fetched results.
- React effect scheduling and the interleaving of awaited steps. Each modelled operation runs to completion.
- The effects that restore and re-apply settings when the current file or the layout changes (`NanoProteinViewer.tsx` lines 419-477 and 491-511).
- Engine work done by foreign calls. The model only logs each request: `createPluginUI` and layout props, `loadStructureText`, `applyIllustrativeStyle`'s post-processing props, camera resets, and the per-representation commits.
- Molstar.Viewer.UpdateColorTheme: logs one `ApplyTheme` for the whole plan, where the source makes one commit per representation. Engine exceptions that skip a representation are not modelled.
- Molstar.Viewer.ApplySurface: logs the raw `opacity ?? 40` where the engine receives the clamped alpha `opacity/100`, which is floating-point arithmetic.
- The rainbow theme's gradient interpolation, channel rounding and residue-range scan: floating-point arithmetic. The model keeps only which palette is used.
- The random suffix of registered theme names (`Math.random`). `RegisteredName` uses the fixed prefixes.
- Lookups by names such as `constructor`, which JavaScript would find on the object prototype. The model looks palette names up only among the six palettes (`molstar.ts` line 266). It looks chain ids up only among the map's own keys, both in the adapter's `params.chainColors[chainId]` (`molstar.ts` line 235, `Molstar.ChainColorFor`) and in the panel's `props.chainColors![id]` (`ControlsPanel.tsx` line 192, `Controls.ChainInputValue`).
- Molstar.ChainColorFor: assumes the colours in the map are strings. The source also passes numbers through unchanged.
- Text.ToLower: lower-cases ASCII letters only. `toLowerCase` also folds other alphabets.
- Text.SortStrings: orders by character code. The default JavaScript sort compares UTF-16 code units, which differs only for characters outside the Basic Multilingual Plane.
- GridView preview generation: off-screen hosts, canvas snapshots and timers.
- The grid's engine viewers. A slot is a flag saying whether a viewer exists, and the viewer's own mount and load are left out.
- Grid.GridState.Activate: requires an index below the number of slots. Tiles are rendered only for existing files, and the slots are reset to one per file.
- FileListPanel and LayoutPanel: purely presentational.
- pLDDT (`isPLDDTAvailable`, the pLDDT toggle and its theme): the adapter's handle (`src/utils/molstar.ts` lines 13-27, returned at 528) does not define it.
- ViewerSettings.SettingsStore.SelectIndex: assumes `mol.setBackgroundColor(theme)` (`NanoProteinViewer.tsx` line 333) does nothing and models the flow the code evidently intends. The handle does not define `setBackgroundColor`, so the code as written throws there: only the persist, `setIsApplying(true)`, `setCurrentIndex` and the load happen; `listChains`, the `next` record, the stored entry and the dispatch are skipped; and `isApplying` stays `true`, because the `finally` at line 413 covers only lines 390-412.
- ViewerSettings.SettingsStore.InitialLoad: makes the same assumption for line 208. As written, the throw is caught at line 301, so lines 209-300 never run: no chains are detected, no entry is written and no theme is dispatched.
- ViewerSettings.SettingsStore.SelectIndex and ViewerSettings.SettingsStore.InitialLoad: treat a key that is missing from the per-file map as absent. In the source, `settingsByFile[key]` (line 356) and `prev[key]` (line 271) are plain object lookups, so a file named `toString` or `constructor` finds an `Object.prototype` member. Then `saved` is truthy, `next` holds only the mode and chain colours, and line 271 leaves the map unchanged.
- `loadStructureText` is not part of this model beyond being a foreign call.
- Text.ParseIntHex: yields the exact integer. `parseInt` yields a Number, which from 2^53 up (14 or more hexadecimal digits) is the nearest double; for example, `ffffffffffffff` reads as 72057594037927936, not 72057594037927935. The same holds for Text.ParseIntHexValue. Colour strings have at most six digits, so their values are exact.
- ViewerSettings.SettingsStore.SelectIndex: returns only the theme request. The follow-up requests at `NanoProteinViewer.tsx` lines 407-408 are left to the caller: `applyIllustrativeStyle(next.illustrative)` is a foreign call, and `applySurface` is `Molstar.Viewer.ApplySurface` applied to the new `current.surface` through `Controls.SurfaceRequest`.

## Source observations

These follow from the code as written; nothing was executed.

- Keys can collide. `getKey` (`NanoProteinViewer.tsx` line 168) gives a file named `1` and an unnamed file at index 1 the same key (`NamedAndUnnamedKeysMeet`).
- The initial load uses different keys from later switches. It stores the first file under `results[0].name` (line 221), while a later switch looks it up with `getKey(0)`. For an unnamed first file these are `''` and `0` (`FirstUnnamedKeysDiffer`).
- Overlapping activations break the grid's order. `activate` (`GridView.tsx` lines 69-88) stores the viewer at line 82, before awaiting its mount and load, and pushes the index only at line 86. A second `activate(i)` during those awaits takes the refresh branch (lines 70-74) and pushes `i`, and the first call then pushes `i` again. Two overlapping new activations both pass the length check at line 76. So the order can hold a tile twice or exceed `maxActive`. `Grid.GridState.Valid` and `Grid.NextOrderKeepsBound` hold only for activations that run one at a time.
- The grid keeps at most `maxActive` viewers, which defaults to 8 (`GridView.tsx` line 11, `Grid.DefaultMaxActive`).
