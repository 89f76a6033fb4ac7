/** The logic of the controls panel (src/components/Panels/ControlsPanel.tsx): sniffing the
    format of local files, turning chosen files into load items, the one-field edits of the
    surface and secondary-colour records, the value shown by the colour inputs and the mode
    labels. */
module Controls {
  import opened Types
  import opened Text
  import Molstar

  /** A file chosen in the file input: its name and its text. */
  datatype LocalFile = LocalFile(name: string, text: string)

  /** `{ name, data, format }` handed to `onAddLocalStructures`. */
  datatype LoadItem = LoadItem(name: string, data: string, format: StructureFormat)

  /** `detectFormat(name, content)`: the extension of the lower-cased name first, then
      markers in the content; `None` is `null`. */
  function DetectLocalFormat(name: string, content: string): (r: Option<StructureFormat>)
    ensures r != Some(Sdf)
    ensures EndsWith(ToLower(name), ".cif") || EndsWith(ToLower(name), ".mmcif") ==> r == Some(Mmcif)
    ensures (!(EndsWith(ToLower(name), ".cif") || EndsWith(ToLower(name), ".mmcif"))
      && (EndsWith(ToLower(name), ".pdb") || EndsWith(ToLower(name), ".pdbqt"))) ==> r == Some(Pdb)
    ensures r.None? <==>
      !EndsWith(ToLower(name), ".cif") && !EndsWith(ToLower(name), ".mmcif")
      && !EndsWith(ToLower(name), ".pdb") && !EndsWith(ToLower(name), ".pdbqt")
      && !Contains(content, "data_") && !Contains(content, "_atom_site")
      && !Contains(content, "ATOM") && !Contains(content, "HETATM")
  {
    var lower := ToLower(name);
    if EndsWith(lower, ".cif") || EndsWith(lower, ".mmcif") then Some(Mmcif)
    else if EndsWith(lower, ".pdb") || EndsWith(lower, ".pdbqt") then Some(Pdb)
    else if Contains(content, "data_") || Contains(content, "_atom_site") then Some(Mmcif)
    else if Contains(content, "ATOM") || Contains(content, "HETATM") then Some(Pdb)
    else None
  }

  /** Without a known extension the content decides: mmCIF markers win over PDB records. */
  lemma ContentDecidesWithoutExtension(name: string, content: string)
    requires !EndsWith(ToLower(name), ".cif") && !EndsWith(ToLower(name), ".mmcif")
    requires !EndsWith(ToLower(name), ".pdb") && !EndsWith(ToLower(name), ".pdbqt")
    ensures Contains(content, "data_") || Contains(content, "_atom_site") ==> DetectLocalFormat(name, content) == Some(Mmcif)
    ensures !Contains(content, "data_") && !Contains(content, "_atom_site") && (Contains(content, "ATOM") || Contains(content, "HETATM"))
      ==> DetectLocalFormat(name, content) == Some(Pdb)
  {
  }

  /** The extension wins over the content: a `.PDB` file whose text looks like mmCIF is PDB,
      and a `.MmCif` file whose text looks like PDB is mmCIF. */
  lemma ExtensionWinsOverContent(content: string)
    ensures DetectLocalFormat("1CRN.PDB", content) == Some(Pdb)
    ensures DetectLocalFormat("AF.MmCif", content) == Some(Mmcif)
  {
    PdbNamed("1CRN.PDB", content);
    MixedCifName(content);
  }

  /** A name that lower-cases to `1crn.pdb` is read as PDB, whatever the content. */
  lemma PdbNamed(name: string, content: string)
    requires |name| == 8 && forall i :: 0 <= i < 8 ==> LowerChar(name[i]) == "1crn.pdb"[i]
    ensures DetectLocalFormat(name, content) == Some(Pdb)
  {
    var a := ToLower(name);
    assert a == "1crn.pdb";
    assert a[|a| - 4..] == ".pdb";
    assert a[|a| - 4..] != ".cif";
    assert a[|a| - 6..] != ".mmcif";
  }

  lemma MixedCifName(content: string)
    ensures DetectLocalFormat("AF.MmCif", content) == Some(Mmcif)
  {
    var b := ToLower("AF.MmCif");
    assert b == "af.mmcif" by {
      assert forall i :: 0 <= i < 8 ==> b[i] == LowerChar("AF.MmCif"[i]);
    }
    assert b[|b| - 6..] == ".mmcif";
  }

  /** The recognised files in input order, each with its detected format. */
  function Recognised(files: seq<LocalFile>): (items: seq<LoadItem>)
    ensures |items| <= |files|
    decreases |files|
  {
    if files == [] then []
    else
      var f := files[|files| - 1];
      var fmt := DetectLocalFormat(f.name, f.text);
      Recognised(files[..|files| - 1]) + (if fmt.Some? then [LoadItem(f.name, f.text, fmt.value)] else [])
  }

  /** Each item carries its file's detected format, and no file is dropped when every file
      has one. */
  lemma {:induction false} RecognisedFormats(files: seq<LocalFile>)
    ensures var items := Recognised(files);
      forall k :: 0 <= k < |items| ==> DetectLocalFormat(items[k].name, items[k].data) == Some(items[k].format)
    ensures (forall k :: 0 <= k < |files| ==> DetectLocalFormat(files[k].name, files[k].text).Some?) ==>
      |Recognised(files)| == |files|
    decreases |files|
  {
    if files != [] {
      var p := files[..|files| - 1];
      RecognisedFormats(p);
      assert forall k :: 0 <= k < |p| ==> p[k] == files[k];
    }
  }

  /** Recognising files commutes with splitting them. */
  lemma {:induction false} RecognisedAppend(a: seq<LocalFile>, b: seq<LocalFile>)
    ensures Recognised(a + b) == Recognised(a) + Recognised(b)
    decreases |b|
  {
    if b == [] {
      assert a + b == a;
    } else {
      var b' := b[..|b| - 1];
      assert (a + b)[..|a + b| - 1] == a + b';
      assert (a + b)[|a + b| - 1] == b[|b| - 1];
      RecognisedAppend(a, b');
    }
  }

  /** Every item comes from a file, keeps its name and text and has a format, and a file is
      dropped only when its format cannot be detected. */
  lemma {:induction false} RecognisedExact(files: seq<LocalFile>, it: LoadItem)
    ensures it in Recognised(files) <==>
      exists f :: f in files && f.name == it.name && f.text == it.data && DetectLocalFormat(f.name, f.text) == Some(it.format)
    decreases |files|
  {
    if files != [] {
      var p := files[..|files| - 1];
      RecognisedExact(p, it);
      assert files == p + [files[|files| - 1]];
    }
  }

  /** The names of the two files of the upload example decide their formats. */
  lemma ExampleNamesDecide(content: string)
    ensures DetectLocalFormat("1CRN.pdb", content) == Some(Pdb)
    ensures DetectLocalFormat("AF.cif", content) == Some(Mmcif)
  {
    PdbNamed("1CRN.pdb", content);
    ExampleCifName(content);
  }

  lemma ExampleCifName(content: string)
    ensures DetectLocalFormat("AF.cif", content) == Some(Mmcif)
  {
    var b := ToLower("AF.cif");
    assert b == "af.cif" by {
      assert forall i :: 0 <= i < 6 ==> b[i] == LowerChar("AF.cif"[i]);
    }
    assert b[|b| - 4..] == ".cif";
  }

  /** A PDB file and an mmCIF file chosen together both become load items, in order. */
  lemma RecognisedExample()
    ensures Recognised([LocalFile("1CRN.pdb", "ATOM  "), LocalFile("AF.cif", "data_ ")])
      == [LoadItem("1CRN.pdb", "ATOM  ", Pdb), LoadItem("AF.cif", "data_ ", Mmcif)]
  {
    var f1, f2 := LocalFile("1CRN.pdb", "ATOM  "), LocalFile("AF.cif", "data_ ");
    assert [f1, f2] == [f1] + [f2];
    RecognisedAppend([f1], [f2]);
    assert Recognised([f1]) == [LoadItem("1CRN.pdb", "ATOM  ", Pdb)] by {
      ExampleNamesDecide("ATOM  ");
      RecognisedOne(f1);
    }
    assert Recognised([f2]) == [LoadItem("AF.cif", "data_ ", Mmcif)] by {
      ExampleNamesDecide("data_ ");
      RecognisedOne(f2);
    }
  }

  /** One more file of the list adds its item, if it has a format. */
  lemma RecognisedStep(fs: seq<LocalFile>, i: nat)
    requires i < |fs|
    ensures var fmt := DetectLocalFormat(fs[i].name, fs[i].text);
      Recognised(fs[..i + 1]) == Recognised(fs[..i]) + if fmt.Some? then [LoadItem(fs[i].name, fs[i].text, fmt.value)] else []
  {
    assert fs[..i + 1][..i] == fs[..i];
  }

  lemma RecognisedOne(f: LocalFile)
    ensures var fmt := DetectLocalFormat(f.name, f.text);
      Recognised([f]) == if fmt.Some? then [LoadItem(f.name, f.text, fmt.value)] else []
  {
    assert [f][..0] == [];
  }

  /** `handleFiles(files)`: nothing without files or without a callback; otherwise the
      recognised files, in order, are passed to the callback if there is at least one. The
      result is the argument of the callback call, `None` when it is not called. */
  method HandleFiles(files: Option<seq<LocalFile>>, hasCallback: bool) returns (call: Option<seq<LoadItem>>)
    ensures call.Some? <==> files.Some? && hasCallback && Recognised(files.value) != []
    ensures call.Some? ==> call.value == Recognised(files.value)
  {
    if files.None? || !hasCallback {
      return None;
    }
    var fs := files.value;
    var items: seq<LoadItem> := [];
    var i := 0;
    while i < |fs|
      invariant 0 <= i <= |fs|
      invariant items == Recognised(fs[..i])
    {
      var fmt := DetectLocalFormat(fs[i].name, fs[i].text);
      RecognisedStep(fs, i);
      if fmt.Some? {
        items := items + [LoadItem(fs[i].name, fs[i].text, fmt.value)];
      }
      i := i + 1;
    }
    assert fs[..|fs|] == fs;
    if |items| > 0 {
      call := Some(items);
    } else {
      call := None;
    }
  }

  // ---------------------------------------------------------------- record edits

  /** The surface checkbox. */
  function SetEnabled(s: Surface, v: bool): (r: Surface)
    ensures r.enabled == v && r.opacity == s.opacity && r.inherit == s.inherit && r.customColor == s.customColor
  {
    Surface(v, s.opacity, s.inherit, s.customColor)
  }

  /** The opacity slider, whose value is `parseInt` of an integer between 0 and 100. */
  function SetOpacity(s: Surface, v: int): (r: Surface)
    ensures r.enabled == s.enabled && r.opacity == v && r.inherit == s.inherit && r.customColor == s.customColor
  {
    Surface(s.enabled, v, s.inherit, s.customColor)
  }

  /** The inherit checkbox. */
  function SetInherit(s: Surface, v: bool): (r: Surface)
    ensures r.enabled == s.enabled && r.opacity == s.opacity && r.inherit == v && r.customColor == s.customColor
  {
    Surface(s.enabled, s.opacity, v, s.customColor)
  }

  /** The surface colour input. */
  function SetSurfaceColor(s: Surface, v: string): (r: Surface)
    ensures r.enabled == s.enabled && r.opacity == s.opacity && r.inherit == s.inherit && r.customColor == v
  {
    Surface(s.enabled, s.opacity, s.inherit, v)
  }

  /** The options the viewer hands to `applySurface` for a surface record. */
  function SurfaceRequest(s: Surface): (o: Molstar.SurfaceOptions)
    ensures o.opacity == Some(s.opacity) && o.inherit == Some(s.inherit) && o.customColor == Some(s.customColor)
  {
    Molstar.SurfaceOptions(Some(s.opacity), Some(s.inherit), Some(s.customColor))
  }

  /** What each surface edit changes in the engine's request for a component: the opacity edit
      only the opacity; the colour edit the colour exactly when the surface does not inherit,
      and nothing at all when it does; the inherit edit only the colour. */
  lemma SurfaceEditsReachEngine(s: Surface, c: Molstar.Component, o: int, v: string, i: bool)
    ensures
      var edited, before := Molstar.AddFor(c, SurfaceRequest(SetOpacity(s, o))), Molstar.AddFor(c, SurfaceRequest(s));
      edited.AddSurface? && before.AddSurface? && edited == before.(opacity := o)
    ensures !s.inherit && v != "" ==>
      Molstar.SurfaceColor(c, SurfaceRequest(SetSurfaceColor(s, v))) == ("uniform", Molstar.UniformValue(HexColorValue(v)))
    ensures s.inherit ==> Molstar.AddFor(c, SurfaceRequest(SetSurfaceColor(s, v))) == Molstar.AddFor(c, SurfaceRequest(s))
    ensures Molstar.AddFor(c, SurfaceRequest(SetInherit(s, i))).opacity == s.opacity
    ensures Molstar.AddFor(c, SurfaceRequest(SetInherit(s, i))).component == c.cell
  {
  }

  /** Ticking the surface box on the viewer's initial surface record. */
  lemma EnableInitialSurface()
    ensures SetEnabled(Surface(false, 40, true, "#4ECDC4"), true) == Surface(true, 40, true, "#4ECDC4")
  {
  }

  function SetHelix(c: SecondaryColors, v: string): (r: SecondaryColors)
    ensures r.helix == v && r.sheet == c.sheet && r.coil == c.coil
  {
    c.(helix := v)
  }

  function SetSheet(c: SecondaryColors, v: string): (r: SecondaryColors)
    ensures r.helix == c.helix && r.sheet == v && r.coil == c.coil
  {
    c.(sheet := v)
  }

  function SetCoil(c: SecondaryColors, v: string): (r: SecondaryColors)
    ensures r.helix == c.helix && r.sheet == c.sheet && r.coil == v
  {
    c.(coil := v)
  }

  /** Each secondary colour edit recolours exactly its own kinds in the engine: helix the three
      helices, sheet the strand and turn, coil the other six. */
  lemma SecondaryEditsReachEngine(c: SecondaryColors, v: string)
    ensures Molstar.SecondaryFanOut(SetHelix(c, v)) == Molstar.SecondaryFanOut(c).(
      alphaHelix := HexColorValue(v), threeTenHelix := HexColorValue(v), piHelix := HexColorValue(v))
    ensures Molstar.SecondaryFanOut(SetSheet(c, v)) == Molstar.SecondaryFanOut(c).(
      betaStrand := HexColorValue(v), betaTurn := HexColorValue(v))
    ensures Molstar.SecondaryFanOut(SetCoil(c, v)) == Molstar.SecondaryFanOut(c).(
      coil := HexColorValue(v), bend := HexColorValue(v), turn := HexColorValue(v),
      dna := HexColorValue(v), rna := HexColorValue(v), carbohydrate := HexColorValue(v))
  {
  }

  // ---------------------------------------------------------------- displayed values

  /** The value of the custom colour input: the colour when it is `#` and three or six
      hexadecimal digits, else `#ffffff`. */
  function ColorInputValue(customColor: string): (r: string)
    ensures IsHexColor(r)
    ensures IsHexColor(customColor) <==> r == customColor
  {
    if IsHexColor(customColor) then customColor
    else
      assert AllHexDigits("ffffff") by {
        forall k | 0 <= k < 6 ensures IsHexDigit("ffffff"[k]) { }
      }
      assert "#ffffff"[1..] == "ffffff";
      "#ffffff"
  }

  /** What the colour input shows is read by the engine as a number below 16^6. */
  lemma ShownColorParses(customColor: string)
    ensures HexColorValue(ColorInputValue(customColor)).Some?
    ensures HexColorValue(ColorInputValue(customColor)).value < Pow16(6)
  {
    var v := ColorInputValue(customColor);
    HexColorParsesItsDigits(v);
    assert Pow16(3) == 4096 && Pow16(6) == 16777216;
    assert HexValue(v[1..]) < Pow16(6) by {
      if |v| == 4 {
        assert HexValue(v[1..]) < Pow16(3);
      } else {
        assert |v| == 7;
      }
    }
  }

  /** The value of a chain's colour input: its colour, or `#4ECDC4` when missing or empty. */
  function ChainInputValue(chainColors: ChainColors, id: string): (r: string)
    ensures r != ""
    ensures id in chainColors && chainColors[id] != "" ==> r == chainColors[id]
    ensures !(id in chainColors && chainColors[id] != "") ==> r == "#4ECDC4"
  {
    if id in chainColors && chainColors[id] != "" then chainColors[id] else "#4ECDC4"
  }

  /** The label of the mode button: `Select` for none, else the capitalised mode name. */
  function ModeLabel(m: ColorMode): (r: string)
    ensures m == ModeNone <==> r == "Select"
    ensures m != ModeNone ==>
      |r| == |ModeName(m)| && r[0] == UpperChar(ModeName(m)[0]) && r[1..] == ModeName(m)[1..]
    ensures m != ModeNone ==> 'A' <= r[0] <= 'Z'
  {
    if m == ModeNone then "Select" else Capitalize(ModeName(m))
  }

  /** The label of an entry of the mode menu: `None` for none, else the capitalised name. */
  function MenuLabel(m: ColorMode): (r: string)
    ensures m != ModeNone ==> r == ModeLabel(m)
    ensures m == ModeNone <==> r == "None"
  {
    if m == ModeNone then "None" else Capitalize(ModeName(m))
  }

  /** The labels tell the modes apart. */
  lemma LabelsDistinct(a: ColorMode, b: ColorMode)
    requires a != b
    ensures ModeLabel(a) != ModeLabel(b)
    ensures MenuLabel(a) != MenuLabel(b)
  {
  }

  lemma LabelExamples()
    ensures ModeLabel(ModeCustom) == "Custom"
    ensures ModeLabel(ModeRainbow) == "Rainbow"
    ensures ModeLabel(ModeSecondary) == "Secondary"
  {
  }
}
