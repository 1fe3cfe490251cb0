/** The imperative side of src/Party.php: a library file whose sections
    `generateLibrary` rewrites in place, the wiring loop, the assembler's
    main loop and pruning loops, and the `Party` object that reads the
    sheet, sorts components into groups and builds every group. Each method
    is proved to compute the value the modules `Assembly` and `Grouping`
    specify. */
module Party {

  import opened Wrappers
  import opened Eagle
  import opened Catalog
  import opened Assembly
  import opened Grouping

  /** The DOM of one library file: its `packages`, `symbols` and `devicesets`. */
  class LibraryFile {
    var packages: seq<Entry>
    var symbols: seq<Entry>
    var deviceSets: seq<DeviceSet>

    /** `loadXML` of the template file. */
    constructor Load(lbr: Document)
      ensures packages == lbr.packages && symbols == lbr.symbols && deviceSets == lbr.deviceSets
    {
      packages := lbr.packages;
      symbols := lbr.symbols;
      deviceSets := lbr.deviceSets;
    }

    /** What the XPath queries on packages and symbols see. */
    function Query(): Template
      reads this
    {
      Template(packages, symbols)
    }

    function Snapshot(): Document
      reads this
    {
      Document(packages, symbols, deviceSets)
    }

    /** "Remove existing deviceset garbage data": drop the first child until none is left. */
    method ClearDeviceSets()
      modifies this
      ensures deviceSets == [] && packages == old(packages) && symbols == old(symbols)
    {
      while deviceSets != []
        invariant packages == old(packages) && symbols == old(symbols)
        decreases |deviceSets|
      {
        deviceSets := deviceSets[1..];
      }
    }

    /** Append a device to the `devices` of device-set `k`. */
    method AppendDevice(k: nat, d: Device)
      requires k < |deviceSets|
      modifies this
      ensures deviceSets == old(deviceSets)[k := old(deviceSets)[k].(devices := old(deviceSets)[k].devices + [d])]
      ensures packages == old(packages) && symbols == old(symbols)
    {
      deviceSets := deviceSets[k := deviceSets[k].(devices := deviceSets[k].devices + [d])];
    }

    /** Append a new device-set after the others. */
    method AppendDeviceSet(s: DeviceSet)
      modifies this
      ensures deviceSets == old(deviceSets) + [s]
      ensures packages == old(packages) && symbols == old(symbols)
    {
      deviceSets := deviceSets + [s];
    }

    /** The body of `generateLibrary`'s loop for an accepted component:
        build its device and append it to the device-set of its name,
        creating that set when there is none yet. */
    method FileDevice(c: Component, ext: Externals) returns (r: Result<Placement, Fatal>)
      modifies this
      ensures r == PlacementOf(old(Query()), c, ext)
      ensures r.Ok? ==> deviceSets == Merge(old(deviceSets), r.value)
      ensures packages == old(packages) && symbols == old(symbols)
    {
      var hasBespokePart := HasBespokePart(Query(), c);
      var name := PickDeviceName(c);
      var gate := GateOf(c, hasBespokePart);
      var existing := FindDeviceSet(deviceSets, name);
      var device := GenerateDeviceDevice(this, c, ext);
      if device.Err? {
        return Err(device.error);
      }
      var p := Placement(name, ext.pickPrefix(c), gate, device.value);
      if existing.Some? {
        AppendDevice(existing.value, device.value);
      } else {
        AppendDeviceSet(DeviceSet(name, ext.pickPrefix(c), gate, [device.value]));
      }
      if name == "" {
        // "Device name cannot be empty": PickDeviceName never is.
        assert false;
      }
      return Ok(p);
    }

    /** `generateLibrary`'s loop over the group: every component that passes
        `isValid` has its package and symbols recorded as referenced and its
        device filed; a component that cannot be wired ends the run. */
    method FileComponents(comps: seq<Component>, ext: Externals)
      returns (r: Result<nat, Fatal>, referencedPackages: seq<string>, referencedSymbols: seq<string>)
      requires deviceSets == []
      modifies this
      ensures packages == old(packages) && symbols == old(symbols)
      ensures var placed := PlacementsOf(old(Query()), comps, ext);
        r == (if placed.Err? then Err(placed.error) else Ok(|placed.value|))
        && (placed.Ok? ==> deviceSets == MergeAll(placed.value))
      ensures r.Ok? ==> referencedPackages == ReferencedPackages(old(Query()), comps)
      ensures r.Ok? ==> referencedSymbols == ReferencedSymbols(old(Query()), comps)
    {
      var t := Query();
      referencedPackages := [];
      referencedSymbols := [];
      var componentsAdded: nat := 0;
      ghost var ps: seq<Placement> := [];

      var i := 0;
      while i < |comps|
        invariant 0 <= i <= |comps|
        invariant Query() == t
        invariant PlacementsOf(t, comps[..i], ext) == Ok(ps)
        invariant deviceSets == MergeAll(ps)
        invariant componentsAdded == |ps|
        invariant referencedPackages == ReferencedPackages(t, comps[..i])
        invariant referencedSymbols == ReferencedSymbols(t, comps[..i])
      {
        var c := comps[i];
        if !IsValid(t, c) {
          assert PlacementsOf(t, comps[..i + 1], ext) == Ok(ps)
              && ReferencedPackages(t, comps[..i + 1]) == referencedPackages
              && ReferencedSymbols(t, comps[..i + 1]) == referencedSymbols by {
            PlacementsStep(t, comps, i, ext);
            ReferencedStep(t, comps, i);
          }
          i := i + 1;
          continue;
        }
        assert ReferencedPackages(t, comps[..i + 1]) == referencedPackages + [PickPackage(c)]
            && ReferencedSymbols(t, comps[..i + 1]) == referencedSymbols + [SymbolText(c)] + [PickGateSymbol(c)] by {
          ReferencedStep(t, comps, i);
          assert referencedSymbols + [SymbolText(c)] + [PickGateSymbol(c)]
              == referencedSymbols + [SymbolText(c), PickGateSymbol(c)];
        }
        referencedPackages := referencedPackages + [PickPackage(c)];
        referencedSymbols := referencedSymbols + [SymbolText(c)];
        referencedSymbols := referencedSymbols + [PickGateSymbol(c)];

        var placed := FileDevice(c, ext);
        if placed.Err? {
          assert PlacementsOf(t, comps[..i + 1], ext) == Err(placed.error) by {
            PlacementsStep(t, comps, i, ext);
          }
          PlacementsStopped(t, comps, i + 1, ext);
          return Err(placed.error), referencedPackages, referencedSymbols;
        }
        ghost var p := placed.value;
        assert PlacementsOf(t, comps[..i + 1], ext) == Ok(ps + [p]) by {
          PlacementsStep(t, comps, i, ext);
        }
        assert MergeAll(ps + [p]) == Merge(MergeAll(ps), p) by {
          assert (ps + [p])[..|ps|] == ps;
        }
        ps := ps + [p];
        componentsAdded := componentsAdded + 1;
        i := i + 1;
      }
      assert comps[..|comps|] == comps;
      return Ok(componentsAdded), referencedPackages, referencedSymbols;
    }

    /** Remove every package no accepted component references, keeping
        those whose name `array_filter` treats as false. */
    method PrunePackages(refs: seq<string>)
      modifies this
      ensures packages == Prune(old(packages), refs)
      ensures symbols == old(symbols) && deviceSets == old(deviceSets)
    {
      var unreferenced := UnreferencedNames(packages, refs);
      ghost var orig := packages;
      DropNothing(orig);
      assert NameSet(unreferenced[..0]) == {};
      for j := 0 to |unreferenced|
        invariant packages == Drop(orig, NameSet(unreferenced[..j]))
        invariant symbols == old(symbols) && deviceSets == old(deviceSets)
      {
        RemovePackagesNamed(unreferenced[j]);
        DropStep(orig, unreferenced, j);
      }
      assert unreferenced[..|unreferenced|] == unreferenced;
      RemovalPrunes(orig, refs);
    }

    /** The same for symbols. */
    method PruneSymbols(refs: seq<string>)
      modifies this
      ensures symbols == Prune(old(symbols), refs)
      ensures packages == old(packages) && deviceSets == old(deviceSets)
    {
      var unreferenced := UnreferencedNames(symbols, refs);
      ghost var orig := symbols;
      DropNothing(orig);
      assert NameSet(unreferenced[..0]) == {};
      for j := 0 to |unreferenced|
        invariant symbols == Drop(orig, NameSet(unreferenced[..j]))
        invariant packages == old(packages) && deviceSets == old(deviceSets)
      {
        RemoveSymbolsNamed(unreferenced[j]);
        DropStep(orig, unreferenced, j);
      }
      assert unreferenced[..|unreferenced|] == unreferenced;
      RemovalPrunes(orig, refs);
    }

    /** Remove every package named `n`. */
    method RemovePackagesNamed(n: string)
      modifies this
      ensures packages == Drop(old(packages), {n})
      ensures symbols == old(symbols) && deviceSets == old(deviceSets)
    {
      packages := DropNamed(packages, n);
    }

    /** Remove every symbol named `n`. */
    method RemoveSymbolsNamed(n: string)
      modifies this
      ensures symbols == Drop(old(symbols), {n})
      ensures packages == old(packages) && deviceSets == old(deviceSets)
    {
      symbols := DropNamed(symbols, n);
    }
  }

  /** Walk one section and keep the entries not named `n`. */
  method DropNamed(es: seq<Entry>, n: string) returns (kept: seq<Entry>)
    ensures kept == Drop(es, {n})
  {
    kept := [];
    for j := 0 to |es|
      invariant kept == Drop(es[..j], {n})
    {
      assert es[..j + 1][..j] == es[..j];
      if es[j].name != n {
        kept := kept + [es[j]];
      }
    }
    assert es[..|es|] == es;
  }

  /** The names of a section's entries that are not referenced, then
      `array_filter`: the names the pruning loops remove. */
  method UnreferencedNames(es: seq<Entry>, refs: seq<string>) returns (names: seq<string>)
    ensures names == Truthy(Unreferenced(es, refs))
  {
    names := [];
    for j := 0 to |es|
      invariant names == Unreferenced(es[..j], refs)
    {
      assert es[..j + 1][..j] == es[..j];
      if es[j].name !in refs {
        names := names + [es[j].name];
      }
    }
    assert es[..|es|] == es;
    names := Truthy(names);
  }

  /** `generateDeviceConnects`: pin i with pad i, for each i below the pad
      count, using the bespoke symbol's pins when it has any; a missing pin
      or pad ends the run. */
  method GenerateDeviceConnects(file: LibraryFile, c: Component) returns (r: Result<seq<Connect>, Fatal>)
    ensures r == ConnectsOf(file.Query(), c)
  {
    var t := file.Query();
    var pins := TerminalsNamed(t.symbols, SymbolText(c));
    var bespokePins := TerminalsNamed(t.symbols, PickGateSymbol(c));
    if |bespokePins| > 0 {
      pins := bespokePins;
    }
    var pads := TerminalsNamed(t.packages, PickPackage(c));
    assert pins == PinsOf(t, c) && pads == PadsOf(t, c);
    r := Wire(PickGateName(c), pins, pads, c.padCount, c.lcscPartNumber);
  }

  /** The loop of `generateDeviceConnects`. */
  method Wire(gate: string, pins: seq<string>, pads: seq<string>, n: nat, part: string) returns (r: Result<seq<Connect>, Fatal>)
    ensures r == Wiring(gate, pins, pads, n, part)
  {
    var connects: seq<Connect> := [];
    for i := 0 to n
      invariant i <= |pins| && i <= |pads| && |connects| == i
      invariant forall k :: 0 <= k < i ==> connects[k] == Connect(gate, pins[k], pads[k])
    {
      if i >= |pins| || i >= |pads| {
        assert i == Min(|pins|, |pads|);
        return Err(MissingTerminal(part, i));
      }
      connects := connects + [Connect(gate, pins[i], pads[i])];
    }
    assert connects == seq(n, i requires 0 <= i < n => Connect(gate, pins[i], pads[i]));
    return Ok(connects);
  }

  /** `generateDeviceDevice`: the device with its wiring and attributes. */
  method GenerateDeviceDevice(file: LibraryFile, c: Component, ext: Externals) returns (r: Result<Device, Fatal>)
    ensures r == DeviceOf(file.Query(), c, ext)
  {
    var connects := GenerateDeviceConnects(file, c);
    match connects
    case Err(e) => return Err(e);
    case Ok(cs) => return Ok(DeviceWith(c, cs, ext));
  }

  /** `generateLibrary`: load the template, empty its device-sets, file every
      accepted component's device under its device name, prune the
      unreferenced packages and symbols, and report the count. */
  method GenerateLibrary(groupName: string, lbr: Document, comps: seq<Component>, ext: Externals)
    returns (r: Result<Generated, Fatal>)
    ensures r == GenerateLibrarySpec(groupName, lbr, comps, ext)
  {
    var file := new LibraryFile.Load(lbr);
    file.ClearDeviceSets();

    var added, referencedPackages, referencedSymbols := file.FileComponents(comps, ext);
    if added.Err? {
      return Err(added.error);
    }
    var componentsAdded := added.value;

    // Prune the packages, then the symbols, nobody references.
    file.PrunePackages(referencedPackages);
    file.PruneSymbols(referencedSymbols);

    var path := "lbr/" + groupName + ".lbr";
    var written := componentsAdded > 0;
    r := Ok(Generated(componentsAdded, file.Snapshot(), path, written));
  }

  /** One group's library, reduced to the number of parts it holds. */
  method GenerateCount(lbr: Document, g: Group, ext: Externals, ghost count: Group -> Result<nat, Fatal>)
    returns (r: Result<nat, Fatal>)
    requires forall h {:trigger LibraryCount(lbr, h, ext)} :: count(h) == LibraryCount(lbr, h, ext)
    ensures r == count(g)
  {
    var lib := GenerateLibrary(g.name, lbr, g.members, ext);
    assert count(g) == LibraryCount(lbr, g, ext);
    if lib.Err? {
      return Err(lib.error);
    }
    return Ok(lib.value.count);
  }

  /** `build`'s loop: generate each group's library in turn and add up the
      counts; the first fatal error ends the run. */
  method GenerateGroups(lbr: Document, groups: seq<Group>, ext: Externals) returns (r: Result<nat, Fatal>)
    ensures r == SumCounts(GroupCounts(groups, Counter(lbr, ext)))
  {
    r := SumGroups(lbr, groups, ext, Counter(lbr, ext));
  }

  /** The loop itself, for any `count` that agrees with `LibraryCount`. */
  method SumGroups(lbr: Document, groups: seq<Group>, ext: Externals, ghost count: Group -> Result<nat, Fatal>)
    returns (r: Result<nat, Fatal>)
    requires forall h {:trigger LibraryCount(lbr, h, ext)} :: count(h) == LibraryCount(lbr, h, ext)
    ensures r == SumCounts(GroupCounts(groups, count))
  {
    ghost var rs := GroupCounts(groups, count);
    var partsCount: nat := 0;
    for k := 0 to |groups|
      invariant SumCounts(rs[..k]) == Ok(partsCount)
    {
      var n := GenerateCount(lbr, groups[k], ext, count);
      GroupCountsAt(groups, count, k);
      SumCountsStep(rs, k);
      if n.Err? {
        SumStopped(rs, k + 1);
        return Err(n.error);
      }
      partsCount := partsCount + n.value;
    }
    assert rs[..|rs|] == rs;
    return Ok(partsCount);
  }

  /** The `Party` object: the components read from the sheet. */
  class Party {
    var components: seq<Component>

    constructor()
      ensures components == []
    {
      components := [];
    }

    /** `readSheet`'s row loop over already-mapped rows: rows without an
        LCSC part are skipped, the others parsed and appended; a row that
        does not parse ends the run. */
    method ReadSheet(rows: seq<Row>) returns (r: Result<seq<Component>, Fatal>)
      modifies this
      ensures r == LoadComponents(rows)
      ensures r.Ok? ==> components == old(components) + r.value
    {
      var loaded: seq<Component> := [];
      for i := 0 to |rows|
        invariant LoadComponents(rows[..i]) == Ok(loaded)
        invariant components == old(components) + loaded
      {
        assert rows[..i + 1][..i] == rows[..i];
        if KeepRow(rows[i]) {
          var c := FromRow(rows[i]);
          if c.Err? {
            LoadStopped(rows, i + 1);
            return Err(c.error);
          }
          var x := c.value;
          assert old(components) + (loaded + [x]) == (old(components) + loaded) + [x];
          components := components + [x];
          loaded := loaded + [x];
        }
      }
      assert rows[..|rows|] == rows;
      return Ok(loaded);
    }

    /** `sortComponents`: group the components by category and tier. */
    method SortComponents() returns (groups: seq<Group>)
      ensures groups == Groups(components)
    {
      groups := [];
      for i := 0 to |components|
        invariant groups == Groups(components[..i])
      {
        var c := components[i];
        assert components[..i + 1][..i] == components[..i];
        var groupName := GroupName(c);
        var k := FindGroup(groups, groupName);
        if k.Some? {
          groups := groups[k.value := Group(groups[k.value].name, groups[k.value].members + [c])];
        } else {
          groups := groups + [Group(groupName, [c])];
        }
      }
      assert components[..|components|] == components;
    }

    /** `build`: read the sheet, sort, and add up every group's count. */
    method Build(rows: seq<Row>, lbr: Document, ext: Externals) returns (r: Result<nat, Fatal>)
      modifies this
      ensures LoadComponents(rows).Err? ==> r == Err(LoadComponents(rows).error)
      ensures LoadComponents(rows).Ok? ==>
                components == old(components) + LoadComponents(rows).value && r == BuildSpec(lbr, components, ext)
    {
      var read := ReadSheet(rows);
      if read.Err? {
        return Err(read.error);
      }
      var componentGroups := SortComponents();
      r := GenerateGroups(lbr, componentGroups, ext);
    }
  }
}
