/** What `Party::generateLibrary` produces, as functions of the template
    library and one group of components (src/Party.php): device wiring,
    gates and attributes, the device-set merge, the referenced names and
    the pruning of the template. The imperative module `Party` is proved
    to compute exactly these values. */
module Assembly {

  import opened Wrappers
  import opened Text
  import opened Eagle
  import opened Catalog

  function Min(a: nat, b: nat): nat {
    if a <= b then a else b
  }

  // ---------------------------------------------------------------------
  // One device

  /** The pins the wiring uses: the bespoke symbol's when it has any pin,
      otherwise the generic symbol's. */
  function PinsOf(t: Template, c: Component): (r: seq<string>)
    ensures r != [] <==> HasBespokePart(t, c) || TerminalsNamed(t.symbols, SymbolText(c)) != []
  {
    if HasBespokePart(t, c) then TerminalsNamed(t.symbols, PickGateSymbol(c))
    else TerminalsNamed(t.symbols, SymbolText(c))
  }

  /** The pads of every package named by the package identifier. */
  function PadsOf(t: Template, c: Component): (r: seq<string>)
    ensures r != [] ==> exists e :: e in t.packages && e.name == PickPackage(c)
  {
    var named := Named(t.packages, PickPackage(c));
    NamedMeans(t.packages, PickPackage(c));
    assert named != [] ==> named[0] in named;
    TerminalsNamed(t.packages, PickPackage(c))
  }

  /** `generateDeviceConnects`: pin i with pad i for i below the pad count;
      the run stops at the first index where a pin or a pad is missing. */
  function ConnectsOf(t: Template, c: Component): (r: Result<seq<Connect>, Fatal>)
    ensures r.Ok? <==> c.padCount <= |PinsOf(t, c)| && c.padCount <= |PadsOf(t, c)|
    ensures r.Ok? ==> |r.value| == c.padCount
  {
    Wiring(PickGateName(c), PinsOf(t, c), PadsOf(t, c), c.padCount, c.lcscPartNumber)
  }

  /** Pin i with pad i on `gate` for each i below `n`, or the first index
      at which a pin or a pad is missing. */
  function Wiring(gate: string, pins: seq<string>, pads: seq<string>, n: nat, part: string): (r: Result<seq<Connect>, Fatal>)
    ensures r.Ok? <==> n <= |pins| && n <= |pads|
    ensures r.Ok? ==> |r.value| == n && forall i :: 0 <= i < n ==> r.value[i] == Connect(gate, pins[i], pads[i])
    ensures r.Err? ==> r.error == MissingTerminal(part, Min(|pins|, |pads|)) && Min(|pins|, |pads|) < n
  {
    if n <= Min(|pins|, |pads|) then
      Ok(seq(n, i requires 0 <= i < n => Connect(gate, pins[i], pads[i])))
    else Err(MissingTerminal(part, Min(|pins|, |pads|)))
  }

  /** The wiring succeeds exactly when there are at least as many pins and
      pads as the pad count, and then connects pin i to pad i on the gate
      for every i below it; otherwise it stops at the first index where a
      pin or a pad is missing. */
  lemma ConnectsOfMeans(t: Template, c: Component)
    ensures var r, pins, pads := ConnectsOf(t, c), PinsOf(t, c), PadsOf(t, c);
      (r.Ok? <==> c.padCount <= |pins| && c.padCount <= |pads|)
      && (r.Ok? ==> |r.value| == c.padCount
                    && forall i :: 0 <= i < c.padCount ==> r.value[i] == Connect(PickGateName(c), pins[i], pads[i]))
      && (r.Err? ==> r.error == MissingTerminal(c.lcscPartNumber, Min(|pins|, |pads|))
                     && Min(|pins|, |pads|) < c.padCount)
  {
  }

  /** Validation guarantees the wiring when no bespoke symbol is in play:
      the generic pins and the pads then number exactly the pad count. */
  lemma ValidGenericWiringSucceeds(t: Template, c: Component)
    requires IsValid(t, c) && !HasBespokePart(t, c)
    ensures ConnectsOf(t, c).Ok? && |ConnectsOf(t, c).value| == c.padCount
  {
    ConnectsOfMeans(t, c);
  }

  /** With a bespoke symbol, validation (which counts the generic symbol's
      pins) no longer decides the wiring: it succeeds exactly when the
      bespoke symbol has at least as many pins as the pad count. */
  lemma ValidBespokeWiring(t: Template, c: Component)
    requires IsValid(t, c) && HasBespokePart(t, c)
    ensures ConnectsOf(t, c).Ok? <==> c.padCount <= |TerminalsNamed(t.symbols, PickGateSymbol(c))|
  {
    ConnectsOfMeans(t, c);
  }

  /** A concrete case: a valid two-pad resistor whose bespoke symbol has one
      pin stops the run at index 1. */
  lemma BespokeShortOfPinsAborts()
    ensures var c := Component("C9", "R", "Resistors", "", "0402", 2, "M", false);
      var t := Template([Entry("RESISTOR_0402", ["1", "2"])],
                        [Entry("RESISTOR", ["A", "B"]), Entry("RESISTOR_R_C9", ["P"])]);
      IsValid(t, c) && ConnectsOf(t, c) == Err(MissingTerminal("C9", 1))
  {
    var c := Component("C9", "R", "Resistors", "", "0402", 2, "M", false);
    var t := Template([Entry("RESISTOR_0402", ["1", "2"])],
                      [Entry("RESISTOR", ["A", "B"]), Entry("RESISTOR_R_C9", ["P"])]);
    assert SymbolText(c) == "RESISTOR";
    assert PickPackage(c) == "RESISTOR_0402" by {
      assert NoLower("RESISTOR_0402");
      ToUpperKeepsUpper("RESISTOR_0402");
    }
    assert PickDeviceName(c) == "R_C9" by {
      assert SpacesToUnderscores("R") == "R";
    }
    assert PickGateSymbol(c) == "RESISTOR_R_C9";
    assert t.symbols[..1] == [Entry("RESISTOR", ["A", "B"])];
    assert TerminalsNamed(t.symbols, "RESISTOR") == ["A", "B"];
    assert TerminalsNamed(t.symbols, "RESISTOR_R_C9") == ["P"];
    assert TerminalsNamed(t.packages, "RESISTOR_0402") == ["1", "2"];
    assert Check(t, c) == Pass;
    assert PinsOf(t, c) == ["P"] && PadsOf(t, c) == ["1", "2"];
  }

  /** `generateDeviceGates`: one gate at the origin, named by the category
      letter, on the bespoke symbol when one was found. */
  function GateOf(c: Component, bespoke: bool): (g: Gate)
    ensures g.name == PickGateName(c) && g.x == "0" && g.y == "0"
    ensures g.symbol == PickGateSymbol(c) <==> bespoke
    ensures !bespoke ==> g.symbol == SymbolText(c)
  {
    Gate(PickGateName(c), "0", "0", if bespoke then PickGateSymbol(c) else SymbolText(c))
  }

  /** The three attributes of a device's technology. */
  function DeviceAttributes(c: Component, ext: Externals): (r: seq<Attribute>)
    ensures AttributeValue(r, "LCSC_PART") == Some(c.lcscPartNumber)
    ensures AttributeValue(r, "JLCPCB_IS_BASIC") == Some("no") <==> c.isExpanded
    ensures AttributeValue(r, "JLCPCB_IS_BASIC") == Some("yes") <==> !c.isExpanded
    ensures AttributeValue(r, "VALUE") == Some(ext.pickValue(c))
    ensures |r| == 3 && forall a :: a in r ==> a.constant == "no"
  {
    var r := [Attribute("LCSC_PART", c.lcscPartNumber, "no"),
              Attribute("JLCPCB_IS_BASIC", if c.isExpanded then "no" else "yes", "no"),
              Attribute("VALUE", ext.pickValue(c), "no")];
    assert AttributeValue(r, "JLCPCB_IS_BASIC") == AttributeValue(r[1..], "JLCPCB_IS_BASIC") == Some(r[1].value);
    assert AttributeValue(r, "VALUE") == AttributeValue(r[1..], "VALUE") == AttributeValue(r[1..][1..], "VALUE") == Some(r[2].value);
    r
  }

  /** A device from its wiring: named by at most the first 24 characters of
      the LCSC part number, on the component's package. */
  function DeviceWith(c: Component, connects: seq<Connect>, ext: Externals): (d: Device)
    ensures d.name <= c.lcscPartNumber && |d.name| == Min(|c.lcscPartNumber|, 24)
    ensures d.package == PickPackage(c) && d.connects == connects
    ensures AttributeValue(d.attributes, "LCSC_PART") == Some(c.lcscPartNumber)
    ensures AttributeValue(d.attributes, "JLCPCB_IS_BASIC") == Some("no") <==> c.isExpanded
  {
    Device(Prefix(c.lcscPartNumber, 24), PickPackage(c), connects, DeviceAttributes(c, ext))
  }

  /** `generateDeviceDevice`: fails exactly when the wiring does. */
  function DeviceOf(t: Template, c: Component, ext: Externals): (r: Result<Device, Fatal>)
    ensures r.Ok? <==> ConnectsOf(t, c).Ok?
    ensures r.Ok? ==> r.value.package == PickPackage(c) && r.value.connects == ConnectsOf(t, c).value
    ensures r.Err? ==> r.error == ConnectsOf(t, c).error
  {
    match ConnectsOf(t, c)
    case Ok(cs) => Ok(DeviceWith(c, cs, ext))
    case Err(e) => Err(e)
  }

  // ---------------------------------------------------------------------
  // The device-set merge

  /** What one accepted component contributes: the device-set name it is
      filed under, the prefix and gate a new set would get, and its device. */
  datatype Placement = Placement(name: string, prefix: string, gate: Gate, device: Device)

  /** A placement is made exactly when the wiring succeeds; it files the
      device under the device name, with the gate on the bespoke symbol
      exactly when the component has one. */
  function PlacementOf(t: Template, c: Component, ext: Externals): (r: Result<Placement, Fatal>)
    ensures r.Ok? <==> ConnectsOf(t, c).Ok?
    ensures r.Ok? ==> r.value.name == PickDeviceName(c) && r.value.prefix == ext.pickPrefix(c)
                      && r.value.gate == GateOf(c, HasBespokePart(t, c))
                      && r.value.device == DeviceWith(c, ConnectsOf(t, c).value, ext)
  {
    match DeviceOf(t, c, ext)
    case Ok(d) => Ok(Placement(PickDeviceName(c), ext.pickPrefix(c), GateOf(c, HasBespokePart(t, c)), d))
    case Err(e) => Err(e)
  }

  lemma DeviceCountUpdate(sets: seq<DeviceSet>, k: nat, s: DeviceSet)
    requires k < |sets|
    ensures DeviceCount(sets[k := s]) == DeviceCount(sets) - |sets[k].devices| + |s.devices|
    decreases |sets|
  {
    var n := |sets| - 1;
    if k < n {
      DeviceCountUpdate(sets[..n], k, s);
      assert sets[k := s][..n] == sets[..n][k := s];
    } else {
      assert sets[k := s][..n] == sets[..n];
    }
  }

  /** One placement: a device-set with the same name gets the device
      appended; otherwise a new set is added after the others. */
  function Merge(sets: seq<DeviceSet>, p: Placement): (r: seq<DeviceSet>)
    ensures NamesDistinct(sets) ==> NamesDistinct(r)
    ensures DeviceCount(r) == DeviceCount(sets) + 1
    ensures |r| == if FindDeviceSet(sets, p.name).Some? then |sets| else |sets| + 1
    ensures forall k :: 0 <= k < |r| ==> r[k].name == (if k < |sets| then sets[k].name else p.name)
  {
    match FindDeviceSet(sets, p.name)
    case Some(k) =>
      var s := sets[k].(devices := sets[k].devices + [p.device]);
      DeviceCountUpdate(sets, k, s);
      sets[k := s]
    case None =>
      assert (sets + [DeviceSet(p.name, p.prefix, p.gate, [p.device])])[..|sets|] == sets;
      sets + [DeviceSet(p.name, p.prefix, p.gate, [p.device])]
  }

  /** The device-sets built from the placements in order, starting empty:
      names pairwise distinct and one device per placement. */
  function MergeAll(ps: seq<Placement>): (r: seq<DeviceSet>)
    ensures NamesDistinct(r) && DeviceCount(r) == |ps|
    decreases |ps|
  {
    if ps == [] then [] else Merge(MergeAll(ps[..|ps| - 1]), ps[|ps| - 1])
  }

  /** The devices of the placements filed under `n`, in placement order. */
  function DevicesNamed(ps: seq<Placement>, n: string): seq<Device>
    decreases |ps|
  {
    if ps == [] then []
    else
      var p := ps[|ps| - 1];
      DevicesNamed(ps[..|ps| - 1], n) + (if p.name == n then [p.device] else [])
  }

  /** The prefix and gate of the first placement filed under `n`. */
  function HeaderOf(ps: seq<Placement>, n: string): (r: Option<(string, Gate)>)
    ensures r.None? ==> DevicesNamed(ps, n) == []
    decreases |ps|
  {
    if ps == [] then None
    else
      var p := ps[|ps| - 1];
      match HeaderOf(ps[..|ps| - 1], n)
      case Some(h) => Some(h)
      case None => if p.name == n then Some((p.prefix, p.gate)) else None
  }

  /** A name has a header exactly when some placement uses it, and the
      header is that of the first such placement; the devices under a name all come
      from placements with that name. */
  lemma {:induction false} HeaderOfMeans(ps: seq<Placement>, n: string)
    ensures HeaderOf(ps, n).None? <==> forall i :: 0 <= i < |ps| ==> ps[i].name != n
    ensures HeaderOf(ps, n).Some? ==>
              exists i :: 0 <= i < |ps| && ps[i].name == n && HeaderOf(ps, n).value == (ps[i].prefix, ps[i].gate)
                          && forall j :: 0 <= j < i ==> ps[j].name != n
    ensures forall d :: d in DevicesNamed(ps, n) ==> exists i :: 0 <= i < |ps| && ps[i].name == n && ps[i].device == d
    decreases |ps|
  {
    if ps != [] {
      var init := ps[..|ps| - 1];
      var p := ps[|ps| - 1];
      HeaderOfMeans(init, n);
      assert forall i :: 0 <= i < |init| ==> ps[i] == init[i];
      if HeaderOf(init, n).Some? {
        var i :| 0 <= i < |init| && init[i].name == n && HeaderOf(init, n).value == (init[i].prefix, init[i].gate)
                 && forall j :: 0 <= j < i ==> init[j].name != n;
        assert ps[i] == init[i];
      } else if p.name == n {
        assert ps[|ps| - 1] == p;
      }
      forall d | d in DevicesNamed(ps, n)
        ensures exists i :: 0 <= i < |ps| && ps[i].name == n && ps[i].device == d
      {
        if d in DevicesNamed(init, n) {
          var i :| 0 <= i < |init| && init[i].name == n && init[i].device == d;
          assert ps[i] == init[i];
        } else {
          assert ps[|ps| - 1] == p;
        }
      }
    }
  }

  /** The set the merge should hold under a name some placement uses. */
  function SetFor(ps: seq<Placement>, n: string): DeviceSet
    requires HeaderOf(ps, n).Some?
  {
    var h := HeaderOf(ps, n).value;
    DeviceSet(n, h.0, h.1, DevicesNamed(ps, n))
  }

  lemma PlacementSnoc(init: seq<Placement>, p: Placement, n: string)
    ensures HeaderOf(init + [p], n) ==
              if HeaderOf(init, n).Some? then HeaderOf(init, n)
              else if p.name == n then Some((p.prefix, p.gate)) else None
    ensures DevicesNamed(init + [p], n) == DevicesNamed(init, n) + (if p.name == n then [p.device] else [])
  {
    var ps := init + [p];
    assert ps[..|ps| - 1] == init && ps[|ps| - 1] == p;
  }

  /** `sets` holds a set under exactly the names the placements use. */
  ghost predicate NamesCovered(ps: seq<Placement>, sets: seq<DeviceSet>) {
    forall n :: HeaderOf(ps, n).Some? <==> exists k :: 0 <= k < |sets| && sets[k].name == n
  }

  /** Each set is the one the placements with its name call for. */
  ghost predicate SetsMatch(ps: seq<Placement>, sets: seq<DeviceSet>) {
    forall k :: 0 <= k < |sets| ==> HeaderOf(ps, sets[k].name).Some? && sets[k] == SetFor(ps, sets[k].name)
  }

  /** `sets` holds one set for every name the placements use and no other,
      each set being the one those placements call for. */
  ghost predicate GroupedBy(ps: seq<Placement>, sets: seq<DeviceSet>) {
    NamesCovered(ps, sets) && SetsMatch(ps, sets)
  }

  lemma CoveredExisting(init: seq<Placement>, sets0: seq<DeviceSet>, p: Placement, k0: nat)
    requires NamesDistinct(sets0) && GroupedBy(init, sets0)
    requires FindDeviceSet(sets0, p.name) == Some(k0)
    ensures NamesCovered(init + [p], Merge(sets0, p))
  {
    var ps := init + [p];
    var sets := Merge(sets0, p);
    assert sets == sets0[k0 := sets0[k0].(devices := sets0[k0].devices + [p.device])];
    assert HeaderOf(init, p.name).Some?;
    forall n
      ensures HeaderOf(ps, n).Some? <==> exists k :: 0 <= k < |sets| && sets[k].name == n
    {
      PlacementSnoc(init, p, n);
      if HeaderOf(ps, n).Some? {
        var k :| 0 <= k < |sets0| && sets0[k].name == n;
        assert sets[k].name == n;
      } else {
        forall k | 0 <= k < |sets|
          ensures sets[k].name != n
        {
          assert sets[k].name == sets0[k].name;
        }
      }
    }
  }

  lemma MatchExisting(init: seq<Placement>, sets0: seq<DeviceSet>, p: Placement, k0: nat)
    requires NamesDistinct(sets0) && GroupedBy(init, sets0)
    requires FindDeviceSet(sets0, p.name) == Some(k0)
    ensures SetsMatch(init + [p], Merge(sets0, p))
  {
    var ps := init + [p];
    var sets := Merge(sets0, p);
    assert sets == sets0[k0 := sets0[k0].(devices := sets0[k0].devices + [p.device])];
    assert HeaderOf(init, p.name).Some?;
    forall k | 0 <= k < |sets|
      ensures HeaderOf(ps, sets[k].name).Some? && sets[k] == SetFor(ps, sets[k].name)
    {
      PlacementSnoc(init, p, sets[k].name);
      if k != k0 {
        assert sets[k] == sets0[k];
      }
    }
  }

  lemma CoveredNew(init: seq<Placement>, sets0: seq<DeviceSet>, p: Placement)
    requires NamesDistinct(sets0) && GroupedBy(init, sets0)
    requires FindDeviceSet(sets0, p.name).None?
    ensures NamesCovered(init + [p], Merge(sets0, p))
  {
    var ps := init + [p];
    var sets := Merge(sets0, p);
    assert sets == sets0 + [DeviceSet(p.name, p.prefix, p.gate, [p.device])];
    forall n
      ensures HeaderOf(ps, n).Some? <==> exists k :: 0 <= k < |sets| && sets[k].name == n
    {
      PlacementSnoc(init, p, n);
      if n == p.name {
        assert sets[|sets0|].name == n;
      } else if HeaderOf(ps, n).Some? {
        var k :| 0 <= k < |sets0| && sets0[k].name == n;
        assert sets[k].name == n;
      } else {
        forall k | 0 <= k < |sets|
          ensures sets[k].name != n
        {
          if k < |sets0| {
            assert sets[k] == sets0[k];
          }
        }
      }
    }
  }

  lemma MatchNew(init: seq<Placement>, sets0: seq<DeviceSet>, p: Placement)
    requires NamesDistinct(sets0) && GroupedBy(init, sets0)
    requires FindDeviceSet(sets0, p.name).None?
    ensures SetsMatch(init + [p], Merge(sets0, p))
  {
    var ps := init + [p];
    var sets := Merge(sets0, p);
    assert sets == sets0 + [DeviceSet(p.name, p.prefix, p.gate, [p.device])];
    assert HeaderOf(init, p.name).None?;
    forall k | 0 <= k < |sets|
      ensures HeaderOf(ps, sets[k].name).Some? && sets[k] == SetFor(ps, sets[k].name)
    {
      PlacementSnoc(init, p, sets[k].name);
      if k < |sets0| {
        assert sets[k] == sets0[k];
      }
    }
  }

  /** One merge keeps the grouping. */
  lemma MergeGroups(init: seq<Placement>, sets0: seq<DeviceSet>, p: Placement)
    requires NamesDistinct(sets0) && GroupedBy(init, sets0)
    ensures GroupedBy(init + [p], Merge(sets0, p))
  {
    match FindDeviceSet(sets0, p.name)
    case Some(k0) =>
      CoveredExisting(init, sets0, p, k0);
      MatchExisting(init, sets0, p, k0);
    case None =>
      CoveredNew(init, sets0, p);
      MatchNew(init, sets0, p);
  }

  /** The merge is a grouping by device-set name: there is one set for
      every name a placement uses and no other, each set keeps the prefix
      and gate of the first placement with its name, and holds the devices
      of all placements with its name in input order. */
  lemma {:induction false} MergeAllGroups(ps: seq<Placement>)
    ensures GroupedBy(ps, MergeAll(ps))
    decreases |ps|
  {
    if ps != [] {
      var init, p := ps[..|ps| - 1], ps[|ps| - 1];
      assert ps == init + [p];
      assert MergeAll(ps) == Merge(MergeAll(init), p);
      MergeAllGroups(init);
      MergeGroups(init, MergeAll(init), p);
    }
  }

  // ---------------------------------------------------------------------
  // A group of components

  /** The components a test accepts, in input order. */
  function Kept(comps: seq<Component>, valid: Component -> bool): (r: seq<Component>)
    ensures |r| <= |comps|
    decreases |comps|
  {
    if comps == [] then []
    else
      var c := comps[|comps| - 1];
      Kept(comps[..|comps| - 1], valid) + (if valid(c) then [c] else [])
  }

  /** The placements of the accepted components, in input order; the first
      accepted component whose placement fails stops the run. */
  function Placed(comps: seq<Component>, valid: Component -> bool, place: Component -> Result<Placement, Fatal>)
    : (r: Result<seq<Placement>, Fatal>)
    decreases |comps|
  {
    if comps == [] then Ok([])
    else
      var c := comps[|comps| - 1];
      var init := Placed(comps[..|comps| - 1], valid, place);
      if init.Err? || !valid(c) then init
      else match place(c)
        case Err(e) => Err(e)
        case Ok(p) => Ok(init.value + [p])
  }

  lemma PlacedStep(comps: seq<Component>, valid: Component -> bool, place: Component -> Result<Placement, Fatal>, i: nat)
    requires i < |comps| && Placed(comps[..i], valid, place).Ok?
    ensures !valid(comps[i]) ==> Placed(comps[..i + 1], valid, place) == Placed(comps[..i], valid, place)
    ensures valid(comps[i]) && place(comps[i]).Err? ==>
              Placed(comps[..i + 1], valid, place) == Err(place(comps[i]).error)
    ensures valid(comps[i]) && place(comps[i]).Ok? ==>
              Placed(comps[..i + 1], valid, place) == Ok(Placed(comps[..i], valid, place).value + [place(comps[i]).value])
  {
    var s := comps[..i + 1];
    assert s[..|s| - 1] == comps[..i] && s[|s| - 1] == comps[i];
  }

  lemma PlacedSnoc(xs: seq<Component>, c: Component, valid: Component -> bool, place: Component -> Result<Placement, Fatal>)
    ensures Kept(xs + [c], valid) == if valid(c) then Kept(xs, valid) + [c] else Kept(xs, valid)
    ensures Placed(xs + [c], valid, place) ==
              if Placed(xs, valid, place).Err? || !valid(c) then Placed(xs, valid, place)
              else if place(c).Err? then Err(place(c).error)
              else Ok(Placed(xs, valid, place).value + [place(c).value])
  {
    var s := xs + [c];
    assert s[..|s| - 1] == xs && s[|s| - 1] == c;
    assert Kept(xs, valid) + [] == Kept(xs, valid);
  }

  lemma {:induction false} PlacedKept(comps: seq<Component>, valid: Component -> bool, place: Component -> Result<Placement, Fatal>)
    ensures var r, acc := Placed(comps, valid, place), Kept(comps, valid);
      (r.Ok? <==> forall i :: 0 <= i < |acc| ==> place(acc[i]).Ok?)
      && (r.Ok? ==> |r.value| == |acc| && forall i :: 0 <= i < |acc| ==> Ok(r.value[i]) == place(acc[i]))
    decreases |comps|
  {
    if comps != [] {
      var init, c := comps[..|comps| - 1], comps[|comps| - 1];
      assert comps == init + [c];
      PlacedKept(init, valid, place);
      PlacedSnoc(init, c, valid, place);
      var acc0, r0 := Kept(init, valid), Placed(init, valid, place);
      if valid(c) {
        var acc := acc0 + [c];
        if r0.Err? {
          var i :| 0 <= i < |acc0| && !place(acc0[i]).Ok?;
          assert acc[i] == acc0[i];
          assert !place(acc[i]).Ok?;
        } else if place(c).Err? {
          assert acc[|acc0|] == c;
        } else {
          var r := Placed(comps, valid, place);
          forall i | 0 <= i < |acc|
            ensures place(acc[i]).Ok? && Ok(r.value[i]) == place(acc[i])
          {
            if i < |acc0| {
              assert acc[i] == acc0[i];
              assert r.value[i] == r0.value[i];
            }
          }
        }
      }
    }
  }

  lemma {:induction false} PlacedOnlyKept(comps: seq<Component>, valid: Component -> bool, place: Component -> Result<Placement, Fatal>)
    ensures Placed(comps, valid, place) == Placed(Kept(comps, valid), valid, place)
    decreases |comps|
  {
    if comps != [] {
      var init, c := comps[..|comps| - 1], comps[|comps| - 1];
      assert comps == init + [c];
      PlacedOnlyKept(init, valid, place);
      PlacedSnoc(init, c, valid, place);
      PlacedSnoc(Kept(init, valid), c, valid, place);
    }
  }

  lemma {:induction false} PlacedStopped(comps: seq<Component>, valid: Component -> bool, place: Component -> Result<Placement, Fatal>, j: nat)
    requires j <= |comps| && Placed(comps[..j], valid, place).Err?
    ensures Placed(comps, valid, place) == Placed(comps[..j], valid, place)
    decreases |comps| - j
  {
    if j < |comps| {
      assert comps[..j + 1][..j] == comps[..j];
      PlacedStopped(comps, valid, place, j + 1);
    } else {
      assert comps[..j] == comps;
    }
  }

  /** A component is kept exactly when it is one of the inputs and passes the test. */
  lemma {:induction false} KeptMeans(comps: seq<Component>, valid: Component -> bool)
    ensures forall c :: c in Kept(comps, valid) <==> c in comps && valid(c)
    decreases |comps|
  {
    if comps != [] {
      var init, c := comps[..|comps| - 1], comps[|comps| - 1];
      assert comps == init + [c];
      KeptMeans(init, valid);
      PlacedSnoc(init, c, valid, _ => Err(MissingTerminal("", 0)));
    }
  }

  /** `isValid` over the template, as a test on components. */
  function Validator(t: Template): Component -> bool {
    c => IsValid(t, c)
  }

  /** `PlacementOf` over the template, as a function of the component. */
  function Placer(t: Template, ext: Externals): Component -> Result<Placement, Fatal> {
    c => PlacementOf(t, c, ext)
  }

  /** The components `isValid` accepts, in input order. */
  function Accepted(t: Template, comps: seq<Component>): seq<Component> {
    Kept(comps, Validator(t))
  }

  /** `generateLibrary`'s loop: the placements of the accepted components,
      in input order; the first accepted component whose wiring fails
      stops the run. */
  function PlacementsOf(t: Template, comps: seq<Component>, ext: Externals): (r: Result<seq<Placement>, Fatal>)
  {
    Placed(comps, Validator(t), Placer(t, ext))
  }

  /** One more component: a rejected one changes nothing, an accepted one
      adds its placement or ends the run. */
  lemma PlacementsStep(t: Template, comps: seq<Component>, i: nat, ext: Externals)
    requires i < |comps| && PlacementsOf(t, comps[..i], ext).Ok?
    ensures !IsValid(t, comps[i]) ==> PlacementsOf(t, comps[..i + 1], ext) == PlacementsOf(t, comps[..i], ext)
    ensures IsValid(t, comps[i]) && PlacementOf(t, comps[i], ext).Err? ==>
              PlacementsOf(t, comps[..i + 1], ext) == Err(PlacementOf(t, comps[i], ext).error)
    ensures IsValid(t, comps[i]) && PlacementOf(t, comps[i], ext).Ok? ==>
              PlacementsOf(t, comps[..i + 1], ext) ==
                Ok(PlacementsOf(t, comps[..i], ext).value + [PlacementOf(t, comps[i], ext).value])
  {
    PlacedStep(comps, Validator(t), Placer(t, ext), i);
  }

  /** The run gets through a group exactly when every accepted component
      can be wired, and then yields one placement per accepted component,
      in order. */
  lemma PlacementsOfAccepted(t: Template, comps: seq<Component>, ext: Externals)
    ensures var r, acc := PlacementsOf(t, comps, ext), Accepted(t, comps);
      (r.Ok? <==> forall i :: 0 <= i < |acc| ==> ConnectsOf(t, acc[i]).Ok?)
      && (r.Ok? ==> |r.value| == |acc| && forall i :: 0 <= i < |acc| ==> Ok(r.value[i]) == PlacementOf(t, acc[i], ext))
  {
    PlacedKept(comps, Validator(t), Placer(t, ext));
    var acc := Accepted(t, comps);
    forall i | 0 <= i < |acc|
      ensures Placer(t, ext)(acc[i]).Ok? <==> ConnectsOf(t, acc[i]).Ok?
    {
    }
  }

  /** Components that fail `isValid` contribute nothing: the placements of
      a group are those of its accepted components alone. */
  lemma OnlyAcceptedPlaced(t: Template, comps: seq<Component>, ext: Externals)
    ensures PlacementsOf(t, comps, ext) == PlacementsOf(t, Accepted(t, comps), ext)
  {
    PlacedOnlyKept(comps, Validator(t), Placer(t, ext));
  }

  /** The accepted components are the inputs that pass `isValid`. */
  lemma AcceptedMeans(t: Template, comps: seq<Component>)
    ensures forall c :: c in Accepted(t, comps) <==> c in comps && IsValid(t, c)
  {
    KeptMeans(comps, Validator(t));
  }

  /** Once the run has stopped on a prefix of the group, it has stopped on
      the whole group with the same failure. */
  lemma PlacementsStopped(t: Template, comps: seq<Component>, j: nat, ext: Externals)
    requires j <= |comps| && PlacementsOf(t, comps[..j], ext).Err?
    ensures PlacementsOf(t, comps, ext) == PlacementsOf(t, comps[..j], ext)
  {
    PlacedStopped(comps, Validator(t), Placer(t, ext), j);
  }

  /** `$referencedPackages`: the package identifier of every accepted component. */
  function ReferencedPackages(t: Template, comps: seq<Component>): (r: seq<string>)
    decreases |comps|
  {
    if comps == [] then []
    else
      var c := comps[|comps| - 1];
      ReferencedPackages(t, comps[..|comps| - 1]) + (if IsValid(t, c) then [PickPackage(c)] else [])
  }

  /** `$referencedSymbols`: the generic and the gate symbol of every accepted component. */
  function ReferencedSymbols(t: Template, comps: seq<Component>): (r: seq<string>)
    decreases |comps|
  {
    if comps == [] then []
    else
      var c := comps[|comps| - 1];
      ReferencedSymbols(t, comps[..|comps| - 1]) + (if IsValid(t, c) then [SymbolText(c), PickGateSymbol(c)] else [])
  }

  lemma ReferencedStep(t: Template, comps: seq<Component>, i: nat)
    requires i < |comps|
    ensures ReferencedPackages(t, comps[..i + 1]) ==
              ReferencedPackages(t, comps[..i]) + (if IsValid(t, comps[i]) then [PickPackage(comps[i])] else [])
    ensures ReferencedSymbols(t, comps[..i + 1]) ==
              ReferencedSymbols(t, comps[..i]) + (if IsValid(t, comps[i]) then [SymbolText(comps[i]), PickGateSymbol(comps[i])] else [])
  {
    var s := comps[..i + 1];
    assert s[..|s| - 1] == comps[..i] && s[|s| - 1] == comps[i];
  }

  /** A name is referenced exactly when some accepted component of the group uses it. */
  lemma {:induction false} ReferencedNames(t: Template, comps: seq<Component>)
    ensures forall n :: n in ReferencedPackages(t, comps) <==> exists c :: c in comps && IsValid(t, c) && n == PickPackage(c)
    ensures forall n :: n in ReferencedSymbols(t, comps) <==>
              exists c :: c in comps && IsValid(t, c) && (n == SymbolText(c) || n == PickGateSymbol(c))
    decreases |comps|
  {
    if comps != [] {
      var init := comps[..|comps| - 1];
      var c := comps[|comps| - 1];
      ReferencedNames(t, init);
      assert forall x :: x in comps <==> x in init || x == c;
    }
  }

  /** One package name and two symbol names per accepted component. */
  lemma {:induction false} ReferencedCounts(t: Template, comps: seq<Component>)
    ensures |ReferencedPackages(t, comps)| == |Accepted(t, comps)|
    ensures |ReferencedSymbols(t, comps)| == 2 * |Accepted(t, comps)|
    decreases |comps|
  {
    if comps != [] {
      ReferencedCounts(t, comps[..|comps| - 1]);
    }
  }

  // ---------------------------------------------------------------------
  // Pruning

  /** Names PHP's `array_filter` treats as false and so never removes. */
  predicate Falsy(n: string) {
    n == "" || n == "0"
  }

  /** The pruned section: the entries whose name is referenced or falsy, in order. */
  function Prune(es: seq<Entry>, refs: seq<string>): (r: seq<Entry>)
    ensures |r| <= |es|
    decreases |es|
  {
    if es == [] then []
    else
      var e := es[|es| - 1];
      Prune(es[..|es| - 1], refs) + (if e.name in refs || Falsy(e.name) then [e] else [])
  }

  /** Pruning keeps exactly the entries whose name is referenced or falsy. */
  lemma {:induction false} PruneMeans(es: seq<Entry>, refs: seq<string>)
    ensures forall e :: e in Prune(es, refs) <==> e in es && (e.name in refs || Falsy(e.name))
    decreases |es|
  {
    if es != [] {
      var init := es[..|es| - 1];
      PruneMeans(init, refs);
      assert forall e :: e in es <==> e in init || e == es[|es| - 1];
    }
  }

  /** The entries whose name is not in `names`, in order. */
  function Drop(es: seq<Entry>, names: set<string>): (r: seq<Entry>)
    ensures forall e :: e in r <==> e in es && e.name !in names
    decreases |es|
  {
    if es == [] then []
    else
      var e := es[|es| - 1];
      Drop(es[..|es| - 1], names) + (if e.name in names then [] else [e])
  }

  lemma {:induction false} DropNothing(es: seq<Entry>)
    ensures Drop(es, {}) == es
    decreases |es|
  {
    if es != [] {
      DropNothing(es[..|es| - 1]);
    }
  }

  lemma {:induction false} DropTwice(es: seq<Entry>, a: set<string>, b: set<string>)
    ensures Drop(Drop(es, a), b) == Drop(es, a + b)
    decreases |es|
  {
    if es != [] {
      var init := es[..|es| - 1];
      var e := es[|es| - 1];
      DropTwice(init, a, b);
      var d := Drop(init, a);
      if e.name in a {
        assert Drop(es, a) == d;
        assert Drop(es, a + b) == Drop(init, a + b);
      } else {
        assert Drop(es, a) == d + [e];
        assert (d + [e])[..|d|] == d;
        assert Drop(d + [e], b) == Drop(d, b) + (if e.name in b then [] else [e]);
      }
    }
  }

  /** Dropping a set of names that are exactly the unreferenced, non-falsy
      ones present is pruning. */
  lemma {:induction false} DropIsPrune(es: seq<Entry>, names: set<string>, refs: seq<string>)
    requires forall e :: e in es ==> (e.name in names <==> !(e.name in refs || Falsy(e.name)))
    ensures Drop(es, names) == Prune(es, refs)
    decreases |es|
  {
    if es != [] {
      DropIsPrune(es[..|es| - 1], names, refs);
    }
  }

  /** The first pruning loop: the names of entries not referenced, in order. */
  function Unreferenced(es: seq<Entry>, refs: seq<string>): (r: seq<string>)
    ensures forall n :: n in r <==> n !in refs && exists e :: e in es && e.name == n
    decreases |es|
  {
    if es == [] then []
    else
      var e := es[|es| - 1];
      var init := Unreferenced(es[..|es| - 1], refs);
      assert forall x :: x in es[..|es| - 1] ==> x in es;
      init + (if e.name in refs then [] else [e.name])
  }

  /** `array_filter` on a list of names: drops the falsy ones. */
  function Truthy(names: seq<string>): (r: seq<string>)
    ensures forall n :: n in r <==> n in names && !Falsy(n)
    decreases |names|
  {
    if names == [] then []
    else
      var n := names[|names| - 1];
      Truthy(names[..|names| - 1]) + (if Falsy(n) then [] else [n])
  }

  function NameSet(names: seq<string>): set<string> {
    set n | n in names
  }

  lemma NameSetSnoc(names: seq<string>, n: string)
    ensures NameSet(names + [n]) == NameSet(names) + {n}
  {
  }

  /** Dropping the names of a list one at a time drops them all. */
  lemma DropStep(es: seq<Entry>, names: seq<string>, j: nat)
    requires j < |names|
    ensures Drop(Drop(es, NameSet(names[..j])), {names[j]}) == Drop(es, NameSet(names[..j + 1]))
  {
    DropTwice(es, NameSet(names[..j]), {names[j]});
    assert names[..j + 1] == names[..j] + [names[j]];
    NameSetSnoc(names[..j], names[j]);
  }

  /** What the removal loops drop is exactly what pruning drops. */
  lemma RemovalPrunes(es: seq<Entry>, refs: seq<string>)
    ensures Drop(es, NameSet(Truthy(Unreferenced(es, refs)))) == Prune(es, refs)
  {
    DropIsPrune(es, NameSet(Truthy(Unreferenced(es, refs))), refs);
  }

  // ---------------------------------------------------------------------
  // The whole library of one group

  /** The outcome of `generateLibrary`: the count it returns, the document
      it holds at the end, the output path and whether it was written. */
  datatype Generated = Generated(count: nat, document: Document, path: string, written: bool)

  /** `generateLibrary` for the group `groupName` over the loaded template
      file `lbr`, whose stale device-sets are discarded. */
  function GenerateLibrarySpec(groupName: string, lbr: Document, comps: seq<Component>, ext: Externals): (r: Result<Generated, Fatal>)
    ensures r.Ok? ==> r.value.count == |Accepted(TemplateOf(lbr), comps)| && r.value.written == (r.value.count > 0)
    ensures r.Ok? ==> r.value.path == "lbr/" + groupName + ".lbr"
    ensures r.Ok? ==> NamesDistinct(r.value.document.deviceSets) && DeviceCount(r.value.document.deviceSets) == r.value.count
    ensures r.Ok? ==> |r.value.document.packages| <= |lbr.packages| && |r.value.document.symbols| <= |lbr.symbols|
  {
    var t := TemplateOf(lbr);
    PlacementsOfAccepted(t, comps, ext);
    match PlacementsOf(t, comps, ext)
    case Err(e) => Err(e)
    case Ok(ps) =>
      var doc := Document(Prune(lbr.packages, ReferencedPackages(t, comps)),
                          Prune(lbr.symbols, ReferencedSymbols(t, comps)),
                          MergeAll(ps));
      Ok(Generated(|ps|, doc, "lbr/" + groupName + ".lbr", |ps| > 0))
  }

  /** What a generated library holds: it fails exactly when an accepted
      component cannot be wired; otherwise it counts the accepted
      components, is written exactly when that count is positive, files
      each placement under the one device-set of its name, and keeps a
      template package or symbol exactly when an accepted component
      references it or its name is falsy. */
  lemma GeneratedLibraryMeans(groupName: string, lbr: Document, comps: seq<Component>, ext: Externals)
    ensures var t, acc := TemplateOf(lbr), Accepted(TemplateOf(lbr), comps);
      GenerateLibrarySpec(groupName, lbr, comps, ext).Ok? <==> forall i :: 0 <= i < |acc| ==> ConnectsOf(t, acc[i]).Ok?
    ensures var r, t := GenerateLibrarySpec(groupName, lbr, comps, ext), TemplateOf(lbr);
      r.Ok? ==>
        var g := r.value;
        g.count == |Accepted(t, comps)| && g.written == (g.count > 0) && g.path == "lbr/" + groupName + ".lbr"
        && NamesDistinct(g.document.deviceSets) && DeviceCount(g.document.deviceSets) == g.count
        && GroupedBy(PlacementsOf(t, comps, ext).value, g.document.deviceSets)
        && (forall e :: e in g.document.packages <==>
              e in lbr.packages && (e.name in ReferencedPackages(t, comps) || Falsy(e.name)))
        && (forall e :: e in g.document.symbols <==>
              e in lbr.symbols && (e.name in ReferencedSymbols(t, comps) || Falsy(e.name)))
  {
    var t := TemplateOf(lbr);
    PlacementsOfAccepted(t, comps, ext);
    var placed := PlacementsOf(t, comps, ext);
    if placed.Ok? {
      var ps := placed.value;
      MergeAllGroups(ps);
      PruneMeans(lbr.packages, ReferencedPackages(t, comps));
      PruneMeans(lbr.symbols, ReferencedSymbols(t, comps));
    }
  }

  /** A set of a grouping has the header of the first placement filed
      under its name. */
  lemma SetHeader(ps: seq<Placement>, sets: seq<DeviceSet>, k: nat)
    requires GroupedBy(ps, sets) && k < |sets|
    ensures exists i :: 0 <= i < |ps| && ps[i].name == sets[k].name && ps[i].prefix == sets[k].prefix
                        && ps[i].gate == sets[k].gate && forall j :: 0 <= j < i ==> ps[j].name != sets[k].name
  {
    HeaderOfMeans(ps, sets[k].name);
  }

  /** A device of a set of a grouping is the device of a placement filed
      under the set's name. */
  lemma SetDevices(ps: seq<Placement>, sets: seq<DeviceSet>, k: nat, d: Device)
    requires GroupedBy(ps, sets) && k < |sets| && d in sets[k].devices
    ensures exists i :: 0 <= i < |ps| && ps[i].name == sets[k].name && ps[i].device == d
  {
    HeaderOfMeans(ps, sets[k].name);
  }

  /** The placements are those of the components `acc`, in order. */
  ghost predicate PlacementsFrom(t: Template, acc: seq<Component>, ps: seq<Placement>, ext: Externals) {
    |ps| == |acc| && forall i :: 0 <= i < |acc| ==> Ok(ps[i]) == PlacementOf(t, acc[i], ext)
  }

  lemma GroupedGate(t: Template, acc: seq<Component>, ps: seq<Placement>, ext: Externals, sets: seq<DeviceSet>, k: nat)
    requires PlacementsFrom(t, acc, ps, ext) && GroupedBy(ps, sets) && k < |sets|
    ensures exists i :: 0 <= i < |acc| && PickDeviceName(acc[i]) == sets[k].name && sets[k].prefix == ext.pickPrefix(acc[i])
                        && sets[k].gate == GateOf(acc[i], HasBespokePart(t, acc[i]))
                        && forall j :: 0 <= j < i ==> PickDeviceName(acc[j]) != sets[k].name
  {
    SetHeader(ps, sets, k);
    var i :| 0 <= i < |ps| && ps[i].name == sets[k].name && ps[i].prefix == sets[k].prefix
             && ps[i].gate == sets[k].gate && forall j :: 0 <= j < i ==> ps[j].name != sets[k].name;
    assert Ok(ps[i]) == PlacementOf(t, acc[i], ext);
    forall j | 0 <= j < i
      ensures PickDeviceName(acc[j]) != sets[k].name
    {
      assert Ok(ps[j]) == PlacementOf(t, acc[j], ext);
    }
  }

  lemma GroupedDevice(t: Template, acc: seq<Component>, ps: seq<Placement>, ext: Externals, sets: seq<DeviceSet>, k: nat, d: Device)
    requires PlacementsFrom(t, acc, ps, ext) && GroupedBy(ps, sets) && k < |sets| && d in sets[k].devices
    ensures exists i :: 0 <= i < |acc| && PickDeviceName(acc[i]) == sets[k].name
                        && d.name == Prefix(acc[i].lcscPartNumber, 24) && d.package == PickPackage(acc[i])
                        && ConnectsOf(t, acc[i]) == Ok(d.connects)
                        && AttributeValue(d.attributes, "LCSC_PART") == Some(acc[i].lcscPartNumber)
                        && (AttributeValue(d.attributes, "JLCPCB_IS_BASIC") == Some("no") <==> acc[i].isExpanded)
  {
    SetDevices(ps, sets, k, d);
    var i :| 0 <= i < |ps| && ps[i].name == sets[k].name && ps[i].device == d;
    var c := acc[i];
    assert Ok(ps[i]) == PlacementOf(t, c, ext);
    assert d == DeviceWith(c, ConnectsOf(t, c).value, ext);
  }

  /** Each device-set of a generated library is headed by the first
      accepted component filed under its name: it takes that component's
      prefix, and its gate is on the bespoke symbol exactly when that
      component has one. */
  lemma GeneratedGates(groupName: string, lbr: Document, comps: seq<Component>, ext: Externals, k: nat)
    requires GenerateLibrarySpec(groupName, lbr, comps, ext).Ok?
    requires k < |GenerateLibrarySpec(groupName, lbr, comps, ext).value.document.deviceSets|
    ensures var t, acc := TemplateOf(lbr), Accepted(TemplateOf(lbr), comps);
      var s := GenerateLibrarySpec(groupName, lbr, comps, ext).value.document.deviceSets[k];
      exists i :: 0 <= i < |acc| && PickDeviceName(acc[i]) == s.name && s.prefix == ext.pickPrefix(acc[i])
                  && s.gate == GateOf(acc[i], HasBespokePart(t, acc[i]))
                  && forall j :: 0 <= j < i ==> PickDeviceName(acc[j]) != s.name
  {
    var t, acc := TemplateOf(lbr), Accepted(TemplateOf(lbr), comps);
    PlacementsOfAccepted(t, comps, ext);
    var ps := PlacementsOf(t, comps, ext).value;
    MergeAllGroups(ps);
    GroupedGate(t, acc, ps, ext, MergeAll(ps), k);
  }

  /** Each device of a generated library is the device of an accepted
      component filed under its set's name: named by that component's part
      number, on its package, wired as `ConnectsOf` wires it, and tagged
      with its part number and its tier. */
  lemma GeneratedDevices(groupName: string, lbr: Document, comps: seq<Component>, ext: Externals, k: nat, d: Device)
    requires GenerateLibrarySpec(groupName, lbr, comps, ext).Ok?
    requires k < |GenerateLibrarySpec(groupName, lbr, comps, ext).value.document.deviceSets|
    requires d in GenerateLibrarySpec(groupName, lbr, comps, ext).value.document.deviceSets[k].devices
    ensures var t, acc := TemplateOf(lbr), Accepted(TemplateOf(lbr), comps);
      var s := GenerateLibrarySpec(groupName, lbr, comps, ext).value.document.deviceSets[k];
      exists i :: 0 <= i < |acc| && PickDeviceName(acc[i]) == s.name
                  && d.name == Prefix(acc[i].lcscPartNumber, 24) && d.package == PickPackage(acc[i])
                  && ConnectsOf(t, acc[i]) == Ok(d.connects)
                  && AttributeValue(d.attributes, "LCSC_PART") == Some(acc[i].lcscPartNumber)
                  && (AttributeValue(d.attributes, "JLCPCB_IS_BASIC") == Some("no") <==> acc[i].isExpanded)
  {
    var t, acc := TemplateOf(lbr), Accepted(TemplateOf(lbr), comps);
    PlacementsOfAccepted(t, comps, ext);
    var ps := PlacementsOf(t, comps, ext).value;
    MergeAllGroups(ps);
    GroupedDevice(t, acc, ps, ext, MergeAll(ps), k, d);
  }

  /** Every package a generated device names is still in the pruned
      library: validation found it in the template, and the accepted
      component that uses it references it. */
  lemma GeneratedPackagesKept(groupName: string, lbr: Document, comps: seq<Component>, ext: Externals, k: nat, d: Device)
    requires GenerateLibrarySpec(groupName, lbr, comps, ext).Ok?
    requires k < |GenerateLibrarySpec(groupName, lbr, comps, ext).value.document.deviceSets|
    requires d in GenerateLibrarySpec(groupName, lbr, comps, ext).value.document.deviceSets[k].devices
    ensures exists e :: e in GenerateLibrarySpec(groupName, lbr, comps, ext).value.document.packages && e.name == d.package
  {
    var t, acc := TemplateOf(lbr), Accepted(TemplateOf(lbr), comps);
    GeneratedDevices(groupName, lbr, comps, ext, k, d);
    var i :| 0 <= i < |acc| && d.package == PickPackage(acc[i]);
    var c := acc[i];
    AcceptedMeans(t, comps);
    assert c in comps && IsValid(t, c);
    IsValidMeans(t, c);
    var e :| e in lbr.packages && e.name == PickPackage(c);
    ReferencedNames(t, comps);
    assert PickPackage(c) in ReferencedPackages(t, comps);
    PruneMeans(lbr.packages, ReferencedPackages(t, comps));
    assert e in Prune(lbr.packages, ReferencedPackages(t, comps));
  }

  /** The symbol half does not hold: validation accepts a zero-pad resistor
      whose generic symbol the template lacks, so the library written for
      it has a gate on "RESISTOR" and no symbol at all. */
  lemma GeneratedGateWithoutSymbol(ext: Externals)
    ensures var c := Component("C1", "R1", "Resistors", "", "0402", 0, "M", false);
      var r := GenerateLibrarySpec("Resistors.basic", Document([Entry("RESISTOR_0402", [])], [], []), [c], ext);
      r.Ok? && |r.value.document.deviceSets| == 1 && r.value.document.deviceSets[0].gate.symbol == "RESISTOR"
      && r.value.document.symbols == []
  {
    var c := Component("C1", "R1", "Resistors", "", "0402", 0, "M", false);
    var lbr := Document([Entry("RESISTOR_0402", [])], [], []);
    var t := TemplateOf(lbr);
    ValidWithoutSymbolEntry();
    assert IsValid(t, c);
    assert !HasBespokePart(t, c);
    assert ConnectsOf(t, c).Ok?;
    var p := PlacementOf(t, c, ext).value;
    assert [c][..0] == [] && [c][..1] == [c];
    assert PlacementsOf(t, [], ext) == Ok([]);
    PlacementsStep(t, [c], 0, ext);
    assert PlacementsOf(t, [c], ext) == Ok([] + [p]);
    assert MergeAll([p]) == Merge([], p);
    assert p.gate.symbol == "RESISTOR";
  }
}
