/** One catalog row as a component record (src/Component.php): the row
    parsing done by its constructor, the identifiers it derives, and the
    validation of a proposed symbol and package against the template. */
module Catalog {

  import opened Wrappers
  import opened Text
  import opened Eagle

  /** A spreadsheet row: the eight cells the program reads, by column name. */
  datatype Row = Row(
    lcscPart: string,        // "LCSC Part"
    mfrPart: string,         // "MFR.Part"
    firstCategory: string,   // "First Category"
    secondCategory: string,  // "Second Category"
    package: string,         // "Package"
    solderJoint: string,     // "Solder Joint"
    manufacturer: string,    // "Manufacturer"
    libraryType: string)     // "Library Type"

  datatype Component = Component(
    lcscPartNumber: string,
    manufacturerPart: string,
    categoryFirst: string,
    categorySecond: string,
    package: string,
    padCount: nat,
    manufacturer: string,
    isExpanded: bool)

  /** The ways a run stops: the two `die` calls of the row parser, and the
      `exit` of the wiring loop when pin or pad `index` is missing. */
  datatype Fatal =
    | UnknownSolderJoint(cell: string)
    | UnknownLibraryType(cell: string)
    | MissingTerminal(part: string, index: nat)

  /** `pickValue` and `pickPrefix` are called by the assembler but defined
      nowhere in the program; the model takes them as given functions. */
  datatype Externals = Externals(pickValue: Component -> string, pickPrefix: Component -> string)

  predicate IsTrimmedComponent(c: Component) {
    IsTrimmed(c.lcscPartNumber) && IsTrimmed(c.manufacturerPart) && IsTrimmed(c.categoryFirst)
    && IsTrimmed(c.categorySecond) && IsTrimmed(c.package) && IsTrimmed(c.manufacturer)
  }

  /** `readSheet` keeps a row only when PHP's `empty` is false for its
      "LCSC Part" cell, so a cell reading "0" drops the row as well. */
  predicate KeepRow(row: Row) {
    row.lcscPart != "" && row.lcscPart != "0"
  }

  /** The constructor: every string cell stored trimmed; a non-numeric
      "Solder Joint" and then a "Library Type" other than `base`/`expand`
      stop the run. */
  function FromRow(row: Row): (r: Result<Component, Fatal>)
    ensures r.Ok? ==> IsTrimmedComponent(r.value)
  {
    var joint := Trim(row.solderJoint);
    var kind := Trim(row.libraryType);
    if !IsDigits(joint) then Err(UnknownSolderJoint(row.solderJoint))
    else if kind == "base" || kind == "expand" then
      Ok(Component(Trim(row.lcscPart), Trim(row.mfrPart), Trim(row.firstCategory), Trim(row.secondCategory),
                   Trim(row.package), DigitsValue(joint), Trim(row.manufacturer), kind == "expand"))
    else Err(UnknownLibraryType(row.libraryType))
  }

  /** A row parses exactly when its trimmed "Solder Joint" is all digits and
      its trimmed "Library Type" is `base` or `expand`; the solder-joint
      check comes first; the pad count is the digits' value and the
      component is expanded exactly for `expand`. */
  lemma FromRowMeans(row: Row)
    ensures var r := FromRow(row);
      (r.Ok? <==> IsDigits(Trim(row.solderJoint)) && Trim(row.libraryType) in {"base", "expand"})
      && (!IsDigits(Trim(row.solderJoint)) ==> r == Err(UnknownSolderJoint(row.solderJoint)))
      && (IsDigits(Trim(row.solderJoint)) && Trim(row.libraryType) !in {"base", "expand"} ==>
            r == Err(UnknownLibraryType(row.libraryType)))
      && (r.Ok? ==> (r.value.isExpanded <==> Trim(row.libraryType) == "expand"))
      && (r.Ok? ==> r.value.padCount == DigitsValue(Trim(row.solderJoint)))
      && (r.Ok? ==> r.value.lcscPartNumber == Trim(row.lcscPart) && r.value.manufacturerPart == Trim(row.mfrPart)
                    && r.value.categoryFirst == Trim(row.firstCategory) && r.value.categorySecond == Trim(row.secondCategory)
                    && r.value.package == Trim(row.package) && r.value.manufacturer == Trim(row.manufacturer))
  {
  }

  /** The row a component is read from, written back: its stored cells,
      the pad count in decimal and the tier as `base` or `expand`. */
  function RowOf(c: Component): Row {
    Row(c.lcscPartNumber, c.manufacturerPart, c.categoryFirst, c.categorySecond, c.package,
        DigitsOf(c.padCount), c.manufacturer, if c.isExpanded then "expand" else "base")
  }

  /** Writing a component with trimmed cells out as a row and parsing that
      row gives back the same component. */
  lemma FromRowRoundTrip(c: Component)
    requires IsTrimmedComponent(c)
    ensures FromRow(RowOf(c)) == Ok(c)
  {
    var kind := if c.isExpanded then "expand" else "base";
    var joint := DigitsOf(c.padCount);
    assert Trim(kind) == kind by {
      TrimFixesTrimmed(kind);
    }
    assert Trim(joint) == joint by {
      assert IsDigit(joint[0]) && IsDigit(joint[|joint| - 1]);
      TrimFixesTrimmed(joint);
    }
    DigitsRoundTrip(c.padCount);
    TrimFixesTrimmed(c.lcscPartNumber);
    TrimFixesTrimmed(c.manufacturerPart);
    TrimFixesTrimmed(c.categoryFirst);
    TrimFixesTrimmed(c.categorySecond);
    TrimFixesTrimmed(c.package);
    TrimFixesTrimmed(c.manufacturer);
  }

  const KnownCategories: set<string> := {"Resistors", "Capacitors", "Diodes", "Crystals", "Fuses"}
  const Symbols: set<string> := {"RESISTOR", "CAPACITOR", "DIODE", "CRYSTAL", "FUSE"}

  /** The generic schematic symbol for the component's first category; the
      second category plays no part. */
  function PickSymbol(c: Component): (r: Option<string>)
    ensures r.Some? <==> c.categoryFirst in KnownCategories
    ensures r.Some? ==> r.value in Symbols
  {
    match c.categoryFirst
    case "Resistors" => Some("RESISTOR")
    case "Capacitors" => Some("CAPACITOR")
    case "Diodes" => Some("DIODE")
    case "Crystals" => Some("CRYSTAL")
    case "Fuses" => Some("FUSE")
    case _ => None
  }

  /** The symbol as it reads inside a formatted string: PHP's `null` prints as "". */
  function SymbolText(c: Component): string {
    match PickSymbol(c)
    case Some(s) => s
    case None => ""
  }

  /** The symbol text is empty exactly when no symbol is picked, and has no
      lower-case letter. */
  lemma PickSymbolMeans(c: Component)
    ensures SymbolText(c) == "" <==> PickSymbol(c).None?
    ensures NoLower(SymbolText(c))
  {
  }

  /** The second category plays no part in the symbol. */
  lemma PickSymbolIgnoresSecondCategory(c: Component, s: string)
    ensures PickSymbol(c.(categorySecond := s)) == PickSymbol(c)
  {
  }

  /** The package identifier: symbol, "_", then the whole package cell upper-cased. */
  function PickPackage(c: Component): (r: string)
    ensures |r| == |SymbolText(c)| + 1 + |c.package| && NoLower(r)
  {
    ToUpperMeans(SymbolText(c) + "_" + c.package);
    ToUpper(SymbolText(c) + "_" + c.package)
  }

  /** The package identifier is the symbol, "_", and the upper-cased
      package cell, with no lower-case letter left. */
  lemma PickPackageShape(c: Component)
    ensures var r, s := PickPackage(c), SymbolText(c);
      |r| == |s| + 1 + |c.package| && r[..|s|] == s && r[|s|] == '_' && r[|s| + 1..] == ToUpper(c.package)
      && NoLower(r)
  {
    var s := SymbolText(c);
    PickSymbolMeans(c);
    ToUpperMeans(s + "_" + c.package);
    ToUpperAppend(s + "_", c.package);
    ToUpperAppend(s, "_");
    ToUpperKeepsUpper(s);
  }

  /** The device-set name: the manufacturer part with spaces turned into
      underscores, "_", then the LCSC part number. Never empty. */
  function PickDeviceName(c: Component): (r: string)
    ensures r != ""
  {
    SpacesToUnderscores(c.manufacturerPart) + "_" + c.lcscPartNumber
  }

  /** The device-set name is the manufacturer part with every space made an
      underscore, "_", then the LCSC part number. */
  lemma PickDeviceNameShape(c: Component)
    ensures var r, m := PickDeviceName(c), c.manufacturerPart;
      |r| == |m| + 1 + |c.lcscPartNumber| && ' ' !in r[..|m|] && r[|m|] == '_'
      && (forall k :: 0 <= k < |m| && m[k] != ' ' ==> r[k] == m[k])
      && r[|m| + 1..] == c.lcscPartNumber
  {
    var m := c.manufacturerPart;
    var r := PickDeviceName(c);
    SpacesToUnderscoresMeans(m);
    assert r[..|m|] == SpacesToUnderscores(m);
  }

  /** The gate name: the first character of the first category upper-cased, then "$1". */
  function PickGateName(c: Component): (r: string)
    ensures |r| >= 2
  {
    ToUpper(Prefix(c.categoryFirst, 1)) + "$1"
  }

  /** The gate name is "$1" after the upper-cased first character of the
      first category, if it has one. */
  lemma PickGateNameShape(c: Component)
    ensures var r := PickGateName(c);
      (c.categoryFirst == "" ==> r == "$1")
      && (c.categoryFirst != "" ==> |r| == 3 && r[0] == UpperChar(c.categoryFirst[0]))
      && r[|r| - 2..] == "$1"
  {
    var r := PickGateName(c);
    assert r[|r| - 2..] == "$1";
  }

  /** ASSUMPTION: the program calls `pickGateSymbol` without defining it; the
      model takes the name its wiring code looks up as the bespoke symbol. */
  function PickGateSymbol(c: Component): (r: string)
    ensures |r| > |SymbolText(c)| + 1 && r[..|SymbolText(c)| + 1] == SymbolText(c) + "_"
  {
    var r := SymbolText(c) + "_" + PickDeviceName(c);
    assert r[..|SymbolText(c)| + 1] == SymbolText(c) + "_";
    r
  }

  /** ASSUMPTION: `hasBespokePart` is likewise undefined; the model takes it
      to hold when the bespoke symbol has at least one pin. */
  predicate HasBespokePart(t: Template, c: Component): (r: bool)
    ensures r ==> exists e :: e in t.symbols && e.name == PickGateSymbol(c)
  {
    var named := Named(t.symbols, PickGateSymbol(c));
    NamedMeans(t.symbols, PickGateSymbol(c));
    assert named != [] ==> named[0] in named;
    TerminalsNamed(t.symbols, PickGateSymbol(c)) != []
  }

  /** Why `isValid` answers as it does, in the order its checks run. */
  datatype Verdict = NoSymbol | UnknownPackage | CountMismatch(pins: nat, pads: nat) | Pass

  function Check(t: Template, c: Component): (r: Verdict)
    ensures r == NoSymbol <==> PickSymbol(c).None?
    ensures r == UnknownPackage ==> PickSymbol(c).Some? && TerminalsNamed(t.packages, PickPackage(c)) == []
    ensures r.CountMismatch? ==> r.pins != c.padCount || r.pads != c.padCount
    ensures r == Pass ==> |TerminalsNamed(t.symbols, SymbolText(c))| == c.padCount
                          && |TerminalsNamed(t.packages, PickPackage(c))| == c.padCount
  {
    if PickSymbol(c).None? then NoSymbol
    else if Named(t.packages, PickPackage(c)) == [] then UnknownPackage
    else
      var pins := |TerminalsNamed(t.symbols, SymbolText(c))|;
      var pads := |TerminalsNamed(t.packages, PickPackage(c))|;
      if pins == c.padCount && pads == c.padCount then Pass else CountMismatch(pins, pads)
  }

  /** `isValid`: the component passes every check. */
  predicate IsValid(t: Template, c: Component) {
    Check(t, c) == Pass
  }

  /** `isValid` holds exactly when a symbol is picked, its package exists,
      and both the generic symbol's pin count and the package's pad count
      equal the pad count. */
  lemma IsValidMeans(t: Template, c: Component)
    ensures IsValid(t, c) <==>
      PickSymbol(c).Some?
      && (exists e :: e in t.packages && e.name == PickPackage(c))
      && |TerminalsNamed(t.symbols, SymbolText(c))| == c.padCount
      && |TerminalsNamed(t.packages, PickPackage(c))| == c.padCount
  {
    var named := Named(t.packages, PickPackage(c));
    NamedMeans(t.packages, PickPackage(c));
    if named != [] {
      assert named[0] in named;
    }
  }

  /** Without a symbol the answer is `false` whatever the template holds. */
  lemma NoSymbolRejectedFirst(t: Template, c: Component)
    requires PickSymbol(c).None?
    ensures Check(t, c) == NoSymbol && !IsValid(t, c)
  {
  }

  /** The package lookup comes before any count: a missing package is the
      reason, whatever the symbols hold. */
  lemma MissingPackageRejected(t: Template, c: Component)
    requires PickSymbol(c).Some?
    requires forall e :: e in t.packages ==> e.name != PickPackage(c)
    ensures Check(t, c) == UnknownPackage && !IsValid(t, c)
  {
    NamedMeans(t.packages, PickPackage(c));
  }

  /** Validation does not ensure that the generic symbol exists: with a pad
      count of 0, a component whose symbol the template lacks is accepted. */
  lemma ValidWithoutSymbolEntry()
    ensures var c := Component("C1", "R1", "Resistors", "", "0402", 0, "M", false);
      IsValid(Template([Entry("RESISTOR_0402", [])], []), c)
      && forall e :: e in Template([Entry("RESISTOR_0402", [])], []).symbols ==> e.name != SymbolText(c)
  {
    var c := Component("C1", "R1", "Resistors", "", "0402", 0, "M", false);
    var t := Template([Entry("RESISTOR_0402", [])], []);
    assert PickPackage(c) == "RESISTOR_0402";
    assert Named(t.packages, "RESISTOR_0402") == [Entry("RESISTOR_0402", [])];
  }

  /** The `sortComponents` key: first category, ".", then the tier. */
  function GroupName(c: Component): string
  {
    c.categoryFirst + "." + (if c.isExpanded then "expanded" else "basic")
  }

  /** Two components share a group exactly when they share the first
      category and the tier. */
  lemma GroupNameInjective(c1: Component, c2: Component)
    ensures GroupName(c1) == GroupName(c2) <==> c1.categoryFirst == c2.categoryFirst && c1.isExpanded == c2.isExpanded
  {
    var n1, n2 := GroupName(c1), GroupName(c2);
    if n1 == n2 {
      // "expanded" ends in 'd', "basic" in 'c': the last letter fixes the tier.
      assert n1[|n1| - 1] == (if c1.isExpanded then 'd' else 'c');
      assert n2[|n2| - 1] == (if c2.isExpanded then 'd' else 'c');
      var suffix := "." + (if c1.isExpanded then "expanded" else "basic");
      assert n1 == c1.categoryFirst + suffix && n2 == c2.categoryFirst + suffix;
      assert c1.categoryFirst == n1[..|n1| - |suffix|];
      assert c2.categoryFirst == n2[..|n2| - |suffix|];
    }
  }
}
