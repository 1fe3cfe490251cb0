# JLCPCB parts catalogue to EAGLE libraries: a Dafny model

The PHP program reads JLCPCB's component catalogue (a spreadsheet, one part
per row) and writes one EAGLE library per group of parts. A group is the
parts that share a first category and a tier, "basic" or "expanded".

Each row becomes a `Component` record. The record supplies:

- a schematic symbol, from the first category;
- a package identifier: the symbol, `_`, and the package cell, upper-cased;
- a device-set name: the manufacturer part with spaces turned into
  underscores, `_`, then the LCSC part number;
- a gate name: the first category's initial, then `$1`.

`isValid` checks a component against a template library (`assets/empty.lbr`).
A symbol must be picked for the first category, the package must be present, and both the generic
symbol's pin count and the package's pad count must equal the catalogue's
solder-joint count.

For each group, `generateLibrary` then does the following:

1. Empties the template's device-sets.
2. Files every accepted component as a device under the device-set of its
   name. A new set is created the first time a name appears. Pin i is wired
   to pad i, and a bespoke symbol `<SYMBOL>_<device name>` is preferred when
   it has pins.
3. Removes every package and symbol no accepted component references. Names
   that PHP's `array_filter` treats as false are kept.
4. Returns the number of devices filed.

`build` adds these counts over all groups. A malformed row, and a device that
runs out of pins or pads while being wired, stop the whole run.

The project has seven modules, one per file:

- `Wrappers` (`wrappers.dfy`): `Option` and `Result`.
- `Text` (`text.dfy`): the PHP string functions the program relies on. These
  are `trim`, ASCII `strtoupper`, the space-to-underscore `str_replace`, the
  24-character `substr`, and digit strings for `is_numeric`/`intval`.
- `Eagle` (`eagle.dfy`): the parts of an EAGLE document the program touches.
  Packages and symbols are named entries with terminal names (pads or pins);
  device-sets hold a gate and devices.
- `Catalog` (`catalog.dfy`): `src/Component.php`. This covers row parsing,
  the derived identifiers, `isValid` and the group key.
- `Assembly` (`assembly.dfy`): what `generateLibrary` computes, as functions.
  This covers wiring, devices, the device-set merge, referenced names,
  pruning and the whole generated library.
- `Grouping` (`grouping.dfy`): `readSheet`, `sortComponents` and `build`, as
  functions.
- `Party` (`party.dfy`): the imperative code of `src/Party.php`.
  - The class `LibraryFile` is the library DOM, whose packages, symbols and
    device-sets the methods rewrite in place.
  - The class `Party` holds the components read from the sheet.
  - Module-level methods cover the wiring loop, the per-group generation and
    `build`'s loop.
  - Every method is proved to compute the value the functions in `Assembly`
    and `Grouping` specify.

Calling `exit` or `die` is modelled as an `Err(Fatal)` result that every
caller passes on unchanged.

`isValid` counts the pins of the generic symbol, while the wiring uses the
bespoke symbol's pins when it has any. So a component can pass validation and
still stop the run while it is being wired. `Assembly.ValidBespokeWiring`
states this in general, and `Assembly.BespokeShortOfPinsAborts` exhibits a
concrete case.

Validation also lets through a component whose generic symbol the template
lacks, as long as its pad count is 0 (`Catalog.ValidWithoutSymbolEntry`). Its
device-set then gets a gate on a symbol that the written library does not
hold (`Assembly.GeneratedGateWithoutSymbol`). Every package a device names,
by contrast, is kept (`Assembly.GeneratedPackagesKept`).

## Model

| member | source | states |
|---|---|---|
| Text.Trim | src/Component.php:106-110 | the result starts and ends with no character that PHP's `trim` strips |
| Text.TrimIsSlice | src/Component.php:106-110 | the trimmed string is a contiguous slice of the input: leading and trailing strippable characters removed, nothing else changed |
| Text.TrimFixesTrimmed | src/Component.php:106-110 | a string with no strippable character at either end is left unchanged |
| Text.TrimIdempotent | src/Component.php:106-110 | trimming twice is the same as trimming once |
| Text.TrimStart | src/Component.php:106 | the result is no longer than the input and does not start with a strippable character |
| Text.TrimStartSuffix | src/Component.php:106 | the left-trimmed string is a suffix of the input, and every character removed is strippable |
| Text.TrimEnd | src/Component.php:106 | the result is no longer than the input and does not end with a strippable character |
| Text.TrimEndPrefix | src/Component.php:106 | the right-trimmed string is a prefix of the input, and every character removed is strippable |
| Text.UpperChar | src/Component.php:56-60 | ASCII `a`-`z` map to `A`-`Z` (code minus 32); every other character is unchanged |
| Text.ToUpper | src/Component.php:56-60 | upper-casing keeps the length |
| Text.ToUpperMeans | src/Component.php:56-60 | the result has no lower-case ASCII letter, and every character that was not one is unchanged |
| Text.ToUpperAppend | src/Component.php:56-60 | upper-casing distributes over concatenation |
| Text.ToUpperKeepsUpper | src/Component.php:56-60 | a string without lower-case letters is its own upper-case form |
| Text.SpacesToUnderscores | src/Component.php:25 | the replacement keeps the length |
| Text.SpacesToUnderscoresMeans | src/Component.php:25 | no space is left, every space became `_`, and every other character is unchanged |
| Text.Prefix | src/Party.php:84-85 | `substr(s, 0, n)` is a prefix of `s` of length min(\|s\|, n) |
| Text.DigitValue | src/Component.php:111-112 | a digit's value is below 10 |
| Text.DigitsOf | src/Component.php:111-112 | the decimal form of a number is a digit string without a leading zero |
| Text.DigitsRoundTrip | src/Component.php:111-112 | reading the decimal form of n as an integer gives back n |
| Eagle.Named | src/Component.php:74-78 | the entries a by-name query selects are no more than the section holds |
| Eagle.NamedMeans | src/Component.php:74-78 | an entry is selected exactly when it is in the section and carries the name; nothing is selected exactly when no entry has the name |
| Eagle.TerminalsNamed | src/Party.php:128-135 | a query for pins or pads finds some only when an entry with that name exists |
| Eagle.FindDeviceSet | src/Party.php:207-210 | none is found exactly when no device-set has the name; otherwise the first device-set that has it |
| Catalog.FromRow | src/Component.php:104-127 | a parsed component has every string field trimmed |
| Catalog.FromRowMeans | src/Component.php:104-127 | parsing succeeds exactly when the trimmed solder-joint cell is numeric and the trimmed library type is `base` or `expand`; the solder-joint check fails first; the pad count is that number; the part is expanded exactly for `expand`; each of the six string fields is its cell trimmed |
| Catalog.FromRowRoundTrip | src/Component.php:104-127 | a component with trimmed fields, written out as a row with its pad count in decimal and its tier as `base` or `expand`, parses back to the same component |
| Catalog.PickSymbol | src/Component.php:36-52 | a symbol is picked exactly for the five known first categories, and it is then one of the five symbol names |
| Catalog.PickSymbolMeans | src/Component.php:36-52 | the symbol text is empty exactly when no symbol is picked, and it has no lower-case letter |
| Catalog.PickSymbolIgnoresSecondCategory | src/Component.php:36-52 | the second category plays no part in the choice of symbol |
| Catalog.PickPackage | src/Component.php:54-61 | the package identifier has the length of the symbol text, `_` and the package cell, and no lower-case letter |
| Catalog.PickPackageShape | src/Component.php:54-61 | the package identifier is the symbol text, `_`, then the upper-cased package cell, with no lower-case letter left |
| Catalog.PickDeviceName | src/Component.php:21-28 | a device-set name is never empty |
| Catalog.PickDeviceNameShape | src/Component.php:21-28 | the device-set name is the manufacturer part with spaces turned into `_` (other characters kept), `_`, then the LCSC part number |
| Catalog.PickGateName | src/Component.php:30-34 | a gate name has at least two characters |
| Catalog.PickGateNameShape | src/Component.php:30-34 | the gate name is the upper-cased first character of the first category, if there is one, followed by `$1` |
| Catalog.PickGateSymbol | src/Party.php:127 | the bespoke symbol name starts with the generic symbol text and `_`, so it is never the generic symbol's name |
| Catalog.HasBespokePart | src/Party.php:205 | a component has a bespoke part only when the template holds a symbol under its bespoke symbol name |
| Catalog.Check | src/Component.php:63-102 | the reason for rejection is the missing symbol exactly when none is picked; a missing package has no pads; a count mismatch has the pins or the pads differing from the pad count; a pass has both equal to it |
| Catalog.IsValidMeans | src/Component.php:63-102 | a component is valid exactly when a symbol is picked, its package exists in the template, and both the generic symbol's pins and the package's pads number exactly its pad count |
| Catalog.NoSymbolRejectedFirst | src/Component.php:65-73 | without a symbol the component is rejected for that reason, whatever the template holds |
| Catalog.MissingPackageRejected | src/Component.php:74-86 | with a symbol but no package of that name, the missing package is the reason for rejection |
| Catalog.ValidWithoutSymbolEntry | src/Component.php:87-101 | with a pad count of 0, a component whose symbol is absent from the template still passes |
| Catalog.GroupNameInjective | src/Party.php:305 | two components share a group key exactly when they share the first category and the tier |
| Assembly.PinsOf | src/Party.php:126-134 | the wiring has pins exactly when the bespoke symbol has pins or the generic symbol has pins |
| Assembly.PadsOf | src/Party.php:130-135 | the wiring has pads only when the template holds a package under the package identifier |
| Assembly.Wiring | src/Party.php:139-160 | wiring n terminals succeeds exactly when there are at least n pins and n pads, and then connects pin i to pad i on the gate for every i below n; otherwise it fails at the smaller of the two counts, which is below n |
| Assembly.ConnectsOf | src/Party.php:122-163 | a component is wired exactly when it has at least as many pins and pads as its pad count, with one connection per pad |
| Assembly.ConnectsOfMeans | src/Party.php:122-163 | wiring succeeds exactly when there are at least as many pins and pads as the pad count, and then pin i connects to pad i on the gate; otherwise it fails at the first index where a pin or a pad is missing |
| Assembly.ValidGenericWiringSucceeds | src/Party.php:139-160 | without a bespoke symbol, a valid component is always wired, with one connection per pad |
| Assembly.ValidBespokeWiring | src/Party.php:126-135 | with a bespoke symbol, a valid component is wired exactly when the bespoke symbol has at least as many pins as the pad count |
| Assembly.BespokeShortOfPinsAborts | src/Party.php:145-153 | a valid two-pad resistor whose bespoke symbol has one pin stops the run at index 1 |
| Assembly.GateOf | src/Party.php:68-78 | the gate sits at the origin under the gate name, and is on the bespoke symbol exactly when one is in play, otherwise on the generic symbol |
| Assembly.DeviceAttributes | src/Party.php:94-113 | the three attributes give `LCSC_PART` the part number, `JLCPCB_IS_BASIC` "no" exactly for an expanded part and "yes" otherwise, and `VALUE` the picked value, all marked not constant |
| Assembly.DeviceWith | src/Party.php:80-120 | the device name is the prefix of the LCSC part number of length min(its length, 24); the device is on the package identifier, carries the given wiring, and tags the part number and the tier |
| Assembly.DeviceOf | src/Party.php:80-120 | a device is made exactly when the wiring succeeds, on the package identifier with that wiring; otherwise the wiring's failure is the result |
| Assembly.PlacementOf | src/Party.php:205-222 | a component is placed exactly when it can be wired, under its device-set name, with its prefix, the gate on its bespoke symbol exactly when it has one, and its device |
| Assembly.DeviceCountUpdate | src/Party.php:211 | replacing one device-set changes the device total by the difference in its device count |
| Assembly.Merge | src/Party.php:207-222 | filing one device adds exactly one device, keeps device-set names distinct, and adds a set, placed last, exactly when none had the name |
| Assembly.MergeAll | src/Party.php:197-235 | after filing all placements from empty, names are distinct and there is one device per placement |
| Assembly.HeaderOf | src/Party.php:213-220 | a name that no placement uses has no devices |
| Assembly.HeaderOfMeans | src/Party.php:213-220 | a name has a header exactly when some placement uses it; the header is that of the first such placement, and every device under the name comes from such a placement |
| Assembly.PlacementSnoc | src/Party.php:207-222 | one more placement extends the devices under its own name and leaves every other name unchanged |
| Assembly.CoveredExisting | src/Party.php:208-211 | appending to an existing set keeps the set names equal to the names the placements use |
| Assembly.MatchExisting | src/Party.php:208-211 | appending to an existing set keeps each set equal to the one its placements determine |
| Assembly.CoveredNew | src/Party.php:212-221 | creating a new set keeps the set names equal to the names the placements use |
| Assembly.MatchNew | src/Party.php:212-221 | creating a new set keeps each set equal to the one its placements determine |
| Assembly.MergeGroups | src/Party.php:207-222 | one merge step preserves the correspondence between placements and device-sets |
| Assembly.MergeAllGroups | src/Party.php:197-235 | the device-sets built hold, for each name used, exactly the devices filed under it, in order, with the prefix and gate of the first such placement |
| Assembly.Kept | src/Party.php:197-200 | filtering never lengthens the input |
| Assembly.KeptMeans | src/Party.php:197-200 | a component is kept exactly when it is an input that passes the test |
| Assembly.PlacedStep | src/Party.php:197-235 | one loop iteration skips a rejected component, stops on a failed placement, or appends the placement |
| Assembly.PlacedSnoc | src/Party.php:197-235 | the same step for a component added at the end of the input |
| Assembly.PlacedKept | src/Party.php:197-235 | placing succeeds exactly when every kept component places, and then yields their placements in order |
| Assembly.PlacedOnlyKept | src/Party.php:198-200 | the placements depend only on the kept components |
| Assembly.PlacedStopped | src/Party.php:145-153 | once placing has failed on a prefix of the input, it fails on the whole input with the same error |
| Assembly.PlacementsStep | src/Party.php:197-235 | the loop step of `generateLibrary` over the template |
| Assembly.PlacementsOfAccepted | src/Party.php:197-234 | a group is processed exactly when every accepted component can be wired, and then yields one placement per accepted component, in order |
| Assembly.OnlyAcceptedPlaced | src/Party.php:198-200 | components that fail `isValid` contribute nothing |
| Assembly.AcceptedMeans | src/Party.php:198-200 | a component is accepted exactly when it is in the group and passes `isValid` |
| Assembly.PlacementsStopped | src/Party.php:145-153 | a fatal wiring failure on a prefix of the group is the outcome for the whole group |
| Assembly.ReferencedStep | src/Party.php:201-203 | an accepted component appends its package, its symbol and its bespoke symbol name to the referenced lists; a rejected one appends nothing |
| Assembly.ReferencedNames | src/Party.php:201-203 | a package or symbol name is referenced exactly when some accepted component uses it |
| Assembly.ReferencedCounts | src/Party.php:201-203 | one package name and two symbol names are referenced per accepted component |
| Assembly.Prune | src/Party.php:237-272 | pruning never adds entries |
| Assembly.PruneMeans | src/Party.php:237-272 | an entry survives exactly when it was in the template and its name is referenced or falsy to `array_filter` |
| Assembly.Drop | src/Party.php:262-272 | an entry remains exactly when its name is not among those removed |
| Assembly.DropNothing | src/Party.php:262-272 | removing no names leaves the section unchanged |
| Assembly.DropTwice | src/Party.php:262-272 | two removal passes equal one pass over the union of the names |
| Assembly.DropIsPrune | src/Party.php:262-272 | removing exactly the unreferenced, truthy names is pruning |
| Assembly.Unreferenced | src/Party.php:241-249 | the names collected are those of entries that are not referenced |
| Assembly.Truthy | src/Party.php:250 | `array_filter` keeps exactly the names that are neither "" nor "0" |
| Assembly.NameSetSnoc | src/Party.php:262-266 | one more name to remove adds that name to the set of removed names |
| Assembly.DropStep | src/Party.php:262-266 | each pass of the removal loop removes one more name |
| Assembly.RemovalPrunes | src/Party.php:237-272 | removing every collected and filtered name prunes the section |
| Assembly.GeneratedLibraryMeans | src/Party.php:170-297 | a library fails exactly when an accepted component cannot be wired. Otherwise its count is the number of accepted components, it is written exactly when that count is positive, to `lbr/<group>.lbr`. Its device-sets have distinct names and file every placement under its name, and it keeps exactly the referenced or falsy-named packages and symbols |
| Assembly.GenerateLibrarySpec | src/Party.php:170-297 | a generated library counts the accepted components, is written exactly when that count is positive, to `lbr/<group>.lbr`; its device-sets have distinct names and hold one device per accepted component; its sections are no larger than the template's |
| Assembly.SetHeader | src/Party.php:212-221 | a device-set of a grouping has the prefix and gate of the first placement filed under its name |
| Assembly.SetDevices | src/Party.php:207-222 | every device of a device-set of a grouping is the device of a placement filed under its name |
| Assembly.GroupedGate | src/Party.php:68-78 | over placements made from components in order, each set's gate is that of the first component filed under its name: on its bespoke symbol exactly when it has one |
| Assembly.GroupedDevice | src/Party.php:80-120 | over placements made from components in order, each device is that of a component filed under its set's name, on its package, wired as `ConnectsOf` wires it, tagged with its part number and tier |
| Assembly.GeneratedGates | src/Party.php:205-222 | each device-set of a generated library takes its prefix and gate from the first accepted component with its name; the gate is on that component's bespoke symbol exactly when it has one |
| Assembly.GeneratedDevices | src/Party.php:80-120 | each device of a generated library comes from an accepted component filed under its set's name: named by its truncated part number, on its package, wired as `ConnectsOf` wires it, with `LCSC_PART` its part number and `JLCPCB_IS_BASIC` "no" exactly when it is expanded |
| Assembly.GeneratedPackagesKept | src/Party.php:237-266 | every package a device of a generated library names is still among the library's packages after pruning |
| Assembly.GeneratedGateWithoutSymbol | src/Party.php:68-78 | a valid zero-pad resistor against a template without symbols yields a library whose only gate is on `RESISTOR` while the library holds no symbol |
| Grouping.LoadComponents | src/Party.php:52-64 | a failed read is the parse failure of some kept row |
| Grouping.LoadComponentsOk | src/Party.php:52-64 | reading succeeds exactly when every kept row parses |
| Grouping.LoadComponentsKept | src/Party.php:52-64 | a successful read holds exactly one component per row whose "LCSC Part" cell is not empty, in row order, each the parse of its row |
| Grouping.LoadComponentsTrimmed | src/Party.php:57-61 | every component of a successful read is trimmed, and there are no more of them than rows (which components they are is `LoadComponentsKept`) |
| Grouping.LoadStopped | src/Party.php:54-63 | a row that stops reading on a prefix stops it for the whole sheet, with the same error |
| Grouping.FindGroup | src/Party.php:306 | none is found exactly when no group has the key; otherwise a group with the key |
| Grouping.AddToGroup | src/Party.php:305-306 | adding a component keeps keys distinct, keeps existing keys in place, and leaves a group with the component's key |
| Grouping.Groups | src/Party.php:299-310 | group keys are distinct and every component's key has a group |
| Grouping.MembersOf | src/Party.php:303-307 | the members selected under a key are components carrying that key |
| Grouping.MembersOfNone | src/Party.php:303-307 | a key no component carries selects nothing |
| Grouping.MembersOfSnoc | src/Party.php:303-307 | one more component extends only the members of its own key |
| Grouping.MembersOfComplete | src/Party.php:303-307 | every component carrying a key is among its members |
| Grouping.AddToGroupMembers | src/Party.php:305-306 | adding a component keeps each group equal to the components with its key |
| Grouping.GroupsMembers | src/Party.php:299-310 | each group is non-empty and holds exactly the components with its key, in input order |
| Grouping.GroupsPartition | src/Party.php:299-310 | every component is in some group, and every group member is one of the components |
| Grouping.AcceptedOverUpdate | src/Party.php:306 | changing one group changes the accepted total by the difference for that group |
| Grouping.GroupsKeepAccepted | src/Party.php:299-310 | grouping neither loses nor duplicates an accepted component |
| Grouping.GroupCounts | src/Party.php:329-331 | there is one result per group |
| Grouping.GroupCountsAt | src/Party.php:329-331 | the k-th result is the k-th group's count |
| Grouping.LibraryCount | src/Party.php:170-297 | a group's count, when its library is generated, is the number of its members that pass `isValid` |
| Grouping.SumCounts | src/Party.php:328-331 | a failed total is the failure of some group |
| Grouping.SumCountsStep | src/Party.php:329-331 | one more group adds its count or stops with its error |
| Grouping.SumStopped | src/Party.php:329-331 | once a group has stopped the run, the total is that failure |
| Grouping.SumCountsOk | src/Party.php:329-331 | the total succeeds exactly when every group's count does |
| Grouping.LibraryCountOk | src/Party.php:197-234 | one group's library is generated exactly when every accepted member can be wired |
| Grouping.CountsAll | src/Party.php:329-331 | for a count that succeeds exactly when all members are fine, all groups succeed exactly when every member of every group is fine |
| Grouping.GroupCountsAll | src/Party.php:327-331 | the same over `sortComponents`' groups: exactly when every component is fine |
| Grouping.SumCountsAccepted | src/Party.php:328-331 | a successful total is the number of accepted components over all groups |
| Grouping.BuildSpec | src/Party.php:312-334 | the parts count `build` reports is the number of components that pass `isValid`, however they are grouped |
| Grouping.BuildFailsExactly | src/Party.php:312-334 | `build` stops with an error exactly when some component that passes `isValid` cannot be wired |
| Party.LibraryFile.Load | src/Party.php:172-175 | the file holds the template's packages, symbols and device-sets |
| Party.LibraryFile.ClearDeviceSets | src/Party.php:186-189 | all device-sets are removed; packages and symbols are untouched |
| Party.LibraryFile.AppendDevice | src/Party.php:210-211 | the device is appended to that set's devices; nothing else changes |
| Party.LibraryFile.AppendDeviceSet | src/Party.php:213-221 | the new set is appended after the others; nothing else changes |
| Party.LibraryFile.FileDevice | src/Party.php:205-230 | the result is the component's placement; on success the device-sets become the merge of the old ones with it; packages and symbols are untouched |
| Party.LibraryFile.FileComponents | src/Party.php:192-235 | the result is the group's placement outcome. On success the device-sets are the merge of all placements, the count is their number, and the referenced lists are those of the accepted components |
| Party.LibraryFile.PrunePackages | src/Party.php:262-266 | the packages become their pruning against the referenced names; symbols and device-sets are untouched |
| Party.LibraryFile.PruneSymbols | src/Party.php:268-272 | the symbols become their pruning against the referenced names; packages and device-sets are untouched |
| Party.LibraryFile.RemovePackagesNamed | src/Party.php:263-265 | every package with the name is removed, and nothing else |
| Party.LibraryFile.RemoveSymbolsNamed | src/Party.php:269-271 | every symbol with the name is removed, and nothing else |
| Party.DropNamed | src/Party.php:263-265 | the entries kept are exactly those not carrying the name |
| Party.UnreferencedNames | src/Party.php:242-250 | the names to remove are the unreferenced entry names that `array_filter` keeps |
| Party.GenerateDeviceConnects | src/Party.php:122-163 | the wiring is exactly the one `ConnectsOfMeans` characterises |
| Party.Wire | src/Party.php:139-160 | the loop pairs pin i with pad i below the pad count, or fails at the first missing index |
| Party.GenerateDeviceDevice | src/Party.php:80-120 | the device is built from the wiring and fails exactly when the wiring does |
| Party.GenerateLibrary | src/Party.php:170-297 | the outcome is the library `GeneratedLibraryMeans` characterises |
| Party.GenerateCount | src/Party.php:330 | one group's contribution is its library's count, or its failure |
| Party.GenerateGroups | src/Party.php:327-331 | the total is the sum `SumCountsAccepted` and `BuildFailsExactly` characterise |
| Party.SumGroups | src/Party.php:328-331 | the loop adds the groups' counts in order and stops at the first failure |
| Party.Party.constructor | src/Party.php:18 | a new object holds no components |
| Party.Party.ReadSheet | src/Party.php:47-66 | the result is the sheet's reading; on success the components read are appended to the object's list |
| Party.Party.SortComponents | src/Party.php:299-310 | the groups are `Groups` of the components: distinct keys, each holding exactly its components in order |
| Party.Party.Build | src/Party.php:312-334 | a failed read is the result. Otherwise the components are appended, and the result is the sum over their groups, which is the accepted count or the failure of an accepted component's wiring |

## Left out

- Downloading the catalogue (`downloadSheet`, Guzzle, the APCu cache and
  Flysystem in the `Party` constructor): network and cache I/O. The
  constructor's only modelled effect is an empty component list.
- Loading the spreadsheet with PhpSpreadsheet. This covers the worksheet
  iterator, the header row and `array_combine` of each row with it. `ReadSheet`
  takes a single sequence of data rows, already mapped to the eight named
  cells.
- Diagnostics: `debug`, `printf` warnings, `echo`, ANSI colours, `Kint::dump`
  and `validation.log`. They do not affect results.
- XML serialisation. This covers `saveXML`, `file_put_contents`, the inserted
  `description` element, the `technologies`/`technology` wrappers and
  `number_format`. The model keeps the document's structure, the output path
  and whether the file is written, but not the bytes.
- XPath string quoting. A name containing `"` would break the queries; the
  model compares names exactly.
- `pickValue`, `pickPrefix`, `pickGateSymbol` and `hasBespokePart` are called
  but defined nowhere in the program.
  - The first two are parameters (`Externals`).
  - `pickGateSymbol` is taken to be the bespoke symbol name that
    `generateDeviceConnects` queries.
  - `hasBespokePart` is taken to hold when that symbol has pins.
- Catalog.FromRow: accepts as a solder-joint count only a non-empty string of
  ASCII digits (after trimming). It does not model `is_numeric`'s other forms:
  a sign, decimals, exponents, and whitespace inside or trailing. Nor does it
  model what `intval` then makes of them. So a cell such as "2.0" or "+2",
  which PHP accepts, is a fatal error here.
- `array_unique` on the referenced lists is not modelled. The lists keep
  duplicates, which does not change membership, and membership is all the
  pruning uses.
- `in_array`'s loose comparison is modelled as string equality. PHP treats
  distinct numeric strings such as "10" and "1e1" as equal.
- `strtoupper` and `substr` are modelled on characters. Only ASCII letters
  change case, and multibyte characters count as one character rather than
  several bytes.
- The setters of `Component`, `getDebugName` and the unused getters: no
  caller in the modelled code.
- The `die("Device name cannot be empty")` branch is unreachable, since the
  device name always contains `_`. The model proves it cannot be taken.
- PHP converts numeric-string array keys to integers. Group keys always
  contain ".", so `sortComponents` is not affected.
- `exit` and `die` end the PHP process. The model returns an error instead,
  and the partly built library is discarded.
