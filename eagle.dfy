/** The EAGLE library document, abstracted from its XML: the template's
    `packages` and `symbols` sections, and the `devicesets` the assembler
    writes. An XPath query `//packages/package[@name="N"]` becomes a filter
    by exact name, and `…/smd` or `…/pin` under it becomes the concatenation,
    in document order, of the terminals of every entry with that name. */
module Eagle {

  import opened Wrappers

  /** A `package` (its terminals are its `smd` pads) or a `symbol` (its
      terminals are its `pin`s), each terminal given by its `name`. */
  datatype Entry = Entry(name: string, terminals: seq<string>)

  /** The reference sections of a library: what validation and wiring query. */
  datatype Template = Template(packages: seq<Entry>, symbols: seq<Entry>)

  datatype Connect = Connect(gate: string, pin: string, pad: string)

  datatype Attribute = Attribute(name: string, value: string, constant: string)

  /** The value of the first attribute called `name`, as a lookup reads it. */
  function AttributeValue(attrs: seq<Attribute>, name: string): Option<string> {
    if attrs == [] then None
    else if attrs[0].name == name then Some(attrs[0].value)
    else AttributeValue(attrs[1..], name)
  }

  datatype Gate = Gate(name: string, x: string, y: string, symbol: string)

  /** A `device` with its one `technology` of attributes. */
  datatype Device = Device(name: string, package: string, connects: seq<Connect>, attributes: seq<Attribute>)

  /** A `deviceset` with its one `gate` and its `devices`. */
  datatype DeviceSet = DeviceSet(name: string, prefix: string, gate: Gate, devices: seq<Device>)

  /** A whole library file. */
  datatype Document = Document(packages: seq<Entry>, symbols: seq<Entry>, deviceSets: seq<DeviceSet>)

  function TemplateOf(d: Document): Template {
    Template(d.packages, d.symbols)
  }

  /** The entries an XPath name query matches, in document order. */
  function Named(es: seq<Entry>, n: string): (r: seq<Entry>)
    ensures |r| <= |es|
  {
    if es == [] then []
    else Named(es[..|es| - 1], n) + (if es[|es| - 1].name == n then [es[|es| - 1]] else [])
  }

  /** The query finds exactly the entries of that name, and finds nothing
      exactly when no entry has it. */
  lemma {:induction false} NamedMeans(es: seq<Entry>, n: string)
    ensures forall e :: e in Named(es, n) <==> e in es && e.name == n
    ensures Named(es, n) == [] <==> forall k :: 0 <= k < |es| ==> es[k].name != n
  {
    if es != [] {
      var init := es[..|es| - 1];
      NamedMeans(init, n);
      assert forall e :: e in es <==> e in init || e == es[|es| - 1];
      if Named(es, n) == [] {
        forall k | 0 <= k < |es|
          ensures es[k].name != n
        {
          if k < |init| {
            assert es[k] == init[k];
          }
        }
      }
    }
  }

  /** The terminal nodes under every entry named `n`, in document order; its
      length is what XPath's `count()` returns. */
  function TerminalsNamed(es: seq<Entry>, n: string): (r: seq<string>)
    ensures r != [] ==> Named(es, n) != []
  {
    if es == [] then []
    else TerminalsNamed(es[..|es| - 1], n) + (if es[|es| - 1].name == n then es[|es| - 1].terminals else [])
  }

  /** Total number of devices over all device-sets. */
  function DeviceCount(sets: seq<DeviceSet>): nat {
    if sets == [] then 0 else DeviceCount(sets[..|sets| - 1]) + |sets[|sets| - 1].devices|
  }

  predicate NamesDistinct(sets: seq<DeviceSet>) {
    forall i, j :: 0 <= i < j < |sets| ==> sets[i].name != sets[j].name
  }

  /** The device-set named `n`, found the way `//devicesets/deviceset[@name="n"]`
      and `item(0)` find it: the first one with that name. */
  function FindDeviceSet(sets: seq<DeviceSet>, n: string): (r: Option<nat>)
    ensures r.None? <==> forall k :: 0 <= k < |sets| ==> sets[k].name != n
    ensures r.Some? ==> r.value < |sets| && sets[r.value].name == n
    ensures r.Some? ==> forall k :: 0 <= k < r.value ==> sets[k].name != n
  {
    if sets == [] then None
    else if sets[0].name == n then Some(0)
    else match FindDeviceSet(sets[1..], n)
      case None => None
      case Some(k) => Some(k + 1)
  }
}
