/** Reading the sheet, sorting components into groups and summing the
    per-group counts (src/Party.php `readSheet`, `sortComponents`, `build`),
    as functions; the class `Party.Party` is proved to compute them. */
module Grouping {

  import opened Wrappers
  import opened Eagle
  import opened Catalog
  import opened Assembly

  // ---------------------------------------------------------------------
  // Reading the sheet

  /** The components of the rows `readSheet` keeps, in row order; the first
      kept row that does not parse stops the run. */
  function LoadComponents(rows: seq<Row>): (r: Result<seq<Component>, Fatal>)
    ensures r.Err? ==> exists i :: 0 <= i < |rows| && KeepRow(rows[i]) && FromRow(rows[i]) == Err(r.error)
    decreases |rows|
  {
    if rows == [] then Ok([])
    else
      var row := rows[|rows| - 1];
      var init := LoadComponents(rows[..|rows| - 1]);
      assert forall i :: 0 <= i < |rows| - 1 ==> rows[..|rows| - 1][i] == rows[i];
      if init.Err? || !KeepRow(row) then init
      else match FromRow(row)
        case Err(e) => Err(e)
        case Ok(c) => Ok(init.value + [c])
  }

  /** Reading succeeds exactly when every kept row parses. */
  lemma {:induction false} LoadComponentsOk(rows: seq<Row>)
    ensures LoadComponents(rows).Ok? <==> forall i :: 0 <= i < |rows| && KeepRow(rows[i]) ==> FromRow(rows[i]).Ok?
    decreases |rows|
  {
    if rows != [] {
      var init := rows[..|rows| - 1];
      LoadComponentsOk(init);
      assert forall i :: 0 <= i < |init| ==> init[i] == rows[i];
    }
  }

  /** A successful read yields at most one component per row, every one
      stored trimmed. */
  lemma {:induction false} LoadComponentsTrimmed(rows: seq<Row>)
    requires LoadComponents(rows).Ok?
    ensures var cs := LoadComponents(rows).value;
      |cs| <= |rows| && forall k :: 0 <= k < |cs| ==> IsTrimmedComponent(cs[k])
    decreases |rows|
  {
    if rows != [] {
      var init := rows[..|rows| - 1];
      var row := rows[|rows| - 1];
      LoadComponentsTrimmed(init);
      var cs0 := LoadComponents(init).value;
      if KeepRow(row) {
        var c := FromRow(row).value;
        assert LoadComponents(rows).value == cs0 + [c];
      }
    }
  }

  /** Once reading has stopped on a prefix of the rows, it has stopped on
      all of them with the same failure. */
  lemma {:induction false} LoadStopped(rows: seq<Row>, j: nat)
    requires j <= |rows| && LoadComponents(rows[..j]).Err?
    ensures LoadComponents(rows) == LoadComponents(rows[..j])
    decreases |rows| - j
  {
    if j < |rows| {
      assert rows[..j + 1][..j] == rows[..j];
      LoadStopped(rows, j + 1);
    } else {
      assert rows[..j] == rows;
    }
  }

  /** The rows `readSheet` keeps, in order. */
  function KeptRows(rows: seq<Row>): seq<Row>
    decreases |rows|
  {
    if rows == [] then []
    else
      var row := rows[|rows| - 1];
      KeptRows(rows[..|rows| - 1]) + (if KeepRow(row) then [row] else [])
  }

  /** A successful read holds one component per kept row, in row order,
      each the parse of its row. */
  lemma {:induction false} LoadComponentsKept(rows: seq<Row>)
    requires LoadComponents(rows).Ok?
    ensures var cs, kept := LoadComponents(rows).value, KeptRows(rows);
      |cs| == |kept| && forall k :: 0 <= k < |kept| ==> FromRow(kept[k]) == Ok(cs[k])
    decreases |rows|
  {
    if rows != [] {
      var init := rows[..|rows| - 1];
      var row := rows[|rows| - 1];
      LoadComponentsKept(init);
      var cs0, kept0 := LoadComponents(init).value, KeptRows(init);
      if KeepRow(row) {
        var c := FromRow(row).value;
        assert LoadComponents(rows).value == cs0 + [c];
        assert KeptRows(rows) == kept0 + [row];
      } else {
        assert LoadComponents(rows).value == cs0;
        assert KeptRows(rows) == kept0 + [];
      }
    }
  }

  // ---------------------------------------------------------------------
  // sortComponents

  /** One entry of the `$groups` array: its key and its components. */
  datatype Group = Group(name: string, members: seq<Component>)

  /** The index of the group under key `n`, if any. */
  function FindGroup(gs: seq<Group>, n: string): (r: Option<nat>)
    ensures r.None? <==> forall k :: 0 <= k < |gs| ==> gs[k].name != n
    ensures r.Some? ==> r.value < |gs| && gs[r.value].name == n
  {
    if gs == [] then None
    else if gs[0].name == n then Some(0)
    else match FindGroup(gs[1..], n)
      case None => None
      case Some(k) => Some(k + 1)
  }

  predicate KeysDistinct(gs: seq<Group>) {
    forall i, j :: 0 <= i < j < |gs| ==> gs[i].name != gs[j].name
  }

  /** `$groups[$groupName][] = $component`: append to the group with the
      component's key, or add a new group at the end. */
  function AddToGroup(gs: seq<Group>, c: Component): (r: seq<Group>)
    requires KeysDistinct(gs)
    ensures KeysDistinct(r)
    ensures |gs| <= |r| && exists k :: 0 <= k < |r| && r[k].name == GroupName(c)
    ensures forall k :: 0 <= k < |r| ==> r[k].name == (if k < |gs| then gs[k].name else GroupName(c))
  {
    match FindGroup(gs, GroupName(c))
    case Some(k) =>
      var r := gs[k := Group(gs[k].name, gs[k].members + [c])];
      assert r[k].name == GroupName(c);
      r
    case None =>
      var r := gs + [Group(GroupName(c), [c])];
      assert r[|gs|].name == GroupName(c);
      r
  }

  /** `sortComponents`: keys are distinct and every component's key names a group. */
  function Groups(comps: seq<Component>): (r: seq<Group>)
    ensures KeysDistinct(r)
    ensures forall c :: c in comps ==> exists k :: 0 <= k < |r| && r[k].name == GroupName(c)
    decreases |comps|
  {
    if comps == [] then []
    else
      var init := comps[..|comps| - 1];
      var gs := Groups(init);
      var r := AddToGroup(gs, comps[|comps| - 1]);
      assert forall c :: c in comps ==> c in init || c == comps[|comps| - 1];
      assert forall c :: c in init ==> exists k :: 0 <= k < |gs| && gs[k].name == GroupName(c) && r[k].name == GroupName(c);
      r
  }

  /** The components with key `n`, in input order. */
  function MembersOf(comps: seq<Component>, n: string): (r: seq<Component>)
    ensures forall c :: c in r ==> c in comps && GroupName(c) == n
    decreases |comps|
  {
    if comps == [] then []
    else
      var c := comps[|comps| - 1];
      var init := MembersOf(comps[..|comps| - 1], n);
      assert forall x :: x in init ==> x in comps;
      init + (if GroupName(c) == n then [c] else [])
  }

  lemma {:induction false} MembersOfNone(comps: seq<Component>, n: string)
    requires forall c :: c in comps ==> GroupName(c) != n
    ensures MembersOf(comps, n) == []
    decreases |comps|
  {
    if comps != [] {
      MembersOfNone(comps[..|comps| - 1], n);
    }
  }

  lemma MembersOfSnoc(init: seq<Component>, c: Component, n: string)
    ensures MembersOf(init + [c], n) == MembersOf(init, n) + (if GroupName(c) == n then [c] else [])
  {
    assert (init + [c])[..|init|] == init;
  }

  /** Every component with key `n` is among the members of `n`. */
  lemma {:induction false} MembersOfComplete(comps: seq<Component>, n: string)
    ensures forall c :: c in comps && GroupName(c) == n ==> c in MembersOf(comps, n)
    decreases |comps|
  {
    if comps != [] {
      var init, c := comps[..|comps| - 1], comps[|comps| - 1];
      assert comps == init + [c];
      MembersOfComplete(init, n);
      MembersOfSnoc(init, c, n);
    }
  }

  /** Adding one component to groups that partition `init` keeps each
      group's members equal to the components with its key. */
  lemma AddToGroupMembers(init: seq<Component>, gs0: seq<Group>, c: Component)
    requires KeysDistinct(gs0)
    requires forall x :: x in init ==> exists k :: 0 <= k < |gs0| && gs0[k].name == GroupName(x)
    requires forall k :: 0 <= k < |gs0| ==> gs0[k].members != [] && gs0[k].members == MembersOf(init, gs0[k].name)
    ensures var gs := AddToGroup(gs0, c);
      forall k :: 0 <= k < |gs| ==> gs[k].members != [] && gs[k].members == MembersOf(init + [c], gs[k].name)
  {
    var gs := AddToGroup(gs0, c);
    match FindGroup(gs0, GroupName(c))
    case Some(k0) =>
      forall k | 0 <= k < |gs|
        ensures gs[k].members != [] && gs[k].members == MembersOf(init + [c], gs[k].name)
      {
        MembersOfSnoc(init, c, gs[k].name);
        if k != k0 {
          assert gs[k] == gs0[k];
        }
      }
    case None =>
      forall x | x in init
        ensures GroupName(x) != GroupName(c)
      {
        var k :| 0 <= k < |gs0| && gs0[k].name == GroupName(x);
      }
      MembersOfNone(init, GroupName(c));
      forall k | 0 <= k < |gs|
        ensures gs[k].members != [] && gs[k].members == MembersOf(init + [c], gs[k].name)
      {
        MembersOfSnoc(init, c, gs[k].name);
        if k < |gs0| {
          assert gs[k] == gs0[k];
        }
      }
  }

  /** Each group holds exactly the components with its key, in input order,
      and none is empty: with the contract of `Groups`, a partition. */
  lemma {:induction false} GroupsMembers(comps: seq<Component>)
    ensures forall k :: 0 <= k < |Groups(comps)| ==>
              Groups(comps)[k].members != [] && Groups(comps)[k].members == MembersOf(comps, Groups(comps)[k].name)
    decreases |comps|
  {
    if comps != [] {
      var init := comps[..|comps| - 1];
      var c := comps[|comps| - 1];
      GroupsMembers(init);
      assert comps == init + [c];
      AddToGroupMembers(init, Groups(init), c);
    }
  }

  // ---------------------------------------------------------------------
  // build

  /** The number of accepted components over a list of groups. */
  function AcceptedOver(t: Template, gs: seq<Group>): nat
    decreases |gs|
  {
    if gs == [] then 0 else AcceptedOver(t, gs[..|gs| - 1]) + |Accepted(t, gs[|gs| - 1].members)|
  }

  lemma {:induction false} AcceptedOverUpdate(t: Template, gs: seq<Group>, k: nat, g: Group)
    requires k < |gs|
    ensures AcceptedOver(t, gs[k := g]) == AcceptedOver(t, gs) - |Accepted(t, gs[k].members)| + |Accepted(t, g.members)|
    decreases |gs|
  {
    var n := |gs| - 1;
    if k < n {
      assert gs[k := g][..n] == gs[..n][k := g];
      AcceptedOverUpdate(t, gs[..n], k, g);
    } else {
      assert gs[k := g][..n] == gs[..n];
    }
  }

  /** Grouping neither loses nor duplicates an accepted component. */
  lemma {:induction false} GroupsKeepAccepted(t: Template, comps: seq<Component>)
    ensures AcceptedOver(t, Groups(comps)) == |Accepted(t, comps)|
    decreases |comps|
  {
    if comps != [] {
      var init := comps[..|comps| - 1];
      var c := comps[|comps| - 1];
      GroupsKeepAccepted(t, init);
      var gs0 := Groups(init);
      var one := if IsValid(t, c) then 1 else 0;
      assert |Accepted(t, comps)| == |Accepted(t, init)| + one;
      match FindGroup(gs0, GroupName(c))
      case Some(k) =>
        var ms := gs0[k].members;
        assert (ms + [c])[..|ms|] == ms;
        assert |Accepted(t, ms + [c])| == |Accepted(t, ms)| + one;
        AcceptedOverUpdate(t, gs0, k, Group(gs0[k].name, ms + [c]));
      case None =>
        var gs := gs0 + [Group(GroupName(c), [c])];
        assert gs[..|gs0|] == gs0;
        assert [c][..0] == [];
        assert |Accepted(t, [c])| == one;
    }
  }

  /** What one group contributes to `build`'s total: the number of its
      components `generateLibrary` places, or the failure that stops the run. */
  function LibraryCount(lbr: Document, g: Group, ext: Externals): (r: Result<nat, Fatal>)
    ensures r.Ok? ==> r.value == |Accepted(TemplateOf(lbr), g.members)|
  {
    PlacementsOfAccepted(TemplateOf(lbr), g.members, ext);
    match PlacementsOf(TemplateOf(lbr), g.members, ext)
    case Err(e) => Err(e)
    case Ok(ps) => Ok(|ps|)
  }

  /** The groups' results, in order. */
  function GroupCounts(gs: seq<Group>, count: Group -> Result<nat, Fatal>): (r: seq<Result<nat, Fatal>>)
    ensures |r| == |gs|
  {
    if gs == [] then [] else GroupCounts(gs[..|gs| - 1], count) + [count(gs[|gs| - 1])]
  }

  lemma {:induction false} GroupCountsAt(gs: seq<Group>, count: Group -> Result<nat, Fatal>, k: nat)
    requires k < |gs|
    ensures GroupCounts(gs, count)[k] == count(gs[k])
    decreases |gs|
  {
    if k < |gs| - 1 {
      GroupCountsAt(gs[..|gs| - 1], count, k);
    }
  }

  /** `LibraryCount` over the template `lbr`, as a function of the group. */
  function Counter(lbr: Document, ext: Externals): Group -> Result<nat, Fatal> {
    g => LibraryCount(lbr, g, ext)
  }

  /** `build`'s loop: the groups' counts summed in order; the first group
      whose generation stops stops the run. */
  function SumCounts(rs: seq<Result<nat, Fatal>>): (r: Result<nat, Fatal>)
    ensures r.Err? ==> exists i :: 0 <= i < |rs| && rs[i] == Err(r.error)
    decreases |rs|
  {
    if rs == [] then Ok(0)
    else
      assert forall i :: 0 <= i < |rs| - 1 ==> rs[..|rs| - 1][i] == rs[i];
      match SumCounts(rs[..|rs| - 1])
      case Err(e) => Err(e)
      case Ok(n) =>
        match rs[|rs| - 1]
        case Err(e) => Err(e)
        case Ok(m) => Ok(n + m)
  }

  lemma SumCountsStep(rs: seq<Result<nat, Fatal>>, k: nat)
    requires k < |rs| && SumCounts(rs[..k]).Ok?
    ensures SumCounts(rs[..k + 1]) ==
              if rs[k].Err? then Err(rs[k].error) else Ok(SumCounts(rs[..k]).value + rs[k].value)
  {
    var s := rs[..k + 1];
    assert s[..|s| - 1] == rs[..k] && s[|s| - 1] == rs[k];
  }

  lemma {:induction false} SumStopped(rs: seq<Result<nat, Fatal>>, j: nat)
    requires j <= |rs| && SumCounts(rs[..j]).Err?
    ensures SumCounts(rs) == SumCounts(rs[..j])
    decreases |rs| - j
  {
    if j < |rs| {
      assert rs[..j + 1][..j] == rs[..j];
      SumStopped(rs, j + 1);
    } else {
      assert rs[..j] == rs;
    }
  }

  /** Every result is a success. */
  ghost predicate AllOk(rs: seq<Result<nat, Fatal>>) {
    forall i :: 0 <= i < |rs| ==> rs[i].Ok?
  }

  /** The sum succeeds exactly when every group's result does. */
  lemma {:induction false} SumCountsOk(rs: seq<Result<nat, Fatal>>)
    ensures SumCounts(rs).Ok? <==> AllOk(rs)
    decreases |rs|
  {
    if rs != [] {
      var init := rs[..|rs| - 1];
      SumCountsOk(init);
      assert forall i :: 0 <= i < |init| ==> init[i] == rs[i];
    }
  }

  /** One group's library is generated exactly when every accepted member can be wired. */
  lemma LibraryCountOk(lbr: Document, g: Group, ext: Externals)
    ensures var t := TemplateOf(lbr);
      LibraryCount(lbr, g, ext).Ok? <==> forall c :: c in Accepted(t, g.members) ==> ConnectsOf(t, c).Ok?
  {
    var t := TemplateOf(lbr);
    var acc := Accepted(t, g.members);
    PlacementsOfAccepted(t, g.members, ext);
    assert (forall c :: c in acc ==> ConnectsOf(t, c).Ok?) <==> forall i :: 0 <= i < |acc| ==> ConnectsOf(t, acc[i]).Ok?;
  }

  lemma {:induction false} SumCountsAccepted(lbr: Document, gs: seq<Group>, ext: Externals)
    requires SumCounts(GroupCounts(gs, Counter(lbr, ext))).Ok?
    ensures SumCounts(GroupCounts(gs, Counter(lbr, ext))).value == AcceptedOver(TemplateOf(lbr), gs)
    decreases |gs|
  {
    if gs != [] {
      var init := gs[..|gs| - 1];
      var g := gs[|gs| - 1];
      var rs := GroupCounts(gs, Counter(lbr, ext));
      assert rs[..|rs| - 1] == GroupCounts(init, Counter(lbr, ext));
      assert rs[|rs| - 1] == LibraryCount(lbr, g, ext);
      SumCountsAccepted(lbr, init, ext);
      PlacementsOfAccepted(TemplateOf(lbr), g.members, ext);
    }
  }

  /** `build` after reading: group, then generate each group's library. The
      parts count it reports is the number of components that pass
      `isValid` against the template, whatever the grouping. */
  function BuildSpec(lbr: Document, comps: seq<Component>, ext: Externals): (r: Result<nat, Fatal>)
    ensures r.Ok? ==> r.value == |Accepted(TemplateOf(lbr), comps)|
  {
    var r := SumCounts(GroupCounts(Groups(comps), Counter(lbr, ext)));
    if r.Ok? then
      SumCountsAccepted(lbr, Groups(comps), ext);
      GroupsKeepAccepted(TemplateOf(lbr), comps);
      r
    else r
  }

  /** Every component is a member of some group. */
  ghost predicate Covers(comps: seq<Component>, gs: seq<Group>) {
    forall c :: c in comps ==> exists k :: 0 <= k < |gs| && c in gs[k].members
  }

  /** Every member of every group is one of the components. */
  ghost predicate Within(comps: seq<Component>, gs: seq<Group>) {
    forall k, c :: 0 <= k < |gs| && c in gs[k].members ==> c in comps
  }

  /** `P` holds of every member of every group. */
  ghost predicate MembersAll(gs: seq<Group>, P: Component -> bool) {
    forall k, c :: 0 <= k < |gs| && c in gs[k].members ==> P(c)
  }

  /** `P` holds of every component. */
  ghost predicate AllOf(comps: seq<Component>, P: Component -> bool) {
    forall c :: c in comps ==> P(c)
  }

  /** The groups partition the components: each component is a member of
      the group with its key, and each member is one of the components. */
  lemma GroupsPartition(comps: seq<Component>)
    ensures Covers(comps, Groups(comps)) && Within(comps, Groups(comps))
  {
    var gs := Groups(comps);
    GroupsMembers(comps);
    assert Covers(comps, gs) by {
      forall c | c in comps
        ensures exists k :: 0 <= k < |gs| && c in gs[k].members
      {
        var k :| 0 <= k < |gs| && gs[k].name == GroupName(c);
        MembersOfComplete(comps, gs[k].name);
        assert c in gs[k].members;
      }
    }
    assert Within(comps, gs) by {
      forall k, c | 0 <= k < |gs| && c in gs[k].members
        ensures c in comps
      {
        assert gs[k].members == MembersOf(comps, gs[k].name);
      }
    }
  }

  /** Over a partition, a property holds of every member of every part
      exactly when it holds of every component. */
  lemma PartitionAll(comps: seq<Component>, gs: seq<Group>, P: Component -> bool)
    requires Covers(comps, gs) && Within(comps, gs)
    ensures MembersAll(gs, P) <==> AllOf(comps, P)
  {
  }

  /** For a per-group count that succeeds exactly when every member is
      fine, all the groups' counts succeed exactly when every member of
      every group is fine. */
  lemma CountsAll(gs: seq<Group>, count: Group -> Result<nat, Fatal>, fine: Component -> bool)
    requires forall g {:trigger count(g)} :: count(g).Ok? <==> forall c :: c in g.members ==> fine(c)
    ensures var rs := GroupCounts(gs, count);
      AllOk(rs) <==> MembersAll(gs, fine)
  {
    var rs := GroupCounts(gs, count);
    forall i | 0 <= i < |gs|
      ensures rs[i] == count(gs[i])
    {
      GroupCountsAt(gs, count, i);
    }
  }

  /** For a per-group count that succeeds exactly when every member is
      fine, the counts of `Groups(comps)` all succeed exactly when every
      component is fine. */
  lemma GroupCountsAll(comps: seq<Component>, count: Group -> Result<nat, Fatal>, fine: Component -> bool)
    requires forall g {:trigger count(g)} :: count(g).Ok? <==> forall c :: c in g.members ==> fine(c)
    ensures var rs := GroupCounts(Groups(comps), count);
      AllOk(rs) <==> AllOf(comps, fine)
  {
    CountsAll(Groups(comps), count, fine);
    GroupsPartition(comps);
    PartitionAll(comps, Groups(comps), fine);
  }

  /** `build` stops with an error exactly when some component that passes
      `isValid`, in whichever group, cannot be wired. */
  lemma BuildFailsExactly(lbr: Document, comps: seq<Component>, ext: Externals)
    ensures var t := TemplateOf(lbr);
      BuildSpec(lbr, comps, ext).Ok? <==> forall c :: c in Accepted(t, comps) ==> ConnectsOf(t, c).Ok?
  {
    var t := TemplateOf(lbr);
    var wired := c => IsValid(t, c) ==> ConnectsOf(t, c).Ok?;
    forall g
      ensures Counter(lbr, ext)(g).Ok? <==> forall c :: c in g.members ==> wired(c)
    {
      LibraryCountOk(lbr, g, ext);
      AcceptedMeans(t, g.members);
    }
    GroupCountsAll(comps, Counter(lbr, ext), wired);
    SumCountsOk(GroupCounts(Groups(comps), Counter(lbr, ext)));
    assert AllOf(comps, wired) <==> forall c :: c in Accepted(t, comps) ==> ConnectsOf(t, c).Ok? by {
      AcceptedMeans(t, comps);
    }
  }
}
