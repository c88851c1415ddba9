// data/DataUnit.cpp: pairing the waiting areas of human light poles by zebra crossing code.
module Merge {
  datatype Device = Device(
    deviceCode: string, deviceLocation: int, waitingAreaLocation: string, zebraCrossingCode: string,
    detectDirection: int, direction: int, humanNum: int, humanFlow: int, humanWaitList: seq<int>,
    waitingTime: int, lightStatus: int, imageData: string)

  type Rule = seq<string>

  datatype Outcome = Sent(deviceList: seq<Device>) | OutOfRange

  const blank := Device("", 0, "", "", 0, 0, 0, 0, [], 0, 0, "")

  /** One of the codes is the first two characters of the device's crossing code, or all of it
      when that is shorter. */
  predicate Names(codes: seq<string>, d: Device) {
    exists k | 0 <= k < |codes| ::
      codes[k] <= d.zebraCrossingCode && (|codes[k]| == 2 || (codes[k] == d.zebraCrossingCode && |codes[k]| < 2))
  }

  // substr(0, 2).
  function Code(d: Device): string {
    if |d.zebraCrossingCode| <= 2 then d.zebraCrossingCode else d.zebraCrossingCode[..2]
  }

  lemma NamesIff(codes: seq<string>, d: Device)
    ensures Names(codes, d) <==> Code(d) in codes
  {
    if Code(d) in codes {
      var k :| 0 <= k < |codes| && codes[k] == Code(d);
      assert codes[k] <= d.zebraCrossingCode;
    }
    if Names(codes, d) {
      var k :| 0 <= k < |codes| && codes[k] <= d.zebraCrossingCode
            && (|codes[k]| == 2 || (codes[k] == d.zebraCrossingCode && |codes[k]| < 2));
      assert codes[k] == Code(d);
    }
  }

  /** The devices of all roads, road after road. */
  function All(roads: seq<seq<Device>>): seq<Device> {
    if roads == [] then [] else All(roads[..|roads| - 1]) + roads[|roads| - 1]
  }

  lemma {:induction false} AllIsConcatenation(a: seq<seq<Device>>, road: seq<Device>, b: seq<seq<Device>>)
    ensures All([]) == [] && All([road]) == road && All(a + b) == All(a) + All(b)
  {
    assert [road][..0] == [];
    if b == [] {
      assert a + b == a;
    } else {
      var n := |b| - 1;
      assert (a + b)[..|a + b| - 1] == a + b[..n];
      AllIsConcatenation(a, road, b[..n]);
      assert All(a) + (All(b[..n]) + b[n]) == All(a) + All(b[..n]) + b[n];
    }
  }

  function Codes(pairs: seq<Rule>): seq<string> {
    if pairs == [] then [] else Codes(pairs[..|pairs| - 1]) + pairs[|pairs| - 1]
  }

  // ---- What the merge is meant to produce ----

  /** The devices whose code is, or is not, among `codes`, in order. */
  function Picked(ds: seq<Device>, codes: seq<string>, inside: bool): seq<Device> {
    if ds == [] then []
    else
      var n := |ds| - 1;
      Picked(ds[..n], codes, inside) + if Names(codes, ds[n]) == inside then [ds[n]] else []
  }

  function HumanTotal(ds: seq<Device>): int {
    if ds == [] then 0 else HumanTotal(ds[..|ds| - 1]) + ds[|ds| - 1].humanNum
  }

  function LongestWait(ds: seq<Device>): int {
    if ds == [] then 0
    else
      var w := LongestWait(ds[..|ds| - 1]);
      if ds[|ds| - 1].waitingTime > w then ds[|ds| - 1].waitingTime else w
  }

  function FirstImage(ds: seq<Device>): string {
    if ds == [] then ""
    else
      var image := FirstImage(ds[..|ds| - 1]);
      if image == "" then ds[|ds| - 1].imageData else image
  }

  function Summary(group: seq<Device>): Device {
    blank.(humanNum := HumanTotal(group), waitingTime := LongestWait(group), imageData := FirstImage(group))
  }

  function Output(ds: seq<Device>, pairs: seq<Rule>): seq<Device>
    requires [] !in pairs
  {
    Picked(ds, Codes(pairs), false) + Groups(ds, pairs)
  }

  function Merged(ds: seq<Device>, pairs: seq<Rule>): Outcome {
    if [] in pairs then OutOfRange
    else Sent(Output(ds, pairs))
  }

  function Groups(ds: seq<Device>, pairs: seq<Rule>): (g: seq<Device>)
    requires [] !in pairs
    ensures |g| == |pairs|
  {
    seq(|pairs|, k requires 0 <= k < |pairs| => Summary(Picked(ds, pairs[k], true)).(zebraCrossingCode := pairs[k][0]))
  }

  // ---- The laws ----

  /** Nothing is sent exactly when some rule is empty. */
  lemma NothingSentIff(ds: seq<Device>, pairs: seq<Rule>)
    ensures Merged(ds, pairs) == OutOfRange <==> [] in pairs
  {
  }

  /** How many rules name a device. */
  function Times(d: Device, pairs: seq<Rule>): nat {
    if pairs == [] then 0
    else Times(d, pairs[..|pairs| - 1]) + if Names(pairs[|pairs| - 1], d) then 1 else 0
  }

  function Share(d: Device, times: nat): int {
    d.humanNum * times
  }

  /** A device counts once if no rule names it, and else once per rule that does. */
  function Weighted(ds: seq<Device>, pairs: seq<Rule>): int {
    if ds == [] then 0
    else
      var n := |ds| - 1;
      var t := Times(ds[n], pairs);
      Weighted(ds[..n], pairs) + Share(ds[n], if t == 0 then 1 else t)
  }

  lemma {:induction false} TotalOfConcat(a: seq<Device>, b: seq<Device>)
    ensures HumanTotal(a + b) == HumanTotal(a) + HumanTotal(b)
  {
    if b == [] {
      assert a + b == a;
    } else {
      assert (a + b)[..|a + b| - 1] == a + b[..|b| - 1];
      TotalOfConcat(a, b[..|b| - 1]);
    }
  }

  lemma {:induction false} CodesOfRules(d: Device, pairs: seq<Rule>)
    ensures Names(Codes(pairs), d) <==> Times(d, pairs) > 0
  {
    if pairs != [] {
      hide Names;
      var n := |pairs| - 1;
      CodesOfRules(d, pairs[..n]);
      NamesIff(Codes(pairs[..n]), d);
      NamesIff(pairs[n], d);
      NamesIff(Codes(pairs), d);
    }
  }

  // One more device adds its people once for each rule that names it.
  lemma {:induction false} GroupsOfOneMore(ds: seq<Device>, d: Device, pairs: seq<Rule>)
    requires [] !in pairs
    ensures HumanTotal(Groups(ds + [d], pairs)) == HumanTotal(Groups(ds, pairs)) + Share(d, Times(d, pairs))
  {
    hide HumanTotal, Groups, Picked, Share, Names;
    if pairs == [] {
      NobodyInGroups(ds);
      NobodyInGroups(ds + [d]);
      ShareOf(d, 0);
    } else {
      var n := |pairs| - 1;
      GroupsPrefix(ds, pairs);
      GroupsPrefix(ds + [d], pairs);
      GroupsOfOneMore(ds, d, pairs[..n]);
      PickedOfOneMore(ds, d, pairs[n], true);
      ShareOf(d, Times(d, pairs[..n]));
    }
  }

  lemma ShareOf(d: Device, t: nat)
    ensures Share(d, 0) == 0 && Share(d, 1) == d.humanNum && Share(d, t + 1) == Share(d, t) + d.humanNum
  {
  }

  lemma NobodyInGroups(ds: seq<Device>)
    ensures HumanTotal(Groups(ds, [])) == 0
  {
  }

  lemma GroupsPrefix(ds: seq<Device>, pairs: seq<Rule>)
    requires [] !in pairs && pairs != []
    ensures [] !in pairs[..|pairs| - 1]
    ensures HumanTotal(Groups(ds, pairs))
         == HumanTotal(Groups(ds, pairs[..|pairs| - 1])) + HumanTotal(Picked(ds, pairs[|pairs| - 1], true))
  {
    var g, n := Groups(ds, pairs), |pairs| - 1;
    assert g[..n] == Groups(ds, pairs[..n]);
  }

  lemma PickedOfOneMore(ds: seq<Device>, d: Device, codes: seq<string>, inside: bool)
    ensures HumanTotal(Picked(ds + [d], codes, inside))
         == HumanTotal(Picked(ds, codes, inside)) + if Names(codes, d) == inside then d.humanNum else 0
  {
    hide Names;
    assert (ds + [d])[..|ds|] == ds;
    var before := Picked(ds, codes, inside);
    assert (before + [d])[..|before|] == before && before + [] == before;
  }

  // One more device adds its people as often as `Weighted` says.
  lemma OutputOfOneMore(ds: seq<Device>, d: Device, pairs: seq<Rule>)
    requires [] !in pairs
    ensures HumanTotal(Output(ds + [d], pairs))
         == HumanTotal(Output(ds, pairs)) + Share(d, if Times(d, pairs) == 0 then 1 else Times(d, pairs))
  {
    hide HumanTotal, Groups, Picked, Share, Names, Codes, Times;
    TotalOfConcat(Picked(ds, Codes(pairs), false), Groups(ds, pairs));
    TotalOfConcat(Picked(ds + [d], Codes(pairs), false), Groups(ds + [d], pairs));
    GroupsOfOneMore(ds, d, pairs);
    PickedOfOneMore(ds, d, Codes(pairs), false);
    CodesOfRules(d, pairs);
    ShareOf(d, 0);
  }

  lemma {:induction false} NobodyAtAll(pairs: seq<Rule>)
    requires [] !in pairs
    ensures HumanTotal(Output([], pairs)) == 0
  {
    hide Summary;
    TotalOfConcat([], Groups([], pairs));
    if pairs == [] {
      NobodyInGroups([]);
    } else {
      hide HumanTotal, Groups;
      GroupsPrefix([], pairs);
      NobodyAtAll(pairs[..|pairs| - 1]);
      TotalOfConcat([], Groups([], pairs[..|pairs| - 1]));
      NobodyIn();
    }
  }

  lemma NobodyIn()
    ensures HumanTotal([]) == 0
  {
  }

  /** Whatever the rules, overlapping or not: how many people the output reports. */
  lemma {:induction false} MergedTotal(ds: seq<Device>, pairs: seq<Rule>)
    requires [] !in pairs
    ensures Merged(ds, pairs).Sent? && HumanTotal(Merged(ds, pairs).deviceList) == Weighted(ds, pairs)
  {
    hide HumanTotal, Names, Times;
    TotalOfOutput(ds, pairs);
  }

  lemma {:induction false} TotalOfOutput(ds: seq<Device>, pairs: seq<Rule>)
    requires [] !in pairs
    ensures HumanTotal(Output(ds, pairs)) == Weighted(ds, pairs)
  {
    hide HumanTotal, Names, Times, Output, Share;
    if ds == [] {
      NobodyAtAll(pairs);
    } else {
      var n := |ds| - 1;
      assert ds == ds[..n] + [ds[n]];
      TotalOfOutput(ds[..n], pairs);
      OutputOfOneMore(ds[..n], ds[n], pairs);
    }
  }

  /** No device can be named by two rules. */
  ghost predicate Disjoint(pairs: seq<Rule>) {
    forall d: Device :: Times(d, pairs) <= 1
  }

  lemma {:induction false} WeightedIsTotal(ds: seq<Device>, pairs: seq<Rule>)
    requires Disjoint(pairs)
    ensures Weighted(ds, pairs) == HumanTotal(ds)
  {
    if ds != [] {
      var n := |ds| - 1;
      WeightedIsTotal(ds[..n], pairs);
      ShareOf(ds[n], 0);
      assert Times(ds[n], pairs) <= 1;
    }
  }

  ghost predicate Conserves(pairs: seq<Rule>) {
    forall ds: seq<Device> ::
      Merged(ds, pairs).Sent? && HumanTotal(Merged(ds, pairs).deviceList) == HumanTotal(ds)
  }

  /** People are neither lost nor counted twice on every input, exactly when no device
      can be named by two rules. */
  lemma Conservation(pairs: seq<Rule>)
    requires [] !in pairs
    ensures Conserves(pairs) <==> Disjoint(pairs)
  {
    if Disjoint(pairs) {
      forall ds: seq<Device>
        ensures Merged(ds, pairs).Sent? && HumanTotal(Merged(ds, pairs).deviceList) == HumanTotal(ds)
      {
        MergedTotal(ds, pairs);
        WeightedIsTotal(ds, pairs);
      }
    }
    if Conserves(pairs) {
      forall d: Device ensures Times(d, pairs) <= 1 {
        var one := d.(humanNum := 1);
        SameCode(d, one, pairs);
        MergedTotal([one], pairs);
        assert Merged([one], pairs).Sent?;
        assert [one][..0] == [];
        assert Weighted([one], pairs) == if Times(one, pairs) == 0 then 1 else Times(one, pairs);
        assert HumanTotal([one]) == 1;
      }
    }
  }

  lemma {:induction false} SameCode(d: Device, e: Device, pairs: seq<Rule>)
    requires d.zebraCrossingCode == e.zebraCrossingCode
    ensures Times(d, pairs) == Times(e, pairs)
  {
    if pairs != [] {
      SameCode(d, e, pairs[..|pairs| - 1]);
    }
  }

  /** The waiting time of a group bounds every one in it and is one of them, or 0. */
  lemma {:induction false} LongestWaitIsMaximum(group: seq<Device>)
    ensures LongestWait(group) >= 0
    ensures forall d | d in group :: d.waitingTime <= LongestWait(group)
    ensures LongestWait(group) == 0 || exists d | d in group :: d.waitingTime == LongestWait(group)
  {
    if group != [] {
      var n := |group| - 1;
      LongestWaitIsMaximum(group[..n]);
      assert group == group[..n] + [group[n]];
    }
  }

  /** The image of a group is the first one there is. */
  lemma {:induction false} FirstImageIsFirst(group: seq<Device>)
    ensures FirstImage(group) == "" <==> forall d | d in group :: d.imageData == ""
    ensures FirstImage(group) != "" ==> exists k | 0 <= k < |group| ::
              group[k].imageData == FirstImage(group) && forall j | 0 <= j < k :: group[j].imageData == ""
  {
    if group != [] {
      var n := |group| - 1;
      FirstImageIsFirst(group[..n]);
      assert group == group[..n] + [group[n]];
      if FirstImage(group[..n]) == "" {
        assert forall j | 0 <= j < n :: group[j] in group[..n];
      } else {
        var k :| 0 <= k < n && group[..n][k].imageData == FirstImage(group[..n])
              && forall j | 0 <= j < k :: group[..n][j].imageData == "";
        assert group[k].imageData == FirstImage(group);
      }
    }
  }

  lemma {:induction false} PickedMembers(ds: seq<Device>, codes: seq<string>, inside: bool)
    ensures forall d :: d in Picked(ds, codes, inside) <==> d in ds && Names(codes, d) == inside
  {
    if ds != [] {
      var n := |ds| - 1;
      PickedMembers(ds[..n], codes, inside);
      assert ds == ds[..n] + [ds[n]];
    }
  }

  /** The entry of the k-th rule: its first code, everyone waiting at one of its codes, and
      the longest of their waits, or 0 if none is positive. */
  lemma MergedEntry(ds: seq<Device>, pairs: seq<Rule>, k: nat)
    requires [] !in pairs && k < |pairs|
    ensures var unpaired := Picked(ds, Codes(pairs), false);
            && |Output(ds, pairs)| == |unpaired| + |pairs|
            && var e := Output(ds, pairs)[|unpaired| + k];
            && e.zebraCrossingCode == pairs[k][0]
            && e.humanNum == HumanTotal(Picked(ds, pairs[k], true))
            && e.imageData == FirstImage(Picked(ds, pairs[k], true))
            && e.deviceCode == e.waitingAreaLocation == "" && e.humanWaitList == []
            && e.deviceLocation == e.detectDirection == e.direction == e.humanFlow == e.lightStatus == 0
            && e.waitingTime >= 0
            && (forall d | d in ds && Names(pairs[k], d) :: d.waitingTime <= e.waitingTime)
            && (e.waitingTime == 0 || exists d | d in ds && Names(pairs[k], d) :: d.waitingTime == e.waitingTime)
  {
    hide Names, Picked, HumanTotal, LongestWait;
    PickedMembers(ds, pairs[k], true);
    LongestWaitIsMaximum(Picked(ds, pairs[k], true));
  }

  /** Exactly the unpaired devices pass through. */
  lemma OnlyUnpairedPass(ds: seq<Device>, pairs: seq<Rule>, d: Device)
    ensures d in Picked(ds, Codes(pairs), false) <==> d in ds && Times(d, pairs) == 0
  {
    PickedMembers(ds, Codes(pairs), false);
    CodesOfRules(d, pairs);
  }

  /** An unpaired device stands in the output unchanged, right behind the unpaired devices
      that came before it. */
  lemma UnpairedPassesThrough(before: seq<Device>, d: Device, behind: seq<Device>, pairs: seq<Rule>)
    requires [] !in pairs && Times(d, pairs) == 0
    ensures Picked(before, Codes(pairs), false) + [d] <= Output(before + [d] + behind, pairs)
  {
    CodesOfRules(d, pairs);
    assert (before + [d])[..|before|] == before;
    PickedGrows(before + [d], behind, Codes(pairs));
  }

  lemma {:induction false} PickedGrows(a: seq<Device>, b: seq<Device>, codes: seq<string>)
    ensures Picked(a, codes, false) <= Picked(a + b, codes, false)
  {
    if b == [] {
      assert a + b == a;
    } else {
      PickedGrows(a, b[..|b| - 1], codes);
      assert (a + b)[..|a + b| - 1] == a + b[..|b| - 1];
    }
  }

  // ---- The loops ----

  method IsExist(code: string, list: seq<string>) returns (isExist: bool)
    ensures isExist <==> code in list
  {
    isExist := false;
    for k := 0 to |list|
      invariant code !in list[..k]
    {
      if code == list[k] {
        return true;
      }
    }
  }

  lemma AllOfOneMore(roads: seq<seq<Device>>, k: nat)
    requires k < |roads|
    ensures All(roads[..k + 1]) == All(roads[..k]) + roads[k]
  {
    assert roads[..k + 1][..k] == roads[..k];
  }

  method PairedCodes(pairs: seq<Rule>) returns (list: seq<string>)
    ensures list == Codes(pairs)
  {
    list := [];
    for k := 0 to |pairs|
      invariant list == Codes(pairs[..k])
    {
      assert pairs[..k + 1][..k] == pairs[..k];
      for j := 0 to |pairs[k]|
        invariant list == Codes(pairs[..k]) + pairs[k][..j]
      {
        list := list + [pairs[k][j]];
      }
      assert pairs[k][..|pairs[k]|] == pairs[k];
    }
    assert pairs[..|pairs|] == pairs;
  }

  lemma PickedNext(before: seq<Device>, road: seq<Device>, j: nat, codes: seq<string>, inside: bool)
    requires j < |road|
    ensures Picked(before + road[..j + 1], codes, inside)
         == Picked(before + road[..j], codes, inside) + if Names(codes, road[j]) == inside then [road[j]] else []
  {
    assert before + road[..j + 1] == before + road[..j] + [road[j]];
    assert (before + road[..j] + [road[j]])[..|before| + j] == before + road[..j];
  }

  method Unpaired(oneFrame: seq<seq<Device>>, list: seq<string>) returns (deviceList: seq<Device>)
    ensures deviceList == Picked(All(oneFrame), list, false)
  {
    hide Picked, Names;
    deviceList := [];
    PickedNone(list, false);
    for k := 0 to |oneFrame|
      invariant deviceList == Picked(All(oneFrame[..k]), list, false)
    {
      var road := oneFrame[k];
      assert All(oneFrame[..k]) + road[..0] == All(oneFrame[..k]);
      for j := 0 to |road|
        invariant deviceList == Picked(All(oneFrame[..k]) + road[..j], list, false)
      {
        PickedNext(All(oneFrame[..k]), road, j, list, false);
        var isExist := IsExist(Code(road[j]), list);
        NamesIff(list, road[j]);
        if !isExist {
          deviceList := deviceList + [road[j]];
        }
      }
      AllOfOneMore(oneFrame, k);
      assert road[..|road|] == road;
    }
    assert oneFrame[..|oneFrame|] == oneFrame;
  }

  lemma PickedNone(codes: seq<string>, inside: bool)
    ensures Picked([], codes, inside) == [] && Summary([]) == blank
  {
  }

  lemma SummaryOfOneMore(group: seq<Device>, d: Device)
    ensures var s := Summary(group);
            Summary(group + [d]) == s.(
              humanNum := s.humanNum + d.humanNum,
              waitingTime := if d.waitingTime > s.waitingTime then d.waitingTime else s.waitingTime,
              imageData := if s.imageData == "" then d.imageData else s.imageData)
  {
    assert (group + [d])[..|group|] == group;
  }

  method MergeRule(oneFrame: seq<seq<Device>>, iter: Rule) returns (item1: Device)
    ensures item1 == Summary(Picked(All(oneFrame), iter, true))
  {
    hide Picked, Names, Summary;
    item1 := blank;
    PickedNone(iter, true);
    for k := 0 to |oneFrame|
      invariant item1 == Summary(Picked(All(oneFrame[..k]), iter, true))
    {
      var road := oneFrame[k];
      ghost var before := All(oneFrame[..k]);
      assert before + road[..0] == before;
      for j := 0 to |road|
        invariant item1 == Summary(Picked(before + road[..j], iter, true))
      {
        PickedNext(before, road, j, iter, true);
        var isExist := IsExist(Code(road[j]), iter);
        NamesIff(iter, road[j]);
        if isExist {
          SummaryOfOneMore(Picked(before + road[..j], iter, true), road[j]);
          item1 := item1.(humanNum := item1.humanNum + road[j].humanNum);
          var longer := road[j].waitingTime > item1.waitingTime;
          item1 := item1.(waitingTime := if longer then road[j].waitingTime else item1.waitingTime);
          if item1.imageData == "" {
            item1 := item1.(imageData := road[j].imageData);
          }
        } else {
          assert Picked(before + road[..j + 1], iter, true) == Picked(before + road[..j], iter, true);
        }
      }
      AllOfOneMore(oneFrame, k);
      assert road[..|road|] == road;
    }
    assert oneFrame[..|oneFrame|] == oneFrame;
  }

  /** The first code of an empty rule is out of range, and then nothing is sent. */
  method TaskProcessOneFrame(oneFrame: seq<seq<Device>>, pairs: seq<Rule>) returns (item: Outcome)
    ensures item == Merged(All(oneFrame), pairs)
  {
    hide Picked, Summary;
    ghost var ds := All(oneFrame);
    var list := PairedCodes(pairs);
    var deviceList := Unpaired(oneFrame, list);
    ghost var unpaired := deviceList;
    for k := 0 to |pairs|
      invariant [] !in pairs[..k]
      invariant deviceList == unpaired + Groups(ds, pairs[..k])
    {
      var item1 := MergeRule(oneFrame, pairs[k]);
      if pairs[k] == [] {
        return OutOfRange;
      }
      item1 := item1.(zebraCrossingCode := pairs[k][0]);
      assert pairs[..k + 1] == pairs[..k] + [pairs[k]];
      assert Groups(ds, pairs[..k + 1]) == Groups(ds, pairs[..k]) + [item1];
      deviceList := deviceList + [item1];
    }
    assert pairs[..|pairs|] == pairs;
    item := Sent(deviceList);
  }
}
