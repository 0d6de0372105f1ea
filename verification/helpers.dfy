/**
 * The small helpers around the table: grouping the location list by region
 * for the location selector, the status badge classification, the summary
 * and notification icon lookups, and the rule that at most three
 * notifications are shown.
 */
module Helpers {
  import opened Seqs
  import opened Text
  import opened Rows

  // ---------------------------------------------------------------------
  // groupLocationsByRegion

  /** An entry of `getLocationList`; a missing region is the empty string. */
  datatype Location = Location(id: string, code: string, name: string, region: string)

  const OtherRegion: string := "その他"

  /** `location.region || 'その他'`. */
  function RegionOf(l: Location): (r: string)
    ensures r != ""
    ensures l.region != "" ==> r == l.region
    ensures l.region == "" ==> r == OtherRegion
  {
    if l.region != "" then l.region else OtherRegion
  }

  /** The regions of `s`, each once, in the order of their first appearance. */
  function FirstAppearances(s: seq<string>): (r: seq<string>)
  {
    if s == [] then []
    else
      var r0 := FirstAppearances(s[..|s| - 1]);
      if s[|s| - 1] in r0 then r0 else r0 + [s[|s| - 1]]
  }

  function Regions(locations: seq<Location>): (r: seq<string>)
    ensures |r| == |locations| && forall i :: 0 <= i < |r| ==> r[i] == RegionOf(locations[i])
  {
    seq(|locations|, i requires 0 <= i < |locations| => RegionOf(locations[i]))
  }

  /** The locations of one region, in list order. */
  function InRegion(locations: seq<Location>, region: string): seq<Location>
  {
    Filter(locations, (l: Location) => RegionOf(l) == region)
  }

  /** Each region is listed once, and exactly the regions that occur are listed. */
  lemma {:induction false} FirstAppearancesSpec(s: seq<string>)
    ensures forall x :: x in FirstAppearances(s) <==> x in s
    ensures forall i, j :: 0 <= i < j < |FirstAppearances(s)| ==> FirstAppearances(s)[i] != FirstAppearances(s)[j]
  {
    if s != [] {
      FirstAppearancesSpec(s[..|s| - 1]);
      assert s == s[..|s| - 1] + [s[|s| - 1]];
    }
  }

  /** `order` and `grouped` hold the grouping of `prefix`. */
  ghost predicate Grouping(prefix: seq<Location>, order: seq<string>, grouped: map<string, seq<Location>>)
  {
    && order == FirstAppearances(Regions(prefix))
    && (forall r :: r in grouped <==> r in order)
    && (forall r :: r in grouped ==> grouped[r] == InRegion(prefix, r) && grouped[r] != [])
    && (forall r :: r !in grouped ==> InRegion(prefix, r) == [])
  }

  /**
   * `groupLocationsByRegion(locations)`: the groups as a map, with the order
   * in which `Object.entries` lists the regions. Every location lands in the
   * group of its region, in list order, and every region occurring in the
   * list has a group.
   */
  method GroupLocationsByRegion(locations: seq<Location>) returns (order: seq<string>, grouped: map<string, seq<Location>>)
    ensures order == FirstAppearances(Regions(locations))
    ensures forall r :: r in grouped <==> r in order
    ensures forall r :: r in grouped ==> grouped[r] == InRegion(locations, r) && grouped[r] != []
  {
    order := [];
    grouped := map[];
    for i := 0 to |locations|
      invariant Grouping(locations[..i], order, grouped)
    {
      var l := locations[i];
      var region := RegionOf(l);
      ghost var order0, grouped0 := order, grouped;
      if region !in grouped {
        grouped := grouped[region := [l]];
        order := order + [region];
      } else {
        grouped := grouped[region := grouped[region] + [l]];
      }
      GroupStep(locations, i, order0, grouped0, order, grouped);
    }
    GroupingComplete(locations, order, grouped);
  }

  lemma GroupingComplete(locations: seq<Location>, order: seq<string>, grouped: map<string, seq<Location>>)
    requires Grouping(locations[..|locations|], order, grouped)
    ensures order == FirstAppearances(Regions(locations))
    ensures forall r :: r in grouped <==> r in order
    ensures forall r :: r in grouped ==> grouped[r] == InRegion(locations, r) && grouped[r] != []
  {
    assert locations[..|locations|] == locations;
  }

  lemma GroupStep(locations: seq<Location>, i: int, order0: seq<string>, grouped0: map<string, seq<Location>>,
                  order: seq<string>, grouped: map<string, seq<Location>>)
    requires 0 <= i < |locations|
    requires Grouping(locations[..i], order0, grouped0)
    requires RegionOf(locations[i]) !in grouped0 ==>
               order == order0 + [RegionOf(locations[i])] && grouped == grouped0[RegionOf(locations[i]) := [locations[i]]]
    requires RegionOf(locations[i]) in grouped0 ==>
               order == order0 && grouped == grouped0[RegionOf(locations[i]) := grouped0[RegionOf(locations[i])] + [locations[i]]]
    ensures Grouping(locations[..i + 1], order, grouped)
  {
    TakeOneMore(locations, i);
    GroupSnoc(locations[..i], locations[i], order0, grouped0, order, grouped);
  }

  lemma GroupSnoc(prefix: seq<Location>, l: Location, order0: seq<string>, grouped0: map<string, seq<Location>>,
                  order: seq<string>, grouped: map<string, seq<Location>>)
    requires Grouping(prefix, order0, grouped0)
    requires RegionOf(l) !in grouped0 ==> order == order0 + [RegionOf(l)] && grouped == grouped0[RegionOf(l) := [l]]
    requires RegionOf(l) in grouped0 ==> order == order0 && grouped == grouped0[RegionOf(l) := grouped0[RegionOf(l)] + [l]]
    ensures Grouping(prefix + [l], order, grouped)
  {
    var region := RegionOf(l);
    OrderStep(prefix, l, order0);
    assert region in grouped0 <==> region in order0;
    assert forall r :: r in grouped <==> r in order;
    forall r | r in grouped ensures grouped[r] == InRegion(prefix + [l], r) && grouped[r] != [] {
      InRegionSnoc(prefix, l, r);
      if r != region {
        assert grouped[r] == grouped0[r];
      }
    }
    forall r | r !in grouped ensures InRegion(prefix + [l], r) == [] {
      InRegionSnoc(prefix, l, r);
      assert r !in grouped0 && r != region;
      assert InRegion(prefix, r) == [];
    }
  }

  lemma InRegionSnoc(prefix: seq<Location>, l: Location, r: string)
    ensures InRegion(prefix + [l], r) == InRegion(prefix, r) + (if RegionOf(l) == r then [l] else [])
  {
    FilterSnoc(prefix, l, (x: Location) => RegionOf(x) == r);
  }

  lemma OrderStep(prefix: seq<Location>, l: Location, order0: seq<string>)
    requires order0 == FirstAppearances(Regions(prefix))
    ensures FirstAppearances(Regions(prefix + [l])) == if RegionOf(l) in order0 then order0 else order0 + [RegionOf(l)]
  {
    var rs := Regions(prefix + [l]);
    assert rs[..|rs| - 1] == Regions(prefix);
  }

  // ---------------------------------------------------------------------
  // getStatusBadge

  /** The badge `getStatusBadge` draws for a status cell. */
  datatype Badge = NoStatus | Active | Pending | Inactive | Other

  /**
   * The first matching rule wins: "貸出中" (on loan), then "保管中" or
   * "待機中" (stored, waiting), then "故障" or "廃棄" (broken, disposed).
   */
  function StatusBadge(status: string): (b: Badge)
    ensures b == NoStatus <==> status == ""
    ensures b == Active <==> status != "" && Includes(status, "貸出中")
    ensures b == Pending <==> status != "" && !Includes(status, "貸出中") &&
                              (Includes(status, "保管中") || Includes(status, "待機中"))
    ensures b == Inactive <==> status != "" && !Includes(status, "貸出中") &&
                               !Includes(status, "保管中") && !Includes(status, "待機中") &&
                               (Includes(status, "故障") || Includes(status, "廃棄"))
  {
    if status == "" then NoStatus
    else if Includes(status, "貸出中") then Active
    else if Includes(status, "保管中") || Includes(status, "待機中") then Pending
    else if Includes(status, "故障") || Includes(status, "廃棄") then Inactive
    else Other
  }

  /** A row the status dialog may edit (status "1.貸出中") always shows the on-loan badge. */
  lemma EditableRowIsActive(row: Row, statusColumn: int, depositColumn: int)
    requires Editable(row, statusColumn, depositColumn)
    ensures StatusBadge(row[statusColumn]) == Active
  {
    assert OnLoanStatus[2..5] == "貸出中";
    assert OccursAt(OnLoanStatus, "貸出中", 2);
  }

  // ---------------------------------------------------------------------
  // getSummaryIconClass, getSummaryColorClass, getNotificationIcon

  const SummaryIcons: map<string, string> := map[
    "返却可能" := "fas fa-check-circle",
    "商談や金額の問題で返却不可" := "fas fa-exclamation-triangle",
    "お客様による返却拒否" := "fas fa-user-times",
    "HW延長保守中" := "fas fa-shield-alt"
  ]

  const SummaryColors: map<string, string> := map[
    "返却可能" := "success",
    "商談や金額の問題で返却不可" := "warning",
    "お客様による返却拒否" := "danger",
    "HW延長保守中" := "info"
  ]

  /** `iconMap[category] || 'fas fa-folder'`. */
  function SummaryIconClass(category: string): (c: string)
    ensures category in SummaryIcons ==> c == SummaryIcons[category]
    ensures category !in SummaryIcons ==> c == "fas fa-folder"
  {
    if category in SummaryIcons then SummaryIcons[category] else "fas fa-folder"
  }

  /** `colorMap[category] || 'secondary'`. */
  function SummaryColorClass(category: string): (c: string)
    ensures category in SummaryColors ==> c == SummaryColors[category]
    ensures category !in SummaryColors ==> c == "secondary"
  {
    if category in SummaryColors then SummaryColors[category] else "secondary"
  }

  const NotificationIcons: map<string, string> := map[
    "success" := "fas fa-check-circle",
    "danger" := "fas fa-exclamation-circle",
    "warning" := "fas fa-exclamation-triangle",
    "info" := "fas fa-info-circle"
  ]

  /** `icons[type] || icons.info`: an unknown type gets the info icon. */
  function NotificationIcon(kind: string): (icon: string)
    ensures icon in NotificationIcons.Values
    ensures kind in NotificationIcons ==> icon == NotificationIcons[kind]
    ensures kind !in NotificationIcons ==> icon == NotificationIcons["info"]
  {
    if kind in NotificationIcons then NotificationIcons[kind] else NotificationIcons["info"]
  }

  // ---------------------------------------------------------------------
  // showNotification: at most three notifications

  datatype Notice = Notice(message: string, kind: string, icon: string)

  /** The notifications on screen, oldest first. */
  class NotificationArea {
    var shown: seq<Notice>

    ghost predicate Valid()
      reads this
    {
      |shown| <= 3
    }

    constructor ()
      ensures Valid() && shown == []
    {
      shown := [];
    }

    /**
     * `showNotification(message, kind)`: with three on screen the oldest is
     * removed first; the new one is added last.
     */
    method Show(message: string, kind: string)
      requires Valid()
      modifies this
      ensures Valid()
      ensures shown == (if |old(shown)| >= 3 then old(shown)[1..] else old(shown)) + [Notice(message, kind, NotificationIcon(kind))]
      ensures |shown| == if |old(shown)| == 3 then 3 else |old(shown)| + 1
    {
      if |shown| >= 3 {
        shown := shown[1..];
      }
      shown := shown + [Notice(message, kind, NotificationIcon(kind))];
    }

    /** A notification leaves the screen (its timer ran out or it was closed). */
    method Dismiss(k: int)
      requires Valid() && 0 <= k < |shown|
      modifies this
      ensures Valid()
      ensures shown == old(shown)[..k] + old(shown)[k + 1..]
    {
      shown := shown[..k] + shown[k + 1..];
    }
  }
}
