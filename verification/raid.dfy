/** `getRaidInfo`: the walk over the RAID tool's JSON. The overview output
    (`show all J`) lists the controllers; for each one that has a
    `System Overview`, the detail output for that controller id supplies
    the `VD LIST` and `PD LIST` arrays. Only the record of the last
    controller that is processed to the end survives.

    The tool runs are inputs here: `top` is the decoded overview output
    (`None` when the command failed or its output did not decode), and
    `detail(id)` the decoded `/c<id> show all J` output (`None` when that
    command failed or did not decode). `show` stands for Go's `%v`
    rendering of numbers, arrays and maps. */
module Raid {
  import opened Wrappers
  import opened Json
  import opened Report

  datatype RaidError =
    | QueryFailed          // the overview command failed or its output did not decode
    | NoControllersFound   // no non-empty `Controllers` array in the overview

  /** Controller summary fields from a `System Overview` entry. */
  function SummaryOf(o: Object, show: JsonValue -> string): RaidCardInfo {
    RaidCardInfo(
      Sprint(o, "Ctl", show), Sprint(o, "Model", show), Sprint(o, "Ports", show),
      Sprint(o, "PDs", show), Sprint(o, "DGs", show), Sprint(o, "DNOpt", show),
      Sprint(o, "VDs", show), Sprint(o, "VNOpt", show), Sprint(o, "BBU", show),
      Sprint(o, "sPR", show), Sprint(o, "DS", show), Sprint(o, "EHS", show),
      Sprint(o, "ASOs", show), Sprint(o, "Hlth", show), [], [])
  }

  function VirtualDriveOf(vd: Object, show: JsonValue -> string): VirtualDriveInfo {
    VirtualDriveInfo(
      Sprint(vd, "DG/VD", show), Sprint(vd, "TYPE", show), Sprint(vd, "State", show),
      Sprint(vd, "Access", show), Sprint(vd, "Consist", show), Sprint(vd, "Cache", show),
      Sprint(vd, "Cac", show), Sprint(vd, "sCC", show), Sprint(vd, "Size", show),
      Sprint(vd, "Name", show))
  }

  function PhysicalDriveOf(pd: Object, show: JsonValue -> string): PhysicalDriveInfo {
    PhysicalDriveInfo(
      Sprint(pd, "EID:Slt", show), Sprint(pd, "DID", show), Sprint(pd, "State", show),
      Sprint(pd, "DG", show), Sprint(pd, "Size", show), Sprint(pd, "Intf", show),
      Sprint(pd, "Med", show), Sprint(pd, "SED", show), Sprint(pd, "PI", show),
      Sprint(pd, "SeSz", show), Sprint(pd, "Model", show), Sprint(pd, "Sp", show),
      Sprint(pd, "Type", show))
  }

  /** The `Controllers` array of the overview; `[]` when it is missing or
      is not an array. */
  function Controllers(top: Object): (r: seq<JsonValue>)
    ensures "Controllers" in top && top["Controllers"].JArray? ==> r == top["Controllers"].items
    ensures !("Controllers" in top && top["Controllers"].JArray?) ==> r == []
  {
    GetArray(top, "Controllers").GetOr([])
  }

  /** The first `System Overview` entry of a controller, when the loop
      does not skip the controller before reaching it: the controller is
      an object, its `Response Data` is an object, and its
      `System Overview` is a non-empty array. */
  function OverviewOf(ctrl: JsonValue): (r: Option<JsonValue>)
    ensures r.Some? <==>
      && ctrl.JObject?
      && GetMapValue(ctrl.fields, "Response Data").Some?
      && GetArray(GetMapValue(ctrl.fields, "Response Data").value, "System Overview").Some?
      && GetArray(GetMapValue(ctrl.fields, "Response Data").value, "System Overview").value != []
    ensures r.Some? ==>
      r.value == GetArray(GetMapValue(ctrl.fields, "Response Data").value, "System Overview").value[0]
  {
    match ctrl
    case JObject(c) =>
      (match GetMapValue(c, "Response Data")
       case None => None
       case Some(rd) =>
         match GetArray(rd, "System Overview")
         case None => None
         case Some(so) => if |so| == 0 then None else Some(so[0]))
    case _ => None
  }

  /** A drive list of a detail response; `[]` when absent or not an array. */
  function DriveList(rd: Object, key: string): seq<JsonValue> {
    GetArray(rd, key).GetOr([])
  }

  predicate AllObjects(items: seq<JsonValue>) {
    forall i :: 0 <= i < |items| ==> items[i].JObject?
  }

  /** The detail output has the shape the unchecked type assertions on it
      demand: `Controllers` is a non-empty array whose first element is an
      object and, when that element has an object `Response Data`, every
      element of its `VD LIST` and `PD LIST` is an object. */
  predicate DetailShapeOk(d: Object) {
    var cs := GetArray(d, "Controllers").GetOr([]);
    && |cs| > 0 && cs[0].JObject?
    && match GetMapValue(cs[0].fields, "Response Data")
       case None => true
       case Some(rd) => AllObjects(DriveList(rd, "VD LIST")) && AllObjects(DriveList(rd, "PD LIST"))
  }

  /** `Controllers[0]["Response Data"]` of a detail output, if an object. */
  function DetailResponse(d: Object): Option<Object>
    requires DetailShapeOk(d)
  {
    GetMapValue(d["Controllers"].items[0].fields, "Response Data")
  }

  /** The id a controller is queried under: its overview's `Ctl`, as `%v`
      prints it. */
  function ControllerId(o: Object, show: JsonValue -> string): string {
    Sprint(o, "Ctl", show)
  }

  /** Every unchecked type assertion the loop performs on this controller
      succeeds. */
  predicate ControllerShapeOk(ctrl: JsonValue, detail: string -> Option<Object>, show: JsonValue -> string) {
    match OverviewOf(ctrl)
    case None => true
    case Some(o) =>
      && o.JObject?
      && match detail(ControllerId(o.fields, show))
         case None => true
         case Some(d) => DetailShapeOk(d)
  }

  /** The whole walk runs without a failed type assertion. */
  predicate NoPanic(top: Option<Object>, detail: string -> Option<Object>, show: JsonValue -> string) {
    top.Some? ==>
      var cs := Controllers(top.value);
      forall i :: 0 <= i < |cs| ==> ControllerShapeOk(cs[i], detail, show)
  }

  /** The `VD LIST` loop. */
  function VirtualDrivesOf(rd: Object, show: JsonValue -> string): (r: seq<VirtualDriveInfo>)
    requires AllObjects(DriveList(rd, "VD LIST"))
    ensures |r| == |DriveList(rd, "VD LIST")|
    ensures forall i :: 0 <= i < |r| ==> r[i] == VirtualDriveOf(DriveList(rd, "VD LIST")[i].fields, show)
  {
    var vds := DriveList(rd, "VD LIST");
    seq(|vds|, i requires 0 <= i < |vds| => VirtualDriveOf(vds[i].fields, show))
  }

  /** The `PD LIST` loop. */
  function PhysicalDrivesOf(rd: Object, show: JsonValue -> string): (r: seq<PhysicalDriveInfo>)
    requires AllObjects(DriveList(rd, "PD LIST"))
    ensures |r| == |DriveList(rd, "PD LIST")|
    ensures forall i :: 0 <= i < |r| ==> r[i] == PhysicalDriveOf(DriveList(rd, "PD LIST")[i].fields, show)
  {
    var pds := DriveList(rd, "PD LIST");
    seq(|pds|, i requires 0 <= i < |pds| => PhysicalDriveOf(pds[i].fields, show))
  }

  /** One iteration of the controller loop: the record it builds, or
      `None` when one of its `continue`s skips the controller. */
  function BuildController(ctrl: JsonValue, detail: string -> Option<Object>, show: JsonValue -> string)
    : (r: Option<RaidCardInfo>)
    requires ControllerShapeOk(ctrl, detail, show)
    ensures r.Some? <==>
      && OverviewOf(ctrl).Some?
      && var d := detail(ControllerId(OverviewOf(ctrl).value.fields, show));
         d.Some? && DetailResponse(d.value).Some?
    ensures r.Some? ==>
      var o := OverviewOf(ctrl).value.fields;
      var rd := DetailResponse(detail(ControllerId(o, show)).value).value;
      var vds, pds := r.value.virtualDrives, r.value.physicalDrives;
      && r.value.(virtualDrives := [], physicalDrives := []) == SummaryOf(o, show)
      && |vds| == |DriveList(rd, "VD LIST")|
      && |pds| == |DriveList(rd, "PD LIST")|
      && (forall i :: 0 <= i < |vds| ==> vds[i] == VirtualDriveOf(DriveList(rd, "VD LIST")[i].fields, show))
      && (forall i :: 0 <= i < |pds| ==> pds[i] == PhysicalDriveOf(DriveList(rd, "PD LIST")[i].fields, show))
      && ("VD LIST" !in rd ==> vds == [])
      && ("PD LIST" !in rd ==> pds == [])
  {
    match OverviewOf(ctrl)
    case None => None
    case Some(ov) =>
      var o := ov.fields;
      var info := SummaryOf(o, show);
      match detail(ControllerId(o, show))
      case None => None
      case Some(d) =>
        match DetailResponse(d)
        case None => None
        case Some(rd) =>
          Some(info.(virtualDrives := VirtualDrivesOf(rd, show),
                     physicalDrives := PhysicalDrivesOf(rd, show)))
  }

  predicate AllShapesOk(ctrls: seq<JsonValue>, detail: string -> Option<Object>, show: JsonValue -> string) {
    forall i :: 0 <= i < |ctrls| ==> ControllerShapeOk(ctrls[i], detail, show)
  }

  /** What each controller yields, in order: its record when it is
      processed to the end, `None` when the loop moves on early. */
  function Outcomes(ctrls: seq<JsonValue>, detail: string -> Option<Object>,
                    show: JsonValue -> string): (r: seq<Option<RaidCardInfo>>)
    requires AllShapesOk(ctrls, detail, show)
    ensures |r| == |ctrls|
    ensures forall i :: 0 <= i < |ctrls| ==> r[i] == BuildController(ctrls[i], detail, show)
  {
    seq(|ctrls|, i requires 0 <= i < |ctrls| => BuildController(ctrls[i], detail, show))
  }

  /** The controller loop: `current` is the report's RAID record so far,
      overwritten by each controller processed to the end. */
  function ScanControllers(ctrls: seq<JsonValue>, detail: string -> Option<Object>,
                           show: JsonValue -> string, current: RaidCardInfo): (r: RaidCardInfo)
    requires AllShapesOk(ctrls, detail, show)
    ensures r == current
            || exists i :: 0 <= i < |ctrls| && BuildController(ctrls[i], detail, show) == Some(r)
  {
    var o := Outcomes(ctrls, detail, show);
    LastSomeFrom(o, current);
    LastSome(o, current)
  }

  /** Controller `i` is processed to the end. */
  predicate Built(ctrls: seq<JsonValue>, i: int, detail: string -> Option<Object>, show: JsonValue -> string)
    requires AllShapesOk(ctrls, detail, show)
  {
    0 <= i < |ctrls| && Outcomes(ctrls, detail, show)[i].Some?
  }

  /** Last controller wins: the loop leaves the record of the last
      controller processed to the end, or `current` when none is. */
  lemma ScanLastBuilt(ctrls: seq<JsonValue>, detail: string -> Option<Object>,
                      show: JsonValue -> string, current: RaidCardInfo)
    requires AllShapesOk(ctrls, detail, show)
    ensures (forall i :: 0 <= i < |ctrls| ==> !Built(ctrls, i, detail, show))
            ==> ScanControllers(ctrls, detail, show, current) == current
    ensures forall i ::
              (Built(ctrls, i, detail, show)
               && (forall j :: i < j < |ctrls| ==> !Built(ctrls, j, detail, show)))
              ==> ScanControllers(ctrls, detail, show, current)
                  == BuildController(ctrls[i], detail, show).value
  {
    var o := Outcomes(ctrls, detail, show);
    if forall i :: 0 <= i < |ctrls| ==> !Built(ctrls, i, detail, show) {
      forall k | 0 <= k < |o| ensures o[k].None? {
        assert !Built(ctrls, k, detail, show);
      }
      LastSomeNone(o, current);
    }
    forall i | Built(ctrls, i, detail, show)
               && (forall j :: i < j < |ctrls| ==> !Built(ctrls, j, detail, show))
      ensures ScanControllers(ctrls, detail, show, current)
              == BuildController(ctrls[i], detail, show).value
    {
      forall j | i < j < |o| ensures o[j].None? {
        assert !Built(ctrls, j, detail, show);
      }
      LastSomeAt(o, current, i);
      assert o[i] == BuildController(ctrls[i], detail, show);
    }
  }

  /** `getRaidInfo` on the report `rep`. On failure the caller keeps `rep`
      as it was; on success only the RAID record may differ. */
  function GetRaidInfo(rep: FullSystemInfo, top: Option<Object>,
                       detail: string -> Option<Object>, show: JsonValue -> string)
    : (r: Result<FullSystemInfo, RaidError>)
    requires NoPanic(top, detail, show)
    ensures top.None? <==> r == Failure(QueryFailed)
    ensures r == Failure(NoControllersFound) <==> top.Some? && Controllers(top.value) == []
    ensures r.Success? ==> r.value == rep.(raidCardInfo := r.value.raidCardInfo)
  {
    match top
    case None => Failure(QueryFailed)
    case Some(t) =>
      var cs := Controllers(t);
      if |cs| == 0 then Failure(NoControllersFound)
      else Success(rep.(raidCardInfo := ScanControllers(cs, detail, show, rep.raidCardInfo)))
  }

  /** What `main` keeps: the report with the RAID record filled in, or
      unchanged when `getRaidInfo` returned an error. */
  function ApplyRaid(rep: FullSystemInfo, top: Option<Object>,
                     detail: string -> Option<Object>, show: JsonValue -> string): (r: FullSystemInfo)
    requires NoPanic(top, detail, show)
    ensures r == rep.(raidCardInfo := r.raidCardInfo)
    ensures top.None? || Controllers(top.value) == [] ==> r == rep
  {
    GetRaidInfo(rep, top, detail, show).GetOr(rep)
  }

  /** The RAID record after `getRaidInfo` succeeds is that of the last
      controller processed to the end, and the old one when no controller
      is; a missing or empty `Controllers` array is an error that leaves
      the report untouched. */
  lemma RaidLastControllerWins(rep: FullSystemInfo, top: Object,
                               detail: string -> Option<Object>, show: JsonValue -> string)
    requires NoPanic(Some(top), detail, show)
    ensures var cs := Controllers(top);
      var r := ApplyRaid(rep, Some(top), detail, show);
      && (cs == [] ==> r == rep)
      && ((forall i :: 0 <= i < |cs| ==> !Built(cs, i, detail, show)) ==> r == rep)
      && (forall i ::
            (Built(cs, i, detail, show)
             && (forall j :: i < j < |cs| ==> !Built(cs, j, detail, show)))
            ==> r == rep.(raidCardInfo := BuildController(cs[i], detail, show).value))
  {
    var cs := Controllers(top);
    ScanLastBuilt(cs, detail, show, rep.raidCardInfo);
  }
}
