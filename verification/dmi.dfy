/** The classification loop of `main`: the decoded hardware-inventory
    records (`description` + `values` objects, in the tool's order) are
    folded into the report. Four singleton titles overwrite their slot,
    five repeating titles append to their list, and every other record is
    ignored. Titles are compared for exact equality. */
module Dmi {
  import opened Wrappers
  import opened Json
  import opened Report

  const BiosTitle := "BIOS Information"
  const SystemTitle := "System Information"
  const BaseboardTitle := "Base Board Information"
  const ChassisTitle := "Chassis Information"
  const ProcessorTitle := "Processor Information"
  const MemoryTitle := "Memory Device"
  const SlotTitle := "System Slot Information"
  const PowerSupplyTitle := "System Power Supply"
  const OnboardTitle := "Onboard Device"

  /** The nine titles the classifier routes; any other is ignored. */
  const Titles: set<string> := {
    BiosTitle, SystemTitle, BaseboardTitle, ChassisTitle,
    ProcessorTitle, MemoryTitle, SlotTitle, PowerSupplyTitle, OnboardTitle }

  // Field mappings from a record's `values` object into report records.

  function BiosOf(v: Object): BiosInfo {
    BiosInfo(GetStringValue(v, "vendor"), GetStringValue(v, "version"),
             GetStringValue(v, "release_date"))
  }

  function SystemOf(v: Object): SysInfo {
    SysInfo(GetStringValue(v, "manufacturer"), GetStringValue(v, "product_name"),
            GetStringValue(v, "version"), GetStringValue(v, "serial_number"),
            GetStringValue(v, "uuid"), GetStringValue(v, "family"))
  }

  function BaseboardOf(v: Object): BaseboardInfo {
    BaseboardInfo(GetStringValue(v, "manufacturer"), GetStringValue(v, "product_name"),
                  GetStringValue(v, "version"), GetStringValue(v, "serial_number"),
                  GetStringValue(v, "asset_tag"))
  }

  function ChassisOf(v: Object): ChassisInfo {
    ChassisInfo(GetStringValue(v, "manufacturer"), GetStringValue(v, "type"),
                GetStringValue(v, "version"), GetStringValue(v, "serial_number"),
                GetStringValue(v, "asset_tag"))
  }

  function ProcessorOf(v: Object): ProcessorInfo {
    ProcessorInfo(GetStringValue(v, "family"), GetStringValue(v, "manufacturer"),
                  GetStringValue(v, "version"), GetStringValue(v, "current_speed"),
                  GetStringValue(v, "core_count"), GetStringValue(v, "thread_count"))
  }

  function MemoryOf(v: Object): MemoryInfo {
    MemoryInfo(GetStringValue(v, "part_number"), GetStringValue(v, "size"),
               GetStringValue(v, "speed"), GetStringValue(v, "locator"))
  }

  function SlotOf(v: Object): SystemSlotInfo {
    SystemSlotInfo(GetStringValue(v, "type"), GetStringValue(v, "current_usage"),
                   GetStringValue(v, "status"), GetStringValue(v, "bus_address"),
                   GetStringValue(v, "designation"))
  }

  function PowerSupplyOf(v: Object): SystemPowerSupplyInfo {
    SystemPowerSupplyInfo(
      GetStringValue(v, "power_unit_group"), GetStringValue(v, "location"),
      GetStringValue(v, "name"), GetStringValue(v, "manufacturer"),
      GetStringValue(v, "asset_tag"), GetStringValue(v, "model_part_number"),
      GetStringValue(v, "max_power_capacity"), GetStringValue(v, "status"),
      GetStringValue(v, "type"), GetStringValue(v, "plugged"),
      GetStringValue(v, "hot_replaceable"), GetStringValue(v, "cooling_device_handle"))
  }

  function OnboardOf(v: Object): OnboardDeviceInfo {
    OnboardDeviceInfo(GetStringValue(v, "reference_designation"), GetStringValue(v, "type"),
                      GetStringValue(v, "status"), GetStringValue(v, "type_instance"))
  }

  /** The record's title; a missing or non-string `description` reads as `""`. */
  function Title(entry: Object): string {
    GetStringValue(entry, "description")
  }

  /** A record with exactly this title and an object under `values`. */
  predicate IsRecord(entry: Object, title: string) {
    GetMapValue(entry, "values").Some? && Title(entry) == title
  }

  /** A record the classifier acts on. */
  predicate Relevant(entry: Object) {
    GetMapValue(entry, "values").Some? && Title(entry) in Titles
  }

  /** One iteration of the loop. */
  function Classify(rep: FullSystemInfo, entry: Object): (r: FullSystemInfo)
    ensures r.raidCardInfo == rep.raidCardInfo && r.ipmi == rep.ipmi
    ensures !Relevant(entry) ==> r == rep
  {
    var description := Title(entry);
    match GetMapValue(entry, "values")
    case None => rep
    case Some(v) =>
      if description == BiosTitle then rep.(bios := BiosOf(v))
      else if description == SystemTitle then rep.(system := SystemOf(v))
      else if description == BaseboardTitle then rep.(baseboard := BaseboardOf(v))
      else if description == ChassisTitle then rep.(chassis := ChassisOf(v))
      else if description == ProcessorTitle then rep.(processors := rep.processors + [ProcessorOf(v)])
      else if description == MemoryTitle then rep.(memory := rep.memory + [MemoryOf(v)])
      else if description == SlotTitle then rep.(systemSlots := rep.systemSlots + [SlotOf(v)])
      else if description == PowerSupplyTitle then
        rep.(systemPowerSupplies := rep.systemPowerSupplies + [PowerSupplyOf(v)])
      else if description == OnboardTitle then
        rep.(onboardDevices := rep.onboardDevices + [OnboardOf(v)])
      else rep
  }

  /** The whole loop, starting from the report `rep`: the records are
      processed first to last. */
  function ClassifyFrom(rep: FullSystemInfo, entries: seq<Object>): (r: FullSystemInfo)
    ensures r.raidCardInfo == rep.raidCardInfo && r.ipmi == rep.ipmi
    decreases |entries|
  {
    if entries == [] then rep
    else Classify(ClassifyFrom(rep, entries[..|entries| - 1]), entries[|entries| - 1])
  }

  /** The loop as `main` runs it, on a zero-valued report. */
  function ClassifyAll(entries: seq<Object>): (r: FullSystemInfo)
    ensures r.raidCardInfo == EmptyRaid && r.ipmi == EmptyIpmi
  {
    ClassifyFrom(EmptyReport, entries)
  }

  // Reference definitions, stated without the loop.

  /** The `values` objects of the records with exactly this title, in
      input order. */
  function Matches(entries: seq<Object>, title: string): (m: seq<Object>)
    ensures |m| <= |entries|
  {
    if entries == [] then []
    else
      (if IsRecord(entries[0], title) then [GetMapValue(entries[0], "values").value] else [])
      + Matches(entries[1..], title)
  }

  /** The `values` of the last record with this title, if there is one. */
  function LastMatch(entries: seq<Object>, title: string): Option<Object> {
    var m := Matches(entries, title);
    if m == [] then None else Some(m[|m| - 1])
  }

  /** The records the classifier acts on, in input order. */
  function RelevantOnly(entries: seq<Object>): seq<Object> {
    Filter(Relevant, entries)
  }

  lemma {:induction false} MatchesAppend(a: seq<Object>, b: seq<Object>, title: string)
    ensures Matches(a + b, title) == Matches(a, title) + Matches(b, title)
    decreases |a|
  {
    if a == [] {
      assert a + b == b;
    } else {
      var h := if IsRecord(a[0], title) then [GetMapValue(a[0], "values").value] else [];
      assert (a + b)[0] == a[0];
      assert (a + b)[1..] == a[1..] + b;
      assert Matches(a + b, title) == h + Matches(a[1..] + b, title);
      MatchesAppend(a[1..], b, title);
      assert Matches(a, title) == h + Matches(a[1..], title);
      assert h + (Matches(a[1..], title) + Matches(b, title))
          == (h + Matches(a[1..], title)) + Matches(b, title);
    }
  }

  lemma RelevantOnlyAppend(a: seq<Object>, b: seq<Object>)
    ensures RelevantOnly(a + b) == RelevantOnly(a) + RelevantOnly(b)
  {
    FilterAppend(Relevant, a, b);
  }

  /** Processing `a` then `b` is processing `a + b`. */
  lemma {:induction false} ClassifyAppend(rep: FullSystemInfo, a: seq<Object>, b: seq<Object>)
    ensures ClassifyFrom(rep, a + b) == ClassifyFrom(ClassifyFrom(rep, a), b)
    decreases |b|
  {
    if b == [] {
      assert a + b == a;
    } else {
      var b' := b[..|b| - 1];
      assert (a + b)[..|a + b| - 1] == a + b';
      assert (a + b)[|a + b| - 1] == b[|b| - 1];
      ClassifyAppend(rep, a, b');
    }
  }

  /** One record appends to a list exactly when it has that list's title,
      and then appends its own mapping. */
  lemma ClassifyLists(rep: FullSystemInfo, e: Object)
    ensures var r := Classify(rep, e);
      var v := GetMapValue(e, "values");
      && r.processors == rep.processors
                         + (if IsRecord(e, ProcessorTitle) then [ProcessorOf(v.value)] else [])
      && r.memory == rep.memory + (if IsRecord(e, MemoryTitle) then [MemoryOf(v.value)] else [])
      && r.systemSlots == rep.systemSlots + (if IsRecord(e, SlotTitle) then [SlotOf(v.value)] else [])
      && r.systemPowerSupplies == rep.systemPowerSupplies
                                  + (if IsRecord(e, PowerSupplyTitle) then [PowerSupplyOf(v.value)] else [])
      && r.onboardDevices == rep.onboardDevices
                             + (if IsRecord(e, OnboardTitle) then [OnboardOf(v.value)] else [])
  {
    var v := GetMapValue(e, "values");
    if v.Some? && Title(e) == ProcessorTitle {
      assert Classify(rep, e) == rep.(processors := rep.processors + [ProcessorOf(v.value)]);
    } else if v.Some? && Title(e) == MemoryTitle {
      assert Classify(rep, e) == rep.(memory := rep.memory + [MemoryOf(v.value)]);
    } else if v.Some? && Title(e) == SlotTitle {
      assert Classify(rep, e) == rep.(systemSlots := rep.systemSlots + [SlotOf(v.value)]);
    } else if v.Some? && Title(e) == PowerSupplyTitle {
      assert Classify(rep, e)
          == rep.(systemPowerSupplies := rep.systemPowerSupplies + [PowerSupplyOf(v.value)]);
    } else if v.Some? && Title(e) == OnboardTitle {
      assert Classify(rep, e) == rep.(onboardDevices := rep.onboardDevices + [OnboardOf(v.value)]);
    } else {
      ListsKept(rep, e);
    }
  }

  /** A record with none of the five repeating titles leaves every list alone. */
  lemma ListsKept(rep: FullSystemInfo, e: Object)
    requires GetMapValue(e, "values").None?
             || Title(e) !in {ProcessorTitle, MemoryTitle, SlotTitle, PowerSupplyTitle, OnboardTitle}
    ensures var r := Classify(rep, e);
      && r.processors == rep.processors && r.memory == rep.memory
      && r.systemSlots == rep.systemSlots && r.systemPowerSupplies == rep.systemPowerSupplies
      && r.onboardDevices == rep.onboardDevices
  {
  }

  /** A single record matches its own title only. */
  lemma MatchesOne(e: Object, title: string)
    ensures Matches([e], title)
         == if IsRecord(e, title) then [GetMapValue(e, "values").value] else []
  {
    assert [e][1..] == [];
  }

  /** Each repeating title yields one list item per matching record, in
      input order, after whatever the list already held. */
  lemma {:induction false} RepeatingListsFollowMatches(rep: FullSystemInfo, entries: seq<Object>)
    ensures var r := ClassifyFrom(rep, entries);
      && r.processors == rep.processors + Map(ProcessorOf, Matches(entries, ProcessorTitle))
      && r.memory == rep.memory + Map(MemoryOf, Matches(entries, MemoryTitle))
      && r.systemSlots == rep.systemSlots + Map(SlotOf, Matches(entries, SlotTitle))
      && r.systemPowerSupplies == rep.systemPowerSupplies + Map(PowerSupplyOf, Matches(entries, PowerSupplyTitle))
      && r.onboardDevices == rep.onboardDevices + Map(OnboardOf, Matches(entries, OnboardTitle))
    decreases |entries|
  {
    if entries == [] {
      assert rep.processors + [] == rep.processors;
      assert rep.memory + [] == rep.memory;
      assert rep.systemSlots + [] == rep.systemSlots;
      assert rep.systemPowerSupplies + [] == rep.systemPowerSupplies;
      assert rep.onboardDevices + [] == rep.onboardDevices;
    } else {
      var init, e := entries[..|entries| - 1], entries[|entries| - 1];
      assert entries == init + [e];
      RepeatingListsFollowMatches(rep, init);
      var mid := ClassifyFrom(rep, init);
      ClassifyLists(mid, e);
      ListStep(ProcessorOf, rep.processors, init, e, ProcessorTitle);
      ListStep(MemoryOf, rep.memory, init, e, MemoryTitle);
      ListStep(SlotOf, rep.systemSlots, init, e, SlotTitle);
      ListStep(PowerSupplyOf, rep.systemPowerSupplies, init, e, PowerSupplyTitle);
      ListStep(OnboardOf, rep.onboardDevices, init, e, OnboardTitle);
    }
  }

  /** Bookkeeping for one list in the inductive step above. */
  lemma ListStep<T>(f: Object -> T, start: seq<T>, init: seq<Object>, e: Object, title: string)
    ensures start + Map(f, Matches(init, title))
              + (if IsRecord(e, title) then [f(GetMapValue(e, "values").value)] else [])
         == start + Map(f, Matches(init + [e], title))
  {
    MatchesOne(e, title);
    MatchesAppend(init, [e], title);
    MapAppend(f, Matches(init, title), Matches([e], title));
    assert Map(f, Matches([e], title))
        == if IsRecord(e, title) then [f(GetMapValue(e, "values").value)] else [];
  }

  /** The number of items in each list is the number of matching records. */
  lemma CountsMatchRecords(entries: seq<Object>)
    ensures var r := ClassifyAll(entries);
      && |r.processors| == |Matches(entries, ProcessorTitle)|
      && |r.memory| == |Matches(entries, MemoryTitle)|
      && |r.systemSlots| == |Matches(entries, SlotTitle)|
      && |r.systemPowerSupplies| == |Matches(entries, PowerSupplyTitle)|
      && |r.onboardDevices| == |Matches(entries, OnboardTitle)|
  {
    RepeatingListsFollowMatches(EmptyReport, entries);
  }

  /** `rep` with each singleton slot set from the last record of its title,
      and left as it was when no record has that title. */
  function SingletonAfter(rep: FullSystemInfo, entries: seq<Object>): FullSystemInfo {
    rep.(
      bios := match LastMatch(entries, BiosTitle)
        case Some(v) => BiosOf(v) case None => rep.bios,
      system := match LastMatch(entries, SystemTitle)
        case Some(v) => SystemOf(v) case None => rep.system,
      baseboard := match LastMatch(entries, BaseboardTitle)
        case Some(v) => BaseboardOf(v) case None => rep.baseboard,
      chassis := match LastMatch(entries, ChassisTitle)
        case Some(v) => ChassisOf(v) case None => rep.chassis)
  }

  /** Last write wins: each singleton slot holds the mapping of the last
      record with its title, and keeps its old value when there is none. */
  lemma {:induction false} SingletonsLastWins(rep: FullSystemInfo, entries: seq<Object>)
    ensures var r := ClassifyFrom(rep, entries);
      var s := SingletonAfter(rep, entries);
      && r.bios == s.bios && r.system == s.system
      && r.baseboard == s.baseboard && r.chassis == s.chassis
    decreases |entries|
  {
    if entries != [] {
      var init, e := entries[..|entries| - 1], entries[|entries| - 1];
      assert entries == init + [e];
      SingletonsLastWins(rep, init);
      SingletonsStep(rep, init, e);
    }
  }

  /** The inductive step of `SingletonsLastWins`: one more record. */
  lemma SingletonsStep(rep: FullSystemInfo, init: seq<Object>, e: Object)
    requires var r := ClassifyFrom(rep, init);
      var s := SingletonAfter(rep, init);
      && r.bios == s.bios && r.system == s.system
      && r.baseboard == s.baseboard && r.chassis == s.chassis
    ensures var r := ClassifyFrom(rep, init + [e]);
      var s := SingletonAfter(rep, init + [e]);
      && r.bios == s.bios && r.system == s.system
      && r.baseboard == s.baseboard && r.chassis == s.chassis
  {
    assert (init + [e])[..|init|] == init;
    assert ClassifyFrom(rep, init + [e]) == Classify(ClassifyFrom(rep, init), e);
    ClassifySingletons(ClassifyFrom(rep, init), e);
    LastMatchStep(init, e, BiosTitle);
    LastMatchStep(init, e, SystemTitle);
    LastMatchStep(init, e, BaseboardTitle);
    LastMatchStep(init, e, ChassisTitle);
  }

  /** One record sets a singleton slot exactly when it has that slot's
      title, and leaves the other slots alone. */
  lemma ClassifySingletons(rep: FullSystemInfo, e: Object)
    ensures var r := Classify(rep, e);
      && r.bios == (if IsRecord(e, BiosTitle) then BiosOf(GetMapValue(e, "values").value) else rep.bios)
      && r.system == (if IsRecord(e, SystemTitle) then SystemOf(GetMapValue(e, "values").value) else rep.system)
      && r.baseboard == (if IsRecord(e, BaseboardTitle) then BaseboardOf(GetMapValue(e, "values").value) else rep.baseboard)
      && r.chassis == (if IsRecord(e, ChassisTitle) then ChassisOf(GetMapValue(e, "values").value) else rep.chassis)
  {
  }

  /** The last match after one more record: that record if it matches. */
  lemma LastMatchStep(init: seq<Object>, e: Object, title: string)
    ensures LastMatch(init + [e], title)
         == if IsRecord(e, title) then GetMapValue(e, "values") else LastMatch(init, title)
  {
    MatchesAppend(init, [e], title);
    assert [e][1..] == [];
    assert Matches(init, title) + [] == Matches(init, title);
  }

  /** Records the classifier does not act on can be dropped without
      changing the report: a record whose `values` is not an object, or
      whose title is not exactly one of the nine. */
  lemma {:induction false} IgnoredRecordsDropOut(rep: FullSystemInfo, entries: seq<Object>)
    ensures ClassifyFrom(rep, entries) == ClassifyFrom(rep, RelevantOnly(entries))
    decreases |entries|
  {
    if entries != [] {
      var init, e := entries[..|entries| - 1], entries[|entries| - 1];
      assert entries == init + [e];
      IgnoredRecordsDropOut(rep, init);
      RelevantOnlyAppend(init, [e]);
      assert [e][1..] == [];
      ClassifyAppend(rep, RelevantOnly(init), RelevantOnly([e]));
      if Relevant(e) {
        assert RelevantOnly([e]) == [e];
        assert [e][..0] == [];
      } else {
        assert RelevantOnly(init) + RelevantOnly([e]) == RelevantOnly(init);
      }
    }
  }
}
