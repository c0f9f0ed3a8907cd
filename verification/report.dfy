/** The inventory report and its records. Every leaf is a display string
    copied from a tool's output; an empty string is Go's zero value. */
module Report {

  datatype BiosInfo = BiosInfo(vendor: string, version: string, releaseDate: string)

  datatype SysInfo = SysInfo(
    manufacturer: string, productName: string, version: string,
    serialNumber: string, uuid: string, family: string)

  datatype BaseboardInfo = BaseboardInfo(
    manufacturer: string, productName: string, version: string,
    serialNumber: string, assetTag: string)

  datatype ChassisInfo = ChassisInfo(
    manufacturer: string, chassisType: string, version: string,
    serialNumber: string, assetTag: string)

  datatype ProcessorInfo = ProcessorInfo(
    family: string, manufacturer: string, version: string,
    frequency: string, cores: string, threads: string)

  datatype MemoryInfo = MemoryInfo(model: string, size: string, speed: string, slot: string)

  datatype SystemSlotInfo = SystemSlotInfo(
    slotType: string, usage: string, status: string,
    busAddress: string, designation: string)

  datatype SystemPowerSupplyInfo = SystemPowerSupplyInfo(
    powerUnitGroup: string, location: string, name: string,
    manufacturer: string, assetTag: string, modelPartNumber: string,
    maxPowerCapacity: string, status: string, supplyType: string,
    plugged: string, hotReplaceable: string, coolingDeviceHandle: string)

  datatype OnboardDeviceInfo = OnboardDeviceInfo(
    referenceDesignation: string, deviceType: string, status: string,
    typeInstance: string)

  datatype VirtualDriveInfo = VirtualDriveInfo(
    dgVd: string, raidType: string, state: string, access: string,
    consist: string, cache: string, cac: string, scc: string,
    size: string, name: string)

  datatype PhysicalDriveInfo = PhysicalDriveInfo(
    eidSlt: string, did: string, state: string, dg: string, size: string,
    intf: string, med: string, sed: string, pi: string, seSz: string,
    model: string, sp: string, driveType: string)

  datatype RaidCardInfo = RaidCardInfo(
    controllerId: string, model: string, ports: string, pds: string,
    dgs: string, dnOpt: string, vds: string, vnOpt: string, bbu: string,
    spr: string, ds: string, ehs: string, asos: string, hlth: string,
    virtualDrives: seq<VirtualDriveInfo>,
    physicalDrives: seq<PhysicalDriveInfo>)

  datatype IpmiUser = IpmiUser(
    userId: string, userName: string, privilegeLevel: string, enable: string)

  datatype IpmiInfo = IpmiInfo(ip: string, mac: string, users: seq<IpmiUser>)

  /** `FullSystemInfo`: one record per singleton section, a list per
      repeating section, the RAID controller and the BMC data. */
  datatype FullSystemInfo = FullSystemInfo(
    bios: BiosInfo,
    system: SysInfo,
    baseboard: BaseboardInfo,
    chassis: ChassisInfo,
    processors: seq<ProcessorInfo>,
    memory: seq<MemoryInfo>,
    systemSlots: seq<SystemSlotInfo>,
    systemPowerSupplies: seq<SystemPowerSupplyInfo>,
    onboardDevices: seq<OnboardDeviceInfo>,
    raidCardInfo: RaidCardInfo,
    ipmi: IpmiInfo)

  // Go zero values.
  const EmptyBios := BiosInfo("", "", "")
  const EmptySystem := SysInfo("", "", "", "", "", "")
  const EmptyBaseboard := BaseboardInfo("", "", "", "", "")
  const EmptyChassis := ChassisInfo("", "", "", "", "")
  const EmptyRaid := RaidCardInfo("", "", "", "", "", "", "", "", "", "", "", "", "", "", [], [])
  const EmptyIpmi := IpmiInfo("", "", [])
  const EmptyReport := FullSystemInfo(
    EmptyBios, EmptySystem, EmptyBaseboard, EmptyChassis,
    [], [], [], [], [], EmptyRaid, EmptyIpmi)

  /** The part of the report the hardware-inventory records fill in. */
  predicate SameDmiPart(a: FullSystemInfo, b: FullSystemInfo) {
    && a.bios == b.bios && a.system == b.system
    && a.baseboard == b.baseboard && a.chassis == b.chassis
    && a.processors == b.processors && a.memory == b.memory
    && a.systemSlots == b.systemSlots
    && a.systemPowerSupplies == b.systemPowerSupplies
    && a.onboardDevices == b.onboardDevices
  }
}
