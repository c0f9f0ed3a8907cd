/** `main`: the hardware records are classified into a fresh report, the
    RAID and BMC queries fill in their parts (each failure only leaves its
    part at the zero value), and the report is written to a file named
    after the system's manufacturer, product name and serial number.

    The command runs are inputs: `dmi` is the decoded record array of the
    hardware-inventory pipeline (`None` when the command failed or its
    output did not decode, which ends the program without a report). */
module Inventory {
  import opened Wrappers
  import opened Json
  import opened Text
  import opened Report
  import opened Dmi
  import opened Raid
  import opened Ipmi

  /** The report and the name of the file it is written to. */
  datatype Output = Output(report: FullSystemInfo, fileName: string)

  /** `<manufacturer>_<product>_<serial>.txt`, every space in the three
      fields turned into `_`. */
  function ReportFileName(sys: SysInfo): (name: string)
    ensures ' ' !in name
    ensures |name| == |sys.manufacturer| + |sys.productName| + |sys.serialNumber| + 6
    ensures name[|name| - 4..] == ".txt"
  {
    SpacesToUnderscores(sys.manufacturer) + "_" + SpacesToUnderscores(sys.productName)
      + "_" + SpacesToUnderscores(sys.serialNumber) + ".txt"
  }

  /** The part of the name before `.txt`. */
  function Stem(name: string): string
    requires |name| >= 4
  {
    name[..|name| - 4]
  }

  /** The file name can be read back: when no field holds an underscore,
      splitting the stem at `_` gives the space-separated words of the
      manufacturer, then of the product name, then of the serial number
      (so exactly the three fields when they hold no spaces either). */
  lemma FileNameFields(sys: SysInfo)
    requires '_' !in sys.manufacturer && '_' !in sys.productName && '_' !in sys.serialNumber
    ensures Split(Stem(ReportFileName(sys)), '_')
         == Split(sys.manufacturer, ' ') + Split(sys.productName, ' ') + Split(sys.serialNumber, ' ')
  {
    var m, p, s := sys.manufacturer, sys.productName, sys.serialNumber;
    var um, up, us := SpacesToUnderscores(m), SpacesToUnderscores(p), SpacesToUnderscores(s);
    var name := ReportFileName(sys);
    assert name == um + "_" + up + "_" + us + ".txt";
    assert Stem(name) == um + ['_'] + (up + ['_'] + us);
    SplitAppend(um, up + ['_'] + us, '_');
    SplitAppend(up, us, '_');
    UnderscoredSplit(m);
    UnderscoredSplit(p);
    UnderscoredSplit(s);
  }

  /** The whole program: the hardware records, then the RAID query, then
      the BMC query, each on the report the previous step left. */
  function Run(dmi: Option<seq<Object>>, storcli: Option<Object>,
               detail: string -> Option<Object>, show: JsonValue -> string,
               ipOutput: Option<string>, userOutput: Option<string>): (r: Option<Output>)
    requires NoPanic(storcli, detail, show)
    ensures dmi.None? <==> r.None?
    ensures r.Some? ==> SameDmiPart(r.value.report, ClassifyAll(dmi.value))
    ensures r.Some? ==> r.value.fileName == ReportFileName(ClassifyAll(dmi.value).system)
    ensures r.Some? && (storcli.None? || Controllers(storcli.value) == [])
            ==> r.value.report.raidCardInfo == EmptyRaid
    ensures r.Some?
            ==> r.value.report.raidCardInfo
                == ApplyRaid(ClassifyAll(dmi.value), storcli, detail, show).raidCardInfo
    ensures r.Some? && (ipOutput.None? || userOutput.None?)
            ==> r.value.report.ipmi == EmptyIpmi
    ensures r.Some? && ipOutput.Some? && userOutput.Some?
            ==> r.value.report.ipmi.users == ParseUsers(userOutput.value)
                && r.value.report.ipmi.(users := []) == ParseNetwork(ipOutput.value)
  {
    match dmi
    case None => None
    case Some(entries) =>
      var classified := ClassifyAll(entries);
      var withRaid := ApplyRaid(classified, storcli, detail, show);
      var report := GetIpmiInfo(withRaid, ipOutput, userOutput).GetOr(withRaid);
      Some(Output(report, ReportFileName(report.system)))
  }
}
