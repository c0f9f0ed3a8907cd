# Server inventory collector, modelled in Dafny

The program gathers a server's hardware inventory into one report. It has
three sources:

- the DMI/SMBIOS tables, as a JSON array of records with a `description`
  title and a `values` object;
- the RAID controller tool's JSON;
- the BMC tool's plain-text network and user listings.

It writes the report to a file named after the system's manufacturer,
product name and serial number.

This project models the logic that turns those outputs into the report:

- the record classifier in `main`, with `getStringValue` and `getMapValue`;
- the controller walk in `getRaidInfo`;
- the two text parsers in `getIPMIInfo`;
- the CR LF normaliser applied to every command's output;
- the file-name builder.

Each tool's output is an input to the model. `None` stands for a command
that failed or output that did not decode.

Files:

| file | module | what |
|---|---|---|
| wrappers.dfy | Wrappers | `Option`, `Result`, `Map` over sequences |
| json.dfy | Json | decoded JSON values and the lookups the program makes |
| text.dfy | Text | Go's `TrimSpace`, `Split`, `SplitN`, `HasPrefix`, the two `ReplaceAll` calls |
| report.dfy | Report | the report records (`FullSystemInfo` and its parts) and their zero values |
| dmi.dfy | Dmi | the classifier loop over the DMI records |
| raid.dfy | Raid | `getRaidInfo` |
| ipmi.dfy | Ipmi | `getIPMIInfo` |
| inventory.dfy | Inventory | `main`'s pipeline and the report file name |

Each loop is a fold over its input. Each fold is paired with a definition
stated without the loop, and a lemma connects the two:

- the repeating DMI sections equal the mapped list of matching records;
- a singleton section holds the last matching record;
- the RAID record is the last controller that was processed to the end;
- the BMC address is taken from the last `IP=` line, and the MAC from the
  last `MAC=` line;
- the users of a block of lines are the users of its lines in order, each
  line giving its own user or none (`Ipmi.ParseUsersAppend` with
  `Ipmi.ParseUsersOneLine`).

The text functions have their own partners:

- `Split` is paired with `Join`;
- the CR LF normaliser is paired with its inverse `ToCrlf`;
- `SplitN` is characterised by how many separators the input holds.

## Model

| member | source | states |
|---|---|---|
| Json.GetStringValue | jingan_dmidecode.go:197-202 | a present string value is returned as is; a missing key or a non-string value gives the empty string |
| Json.GetMapValue | jingan_dmidecode.go:204-207 | the lookup succeeds exactly when the key is present and holds an object, and then returns that object |
| Json.Sprint | jingan_dmidecode.go:401-414 | `%v` of a missing key or a JSON null prints `<nil>`; a string field prints verbatim; a boolean prints `true` or `false` |
| Text.Split | jingan_dmidecode.go:498 | at least one piece, and exactly one when the input has no separator |
| Text.SplitPieces | jingan_dmidecode.go:498 | the pieces joined with the separator give the input back, and no piece holds the separator |
| Text.SplitLength | jingan_dmidecode.go:498 | a split yields exactly one piece more than the input has separators |
| Text.SplitN | jingan_dmidecode.go:519 | between 1 and n pieces |
| Text.SplitNPieces | jingan_dmidecode.go:519 | the pieces join back to the input; every piece but the last is free of the separator; the last is also free of it when fewer than n pieces come out |
| Text.SplitNLength | jingan_dmidecode.go:519 | the number of pieces is one more than the number of separators, capped at n |
| Text.SplitNFull | jingan_dmidecode.go:519-522 | the split has all n pieces exactly when the input holds at least n-1 separators |
| Text.SplitNIsSplit | jingan_dmidecode.go:519 | with fewer than n separators, `SplitN` is `Split` |
| Text.SplitJoin | jingan_dmidecode.go:498 | splitting undoes joining for pieces free of the separator |
| Text.SplitAppend | jingan_dmidecode.go:514 | splitting two texts glued by the separator gives the pieces of the first followed by those of the second |
| Text.TrimSpace | jingan_dmidecode.go:515 | Go's `strings.TrimSpace` over the `unicode.IsSpace` set: the result is no longer than the input, and when not empty neither starts nor ends with white space |
| Text.TrimSpaceInfix | jingan_dmidecode.go:515 | trimming keeps one infix, cuts only white space on either side, and the result neither starts nor ends with white space |
| Text.TrimSpaceIdempotent | jingan_dmidecode.go:515 | trimming twice is trimming once |
| Text.TrimSpacePadded | jingan_dmidecode.go:524-527 | white space added on either side is trimmed away again |
| Text.SpacesToUnderscores | jingan_dmidecode.go:347-349 | same length; each space becomes `_` and every other character is kept; no space remains |
| Text.UnderscoredSplit | jingan_dmidecode.go:347-349 | for a text without `_`, cutting the underscored text at `_` gives the same pieces as cutting the original at spaces |
| Text.NormalizeNewlines | jingan_dmidecode.go:186 | the result is no longer than the input |
| Text.NormalizeKeepsLineFeeds | jingan_dmidecode.go:186 | the result holds as many line feeds as the input and no more carriage returns |
| Text.NormalizeToCrlf | jingan_dmidecode.go:186 | converting every LF to CR LF and then normalising gives the original text back |
| Text.NormalizeLines | jingan_dmidecode.go:186 | the lines of the normalised text are the original lines, each with one trailing CR removed |
| Dmi.ClassifyFrom | jingan_dmidecode.go:236-327 | the loop over the records, first to last: it never changes the RAID or BMC parts; what it does to the lists and slots is stated by `RepeatingListsFollowMatches` and `SingletonsLastWins` |
| Dmi.ClassifyAll | jingan_dmidecode.go:234-327 | the loop on a zero-valued report: the RAID record and the BMC part stay at their zero values |
| Dmi.Classify | jingan_dmidecode.go:237-326 | one record never touches the RAID or BMC parts; a record without a `values` object, or with an unknown title, changes nothing |
| Dmi.ClassifySingletons | jingan_dmidecode.go:244-274 | one record sets the BIOS, system, base board or chassis slot exactly when it carries that slot's title and a `values` object; the other slots keep their values |
| Dmi.ClassifyLists | jingan_dmidecode.go:275-325 | one record appends its own mapping to a repeating list exactly when it carries that list's title and a `values` object; the other lists are unchanged |
| Dmi.ClassifyAppend | jingan_dmidecode.go:236-327 | classifying two batches of records in a row is classifying them together |
| Dmi.RepeatingListsFollowMatches | jingan_dmidecode.go:275-325 | each repeating list (processors, memory, slots, power supplies, onboard devices) grows by the mapped records with its exact title, in input order |
| Dmi.CountsMatchRecords | jingan_dmidecode.go:275-325 | each repeating list has one entry per record with its title and a `values` object |
| Dmi.SingletonsLastWins | jingan_dmidecode.go:244-274 | BIOS, system, base board and chassis each hold the mapping of the last record with their title, and keep their old value when there is none |
| Dmi.IgnoredRecordsDropOut | jingan_dmidecode.go:238-243 | removing every record without `values` or with an unknown title gives the same report |
| Raid.Controllers | jingan_dmidecode.go:378-381 | the `Controllers` array when the key holds an array, and empty otherwise (both cases that line 379 rejects) |
| Raid.OverviewOf | jingan_dmidecode.go:384-399 | a controller reaches its summary exactly when it is an object whose `Response Data` is an object holding a non-empty `System Overview` array; the summary comes from that array's first entry |
| Raid.VirtualDrivesOf | jingan_dmidecode.go:436-453 | one virtual-drive record per `VD LIST` entry, in order, each mapped from its entry |
| Raid.PhysicalDrivesOf | jingan_dmidecode.go:456-476 | one physical-drive record per `PD LIST` entry, in order, each mapped from its entry |
| Raid.BuildController | jingan_dmidecode.go:383-476 | a controller yields a record exactly when it has an overview, its detail query succeeds, and the detail has a response object; the summary fields come from the first overview entry; a missing drive list gives no drives |
| Raid.Outcomes | jingan_dmidecode.go:383-479 | one outcome per controller, in order, each the result of that controller's iteration |
| Raid.ScanControllers | jingan_dmidecode.go:383-479 | the walk leaves the old record or the record some controller built; which one is stated by `ScanLastBuilt` |
| Raid.ScanLastBuilt | jingan_dmidecode.go:383-479 | after the walk, the RAID record is that of the last controller that yields one, or the old record when none does |
| Raid.GetRaidInfo | jingan_dmidecode.go:368-381 | a failed overview query and a missing or empty `Controllers` array are the two errors, each exactly in its case; success changes only the RAID record |
| Raid.ApplyRaid | jingan_dmidecode.go:329-331 | what `main` keeps: only the RAID record may change, and a failed query or a missing or empty `Controllers` array leaves the report as it was |
| Raid.RaidLastControllerWins | jingan_dmidecode.go:478 | the report `main` keeps: unchanged on error or when no controller is processed to the end, otherwise holding the last such controller's record |
| Ipmi.ScanNetwork | jingan_dmidecode.go:498-505 | the scan never touches the user list; which line sets each field is stated by `ScanNetworkLastWins` |
| Ipmi.ParseNetwork | jingan_dmidecode.go:497-505 | the network output scanned line by line into a fresh record, whose user list is empty |
| Ipmi.ValueBetweenEquals | jingan_dmidecode.go:500 | the value of a `key=...` line is the trimmed text between its first `=` and the next `=` or the end of the line |
| Ipmi.ScanNetworkLastWins | jingan_dmidecode.go:497-504 | the address comes from the last `IP=` line and the MAC from the last `MAC=` line; each keeps its old value when no line has its prefix; the user list is not touched |
| Ipmi.UserOfRow | jingan_dmidecode.go:516-522 | a trimmed line yields a user exactly when it is not a header, rule, footer or blank line and holds at least three vertical bars |
| Ipmi.UserOfRowFields | jingan_dmidecode.go:519-528 | a user is built from four pieces that join back to the line, the first three free of vertical bars, each trimmed |
| Ipmi.UserOfLine | jingan_dmidecode.go:514-529 | a line yields a user exactly when its trimmed text is not the header, a rule, a footer or blank, and holds at least three vertical bars |
| Ipmi.UsersOf | jingan_dmidecode.go:513-531 | at most one user per line, in line order (`ParseUsersAppend`) |
| Ipmi.ParseUsers | jingan_dmidecode.go:513-531 | the user output cut at line feeds: no more users than line feeds plus one |
| Ipmi.RowFields | jingan_dmidecode.go:515-528 | a row of four bar-separated fields, with any white space around or inside them, yields exactly those fields trimmed, unless its trimmed text is a header, rule, footer or blank line; the last field keeps any further vertical bars |
| Ipmi.RowTrim | jingan_dmidecode.go:515 | trimming a bar-separated row trims only the front of its first field and the back of its last |
| Ipmi.ParseUsersAppend | jingan_dmidecode.go:513-530 | users keep line order: two blocks of output give the first block's users followed by the second's |
| Ipmi.ParseUsersOneLine | jingan_dmidecode.go:514-529 | a single line yields its own user or none |
| Ipmi.FramingOnlyHasNoUsers | jingan_dmidecode.go:515-518 | output made only of the header, rules, footers and blank lines yields no users |
| Ipmi.NormalizingIsInvisible | jingan_dmidecode.go:186 | CR LF line endings make no difference to either parser |
| Ipmi.GetIpmiInfo | jingan_dmidecode.go:484-535 | a failed network query and a failed user query are the two errors, each exactly in its case; success changes only the BMC part, whose users and address/MAC are those of the raw outputs |
| Inventory.ReportFileName | jingan_dmidecode.go:346-349 | the name holds no space, ends in `.txt`, and is six characters longer than the three fields together |
| Inventory.FileNameFields | jingan_dmidecode.go:346-349 | when no field holds `_`, splitting the stem at `_` gives the space-separated words of the manufacturer, then of the product name, then of the serial number; so the three fields themselves when they hold no spaces |
| Inventory.Run | jingan_dmidecode.go:209-349 | no report exactly when the DMI step fails; the DMI part of the report and the file name depend only on the DMI records; the RAID record is the one the RAID query leaves on the classified report (so `Raid.RaidLastControllerWins` applies to it), and a RAID failure leaves the zero RAID record; a BMC failure leaves the zero BMC record; otherwise the BMC part is parsed from the raw outputs |

## Left out

- Running the commands is left out: `runCommand` and the Windows/Linux choice of command line. Each output is an input to the model, and `None` stands for a failed command.
- JSON decoding (`json.Unmarshal`, `parseDmidecode`) is left out. The model starts from decoded values, and a decode failure is the same `None` as a failed command.
- JSON encoding of the report (`json.MarshalIndent`) is left out, along with `os.WriteFile` and the `log.Fatalf` exits on their failure.
- The debug printing is left out.
- Json.Sprint: how Go's `%v` renders numbers (floats), arrays and maps is not modelled. The function `show` stands for it. Only the `<nil>`, string and boolean cases are stated.
- Raid.GetRaidInfo: the type assertions at jingan_dmidecode.go:399, 430, 438 and 458 panic when the JSON has the wrong shape. The model requires them to succeed: that is the precondition `NoPanic`. Line 430 panics rather than skipping a controller whose detail output lacks a non-empty `Controllers` array.
- The per-controller detail query (`/c<id> show all J`) is an input function from the controller id to the decoded output.
- `getIPMICmdPath` and `os.Getwd` are left out. A failure to find the BMC tool is the same `None` as a failed network query.
- Go's distinction between a nil slice and an empty one is left out. It decides `null` versus `[]` in the encoded report.
- Strings are sequences of characters, not UTF-8 bytes. `TrimSpace` follows `unicode.IsSpace` on code points.
- The program reads only the JSON form of dmidecode's output (piped through `jc --dmidecode` at jingan_dmidecode.go:221), and so does the model. Titles are compared exactly (`switch description` at jingan_dmidecode.go:243), so a title that only starts with a known one is ignored.
- Ipmi.UserOfRow: `SplitN(line, "|", 4)` keeps any further `|` inside the last field, so a row with more than three `|` still yields a user.
- Ipmi.ValueBetweenEquals: `Split(line, "=")[1]` stops at a second `=`, so a value that itself holds `=` is cut short.
- Raid.ScanLastBuilt: each controller overwrites the single RAID record (jingan_dmidecode.go:478), so on a machine with several controllers only the last one processed to the end is reported.
