# hass-sysinfo collector, modelled in Dafny

This project models the metrics collector of hass-sysinfo (`app/collect.js`). The collector
inspects a host from inside a container. It classifies the hardware from the CPU description,
finds the data volumes mounted under `/host/`, reads the host name and the device model and
serial, and runs the commands of the command catalog (`system_commands.json`). It then parses
those outputs into one snapshot: system disk, data disks, uptime, load averages, temperature,
memory and battery.

Every source of host facts is an explicit input:

- the file system is a map from path to optional contents;
- the commands are an oracle from command text to standard output, with `""` for a failed command;
- the listing of `/host/` is a `HostRoot`: missing, unlistable, or a sequence of entries;
- the parsed sensors document comes from a `JSON.parse` function parameter;
- the clock is an integer of milliseconds.

The modules follow the stages of the collector:

| module | file | what it holds |
|---|---|---|
| `Wrappers` | wrappers.dfy | `Option` and `Result` |
| `JsText` | js_text.dfy | the JavaScript built-ins the parsers use. These are `trim`, `split('\n')`, `split(/\s+/)`, `includes`, `startsWith`, `replace` with a string pattern (including its `$` patterns), `parseInt`, `parseFloat`, `Math.round` of a ratio, and `find` |
| `Json` | json.dfy | a JSON tree with objects as ordered member lists, plus `Object.values` and `Object.entries` |
| `Catalog` | catalog.dfy | the command catalog as a record, the system classes and the errors a pass can throw |
| `HostIO` | host_io.dfy | the file and command oracles |
| `Classifier` | classifier.dfy | `getSystemType`. Each case-insensitive regular expression becomes a predicate over case-folded text |
| `HostDisks` | host_disks.dfy | `findDataFolders`, as a loop, and the `path.basename` mapping |
| `Identity` | identity.dfy | `getHostName` and `getSerialAndModel` |
| `Parsers` | parsers.dfy | the output parsers of `collect`: df, du, file count, file age, uptime, load averages and memory |
| `Temperature` | temperature.dfy | the temperature selection, including the triple loop with `break outer` |
| `Collector` | collector.dfy | `collect()` as the `Collect` method. `CheckPlan` makes every check that can throw, as an error result. `RunPlan` runs the commands and parses their outputs, and the data-disk loop builds the `datadisks` map |

The code and its comments disagree in two places, and the model follows the code:

- The comment before `findDataFolders` (line 44) speaks of folders whose names start with "data". The code keeps every directory except `sysfolder` and `etc`.
- The comment "up 11 days, 5 min" (line 192) describes a pattern the code does not use.

`usePercent` is the parsed integer as it stands: nothing clamps it to 0..100.

## Model

| member | source | states |
|---|---|---|
| `Catalog.ClassKey` | app/collect.js:97 | the catalog key looked up for a class is "undefined" exactly when no class was found |
| `Identity.HostName` | app/collect.js:17-23 | the host name is present exactly when `/host/etc/hostname` is readable, and it has no surrounding white space |
| `Identity.HostNameOfFile` | app/collect.js:20 | a host-name file holding a name followed by white space yields exactly that name |
| `Identity.ReadFact` | app/collect.js:69-86 | a model or serial fact is present exactly when its path in the class entry is truthy and readable, and it is trimmed |
| `Identity.GetSerialAndModel` | app/collect.js:64-88 | the lookup fails, with the missing key, exactly when the class has no catalog entry |
| `Identity.ModelOfFile` | app/collect.js:69-77 | a readable model file holding a trimmed text and trailing white space yields that text as the model |
| `Classifier.HardwareAlternativeRedundant` | app/collect.js:33 | the `Hardware\s*:\s*BCM` alternative never changes the ARM test, because its match already contains `BCM` |
| `Classifier.SameLineHasIff` | app/collect.js:35 | the scanner for `.*w` succeeds exactly when `w` occurs later on the same line |
| `Classifier.ModelNameScanSound` | app/collect.js:35 | a scanner hit for `model name\s*:.*w` is a match of that regular expression |
| `Classifier.ModelNameScanComplete` | app/collect.js:35 | every match of `model name\s*:.*w` is found by the scanner |
| `Classifier.ModelNameMarkerIsRegex` | app/collect.js:35 | the `model name` test holds exactly when the regular expression has a match |
| `Classifier.ClassifyIgnoresCase` | app/collect.js:31-37 | texts that differ only in letter case get the same class |
| `Classifier.ClassifyArmToken` | app/collect.js:31-33 | any of "Raspberry Pi", ARMv, AArch, BCM or Cortex, in any case and anywhere, makes the host a Raspberry Pi |
| `Classifier.Classify` | app/collect.js:31-37 | the four tests in source order: Raspberry Pi, then the ARM tokens, then x86, then virtual, and no class when none matches |
| `Classifier.GetSystemType` | app/collect.js:26-40 | without a common entry, without a `cpuinfo` path, or with an unreadable file, the class is undefined; otherwise it is the class of the file's text |
| `Classifier.ClassifyBcm2711` | app/collect.js:33 | "BCM2711" is a Raspberry Pi |
| `Classifier.ClassifyGenuineIntel` | app/collect.js:35 | "GenuineIntel" is x86 |
| `Classifier.ClassifyQemu` | app/collect.js:37 | "QEMU" is virtual |
| `Classifier.ClassifyVendorBeforeHypervisor` | app/collect.js:35-37 | "GenuineIntel KVM" is x86: the x86 test comes before the virtual one |
| `Classifier.ClassifyEmpty` | app/collect.js:39-40 | an empty description matches no test and gives no class |
| `HostDisks.FindDataFolders` | app/collect.js:46-62 | the loop returns `/host/<name>` for each eligible entry in listing order, `[]` without `/host/`, and an error when the listing throws |
| `HostDisks.EligibleNames` | app/collect.js:54-60 | the names of the directory entries other than `sysfolder` and `etc`, in listing order |
| `HostDisks.DataFolders` | app/collect.js:46-62 | `[]` without `/host/`, an error when the listing throws, and `/host/<name>` for each eligible entry otherwise |
| `HostDisks.Basename` | app/collect.js:128 | `path.basename`: the last segment after trailing separators are dropped |
| `HostDisks.DiskNames` | app/collect.js:127-128 | the base names of the data folders |
| `HostDisks.EligiblePaths` | app/collect.js:54-60 | no more paths come out than entries go in |
| `HostDisks.EligibleNamesMembers` | app/collect.js:55 | a name is kept exactly when some entry with that name is a directory other than `sysfolder` and `etc` |
| `HostDisks.EligibleNamesAppend` | app/collect.js:54-60 | the filter keeps listing order: the result for a concatenated listing is the concatenated results |
| `HostDisks.ReservedNamesExcluded` | app/collect.js:55 | `sysfolder` and `etc` are never data disks |
| `HostDisks.OtherDirectoriesIncluded` | app/collect.js:55 | the comparison is exact: `Etc` and `backup` are kept, `etc`, `sysfolder` and a plain file are not |
| `HostDisks.LastSegment` | app/collect.js:128 | a base name contains no separator |
| `HostDisks.LastSegmentOfName` | app/collect.js:128 | the base name of a path ending in a separator-free name is that name |
| `HostDisks.BasenameOfHostPath` | app/collect.js:128 | the base name of `/host/<name>` is `<name>` |
| `HostDisks.Basenames` | app/collect.js:128 | mapping base names keeps the number of elements |
| `HostDisks.BasenamesOfPaths` | app/collect.js:127-128 | the base names of the folder paths are exactly the eligible names, in order |
| `HostDisks.DiskNamesSpec` | app/collect.js:46-62 | the disk names are `[]` without `/host/`, an error exactly when the listing throws, and the eligible names otherwise |
| `Parsers.DeviceLine` | app/collect.js:117 | the chosen line is empty or contains `/dev/` |
| `Parsers.SystemDisk` | app/collect.js:116-123 | the system disk takes fields 1, 2 and 4 of the first `/dev/` line, as rounded gigabytes and a percent, each 0 when not a number |
| `Parsers.DfUsePercent` | app/collect.js:149-159 | a data disk's percent is field 4 of the first `/dev/` line when that line has more than four fields, and absent otherwise |
| `Parsers.DuUsed` | app/collect.js:143-147 | the used gigabytes are the rounded leading block count when the trimmed output starts with digits and white space, else 0 |
| `Parsers.TrimmedInt` | app/collect.js:185 | `parseInt` of the trimmed output, NaN as none |
| `Parsers.FileCount` | app/collect.js:164 | the file count is the trimmed output's integer, or 0 for NaN |
| `Parsers.FileAge` | app/collect.js:169-173 | empty output gives no age; otherwise the age of `parseFloat` of the first space-separated token |
| `Parsers.AgeAt` | app/collect.js:172 | a NaN timestamp gives no age; a number gives `Math.round(now/1000 - ts)` |
| `Parsers.LoadShapeAt` | app/collect.js:198 | the greedy reading of `([0-9.]+)\s+([0-9.]+)\s+([0-9.]+)` at one position |
| `Parsers.LoadAverages` | app/collect.js:191-203 | the three groups of the leftmost match go through `parseFloat`; without a match all three loads are null |
| `Parsers.Memory` | app/collect.js:240-247 | total and used are fields 1 and 2 of the first `Mem:` line as rounded gigabytes, and the percent is their rounded ratio, 0 for a zero total |
| `Parsers.DfOutputRead` | app/collect.js:116-122 | df output whose device line has size, used and percent, in columns padded with any blanks, gives the rounded gigabytes and the percent, for both the system disk and a data disk |
| `Parsers.NoDeviceLine` | app/collect.js:117-122 | output without `/dev/` gives a system disk of zeros and no data-disk percent |
| `Parsers.DeviceLineOf` | app/collect.js:116-117 | a device line after a header line is the line found |
| `Parsers.DfFieldsSplit` | app/collect.js:118 | a df line whose columns are padded with any runs of blanks, split on white space, gives back its fields |
| `Parsers.ParseNatField` | app/collect.js:120 | a numeric field is read as its number |
| `Parsers.PercentOfText` | app/collect.js:122 | `N%` reads as N, because `replace('%','')` drops the sign |
| `Parsers.DuOutputRead` | app/collect.js:143-147 | `<blocks><white space><path>` gives the rounded gigabytes of the blocks |
| `Parsers.DuBareCount` | app/collect.js:144-146 | a bare count with nothing after it does not match `^(\d+)\s+` and gives 0 |
| `Parsers.DuLineTrimmed` | app/collect.js:144 | trimming du output drops only the trailing white space |
| `Parsers.DuLineCount` | app/collect.js:144 | the digits at the start of a du line are exactly the block count, followed by white space |
| `Parsers.TrimmedIntRead` | app/collect.js:185 | the trimmed decimal text of any integer, 0 and negatives included, reads back as that integer, for the battery, the file count and the uptime |
| `Parsers.TrimmedIntBlank` | app/collect.js:185 | blank output is NaN, so the uptime is missing and the file count is 0 |
| `Parsers.IntTextTrimmed` | app/collect.js:164 | an integer's text has no surrounding white space |
| `Parsers.FirstToken` | app/collect.js:171 | the first token of `split(' ')` is a space-free prefix of the output |
| `Parsers.FirstTokenOf` | app/collect.js:171 | the first token of `tok + " " + rest` is `tok` |
| `Parsers.FileAgeOfToken` | app/collect.js:170-172 | the age is computed from the first token alone, whatever follows the space |
| `Parsers.FileAgeRead` | app/collect.js:170-172 | a decimal timestamp token gives the age of exactly that timestamp |
| `Parsers.FileAgeWholeSeconds` | app/collect.js:170-172 | a timestamp exactly k seconds before the clock gives an age of k seconds |
| `Parsers.SecondsBetween` | app/collect.js:172 | a whole-second timestamp k seconds before the clock has an age of k |
| `Parsers.LoadMatchFrom` | app/collect.js:198 | the scan returns the leftmost index where the load pattern matches, or none at all |
| `Parsers.LoadShapeSound` | app/collect.js:198 | every match found is a match of `([0-9.]+)\s+([0-9.]+)\s+([0-9.]+)` with greedy groups |
| `Parsers.LoadRegexComplete` | app/collect.js:198 | every place the regular expression matches is found, with the same first two groups |
| `Parsers.LoadMatchLeftmost` | app/collect.js:198 | a match anywhere means the search succeeds at or before it |
| `Parsers.LoadNeedsSeparatedRuns` | app/collect.js:198-203 | text in which every digit-or-dot run followed by blanks is followed, after them, by a character that is not a digit or a dot gives no load values |
| `Parsers.LoadLeadingFields` | app/collect.js:198-203 | three space-separated runs at the start give their `parseFloat` values as load1, load5 and load15, in order |
| `Parsers.LoadDecimalFields` | app/collect.js:198-203 | `/proc/loadavg`-style decimals give exactly their decimal values |
| `Parsers.MemoryRead` | app/collect.js:240-247 | the first `Mem:` line, with its columns padded by any runs of blanks, gives its rounded totals, and the percent is computed from the rounded gigabytes, 0 when the total is 0 |
| `Parsers.MemoryExample` | app/collect.js:240-247 | "Mem: 8000000 4000000" gives 8 GB, 4 GB and 50 percent |
| `Parsers.NoMemLine` | app/collect.js:241-246 | without a `Mem:` line every memory figure is 0 |
| `Parsers.MemoryPercentBounds` | app/collect.js:246 | the memory percent lies between 0 and 100 whenever used does not exceed total |
| `Temperature.KnownReading` | app/collect.js:212-216 | the number at `doc[chip][sensor].temp1_input`, when the chip and sensor members exist and that member is a number |
| `Temperature.ScanSubs` | app/collect.js:220-228 | the first reading among the object-like sub-values, in order |
| `Temperature.ScanDevices` | app/collect.js:219-230 | the fallback scan over the devices in order, stopping at the first reading, and throwing at a null or undefined device |
| `Temperature.Temperature` | app/collect.js:206-235 | the Raspberry Pi reading, else the AMD reading, else the fallback scan; a text that is not JSON, the document `null`, or a scan that throws gives null |
| `Temperature.ScanEntries` | app/collect.js:222-227 | an entry scan finds a value exactly when some entry is a `temp<N>_input` number |
| `Temperature.SelectTemperature` | app/collect.js:206-235 | the triple loop with `break outer` computes the selection function for every document |
| `Temperature.ScanEntriesFirst` | app/collect.js:222-227 | the reading found is the value of the first qualifying entry |
| `Temperature.ScanSubsSound` | app/collect.js:220-228 | a reading comes from an object-like sub-value whose entries hold it |
| `Temperature.ScanDevicesFound` | app/collect.js:219-230 | the fallback finds x exactly when x is the first reading in device, then sub-object, then entry order, with no earlier null device |
| `Temperature.ScanDevicesNotFound` | app/collect.js:219-230 | the fallback finds nothing exactly when no device is null and no device holds a reading |
| `Temperature.TemperatureSource` | app/collect.js:212-230 | a reported temperature is the Raspberry Pi reading, else the AMD reading, else the first fallback reading |
| `Temperature.ArrayEntriesHoldNoReading` | app/collect.js:222-223 | the entries of an array have index keys and never yield a reading |
| `Json.Lookup` | app/collect.js:212-216 | a found member carries the key and its value; a missing one means no member has the key |
| `Collector.BatteryLevel` | app/collect.js:101-111 | the battery is present exactly when the class entry names a battery command whose trimmed output reads as an integer, and then it is that integer |
| `Collector.RunnableCommand` | app/collect.js:114 | a command runs exactly when it is defined and not empty; an undefined command and the empty command, which `exec` refuses, are distinct errors |
| `Collector.DiskCommandsOf` | app/collect.js:140-167 | the per-disk templates are available exactly when `dataDisk`, `files` and `newestFile` are all defined and not empty |
| `Collector.DiskCommand` | app/collect.js:140 | a per-disk command is its template with the first `{disk}` replaced by `/host/<name>` |
| `Collector.DiskMetric` | app/collect.js:138-180 | one disk's used gigabytes, percent, file count and newest-file age from its four command outputs |
| `Collector.DiskMap` | app/collect.js:136-181 | the map from each listed disk name to its metrics |
| `Collector.DiskCommandPlain` | app/collect.js:140 | only the first `{disk}` becomes `/host/<name>`; text before and after it, later placeholders included, stays |
| `Collector.DiskCommandDollarAmpersand` | app/collect.js:140 | a disk name containing `$&` puts the placeholder itself back into the command |
| `Collector.SubstitutionAmpersand` | app/collect.js:140 | `$&` in a replacement stands for the matched text |
| `Collector.PlaceholderFirstAfter` | app/collect.js:140 | a placeholder after a prefix without `{` is the first occurrence |
| `Collector.PlanPass` | app/collect.js:94-185 | a successful plan has per-disk templates exactly when there is at least one disk |
| `Collector.PlanSucceeds` | app/collect.js:94-185 | a pass succeeds exactly when the class entry and the common entry exist, its commands are defined and not empty, and `/host/` is listable; the per-disk templates are needed only when there is a disk |
| `Collector.PlanContents` | app/collect.js:94-185 | a successful plan holds the class entry, the catalog's commands and the eligible disk names |
| `Collector.PlanErrors` | app/collect.js:97-127 | a missing class entry, a missing common entry, a missing or empty system-disk command and an unlistable `/host/` are reported in that order |
| `Collector.OutcomeIndependentOfOutputs` | app/collect.js:89-263 | whether a pass throws, and how, depends on the catalog, the files and the listing, never on command outputs or the clock |
| `Collector.RunPass` | app/collect.js:100-260 | the snapshot of one pass: battery, system disk, data disks, uptime, loads, temperature and memory, each from its own command output |
| `Collector.CollectSpec` | app/collect.js:89-263 | the plan's error, or the snapshot of running the plan |
| `Collector.Collect` | app/collect.js:89-263 | one pass returns the plan's error or the snapshot of the outputs |
| `Collector.CheckPlan` | app/collect.js:92-127 | the lookups that can throw are made in the source's order and give the plan or its error |
| `Collector.RunPlan` | app/collect.js:100-260 | the commands run in the source's order and their outputs give the snapshot |
| `Collector.MeasureDisks` | app/collect.js:136-181 | the data-disk loop builds the map of every disk's metrics |
| `Collector.DiskMapContents` | app/collect.js:136-181 | the disk map's keys are exactly the listed names, each with its own metrics |
| `Collector.RunPassContents` | app/collect.js:136-181 | the snapshot's `datadisks` are keyed by exactly the disk names and hold each disk's per-disk metrics |
| `Collector.ClockOnlyAffectsAges` | app/collect.js:172 | two passes at different instants differ only in the file ages |
| `Collector.MetricClockOnlyAffectsAge` | app/collect.js:138-180 | the clock affects a disk's file age and nothing else |
| `Collector.DiskMapsAgree` | app/collect.js:136-181 | metrics that agree except in age give disk maps that agree except in age |
| `JsText.Trim` | app/collect.js:20 | `trim()` removes exactly the leading and trailing white space and keeps what is between |
| `JsText.TrimDropsTrailing` | app/collect.js:20 | trimming text with trailing white space gives the text |
| `JsText.Lower` | app/collect.js:31-37 | case folding maps each character, keeping the length |
| `JsText.FirstOccurrence` | app/collect.js:140 | the placeholder index found is the first one |
| `JsText.SplitLines` | app/collect.js:116 | `split('\n')` gives at least one piece and no piece contains a line feed |
| `JsText.SplitLinesJoin` | app/collect.js:116 | joining the pieces with line feeds gives back the text |
| `JsText.SplitWs` | app/collect.js:118 | `split(/\s+/)` gives at least one field and no field contains white space |
| `JsText.SplitWsEmpty` | app/collect.js:118 | splitting the empty line gives one empty field |
| `JsText.SplitWsJoin` | app/collect.js:118 | splitting fields joined by runs of blanks of any length gives back the fields |
| `JsText.Substitution` | app/collect.js:140 | the replacement text with `$$`, `$&`, `` $` `` and `$'` expanded against the match |
| `JsText.ReplaceFirst` | app/collect.js:140 | `replace` with a string pattern: the text with its first occurrence of the pattern replaced, or unchanged |
| `JsText.ReplaceFirstAt` | app/collect.js:140 | `replace` with a string pattern rewrites only the first occurrence |
| `JsText.ReplaceFirstAbsent` | app/collect.js:140 | a template without the placeholder is unchanged |
| `JsText.SubstitutionPlain` | app/collect.js:140 | a replacement without `$` is inserted literally |
| `JsText.ParseInt` | app/collect.js:105 | `parseInt(s, 10)`: leading white space, an optional sign and the longest digit run, NaN without digits |
| `JsText.ParseFloat` | app/collect.js:171 | `parseFloat`: leading white space, then the longest decimal literal prefix, with `Infinity` and NaN |
| `JsText.ParseIntOfString` | app/collect.js:105 | `parseInt` reads an integer's decimal text back as that integer, whatever non-digit follows |
| `JsText.ParseIntOfDigits` | app/collect.js:120 | a string of digits reads as its value |
| `JsText.ParseIntSkipsSpace` | app/collect.js:185 | `parseInt` skips leading white space |
| `JsText.ParseIntNaN` | app/collect.js:120-122 | text that does not start with a sign or digit is NaN |
| `JsText.ParseFloatDecimal` | app/collect.js:200-202 | `parseFloat` of a decimal literal is its exact value |
| `JsText.ParseFloatOfNat` | app/collect.js:171 | `parseFloat` of a natural number's text is that number |
| `JsText.ParseFloatNaN` | app/collect.js:171-172 | text that does not start a number is NaN |
| `JsText.RoundGB` | app/collect.js:120-121 | the gigabyte count is the nearest integer to blocks/2^20, halves up |
| `JsText.RoundQuotient` | app/collect.js:246 | `Math.round(a / b)` is the nearest integer to a/b, halves up |
| `JsText.RoundRealNearest` | app/collect.js:172 | `Math.round` lands within one half of its argument |
| `JsText.FindIndex` | app/collect.js:117 | `find` returns the first line that passes the test, or none exactly when no line does |

## Left out

- The whole application around the collector (`app/index.js`): the MQTT client, the discovery messages, the environment configuration and the polling interval. `app/index.js` is not part of this model.
- Reading and parsing `system_commands.json` (lines 27, 65 and 94). The catalog is a record value. A failing load throws outside any `try` and is not modelled. Catalog values that are not strings are not modelled either.
- `fs.existsSync`, `fs.readdirSync`, `fs.readFileSync` and `child_process.exec` are oracles.
  - A failed command is the empty output, as `execP` makes it.
  - The asynchronous plumbing of `execP` and `await` is a sequential computation.
- `JSON.parse` of the sensors output is a parameter that gives a JSON tree, or nothing when the text is not JSON.
- `debug` logging (lines 9-14 and its calls) has no effect on the result and is left out.
- `Date.now()` is one parameter for the whole pass. The source reads the clock again for every disk.
- Float precision is not modelled:
  - `parseFloat` and the load values are exact decimal reals;
  - `Math.round(Date.now()/1000 - ts)` is evaluated on exact reals;
  - the memory percent is `Math.round(100·used/total)` on exact rationals. The source divides first and then multiplies by 100 in binary floating point, which can differ at an exact half;
  - `parseInt` results and the `* 1024` block products are exact integers. In the source they are doubles: inexact above 2^53, and `Infinity` for digit runs of more than about 309 digits, which `JSON.stringify` writes as null.
- `memTotal` (line 243) is computed and never used, so it is left out.
- The order of checks and commands is not modelled exactly. The source interleaves its throwing lookups with the commands it runs. The model makes every lookup first (`CheckPlan`) and then runs the commands (`RunPlan`). Every command the source runs is checked first to be defined and not empty, because `exec` throws for either; a command that passes this check and then fails only yields `""`, so the outcome is the same.
- A command text holding a NUL character, which `exec` also refuses, is treated as an ordinary command.
  - The per-disk templates are checked once, before the loop, when there is at least one disk. The source dereferences them on the loop's first pass.
- Key order of the snapshot's objects, and names such as `__proto__` that behave specially as object keys, are not modelled; `datadisks` is a map.
- `battery` is `Option<int>`: `None` stands for the absent property, not for null.
- JSON numbers are reals, and `typeof v === 'number'` is the `JNum` case.
- A JSON object in the model may repeat a key. `Lookup` takes the first member with the key and `Values` lists every member. `JSON.parse` keeps one member per key, the last, so documents with repeated keys are not modelled faithfully.
- `Collector.RunPassContents`: states only the `datadisks` part of the snapshot. The other fields equal the parser functions applied to the command outputs, which is what `RunPass` is.
- `Parsers.FileAgeRead`: states the age through `AgeAt` of the exact timestamp rather than as a rounded number. `Parsers.FileAgeWholeSeconds` gives the number for whole-second timestamps.
- The load regular expression needs three runs of digits and dots separated only by white space. In a typical `uptime` line (`up 5 days`, `1 user`, `load average: 0.52, 0.58, 0.59`) each run followed by blanks is followed by a letter, and the averages are separated by commas, so it gives no load values (`Parsers.LoadNeedsSeparatedRuns`). This is the behaviour as written.
- A disk name containing `$&` or another `$` pattern is expanded by `replace`, as `Collector.DiskCommandDollarAmpersand` shows. The model keeps that behaviour.
