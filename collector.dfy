/**
 * One collection pass (`collect()`): the class of the host picks the catalog
 * entry for the battery, the common entry gives the commands for the system
 * disk, every data disk, the uptime, the load and the memory, and the
 * sensors report gives the temperature.  The outputs are parsed into the
 * snapshot the publisher sends; a missing catalog entry makes the pass throw.
 */
module Collector {
  import opened Wrappers
  import opened JsText
  import opened Json
  import opened Catalog
  import opened HostIO
  import opened Classifier
  import opened HostDisks
  import opened Parsers
  import opened Temperature

  /** The temperature comes from this command, not from the catalog. */
  const SensorsCommand := "sensors -j"

  /** The placeholder of the per-disk command templates. */
  const DiskPlaceholder := "{disk}"

  /** One value of the `datadisks` object: gigabytes used, the share of the
      volume in use (null without a `dataDiskDf` command or a usable line),
      the file count, and the newest file's age in seconds. */
  datatype DataDiskMetric = DataDiskMetric(used: int, usePercent: Option<int>, files: int, ageFile: Option<Age>)

  /** The object `collect()` resolves to; `uptime` is `None` for NaN and
      `battery` is `None` when the property is left out. */
  datatype Snapshot = Snapshot(
    datadisks: map<string, DataDiskMetric>,
    uptime: Option<int>,
    load1: Option<JsNumber>,
    load5: Option<JsNumber>,
    load15: Option<JsNumber>,
    temperature: Option<real>,
    systemdisk: DiskUsage,
    memory: MemoryUsage,
    battery: Option<int>)

  /** The per-disk templates of the common entry. */
  datatype DiskCommands = DiskCommands(dataDisk: string, dataDiskDf: Option<string>, files: string, newestFile: string)

  /** The battery level: read only when the class entry names a command, and
      null when its trimmed output does not start with an integer. */
  function BatteryLevel(device: DeviceEntry, ex: ExecOracle): (r: Option<int>)
    ensures r.Some? <==> Truthy(device.battery) && TrimmedInt(Exec(ex, device.battery.value)).Some?
    ensures r.Some? ==> r == TrimmedInt(Exec(ex, device.battery.value))
  {
    if Truthy(device.battery) then TrimmedInt(Exec(ex, device.battery.value)) else None
  }

  /** `template.replace('{disk}', '/host/' + name)`. */
  function DiskCommand(template: string, name: string): string
  {
    ReplaceFirst(template, DiskPlaceholder, BaseDir + name)
  }

  /** A command of the common entry as `execP` receives it: `exec` throws for an
      undefined command (or `replace` does, on an undefined template) and refuses
      the empty text (an empty template stays empty), and either makes the
      pass reject. */
  function RunnableCommand(c: Option<string>, name: string): (r: Result<string, CollectError>)
    ensures r.Ok? <==> Truthy(c)
    ensures r.Ok? ==> Some(r.value) == c
    ensures c.None? ==> r == Err(MissingCommand(name))
    ensures c == Some("") ==> r == Err(EmptyCommand(name))
  {
    if c.None? then Err(MissingCommand(name))
    else if c.value == "" then Err(EmptyCommand(name))
    else Ok(c.value)
  }

  /** The per-disk templates, or the error of the first one the loop body
      cannot run.  `dataDiskDf` is optional and used only when truthy. */
  function DiskCommandsOf(common: CommonEntry): (r: Result<DiskCommands, CollectError>)
    ensures r.Ok? <==> Truthy(common.dataDisk) && Truthy(common.files) && Truthy(common.newestFile)
  {
    var dataDisk := RunnableCommand(common.dataDisk, "dataDisk");
    var files := RunnableCommand(common.files, "files");
    var newestFile := RunnableCommand(common.newestFile, "newestFile");
    if dataDisk.Err? then Err(dataDisk.error)
    else if files.Err? then Err(files.error)
    else if newestFile.Err? then Err(newestFile.error)
    else Ok(DiskCommands(dataDisk.value,
                         if Truthy(common.dataDiskDf) then common.dataDiskDf else None,
                         files.value, newestFile.value))
  }

  /** The metrics of one data disk, every command run with the disk's path. */
  function DiskMetric(cmds: DiskCommands, name: string, ex: ExecOracle, nowMs: int): DataDiskMetric
  {
    DataDiskMetric(
      DuUsed(Exec(ex, DiskCommand(cmds.dataDisk, name))),
      match cmds.dataDiskDf
      case None => None
      case Some(t) => DfUsePercent(Exec(ex, DiskCommand(t, name))),
      FileCount(Exec(ex, DiskCommand(cmds.files, name))),
      FileAge(Exec(ex, DiskCommand(cmds.newestFile, name)), nowMs))
  }

  /** The metrics of every disk under one set of templates, at one instant. */
  function MetricOf(cmds: DiskCommands, ex: ExecOracle, nowMs: int): string -> DataDiskMetric
  {
    name => DiskMetric(cmds, name, ex, nowMs)
  }

  /** `datadisks` after the loop has handled `names`: each disk's metrics
      assigned in order, a repeated name overwriting the earlier value. */
  function DiskMap(names: seq<string>, metric: string -> DataDiskMetric): map<string, DataDiskMetric>
    decreases |names|
  {
    if |names| == 0 then map[]
    else
      var last := names[|names| - 1];
      DiskMap(names[..|names| - 1], metric)[last := metric(last)]
  }

  /** What the configuration and the listing of `/host/` settle before any
      output is looked at: the class entry, the commands to run and the disks
      to visit.  The per-disk templates are read only when there is a disk. */
  datatype Plan = Plan(
    device: DeviceEntry,
    systemDisk: string,
    names: seq<string>,
    disks: Option<DiskCommands>,
    uptime: string,
    load: string,
    memory: string)

  /** Every check of the pass that can throw, in the order the source makes
      them.  No output and no clock reading takes part in any of them. */
  function PlanPass(catalog: CommandCatalog, files: FileSystem, root: HostRoot): (r: Result<Plan, CollectError>)
    ensures r.Ok? ==> (r.value.disks.Some? <==> |r.value.names| > 0)
  {
    var key := ClassKey(GetSystemType(catalog, files));
    if key !in catalog.classes then Err(MissingClassEntry(key))
    else if catalog.common.None? then Err(MissingCommonEntry)
    else
      var common := catalog.common.value;
      var systemDisk := RunnableCommand(common.systemDisk, "systemDisk");
      if systemDisk.Err? then Err(systemDisk.error)
      else match DiskNames(root)
        case Err(e) => Err(e)
        case Ok(names) =>
          var uptime := RunnableCommand(common.uptime, "uptime");
          var load := RunnableCommand(common.load, "load");
          var memory := RunnableCommand(common.memory, "memory");
          if |names| > 0 && DiskCommandsOf(common).Err? then Err(DiskCommandsOf(common).error)
          else if uptime.Err? then Err(uptime.error)
          else if load.Err? then Err(load.error)
          else if memory.Err? then Err(memory.error)
          else
            Ok(Plan(catalog.classes[key], systemDisk.value, names,
                    if |names| > 0 then Some(DiskCommandsOf(common).value) else None,
                    uptime.value, load.value, memory.value))
  }

  /** The snapshot of a plan: every command's output parsed, none of it able to fail. */
  function RunPass(plan: Plan, ex: ExecOracle, parseJson: string -> Option<Json>, nowMs: int): Snapshot
  {
    var loads := LoadAverages(Exec(ex, plan.load));
    Snapshot(
      match plan.disks
      case None => map[]
      case Some(cmds) => DiskMap(plan.names, MetricOf(cmds, ex, nowMs)),
      TrimmedInt(Exec(ex, plan.uptime)),
      loads.load1, loads.load5, loads.load15,
      Temperature.Temperature(parseJson(Exec(ex, SensorsCommand))),
      SystemDisk(Exec(ex, plan.systemDisk)),
      Memory(Exec(ex, plan.memory)),
      BatteryLevel(plan.device, ex))
  }

  /** The outcome of a pass: the plan's error, or the snapshot of its outputs. */
  function CollectSpec(catalog: CommandCatalog, files: FileSystem, root: HostRoot, ex: ExecOracle,
                       parseJson: string -> Option<Json>, nowMs: int): Result<Snapshot, CollectError>
  {
    match PlanPass(catalog, files, root)
    case Err(e) => Err(e)
    case Ok(plan) => Ok(RunPass(plan, ex, parseJson, nowMs))
  }

  /** `collect()`: the checks of the pass, then its commands. */
  method Collect(catalog: CommandCatalog, files: FileSystem, root: HostRoot, ex: ExecOracle,
                 parseJson: string -> Option<Json>, nowMs: int) returns (r: Result<Snapshot, CollectError>)
    ensures r == CollectSpec(catalog, files, root, ex, parseJson, nowMs)
  {
    var planned := CheckPlan(catalog, files, root);
    if planned.Err? {
      return Err(planned.error);
    }
    var snapshot := RunPlan(planned.value, ex, parseJson, nowMs);
    return Ok(snapshot);
  }

  /** The lookups of `collect()` that can throw, in the order the source makes
      them, with the listing of `/host/` between the system-disk and the
      per-disk lookups. */
  method CheckPlan(catalog: CommandCatalog, files: FileSystem, root: HostRoot) returns (r: Result<Plan, CollectError>)
    ensures r == PlanPass(catalog, files, root)
  {
    var systemType := GetSystemType(catalog, files);
    var key := ClassKey(systemType);
    if key !in catalog.classes {
      return Err(MissingClassEntry(key));
    }
    var device := catalog.classes[key];
    if catalog.common.None? {
      return Err(MissingCommonEntry);
    }
    var commands := catalog.common.value;
    var systemDisk := RunnableCommand(commands.systemDisk, "systemDisk");
    if systemDisk.Err? {
      return Err(systemDisk.error);
    }
    var folders := FindDataFolders(root);
    if folders.Err? {
      return Err(folders.error);
    }
    var dataDisks := Basenames(folders.value);
    var disks: Option<DiskCommands> := None;
    if |dataDisks| > 0 {
      var templates := DiskCommandsOf(commands);
      if templates.Err? {
        return Err(templates.error);
      }
      disks := Some(templates.value);
    }
    var uptime := RunnableCommand(commands.uptime, "uptime");
    if uptime.Err? {
      return Err(uptime.error);
    }
    var load := RunnableCommand(commands.load, "load");
    if load.Err? {
      return Err(load.error);
    }
    var memory := RunnableCommand(commands.memory, "memory");
    if memory.Err? {
      return Err(memory.error);
    }
    return Ok(Plan(device, systemDisk.value, dataDisks, disks, uptime.value, load.value, memory.value));
  }

  /** The commands of `collect()` in the order the source runs them: battery,
      system disk, the data-disk loop, uptime, load, sensors and memory. */
  method RunPlan(plan: Plan, ex: ExecOracle, parseJson: string -> Option<Json>, nowMs: int) returns (s: Snapshot)
    ensures s == RunPass(plan, ex, parseJson, nowMs)
  {
    ghost var spec := RunPass(plan, ex, parseJson, nowMs);
    var battery: Option<int> := None;
    if Truthy(plan.device.battery) {
      battery := TrimmedInt(Exec(ex, plan.device.battery.value));
    }
    var systemdisk := SystemDisk(Exec(ex, plan.systemDisk));
    var datadisks: map<string, DataDiskMetric> := map[];
    if plan.disks.Some? {
      datadisks := MeasureDisks(plan.names, MetricOf(plan.disks.value, ex, nowMs));
    }
    var uptimeSeconds := TrimmedInt(Exec(ex, plan.uptime));
    var loads := LoadAverages(Exec(ex, plan.load));
    var temperature := SelectTemperature(parseJson(Exec(ex, SensorsCommand)));
    var memory := Memory(Exec(ex, plan.memory));
    return Snapshot(datadisks, uptimeSeconds, loads.load1, loads.load5, loads.load15, temperature,
                    systemdisk, memory, battery);
  }

  /** The data-disk loop: each disk's metrics, as `metric` gives them, stored
      under its name. */
  method MeasureDisks(dataDisks: seq<string>, metric: string -> DataDiskMetric) returns (datadisks: map<string, DataDiskMetric>)
    ensures datadisks == DiskMap(dataDisks, metric)
  {
    datadisks := map[];
    for i := 0 to |dataDisks|
      invariant datadisks == DiskMap(dataDisks[..i], metric)
    {
      var disk := dataDisks[i];
      assert dataDisks[..i + 1][..i] == dataDisks[..i];
      datadisks := datadisks[disk := metric(disk)];
    }
    assert dataDisks[..|dataDisks|] == dataDisks;
  }

  // ================================================================ properties

  /** The loop's map holds exactly the listed names, each with its own metrics. */
  lemma {:induction false} DiskMapContents(names: seq<string>, metric: string -> DataDiskMetric)
    ensures DiskMap(names, metric) == map n | n in names :: metric(n)
    decreases |names|
  {
    if |names| > 0 {
      var init := names[..|names| - 1];
      var last := names[|names| - 1];
      DiskMapContents(init, metric);
      assert names == init + [last];
      assert forall n :: n in names <==> n in init || n == last;
    }
  }

  /** The plan exists exactly when the class and common entries exist, the
      common entry names the system-disk, uptime, load and memory commands,
      `/host/` can be listed if it exists, and, when there is at least one
      data disk, the common entry names the per-disk commands too. */
  lemma PlanSucceeds(catalog: CommandCatalog, files: FileSystem, root: HostRoot)
    ensures var key := ClassKey(GetSystemType(catalog, files));
      PlanPass(catalog, files, root).Ok? <==>
        key in catalog.classes && catalog.common.Some? && !root.Unlistable? &&
        (var c := catalog.common.value;
         Truthy(c.systemDisk) && Truthy(c.uptime) && Truthy(c.load) && Truthy(c.memory) &&
         (root.Listed? && |EligibleNames(root.entries)| > 0 ==>
            Truthy(c.dataDisk) && Truthy(c.files) && Truthy(c.newestFile)))
  {
    DiskNamesSpec(root);
  }

  /** A successful plan carries the class entry, the common commands and the
      eligible directories of `/host/` (none without it). */
  lemma PlanContents(catalog: CommandCatalog, files: FileSystem, root: HostRoot)
    requires PlanPass(catalog, files, root).Ok?
    ensures var plan := PlanPass(catalog, files, root).value;
      var common := catalog.common.value;
      plan.device == catalog.classes[ClassKey(GetSystemType(catalog, files))] &&
      Some(plan.systemDisk) == common.systemDisk && Some(plan.uptime) == common.uptime &&
      Some(plan.load) == common.load && Some(plan.memory) == common.memory &&
      (root.Missing? ==> plan.names == []) &&
      (root.Listed? ==> plan.names == EligibleNames(root.entries)) &&
      (plan.disks.Some? ==> DiskCommandsOf(common) == Ok(plan.disks.value))
  {
    DiskNamesSpec(root);
  }

  /** The error of a failing pass is that of the first missing piece, in the
      order the source meets them. */
  lemma PlanErrors(catalog: CommandCatalog, files: FileSystem, root: HostRoot)
    ensures var key := ClassKey(GetSystemType(catalog, files));
      var r := PlanPass(catalog, files, root);
      (key !in catalog.classes ==> r == Err(MissingClassEntry(key))) &&
      (key in catalog.classes && catalog.common.None? ==> r == Err(MissingCommonEntry)) &&
      (key in catalog.classes && catalog.common.Some? && catalog.common.value.systemDisk.None? ==>
        r == Err(MissingCommand("systemDisk"))) &&
      (key in catalog.classes && catalog.common.Some? && catalog.common.value.systemDisk == Some("") ==>
        r == Err(EmptyCommand("systemDisk"))) &&
      ((key in catalog.classes && catalog.common.Some? && Truthy(catalog.common.value.systemDisk) &&
        root.Unlistable?) ==> r == Err(HostListingFailed))
  {
    DiskNamesSpec(root);
  }

  /** A pass succeeds exactly when its plan does, and then reports the plan's
      snapshot; so whether it fails, and with which error, depends on the
      catalog, the CPU description and the listing of `/host/` only. */
  lemma OutcomeIndependentOfOutputs(catalog: CommandCatalog, files: FileSystem, root: HostRoot,
                                    ex1: ExecOracle, ex2: ExecOracle,
                                    parse1: string -> Option<Json>, parse2: string -> Option<Json>,
                                    now1: int, now2: int)
    ensures var r1 := CollectSpec(catalog, files, root, ex1, parse1, now1);
      var r2 := CollectSpec(catalog, files, root, ex2, parse2, now2);
      r1.Ok? == r2.Ok? && (r1.Err? ==> r1.error == r2.error)
  {
  }

  /** The data disks of a plan's snapshot are exactly the planned names, each
      with the metrics of its own commands. */
  lemma RunPassContents(plan: Plan, ex: ExecOracle, parseJson: string -> Option<Json>, nowMs: int)
    requires plan.disks.Some? <==> |plan.names| > 0
    ensures var d := RunPass(plan, ex, parseJson, nowMs).datadisks;
      d.Keys == (set n | n in plan.names) &&
      forall n :: n in d ==> d[n] == DiskMetric(plan.disks.value, n, ex, nowMs)
  {
    if plan.disks.Some? {
      DiskMapContents(plan.names, MetricOf(plan.disks.value, ex, nowMs));
    }
  }

  /** The clock only reaches the file ages: two runs of one plan at different
      instants report the same disks with the same sizes, shares and counts,
      and the same everything else. */
  lemma ClockOnlyAffectsAges(plan: Plan, ex: ExecOracle, parseJson: string -> Option<Json>, now1: int, now2: int)
    ensures var s1 := RunPass(plan, ex, parseJson, now1);
      var s2 := RunPass(plan, ex, parseJson, now2);
      s1.datadisks.Keys == s2.datadisks.Keys &&
      (forall n :: n in s1.datadisks ==> s1.datadisks[n].(ageFile := None) == s2.datadisks[n].(ageFile := None)) &&
      s1.(datadisks := map[]) == s2.(datadisks := map[])
  {
    if plan.disks.Some? {
      var cmds := plan.disks.value;
      forall n ensures MetricOf(cmds, ex, now1)(n).(ageFile := None) == MetricOf(cmds, ex, now2)(n).(ageFile := None) {
        MetricClockOnlyAffectsAge(cmds, n, ex, now1, now2);
      }
      DiskMapsAgree(plan.names, MetricOf(cmds, ex, now1), MetricOf(cmds, ex, now2));
    }
  }

  /** Two metrics that differ only in the age give maps that differ only in the ages. */
  lemma DiskMapsAgree(names: seq<string>, m1: string -> DataDiskMetric, m2: string -> DataDiskMetric)
    requires forall n :: m1(n).(ageFile := None) == m2(n).(ageFile := None)
    ensures DiskMap(names, m1).Keys == DiskMap(names, m2).Keys
    ensures forall n :: n in DiskMap(names, m1) ==> DiskMap(names, m1)[n].(ageFile := None) == DiskMap(names, m2)[n].(ageFile := None)
  {
    DiskMapContents(names, m1);
    DiskMapContents(names, m2);
  }

  lemma MetricClockOnlyAffectsAge(cmds: DiskCommands, name: string, ex: ExecOracle, now1: int, now2: int)
    ensures DiskMetric(cmds, name, ex, now1).(ageFile := None) == DiskMetric(cmds, name, ex, now2).(ageFile := None)
  {
  }

  // ---------------------------------------------------------------- command templates

  /** No placeholder starts inside a brace-free prefix or the placeholder's
      own first characters. */
  lemma PlaceholderFirstAfter(a: string)
    requires '{' !in a
    ensures !Contains(a + DiskPlaceholder[..|DiskPlaceholder| - 1], DiskPlaceholder)
  {
    var pat := DiskPlaceholder;
    var p := a + pat[..|pat| - 1];
    forall j | 0 <= j && j + |pat| <= |p| ensures !ContainsAt(p, j, pat) {
      if j < |a| {
        assert p[j] == a[j];
      } else {
        assert false;
      }
    }
  }

  /** A template with its placeholder after a brace-free prefix, filled with a
      disk name without `$`: the disk's path takes the placeholder's place and
      the rest of the template, later placeholders included, is kept. */
  lemma DiskCommandPlain(a: string, b: string, name: string)
    requires '{' !in a && '$' !in name
    ensures DiskCommand(a + DiskPlaceholder + b, name) == a + BaseDir + name + b
  {
    DiskCommandAt(a, b, name);
    HostPrefixDollarFree(name);
    SubstitutionPlain(BaseDir + name, DiskPlaceholder, a, b);
    assert a + (BaseDir + name) + b == a + BaseDir + name + b;
  }

  /** The replacement text of `replace` is not literal: a disk name holding
      `$&` puts the placeholder back, so the command does not name the disk. */
  lemma DiskCommandDollarAmpersand(a: string, b: string, p: string, q: string)
    requires '{' !in a && '$' !in p && '$' !in q
    ensures DiskCommand(a + DiskPlaceholder + b, p + "$&" + q) == a + BaseDir + p + DiskPlaceholder + q + b
  {
    DiskCommandAt(a, b, p + "$&" + q);
    AmpersandPath(p, q, a, b);
    assert a + (BaseDir + p + DiskPlaceholder + q) + b == a + BaseDir + p + DiskPlaceholder + q + b;
  }

  /** The first placeholder after a brace-free prefix is the one replaced. */
  lemma DiskCommandAt(a: string, b: string, name: string)
    requires '{' !in a
    ensures DiskCommand(a + DiskPlaceholder + b, name) == a + Substitution(BaseDir + name, DiskPlaceholder, a, b) + b
  {
    PlaceholderFirstAfter(a);
    ReplaceFirstAt(a + DiskPlaceholder + b, DiskPlaceholder, BaseDir + name, a, b);
  }

  /** The path of `p$&q` with `$&` standing for the placeholder. */
  lemma AmpersandPath(p: string, q: string, a: string, b: string)
    requires '$' !in p && '$' !in q
    ensures Substitution(BaseDir + (p + "$&" + q), DiskPlaceholder, a, b) == BaseDir + p + DiskPlaceholder + q
  {
    HostPrefixDollarFree(p);
    assert BaseDir + (p + "$&" + q) == (BaseDir + p) + "$&" + q;
    SubstitutionAmpersand(BaseDir + p, q, DiskPlaceholder, a, b);
  }

  lemma HostPrefixDollarFree(p: string)
    requires '$' !in p
    ensures '$' !in BaseDir + p
  {
    forall k | 0 <= k < |BaseDir + p| ensures (BaseDir + p)[k] != '$' {
      if k >= |BaseDir| {
        assert (BaseDir + p)[k] == p[k - |BaseDir|];
      }
    }
  }

  /** `$&` in a replacement stands for the matched text. */
  lemma SubstitutionAmpersand(x: string, y: string, matched: string, before: string, after: string)
    requires '$' !in x && '$' !in y
    ensures Substitution(x + "$&" + y, matched, before, after) == x + matched + y
  {
    SubstitutionPrefix(x, "$&" + y, matched, before, after);
    var t := "$&" + y;
    assert t[2..] == y;
    SubstitutionPlain(y, matched, before, after);
    assert x + "$&" + y == x + t;
  }

  /** A `$`-free prefix of a replacement is copied as it is. */
  lemma {:induction false} SubstitutionPrefix(x: string, rest: string, matched: string, before: string, after: string)
    requires '$' !in x
    ensures Substitution(x + rest, matched, before, after) == x + Substitution(rest, matched, before, after)
    decreases |x|
  {
    if |x| > 0 {
      var s := x + rest;
      assert s[0] == x[0];
      assert s[1..] == x[1..] + rest;
      DollarFreeTail(x);
      SubstitutionPrefix(x[1..], rest, matched, before, after);
      SubstitutionLiteral(s, matched, before, after);
      assert x == [x[0]] + x[1..];
    } else {
      assert x + rest == rest;
    }
  }

  /** A first character other than `$` is copied. */
  lemma SubstitutionLiteral(s: string, matched: string, before: string, after: string)
    requires |s| > 0 && s[0] != '$'
    ensures Substitution(s, matched, before, after) == [s[0]] + Substitution(s[1..], matched, before, after)
  {
  }

  lemma DollarFreeTail(x: string)
    requires |x| > 0 && '$' !in x
    ensures x[0] != '$' && '$' !in x[1..]
  {
    forall k | 0 <= k < |x| - 1 ensures x[1..][k] != '$' {
      assert x[1..][k] == x[k + 1];
    }
  }
}
