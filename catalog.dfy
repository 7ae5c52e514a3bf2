/**
 * The command catalog (system_commands.json) and the classes it is keyed by.
 * The catalog's contents are configuration, so the model takes it as a value;
 * every entry maps a metric or file name to a command text or a path.
 */
module Catalog {
  import opened Wrappers

  /** The classes `getSystemType` can return; `None` of `Option<SystemClass>` is `undefined`. */
  datatype SystemClass = RaspberryPi | X86 | Virtual

  /** The `common` entry: the CPU description path and the command texts
      (`{disk}` marks where the per-disk templates take the disk's path).
      `None` is a property the entry does not have. */
  datatype CommonEntry = CommonEntry(
    cpuinfo: Option<string>,
    systemDisk: Option<string>,
    dataDisk: Option<string>,
    dataDiskDf: Option<string>,
    files: Option<string>,
    newestFile: Option<string>,
    uptime: Option<string>,
    load: Option<string>,
    memory: Option<string>)

  /** A class entry: the paths of the model and serial files and the battery command. */
  datatype DeviceEntry = DeviceEntry(deviceModel: Option<string>, deviceSerial: Option<string>, battery: Option<string>)

  /** The parsed catalog: the `common` entry, if any, and the class entries by name. */
  datatype CommandCatalog = CommandCatalog(common: Option<CommonEntry>, classes: map<string, DeviceEntry>)

  /** Why a collection pass throws instead of returning a snapshot. */
  datatype CollectError =
    | MissingClassEntry(key: string)   // `SYSTEM_COMMANDS[systemType]` is undefined and is dereferenced
    | MissingCommonEntry               // `SYSTEM_COMMANDS.common` is undefined and is dereferenced
    | MissingCommand(name: string)     // a common command is undefined where it is executed or substituted
    | EmptyCommand(name: string)       // a command is the empty text, which `exec` refuses
    | HostListingFailed                // `/host/` exists but cannot be listed

  /** The property name that `SYSTEM_COMMANDS[systemType]` looks up: the class
      name, or "undefined" (JavaScript's `String(undefined)`) for no class. */
  function ClassKey(c: Option<SystemClass>): (key: string)
    ensures key == "undefined" <==> c.None?
  {
    match c
    case Some(RaspberryPi) => "raspberrypi"
    case Some(X86) => "x86"
    case Some(Virtual) => "virtual"
    case None => "undefined"
  }

  /** A property value is truthy: present and not the empty string. */
  predicate Truthy(v: Option<string>) {
    v.Some? && v.value != ""
  }
}
