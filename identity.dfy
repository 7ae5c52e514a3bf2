/**
 * The host's identity facts that the publisher attaches to its messages: the
 * host name (`getHostName`) and the device model and serial number of the
 * class (`getSerialAndModel`).  Each is read from a file and trimmed; an
 * unreadable file leaves the fact null.
 */
module Identity {
  import opened Wrappers
  import opened JsText
  import opened Catalog
  import opened HostIO

  const HostnamePath := "/host/etc/hostname"

  /** `{ model, serial }`; `None` is null. */
  datatype DeviceIdentity = DeviceIdentity(model: Option<string>, serial: Option<string>)

  /** `getHostName()`: the trimmed host-name file, or null when it cannot be read. */
  function HostName(files: FileSystem): (r: Option<string>)
    ensures r.Some? <==> ReadFile(files, HostnamePath).Some?
    ensures r.Some? ==> IsTrimmed(r.value)
  {
    match ReadFile(files, HostnamePath)
    case None => None
    case Some(text) => Some(Trim(text))
  }

  /** One guarded read of `getSerialAndModel`: only a truthy path in the class
      entry is read, and a failed read leaves the fact null. */
  function ReadFact(path: Option<string>, files: FileSystem): (r: Option<string>)
    ensures r.Some? <==> Truthy(path) && ReadFile(files, path.value).Some?
    ensures r.Some? ==> IsTrimmed(r.value)
  {
    if Truthy(path) then
      match ReadFile(files, path.value)
      case None => None
      case Some(text) => Some(Trim(text))
    else None
  }

  /** `getSerialAndModel(systemType)`: a class without an entry in the catalog
      makes the property access on `undefined` throw. */
  function GetSerialAndModel(catalog: CommandCatalog, cls: Option<SystemClass>, files: FileSystem): (r: Result<DeviceIdentity, CollectError>)
    ensures r.Err? <==> ClassKey(cls) !in catalog.classes
    ensures r.Err? ==> r.error == MissingClassEntry(ClassKey(cls))
  {
    var key := ClassKey(cls);
    if key !in catalog.classes then Err(MissingClassEntry(key))
    else
      var device := catalog.classes[key];
      Ok(DeviceIdentity(ReadFact(device.deviceModel, files), ReadFact(device.deviceSerial, files)))
  }

  /** A file holding a trimmed name followed by white space (a line feed, say)
      yields exactly that name. */
  lemma HostNameOfFile(files: FileSystem, name: string, tail: string)
    requires IsTrimmed(name)
    requires forall k :: 0 <= k < |tail| ==> IsJsSpace(tail[k])
    requires HostnamePath in files && files[HostnamePath] == Some(name + tail)
    ensures HostName(files) == Some(name)
  {
    TrimDropsTrailing(name, tail);
  }

  /** A model file holding a trimmed text followed by white space yields that
      text, whatever the serial path reads. */
  lemma ModelOfFile(catalog: CommandCatalog, cls: Option<SystemClass>, files: FileSystem, model: string, tail: string)
    requires ClassKey(cls) in catalog.classes
    requires var path := catalog.classes[ClassKey(cls)].deviceModel;
      Truthy(path) && path.value in files && files[path.value] == Some(model + tail)
    requires IsTrimmed(model)
    requires forall k :: 0 <= k < |tail| ==> IsJsSpace(tail[k])
    ensures var r := GetSerialAndModel(catalog, cls, files); r.Ok? && r.value.model == Some(model)
  {
    TrimDropsTrailing(model, tail);
  }
}
