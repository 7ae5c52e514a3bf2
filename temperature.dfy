/**
 * Selection of the CPU temperature from the parsed output of `sensors -j`:
 * two known sensor paths first, then the first `temp<N>_input` reading of any
 * chip, with any exception on the way leaving the temperature null.
 */
module Temperature {
  import opened Wrappers
  import opened JsText
  import opened Json

  const RaspberryChip := "cpu_thermal-virtual-0"
  const RaspberrySensor := "temp1"
  const AmdChip := "k10temp-pci-00c3"
  const AmdSensor := "Tctl"
  const InputKey := "temp1_input"

  /** `doc[chip] && doc[chip][sensor] && typeof doc[chip][sensor].temp1_input === 'number'`,
      giving that number. */
  function KnownReading(doc: Json, chip: string, sensor: string): Option<real>
  {
    match Member(doc, chip)
    case None => None
    case Some(c) =>
      match Member(c, sensor)
      case None => None
      case Some(t) =>
        match Member(t, InputKey)
        case Some(JNum(x)) => Some(x)
        case _ => None
  }

  /** `/^temp\d+_input$/.test(key)`. */
  predicate IsTempInputKey(key: string) {
    |key| >= 11 && key[..4] == "temp" && key[|key| - 6..] == "_input" && AllDigits(key[4..|key| - 6])
  }

  /** An entry whose key names an input and whose value is a number. */
  predicate IsReading(e: (string, Json)) {
    IsTempInputKey(e.0) && e.1.JNum?
  }

  /** The value of the first reading among the entries. */
  function ScanEntries(es: seq<(string, Json)>): (r: Option<real>)
    ensures r.Some? <==> exists k :: 0 <= k < |es| && IsReading(es[k])
  {
    if |es| == 0 then None
    else if IsReading(es[0]) then Some(es[0].1.n)
    else ScanEntries(es[1..])
  }

  /** The first reading among the entries of the object-like values. */
  function ScanSubs(subs: seq<Json>): Option<real>
  {
    if |subs| == 0 then None
    else if IsObjectLike(subs[0]) && ScanEntries(Entries(subs[0])).Some? then ScanEntries(Entries(subs[0]))
    else ScanSubs(subs[1..])
  }

  /** The outcome of the labelled fallback loop over the chips. */
  datatype Scan = Found(celsius: real) | NotFound | Threw

  /** The fallback loop: chips in order, sub-objects in order, entries in order;
      a null chip makes `Object.values` throw before anything later is seen. */
  function ScanDevices(devs: seq<Json>): Scan
  {
    if |devs| == 0 then NotFound
    else if devs[0].JNull? then Threw
    else if ScanSubs(Values(devs[0])).Some? then Found(ScanSubs(Values(devs[0])).value)
    else ScanDevices(devs[1..])
  }

  /** The temperature the collector reports for the parsed sensors output
      (`None` as document: `JSON.parse` threw). */
  function Temperature(doc: Option<Json>): Option<real>
  {
    match doc
    case None => None
    case Some(JNull) => None
    case Some(d) =>
      if KnownReading(d, RaspberryChip, RaspberrySensor).Some? then KnownReading(d, RaspberryChip, RaspberrySensor)
      else if KnownReading(d, AmdChip, AmdSensor).Some? then KnownReading(d, AmdChip, AmdSensor)
      else match ScanDevices(Values(d))
        case Found(x) => Some(x)
        case _ => None
  }

  /** The temperature block of `collect`, with its triple loop and `break outer`. */
  method SelectTemperature(doc: Option<Json>) returns (temperature: Option<real>)
    ensures temperature == Temperature(doc)
  {
    temperature := None;
    if doc.None? || doc.value.JNull? {
      return;
    }
    var d := doc.value;
    var raspberry := KnownReading(d, RaspberryChip, RaspberrySensor);
    var amd := KnownReading(d, AmdChip, AmdSensor);
    if raspberry.Some? {
      temperature := raspberry;
      return;
    } else if amd.Some? {
      temperature := amd;
      return;
    }
    var devs := Values(d);
    var i := 0;
    label outer:
    while i < |devs|
      invariant 0 <= i <= |devs|
      invariant ScanDevices(devs[i..]) == ScanDevices(devs)
      invariant temperature == None
    {
      var dev := devs[i];
      if dev.JNull? {
        return;
      }
      var subs := Values(dev);
      var j := 0;
      while j < |subs|
        invariant 0 <= j <= |subs|
        invariant ScanSubs(subs[j..]) == ScanSubs(subs)
        invariant temperature == None
      {
        var sub := subs[j];
        if IsObjectLike(sub) {
          var es := Entries(sub);
          var k := 0;
          while k < |es|
            invariant 0 <= k <= |es|
            invariant ScanEntries(es[k..]) == ScanEntries(es)
            invariant temperature == None
          {
            var (key, v) := es[k];
            if IsTempInputKey(key) && v.JNum? {
              temperature := Some(v.n);
              assert ScanEntries(es) == temperature;
              assert ScanSubs(subs) == temperature;
              assert ScanDevices(devs) == Found(v.n);
              break outer;
            }
            k := k + 1;
          }
          assert es[k..] == [];
        }
        j := j + 1;
      }
      assert subs[j..] == [];
      i := i + 1;
    }
  }

  /** Every member of an array has an index for its key, so arrays never yield a
      reading even though the fallback loop looks inside them. */
  lemma ArrayEntriesHoldNoReading(items: seq<Json>)
    ensures ScanEntries(Entries(JArr(items))) == None
  {
    var es := Entries(JArr(items));
    forall k | 0 <= k < |es| ensures !IsReading(es[k]) {
      var key := NatToString(k);
      assert es[k].0 == key;
      assert key[0] != 't';
    }
  }

  /** Entry `k` is the first reading of the list and holds `x`. */
  ghost predicate FirstReadingAt(es: seq<(string, Json)>, k: int, x: real) {
    0 <= k < |es| && IsReading(es[k]) && es[k].1 == JNum(x) &&
    forall j :: 0 <= j < k ==> !IsReading(es[j])
  }

  /** The innermost loop finds `x` exactly when `x` is held by the earliest entry
      that is a reading. */
  lemma {:induction false} ScanEntriesFirst(es: seq<(string, Json)>, x: real)
    ensures ScanEntries(es) == Some(x) <==> exists k :: FirstReadingAt(es, k, x)
    decreases |es|
  {
    if |es| == 0 {
    } else if IsReading(es[0]) {
      if exists k :: FirstReadingAt(es, k, x) {
        var k :| FirstReadingAt(es, k, x);
        assert k == 0;
      }
      if ScanEntries(es) == Some(x) {
        assert FirstReadingAt(es, 0, x);
      }
    } else {
      ScanEntriesFirst(es[1..], x);
      if exists k :: FirstReadingAt(es, k, x) {
        var k :| FirstReadingAt(es, k, x);
        assert FirstReadingAt(es[1..], k - 1, x);
      }
      if ScanEntries(es) == Some(x) {
        var k :| FirstReadingAt(es[1..], k, x);
        assert FirstReadingAt(es, k + 1, x);
      }
    }
  }

  /** Chip `d` is where the fallback stops, with reading `x`: every earlier chip
      is not null and holds no reading in its sub-objects. */
  ghost predicate FoundAt(devs: seq<Json>, d: int, x: real) {
    0 <= d < |devs| && !devs[d].JNull? && ScanSubs(Values(devs[d])) == Some(x) &&
    forall j :: 0 <= j < d ==> !devs[j].JNull? && ScanSubs(Values(devs[j])).None?
  }

  /** What the middle loop finds is the first reading of some object-like value. */
  lemma {:induction false} ScanSubsSound(subs: seq<Json>, x: real)
    requires ScanSubs(subs) == Some(x)
    ensures exists k :: 0 <= k < |subs| && IsObjectLike(subs[k]) && ScanEntries(Entries(subs[k])) == Some(x)
    decreases |subs|
  {
    if IsObjectLike(subs[0]) && ScanEntries(Entries(subs[0])).Some? {
    } else {
      ScanSubsSound(subs[1..], x);
      var k :| 0 <= k < |subs[1..]| && IsObjectLike(subs[1..][k]) && ScanEntries(Entries(subs[1..][k])) == Some(x);
      assert subs[k + 1] == subs[1..][k];
    }
  }

  /** The fallback loop reports `x` exactly when some chip is where it stops
      with `x`. */
  lemma {:induction false} ScanDevicesFound(devs: seq<Json>, x: real)
    ensures ScanDevices(devs) == Found(x) <==> exists d :: FoundAt(devs, d, x)
    decreases |devs|
  {
    if |devs| == 0 || devs[0].JNull? {
      forall d | 0 <= d < |devs| ensures !FoundAt(devs, d, x) {
        assert devs[0].JNull?;
      }
    } else if ScanSubs(Values(devs[0])).Some? {
      if exists d :: FoundAt(devs, d, x) {
        var d :| FoundAt(devs, d, x);
        assert d == 0;
      }
      if ScanDevices(devs) == Found(x) {
        assert FoundAt(devs, 0, x);
      }
    } else {
      ScanDevicesFound(devs[1..], x);
      if exists d :: FoundAt(devs, d, x) {
        var d :| FoundAt(devs, d, x);
        assert FoundAt(devs[1..], d - 1, x);
      }
      if ScanDevices(devs) == Found(x) {
        var d :| FoundAt(devs[1..], d, x);
        assert FoundAt(devs, d + 1, x);
      }
    }
  }

  /** A reported temperature comes from one of three places, in this order of
      preference: the Raspberry Pi sensor, then the AMD sensor, then the first
      `temp<N>_input` number of the first chip that has one. */
  lemma TemperatureSource(doc: Json, x: real)
    requires Temperature(Some(doc)) == Some(x)
    ensures !doc.JNull?
    ensures KnownReading(doc, RaspberryChip, RaspberrySensor) == Some(x)
      || (KnownReading(doc, RaspberryChip, RaspberrySensor).None? && KnownReading(doc, AmdChip, AmdSensor) == Some(x))
      || (KnownReading(doc, RaspberryChip, RaspberrySensor).None? && KnownReading(doc, AmdChip, AmdSensor).None? &&
          exists d :: FoundAt(Values(doc), d, x))
  {
    if KnownReading(doc, RaspberryChip, RaspberrySensor).None? && KnownReading(doc, AmdChip, AmdSensor).None? {
      ScanDevicesFound(Values(doc), x);
    }
  }

  /** The fallback loop finishes without a temperature exactly when no chip is
      null and no sub-object of any chip holds a reading. */
  lemma {:induction false} ScanDevicesNotFound(devs: seq<Json>)
    ensures ScanDevices(devs) == NotFound <==>
      forall d :: 0 <= d < |devs| ==> !devs[d].JNull? && ScanSubs(Values(devs[d])).None?
    decreases |devs|
  {
    if |devs| > 0 && !devs[0].JNull? && ScanSubs(Values(devs[0])).None? {
      ScanDevicesNotFound(devs[1..]);
      assert forall d :: 1 <= d < |devs| ==> devs[d] == devs[1..][d - 1];
    }
  }
}
