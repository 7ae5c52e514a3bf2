/**
 * `getSystemType`: the hardware class read off the CPU description.  Each
 * case-insensitive regular expression of the source is a hand-written
 * predicate over the case-folded text; the four tests run in the source's
 * order and the first that matches decides.
 */
module Classifier {
  import opened Wrappers
  import opened JsText
  import opened Catalog
  import opened HostIO

  /** `.*w` from index `p`: `w` occurs at or after `p` with no line terminator
      before it. */
  predicate SameLineHas(t: string, p: nat, w: string)
    requires p <= |t|
    decreases |t| - p
  {
    ContainsAt(t, p, w) || (p < |t| && !IsLineTerminator(t[p]) && SameLineHas(t, p + 1, w))
  }

  /** `model name\s*:.*w` matching at index `i`.  The colon is not white space, so
      `\s*` can only stop where the run of white space ends. */
  predicate ModelNameAt(t: string, i: nat, w: string) {
    ContainsAt(t, i, "model name") &&
    var j := SpanEnd(t, i + 10, IsJsSpace);
    j < |t| && t[j] == ':' && SameLineHas(t, j + 1, w)
  }

  predicate ModelNameMarker(t: string, w: string) {
    exists i | 0 <= i <= |t| :: ModelNameAt(t, i, w)
  }

  /** `Hardware\s*:\s*BCM` matching at index `i`. */
  predicate HardwareBcmAt(t: string, i: nat) {
    ContainsAt(t, i, "hardware") &&
    var j := SpanEnd(t, i + 8, IsJsSpace);
    j < |t| && t[j] == ':' && ContainsAt(t, SpanEnd(t, j + 1, IsJsSpace), "bcm")
  }

  predicate HardwareBcm(t: string) {
    exists i | 0 <= i <= |t| :: HardwareBcmAt(t, i)
  }

  /** `/Raspberry Pi/i` on folded text. */
  predicate RaspberryMarker(t: string) {
    Contains(t, "raspberry pi")
  }

  /** `/ARMv|AArch|BCM|Cortex|Hardware\s*:\s*BCM/i` on folded text. */
  predicate ArmMarker(t: string) {
    Contains(t, "armv") || Contains(t, "aarch") || Contains(t, "bcm") || Contains(t, "cortex") || HardwareBcm(t)
  }

  /** `/GenuineIntel|AuthenticAMD|model name\s*:.*Intel|model name\s*:.*AMD/i` on folded text. */
  predicate X86Marker(t: string) {
    Contains(t, "genuineintel") || Contains(t, "authenticamd") ||
    ModelNameMarker(t, "intel") || ModelNameMarker(t, "amd")
  }

  /** `/QEMU|KVM|VirtualBox|VMware|Microsoft Hv|Xen/i` on folded text. */
  predicate VirtualMarker(t: string) {
    Contains(t, "qemu") || Contains(t, "kvm") || Contains(t, "virtualbox") ||
    Contains(t, "vmware") || Contains(t, "microsoft hv") || Contains(t, "xen")
  }

  /** The four tests of `getSystemType` on readable CPU text, first match wins. */
  function Classify(cpuinfo: string): Option<SystemClass>
  {
    var t := Lower(cpuinfo);
    if RaspberryMarker(t) then Some(RaspberryPi)
    else if ArmMarker(t) then Some(RaspberryPi)
    else if X86Marker(t) then Some(X86)
    else if VirtualMarker(t) then Some(Virtual)
    else None
  }

  /** `getSystemType()`: the CPU description is read from the path the catalog's
      common entry names; an exception inside the `try` (no common entry, no path,
      unreadable file) leaves the class undefined. */
  function GetSystemType(catalog: CommandCatalog, files: FileSystem): Option<SystemClass>
  {
    if catalog.common.Some? && catalog.common.value.cpuinfo.Some? then
      match ReadFile(files, catalog.common.value.cpuinfo.value)
      case None => None
      case Some(text) => Classify(text)
    else None
  }

  // ---------------------------------------------------------------- the patterns

  /** `w` at index `r`, with no line terminator from `p` up to `r`: what `.*w`
      means from `p`. */
  ghost predicate SameLineAt(t: string, p: int, r: int, w: string) {
    0 <= p <= r && ContainsAt(t, r, w) && forall k :: p <= k < r ==> !IsLineTerminator(t[k])
  }

  /** The regular expression's own reading of `model name\s*:.*w`: "model name" at
      `i`, white space up to a colon at `j`, then `w` on the same line at `r`. */
  ghost predicate ModelNameRegex(t: string, i: int, j: int, r: int, w: string) {
    ContainsAt(t, i, "model name") && i + 10 <= j && SameLineAt(t, j + 1, r, w) && t[j] == ':' &&
    forall k :: i + 10 <= k < j ==> IsJsSpace(t[k])
  }

  lemma {:induction false} SameLineHasIff(t: string, p: nat, w: string)
    requires p <= |t|
    ensures SameLineHas(t, p, w) <==> exists r :: SameLineAt(t, p, r, w)
    decreases |t| - p
  {
    if ContainsAt(t, p, w) {
      assert SameLineAt(t, p, p, w);
    } else if p < |t| {
      SameLineHasIff(t, p + 1, w);
      if SameLineHas(t, p, w) {
        var r :| SameLineAt(t, p + 1, r, w);
        assert SameLineAt(t, p, r, w);
      }
      if exists r :: SameLineAt(t, p, r, w) {
        var r :| SameLineAt(t, p, r, w);
        assert r != p;
        assert SameLineAt(t, p + 1, r, w);
      }
    } else {
      forall r ensures !SameLineAt(t, p, r, w) {
      }
    }
  }

  lemma ModelNameScanSound(t: string, w: string, i: nat)
    requires i <= |t| && ModelNameAt(t, i, w)
    ensures exists j, r :: ModelNameRegex(t, i, j, r, w)
  {
    var j := SpanEnd(t, i + 10, IsJsSpace);
    SameLineHasIff(t, j + 1, w);
    var r :| SameLineAt(t, j + 1, r, w);
    assert ModelNameRegex(t, i, j, r, w);
  }

  lemma ModelNameScanComplete(t: string, w: string, i: int, j: int, r: int)
    requires ModelNameRegex(t, i, j, r, w)
    ensures 0 <= i <= |t| && ModelNameAt(t, i, w)
  {
    assert !IsJsSpace(t[j]);
    SpanEndIs(t, i + 10, j, IsJsSpace);
    SameLineHasIff(t, j + 1, w);
  }

  /** The hand-written scan for `model name\s*:.*w` matches exactly where the
      regular expression does. */
  lemma ModelNameMarkerIsRegex(t: string, w: string)
    ensures ModelNameMarker(t, w) <==> exists i, j, r :: ModelNameRegex(t, i, j, r, w)
  {
    if ModelNameMarker(t, w) {
      var i :| 0 <= i <= |t| && ModelNameAt(t, i, w);
      ModelNameScanSound(t, w, i);
    }
    if exists i, j, r :: ModelNameRegex(t, i, j, r, w) {
      var i, j, r :| ModelNameRegex(t, i, j, r, w);
      ModelNameScanComplete(t, w, i, j, r);
    }
  }

  /** The last alternative of the ARM pattern never decides anything: text that
      matches `Hardware\s*:\s*BCM` already contains `BCM`. */
  lemma HardwareAlternativeRedundant(t: string)
    ensures ArmMarker(t) <==> Contains(t, "armv") || Contains(t, "aarch") || Contains(t, "bcm") || Contains(t, "cortex")
  {
    if HardwareBcm(t) {
      var i :| 0 <= i <= |t| && HardwareBcmAt(t, i);
      var j := SpanEnd(t, i + 8, IsJsSpace);
      var k := SpanEnd(t, j + 1, IsJsSpace);
      assert ContainsAt(t, k, "bcm");
    }
  }

  /** Folding is idempotent, so the tests already see text that is folded the same
      way whatever its case: `BCM`, `Bcm` and `bcm` classify alike. */
  lemma ClassifyIgnoresCase(a: string, b: string)
    requires |a| == |b|
    requires forall k :: 0 <= k < |a| ==> LowerChar(a[k]) == LowerChar(b[k])
    ensures Classify(a) == Classify(b)
  {
    assert Lower(a) == Lower(b);
  }

  /** Any of the ARM tokens, or "Raspberry Pi", in any case and anywhere in the
      text makes the host a Raspberry Pi, whatever else the text holds. */
  lemma ClassifyArmToken(t: string, i: nat, w: string)
    requires w in ["raspberry pi", "armv", "aarch", "bcm", "cortex"]
    requires i + |w| <= |t| && Lower(t)[i..i + |w|] == w
    ensures Classify(t) == Some(RaspberryPi)
  {
    ContainsWitness(Lower(t), i, w);
  }

  // ---------------------------------------------------------------- examples

  lemma ContainsWitness(t: string, i: nat, w: string)
    requires i + |w| <= |t| && t[i..i + |w|] == w
    ensures Contains(t, w)
  {
    assert ContainsAt(t, i, w);
  }

  /** A test that no index can pass: `w` starts with a character absent from `t`. */
  lemma NotContains(t: string, w: string)
    requires |w| > 0 && forall k :: 0 <= k < |t| ==> t[k] != w[0]
    ensures !Contains(t, w)
  {
    forall i | 0 <= i <= |t| - |w| ensures !ContainsAt(t, i, w) {
      assert t[i..i + |w|][0] == t[i];
    }
  }

  lemma ClassifyBcm2711()
    ensures Classify("BCM2711") == Some(RaspberryPi)
  {
    ContainsWitness(Lower("BCM2711"), 0, "bcm");
  }

  lemma ClassifyGenuineIntel()
    ensures Classify("GenuineIntel") == Some(X86)
  {
    var t := Lower("GenuineIntel");
    assert t == "genuineintel";
    NotContains(t, "raspberry pi");
    NotContains(t, "armv");
    NotContains(t, "aarch");
    NotContains(t, "bcm");
    NotContains(t, "cortex");
    NotContains(t, "hardware");
    ContainsWitness(t, 0, "genuineintel");
  }

  lemma ClassifyQemu()
    ensures Classify("QEMU") == Some(Virtual)
  {
    var t := Lower("QEMU");
    assert t == "qemu";
    NotContains(t, "armv");
    NotContains(t, "aarch");
    NotContains(t, "bcm");
    NotContains(t, "cortex");
    ContainsWitness(t, 0, "qemu");
  }

  /** A hypervisor marker loses to a vendor marker that comes earlier in the order. */
  lemma ClassifyVendorBeforeHypervisor()
    ensures Classify("GenuineIntel KVM") == Some(X86)
  {
    var t := Lower("GenuineIntel KVM");
    assert t == "genuineintel kvm";
    IntelKvmNotArm();
    ContainsWitness(t, 0, "genuineintel");
  }

  lemma IntelKvmNotArm()
    ensures !RaspberryMarker("genuineintel kvm") && !ArmMarker("genuineintel kvm")
  {
    var t := "genuineintel kvm";
    NotContains(t, "raspberry pi");
    NotContains(t, "armv");
    NotContains(t, "aarch");
    NotContains(t, "bcm");
    NotContains(t, "cortex");
    NotContains(t, "hardware");
  }

  lemma ClassifyEmpty()
    ensures Classify("") == None
  {
  }
}
