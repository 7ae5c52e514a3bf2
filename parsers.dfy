/**
 * The parsers that turn the text an external command prints into one metric:
 * `df` output into disk usage, `du` output into a used size, a count, a
 * timestamp, the load averages and the `free` report.  Each is total: output
 * of the wrong shape gives the fallback value the collector uses, never an
 * exception.
 */
module Parsers {
  import opened Wrappers
  import opened JsText

  /** `{ total, used, usePercent }` of a disk, in whole gigabytes and percent. */
  datatype DiskUsage = DiskUsage(total: int, used: int, usePercent: int)

  /** `{ total, used, usedPercent }` of the memory, in whole gigabytes and percent. */
  datatype MemoryUsage = MemoryUsage(total: int, used: int, usedPercent: int)

  /** An `AgeFile` value: whole seconds, or an infinity when the timestamp read was one. */
  datatype Age = AgeSeconds(seconds: int) | AgeInfinite(positive: bool)

  /** `load1`, `load5`, `load15`; `None` is null. */
  datatype Loads = Loads(load1: Option<JsNumber>, load5: Option<JsNumber>, load15: Option<JsNumber>)

  const DeviceMarker := "/dev/"
  const MemMarker := "Mem:"

  predicate HasDevice(line: string) {
    Contains(line, DeviceMarker)
  }

  predicate IsMemLine(line: string) {
    StartsWith(line, MemMarker)
  }

  // ---------------------------------------------------------------- fields

  /** `parts[i]`, with `None` for the `undefined` past the end. */
  function Field(parts: seq<string>, i: nat): Option<string>
  {
    if i < |parts| then Some(parts[i]) else None
  }

  /** `parseInt(x, 10)` of a field that may be undefined (`parseInt(undefined)` is NaN). */
  function ParseIntField(f: Option<string>): Option<int>
  {
    if f.Some? then ParseInt(f.value) else None
  }

  /** `Math.round((parseInt(x, 10) * 1024 || 0) / (1024 * 1024 * 1024))`: a
      count of 1024-byte blocks in whole gigabytes, NaN counting as 0. */
  function BlocksToGB(f: Option<string>): int
  {
    RoundGB(OrZero(ParseIntField(f)))
  }

  /** `parseInt((x || '').replace('%', ''), 10) || 0`. */
  function PercentField(f: Option<string>): int
  {
    var text := if f.Some? then f.value else "";
    OrZero(ParseInt(ReplaceFirst(text, "%", "")))
  }

  // ---------------------------------------------------------------- df and du

  /** `raw.trim().split('\n').find(l => l.includes('/dev/')) || ''`. */
  function DeviceLine(raw: string): (line: string)
    ensures line == "" || HasDevice(line)
  {
    var lines := SplitLines(Trim(raw));
    match FindIndex(lines, HasDevice)
    case None => ""
    case Some(k) => lines[k]
  }

  /** The system disk from `df` output: the second, third and fifth field of
      the device line as total, used and percentage. */
  function SystemDisk(raw: string): DiskUsage
  {
    var parts := SplitWs(DeviceLine(raw));
    DiskUsage(BlocksToGB(Field(parts, 1)), BlocksToGB(Field(parts, 2)), PercentField(Field(parts, 4)))
  }

  /** A data disk's percentage from `df` output: null unless the device line
      has more than four fields. */
  function DfUsePercent(raw: string): Option<int>
  {
    var parts := SplitWs(DeviceLine(raw));
    if |parts| > 4 then Some(PercentField(Field(parts, 4))) else None
  }

  /** A data disk's used size from `du` output: `/^(\d+)\s+/` on the trimmed
      text, which matches only the whole leading run of digits and only when
      white space follows it; no match is 0. */
  function DuUsed(raw: string): int
  {
    var t := Trim(raw);
    var n := SpanEnd(t, 0, IsDigit);
    if 0 < n < |t| && IsJsSpace(t[n]) then RoundGB(OrZero(ParseInt(t[..n]))) else 0
  }

  // ---------------------------------------------------------------- counts and times

  /** `parseInt(raw.trim(), 10)`: the file count (with `|| 0`), the uptime and the battery level. */
  function TrimmedInt(raw: string): Option<int>
  {
    ParseInt(Trim(raw))
  }

  /** `parseInt(raw.trim(), 10) || 0`. */
  function FileCount(raw: string): int
  {
    OrZero(TrimmedInt(raw))
  }

  /** `raw.split(' ')[0]`: the text before the first space. */
  function FirstToken(raw: string): (r: string)
    ensures |r| <= |raw| && r == raw[..|r|]
    ensures |r| < |raw| ==> raw[|r|] == ' '
    ensures ' ' !in r
  {
    match FirstOccurrence(raw, " ")
    case None =>
      assert forall k :: 0 <= k < |raw| ==> raw[k] != ' ' by {
        forall k | 0 <= k < |raw| ensures raw[k] != ' ' {
          assert !ContainsAt(raw, k, " ");
          assert raw[k..k + 1] == [raw[k]];
        }
      }
      assert raw[..|raw|] == raw;
      raw
    case Some(i) =>
      assert raw[i..i + 1] == " ";
      assert forall k :: 0 <= k < i ==> raw[k] != ' ' by {
        forall k | 0 <= k < i ensures raw[k] != ' ' {
          assert !ContainsAt(raw, k, " ");
          assert raw[k..k + 1] == [raw[k]];
        }
      }
      raw[..i]
  }

  /** The newest file's age: empty output is null, and so is a first token
      `parseFloat` reads as NaN; otherwise `Math.round(now / 1000 - ts)`. */
  function FileAge(raw: string, nowMs: int): Option<Age>
  {
    if raw == "" then None else AgeAt(ParseFloat(FirstToken(raw)), nowMs)
  }

  /** `Math.round(Date.now() / 1000 - ts)` for a timestamp that is not NaN. */
  function AgeAt(ts: JsNumber, nowMs: int): Option<Age>
  {
    match ts
    case NaN => None
    case Finite(v) => Some(AgeSeconds(RoundReal(nowMs as real / 1000.0 - v)))
    case Infinite(negative) => Some(AgeInfinite(negative))
  }

  // ---------------------------------------------------------------- load

  /** The class `[0-9.]`. */
  predicate IsLoadChar(c: char) {
    IsDigit(c) || c == '.'
  }

  /** The groups of `/([0-9.]+)\s+([0-9.]+)\s+([0-9.]+)/` for a match that
      starts at `p`: each run as long as it goes. */
  function LoadShapeAt(s: string, p: nat): Option<(string, string, string)>
    requires p <= |s|
  {
    var a := SpanEnd(s, p, IsLoadChar);
    var b := SpanEnd(s, a, IsJsSpace);
    var c := SpanEnd(s, b, IsLoadChar);
    var d := SpanEnd(s, c, IsJsSpace);
    var e := SpanEnd(s, d, IsLoadChar);
    if p < a && a < b && b < c && c < d && d < e then Some((s[p..a], s[b..c], s[d..e])) else None
  }

  /** The first position from `p` on where the pattern matches. */
  function LoadMatchFrom(s: string, p: nat): (r: Option<nat>)
    requires p <= |s|
    ensures r.Some? ==> p <= r.value <= |s| && LoadShapeAt(s, r.value).Some?
    ensures r.Some? ==> forall q :: p <= q < r.value ==> LoadShapeAt(s, q).None?
    ensures r.None? ==> forall q :: p <= q <= |s| ==> LoadShapeAt(s, q).None?
    decreases |s| - p
  {
    if LoadShapeAt(s, p).Some? then Some(p)
    else if p == |s| then None
    else LoadMatchFrom(s, p + 1)
  }

  /** `loadRaw.match(...)`: the groups of the leftmost match. */
  function LoadAverages(raw: string): Loads
  {
    match LoadMatchFrom(raw, 0)
    case None => Loads(None, None, None)
    case Some(p) =>
      var g := LoadShapeAt(raw, p).value;
      Loads(Some(ParseFloat(g.0)), Some(ParseFloat(g.1)), Some(ParseFloat(g.2)))
  }

  // ---------------------------------------------------------------- memory

  /** The `free` report: the second and third field of the first line that
      starts with `Mem:`, in whole gigabytes, and the used share of the rounded
      values, 0 when the total rounds to 0. */
  function Memory(raw: string): MemoryUsage
  {
    var lines := SplitLines(Trim(raw));
    var parts := match FindIndex(lines, IsMemLine) case None => [] case Some(k) => SplitWs(lines[k]);
    var total := BlocksToGB(Field(parts, 1));
    var used := BlocksToGB(Field(parts, 2));
    MemoryUsage(total, used, if total != 0 then RoundQuotient(100 * used, total) else 0)
  }

  // ================================================================ properties

  /** A non-negative integer's text is a trimmed field. */
  lemma NatTextIsField(n: nat)
    ensures NoSpace(NatToString(n)) && NatToString(n) != "" && IsTrimmed(NatToString(n))
  {
    DigitsNoSpace(NatToString(n));
  }

  /** Reading a field that is the text of a natural number. */
  lemma ParseNatField(n: nat)
    ensures ParseIntField(Some(NatToString(n))) == Some(n)
  {
    ParseIntOfString(n, "");
    assert NatToString(n) + "" == NatToString(n);
  }

  /** A percentage field `P%` reads as `P`. */
  lemma PercentOfText(p: nat)
    ensures PercentField(Some(NatToString(p) + "%")) == p
  {
    var a := NatToString(p);
    DigitsExclude(a + "", "%");
    ReplaceFirstPlain(a + "%", "%", "", a, "");
    assert a + "" + "" == a;
    ParseNatField(p);
  }

  /** The fields of a `df` device line. */
  function DfFields(dev: string, total: nat, used: nat, avail: nat, percent: nat, mount: string): seq<string>
  {
    [dev, NatToString(total), NatToString(used), NatToString(avail), NatToString(percent) + "%", mount]
  }

  /** A device line, its columns padded with any runs of blanks, splits back
      into its fields. */
  lemma DfFieldsSplit(dev: string, total: nat, used: nat, avail: nat, percent: nat, mount: string, gaps: seq<string>)
    requires NoSpace(dev) && NoSpace(mount) && mount != ""
    requires |gaps| == 5 && forall k :: 0 <= k < 5 ==> IsGap(gaps[k])
    ensures var fs := DfFields(dev, total, used, avail, percent, mount);
      SplitWs(JoinAligned(fs, gaps)) == fs && '\n' !in JoinAligned(fs, gaps)
  {
    var fs := DfFields(dev, total, used, avail, percent, mount);
    NatTextIsField(total);
    NatTextIsField(used);
    NatTextIsField(avail);
    NatTextIsField(percent);
    var pc := NatToString(percent) + "%";
    assert NoSpace(pc) by {
      forall k | 0 <= k < |pc| ensures !IsJsSpace(pc[k]) {
        if k < |pc| - 1 {
          assert pc[k] == NatToString(percent)[k];
        }
      }
    }
    SplitWsJoin(fs, gaps);
    JoinAlignedNoLineFeed(fs, gaps);
  }

  /** Of a header line without the marker and a device line, both ending the
      text with a line feed, the device line is the one found. */
  lemma DeviceLineOf(header: string, line: string)
    requires header != "" && !IsJsSpace(header[0]) && '\n' !in header && !HasDevice(header)
    requires line != "" && !IsJsSpace(line[|line| - 1]) && '\n' !in line && HasDevice(line)
    ensures DeviceLine(header + "\n" + line + "\n") == line
  {
    var raw := header + "\n" + line + "\n";
    var body := header + "\n" + line;
    assert body[|body| - 1] == line[|line| - 1];
    assert IsTrimmed(body);
    TrimDropsTrailing(body, "\n");
    assert raw == body + "\n";
    SplitLinesCons(header, line);
    SplitLinesSingle(line);
    var lines := SplitLines(Trim(raw));
    assert lines == [header, line];
    var r := FindIndex(lines, HasDevice);
    assert HasDevice(lines[1]) && !HasDevice(lines[0]);
    assert r.Some? && r.value == 1;
  }

  /** `df` output of a header line and one device line reads as the device's
      total and used size in gigabytes and its percentage, unclamped, for the
      system disk and for a data disk alike. */
  lemma DfOutputRead(header: string, dev: string, total: nat, used: nat, avail: nat, percent: nat, mount: string,
                      gaps: seq<string>)
    requires header != "" && !IsJsSpace(header[0]) && '\n' !in header && !HasDevice(header)
    requires NoSpace(dev) && HasDevice(dev)
    requires NoSpace(mount) && mount != ""
    requires |gaps| == 5 && forall k :: 0 <= k < 5 ==> IsGap(gaps[k])
    ensures var raw := header + "\n" + JoinAligned(DfFields(dev, total, used, avail, percent, mount), gaps) + "\n";
      SystemDisk(raw) == DiskUsage(RoundGB(total), RoundGB(used), percent) &&
      DfUsePercent(raw) == Some(percent)
  {
    var fs := DfFields(dev, total, used, avail, percent, mount);
    var line := JoinAligned(fs, gaps);
    var raw := header + "\n" + line + "\n";
    DfFieldsSplit(dev, total, used, avail, percent, mount, gaps);
    JoinAlignedHead(fs, gaps);
    JoinAlignedLast(fs, gaps);
    ContainsInside(line, 0, |dev|, DeviceMarker) by {
      assert line[0..|dev|] == dev;
    }
    DeviceLineOf(header, line);
    var parts := SplitWs(DeviceLine(raw));
    assert parts == fs;
    assert Field(parts, 1) == Some(NatToString(total));
    assert Field(parts, 2) == Some(NatToString(used));
    assert Field(parts, 4) == Some(NatToString(percent) + "%");
    ParseNatField(total);
    ParseNatField(used);
    PercentOfText(percent);
  }

  /** Output without a device line gives zero disk usage and no percentage. */
  lemma NoDeviceLine(raw: string)
    requires !Contains(raw, DeviceMarker)
    ensures SystemDisk(raw) == DiskUsage(0, 0, 0)
    ensures DfUsePercent(raw) == None
  {
    var lines := SplitLines(Trim(raw));
    forall k | 0 <= k < |lines| ensures !HasDevice(lines[k]) {
      if HasDevice(lines[k]) {
        ContainsInLines(Trim(raw), k, DeviceMarker);
        ContainsInTrim(raw, DeviceMarker);
      }
    }
    assert DeviceLine(raw) == "";
    SplitWsEmpty();
    assert ReplaceFirst("", "%", "") == "";
  }

  /** `du` output: a block count, white space and the path reads as the count
      in gigabytes. */
  lemma DuOutputRead(n: nat, w: string, path: string, tail: string)
    requires |w| > 0 && forall k :: 0 <= k < |w| ==> IsJsSpace(w[k])
    requires path != "" && IsTrimmed(path)
    requires forall k :: 0 <= k < |tail| ==> IsJsSpace(tail[k])
    ensures DuUsed(NatToString(n) + w + path + tail) == RoundGB(n)
  {
    DuLineTrimmed(n, w, path, tail);
    DuLineCount(n, w, path);
    ParseNatField(n);
  }

  /** The trailing white space of a `du` line is trimmed away. */
  lemma DuLineTrimmed(n: nat, w: string, path: string, tail: string)
    requires |w| > 0
    requires path != "" && IsTrimmed(path)
    requires forall k :: 0 <= k < |tail| ==> IsJsSpace(tail[k])
    ensures Trim(NatToString(n) + w + path + tail) == NatToString(n) + w + path
  {
    var ds := NatToString(n);
    var t := ds + w + path;
    assert t[0] == ds[0];
    assert t[|t| - 1] == path[|path| - 1];
    NatTextIsField(n);
    TrimDropsTrailing(t, tail);
    assert ds + w + path + tail == t + tail;
  }

  /** The leading digits of a `du` line are the block count, and a blank follows them. */
  lemma DuLineCount(n: nat, w: string, path: string)
    requires |w| > 0 && forall k :: 0 <= k < |w| ==> IsJsSpace(w[k])
    ensures var ds := NatToString(n); var t := ds + w + path;
      SpanEnd(t, 0, IsDigit) == |ds| && |ds| < |t| && IsJsSpace(t[|ds|]) && t[..|ds|] == ds
  {
    var ds := NatToString(n);
    var t := ds + w + path;
    assert t[|ds|] == w[0];
    SpanEndIs(t, 0, |ds|, IsDigit);
    assert t[..|ds|] == ds;
  }

  /** A bare block count with nothing after it does not match `^(\d+)\s+` once
      trimmed, so it reads as 0. */
  lemma DuBareCount(n: nat, tail: string)
    requires forall k :: 0 <= k < |tail| ==> IsJsSpace(tail[k])
    ensures DuUsed(NatToString(n) + tail) == 0
  {
    NatTextIsField(n);
    TrimDropsTrailing(NatToString(n), tail);
  }

  /** An integer followed by white space (a line feed, say) reads back as that
      integer: the file count, the uptime and the battery level. */
  lemma TrimmedIntRead(n: int, tail: string)
    requires forall k :: 0 <= k < |tail| ==> IsJsSpace(tail[k])
    ensures TrimmedInt(IntToString(n) + tail) == Some(n)
    ensures FileCount(IntToString(n) + tail) == n
  {
    var s := IntToString(n);
    IntTextTrimmed(n);
    TrimDropsTrailing(s, tail);
    assert Trim(s + tail) == s;
    ParseIntOfString(n, "");
    assert s + "" == s;
  }

  /** An integer's text is trimmed. */
  lemma IntTextTrimmed(n: int)
    ensures IsTrimmed(IntToString(n))
  {
    var ds := NatToString(if n < 0 then -n else n);
    var s := IntToString(n);
    if n < 0 {
      assert s == "-" + ds;
    } else {
      assert s == ds;
    }
    assert s[|s| - 1] == ds[|ds| - 1];
  }

  /** Output that is all white space has no number: the uptime and the battery
      level are NaN and the file count is 0. */
  lemma TrimmedIntBlank(raw: string)
    requires forall k :: 0 <= k < |raw| ==> IsJsSpace(raw[k])
    ensures TrimmedInt(raw) == None && FileCount(raw) == 0
  {
    TrimDropsTrailing("", raw);
    assert "" + raw == raw;
  }

  /** The first token is everything before the first space. */
  lemma FirstTokenOf(tok: string, rest: string)
    requires ' ' !in tok
    ensures FirstToken(tok + " " + rest) == tok
  {
    var raw := tok + " " + rest;
    forall j | 0 <= j < |tok| ensures !ContainsAt(raw, j, " ") {
      assert raw[j..j + 1] == [tok[j]];
    }
    assert ContainsAt(raw, |tok|, " ") by { assert raw[|tok|..|tok| + 1] == " "; }
    assert FirstOccurrence(raw, " ") == Some(|tok|);
    assert raw[..|tok|] == tok;
  }

  /** The age is computed from the first token alone, whatever follows the space. */
  lemma FileAgeOfToken(tok: string, rest: string, nowMs: int)
    requires ' ' !in tok
    ensures FileAge(tok + " " + rest, nowMs) == AgeAt(ParseFloat(tok), nowMs)
  {
    FirstTokenOf(tok, rest);
  }

  /** A decimal text has no space in it. */
  lemma DecimalTextNoSpace(ip: string, fp: string)
    requires AllDigits(ip) && AllDigits(fp)
    ensures ' ' !in ip + "." + fp
  {
    var tok := ip + "." + fp;
    forall k | 0 <= k < |tok| ensures tok[k] != ' ' {
      if k < |ip| {
        assert tok[k] == ip[k];
      } else if k > |ip| {
        assert tok[k] == fp[k - |ip| - 1];
      }
    }
  }

  /** A `%T@`-style timestamp `ip.fp` before the first space gives the age in
      whole seconds, halves rounded up. */
  lemma FileAgeRead(ip: string, fp: string, rest: string, nowMs: int)
    requires |ip| > 0 && AllDigits(ip) && AllDigits(fp)
    ensures FileAge(ip + "." + fp + " " + rest, nowMs) == AgeAt(Finite(DecimalValue(ip, fp)), nowMs)
  {
    DecimalTextNoSpace(ip, fp);
    DecimalLoadRun(ip, fp);
    FileAgeOfToken(ip + "." + fp, rest, nowMs);
  }

  /** A whole-second timestamp `k` seconds before the clock gives `k`. */
  lemma FileAgeWholeSeconds(ts: nat, k: int, rest: string, nowMs: int)
    requires nowMs == 1000 * (ts + k)
    ensures FileAge(NatToString(ts) + " " + rest, nowMs) == Some(AgeSeconds(k))
  {
    ParseFloatOfNat(ts, "");
    assert NatToString(ts) + "" == NatToString(ts);
    NatTextNoBlank(ts);
    FileAgeOfToken(NatToString(ts), rest, nowMs);
    SecondsBetween(ts, k, nowMs);
  }

  lemma NatTextNoBlank(n: nat)
    ensures ' ' !in NatToString(n)
  {
    var t := NatToString(n);
    forall j | 0 <= j < |t| ensures t[j] != ' ' {
      assert IsDigit(t[j]);
    }
  }

  lemma SecondsBetween(ts: nat, k: int, nowMs: int)
    requires nowMs == 1000 * (ts + k)
    ensures AgeAt(Finite(ts as real), nowMs) == Some(AgeSeconds(k))
  {
    assert nowMs as real / 1000.0 - ts as real == k as real;
  }

  // ---- load

  /** `s[i..j]` is a non-empty run of characters satisfying `p`. */
  ghost predicate Run(s: string, i: int, j: int, p: char -> bool) {
    0 <= i < j <= |s| && forall k :: i <= k < j ==> p(s[k])
  }

  /** The load pattern matches `s[p..e]`, its pieces split at `a`, `b`, `c` and `d`. */
  ghost predicate LoadRegexAt(s: string, p: int, a: int, b: int, c: int, d: int, e: int) {
    Run(s, p, a, IsLoadChar) && Run(s, a, b, IsJsSpace) && Run(s, b, c, IsLoadChar) &&
    Run(s, c, d, IsJsSpace) && Run(s, d, e, IsLoadChar)
  }

  /** Any way the pattern can match at `p` has the first two groups the scan
      reports, and a third group no longer than the one it reports, which is
      the one greedy matching picks. */
  lemma LoadRegexComplete(s: string, p: nat, a: int, b: int, c: int, d: int, e: int)
    requires LoadRegexAt(s, p, a, b, c, d, e)
    ensures var r := LoadShapeAt(s, p);
      r.Some? && r.value.0 == s[p..a] && r.value.1 == s[b..c] &&
      e - d <= |r.value.2| && r.value.2[..e - d] == s[d..e]
  {
    LoadRegexSpans(s, p, a, b, c, d, e);
    var e' := SpanEnd(s, d, IsLoadChar);
    assert s[d..e'][..e - d] == s[d..e];
  }

  /** The scan's runs end where the match's pieces end, the last one no
      earlier. */
  lemma LoadRegexSpans(s: string, p: nat, a: int, b: int, c: int, d: int, e: int)
    requires LoadRegexAt(s, p, a, b, c, d, e)
    ensures SpanEnd(s, p, IsLoadChar) == a && SpanEnd(s, a, IsJsSpace) == b
    ensures SpanEnd(s, b, IsLoadChar) == c && SpanEnd(s, c, IsJsSpace) == d
    ensures e <= SpanEnd(s, d, IsLoadChar)
  {
    assert !IsLoadChar(s[a]) && !IsJsSpace(s[b]) && !IsLoadChar(s[c]) && !IsJsSpace(s[d]);
    SpanEndIs(s, p, a, IsLoadChar);
    SpanEndIs(s, a, b, IsJsSpace);
    SpanEndIs(s, b, c, IsLoadChar);
    SpanEndIs(s, c, d, IsJsSpace);
    SpanEndCovers(s, d, e, IsLoadChar);
  }

  /** What the scan reports at `p` is a match of the pattern there whose last
      group cannot be extended. */
  lemma LoadShapeSound(s: string, p: nat)
    requires p <= |s| && LoadShapeAt(s, p).Some?
    ensures exists a, b, c, d, e :: (LoadRegexAt(s, p, a, b, c, d, e) &&
      LoadShapeAt(s, p).value == (s[p..a], s[b..c], s[d..e]) && (e == |s| || !IsLoadChar(s[e])))
  {
    var a := SpanEnd(s, p, IsLoadChar);
    var b := SpanEnd(s, a, IsJsSpace);
    var c := SpanEnd(s, b, IsLoadChar);
    var d := SpanEnd(s, c, IsJsSpace);
    var e := SpanEnd(s, d, IsLoadChar);
    assert LoadRegexAt(s, p, a, b, c, d, e);
  }

  /** The reported match is the leftmost one: no match of the pattern starts
      earlier, and there is a match whenever the pattern matches anywhere. */
  lemma LoadMatchLeftmost(s: string, q: nat, a: int, b: int, c: int, d: int, e: int)
    requires LoadRegexAt(s, q, a, b, c, d, e)
    ensures LoadMatchFrom(s, 0).Some? && LoadMatchFrom(s, 0).value <= q
  {
    LoadRegexComplete(s, q, a, b, c, d, e);
  }

  /** The pattern needs a `[0-9.]` run, white space and another run.  Text in
      which every run followed by blanks is followed, after them, by anything
      but a digit or a dot (`up 5 days`, `1 user`, `load average: 0.52, 0.58`)
      gives no load values. */
  lemma LoadNeedsSeparatedRuns(s: string)
    requires forall k :: 0 <= k < |s| - 1 && IsLoadChar(s[k]) && IsJsSpace(s[k + 1]) ==>
      var j := SpanEnd(s, k + 1, IsJsSpace); j == |s| || !IsLoadChar(s[j])
    ensures LoadAverages(s) == Loads(None, None, None)
  {
    forall q | 0 <= q <= |s| ensures LoadShapeAt(s, q).None? {
      var a := SpanEnd(s, q, IsLoadChar);
      var b := SpanEnd(s, a, IsJsSpace);
      if q < a < b {
        assert IsLoadChar(s[a - 1]) && IsJsSpace(s[a]);
        assert SpanEnd(s, a, IsJsSpace) == b;
        SpanEndIs(s, b, b, IsLoadChar);
      }
    }
  }

  /** Output that starts with three `[0-9.]` runs separated by single spaces,
      as `/proc/loadavg` does, gives those three runs read as decimals. */
  lemma LoadLeadingFields(x: string, y: string, z: string, rest: string)
    requires |x| > 0 && |y| > 0 && |z| > 0
    requires forall k :: 0 <= k < |x| ==> IsLoadChar(x[k])
    requires forall k :: 0 <= k < |y| ==> IsLoadChar(y[k])
    requires forall k :: 0 <= k < |z| ==> IsLoadChar(z[k])
    requires rest == [] || !IsLoadChar(rest[0])
    ensures LoadAverages(x + " " + y + " " + z + rest) ==
      Loads(Some(ParseFloat(x)), Some(ParseFloat(y)), Some(ParseFloat(z)))
  {
    var s := x + " " + y + " " + z + rest;
    SpacedRuns(s, x, y, z, rest);
    SpacedRunsShape(s, x, y, z, |x|, |x| + 1, |x| + 1 + |y|, |x| + 2 + |y|, |x| + 2 + |y| + |z|);
    LoadAtStart(s, x, y, z);
  }

  lemma SpacedRunsShape(s: string, x: string, y: string, z: string, a: int, b: int, c: int, d: int, e: int)
    requires LoadRegexAt(s, 0, a, b, c, d, e) && s[0..a] == x && s[b..c] == y && s[d..e] == z
    requires e == |s| || !IsLoadChar(s[e])
    ensures LoadShapeAt(s, 0) == Some((x, y, z))
  {
    assert !IsLoadChar(s[a]) && !IsJsSpace(s[b]) && !IsLoadChar(s[c]) && !IsJsSpace(s[d]);
    SpanEndIs(s, 0, a, IsLoadChar);
    SpanEndIs(s, a, b, IsJsSpace);
    SpanEndIs(s, b, c, IsLoadChar);
    SpanEndIs(s, c, d, IsJsSpace);
    SpanEndIs(s, d, e, IsLoadChar);
  }

  /** The pieces of three space-separated runs followed by a non-run. */
  lemma SpacedRuns(s: string, x: string, y: string, z: string, rest: string)
    requires |x| > 0 && |y| > 0 && |z| > 0
    requires forall k :: 0 <= k < |x| ==> IsLoadChar(x[k])
    requires forall k :: 0 <= k < |y| ==> IsLoadChar(y[k])
    requires forall k :: 0 <= k < |z| ==> IsLoadChar(z[k])
    requires rest == [] || !IsLoadChar(rest[0])
    requires s == x + " " + y + " " + z + rest
    ensures var a, b, c, d, e := |x|, |x| + 1, |x| + 1 + |y|, |x| + 2 + |y|, |x| + 2 + |y| + |z|;
      LoadRegexAt(s, 0, a, b, c, d, e) && s[0..a] == x && s[b..c] == y && s[d..e] == z &&
      (e == |s| || !IsLoadChar(s[e]))
  {
    var a, b, c, d, e := |x|, |x| + 1, |x| + 1 + |y|, |x| + 2 + |y|, |x| + 2 + |y| + |z|;
    assert s[0..a] == x && s[b..c] == y && s[d..e] == z;
    assert s[a] == ' ' && s[c] == ' ';
    if e < |s| {
      assert s[e] == rest[0];
    }
  }

  lemma LoadAtStart(s: string, x: string, y: string, z: string)
    requires LoadShapeAt(s, 0) == Some((x, y, z))
    ensures LoadAverages(s) == Loads(Some(ParseFloat(x)), Some(ParseFloat(y)), Some(ParseFloat(z)))
  {
    assert LoadMatchFrom(s, 0) == Some(0);
  }

  /** With decimal fields `ip.fp` the three loads are their exact values. */
  lemma LoadDecimalFields(i1: string, f1: string, i2: string, f2: string, i3: string, f3: string, rest: string)
    requires |i1| > 0 && AllDigits(i1) && AllDigits(f1)
    requires |i2| > 0 && AllDigits(i2) && AllDigits(f2)
    requires |i3| > 0 && AllDigits(i3) && AllDigits(f3)
    requires rest == [] || !IsLoadChar(rest[0])
    ensures LoadAverages((i1 + "." + f1) + " " + (i2 + "." + f2) + " " + (i3 + "." + f3) + rest) ==
      Loads(Some(Finite(DecimalValue(i1, f1))), Some(Finite(DecimalValue(i2, f2))), Some(Finite(DecimalValue(i3, f3))))
  {
    DecimalLoadRun(i1, f1);
    DecimalLoadRun(i2, f2);
    DecimalLoadRun(i3, f3);
    LoadLeadingFields(i1 + "." + f1, i2 + "." + f2, i3 + "." + f3, rest);
  }

  lemma DecimalLoadRun(ip: string, fp: string)
    requires |ip| > 0 && AllDigits(ip) && AllDigits(fp)
    ensures var t := ip + "." + fp; forall k :: 0 <= k < |t| ==> IsLoadChar(t[k])
    ensures ParseFloat(ip + "." + fp) == Finite(DecimalValue(ip, fp))
  {
    var t := ip + "." + fp;
    forall k | 0 <= k < |t| ensures IsLoadChar(t[k]) {
      if k < |ip| {
        assert t[k] == ip[k];
      } else if k > |ip| {
        assert t[k] == fp[k - |ip| - 1];
      }
    }
    ParseFloatDecimal(ip, fp, "");
    assert ip + "." + fp + "" == t;
  }

  // ---- memory

  /** The line `Mem: T U ...`, `T` and `U` runs of digits, every later field
      non-empty and without white space. */
  function MemFields(total: string, used: string, more: seq<string>): seq<string>
  {
    [MemMarker, total, used] + more
  }

  /** The first `Mem:` line of the report determines the memory figures: its
      totals in gigabytes and the used share of the rounded values. */
  lemma MemoryRead(raw: string, k: nat, total: string, used: string, more: seq<string>, gaps: seq<string>)
    requires |total| > 0 && AllDigits(total) && |used| > 0 && AllDigits(used)
    requires forall j :: 0 <= j < |more| ==> NoSpace(more[j]) && more[j] != ""
    requires |gaps| == |more| + 2 && forall j :: 0 <= j < |gaps| ==> IsGap(gaps[j])
    requires var lines := SplitLines(Trim(raw));
      k < |lines| && lines[k] == JoinAligned(MemFields(total, used, more), gaps) &&
      forall j :: 0 <= j < k ==> !IsMemLine(lines[j])
    ensures var t := RoundGB(DigitsValue(total)); var u := RoundGB(DigitsValue(used));
      Memory(raw) == MemoryUsage(t, u, if t != 0 then RoundQuotient(100 * u, t) else 0)
  {
    MemLineFields(SplitLines(Trim(raw)), k, total, used, more, gaps);
    MemFieldValues(total, used, more);
  }

  /** The first `Mem:` line is found and split back into its fields. */
  lemma MemLineFields(lines: seq<string>, k: nat, total: string, used: string, more: seq<string>, gaps: seq<string>)
    requires |total| > 0 && AllDigits(total) && |used| > 0 && AllDigits(used)
    requires forall j :: 0 <= j < |more| ==> NoSpace(more[j]) && more[j] != ""
    requires |gaps| == |more| + 2 && forall j :: 0 <= j < |gaps| ==> IsGap(gaps[j])
    requires k < |lines| && lines[k] == JoinAligned(MemFields(total, used, more), gaps)
    requires forall j :: 0 <= j < k ==> !IsMemLine(lines[j])
    ensures FindIndex(lines, IsMemLine) == Some(k) && SplitWs(lines[k]) == MemFields(total, used, more)
  {
    var fs := MemFields(total, used, more);
    assert fs[0] == MemMarker;
    JoinAlignedHead(fs, gaps);
    assert IsMemLine(lines[k]);
    MemFieldsAreFields(total, used, more);
    SplitWsJoin(fs, gaps);
  }

  /** The fields of a `Mem:` line hold no white space and, after the marker,
      none is empty. */
  lemma MemFieldsAreFields(total: string, used: string, more: seq<string>)
    requires |total| > 0 && AllDigits(total) && |used| > 0 && AllDigits(used)
    requires forall j :: 0 <= j < |more| ==> NoSpace(more[j]) && more[j] != ""
    ensures var fs := MemFields(total, used, more);
      (forall j :: 0 <= j < |fs| ==> NoSpace(fs[j])) && (forall j :: 1 <= j < |fs| ==> fs[j] != "")
  {
    var fs := MemFields(total, used, more);
    DigitsNoSpace(total);
    DigitsNoSpace(used);
    assert forall j :: 3 <= j < |fs| ==> fs[j] == more[j - 3];
  }

  /** The second and third fields of the line, read as block counts. */
  lemma MemFieldValues(total: string, used: string, more: seq<string>)
    requires |total| > 0 && AllDigits(total) && |used| > 0 && AllDigits(used)
    ensures BlocksToGB(Field(MemFields(total, used, more), 1)) == RoundGB(DigitsValue(total))
    ensures BlocksToGB(Field(MemFields(total, used, more), 2)) == RoundGB(DigitsValue(used))
  {
    BlocksOfDigits(total);
    BlocksOfDigits(used);
  }

  /** A field of digits is that many blocks. */
  lemma BlocksOfDigits(ds: string)
    requires |ds| > 0 && AllDigits(ds)
    ensures BlocksToGB(Some(ds)) == RoundGB(DigitsValue(ds))
  {
    ParseIntOfDigits(ds);
  }

  /** A report whose only line is `Mem: 8000000 4000000` gives 8 GB in total,
      4 GB used and a 50 percent share. */
  lemma MemoryExample()
    ensures Memory("Mem: 8000000 4000000") == MemoryUsage(8, 4, 50)
  {
    var raw := "Mem: 8000000 4000000";
    MemoryExampleLine();
    TrimOfTrimmed(raw);
    SplitLinesSingle(raw);
    MemoryExampleDigits();
    MemoryRead(raw, 0, "8000000", "4000000", [], [" ", " "]);
  }

  /** The example's single line and its fields. */
  lemma MemoryExampleLine()
    ensures JoinAligned(MemFields("8000000", "4000000", []), [" ", " "]) == "Mem: 8000000 4000000"
    ensures IsGap(" ")
    ensures IsTrimmed("Mem: 8000000 4000000") && '\n' !in "Mem: 8000000 4000000"
  {
    var fs := MemFields("8000000", "4000000", []);
    assert fs[1..][1..] == ["4000000"];
    assert [" ", " "][1..] == [" "];
  }

  /** A digit followed by six zeros denotes that many millions. */
  lemma MillionsValue(c: char, d: nat)
    requires IsDigit(c) && DigitValue(c) == d
    ensures AllDigits([c] + "000000") && DigitsValue([c] + "000000") == d * 1000000
  {
    var s := [c] + "000000";
    assert s[..1] == [c];
    assert s[..2][..1] == [c];
    assert s[..3][..2] == s[..2];
    assert s[..4][..3] == s[..3];
    assert s[..5][..4] == s[..4];
    assert s[..6][..5] == s[..5];
    assert s[..6] == s[..|s| - 1];
    assert DigitsValue(s[..1]) == d;
    assert DigitsValue(s[..2]) == d * 10;
    assert DigitsValue(s[..3]) == d * 100;
    assert DigitsValue(s[..4]) == d * 1000;
    assert DigitsValue(s[..5]) == d * 10000;
    assert DigitsValue(s[..6]) == d * 100000;
  }

  /** The example's figures: 8000000 and 4000000 blocks round to 8 and 4 GB. */
  lemma MemoryExampleDigits()
    ensures AllDigits("8000000") && AllDigits("4000000")
    ensures RoundGB(DigitsValue("8000000")) == 8 && RoundGB(DigitsValue("4000000")) == 4
    ensures RoundQuotient(100 * 4, 8) == 50
  {
    MillionsValue('8', 8);
    MillionsValue('4', 4);
    assert ['8'] + "000000" == "8000000";
    assert ['4'] + "000000" == "4000000";
    assert RoundGB(8000000) == 8;
    assert RoundGB(4000000) == 4;
  }

  /** A report without a `Mem:` line gives all zeros. */
  lemma NoMemLine(raw: string)
    requires !Contains(raw, MemMarker)
    ensures Memory(raw) == MemoryUsage(0, 0, 0)
  {
    var lines := SplitLines(Trim(raw));
    forall k | 0 <= k < |lines| ensures !IsMemLine(lines[k]) {
      if IsMemLine(lines[k]) {
        StartsWithContains(lines[k], MemMarker);
        ContainsInLines(Trim(raw), k, MemMarker);
        ContainsInTrim(raw, MemMarker);
      }
    }
  }

  /** `Math.round(100 * u / t)` lies in 0..100 when the used size does not
      exceed the total. */
  lemma PercentBounds(u: int, t: int)
    requires 0 <= u <= t && t > 0
    ensures 0 <= RoundQuotient(100 * u, t) <= 100
  {
    var r := (2 * (100 * u) + t) / (2 * t);
    var m := (2 * (100 * u) + t) % (2 * t);
    assert r == RoundQuotient(100 * u, t);
    assert 2 * t * r + m == 200 * u + t;
    assert 0 <= m < 2 * t;
    assert t * (2 * r) <= t * 201;
    MulCancel(t, 2 * r, 201);
    assert t * (-1) < t * (2 * r + 1);
    MulCancel(t, -1, 2 * r + 1);
  }

  lemma MulCancel(t: int, x: int, y: int)
    requires t > 0 && t * x <= t * y
    ensures x <= y
  {
    assert t * (y - x) >= 0;
  }

  /** The memory share always lies in 0..100 when the rounded used size does
      not exceed the rounded total. */
  lemma MemoryPercentBounds(raw: string)
    requires 0 <= Memory(raw).used <= Memory(raw).total
    ensures 0 <= Memory(raw).usedPercent <= 100
  {
    var m := Memory(raw);
    if m.total != 0 {
      PercentBounds(m.used, m.total);
    }
  }
}
