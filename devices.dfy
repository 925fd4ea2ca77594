/** The capture-device list of yapper: `whisper-cpp-stream`, started without
    arguments, lists the capture devices on its error stream, and the names
    cut out of those lines fill the microphone drop-down. The error stream is
    given here already split into lines.
 */
module Devices {
  import opened PyStr
  import opened Selection

  /** The text that marks a line of the error stream as a device line. */
  const DEVICE_TAG: string := "Capture device #"

  /** The single entry shown when no device line was found. */
  const NO_DEVICES: string := "No devices found"

  /** The character `strip("'")` removes from both ends of a device name. */
  const QUOTE: set<char> := {'\''}

  /** A line announces a capture device when it contains the tag anywhere. */
  predicate IsDeviceLine(line: string)
  {
    Contains(line, DEVICE_TAG)
  }

  /** The device name of a device line: the stripped line's text after its last
      `": "`, with single quotes removed from both ends. It never starts or ends
      with a quote and never contains `": "`. */
  function DeviceName(line: string): (name: string)
    ensures name == [] || (name[0] != '\'' && name[|name| - 1] != '\'')
    ensures forall i: nat :: !OccursAt(name, SEPARATOR, i)
  {
    var piece := AfterLastSeparator(Strip(line));
    TrimKeepsSeparatorFree(piece, QUOTE);
    Trim(piece, QUOTE)
  }

  /** Trimming cuts out an infix, so it cannot create a `": "`. */
  lemma TrimKeepsSeparatorFree(s: string, cs: set<char>)
    requires forall i: nat :: !OccursAt(s, SEPARATOR, i)
    ensures forall i: nat :: !OccursAt(Trim(s, cs), SEPARATOR, i)
  {
    var r := Trim(s, cs);
    var a, b :| 0 <= a <= b <= |s| && r == s[a..b];
    InfixOccursNowhere(s, a, b, SEPARATOR);
  }

  /** `strip("'")` of a name in single quotes is the name, when the name itself
      neither starts nor ends with a quote (the empty name included). */
  lemma TrimQuotes(name: string)
    requires name == [] || (name[0] != '\'' && name[|name| - 1] != '\'')
    ensures Trim("'" + name + "'", QUOTE) == name
  {
    var quoted := "'" + name + "'";
    assert quoted[1..] == name + "'";
    if name == [] {
      assert TrimLeft(name + "'", QUOTE) == [];
    } else {
      assert TrimLeft(name + "'", QUOTE) == name + "'";
      assert (name + "'")[..|name|] == name;
      TrimUnchanged(name, QUOTE);
    }
  }

  /** A listing line of the usual shape, `Capture device #0: 'Built-in Audio'`,
      yields the quoted name: nothing before the last `": "` survives, and only
      the enclosing quotes are removed. */
  lemma DeviceNameOfListing(head: string, name: string)
    requires head != [] && head[0] !in WHITESPACE
    requires forall k :: 0 <= k < |name| ==> name[k] != ':'
    requires name == [] || (name[0] != '\'' && name[|name| - 1] != '\'')
    ensures DeviceName(head + SEPARATOR + ("'" + name + "'")) == name
  {
    var quoted := "'" + name + "'";
    var line := head + SEPARATOR + quoted;
    assert line[0] == head[0] && line[|line| - 1] == '\'';
    TrimUnchanged(line, WHITESPACE);
    assert forall k :: 0 <= k < |quoted| ==> quoted[k] != SEPARATOR[0];
    NotContainsWithoutFirst(quoted, SEPARATOR);
    AfterLastSeparatorOfTail(head, quoted);
    TrimQuotes(name);
    assert DeviceName(line) == Trim(AfterLastSeparator(Strip(line)), QUOTE);
  }

  /** The names cut out of the device lines, in input order. */
  function DeviceEntries(lines: seq<string>): seq<string>
  {
    FilterMap(lines, IsDeviceLine, DeviceName)
  }

  /** `get_microphones` after the error stream has been read and split: walk the
      lines, append the name of every device line, and fall back to the single
      placeholder entry when there was none. */
  method GetMicrophones(lines: seq<string>) returns (devices: seq<string>)
    ensures |devices| >= 1
    ensures DeviceEntries(lines) != [] ==> devices == DeviceEntries(lines)
    ensures DeviceEntries(lines) == [] ==> devices == [NO_DEVICES]
  {
    var found: seq<string> := [];
    for i := 0 to |lines|
      invariant found == DeviceEntries(lines[..i])
    {
      FilterMapStep(lines, IsDeviceLine, DeviceName, i);
      if IsDeviceLine(lines[i]) {
        found := found + [DeviceName(lines[i])];
      }
    }
    assert lines[..|lines|] == lines;
    devices := if found != [] then found else [NO_DEVICES];
  }

  /** One entry per device line, in input order: entry `k` is the name cut out of
      the `k`-th line that contains the tag, and every such line has its entry. */
  lemma DeviceEntriesSpec(lines: seq<string>)
    ensures var idx := Select(lines, IsDeviceLine);
      && |DeviceEntries(lines)| == |idx|
      && (forall k :: 0 <= k < |idx| ==> idx[k] < |lines| && IsDeviceLine(lines[idx[k]]))
      && (forall k :: 0 <= k < |idx| ==> DeviceEntries(lines)[k] == DeviceName(lines[idx[k]]))
      && (forall k, l :: 0 <= k < l < |idx| ==> idx[k] < idx[l])
      && (forall i :: 0 <= i < |lines| && IsDeviceLine(lines[i]) ==> i in idx)
  {
    FilterMapIsSelection(lines, IsDeviceLine, DeviceName);
  }

  /** A device line is one in which the tag occurs at some position. */
  lemma IsDeviceLineIff(line: string)
    ensures IsDeviceLine(line) <==> exists j: nat :: OccursAt(line, DEVICE_TAG, j)
  {
    ContainsIff(line, DEVICE_TAG);
  }

  /** The placeholder is used exactly when no line contains the tag anywhere. */
  lemma NoDeviceEntriesIff(lines: seq<string>)
    ensures DeviceEntries(lines) == [] <==>
      forall i, j: nat :: 0 <= i < |lines| ==> !OccursAt(lines[i], DEVICE_TAG, j)
  {
    FilterMapEmptyIff(lines, IsDeviceLine, DeviceName);
    forall i | 0 <= i < |lines| {
      ContainsIff(lines[i], DEVICE_TAG);
    }
  }
}
