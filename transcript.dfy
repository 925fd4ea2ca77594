/** The transcription worker of yapper: which lines of `whisper-cpp-stream`'s
    output reach the typing sink, how they are cleaned, and where the stop flag
    cuts the stream off. The process itself is replaced by the sequence of lines
    it prints, and the shared stop flag by the value it has each time a line
    has been read.
 */
module Transcript {
  import opened PyStr
  import opened Selection

  datatype Option<T> = None | Some(value: T)

  /** Substrings that mark a line as a recognizer annotation or status message. */
  const MARKERS: seq<string> := ["[", "]", "(", "action", "init:"]

  /** A raw line is transcript content when something is left after stripping it and
      none of the markers occurs anywhere in the raw (unstripped) line; the match
      is case-sensitive. */
  predicate IsTranscriptLine(line: string)
  {
    Strip(line) != [] && NoneContained(line, MARKERS)
  }

  /** None of the strings `ms` is a substring of `line`. */
  predicate NoneContained(line: string, ms: seq<string>)
  {
    forall k :: 0 <= k < |ms| ==> !Contains(line, ms[k])
  }

  /** The characters the markers start with. */
  const MARKER_STARTS: set<char> := {'[', ']', '(', 'a', 'i'}

  /** The stripped transcript lines among `lines`, in order. */
  function KeptLines(lines: seq<string>): seq<string>
  {
    FilterMap(lines, IsTranscriptLine, Strip)
  }

  /** The index of the first line after whose reading the stop flag is set, or
      the number of lines when it never is. */
  function FirstStop(stops: seq<bool>): (k: nat)
    ensures k <= |stops|
    ensures forall j :: 0 <= j < k ==> !stops[j]
    ensures k < |stops| ==> stops[k]
  {
    if stops == [] || stops[0] then 0 else 1 + FirstStop(stops[1..])
  }

  /** The texts the worker hands to `type_text`, in order, when the process prints
      `lines` and the stop flag reads `stops[i]` once line `i` has been read. */
  function Forwarded(lines: seq<string>, stops: seq<bool>): seq<string>
    requires |stops| == |lines|
  {
    KeptLines(lines[..FirstStop(stops)])
  }

  /** The loop of `transcribe_audio`: read each line; if the stop flag is set,
      interrupt the process and leave; otherwise forward the stripped line when
      it is transcript content. `typed` is what was forwarded, `interrupted`
      whether the interrupt was sent from inside the loop. */
  method TranscribeAudio(lines: seq<string>, stops: seq<bool>)
    returns (typed: seq<string>, interrupted: bool)
    requires |stops| == |lines|
    ensures typed == Forwarded(lines, stops)
    ensures interrupted <==> exists j :: 0 <= j < |stops| && stops[j]
  {
    typed, interrupted := [], false;
    var i := 0;
    while i < |lines|
      invariant 0 <= i <= |lines|
      invariant forall j :: 0 <= j < i ==> !stops[j]
      invariant typed == KeptLines(lines[..i])
      invariant !interrupted
    {
      if stops[i] {
        FirstStopOfPrefix(stops, i);
        interrupted := true;
        break;
      }
      FilterMapStep(lines, IsTranscriptLine, Strip, i);
      if IsTranscriptLine(lines[i]) {
        typed := typed + [Strip(lines[i])];
      }
      i := i + 1;
    }
    if !interrupted {
      FirstStopNone(stops);
    }
  }

  /** The guard of `type_text`: text that is empty once stripped is dropped;
      anything else is handed, unchanged, to the typing tool. */
  function TypeText(text: string): (typed: Option<string>)
    ensures typed == None || typed == Some(text)
  {
    if Strip(text) == [] then None else Some(text)
  }

  /** `type_text` does nothing exactly for text made of whitespace only. */
  lemma TypeTextIgnoresBlank(text: string)
    ensures TypeText(text) == None <==> forall k :: 0 <= k < |text| ==> text[k] in WHITESPACE
  {
    TrimEmptyIff(text, WHITESPACE);
  }

  /** The filter: a line is forwarded exactly when it has a non-whitespace
      character and no marker occurs at any position of the raw line. */
  lemma IsTranscriptLineIff(line: string)
    ensures IsTranscriptLine(line) <==>
      && (exists k :: 0 <= k < |line| && line[k] !in WHITESPACE)
      && forall m, i: nat :: m in MARKERS ==> !OccursAt(line, m, i)
  {
    NonBlankIff(line);
    NoneContainedIff(line, MARKERS);
  }

  /** Something is left after `strip()` exactly when some character is not whitespace. */
  lemma NonBlankIff(line: string)
    ensures Strip(line) != [] <==> exists k :: 0 <= k < |line| && line[k] !in WHITESPACE
  {
    TrimEmptyIff(line, WHITESPACE);
  }

  /** No string of `ms` is contained in `line` exactly when none occurs at any position. */
  lemma NoneContainedIff(line: string, ms: seq<string>)
    ensures NoneContained(line, ms) <==> forall m, i: nat :: m in ms ==> !OccursAt(line, m, i)
  {
    forall k | 0 <= k < |ms| {
      ContainsIff(line, ms[k]);
    }
    if NoneContained(line, ms) {
      forall m, i: nat | m in ms ensures !OccursAt(line, m, i) {
        var k :| 0 <= k < |ms| && ms[k] == m;
      }
    }
  }

  /** A line none of whose characters starts a string of `ms` contains none of them. */
  lemma NoneContainedWithoutStarts(line: string, ms: seq<string>, starts: set<char>)
    requires forall k :: 0 <= k < |ms| ==> ms[k] != [] && ms[k][0] in starts
    requires forall k :: 0 <= k < |line| ==> line[k] !in starts
    ensures NoneContained(line, ms)
  {
    forall k | 0 <= k < |ms| ensures !Contains(line, ms[k]) {
      NotContainsWithoutFirst(line, ms[k]);
    }
  }

  /** Every marker is non-empty and starts with one of `MARKER_STARTS`. */
  lemma MarkerStarts()
    ensures forall k :: 0 <= k < |MARKERS| ==> MARKERS[k] != [] && MARKERS[k][0] in MARKER_STARTS
  {
  }

  /** Rejection is substring containment: a marker anywhere, even inside a longer
      word such as "transaction", rejects the line. */
  lemma MarkerRejects(pre: string, m: string, post: string)
    requires m in MARKERS
    ensures !IsTranscriptLine(pre + m + post)
  {
    ContainsInfix(pre, m, post);
  }

  /** A line that has a non-whitespace character, and none of whose characters
      can start a marker, is content. */
  lemma KeptWithoutMarkerStart(line: string)
    requires exists k :: 0 <= k < |line| && line[k] !in WHITESPACE
    requires forall k :: 0 <= k < |line| ==> line[k] !in MARKER_STARTS
    ensures IsTranscriptLine(line)
  {
    NonBlankIff(line);
    MarkerStarts();
    NoneContainedWithoutStarts(line, MARKERS, MARKER_STARTS);
  }

  /** Only the listed markers reject: a closing parenthesis alone is content. */
  lemma LoneParenthesisKept()
    ensures IsTranscriptLine(" ) ")
  {
    assert " ) "[1] == ')';
    KeptWithoutMarkerStart(" ) ");
  }

  /** The match is case-sensitive: "ACTION" is content. */
  lemma UppercaseMarkerKept()
    ensures IsTranscriptLine("ACTION")
  {
    assert "ACTION"[0] == 'A';
    KeptWithoutMarkerStart("ACTION");
  }

  /** A marker inside a longer word still rejects: "transaction" is not content. */
  lemma MarkerInsideWordRejects()
    ensures !IsTranscriptLine("transaction")
  {
    assert "trans" + "action" + "" == "transaction";
    MarkerRejects("trans", "action", "");
  }

  /** A text with no whitespace at either end and something in between. */
  predicate IsStripped(t: string)
  {
    t != [] && t[0] !in WHITESPACE && t[|t| - 1] !in WHITESPACE
  }

  /** A non-empty stripped line is stripped, and stripping it again changes nothing. */
  lemma StripOfContent(line: string)
    requires Strip(line) != []
    ensures IsStripped(Strip(line)) && Strip(Strip(line)) == Strip(line)
  {
    TrimIdempotent(line, WHITESPACE);
  }

  /** The kept texts are the stripped transcript lines in input order: entry `k`
      comes from the `k`-th transcript line, and each is stripped. */
  lemma KeptLinesSpec(lines: seq<string>)
    ensures var idx := Select(lines, IsTranscriptLine);
      && |KeptLines(lines)| == |idx|
      && (forall k :: 0 <= k < |idx| ==> KeptLines(lines)[k] == Strip(lines[idx[k]]))
      && (forall k :: 0 <= k < |idx| ==> IsStripped(KeptLines(lines)[k]))
  {
    FilterMapIsSelection(lines, IsTranscriptLine, Strip);
    var idx := Select(lines, IsTranscriptLine);
    forall k | 0 <= k < |idx| ensures IsStripped(Strip(lines[idx[k]])) {
      StripOfContent(lines[idx[k]]);
    }
  }

  /** Everything the worker forwards reaches the typing tool: its guard never drops
      a forwarded text. */
  lemma ForwardedAreTyped(lines: seq<string>, stops: seq<bool>)
    requires |stops| == |lines|
    ensures forall k :: 0 <= k < |Forwarded(lines, stops)| ==>
      TypeText(Forwarded(lines, stops)[k]) == Some(Forwarded(lines, stops)[k])
  {
    KeptLinesSpec(lines[..FirstStop(stops)]);
  }

  /** The first stop ends the stream: no line at or after it, and no later flag
      value, has any effect on what is forwarded. */
  lemma {:induction false} StopCutsStream(lines: seq<string>, stops: seq<bool>,
                                          lines': seq<string>, stops': seq<bool>)
    requires |stops| == |lines| && |stops'| == |lines'|
    requires FirstStop(stops) < |stops|
    requires FirstStop(stops) < |stops'| && stops'[..FirstStop(stops) + 1] == stops[..FirstStop(stops) + 1]
    requires FirstStop(stops) <= |lines'| && lines'[..FirstStop(stops)] == lines[..FirstStop(stops)]
    ensures Forwarded(lines', stops') == Forwarded(lines, stops)
  {
    var k := FirstStop(stops);
    assert forall j :: 0 <= j <= k ==> stops'[j] == stops[..k + 1][j];
    FirstStopOfPrefix(stops', k);
  }

  /** A flag sequence that is never true stops only after its last value. */
  lemma FirstStopNone(stops: seq<bool>)
    requires forall j :: 0 <= j < |stops| ==> !stops[j]
    ensures FirstStop(stops) == |stops|
  {
  }

  /** A flag sequence whose first `k` values are false and whose value at `k` is
      true stops at `k`. */
  lemma FirstStopOfPrefix(stops: seq<bool>, k: nat)
    requires k < |stops| && stops[k]
    requires forall j :: 0 <= j < k ==> !stops[j]
    ensures FirstStop(stops) == k
  {
  }

  /** Only lines read before the first stop are forwarded, each exactly once,
      stripped, and in the order they were read. */
  lemma ForwardedSpec(lines: seq<string>, stops: seq<bool>)
    requires |stops| == |lines|
    ensures var idx := Select(lines[..FirstStop(stops)], IsTranscriptLine);
      && |Forwarded(lines, stops)| == |idx|
      && (forall k :: 0 <= k < |idx| ==> idx[k] < FirstStop(stops) && IsTranscriptLine(lines[idx[k]]))
      && (forall k :: 0 <= k < |idx| ==> Forwarded(lines, stops)[k] == Strip(lines[idx[k]]))
      && (forall k, l :: 0 <= k < l < |idx| ==> idx[k] < idx[l])
      && (forall i :: 0 <= i < FirstStop(stops) && IsTranscriptLine(lines[i]) ==> i in idx)
  {
    var n := FirstStop(stops);
    KeptLinesSpec(lines[..n]);
    SelectOfPrefix(lines, IsTranscriptLine, n);
    var idx := Select(lines[..n], IsTranscriptLine);
    forall k | 0 <= k < |idx| ensures Forwarded(lines, stops)[k] == Strip(lines[idx[k]]) {
      assert lines[..n][idx[k]] == lines[idx[k]];
    }
  }
}
