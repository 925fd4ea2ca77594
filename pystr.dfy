/** The few Python string operations the transcription front end relies on:
    `str.strip()` with and without an argument, `sub in s`, and the last
    piece of `str.split(": ")`. Strings are sequences of Unicode scalar values.
 */
module PyStr {

  /** The characters for which Python's `str.isspace()` is true; `str.strip()`
      without an argument removes exactly these from both ends. */
  const WHITESPACE: set<char> := {
    '\t', '\n', '\U{0B}', '\U{0C}', '\r', '\U{1C}', '\U{1D}', '\U{1E}', '\U{1F}', ' ',
    '\U{85}', '\U{A0}', '\U{1680}',
    '\U{2000}', '\U{2001}', '\U{2002}', '\U{2003}', '\U{2004}', '\U{2005}',
    '\U{2006}', '\U{2007}', '\U{2008}', '\U{2009}', '\U{200A}',
    '\U{2028}', '\U{2029}', '\U{202F}', '\U{205F}', '\U{3000}'
  }

  /** The separator given to `split` when the device name is cut out. */
  const SEPARATOR: string := ": "

  /** `s.lstrip(chars)`: the suffix left once every leading character of `cs` is gone. */
  function TrimLeft(s: string, cs: set<char>): (r: string)
    ensures |r| <= |s| && r == s[|s| - |r|..]
    ensures forall k :: 0 <= k < |s| - |r| ==> s[k] in cs
    ensures r != [] ==> r[0] !in cs
  {
    if s != [] && s[0] in cs then TrimLeft(s[1..], cs) else s
  }

  /** `s.rstrip(chars)`: the prefix left once every trailing character of `cs` is gone. */
  function TrimRight(s: string, cs: set<char>): (r: string)
    ensures |r| <= |s| && r == s[..|r|]
    ensures forall k :: |r| <= k < |s| ==> s[k] in cs
    ensures r != [] ==> r[|r| - 1] !in cs
  {
    if s != [] && s[|s| - 1] in cs then TrimRight(s[..|s| - 1], cs) else s
  }

  /** `s.strip(chars)`: the longest infix of `s` that neither starts nor ends with
      a character of `cs`, everything cut off on either side being in `cs`. */
  function Trim(s: string, cs: set<char>): (r: string)
    ensures exists i, j ::
      && 0 <= i <= j <= |s| && r == s[i..j]
      && (forall k :: 0 <= k < i ==> s[k] in cs)
      && (forall k :: j <= k < |s| ==> s[k] in cs)
    ensures r != [] ==> r[0] !in cs && r[|r| - 1] !in cs
  {
    var left := TrimLeft(s, cs);
    var r := TrimRight(left, cs);
    var i := |s| - |left|;
    assert r == s[i..i + |r|];
    r
  }

  /** `s.strip()`. */
  function Strip(s: string): string
  {
    Trim(s, WHITESPACE)
  }

  /** A string that neither starts nor ends with a character of `cs` is its own strip. */
  lemma TrimUnchanged(s: string, cs: set<char>)
    requires s == [] || (s[0] !in cs && s[|s| - 1] !in cs)
    ensures Trim(s, cs) == s
  {
    assert TrimLeft(s, cs) == s;
  }

  /** Stripping removes everything exactly when the string is all whitespace. */
  lemma TrimEmptyIff(s: string, cs: set<char>)
    ensures Trim(s, cs) == [] <==> forall k :: 0 <= k < |s| ==> s[k] in cs
  {
    var r := Trim(s, cs);
    var i, j :| 0 <= i <= j <= |s| && r == s[i..j] &&
      (forall k :: 0 <= k < i ==> s[k] in cs) && (forall k :: j <= k < |s| ==> s[k] in cs);
    if r == [] {
      assert i == j;
      forall k | 0 <= k < |s| ensures s[k] in cs {
        if k >= i { assert k >= j; }
      }
    } else {
      assert r[0] == s[i] && s[i] !in cs;
    }
  }

  /** A string that is already stripped is left alone, so stripping twice is stripping once. */
  lemma {:induction false} TrimIdempotent(s: string, cs: set<char>)
    ensures Trim(Trim(s, cs), cs) == Trim(s, cs)
  {
    var r := Trim(s, cs);
    if r != [] {
      assert TrimLeft(r, cs) == r;
      assert TrimRight(r, cs) == r;
    }
  }

  /** `sub` appears in `s` starting at index `i`. */
  predicate OccursAt(s: string, sub: string, i: nat)
  {
    i + |sub| <= |s| && s[i..i + |sub|] == sub
  }

  /** Python's `sub in s`, scanning `s` from the left. */
  function Contains(s: string, sub: string): bool
    decreases |s|
  {
    |sub| <= |s| && (s[..|sub|] == sub || Contains(s[1..], sub))
  }

  /** `sub in s` holds exactly when `sub` occurs at some position of `s`. */
  lemma {:induction false} ContainsIff(s: string, sub: string)
    ensures Contains(s, sub) <==> exists i: nat :: OccursAt(s, sub, i)
    decreases |s|
  {
    if |sub| <= |s| {
      assert s[..|sub|] == s[0..0 + |sub|];
      if s[..|sub|] == sub {
        assert OccursAt(s, sub, 0);
      } else {
        ContainsIff(s[1..], sub);
        if Contains(s[1..], sub) {
          var i: nat :| OccursAt(s[1..], sub, i);
          assert s[1..][i..i + |sub|] == s[i + 1..i + 1 + |sub|];
          assert OccursAt(s, sub, i + 1);
        } else if exists i: nat :: OccursAt(s, sub, i) {
          var i: nat :| OccursAt(s, sub, i);
          assert i != 0;
          assert s[1..][i - 1..i - 1 + |sub|] == s[i..i + |sub|];
          assert OccursAt(s[1..], sub, i - 1);
          assert false;
        }
      }
    }
  }

  /** An occurrence inside a piece `pre + sub + post` is found by `in`. */
  lemma ContainsInfix(pre: string, sub: string, post: string)
    ensures Contains(pre + sub + post, sub)
  {
    var s := pre + sub + post;
    assert s[|pre|..|pre| + |sub|] == sub;
    assert OccursAt(s, sub, |pre|);
    ContainsIff(s, sub);
  }

  /** A string in which the first character of `sub` never appears does not contain `sub`. */
  lemma NotContainsWithoutFirst(s: string, sub: string)
    requires sub != []
    requires forall k :: 0 <= k < |s| ==> s[k] != sub[0]
    ensures !Contains(s, sub)
    ensures forall i: nat :: !OccursAt(s, sub, i)
  {
    forall i: nat ensures !OccursAt(s, sub, i) {
      if i + |sub| <= |s| {
        assert s[i..i + |sub|][0] == s[i];
      }
    }
    ContainsIff(s, sub);
  }

  /** An infix of a string in which `sub` occurs nowhere has no occurrence either. */
  lemma InfixOccursNowhere(s: string, a: nat, b: nat, sub: string)
    requires a <= b <= |s|
    requires forall i: nat :: !OccursAt(s, sub, i)
    ensures forall i: nat :: !OccursAt(s[a..b], sub, i)
  {
    var t := s[a..b];
    forall i: nat ensures !OccursAt(t, sub, i) {
      if i + |sub| <= |t| {
        forall k | i <= k < i + |sub| ensures t[k] == s[a + k] { }
        assert t[i..i + |sub|] == s[a + i..a + i + |sub|];
        assert !OccursAt(s, sub, a + i);
      }
    }
  }

  /** An occurrence in a prefix of `s` is an occurrence in `s`. */
  lemma OccursInPrefix(s: string, n: nat, sub: string, i: nat)
    requires n <= |s| && OccursAt(s[..n], sub, i)
    ensures OccursAt(s, sub, i)
  {
    assert s[..n][i..i + |sub|] == s[i..i + |sub|];
  }

  /** A suffix starting at `j` has no `sub` when `s` has none at or after `j`. */
  lemma SuffixOccursNowhere(s: string, j: nat, sub: string)
    requires j <= |s|
    requires forall i: nat :: j <= i ==> !OccursAt(s, sub, i)
    ensures forall i: nat :: !OccursAt(s[j..], sub, i)
  {
    var t := s[j..];
    forall i: nat ensures !OccursAt(t, sub, i) {
      if i + |sub| <= |t| {
        assert t[i..i + |sub|] == s[j + i..j + i + |sub|];
        assert !OccursAt(s, sub, j + i);
      }
    }
  }

  /** One step of the scan from the right: when `s` does not end in `": "`, the
      start found for all but its last character is also right for `s`. */
  lemma PieceStartStep(s: string, init: string, j: nat)
    requires |s| >= 2 && s[|s| - 2..] != SEPARATOR && init == s[..|s| - 1] && j <= |init|
    requires forall i: nat :: j <= i ==> !OccursAt(init, SEPARATOR, i)
    requires j == 0 || (j >= 2 && OccursAt(init, SEPARATOR, j - 2))
    ensures forall i: nat :: j <= i ==> !OccursAt(s, SEPARATOR, i)
    ensures j == 0 || (j >= 2 && OccursAt(s, SEPARATOR, j - 2))
  {
    forall i: nat | j <= i ensures !OccursAt(s, SEPARATOR, i) {
      if i + 2 < |s| {
        assert init[i..i + 2] == s[i..i + 2];
        assert !OccursAt(init, SEPARATOR, i);
      } else if i + 2 == |s| {
        assert s[i..i + 2] == s[|s| - 2..];
      }
    }
    if j >= 2 {
      OccursInPrefix(s, |s| - 1, SEPARATOR, j - 2);
    }
  }

  /** Below the top, the start of the last piece is found in all but the last
      character when `s` does not end in `": "`. */
  lemma PieceStartUnfold(s: string)
    requires |s| >= 2 && s[|s| - 2..] != SEPARATOR
    ensures LastPieceStart(s) == LastPieceStart(s[..|s| - 1])
  {
  }

  /** `p + ": " + r` does not end in `": "` when `r` is non-empty and free of it. */
  lemma TailEndsWithoutSeparator(p: string, r: string)
    requires r != [] && forall i: nat :: !OccursAt(r, SEPARATOR, i)
    ensures var s := p + SEPARATOR + r; |s| >= 2 && s[|s| - 2..] != SEPARATOR
  {
    var s := p + SEPARATOR + r;
    var n := |r| - 1;
    if |r| >= 2 {
      assert s[|s| - 2..] == r[n - 1..n + 1];
      assert !OccursAt(r, SEPARATOR, n - 1);
    } else {
      assert s[|s| - 2] == ' ';
    }
  }

  /** The last piece of `p + ": " + r` starts right after the `": "` shown, when
      `r` has no `": "` of its own. */
  lemma {:induction false} PieceStartOfTail(p: string, r: string)
    requires forall i: nat :: !OccursAt(r, SEPARATOR, i)
    ensures LastPieceStart(p + SEPARATOR + r) == |p| + 2
    decreases |r|
  {
    var s := p + SEPARATOR + r;
    if r == [] {
      assert s[|s| - 2..] == SEPARATOR;
    } else {
      var n := |r| - 1;
      TailEndsWithoutSeparator(p, r);
      PieceStartUnfold(s);
      InfixOccursNowhere(r, 0, n, SEPARATOR);
      assert r[0..n] == r[..n];
      PieceStartOfTail(p, r[..n]);
      assert s[..|s| - 1] == p + SEPARATOR + r[..n];
    }
  }

  /** The last piece of `p + ": " + r` is `r` when `r` has no `": "` of its own,
      whatever `p` contains. */
  lemma AfterLastSeparatorOfTail(p: string, r: string)
    requires forall i: nat :: !OccursAt(r, SEPARATOR, i)
    ensures AfterLastSeparator(p + SEPARATOR + r) == r
  {
    PieceStartOfTail(p, r);
    assert (p + SEPARATOR + r)[|p| + 2..] == r;
  }

  /** Where the last piece of `s.split(": ")` starts: just after the last `": "`,
      or at 0 when there is none. No `": "` starts at or after it. */
  function LastPieceStart(s: string): (j: nat)
    ensures j <= |s|
    ensures forall i: nat :: j <= i ==> !OccursAt(s, SEPARATOR, i)
    ensures j == 0 || (j >= 2 && OccursAt(s, SEPARATOR, j - 2))
    decreases |s|
  {
    if |s| < 2 then 0
    else if s[|s| - 2..] == SEPARATOR then |s|
    else
      var init := s[..|s| - 1];
      var j := LastPieceStart(init);
      PieceStartStep(s, init, j);
      j
  }

  /** `s.split(": ")[-1]`: the part of `s` after the last `": "`, or all of `s`
      when there is none. `": "` cannot overlap itself, so the occurrences that
      Python's left-to-right split uses are all the occurrences. */
  function AfterLastSeparator(s: string): (r: string)
    ensures |r| <= |s| && r == s[|s| - |r|..]
    ensures forall i: nat :: !OccursAt(r, SEPARATOR, i)
    ensures r == s || (|r| + 2 <= |s| && OccursAt(s, SEPARATOR, |s| - |r| - 2))
  {
    var j := LastPieceStart(s);
    SuffixOccursNowhere(s, j, SEPARATOR);
    s[j..]
  }
}
