/** The few JavaScript string operations the landing page's logic relies on:
    `trim`, the regular-expression class `\s`, `includes`-style substring
    search, `toLowerCase`, `split("\n")` and `join("\n")`. Strings are
    sequences of Unicode code points; `length` is counted in UTF-16 code
    units. */
module JsText {
  import opened Wrappers

  /** JavaScript's WhiteSpace and LineTerminator code points: the set that
      both `String.prototype.trim` and the regular-expression class `\s`
      use. It includes the ideographic space U+3000. */
  predicate IsSpace(c: char) {
    c == '\t' || c == '\n' || c == '\U{000B}' || c == '\U{000C}' || c == '\r' || c == ' '
    || c == '\U{00A0}' || c == '\U{1680}' || ('\U{2000}' <= c <= '\U{200A}')
    || c == '\U{2028}' || c == '\U{2029}' || c == '\U{202F}' || c == '\U{205F}'
    || c == '\U{3000}' || c == '\U{FEFF}'
  }

  /** Every character is white space (the empty string included). */
  predicate IsBlank(s: string) {
    forall k :: 0 <= k < |s| ==> IsSpace(s[k])
  }

  /** Drops the leading white space. */
  function TrimStart(s: string): (r: string)
    ensures |r| <= |s| && r == s[|s| - |r|..]
    ensures r == [] || !IsSpace(r[0])
  {
    if |s| > 0 && IsSpace(s[0]) then TrimStart(s[1..]) else s
  }

  /** What `TrimStart` drops is white space. */
  lemma {:induction false} TrimStartDrops(s: string)
    ensures forall k :: 0 <= k < |s| - |TrimStart(s)| ==> IsSpace(s[k])
    decreases |s|
  {
    if |s| > 0 && IsSpace(s[0]) {
      TrimStartDrops(s[1..]);
      forall k | 1 <= k < |s| - |TrimStart(s)|
        ensures IsSpace(s[k])
      {
        assert s[1..][k - 1] == s[k];
      }
    }
  }

  /** Drops the trailing white space. */
  function TrimEnd(s: string): (r: string)
    ensures |r| <= |s| && r == s[..|r|]
    ensures r == [] || !IsSpace(r[|r| - 1])
  {
    if |s| > 0 && IsSpace(s[|s| - 1]) then TrimEnd(s[..|s| - 1]) else s
  }

  /** What `TrimEnd` drops is white space. */
  lemma {:induction false} TrimEndDrops(s: string)
    ensures forall k :: |TrimEnd(s)| <= k < |s| ==> IsSpace(s[k])
    decreases |s|
  {
    if |s| > 0 && IsSpace(s[|s| - 1]) {
      var init := s[..|s| - 1];
      TrimEndDrops(init);
      forall k | |TrimEnd(s)| <= k < |s| - 1
        ensures IsSpace(s[k])
      {
        assert init[k] == s[k];
      }
    }
  }

  /** `String.prototype.trim`. */
  function Trim(s: string): (r: string)
    ensures |r| <= |s|
    ensures r == [] || (!IsSpace(r[0]) && !IsSpace(r[|r| - 1]))
  {
    TrimEnd(TrimStart(s))
  }

  /** Trimming leaves nothing exactly when the input is all white space. */
  lemma TrimBlankIff(s: string)
    ensures Trim(s) == [] <==> IsBlank(s)
  {
    var t := TrimStart(s);
    TrimStartDrops(s);
    TrimEndDrops(t);
    BlankJoin(s, |s| - |t|, |TrimEnd(t)| == 0);
  }

  /** `s` is blank when its part before `i` is, and so is the part from
      `i` on. */
  lemma BlankJoin(s: string, i: nat, restBlank: bool)
    requires i <= |s|
    requires forall k :: 0 <= k < i ==> IsSpace(s[k])
    requires restBlank ==> forall k :: 0 <= k < |s| - i ==> IsSpace(s[i..][k])
    ensures restBlank ==> IsBlank(s)
  {
    if restBlank {
      forall k | i <= k < |s|
        ensures IsSpace(s[k])
      {
        assert s[i..][k - i] == s[k];
      }
    }
  }

  /** The trimmed string is the slice of `s` between a run of leading and a
      run of trailing white space. */
  lemma TrimIsCore(s: string) returns (i: nat)
    ensures i + |Trim(s)| <= |s|
    ensures Trim(s) == s[i..i + |Trim(s)|]
    ensures forall k :: 0 <= k < i ==> IsSpace(s[k])
    ensures forall k :: i + |Trim(s)| <= k < |s| ==> IsSpace(s[k])
  {
    var t := TrimStart(s);
    var r := TrimEnd(t);
    i := |s| - |t|;
    assert Trim(s) == r;
    SliceOfSlice(s, t, r, i);
    TrimStartDrops(s);
    TrimTail(s, t);
  }

  /** A prefix of the suffix from `i` is a slice from `i`. */
  lemma SliceOfSlice(s: string, t: string, r: string, i: nat)
    requires i <= |s| && t == s[i..] && |r| <= |t| && r == t[..|r|]
    ensures r == s[i..i + |r|]
  {
  }

  /** What trimming drops at the end is white space. */
  lemma TrimTail(s: string, t: string)
    requires t == TrimStart(s)
    ensures forall k :: |s| - |t| + |Trim(s)| <= k < |s| ==> IsSpace(s[k])
  {
    var r := TrimEnd(t);
    assert Trim(s) == r;
    TrimEndDrops(t);
    AllFromSuffix(s, |s| - |t|, |r|, IsSpace);
  }

  /** A property of every character of `s[i..]` from index `lo` on holds
      of `s` from index `i + lo` on. */
  lemma AllFromSuffix(s: string, i: nat, lo: nat, p: char -> bool)
    requires i + lo <= |s|
    requires forall k :: lo <= k < |s| - i ==> p(s[i..][k])
    ensures forall k :: i + lo <= k < |s| ==> p(s[k])
  {
    forall k | i + lo <= k < |s|
      ensures p(s[k])
    {
      assert s[i..][k - i] == s[k];
    }
  }

  /** A string that neither starts nor ends with white space trims to
      itself. */
  lemma TrimKeeps(s: string)
    requires s != [] && !IsSpace(s[0]) && !IsSpace(s[|s| - 1])
    ensures Trim(s) == s
  {
    assert TrimStart(s) == s;
  }

  /** A text with no white space at either end keeps at least one UTF-16
      unit per code point after trimming. */
  lemma KeptTextLength(s: string)
    requires s != [] && !IsSpace(s[0]) && !IsSpace(s[|s| - 1])
    ensures Utf16Length(Trim(s)) >= |s|
  {
    TrimKeeps(s);
  }

  /** Trimming twice is trimming once. */
  lemma {:induction false} TrimIdempotent(s: string)
    ensures Trim(Trim(s)) == Trim(s)
  {
    var r := Trim(s);
    if r != [] {
      assert TrimStart(r) == r;
      assert TrimEnd(r) == r;
    }
  }

  /** The positions of the code points above U+FFFF, which UTF-16 writes
      as a surrogate pair. */
  function AstralPositions(s: string): set<int> {
    set i | 0 <= i < |s| && s[i] as int > 0xFFFF
  }

  /** `length`: JavaScript counts UTF-16 code units, so a code point
      above U+FFFF counts twice. */
  function Utf16Length(s: string): (n: nat)
    ensures |s| <= n <= 2 * |s|
    ensures (forall k :: 0 <= k < |s| ==> s[k] as int <= 0xFFFF) ==> n == |s|
  {
    if s == [] then 0
    else Utf16Length(s[..|s| - 1]) + (if s[|s| - 1] as int > 0xFFFF then 2 else 1)
  }

  /** The length is one unit per code point plus one more for each code
      point above U+FFFF. */
  lemma {:induction false} Utf16LengthCount(s: string)
    ensures Utf16Length(s) == |s| + |AstralPositions(s)|
    decreases |s|
  {
    if s != [] {
      AstralPositionsSnoc(s);
      Utf16LengthCount(s[..|s| - 1]);
    }
  }

  /** Removing the last code point removes at most its own position. */
  lemma AstralPositionsSnoc(s: string)
    requires s != []
    ensures var last := |s| - 1;
      AstralPositions(s) ==
        AstralPositions(s[..last]) + (if s[last] as int > 0xFFFF then {last} else {})
    ensures |s| - 1 !in AstralPositions(s[..|s| - 1])
  {
    var last := |s| - 1;
    assert forall i :: 0 <= i < last ==> s[..last][i] == s[i];
  }

  /** `pat` occurs in `s` starting at index `i`. */
  predicate OccursAt(s: string, pat: string, i: nat) {
    i + |pat| <= |s| && s[i..i + |pat|] == pat
  }

  /** Substring search, as a regular-expression literal alternative or
      `String.prototype.includes` performs it. */
  predicate Contains(s: string, pat: string)
    decreases |s|
  {
    if |pat| > |s| then false
    else s[..|pat|] == pat || (|s| > 0 && Contains(s[1..], pat))
  }

  /** `Contains` finds exactly the patterns that occur at some index. */
  lemma {:induction false} ContainsIff(s: string, pat: string)
    ensures Contains(s, pat) <==> exists i: nat :: OccursAt(s, pat, i)
    decreases |s|
  {
    if |pat| > |s| {
    } else if s[..|pat|] == pat {
      assert OccursAt(s, pat, 0);
    } else if |s| == 0 {
    } else {
      ContainsIff(s[1..], pat);
      assert !OccursAt(s, pat, 0) by {
        assert s[0..0 + |pat|] == s[..|pat|];
      }
      forall i: nat | 1 <= i
        ensures OccursAt(s, pat, i) == OccursAt(s[1..], pat, i - 1)
      {
        if i + |pat| <= |s| {
          assert s[1..][i - 1..i - 1 + |pat|] == s[i..i + |pat|];
        }
      }
      if Contains(s[1..], pat) {
        var i: nat :| OccursAt(s[1..], pat, i);
        assert OccursAt(s, pat, i + 1);
      }
    }
  }

  /** A pattern placed between two strings is found. */
  lemma ContainsInfix(a: string, pat: string, b: string)
    ensures Contains(a + pat + b, pat)
  {
    var s := a + pat + b;
    assert s[|a|..|a| + |pat|] == pat;
    assert OccursAt(s, pat, |a|);
    ContainsIff(s, pat);
  }

  /** Maps the ASCII capitals A-Z to their small letters; the case folding a
      regular expression with the `i` flag (and without `u`) applies when
      the pattern is ASCII, since that folding never maps a non-ASCII code
      point onto an ASCII one. */
  function AsciiLowerChar(c: char): (d: char)
    ensures !('A' <= d <= 'Z')
    ensures c == d || ('A' <= c <= 'Z' && d as int == c as int + 32)
  {
    if 'A' <= c <= 'Z' then (c as int + 32) as char else c
  }

  function AsciiLower(s: string): (r: string)
    ensures |r| == |s|
    ensures forall k :: 0 <= k < |s| ==> r[k] == AsciiLowerChar(s[k])
  {
    seq(|s|, k requires 0 <= k < |s| => AsciiLowerChar(s[k]))
  }

  /** A string with no ASCII capital letter. */
  predicate NoAsciiUpper(s: string) {
    forall k :: 0 <= k < |s| ==> !('A' <= s[k] <= 'Z')
  }

  /** `String.prototype.toLowerCase`, restricted to the mappings that can
      produce the letters of the AI keyword "ai": ASCII A-Z, and U+0130
      (capital I with dot above), which lowers to the two code points "i"
      U+0307. Every other code point is kept. Its real lower-case form may
      differ (U+00C0 lowers to U+00E0, the Kelvin sign U+212A to "k"), but
      it is a single code point that is never "a" or "i", and the Japanese
      keywords have no case, so the AI test gives the same answer. */
  function JsLower(s: string): (r: string)
    ensures |r| >= |s|
    ensures NoAsciiUpper(r)
  {
    if s == [] then []
    else
      var head := LowerOf(s[0]);
      var rest := JsLower(s[1..]);
      NoAsciiUpperConcat(head, rest);
      head + rest
  }

  /** The lower-case form of one code point. */
  function LowerOf(c: char): (t: string)
    ensures |t| >= 1 && NoAsciiUpper(t)
    ensures c != '\U{0130}' ==> t == [AsciiLowerChar(c)]
  {
    if c == '\U{0130}' then "i\U{0307}" else [AsciiLowerChar(c)]
  }

  lemma NoAsciiUpperConcat(a: string, b: string)
    requires NoAsciiUpper(a) && NoAsciiUpper(b)
    ensures NoAsciiUpper(a + b)
  {
    forall k | 0 <= k < |a + b|
      ensures !('A' <= (a + b)[k] <= 'Z')
    {
      if k < |a| {
        assert (a + b)[k] == a[k];
      } else {
        assert (a + b)[k] == b[k - |a|];
      }
    }
  }

  /** Without a dotted capital I, the modelled `toLowerCase` is exactly
      the ASCII A-Z folding. */
  lemma {:induction false} JsLowerIsAscii(s: string)
    requires '\U{0130}' !in s
    ensures JsLower(s) == AsciiLower(s)
    decreases |s|
  {
    if s != [] {
      var tail := s[1..];
      assert s[0] in s;
      assert '\U{0130}' !in tail by {
        forall c | c in tail ensures c in s { }
      }
      JsLowerIsAscii(tail);
      assert JsLower(s) == LowerOf(s[0]) + JsLower(tail);
      AsciiLowerCons(s);
    }
  }

  lemma AsciiLowerCons(s: string)
    requires s != []
    ensures AsciiLower(s) == [AsciiLowerChar(s[0])] + AsciiLower(s[1..])
  {
  }

  /** Folding ASCII capitals twice is folding them once. */
  lemma AsciiLowerTwice(s: string)
    ensures AsciiLower(AsciiLower(s)) == AsciiLower(s)
  {
  }

  /** Folding ASCII capitals first does not change what the modelled
      `toLowerCase` gives. */
  lemma {:induction false} JsLowerAfterAscii(s: string)
    ensures JsLower(AsciiLower(s)) == JsLower(s)
    decreases |s|
  {
    if s != [] {
      var f := AsciiLower(s);
      AsciiLowerCons(s);
      assert f[0] == AsciiLowerChar(s[0]) && f[1..] == AsciiLower(s[1..]);
      assert LowerOf(f[0]) == LowerOf(s[0]);
      JsLowerAfterAscii(s[1..]);
    }
  }

  /** Lower-casing a string without capitals changes nothing. */
  lemma AsciiLowerKeeps(s: string)
    requires NoAsciiUpper(s)
    ensures AsciiLower(s) == s
  {
  }

  /** The first position of `c` in `s`, or None when `c` does not occur. */
  function IndexOf(s: string, c: char): (r: Option<nat>)
    ensures r.None? <==> c !in s
    ensures r.Some? ==> r.value < |s| && s[r.value] == c && c !in s[..r.value]
  {
    if |s| == 0 then None
    else if s[0] == c then Some(0)
    else
      match IndexOf(s[1..], c)
      case None => None
      case Some(i) =>
        assert s[..i + 1] == [s[0]] + s[1..][..i];
        Some(i + 1)
  }

  /** The first occurrence of `c` is unique. */
  lemma IndexOfAt(s: string, c: char, i: nat)
    requires i < |s| && s[i] == c && c !in s[..i]
    ensures IndexOf(s, c) == Some(i)
  {
    assert s[i] in s;
    var r := IndexOf(s, c).value;
    assert forall j :: 0 <= j < i ==> s[j] == s[..i][j];
    assert forall j :: 0 <= j < r ==> s[j] == s[..r][j];
  }

  /** `lines.join(sep)`. */
  function Join(lines: seq<string>, sep: char): string
  {
    if |lines| == 0 then ""
    else if |lines| == 1 then lines[0]
    else lines[0] + [sep] + Join(lines[1..], sep)
  }

  /** `s.split(sep)` for a one-character separator: the pieces between the
      separators, never an empty list. */
  function Split(s: string, sep: char): (r: seq<string>)
    ensures |r| >= 1
    ensures forall k :: 0 <= k < |r| ==> sep !in r[k]
    decreases |s|
  {
    match IndexOf(s, sep)
    case None => [s]
    case Some(i) => [s[..i]] + Split(s[i + 1..], sep)
  }

  /** Splitting a join gives back the lines, when no line holds the
      separator. */
  lemma {:induction false} SplitJoin(lines: seq<string>, sep: char)
    requires |lines| >= 1
    requires forall k :: 0 <= k < |lines| ==> sep !in lines[k]
    ensures Split(Join(lines, sep), sep) == lines
    decreases |lines|
  {
    var a := lines[0];
    assert sep !in a;
    if |lines| > 1 {
      SplitAfterLine(a, Join(lines[1..], sep), sep);
      SplitJoin(lines[1..], sep);
      assert lines == [a] + lines[1..];
    }
  }

  /** A first line free of the separator, then the separator, splits off as
      the first piece. */
  lemma SplitAfterLine(h: string, rest: string, sep: char)
    requires sep !in h
    ensures Split(h + [sep] + rest, sep) == [h] + Split(rest, sep)
  {
    var s := h + [sep] + rest;
    assert s[..|h|] == h;
    IndexOfAt(s, sep, |h|);
    assert s[|h| + 1..] == rest;
  }
}
