/** Text operations with the meaning of the Python `str` methods the cleaning
    scripts call: `split(sep)` with an explicit one-character separator,
    `strip(chars)`, argument-less `strip()` and the first-token rule
    `split(' ')[0]`. */
module Strings {

  /** Index of the first character of `s` that occurs in `cs`, or `|s|` when none does. */
  function Find(s: string, cs: string): (k: nat)
    ensures k <= |s|
    ensures k < |s| ==> s[k] in cs
    ensures forall i :: 0 <= i < k ==> s[i] !in cs
  {
    if s == [] then 0
    else if s[0] in cs then 0
    else 1 + Find(s[1..], cs)
  }

  /** Python's `sep.join(parts)` for a one-character separator. */
  function Join(parts: seq<string>, sep: char): string
  {
    if parts == [] then ""
    else if |parts| == 1 then parts[0]
    else parts[0] + [sep] + Join(parts[1..], sep)
  }

  /** Python's `s.split(sep)`: the pieces between occurrences of `sep`, so
      `n` separators give `n + 1` pieces and empty pieces are kept. */
  function Split(s: string, sep: char): (parts: seq<string>)
    ensures |parts| >= 1
    ensures forall i :: 0 <= i < |parts| ==> sep !in parts[i]
    ensures Join(parts, sep) == s
    decreases |s|
  {
    var k := Find(s, [sep]);
    if k == |s| then [s]
    else
      var rest := Split(s[k + 1..], sep);
      assert s == s[..k] + [sep] + s[k + 1..];
      [s[..k]] + rest
  }

  /** Splitting undoes joining, for pieces that do not contain the separator. */
  lemma {:induction false} SplitJoin(parts: seq<string>, sep: char)
    requires |parts| >= 1
    requires forall i :: 0 <= i < |parts| ==> sep !in parts[i]
    ensures Split(Join(parts, sep), sep) == parts
    decreases |parts|
  {
    var s := Join(parts, sep);
    var k := Find(s, [sep]);
    if |parts| == 1 {
      assert s == parts[0];
    } else {
      var rest := Join(parts[1..], sep);
      assert s == parts[0] + [sep] + rest;
      assert s[|parts[0]|] == sep;
      assert forall i :: 0 <= i < |parts[0]| ==> s[i] == parts[0][i];
      assert k == |parts[0]|;
      assert s[..k] == parts[0];
      assert s[k + 1..] == rest;
      SplitJoin(parts[1..], sep);
    }
  }

  /** Python's `s.lstrip(cs)`: drops the longest prefix made of characters in `cs`. */
  function StripLeft(s: string, cs: string): (r: string)
    ensures |r| <= |s| && r == s[|s| - |r|..]
    ensures forall i :: 0 <= i < |s| - |r| ==> s[i] in cs
    ensures r == [] || r[0] !in cs
  {
    if s != [] && s[0] in cs then StripLeft(s[1..], cs) else s
  }

  /** Python's `s.rstrip(cs)`: drops the longest suffix made of characters in `cs`. */
  function StripRight(s: string, cs: string): (r: string)
    ensures |r| <= |s| && r == s[..|r|]
    ensures forall i :: |r| <= i < |s| ==> s[i] in cs
    ensures r == [] || r[|r| - 1] !in cs
  {
    if s != [] && s[|s| - 1] in cs then StripRight(s[..|s| - 1], cs) else s
  }

  /** `r` is the piece of `s` at offset `lead`, and what lies outside it consists of characters in `cs`. */
  ghost predicate TrimmedAt(s: string, r: string, cs: string, lead: nat)
  {
    && lead + |r| <= |s|
    && s[lead..lead + |r|] == r
    && (forall i :: 0 <= i < lead ==> s[i] in cs)
    && (forall i :: lead + |r| <= i < |s| ==> s[i] in cs)
  }

  /** `r` is `s` with characters of `cs` removed from its two ends only. */
  ghost predicate Trimmed(s: string, r: string, cs: string)
  {
    exists lead: nat :: TrimmedAt(s, r, cs, lead)
  }

  /** `s` neither starts nor ends with a character of `cs`. */
  predicate Bare(s: string, cs: string)
  {
    s == [] || (s[0] !in cs && s[|s| - 1] !in cs)
  }

  /** Python's `s.strip(cs)`: characters of `cs` are removed from both ends and
      nothing in between is touched. */
  function Strip(s: string, cs: string): (r: string)
    ensures Trimmed(s, r, cs)
    ensures Bare(r, cs)
  {
    var left := StripLeft(s, cs);
    var r := StripRight(left, cs);
    TrimmedOfParts(s, left, r, cs);
    r
  }

  /** A suffix of `s` after a prefix of `cs` characters, cut down to a prefix
      followed only by `cs` characters, is a trimming of `s`. */
  lemma TrimmedOfParts(s: string, left: string, r: string, cs: string)
    requires |left| <= |s| && left == s[|s| - |left|..]
    requires forall i :: 0 <= i < |s| - |left| ==> s[i] in cs
    requires left == [] || left[0] !in cs
    requires |r| <= |left| && r == left[..|r|]
    requires forall i :: |r| <= i < |left| ==> left[i] in cs
    ensures TrimmedAt(s, r, cs, |s| - |left|)
    ensures r == [] || r[0] !in cs
  {
    var lead := |s| - |left|;
    assert s[lead..lead + |r|] == r;
    forall i | lead + |r| <= i < |s| ensures s[i] in cs {
      assert s[i] == left[i - lead];
    }
  }

  lemma {:induction false} StripLeftAt(s: string, cs: string, lead: nat)
    requires lead <= |s|
    requires forall i :: 0 <= i < lead ==> s[i] in cs
    requires lead == |s| || s[lead] !in cs
    ensures StripLeft(s, cs) == s[lead..]
    decreases lead
  {
    if lead > 0 {
      StripLeftAt(s[1..], cs, lead - 1);
      assert s[1..][lead - 1..] == s[lead..];
    }
  }

  lemma {:induction false} StripRightAt(s: string, cs: string, keep: nat)
    requires keep <= |s|
    requires forall i :: keep <= i < |s| ==> s[i] in cs
    requires keep == 0 || s[keep - 1] !in cs
    ensures StripRight(s, cs) == s[..keep]
    decreases |s| - keep
  {
    if keep < |s| {
      StripRightAt(s[..|s| - 1], cs, keep);
      assert s[..|s| - 1][..keep] == s[..keep];
    }
  }

  /** The two ensures of `Strip` determine its result: any trimmed piece of `s`
      that is bare is `Strip(s, cs)`. */
  lemma StripUnique(s: string, r: string, cs: string)
    requires Trimmed(s, r, cs)
    requires Bare(r, cs)
    ensures Strip(s, cs) == r
  {
    var lead: nat :| TrimmedAt(s, r, cs, lead);
    if r == [] {
      StripLeftAt(s, cs, |s|);
    } else {
      StripTrimmedNonEmpty(s, r, cs, lead);
    }
  }

  lemma StripTrimmedNonEmpty(s: string, r: string, cs: string, lead: nat)
    requires TrimmedAt(s, r, cs, lead)
    requires r != [] && r[0] !in cs && r[|r| - 1] !in cs
    ensures Strip(s, cs) == r
  {
    LeftOfTrimmed(s, r, cs, lead);
    var left := s[lead..];
    assert left[|r| - 1] == r[|r| - 1];
    StripRightAt(left, cs, |r|);
  }

  /** Stripping the left end of a trimmed text leaves the kept piece followed by the right padding. */
  lemma LeftOfTrimmed(s: string, r: string, cs: string, lead: nat)
    requires TrimmedAt(s, r, cs, lead)
    requires r != [] && r[0] !in cs
    ensures StripLeft(s, cs) == s[lead..]
    ensures |r| <= |s[lead..]| && s[lead..][..|r|] == r
    ensures forall i :: |r| <= i < |s[lead..]| ==> s[lead..][i] in cs
  {
    assert s[lead] == r[0];
    StripLeftAt(s, cs, lead);
    RightPadding(s, r, cs, lead);
  }

  /** After the left padding of a trimmed text come the kept piece and the right padding. */
  lemma RightPadding(s: string, r: string, cs: string, lead: nat)
    requires TrimmedAt(s, r, cs, lead)
    ensures |r| <= |s[lead..]| && s[lead..][..|r|] == r
    ensures forall i :: |r| <= i < |s[lead..]| ==> s[lead..][i] in cs
  {
    var left := s[lead..];
    assert left[..|r|] == r;
    forall i | |r| <= i < |left| ensures left[i] in cs {
      assert left[i] == s[lead + i];
    }
  }

  /** Stripping twice is stripping once. */
  lemma StripIdempotent(s: string, cs: string)
    ensures Strip(Strip(s, cs), cs) == Strip(s, cs)
  {
    var r := Strip(s, cs);
    assert TrimmedAt(r, r, cs, 0);
    StripUnique(r, r, cs);
  }

  /** Stripping removes exactly the padding around a bare text. */
  lemma StripPadded(pad: string, x: string, tail: string, cs: string)
    requires forall i :: 0 <= i < |pad| ==> pad[i] in cs
    requires forall i :: 0 <= i < |tail| ==> tail[i] in cs
    requires Bare(x, cs)
    ensures Strip(pad + x + tail, cs) == x
  {
    var s := pad + x + tail;
    assert TrimmedAt(s, x, cs, |pad|);
    StripUnique(s, x, cs);
  }

  /** A bare text is left as it is. */
  lemma StripBare(s: string, cs: string)
    requires Bare(s, cs)
    ensures Strip(s, cs) == s
  {
    StripPadded([], s, [], cs);
    assert [] + s + [] == s;
  }

  /** `Strip` looks only at which characters `cs` contains. */
  lemma StripSameSet(s: string, cs: string, ds: string)
    requires forall c :: c in cs <==> c in ds
    ensures Strip(s, cs) == Strip(s, ds)
  {
    var r := Strip(s, cs);
    var lead: nat :| TrimmedAt(s, r, cs, lead);
    TrimmedAtSameSet(s, r, cs, ds, lead);
    StripUnique(s, r, ds);
  }

  lemma TrimmedAtSameSet(s: string, r: string, cs: string, ds: string, lead: nat)
    requires forall c :: c in cs <==> c in ds
    requires TrimmedAt(s, r, cs, lead) && Bare(r, cs)
    ensures TrimmedAt(s, r, ds, lead) && Bare(r, ds)
  {
  }

  /** The characters Python's `str.isspace` accepts (Unicode White_Space plus
      the four ASCII information separators). */
  const Whitespace: string :=
    " \t\n\r\U{000B}\U{000C}\U{001C}\U{001D}\U{001E}\U{001F}\U{0085}\U{00A0}\U{1680}"
    + "\U{2000}\U{2001}\U{2002}\U{2003}\U{2004}\U{2005}\U{2006}\U{2007}\U{2008}\U{2009}\U{200A}"
    + "\U{2028}\U{2029}\U{202F}\U{205F}\U{3000}"

  /** Python's argument-less `s.strip()`. */
  function StripSpace(s: string): (r: string)
    ensures Trimmed(s, r, Whitespace)
    ensures Bare(r, Whitespace)
  {
    Strip(s, Whitespace)
  }

  /** Python's `s.split(' ')[0]`: the text before the first space, or all of `s`
      when it holds no space. */
  function FirstToken(s: string): (r: string)
    ensures |r| <= |s| && s[..|r|] == r
    ensures ' ' !in r
    ensures |r| < |s| ==> s[|r|] == ' '
    ensures ' ' !in s ==> r == s
  {
    var parts := Split(s, ' ');
    if |parts| == 1 then parts[0]
    else
      assert s == parts[0] + [' '] + Join(parts[1..], ' ');
      parts[0]
  }

  /** One character in lower case: only 'A' to 'Z' change. */
  function LowerChar(c: char): (d: char)
    ensures 'a' <= d <= 'z' <==> 'A' <= c <= 'Z' || 'a' <= c <= 'z'
  {
    if 'A' <= c <= 'Z' then (c as int + 32) as char else c
  }

  /** ASCII lower-casing, the case folding Python applies when it reads `inf` and `nan`. */
  function AsciiLower(s: string): (r: string)
    ensures |r| == |s|
    ensures forall i :: 0 <= i < |s| ==> r[i] == LowerChar(s[i])
  {
    seq(|s|, i requires 0 <= i < |s| => LowerChar(s[i]))
  }
}
