/** The Python string operations the backend applies: str.strip(),
    str.lower(), str.replace(), str.rstrip(ch), '\n'.join(...), str(int),
    and the case-insensitive containment used by the icontains lookup. */
module Text {

  /** Python's str.isspace() for a single character: the characters that
      str.strip() with no argument removes. */
  predicate IsSpace(c: char) {
    || c == ' ' || c == '\t' || c == '\n' || c == '\r'
    || c == '\U{000B}' || c == '\U{000C}'
    || ('\U{001C}' <= c <= '\U{001F}')
    || c == '\U{0085}' || c == '\U{00A0}' || c == '\U{1680}'
    || ('\U{2000}' <= c <= '\U{200A}')
    || c == '\U{2028}' || c == '\U{2029}' || c == '\U{202F}' || c == '\U{205F}'
    || c == '\U{3000}'
  }

  /** str.lower() on one character, for the Latin and Cyrillic capitals
      (the alphabets the application's data is written in); any other
      character is left as it is. */
  function Lower(c: char): char {
    if 'A' <= c <= 'Z' then (c as int + 32) as char
    else if '\U{0410}' <= c <= '\U{042F}' then (c as int + 32) as char
    else if '\U{0400}' <= c <= '\U{040F}' then (c as int + 80) as char
    else c
  }

  function LowerStr(s: string): (r: string)
    ensures |r| == |s|
    ensures forall i :: 0 <= i < |s| ==> r[i] == Lower(s[i])
  {
    seq(|s|, i requires 0 <= i < |s| => Lower(s[i]))
  }

  /** Lower-casing never produces or removes whitespace, and is idempotent. */
  lemma LowerFacts(c: char)
    ensures IsSpace(Lower(c)) <==> IsSpace(c)
    ensures Lower(Lower(c)) == Lower(c)
  {
  }

  lemma LowerStrIdempotent(s: string)
    ensures LowerStr(LowerStr(s)) == LowerStr(s)
  {
    forall i | 0 <= i < |s| ensures LowerStr(LowerStr(s))[i] == LowerStr(s)[i] {
      LowerFacts(s[i]);
    }
  }

  /** Number of leading whitespace characters. */
  function LeadingSpaces(s: string): (k: nat)
    ensures k <= |s|
    ensures forall i :: 0 <= i < k ==> IsSpace(s[i])
    ensures k < |s| ==> !IsSpace(s[k])
  {
    if s != [] && IsSpace(s[0]) then 1 + LeadingSpaces(s[1..]) else 0
  }

  /** Number of trailing whitespace characters. */
  function TrailingSpaces(s: string): (k: nat)
    ensures k <= |s|
    ensures forall i :: |s| - k <= i < |s| ==> IsSpace(s[i])
    ensures k < |s| ==> !IsSpace(s[|s| - k - 1])
  {
    if s != [] && IsSpace(s[|s| - 1]) then 1 + TrailingSpaces(s[..|s| - 1]) else 0
  }

  /** str.strip(): the input without its leading and trailing whitespace.
      The result is the part of s after its leading whitespace, cut before
      a run of trailing whitespace. */
  function Strip(s: string): (r: string)
    ensures r <= s[LeadingSpaces(s)..]
    ensures forall i :: LeadingSpaces(s) + |r| <= i < |s| ==> IsSpace(s[i])
    ensures r != [] ==> !IsSpace(r[0]) && !IsSpace(r[|r| - 1])
  {
    var t := s[LeadingSpaces(s)..];
    t[..|t| - TrailingSpaces(t)]
  }

  /** A string that neither starts nor ends with whitespace is its own strip. */
  lemma StripOfTrimmed(s: string)
    requires s != [] ==> !IsSpace(s[0]) && !IsSpace(s[|s| - 1])
    ensures Strip(s) == s
  {
    assert LeadingSpaces(s) == 0;
    assert s[0..] == s;
    assert TrailingSpaces(s) == 0;
  }

  /** Stripping twice strips nothing more. */
  lemma StripIdempotent(s: string)
    ensures Strip(Strip(s)) == Strip(s)
  {
    StripOfTrimmed(Strip(s));
  }

  predicate AllSpace(s: string) {
    forall i :: 0 <= i < |s| ==> IsSpace(s[i])
  }

  /** Whatever lies between a run of whitespace on each side, and neither
      starts nor ends with whitespace itself, is what str.strip() keeps. */
  lemma StripParts(a: string, m: string, b: string)
    requires AllSpace(a) && AllSpace(b)
    requires m != [] ==> !IsSpace(m[0]) && !IsSpace(m[|m| - 1])
    ensures Strip(a + m + b) == m
  {
    var s := a + m + b;
    if m == [] {
      assert forall i :: 0 <= i < |s| ==> IsSpace(s[i]);
      assert LeadingSpaces(s) == |s|;
    } else {
      assert s[|a|] == m[0];
      assert LeadingSpaces(s) == |a|;
      var t := s[|a|..];
      assert t == m + b;
      assert t[|m| - 1] == m[|m| - 1];
      assert TrailingSpaces(t) == |b|;
      assert t[..|t| - |b|] == m;
    }
  }

  /** Every string is its leading whitespace, its strip and its trailing
      whitespace, in that order. */
  lemma StripSplit(s: string) returns (a: string, b: string)
    ensures AllSpace(a) && AllSpace(b)
    ensures s == a + Strip(s) + b
  {
    var k := LeadingSpaces(s);
    var r := Strip(s);
    a := s[..k];
    b := s[k + |r|..];
    assert s[k..k + |r|] == r;
    assert s == s[..k] + s[k..k + |r|] + s[k + |r|..];
  }

  /** Extra whitespace around a string is stripped with the rest. */
  lemma StripSurrounded(s: string)
    ensures Strip(" " + s + " ") == Strip(s)
  {
    var a, b := StripSplit(s);
    var r := Strip(s);
    assert " " + s + " " == (" " + a) + r + (b + " ");
    StripParts(" " + a, r, b + " ");
  }

  /** Lower-casing keeps a run of whitespace a run of whitespace. */
  lemma LowerAllSpace(a: string)
    requires AllSpace(a)
    ensures AllSpace(LowerStr(a))
  {
    forall i | 0 <= i < |a| ensures IsSpace(LowerStr(a)[i]) {
      LowerFacts(a[i]);
    }
  }

  /** Lower-casing works character by character, so it distributes over
      concatenation. */
  lemma LowerConcat(a: string, m: string, b: string)
    ensures LowerStr(a + m + b) == LowerStr(a) + LowerStr(m) + LowerStr(b)
  {
  }

  /** Lower-casing a string split into whitespace, a trimmed middle and
      whitespace keeps that split. */
  lemma StripLowerParts(a: string, m: string, b: string)
    requires AllSpace(a) && AllSpace(b)
    requires m != [] ==> !IsSpace(m[0]) && !IsSpace(m[|m| - 1])
    ensures Strip(LowerStr(a + m + b)) == LowerStr(m)
  {
    LowerAllSpace(a);
    LowerAllSpace(b);
    if m != [] {
      LowerFacts(m[0]);
      LowerFacts(m[|m| - 1]);
    }
    LowerConcat(a, m, b);
    StripParts(LowerStr(a), LowerStr(m), LowerStr(b));
  }

  /** str.strip() and str.lower() commute, since lower-casing neither makes
      nor unmakes whitespace. */
  lemma StripLower(s: string)
    ensures Strip(LowerStr(s)) == LowerStr(Strip(s))
  {
    var a, b := StripSplit(s);
    StripLowerParts(a, Strip(s), b);
  }

  /** The position str.rsplit(ch, 1) cuts at: the last occurrence of ch,
      or -1 when ch does not occur (and rsplit returns one part only). */
  function LastIndex(s: string, ch: char): (k: int)
    ensures -1 <= k < |s|
    ensures k >= 0 ==> s[k] == ch
    ensures forall i :: k < i < |s| ==> s[i] != ch
  {
    if s == [] then -1
    else if s[|s| - 1] == ch then |s| - 1
    else LastIndex(s[..|s| - 1], ch)
  }

  /** One space on each side of a trimmed, non-empty string is stripped
      off again. */
  lemma StripPadded(t: string)
    requires t != [] && !IsSpace(t[0]) && !IsSpace(t[|t| - 1])
    ensures Strip(" " + t + " ") == t
  {
    var s := " " + t + " ";
    assert s[1] == t[0];
    assert LeadingSpaces(s) == 1;
    var u := s[1..];
    assert u == t + " ";
    assert u[|u| - 2] == t[|t| - 1];
    assert TrailingSpaces(u) == 1;
    assert u[..|u| - 1] == t;
  }

  /** s occurs in text starting at index i. */
  predicate OccursAt(text: string, s: string, i: int) {
    0 <= i && i + |s| <= |text| && text[i..i + |s|] == s
  }

  lemma OccursShift(text: string, s: string, i: int)
    requires text != [] && 0 <= i
    ensures OccursAt(text[1..], s, i) <==> OccursAt(text, s, i + 1)
  {
    if 0 <= i && i + |s| <= |text| - 1 {
      assert text[1..][i..i + |s|] == text[i + 1..i + 1 + |s|];
    }
  }

  /** The substring test `needle in haystack`. */
  function Contains(haystack: string, needle: string): (r: bool)
    ensures r <==> exists i :: OccursAt(haystack, needle, i)
    decreases |haystack|
  {
    if |needle| > |haystack| then
      assert forall i :: !OccursAt(haystack, needle, i);
      false
    else if haystack[..|needle|] == needle then
      assert OccursAt(haystack, needle, 0);
      true
    else
      var r := Contains(haystack[1..], needle);
      assert forall i :: OccursAt(haystack[1..], needle, i) <==> OccursAt(haystack, needle, i + 1) by {
        forall i ensures OccursAt(haystack[1..], needle, i) <==> OccursAt(haystack, needle, i + 1) {
          if i >= 0 { OccursShift(haystack, needle, i); }
        }
      }
      assert !OccursAt(haystack, needle, 0);
      assert (exists i :: OccursAt(haystack, needle, i)) ==> exists i :: OccursAt(haystack[1..], needle, i) by {
        if i :| OccursAt(haystack, needle, i) {
          assert OccursAt(haystack[1..], needle, i - 1);
        }
      }
      r
  }

  /** str.replace(pat, rep): every non-overlapping occurrence of pat, scanned
      from the left, is replaced by rep. */
  function ReplaceAll(s: string, pat: string, rep: string): (r: string)
    requires pat != []
    decreases |s|
  {
    if |s| >= |pat| && s[..|pat|] == pat then rep + ReplaceAll(s[|pat|..], pat, rep)
    else if s == [] then []
    else [s[0]] + ReplaceAll(s[1..], pat, rep)
  }

  /** Replacing a pattern that does not occur leaves the string as it is. */
  lemma {:induction false} ReplaceAbsent(s: string, pat: string, rep: string)
    requires pat != []
    requires !Contains(s, pat)
    ensures ReplaceAll(s, pat, rep) == s
    decreases |s|
  {
    assert !OccursAt(s, pat, 0);
    if s != [] {
      forall i | OccursAt(s[1..], pat, i) ensures OccursAt(s, pat, i + 1) {
        OccursShift(s, pat, i);
      }
      ReplaceAbsent(s[1..], pat, rep);
    }
  }

  /** str.rstrip(ch): the input without its trailing run of ch. */
  function RStripChar(s: string, ch: char): (r: string)
    ensures r <= s
    ensures r != [] ==> r[|r| - 1] != ch
    ensures forall i :: |r| <= i < |s| ==> s[i] == ch
  {
    if s != [] && s[|s| - 1] == ch then RStripChar(s[..|s| - 1], ch) else s
  }

  function DigitChar(d: nat): char
    requires d < 10
  {
    ['0', '1', '2', '3', '4', '5', '6', '7', '8', '9'][d]
  }

  predicate IsDigit(c: char) { '0' <= c <= '9' }

  function DigitValue(c: char): nat
    requires IsDigit(c)
  {
    c as int - '0' as int
  }

  /** str(n) for a non-negative integer: decimal digits, no leading zero. */
  function NatToString(n: nat): (r: string)
    ensures r != []
    ensures forall i :: 0 <= i < |r| ==> IsDigit(r[i])
    ensures r[0] == '0' ==> r == "0"
  {
    if n < 10 then [DigitChar(n)] else NatToString(n / 10) + [DigitChar(n % 10)]
  }

  /** The value of a string of decimal digits (int(s) restricted to digits). */
  function ParseNat(s: string): nat
    requires forall i :: 0 <= i < |s| ==> IsDigit(s[i])
  {
    if s == [] then 0 else 10 * ParseNat(s[..|s| - 1]) + DigitValue(s[|s| - 1])
  }

  /** Rendering a number and reading it back gives the number. */
  lemma {:induction false} ParseNatToString(n: nat)
    ensures ParseNat(NatToString(n)) == n
  {
    if n >= 10 {
      var prefix := NatToString(n / 10);
      var r := prefix + [DigitChar(n % 10)];
      assert r[..|r| - 1] == prefix;
      ParseNatToString(n / 10);
    }
  }

  /** sep.join(xs). */
  function Join(xs: seq<string>, sep: string): string {
    if xs == [] then [] else if |xs| == 1 then xs[0] else xs[0] + sep + Join(xs[1..], sep)
  }

  /** A separator at the end of the first item reads as an empty item after
      it. */
  lemma JoinTrailingSeparator(a: string, xs: seq<string>, sep: string)
    ensures Join([a + sep] + xs, sep) == Join([a, ""] + xs, sep)
  {
    if xs != [] {
      assert ([a + sep] + xs)[1..] == xs;
      assert ([a, ""] + xs)[1..] == [""] + xs;
      assert ([""] + xs)[1..] == xs;
    }
  }

  /** Index of the first occurrence of ch, or |s| when there is none. */
  function FirstIndex(s: string, ch: char): (k: nat)
    ensures k <= |s|
    ensures forall i :: 0 <= i < k ==> s[i] != ch
    ensures k < |s| ==> s[k] == ch
  {
    if s == [] || s[0] == ch then 0 else 1 + FirstIndex(s[1..], ch)
  }

  /** str.split(ch) for a one-character separator. */
  function Split(s: string, ch: char): (r: seq<string>)
    ensures r != []
    decreases |s|
  {
    var k := FirstIndex(s, ch);
    if k == |s| then [s] else [s[..k]] + Split(s[k + 1..], ch)
  }

  /** Joining lines that hold no separator and splitting again gives the lines. */
  lemma {:induction false} SplitJoin(xs: seq<string>, ch: char)
    requires xs != []
    requires forall i :: 0 <= i < |xs| ==> ch !in xs[i]
    ensures Split(Join(xs, [ch]), ch) == xs
  {
    if |xs| == 1 {
      assert FirstIndex(xs[0], ch) == |xs[0]|;
    } else {
      var j := Join(xs[1..], [ch]);
      var s := xs[0] + [ch] + j;
      assert Join(xs, [ch]) == s;
      assert forall i :: 0 <= i < |xs[0]| ==> s[i] == xs[0][i];
      assert s[|xs[0]|] == ch;
      assert forall i :: 0 <= i < |xs[0]| ==> s[i] != ch;
      assert FirstIndex(s, ch) == |xs[0]|;
      assert s[..|xs[0]|] == xs[0];
      assert s[|xs[0]| + 1..] == j;
      SplitJoin(xs[1..], ch);
    }
  }
}
