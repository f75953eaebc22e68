/**
 * findAndClickByText of the AI Studio script: scan the elements matching a selector, in document
 * order, for one whose trimmed, lower-cased text contains one of the (lower-cased) options; retry
 * the scan up to maxRetries times. The page is an oracle: `scans(i)` is the list of element texts
 * the i-th scan sees.
 */
module StudioText {
  import opened Wrappers

  /** The characters String.prototype.trim removes: WhiteSpace and LineTerminator of ECMAScript. */
  predicate IsJsSpace(c: char)
  {
    c == '\t' || c == '\n' || c == '\U{000B}' || c == '\U{000C}' || c == '\r' || c == ' ' ||
    c == '\U{00A0}' || c == '\U{1680}' || ('\U{2000}' <= c <= '\U{200A}') ||
    c == '\U{2028}' || c == '\U{2029}' || c == '\U{202F}' || c == '\U{205F}' ||
    c == '\U{3000}' || c == '\U{FEFF}'
  }

  /** The first position at or after i that does not hold white space (|s| if none). */
  function SkipForward(s: string, i: nat): (n: nat)
    requires i <= |s|
    ensures i <= n <= |s|
    ensures forall k :: i <= k < n ==> IsJsSpace(s[k])
    ensures n < |s| ==> !IsJsSpace(s[n])
    decreases |s| - i
  {
    if i < |s| && IsJsSpace(s[i]) then SkipForward(s, i + 1) else i
  }

  /** The end of the text before position j once the white space ending there is dropped (0 if none is left). */
  function SkipBackward(s: string, j: nat): (e: nat)
    requires j <= |s|
    ensures e <= j
    ensures forall k :: e <= k < j ==> IsJsSpace(s[k])
    ensures e > 0 ==> !IsJsSpace(s[e - 1])
  {
    if j > 0 && IsJsSpace(s[j - 1]) then SkipBackward(s, j - 1) else j
  }

  /** Number of leading trim characters. */
  function Leading(s: string): (n: nat)
    ensures n <= |s|
    ensures forall i :: 0 <= i < n ==> IsJsSpace(s[i])
    ensures n < |s| ==> !IsJsSpace(s[n])
  {
    SkipForward(s, 0)
  }

  /** Number of trailing trim characters. */
  function Trailing(s: string): (n: nat)
    ensures n <= |s|
    ensures forall i :: |s| - n <= i < |s| ==> IsJsSpace(s[i])
    ensures n < |s| ==> !IsJsSpace(s[|s| - 1 - n])
  {
    |s| - SkipBackward(s, |s|)
  }

  /** String.prototype.trim. */
  function Trim(s: string): string
  {
    var a := Leading(s);
    if a == |s| then [] else s[a..|s| - Trailing(s)]
  }

  /**
   * trim returns the empty string exactly for a text of white space only, and otherwise the text
   * between its leading and trailing white space, which starts and ends with something else.
   */
  lemma TrimSpec(s: string)
    ensures Trim(s) == [] <==> forall i :: 0 <= i < |s| ==> IsJsSpace(s[i])
    ensures Trim(s) != [] ==> Leading(s) + Trailing(s) < |s| && Trim(s) == s[Leading(s)..|s| - Trailing(s)]
    ensures Trim(s) != [] ==> !IsJsSpace(Trim(s)[0]) && !IsJsSpace(Trim(s)[|Trim(s)| - 1])
  {
    var a, b := Leading(s), Trailing(s);
    if a < |s| {
      assert !IsJsSpace(s[a]);
      assert a + b < |s|;
      assert Trim(s) == s[a..|s| - b];
    } else {
      assert Trim(s) == [];
    }
  }

  /** toLowerCase on one character (the ASCII letters). */
  function Lower(c: char): (d: char)
    ensures 'A' <= c <= 'Z' ==> d as int == c as int + 32
    ensures !('A' <= c <= 'Z') ==> d == c
  {
    if 'A' <= c <= 'Z' then (c as int + 32) as char else c
  }

  function LowerStr(s: string): (r: string)
    ensures |r| == |s| && forall i :: 0 <= i < |s| ==> r[i] == Lower(s[i])
  {
    seq(|s|, i requires 0 <= i < |s| => Lower(s[i]))
  }

  /** `needle` occurs in `hay` starting at position i. */
  predicate OccursAt(hay: string, needle: string, i: int)
  {
    0 <= i && i + |needle| <= |hay| && hay[i..i + |needle|] == needle
  }

  /** Whether `needle` occurs in `hay` at position i or after it. */
  function IncludesFrom(hay: string, needle: string, i: nat): bool
    requires i <= |hay|
    decreases |hay| - i
  {
    if |needle| > |hay| - i then false
    else if hay[i..i + |needle|] == needle then true
    else i < |hay| && IncludesFrom(hay, needle, i + 1)
  }

  /** String.prototype.includes. */
  predicate Includes(hay: string, needle: string)
  {
    IncludesFrom(hay, needle, 0)
  }

  /** The scan from position i finds exactly the occurrences at i or later. */
  lemma {:induction false} IncludesFromIff(hay: string, needle: string, i: nat)
    requires i <= |hay|
    ensures IncludesFrom(hay, needle, i) <==> exists j :: i <= j && OccursAt(hay, needle, j)
    decreases |hay| - i
  {
    if |needle| > |hay| - i {
    } else if hay[i..i + |needle|] == needle {
      assert OccursAt(hay, needle, i);
    } else if i < |hay| {
      IncludesFromIff(hay, needle, i + 1);
      if exists j :: i <= j && OccursAt(hay, needle, j) {
        var j :| i <= j && OccursAt(hay, needle, j);
        assert j != i;
      }
    }
  }

  lemma IncludesIffOccurs(hay: string, needle: string)
    ensures Includes(hay, needle) <==> exists i :: OccursAt(hay, needle, i)
  {
    IncludesFromIff(hay, needle, 0);
  }

  /** The text an element is compared on: element.textContent.trim().toLowerCase(). */
  function Normalized(text: string): string
  {
    LowerStr(Trim(text))
  }

  /** textOptions.some(t => elementText.includes(t.toLowerCase())), the options tried in order. */
  predicate Matches(text: string, options: seq<string>)
  {
    options != [] && (Includes(Normalized(text), LowerStr(options[0])) || Matches(text, options[1..]))
  }

  /** An element matches exactly when its text contains one of the options. */
  lemma {:induction false} MatchesIff(text: string, options: seq<string>)
    ensures Matches(text, options) <==> exists k :: 0 <= k < |options| && Includes(Normalized(text), LowerStr(options[k]))
  {
    if options != [] {
      MatchesIff(text, options[1..]);
      if exists k :: 0 <= k < |options| && Includes(Normalized(text), LowerStr(options[k])) {
        var k :| 0 <= k < |options| && Includes(Normalized(text), LowerStr(options[k]));
        if k > 0 {
          assert options[1..][k - 1] == options[k];
        }
      }
    }
  }

  /** An empty option is contained in every text, so it makes every element a match. */
  lemma EmptyOptionMatchesEverything(text: string, options: seq<string>)
    requires "" in options
    ensures Matches(text, options)
  {
    var k :| 0 <= k < |options| && options[k] == "";
    assert Normalized(text)[..0] == LowerStr(options[k]);
    MatchesIff(text, options);
  }

  /** An occurrence of the lower-cased option in the normalized text makes the element a match. */
  lemma {:induction false} OccurrenceMatches(text: string, option: string, i: int)
    requires OccursAt(Normalized(text), LowerStr(option), i)
    ensures Matches(text, [option])
  {
    IncludesIffOccurs(Normalized(text), LowerStr(option));
    assert Includes(Normalized(text), LowerStr([option][0]));
  }

  /** Leading is the position of the first character that is not white space. */
  lemma LeadingAt(s: string, n: nat)
    requires n < |s| && !IsJsSpace(s[n]) && forall i :: 0 <= i < n ==> IsJsSpace(s[i])
    ensures Leading(s) == n
  {
  }

  /** Trailing is the distance from the end of the last character that is not white space. */
  lemma TrailingAt(s: string, n: nat)
    requires n < |s| && !IsJsSpace(s[|s| - 1 - n]) && forall i :: |s| - n <= i < |s| ==> IsJsSpace(s[i])
    ensures Trailing(s) == n
  {
  }

  /** White space before a text adds to its leading count; what follows the text does not change it. */
  lemma LeadingPadded(before: string, text: string, after: string)
    requires forall i :: 0 <= i < |before| ==> IsJsSpace(before[i])
    requires Leading(text) < |text|
    ensures Leading(before + text + after) == |before| + Leading(text)
  {
    var u := before + text + after;
    var a := Leading(text);
    forall i | 0 <= i < |before| + a ensures IsJsSpace(u[i]) {
      if i >= |before| { assert u[i] == text[i - |before|]; }
    }
    assert u[|before| + a] == text[a];
    LeadingAt(u, |before| + a);
  }

  /** White space after a text adds to its trailing count; what precedes the text does not change it. */
  lemma TrailingPadded(before: string, text: string, after: string)
    requires forall i :: 0 <= i < |after| ==> IsJsSpace(after[i])
    requires Trailing(text) < |text|
    ensures Trailing(before + text + after) == |after| + Trailing(text)
  {
    var u := before + text + after;
    var b := Trailing(text);
    forall i | |u| - (|after| + b) <= i < |u| ensures IsJsSpace(u[i]) {
      if i < |before| + |text| { assert u[i] == text[i - |before|]; }
      else { assert u[i] == after[i - |before| - |text|]; }
    }
    assert u[|u| - 1 - (|after| + b)] == text[|text| - 1 - b];
    TrailingAt(u, |after| + b);
  }

  /** trim removes white space added around a text. */
  lemma TrimIgnoresPadding(before: string, text: string, after: string)
    requires forall i :: 0 <= i < |before| ==> IsJsSpace(before[i])
    requires forall i :: 0 <= i < |after| ==> IsJsSpace(after[i])
    ensures Trim(before + text + after) == Trim(text)
  {
    if Leading(text) < |text| {
      LeadingPadded(before, text, after);
      TrailingPadded(before, text, after);
      TrimShifted(before, text, after);
    } else {
      BlankPadded(before, text, after);
      assert Leading(before + text + after) == |before + text + after|;
    }
  }

  /** Once the padding only adds to the white space counts, trim cuts out the same text. */
  lemma TrimShifted(before: string, text: string, after: string)
    requires Leading(text) < |text|
    requires Leading(before + text + after) == |before| + Leading(text)
    requires Trailing(before + text + after) == |after| + Trailing(text)
    ensures Trim(before + text + after) == Trim(text)
  {
    var a, b := Leading(text), Trailing(text);
    assert a + b < |text| by { assert !IsJsSpace(text[a]); }
    PaddedSlice(before, text, after, a, b);
  }

  lemma PaddedSlice(before: string, text: string, after: string, a: nat, b: nat)
    requires a + b <= |text|
    ensures (before + text + after)[|before| + a..|before| + |text| - b] == text[a..|text| - b]
  {
    assert (before + text + after)[|before|..|before| + |text|] == text;
  }

  /** White space around white space is white space. */
  lemma BlankPadded(before: string, text: string, after: string)
    requires forall i :: 0 <= i < |before| ==> IsJsSpace(before[i])
    requires Leading(text) == |text|
    requires forall i :: 0 <= i < |after| ==> IsJsSpace(after[i])
    ensures forall i :: 0 <= i < |before + text + after| ==> IsJsSpace((before + text + after)[i])
  {
    var u := before + text + after;
    forall i | 0 <= i < |u| ensures IsJsSpace(u[i]) {
      if |before| <= i < |before| + |text| {
        assert u[i] == text[i - |before|];
      } else if i >= |before| + |text| {
        assert u[i] == after[i - |before| - |text|];
      }
    }
  }

  /** Two texts that lower-case alike have their white space at the same positions, so trim cuts them at the same places. */
  lemma TrimAlike(t1: string, t2: string)
    requires LowerStr(t1) == LowerStr(t2)
    ensures |t1| == |t2| && Leading(t1) == Leading(t2) && Trailing(t1) == Trailing(t2)
  {
    assert |t1| == |LowerStr(t1)| == |t2|;
    forall i | 0 <= i < |t1| ensures IsJsSpace(t1[i]) <==> IsJsSpace(t2[i]) {
      assert Lower(t1[i]) == LowerStr(t1)[i] == LowerStr(t2)[i] == Lower(t2[i]);
    }
    if Leading(t1) < |t1| {
      LeadingAt(t2, Leading(t1));
      assert Trailing(t1) < |t1| by { assert !IsJsSpace(t1[Leading(t1)]); }
      TrailingAt(t2, Trailing(t1));
    }
  }

  /** The comparison text forgets the case of the element's text. */
  lemma NormalizedIgnoresCase(t1: string, t2: string)
    requires LowerStr(t1) == LowerStr(t2)
    ensures Normalized(t1) == Normalized(t2)
  {
    TrimAlike(t1, t2);
    var a, e := Leading(t1), |t1| - Trailing(t1);
    if a < |t1| {
      LowerSlicesAlike(t1, t2, a, e);
    }
  }

  /** Texts that lower-case alike have slices that lower-case alike. */
  lemma LowerSlicesAlike(t1: string, t2: string, a: nat, e: nat)
    requires LowerStr(t1) == LowerStr(t2) && a <= e <= |t1|
    ensures LowerStr(t1[a..e]) == LowerStr(t2[a..e])
  {
    assert |t1| == |LowerStr(t1)| == |t2|;
    forall k | 0 <= k < e - a ensures LowerStr(t1[a..e])[k] == LowerStr(t2[a..e])[k] {
      assert LowerStr(t1)[a + k] == LowerStr(t2)[a + k];
    }
  }

  /** Whether an element matches depends neither on the case of its text nor on that of the options. */
  lemma MatchIgnoresCase(t1: string, t2: string, o1: seq<string>, o2: seq<string>)
    requires LowerStr(t1) == LowerStr(t2)
    requires |o1| == |o2| && forall k :: 0 <= k < |o1| ==> LowerStr(o1[k]) == LowerStr(o2[k])
    ensures Matches(t1, o1) == Matches(t2, o2)
  {
    NormalizedIgnoresCase(t1, t2);
    MatchesIff(t1, o1);
    MatchesIff(t2, o2);
  }

  /** Options that lower-case alike give the same match on every text. */
  lemma MatchIgnoresOptionCase(text: string, o1: seq<string>, o2: seq<string>)
    requires |o1| == |o2| && forall k :: 0 <= k < |o1| ==> LowerStr(o1[k]) == LowerStr(o2[k])
    ensures Matches(text, o1) == Matches(text, o2)
  {
    MatchIgnoresCase(text, text, o1, o2);
  }

  /** Whether an element matches does not depend on white space around its text. */
  lemma MatchIgnoresPadding(before: string, text: string, after: string, options: seq<string>)
    requires forall i :: 0 <= i < |before| ==> IsJsSpace(before[i])
    requires forall i :: 0 <= i < |after| ==> IsJsSpace(after[i])
    ensures Matches(before + text + after, options) == Matches(text, options)
  {
    TrimIgnoresPadding(before, text, after);
    MatchesIff(before + text + after, options);
    MatchesIff(text, options);
  }

  datatype Click = Click(scan: nat, index: nat)

  /** No element of the first n scans matches. */
  ghost predicate NoMatchBefore(scans: nat -> seq<string>, options: seq<string>, n: int)
  {
    forall r: nat, j :: r < n && 0 <= j < |scans(r)| ==> !Matches(scans(r)[j], options)
  }

  /** A scan without a match extends the scans known to have none. */
  lemma NoMatchExtended(scans: nat -> seq<string>, options: seq<string>, n: nat)
    requires NoMatchBefore(scans, options, n)
    requires forall j :: 0 <= j < |scans(n)| ==> !Matches(scans(n)[j], options)
    ensures NoMatchBefore(scans, options, n + 1)
  {
  }

  /** One scan: the first element, in document order, whose text matches. */
  method FirstMatch(elements: seq<string>, options: seq<string>) returns (found: Option<nat>)
    ensures found.Some? ==>
      found.value < |elements| && Matches(elements[found.value], options) &&
      forall j :: 0 <= j < found.value ==> !Matches(elements[j], options)
    ensures found.None? ==> forall j :: 0 <= j < |elements| ==> !Matches(elements[j], options)
  {
    var e := 0;
    while e < |elements|
      invariant 0 <= e <= |elements|
      invariant forall j :: 0 <= j < e ==> !Matches(elements[j], options)
    {
      if Matches(elements[e], options) {
        return Some(e);
      }
      e := e + 1;
    }
    return None;
  }

  /**
   * findAndClickByText: the clicked element is the first match, in document order, of the first
   * scan that has one; None (the source's `false`) only after maxRetries scans without a match.
   */
  method FindAndClickByText(scans: nat -> seq<string>, options: seq<string>, maxRetries: int)
    returns (clicked: Option<Click>)
    ensures clicked.Some? ==>
      clicked.value.scan < maxRetries &&
      clicked.value.index < |scans(clicked.value.scan)| &&
      Matches(scans(clicked.value.scan)[clicked.value.index], options) &&
      (forall j :: 0 <= j < clicked.value.index ==> !Matches(scans(clicked.value.scan)[j], options)) &&
      NoMatchBefore(scans, options, clicked.value.scan)
    ensures clicked.None? ==> NoMatchBefore(scans, options, maxRetries)
  {
    var i: nat := 0;
    while i < maxRetries
      invariant NoMatchBefore(scans, options, i)
      invariant maxRetries >= 0 ==> i <= maxRetries
      decreases maxRetries - i
    {
      var found := FirstMatch(scans(i), options);
      if found.Some? {
        return Some(Click(i, found.value));
      }
      NoMatchExtended(scans, options, i);
      i := i + 1;
    }
    return None;
  }
}
