/**
 * The Python string operations the modelled code relies on: `str.isspace`,
 * `str.isalnum`, `str.lower`, `str.strip`, `str.split()`, `str.join`,
 * `str.replace`, `str.startswith` and `re.sub(r'\s+', ' ', s)`.
 * Strings are sequences of code points, as Python's `str` is.
 */
module Text {

  /**
   * `c.isspace()` on ASCII: tab, line feed, vertical tab, form feed, carriage return,
   * the four information separators 0x1C-0x1F and the blank.
   */
  predicate IsSpace(c: char) {
    '\t' <= c <= ' ' && !('\U{E}' <= c <= '\U{1B}')
  }

  /** `c.isalnum()`, restricted to the ASCII letters and digits, the Latin-1 letters (which hold
   * the German umlauts and sharp s) and the capital sharp s. */
  predicate IsAlnum(c: char) {
    '0' <= c <= '9' || 'A' <= c <= 'Z' || 'a' <= c <= 'z'
    || ('\U{C0}' <= c <= '\U{FF}' && c != '\U{D7}' && c != '\U{F7}') || c == '\U{1E9E}'
  }

  /** `c.lower()` for the upper-case letters of ASCII and Latin-1, and the capital sharp s. */
  function LowerChar(c: char): (d: char)
    ensures IsAlnum(d) == IsAlnum(c)
    ensures IsSpace(d) == IsSpace(c)
    ensures !('A' <= d <= 'Z')
  {
    if 'A' <= c <= 'Z' || ('\U{C0}' <= c <= '\U{DE}' && c != '\U{D7}') then (c as int + 32) as char
    else if c == '\U{1E9E}' then '\U{DF}'
    else c
  }

  /** `s.lower()`, one code point at a time. */
  function Lower(s: string): (r: string)
    ensures |r| == |s|
    ensures forall i :: 0 <= i < |s| ==> r[i] == LowerChar(s[i])
  {
    if s == [] then [] else [LowerChar(s[0])] + Lower(s[1..])
  }

  /** Lower-casing works character by character. */
  lemma LowerCons(c: char, s: string)
    ensures Lower([c] + s) == [LowerChar(c)] + Lower(s)
  {
    var a, b := Lower([c] + s), [LowerChar(c)] + Lower(s);
    assert forall i :: 0 <= i < |a| ==> a[i] == b[i];
  }

  /** A character lower-casing leaves alone survives lower-casing. */
  lemma LowerKeeps(s: string, d: char)
    requires d in s && LowerChar(d) == d
    ensures d in Lower(s)
  {
    var i :| 0 <= i < |s| && s[i] == d;
    assert Lower(s)[i] == d;
  }

  /** Every character of a lower-cased string is the lower case of one of the original's. */
  lemma LowerDraws(s: string, d: char)
    requires d in Lower(s)
    ensures exists c :: c in s && LowerChar(c) == d
  {
    var i :| 0 <= i < |s| && Lower(s)[i] == d;
    assert s[i] in s;
  }

  predicate StartsWith(s: string, prefix: string) {
    |prefix| <= |s| && s[..|prefix|] == prefix
  }

  predicate OccursAt(s: string, pattern: string, i: int) {
    0 <= i && i + |pattern| <= |s| && s[i..i + |pattern|] == pattern
  }

  /** `pattern in s` for a non-empty pattern: some window of s equals it. */
  ghost predicate Occurs(s: string, pattern: string) {
    exists i :: OccursAt(s, pattern, i)
  }

  predicate NoEdgeSpace(s: string) {
    s == [] || (!IsSpace(s[0]) && !IsSpace(s[|s| - 1]))
  }

  predicate NoSpaceRun(s: string) {
    forall i :: 0 <= i < |s| - 1 ==> !(IsSpace(s[i]) && IsSpace(s[i + 1]))
  }

  predicate SpacesAreBlank(s: string) {
    forall i :: 0 <= i < |s| && IsSpace(s[i]) ==> s[i] == ' '
  }

  /** What `re.sub(r'\s+', ' ', x).strip()` leaves: no whitespace at the edges, single blanks inside. */
  predicate IsNormalized(s: string) {
    NoEdgeSpace(s) && NoSpaceRun(s) && SpacesAreBlank(s)
  }

  /** `s.lstrip()`: the suffix left after dropping the leading whitespace. */
  function LStrip(s: string): (r: string)
    ensures |r| <= |s| && r == s[|s| - |r|..]
    ensures r == [] || !IsSpace(r[0])
    ensures forall i :: 0 <= i < |s| - |r| ==> IsSpace(s[i])
  {
    if s != [] && IsSpace(s[0]) then LStrip(s[1..]) else s
  }

  /** `s.rstrip()`: the prefix left after dropping the trailing whitespace. */
  function RStrip(s: string): (r: string)
    ensures |r| <= |s| && r == s[..|r|]
    ensures r == [] || !IsSpace(r[|r| - 1])
    ensures forall i :: |r| <= i < |s| ==> IsSpace(s[i])
  {
    if s != [] && IsSpace(s[|s| - 1]) then RStrip(s[..|s| - 1]) else s
  }

  /** `s.strip()`: the infix of s between its leading and its trailing whitespace. */
  function Strip(s: string): (r: string)
    ensures NoEdgeSpace(r)
  {
    RStrip(LStrip(s))
  }

  /** r sits in s at offset a. */
  predicate InfixAt(s: string, a: int, r: string) {
    0 <= a && a + |r| <= |s| && r == s[a..a + |r|]
  }

  /** What trimming removes is whitespace at either end: the result is the infix in between. */
  lemma StripInfix(s: string)
    ensures InfixAt(s, |s| - |LStrip(s)|, Strip(s))
    ensures forall i :: 0 <= i < |s| - |LStrip(s)| ==> IsSpace(s[i])
    ensures forall i :: |s| - |LStrip(s)| + |Strip(s)| <= i < |s| ==> IsSpace(s[i])
  {
    StripParts(s, LStrip(s), Strip(s));
  }

  lemma StripParts(s: string, t: string, r: string)
    requires t == LStrip(s) && r == Strip(s)
    ensures var a := |s| - |t|;
      InfixAt(s, a, r)
      && (forall i :: 0 <= i < a ==> IsSpace(s[i]))
      && (forall i :: a + |r| <= i < |s| ==> IsSpace(s[i]))
  {
    SuffixPrefixInfix(s, t, r);
  }

  /** A prefix r of a suffix t of s, with only whitespace cut off, is an infix of s between whitespace. */
  lemma SuffixPrefixInfix(s: string, t: string, r: string)
    requires |t| <= |s| && t == s[|s| - |t|..] && |r| <= |t| && r == t[..|r|]
    requires forall i :: |r| <= i < |t| ==> IsSpace(t[i])
    ensures var a := |s| - |t|; a + |r| <= |s| && r == s[a..a + |r|]
    ensures var a := |s| - |t|; forall i :: a + |r| <= i < |s| ==> IsSpace(s[i])
  {
    var a := |s| - |t|;
    forall i | a + |r| <= i < |s| ensures IsSpace(s[i]) {
      assert s[i] == t[i - a];
    }
  }

  /** `re.sub(r'\s+', ' ', s)`: every maximal run of whitespace becomes a single blank. */
  function CollapseWhitespace(s: string): (r: string)
    decreases |s|
    ensures s == [] <==> r == []
    ensures s != [] ==> r[0] == (if IsSpace(s[0]) then ' ' else s[0])
    ensures NoSpaceRun(r) && SpacesAreBlank(r)
  {
    if s == [] then []
    else if IsSpace(s[0]) then [' '] + CollapseWhitespace(LStrip(s))
    else [s[0]] + CollapseWhitespace(s[1..])
  }

  /** Any infix of a string keeps its single-blank spacing. */
  lemma InfixKeepsSpacing(s: string, a: nat, b: nat)
    requires a <= b <= |s|
    requires NoSpaceRun(s) && SpacesAreBlank(s)
    ensures NoSpaceRun(s[a..b]) && SpacesAreBlank(s[a..b])
  {
    var t := s[a..b];
    forall i | 0 <= i < |t| - 1 ensures !(IsSpace(t[i]) && IsSpace(t[i + 1])) {
      assert t[i] == s[a + i] && t[i + 1] == s[a + i + 1];
    }
    forall i | 0 <= i < |t| && IsSpace(t[i]) ensures t[i] == ' ' {
      assert t[i] == s[a + i];
    }
  }

  /** `re.sub(r'\s+', ' ', x).strip()`, the normal form every answer is compared in. */
  function Normalize(s: string): (r: string)
    ensures IsNormalized(r)
  {
    var c := CollapseWhitespace(s);
    StripKeepsSpacing(c);
    Strip(c)
  }

  /** Trimming a string with single-blank spacing leaves it in normal form. */
  lemma StripKeepsSpacing(c: string)
    requires NoSpaceRun(c) && SpacesAreBlank(c)
    ensures IsNormalized(Strip(c))
  {
    StripInfix(c);
    var a := |c| - |LStrip(c)|;
    InfixKeepsSpacing(c, a, a + |Strip(c)|);
  }

  /** A string already in normal form is left as it is: normalising twice is normalising once. */
  lemma {:induction false} CollapseKeepsNormalized(s: string)
    requires NoSpaceRun(s) && SpacesAreBlank(s)
    ensures CollapseWhitespace(s) == s
    decreases |s|
  {
    if s != [] {
      InfixKeepsSpacing(s, 1, |s|);
      if IsSpace(s[0]) {
        assert |s| > 1 ==> !IsSpace(s[1]);
        assert LStrip(s) == s[1..] by {
          if |s| > 1 { assert LStrip(s[1..]) == s[1..]; }
        }
      }
      CollapseKeepsNormalized(s[1..]);
      assert s == [s[0]] + s[1..];
    }
  }

  lemma NormalizeIdempotent(s: string)
    ensures Normalize(Normalize(s)) == Normalize(s)
  {
    var n := Normalize(s);
    CollapseKeepsNormalized(n);
    assert LStrip(n) == n;
    assert RStrip(n) == n;
  }

  predicate NoSpaceIn(w: string) {
    forall i :: 0 <= i < |w| ==> !IsSpace(w[i])
  }

  /** A string without whitespace is its own trimmed and normalised form. */
  lemma NoSpaceUnchanged(s: string)
    requires NoSpaceIn(s)
    ensures Strip(s) == s && Normalize(s) == s
  {
    StripNoEdgeSpace(s);
    CollapseKeepsNormalized(s);
  }

  /** Trimming a string without whitespace at either end changes nothing. */
  lemma StripNoEdgeSpace(s: string)
    requires NoEdgeSpace(s)
    ensures Strip(s) == s
  {
    assert LStrip(s) == s by {
      assert s != [] ==> !IsSpace(s[0]);
    }
    assert RStrip(s) == s by {
      assert s != [] ==> !IsSpace(s[|s| - 1]);
    }
  }

  /** Whitespace in front of a string is trimmed away with the rest of its leading whitespace. */
  lemma StripLeadingSpace(c: char, s: string)
    requires IsSpace(c)
    ensures Strip([c] + s) == Strip(s)
  {
    assert ([c] + s)[1..] == s;
  }

  /** The longest prefix of s that holds no whitespace. */
  function TakeWord(s: string): (w: string)
    ensures |w| <= |s| && w == s[..|w|]
    ensures NoSpaceIn(w)
    ensures |w| < |s| ==> IsSpace(s[|w|])
    ensures s != [] && !IsSpace(s[0]) ==> w != []
  {
    if s != [] && !IsSpace(s[0]) then [s[0]] + TakeWord(s[1..]) else []
  }

  /** `s.split()` with no separator: the maximal runs of non-whitespace, in order. */
  function Words(s: string): seq<string>
    decreases |s|
  {
    var t := LStrip(s);
    if t == [] then []
    else
      var w := TakeWord(t);
      assert |t[|w|..]| < |s|;
      [w] + Words(t[|w|..])
  }

  /** The first word of a string that is not all whitespace, and the words after it. */
  lemma WordsStep(s: string)
    requires LStrip(s) != []
    ensures Words(s) == [TakeWord(LStrip(s))] + Words(LStrip(s)[|TakeWord(LStrip(s))|..])
  {
  }

  /** Every word is non-empty and holds no whitespace. */
  lemma {:induction false} WordsShape(s: string)
    ensures forall k :: 0 <= k < |Words(s)| ==> Words(s)[k] != [] && NoSpaceIn(Words(s)[k])
    decreases |s|
  {
    var t := LStrip(s);
    if t != [] {
      var w := TakeWord(t);
      WordsShape(t[|w|..]);
      WordsStep(s);
      ConsShape(w, Words(t[|w|..]));
    }
  }

  /** A word in front of well-formed words keeps them well-formed. */
  lemma ConsShape(w: string, rest: seq<string>)
    requires w != [] && NoSpaceIn(w)
    requires forall k :: 0 <= k < |rest| ==> rest[k] != [] && NoSpaceIn(rest[k])
    ensures forall k :: 0 <= k < |[w] + rest| ==> ([w] + rest)[k] != [] && NoSpaceIn(([w] + rest)[k])
  {
  }

  /** A string splits into no words exactly when it is all whitespace. */
  lemma WordsEmpty(s: string)
    ensures Words(s) == [] <==> forall i :: 0 <= i < |s| ==> IsSpace(s[i])
  {
    var t := LStrip(s);
    if t != [] {
      assert s[|s| - |t|] == t[0];
    }
  }

  predicate AlnumOrSpaceOnly(s: string) {
    forall i :: 0 <= i < |s| ==> IsAlnum(s[i]) || IsSpace(s[i])
  }

  predicate AlnumOnly(s: string) {
    forall i :: 0 <= i < |s| ==> IsAlnum(s[i])
  }

  lemma InfixAlnumOrSpace(s: string, a: nat, b: nat)
    requires a <= b <= |s| && AlnumOrSpaceOnly(s)
    ensures AlnumOrSpaceOnly(s[a..b])
  {
    forall i | 0 <= i < b - a ensures IsAlnum(s[a..b][i]) || IsSpace(s[a..b][i]) {
      assert s[a..b][i] == s[a + i];
    }
  }

  predicate AllAlnumWords(ws: seq<string>) {
    forall k :: 0 <= k < |ws| ==> AlnumOnly(ws[k])
  }

  /** The first word of a string of letters, digits and whitespace is all letters and digits, and what follows it keeps the shape. */
  lemma FirstWordAlnum(s: string)
    requires AlnumOrSpaceOnly(s) && LStrip(s) != []
    ensures AlnumOnly(TakeWord(LStrip(s)))
    ensures AlnumOrSpaceOnly(LStrip(s)[|TakeWord(LStrip(s))|..])
  {
    var t := LStrip(s);
    var w := TakeWord(t);
    InfixAlnumOrSpace(s, |s| - |t|, |s|);
    InfixAlnumOrSpace(t, 0, |w|);
    InfixAlnumOrSpace(t, |w|, |t|);
  }

  /** Splitting a string of letters, digits and whitespace yields words of letters and digits. */
  lemma {:induction false} WordsAreAlnum(s: string)
    requires AlnumOrSpaceOnly(s)
    ensures AllAlnumWords(Words(s))
    decreases |s|
  {
    var t := LStrip(s);
    if t != [] {
      var w := TakeWord(t);
      FirstWordAlnum(s);
      WordsAreAlnum(t[|w|..]);
      WordsStep(s);
      ConsAlnum(w, Words(t[|w|..]));
    }
  }

  lemma ConsAlnum(w: string, rest: seq<string>)
    requires AlnumOnly(w) && AllAlnumWords(rest)
    ensures AllAlnumWords([w] + rest)
  {
    assert forall k :: 0 < k < |[w] + rest| ==> ([w] + rest)[k] == rest[k - 1];
  }

  /** `sep.join(ws)` for a one-character separator. */
  function JoinWith(ws: seq<string>, sep: char): (r: string)
    ensures ws == [] ==> r == []
    ensures ws != [] ==> StartsWith(r, ws[0])
  {
    if ws == [] then []
    else if |ws| == 1 then ws[0]
    else ws[0] + [sep] + JoinWith(ws[1..], sep)
  }

  /** `s.replace(target, replacement)`: the leftmost non-overlapping occurrences, left to right. */
  function Replace(s: string, target: string, replacement: string): (r: string)
    requires target != []
    decreases |s|
    ensures s == target ==> r == replacement
  {
    if |s| < |target| then s
    else if s[..|target|] == target then replacement + Replace(s[|target|..], target, replacement)
    else [s[0]] + Replace(s[1..], target, replacement)
  }

  /** Replacing a pattern that does not occur changes nothing. */
  lemma {:induction false} ReplaceAbsent(s: string, target: string, replacement: string)
    requires target != [] && !Occurs(s, target)
    ensures Replace(s, target, replacement) == s
    decreases |s|
  {
    if |s| >= |target| {
      assert !OccursAt(s, target, 0);
      assert s[0..|target|] == s[..|target|];
      forall i | OccursAt(s[1..], target, i) ensures OccursAt(s, target, i + 1) {
        assert s[1..][i..i + |target|] == s[i + 1..i + 1 + |target|];
      }
      ReplaceAbsent(s[1..], target, replacement);
      assert s == [s[0]] + s[1..];
    }
  }


  /** Replacing a single character: a leading occurrence is replaced and the scan goes on after it. */
  lemma ReplaceCharHit(c: char, s: string, replacement: string)
    ensures Replace([c] + s, [c], replacement) == replacement + Replace(s, [c], replacement)
  {
    assert ([c] + s)[1..] == s;
  }

  /** Replacing a single character: any other leading character is kept. */
  lemma ReplaceCharMiss(c: char, s: string, target: char, replacement: string)
    requires c != target
    ensures Replace([c] + s, [target], replacement) == [c] + Replace(s, [target], replacement)
  {
    assert ([c] + s)[1..] == s;
  }

  /** A character outside the pattern survives every replacement. */
  lemma {:induction false} ReplaceKeeps(s: string, target: string, replacement: string, d: char)
    requires target != [] && d in s && d !in target
    ensures d in Replace(s, target, replacement)
    decreases |s|
  {
    if |s| >= |target| {
      if s[..|target|] == target {
        assert s == s[..|target|] + s[|target|..];
        ReplaceKeeps(s[|target|..], target, replacement, d);
      } else if d != s[0] {
        assert s == [s[0]] + s[1..];
        ReplaceKeeps(s[1..], target, replacement, d);
      }
    }
  }

  /** Every character of a replacement's result comes from the string or from the replacement. */
  lemma {:induction false} ReplaceDraws(s: string, target: string, replacement: string, d: char)
    requires target != [] && d in Replace(s, target, replacement)
    ensures d in s || d in replacement
    decreases |s|
  {
    if |s| >= |target| {
      var r := Replace(s, target, replacement);
      if s[..|target|] == target {
        if d !in replacement {
          assert d in r[|replacement|..];
          ReplaceDraws(s[|target|..], target, replacement, d);
        }
      } else if d != s[0] {
        assert d in r[1..];
        ReplaceDraws(s[1..], target, replacement, d);
      }
    }
  }

  /** Collapsing whitespace keeps every other character. */
  lemma {:induction false} CollapseKeeps(s: string, d: char)
    requires d in s && !IsSpace(d)
    ensures d in CollapseWhitespace(s)
    decreases |s|
  {
    if IsSpace(s[0]) {
      var t := LStrip(s);
      assert d in t by {
        var i :| 0 <= i < |s| && s[i] == d;
        assert t[i - (|s| - |t|)] == d;
      }
      CollapseKeeps(t, d);
    } else if d != s[0] {
      assert d in s[1..];
      CollapseKeeps(s[1..], d);
    }
  }

  /** Collapsing whitespace adds no character but the blank. */
  lemma {:induction false} CollapseDraws(s: string, d: char)
    requires d in CollapseWhitespace(s) && d != ' '
    ensures d in s
    decreases |s|
  {
    var r := CollapseWhitespace(s);
    if d != r[0] {
      assert d in r[1..];
      if IsSpace(s[0]) {
        var t := LStrip(s);
        CollapseDraws(t, d);
        assert d in s by {
          var i :| 0 <= i < |t| && t[i] == d;
          assert s[i + (|s| - |t|)] == d;
        }
      } else {
        CollapseDraws(s[1..], d);
      }
    }
  }

  /** Stripping keeps every character that is not whitespace, and adds none. */
  lemma StripChars(s: string, d: char)
    requires !IsSpace(d)
    ensures d in Strip(s) <==> d in s
  {
    StripInfix(s);
    InfixChars(s, |s| - |LStrip(s)|, Strip(s), d);
  }

  /** An infix with only whitespace around it holds the same characters that are not whitespace. */
  lemma InfixChars(s: string, a: nat, r: string, d: char)
    requires !IsSpace(d) && InfixAt(s, a, r)
    requires forall i :: 0 <= i < a ==> IsSpace(s[i])
    requires forall i :: a + |r| <= i < |s| ==> IsSpace(s[i])
    ensures d in r <==> d in s
  {
    if d in s {
      var i :| 0 <= i < |s| && s[i] == d;
      assert r[i - a] == d;
    }
    if d in r {
      var i :| 0 <= i < |r| && r[i] == d;
      assert s[a + i] == d;
    }
  }

  /** Normalising keeps every character that is not whitespace, and adds none. */
  lemma NormalizeChars(s: string, d: char)
    requires !IsSpace(d)
    ensures d in Normalize(s) <==> d in s
  {
    var c := CollapseWhitespace(s);
    StripChars(c, d);
    if d in s {
      CollapseKeeps(s, d);
    }
    if d in c {
      CollapseDraws(s, d);
    }
  }

  /**
   * A reference for `re.sub(r'\s+', ' ', s)` read one character at a time: a character
   * that is not whitespace is copied, and a whitespace character gives a blank unless
   * the character before it was whitespace too.
   */
  function Squeeze(s: string, afterSpace: bool): string {
    if s == [] then []
    else if IsSpace(s[0]) then (if afterSpace then [] else [' ']) + Squeeze(s[1..], true)
    else [s[0]] + Squeeze(s[1..], false)
  }

  /** After whitespace, the scan of s gives what the scan of s without its leading whitespace gives. */
  lemma {:induction false} SqueezeAfterSpace(s: string)
    ensures Squeeze(s, true) == Squeeze(LStrip(s), false)
    decreases |s|
  {
    if s != [] {
      if IsSpace(s[0]) {
        SqueezeAfterSpace(s[1..]);
      }
    }
  }

  /** Collapsing whitespace is the character-by-character scan: the same characters, in the same order. */
  lemma {:induction false} CollapseIsSqueeze(s: string)
    ensures CollapseWhitespace(s) == Squeeze(s, false)
    decreases |s|
  {
    if s != [] {
      if IsSpace(s[0]) {
        assert LStrip(s) == LStrip(s[1..]);
        CollapseIsSqueeze(LStrip(s));
        SqueezeAfterSpace(s[1..]);
      } else {
        CollapseIsSqueeze(s[1..]);
      }
    }
  }
}
