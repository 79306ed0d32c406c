/**
 * A chat reply cut into Markdown sections at its level-3 headers, as the translator
 * and the sentence analyser both do: `re.split(r"(### .+)", reply)` keeps the text
 * between headers at the even places and the header lines themselves at the odd
 * places, and every header with the text after it becomes one section.
 */
module MarkdownSections {
  import opened Wrappers
  import opened Text

  /** The pattern `### .+` matches at i: three hashes, a blank and at least one character that is not a newline. */
  predicate HeaderAt(s: string, i: int) {
    0 <= i && i + 5 <= |s|
    && s[i] == '#' && s[i + 1] == '#' && s[i + 2] == '#' && s[i + 3] == ' ' && s[i + 4] != '\n'
  }

  predicate NoHeader(s: string) {
    forall i :: 0 <= i < |s| ==> !HeaderAt(s, i)
  }

  /** A whole header line as the split keeps it: a match that runs to the end of its line. */
  predicate IsHeaderLine(h: string) {
    HeaderAt(h, 0) && '\n' !in h
  }

  /** The leftmost match at or after `from`. */
  function FindHeader(s: string, from: nat): (r: Option<nat>)
    requires from <= |s|
    decreases |s| - from
    ensures r.Some? ==> from <= r.value < |s| && HeaderAt(s, r.value)
    ensures r.Some? ==> forall j :: from <= j < r.value ==> !HeaderAt(s, j)
    ensures r.None? ==> forall j :: from <= j ==> !HeaderAt(s, j)
  {
    if from == |s| then None
    else if HeaderAt(s, from) then Some(from)
    else FindHeader(s, from + 1)
  }

  /** Where the greedy `.+` stops: the first newline at or after i, or the end. */
  function LineEnd(s: string, i: nat): (e: nat)
    requires i <= |s|
    decreases |s| - i
    ensures i <= e <= |s|
    ensures forall j :: i <= j < e ==> s[j] != '\n'
    ensures e == |s| || s[e] == '\n'
  {
    if i == |s| || s[i] == '\n' then i else LineEnd(s, i + 1)
  }

  /** `re.split(r"(### .+)", s)`: leftmost, non-overlapping matches, the search resuming after each. */
  function Split(s: string): (parts: seq<string>)
    decreases |s|
    ensures |parts| % 2 == 1
  {
    match FindHeader(s, 0)
    case None => [s]
    case Some(i) =>
      var e := LineEnd(s, i + 4);
      [s[..i], s[i..e]] + Split(s[e..])
  }

  function Concat(parts: seq<string>): string {
    if parts == [] then [] else parts[0] + Concat(parts[1..])
  }

  /** The split loses nothing: its parts joined give the reply back. */
  lemma {:induction false} SplitConcat(s: string)
    decreases |s|
    ensures Concat(Split(s)) == s
  {
    match FindHeader(s, 0)
    case None =>
      SplitNone(s);
    case Some(i) =>
      SplitAt(s, i);
      var e := LineEnd(s, i + 4);
      SplitConcat(s[e..]);
      ConcatTwo(s[..i], s[i..e], Split(s[e..]));
      SliceThree(s, i, e);
  }

  lemma SliceThree(s: string, i: nat, e: nat)
    requires i <= e <= |s|
    ensures s[..i] + s[i..e] + s[e..] == s
  {
  }

  lemma ConcatTwo(a: string, b: string, rest: seq<string>)
    ensures Concat([a, b] + rest) == a + b + Concat(rest)
  {
    assert ([a, b] + rest)[1..] == [b] + rest;
    assert ([b] + rest)[1..] == rest;
  }

  /**
   * Each part at an odd place is a header line that stops only at a newline: the part
   * after it starts a new line or is empty (and then, by HeaderRunsToEnd, the last).
   */
  lemma {:induction false} SplitHeaders(s: string, k: nat)
    requires k % 2 == 1 && k < |Split(s)|
    decreases |s|
    ensures IsHeaderLine(Split(s)[k])
    ensures Split(s)[k + 1] == [] || Split(s)[k + 1][0] == '\n'
  {
    match FindHeader(s, 0)
    case None =>
      SplitNone(s);
    case Some(i) =>
      SplitAt(s, i);
      var e := LineEnd(s, i + 4);
      if k == 1 {
        HeaderLineAt(s, i);
        SplitFirst(s[e..]);
        assert e < |s| ==> s[e..][0] == '\n';
      } else {
        SplitHeaders(s[e..], k - 2);
      }
  }

  /** An empty part after a header ends the split: the header ran to the end of the reply. */
  lemma {:induction false} HeaderRunsToEnd(s: string, k: nat)
    requires k % 2 == 1 && k + 1 < |Split(s)|
    decreases |s|
    ensures Split(s)[k + 1] == [] ==> k + 2 == |Split(s)|
  {
    match FindHeader(s, 0)
    case None =>
      SplitNone(s);
    case Some(i) =>
      SplitAt(s, i);
      var e := LineEnd(s, i + 4);
      if k == 1 {
        FirstGapEnds(s, i);
      } else {
        HeaderRunsToEnd(s[e..], k - 2);
        ShiftEmpty(Split(s), s[..i], s[i..e], Split(s[e..]), k);
      }
  }

  /** The gap after the first header is empty only when that header ran to the end of the reply. */
  lemma FirstGapEnds(s: string, i: nat)
    requires FindHeader(s, 0) == Some(i)
    ensures 3 <= |Split(s)|
    ensures Split(s)[2] == [] ==> |Split(s)| == 3
  {
    SplitAt(s, i);
    var e := LineEnd(s, i + 4);
    var r := s[e..];
    if Split(r)[0] == [] {
      assert r != [] ==> r[0] == '\n';
      SplitFirstEmpty(r);
    }
  }

  lemma ShiftEmpty(parts: seq<string>, a: string, b: string, rest: seq<string>, k: nat)
    requires parts == [a, b] + rest && 2 <= k && k + 1 < |parts|
    requires rest[k - 1] == [] ==> k == |rest|
    ensures parts[k + 1] == [] ==> k + 2 == |parts|
  {
    assert parts[k + 1] == rest[k - 1];
  }

  /** The split opens with an empty part only for the empty reply or one opening with a match. */
  lemma SplitFirstEmpty(r: string)
    requires Split(r)[0] == []
    ensures (r == [] && |Split(r)| == 1) || HeaderAt(r, 0)
  {
    match FindHeader(r, 0)
    case None =>
      SplitNone(r);
    case Some(m) =>
      SplitAt(r, m);
  }

  /** The match at i, up to its line end, is a whole header line. */
  lemma HeaderLineAt(s: string, i: nat)
    requires HeaderAt(s, i)
    ensures IsHeaderLine(s[i..LineEnd(s, i + 4)])
  {
    var h := s[i..LineEnd(s, i + 4)];
    assert forall j :: 0 <= j < |h| ==> h[j] == s[i + j];
  }

  /** The first part is the text before the leftmost match: no match of the reply starts inside it. */
  lemma SplitFirst(s: string)
    ensures StartsWith(s, Split(s)[0])
    ensures NoHeader(Split(s)[0])
    ensures forall j :: 0 <= j < |Split(s)[0]| ==> !HeaderAt(s, j)
  {
    match FindHeader(s, 0)
    case None =>
      SplitNone(s);
    case Some(i) =>
      SplitAt(s, i);
      var p := s[..i];
      forall j ensures !HeaderAt(p, j) {
        if HeaderAt(p, j) {
          assert HeaderAt(s, j);
        }
      }
  }

  /**
   * No match of the reply starts inside a part at an even place: every match was cut
   * out, and none runs from a gap into the header after it.
   */
  lemma {:induction false} SplitGaps(s: string, k: nat)
    requires k % 2 == 0 && k < |Split(s)|
    decreases |s|
    ensures NoHeader(Split(s)[k])
    ensures forall j :: |Concat(Split(s)[..k])| <= j < |Concat(Split(s)[..k + 1])| ==> !HeaderAt(s, j)
  {
    if k == 0 {
      SplitFirst(s);
      assert Split(s)[..0] == [];
      assert Split(s)[..1] == [Split(s)[0]];
      assert Concat([Split(s)[0]]) == Split(s)[0] + Concat([]);
    } else {
      match FindHeader(s, 0)
      case None =>
        SplitNone(s);
      case Some(i) =>
        SplitAt(s, i);
        var e := LineEnd(s, i + 4);
        SplitGaps(s[e..], k - 2);
        GapsShift(s, i, e, k);
    }
  }

  /** The gaps of the rest of the split, shifted by where the rest starts, are gaps of the whole. */
  lemma GapsShift(s: string, i: nat, e: nat, k: nat)
    requires i <= e <= |s| && k % 2 == 0 && 2 <= k
    requires Split(s) == [s[..i], s[i..e]] + Split(s[e..]) && k < |Split(s)|
    requires var rest := Split(s[e..]);
      forall j :: |Concat(rest[..k - 2])| <= j < |Concat(rest[..k - 1])| ==> !HeaderAt(s[e..], j)
    ensures forall j :: |Concat(Split(s)[..k])| <= j < |Concat(Split(s)[..k + 1])| ==> !HeaderAt(s, j)
  {
    var rest := Split(s[e..]);
    ConcatPrefix(s[..i], s[i..e], rest, k);
    ConcatPrefix(s[..i], s[i..e], rest, k + 1);
    forall j | |Concat(Split(s)[..k])| <= j < |Concat(Split(s)[..k + 1])| ensures !HeaderAt(s, j) {
      HeaderAtSuffix(s, e, j - e);
    }
  }

  /** The text before the k-th part of a split that opens with a and b. */
  lemma ConcatPrefix(a: string, b: string, rest: seq<string>, k: nat)
    requires 2 <= k <= |rest| + 2
    ensures |Concat(([a, b] + rest)[..k])| == |a| + |b| + |Concat(rest[..k - 2])|
  {
    assert ([a, b] + rest)[..k] == [a, b] + rest[..k - 2];
    ConcatTwo(a, b, rest[..k - 2]);
  }

  /** A match in a suffix is a match of the whole string, shifted by the suffix's start. */
  lemma HeaderAtSuffix(s: string, e: nat, j: nat)
    requires e <= |s|
    ensures HeaderAt(s[e..], j) <==> HeaderAt(s, e + j)
  {
    if j + 5 <= |s| - e {
      var t := s[e..];
      assert t[j] == s[e + j] && t[j + 1] == s[e + j + 1] && t[j + 2] == s[e + j + 2];
      assert t[j + 3] == s[e + j + 3] && t[j + 4] == s[e + j + 4];
    }
  }

  /** A reply without any match stays one part. */
  lemma SplitNoHeader(s: string)
    ensures |Split(s)| == 1 <==> NoHeader(s)
  {
    match FindHeader(s, 0)
    case None =>
      SplitNone(s);
    case Some(i) =>
      SplitAt(s, i);
  }

  lemma SplitNone(s: string)
    requires FindHeader(s, 0) == None
    ensures Split(s) == [s]
  {
  }

  /** One section as shown: the trimmed header, a blank line and the trimmed text under it. */
  function Section(header: string, content: string): string {
    Strip(header) + "\n\n" + Strip(content)
  }

  /** f applied to every part at an odd place and the part after it, in order. */
  function Pairwise<T>(parts: seq<string>, f: (string, string) -> T): (out: seq<T>)
    requires |parts| % 2 == 1
    ensures |out| == |parts| / 2
  {
    seq(|parts| / 2, k requires 0 <= k < |parts| / 2 => f(parts[2 * k + 1], parts[2 * k + 2]))
  }

  /** Every header with the text after it, in order: the loop over the odd places of the split. */
  function Sections(parts: seq<string>): (out: seq<string>)
    requires |parts| % 2 == 1
  {
    Pairwise(parts, Section)
  }

  /**
   * The loop both reply views run over the split: for every odd place, the trimmed
   * header and the trimmed text after it, joined by a blank line.
   */
  method FormatSections(sections: seq<string>) returns (formatted: seq<string>)
    requires |sections| % 2 == 1
    ensures formatted == Sections(sections)
  {
    formatted := [];
    var i := 1;
    while i < |sections|
      invariant 1 <= i <= |sections| && i % 2 == 1
      invariant formatted == Sections(sections[..i])
    {
      OddStep(i, |sections|);
      var header := Strip(sections[i]);
      var content := Strip(sections[i + 1]);
      var markdownText := header + "\n\n" + content;
      SectionsStep(sections, i, formatted, header, content);
      formatted := formatted + [markdownText];
      i := i + 2;
    }
    assert sections[..i] == sections;
  }

  /** The loop step: the section of the next header and its text goes at the end. */
  /** Two odd numbers apart are two apart at least. */
  lemma OddStep(i: nat, n: nat)
    requires i % 2 == 1 && n % 2 == 1 && i < n
    ensures i + 2 <= n
  {
  }

  lemma SectionsStep(parts: seq<string>, i: nat, done: seq<string>, header: string, content: string)
    requires i % 2 == 1 && i + 2 <= |parts|
    requires done == Sections(parts[..i]) && header == Strip(parts[i]) && content == Strip(parts[i + 1])
    ensures done + [header + "\n\n" + content] == Sections(parts[..i + 2])
  {
    PairwiseStep(parts, i, Section);
  }

  /** Two more parts give one more pair, at the end. */
  lemma PairwiseStep<T>(parts: seq<string>, i: nat, f: (string, string) -> T)
    requires i % 2 == 1 && i + 2 <= |parts|
    ensures Pairwise(parts[..i + 2], f) == Pairwise(parts[..i], f) + [f(parts[i], parts[i + 1])]
  {
  }

  /** The reply is shown as one section per match, each opening with the hashes of its header. */
  lemma SectionsOfReply(s: string, k: nat)
    requires k < |Split(s)| / 2
    ensures |Sections(Split(s))| == |Split(s)| / 2
    ensures OpensWithHashes(Sections(Split(s))[k])
  {
    var parts := Split(s);
    assert IsHeaderLine(parts[2 * k + 1]) by {
      HalfIndex(|parts|, k);
      HeaderLineOf(s, 2 * k + 1);
    }
    HeaderSection(parts, k);
  }

  lemma HalfIndex(n: nat, k: nat)
    requires n % 2 == 1 && k < n / 2
    ensures (2 * k + 1) % 2 == 1 && 2 * k + 1 < n
  {
  }

  lemma HeaderLineOf(s: string, j: nat)
    requires j % 2 == 1 && j < |Split(s)|
    ensures IsHeaderLine(Split(s)[j])
  {
    SplitHeaders(s, j);
  }

  /** A section built from a header line opens with the header's hashes. */
  lemma HeaderSection(parts: seq<string>, k: nat)
    requires |parts| % 2 == 1 && k < |parts| / 2 && IsHeaderLine(parts[2 * k + 1])
    ensures |Sections(parts)| == |parts| / 2
    ensures OpensWithHashes(Sections(parts)[k])
  {
    PairwiseAt(parts, Section, k);
    SectionOpensWithHashes(parts[2 * k + 1], parts[2 * k + 2]);
  }

  lemma PairwiseAt<T>(parts: seq<string>, f: (string, string) -> T, k: nat)
    requires |parts| % 2 == 1 && k < |parts| / 2
    ensures Pairwise(parts, f)[k] == f(parts[2 * k + 1], parts[2 * k + 2])
  {
  }

  /** The text opens with the three hashes of a Markdown level-3 header. */
  predicate OpensWithHashes(x: string) {
    |x| >= 3 && x[0] == '#' && x[1] == '#' && x[2] == '#'
  }

  /** Trimming a header line keeps its three hashes in front. */
  lemma SectionOpensWithHashes(h: string, content: string)
    requires IsHeaderLine(h)
    ensures OpensWithHashes(Section(h, content))
  {
    assert LStrip(h) == h;
    var t := RStrip(h);
    assert Strip(h) == t;
    assert !IsSpace(h[2]);
    assert |t| >= 3 && t[0] == '#' && t[1] == '#' && t[2] == '#';
    var x := Section(h, content);
    assert x[0] == '#' && x[1] == '#' && x[2] == '#';
  }

  /** There is no section at all exactly when the reply holds no header. */
  lemma NoSectionsIff(s: string)
    ensures Sections(Split(s)) == [] <==> NoHeader(s)
  {
    SplitNoHeader(s);
  }

  /** A newline put in front of a reply only joins the first part. */
  lemma SplitAfterNewline(r: string)
    ensures Split("\n" + r) == ["\n" + Split(r)[0]] + Split(r)[1..]
  {
    match FindHeader(r, 0)
    case None =>
      FindHeaderNoneShift(r);
    case Some(i) =>
      SplitAfterNewlineAt(r, i);
  }

  lemma SplitAfterNewlineAt(r: string, i: nat)
    requires FindHeader(r, 0) == Some(i)
    ensures Split("\n" + r) == ["\n" + Split(r)[0]] + Split(r)[1..]
  {
    var e := LineEnd(r, i + 4);
    SplitShifted(r, i);
    SplitAt(r, i);
    ReplaceFirst(Split("\n" + r), Split(r), "\n" + r[..i], r[..i], r[i..e], Split(r[e..]));
  }

  /** The split of the reply behind a newline, cut where the reply's own first match is. */
  lemma SplitShifted(r: string, i: nat)
    requires FindHeader(r, 0) == Some(i)
    ensures i + 4 <= |r|
    ensures Split("\n" + r) == ["\n" + r[..i], r[i..LineEnd(r, i + 4)]] + Split(r[LineEnd(r, i + 4)..])
  {
    var e := LineEnd(r, i + 4);
    ShiftedPieces(r, i);
    SplitParts("\n" + r, i + 1, "\n" + r[..i], r[i..e], r[e..]);
  }

  /** Behind a newline the first match moves one place on, and so do the pieces around it. */
  lemma ShiftedPieces(r: string, i: nat)
    requires FindHeader(r, 0) == Some(i)
    ensures var s, e := "\n" + r, LineEnd(r, i + 4);
      && FindHeader(s, 0) == Some(i + 1) && i + 1 + 4 <= |s|
      && "\n" + r[..i] == s[..i + 1]
      && r[i..e] == s[i + 1..LineEnd(s, i + 1 + 4)]
      && r[e..] == s[LineEnd(s, i + 1 + 4)..]
  {
    FindHeaderShift(r, i);
    LineEndShift(r, i + 4);
    SlicesAfterNewline(r, i, LineEnd(r, i + 4));
  }

  /** SplitAt, with the three pieces named. */
  lemma SplitParts(s: string, i: nat, before: string, header: string, after: string)
    requires FindHeader(s, 0) == Some(i) && i + 4 <= |s|
    requires before == s[..i] && header == s[i..LineEnd(s, i + 4)] && after == s[LineEnd(s, i + 4)..]
    ensures Split(s) == [before, header] + Split(after)
  {
    SplitAt(s, i);
  }

  lemma SlicesAfterNewline(r: string, i: nat, e: nat)
    requires i <= e <= |r|
    ensures ("\n" + r)[..i + 1] == "\n" + r[..i]
    ensures ("\n" + r)[i + 1..e + 1] == r[i..e]
    ensures ("\n" + r)[e + 1..] == r[e..]
  {
  }

  /** The split at its leftmost match: the text before, the header line, and the split of the rest. */
  lemma SplitAt(s: string, i: nat)
    requires FindHeader(s, 0) == Some(i)
    ensures i + 4 <= |s|
    ensures Split(s) == [s[..i], s[i..LineEnd(s, i + 4)]] + Split(s[LineEnd(s, i + 4)..])
  {
  }

  lemma FindHeaderNoneShift(r: string)
    requires FindHeader(r, 0) == None
    ensures FindHeader("\n" + r, 0) == None
  {
    var s := "\n" + r;
    forall j | 0 <= j < |s| ensures !HeaderAt(s, j) {
      if j > 0 { assert !HeaderAt(r, j - 1); }
    }
    FindHeaderNone(s);
  }

  lemma FindHeaderNone(s: string)
    requires NoHeader(s)
    ensures FindHeader(s, 0) == None
  {
  }

  lemma FindHeaderShift(r: string, i: nat)
    requires FindHeader(r, 0) == Some(i)
    ensures FindHeader("\n" + r, 0) == Some(i + 1)
  {
    var s := "\n" + r;
    assert HeaderAt(s, i + 1);
    assert forall j :: 0 <= j < i + 1 ==> !HeaderAt(s, j) by {
      forall j | 0 < j < i + 1 ensures !HeaderAt(s, j) {
        assert !HeaderAt(r, j - 1);
      }
    }
  }

  lemma LineEndShift(r: string, i: nat)
    requires i <= |r|
    ensures LineEnd("\n" + r, i + 1) == LineEnd(r, i) + 1
  {
    var s := "\n" + r;
    assert forall j :: 0 <= j < |r| ==> s[j + 1] == r[j];
  }

  /** LineEnd is the first newline at or after i: any position with that property is it. */
  lemma LineEndIs(s: string, i: nat, e: nat)
    requires i <= e <= |s|
    requires forall j :: i <= j < e ==> s[j] != '\n'
    requires e == |s| || s[e] == '\n'
    ensures LineEnd(s, i) == e
  {
  }

  /** A reply put under a header line of its own: its text before its first header joins that header. */
  lemma SplitUnderHeader(h: string, r: string)
    requires IsHeaderLine(h)
    ensures Split(h + "\n" + r) == ["", h, "\n" + Split(r)[0]] + Split(r)[1..]
  {
    HeaderFirst(h, r);
    SplitAfterNewline(r);
  }

  /** A reply opening with a header line: nothing before it, the line itself, and the split of what follows. */
  lemma HeaderFirst(h: string, r: string)
    requires IsHeaderLine(h)
    ensures Split(h + "\n" + r) == ["", h] + Split("\n" + r)
  {
    var t := h + "\n" + r;
    assert forall j :: 0 <= j < |h| ==> t[j] == h[j];
    assert HeaderAt(t, 0);
    assert FindHeader(t, 0) == Some(0);
    LineEndIs(t, 4, |h|);
    SplitAt(t, 0);
    assert t[..0] == "" && t[0..|h|] == h && t[|h|..] == "\n" + r;
  }

  /** Cutting the reply at its first header changes none of the sections: the text before it is never shown. */
  lemma SplitFromFirstHeader(s: string, i: nat)
    requires FindHeader(s, 0) == Some(i)
    ensures Split(s[i..]) == [""] + Split(s)[1..]
  {
    SplitCut(s, i);
    SplitAt(s, i);
    var e := LineEnd(s, i + 4);
    ReplaceFirst(Split(s[i..]), Split(s), "", s[..i], s[i..e], Split(s[e..]));
  }

  /** The split of the reply from its first match on: nothing before, then the same pieces. */
  lemma SplitCut(s: string, i: nat)
    requires FindHeader(s, 0) == Some(i)
    ensures i + 4 <= |s|
    ensures Split(s[i..]) == ["", s[i..LineEnd(s, i + 4)]] + Split(s[LineEnd(s, i + 4)..])
  {
    var e := LineEnd(s, i + 4);
    HeaderAtCut(s, i);
    CutSlices(s, i, e);
    SplitParts(s[i..], 0, "", s[i..e], s[e..]);
  }

  lemma CutSlices(s: string, i: nat, e: nat)
    requires i <= e <= |s|
    ensures s[i..][..0] == "" && s[i..][0..e - i] == s[i..e] && s[i..][e - i..] == s[e..]
  {
  }

  lemma HeaderAtCut(s: string, i: nat)
    requires FindHeader(s, 0) == Some(i)
    ensures FindHeader(s[i..], 0) == Some(0)
    ensures LineEnd(s[i..], 4) == LineEnd(s, i + 4) - i
  {
    var u := s[i..];
    assert forall j :: 0 <= j < |u| ==> u[j] == s[i + j];
    assert HeaderAt(u, 0);
    LineEndIs(u, 4, LineEnd(s, i + 4) - i);
  }

  lemma ReplaceFirst(x: seq<string>, y: seq<string>, a: string, b: string, h: string, rest: seq<string>)
    requires x == [a, h] + rest && y == [b, h] + rest
    ensures x == [a] + y[1..]
  {
  }

  /** The sections of a reply are those of its text from the first header on. */
  lemma SectionsIgnorePreamble(s: string, i: nat)
    requires FindHeader(s, 0) == Some(i)
    ensures Sections(Split(s[i..])) == Sections(Split(s))
  {
    SplitFromFirstHeader(s, i);
    var x := Split(s[i..]);
    var y := Split(s);
    assert forall k :: 1 <= k < |x| ==> x[k] == y[k];
  }

  /** Sections of a split with one more header in front: that header's section, then the others unchanged. */
  lemma SectionsAfterFirst(parts: seq<string>, y: seq<string>, a: string, h: string, c: string)
    requires |y| % 2 == 1 && parts == [a, h, c] + y[1..]
    ensures |parts| % 2 == 1
    ensures Sections(parts) == [Section(h, c)] + Sections(y)
  {
    PairwiseAfterFirst(parts, y, a, h, c, Section);
  }

  lemma PairwiseAfterFirst<T>(parts: seq<string>, y: seq<string>, a: string, h: string, c: string, f: (string, string) -> T)
    requires |y| % 2 == 1 && parts == [a, h, c] + y[1..]
    ensures |parts| % 2 == 1
    ensures Pairwise(parts, f) == [f(h, c)] + Pairwise(y, f)
  {
    var out := Pairwise(parts, f);
    var t := Pairwise(y, f);
    forall k | 1 <= k < |out| ensures out[k] == t[k - 1] {
      assert parts[2 * k + 1] == y[2 * k - 1] && parts[2 * k + 2] == y[2 * k];
    }
  }
}
