/**
 * Grading a typed quiz answer against the expected one: both are expanded into
 * a small set of accepted spellings (trimmed, lower-cased, one umlaut or sharp-s
 * substitution, whitespace runs collapsed) and the answer is correct when the
 * two sets meet.
 */
module Equivalence {
  import opened Text

  /** `UMLAUT_MAP.items()`, in the dictionary's order. */
  const UmlautMap: seq<(string, string)> := [("ä", "ae"), ("ö", "oe"), ("ü", "ue"), ("ß", "ss")]

  /** What the j-th pair (k, v) gives from f: `f.replace(k, v)` and `f.replace(v, k)`. */
  function PairForms(f: string, j: nat): set<string>
    requires j < |UmlautMap|
  {
    {Replace(f, UmlautMap[j].0, UmlautMap[j].1), Replace(f, UmlautMap[j].1, UmlautMap[j].0)}
  }

  /** The spellings the first n pairs of the map give from f, each pair applied once in each direction. */
  function Substitutions(f: string, n: nat): set<string>
    requires n <= |UmlautMap|
  {
    if n == 0 then {} else Substitutions(f, n - 1) + PairForms(f, n - 1)
  }

  /** Each pair adds at most two spellings. */
  lemma {:induction false} SubstitutionsSize(f: string, n: nat)
    requires n <= |UmlautMap|
    ensures |Substitutions(f, n)| <= 2 * n
  {
    if n > 0 {
      SubstitutionsSize(f, n - 1);
    }
  }

  /** Every pair's spellings are among the substitutions of the pairs up to it. */
  lemma {:induction false} PairIncluded(f: string, j: nat, n: nat)
    requires j < n <= |UmlautMap|
    ensures PairForms(f, j) <= Substitutions(f, n)
  {
    if j < n - 1 {
      PairIncluded(f, j, n - 1);
    }
  }

  /** Nothing but the pairs' spellings is among the substitutions. */
  lemma {:induction false} SubstitutionFrom(f: string, n: nat, x: string)
    requires n <= |UmlautMap| && x in Substitutions(f, n)
    ensures exists j :: 0 <= j < n && x in PairForms(f, j)
  {
    if x !in PairForms(f, n - 1) {
      SubstitutionFrom(f, n - 1, x);
    }
  }

  /** The two seeds: the trimmed answer and its lower-case form. */
  function Seeds(s: string): set<string> {
    {Strip(s), Lower(Strip(s))}
  }

  /**
   * The set `forms` once the loops of `alt_forms` are done: the two seeds, and every
   * spelling one substitution gives from a seed. Substitutions are applied to the seeds
   * only, never to a spelling a substitution produced.
   */
  function RawForms(s: string): (r: set<string>)
    ensures Seeds(s) <= r
  {
    SeedForms(Strip(s), Lower(Strip(s)))
  }

  /** Two seeds t and l, and the spellings one substitution gives from either. */
  function SeedForms(t: string, l: string): set<string> {
    {t, l} + Substitutions(t, 4) + Substitutions(l, 4)
  }

  /** `alt_forms` yields at most 18 entries: two seeds and eight substitutions for each. */
  lemma RawFormsSize(s: string)
    ensures |RawForms(s)| <= 18
  {
    var t := Strip(s);
    SubstitutionsSize(t, 4);
    SubstitutionsSize(Lower(t), 4);
    assert |{t, Lower(t)}| <= 2;
  }

  /** Every form of a set with its whitespace runs collapsed, then trimmed. */
  function NormalizedForms(forms: set<string>): set<string> {
    set y | y in forms :: Normalize(y)
  }

  /** `alt_forms(s)` as a set: every raw form with its whitespace runs collapsed, then trimmed. */
  function AltForms(s: string): (r: set<string>)
    ensures Normalize(Strip(s)) in r && Normalize(Lower(Strip(s))) in r
    ensures forall x :: x in r ==> IsNormalized(x)
  {
    NormalizedForms(RawForms(s))
  }

  /** `is_correct(u, a)`: the user's answer and the expected one share an accepted spelling. */
  predicate IsCorrect(u: string, a: string) {
    AltForms(u) * AltForms(a) != {}
  }

  /** The inner loop of `alt_forms`: `forms |= {f.replace(k, v), f.replace(v, k)}` for every pair. */
  method AddSubstitutions(forms: set<string>, f: string) returns (grown: set<string>)
    ensures grown == forms + Substitutions(f, 4)
  {
    grown := forms;
    for i := 0 to |UmlautMap|
      invariant grown == forms + Substitutions(f, i)
    {
      var (k, v) := UmlautMap[i];
      grown := grown + {Replace(f, k, v), Replace(f, v, k)};
    }
  }

  /**
   * The list comprehension of `alt_forms`, `[g(x) for x in forms]`: one entry per member
   * of the set, in whatever order the set is walked.
   */
  method MapEach(forms: set<string>, g: string -> string) returns (out: seq<string>)
    ensures |out| == |forms|
    ensures forall x :: x in out <==> x in (set y | y in forms :: g(y))
  {
    var rest := forms;
    out := [];
    while rest != {}
      invariant rest <= forms
      invariant |out| + |rest| == |forms|
      invariant forall x :: x in out <==> x in (set y | y in forms - rest :: g(y))
      decreases |rest|
    {
      var y :| y in rest;
      out := out + [g(y)];
      rest := rest - {y};
    }
  }

  /**
   * `alt_forms(s)` as the code runs it: the set of forms grows inside a loop over a
   * snapshot of the two seeds, and the list returned holds one normalised entry per
   * form (so entries may repeat when two forms normalise alike).
   */
  method AltFormsList(s: string) returns (out: seq<string>)
    ensures forall x :: x in out <==> x in AltForms(s)
    ensures |out| == |RawForms(s)| <= 18
  {
    var forms := CollectForms(Strip(s));
    out := MapEach(forms, Normalize);
    RawFormsSize(s);
  }

  /**
   * The loops of `alt_forms` on the trimmed answer t: a loop over a snapshot of the
   * seeds {t, lower(t)} adds, for each seed, the spellings one substitution gives.
   */
  method CollectForms(t: string) returns (forms: set<string>)
    ensures forms == SeedForms(t, Lower(t))
  {
    forms := {t, Lower(t)};
    var seeds := forms;
    ghost var all := seeds + Substitutions(t, 4) + Substitutions(Lower(t), 4);
    var pending := seeds;
    while pending != {}
      invariant pending <= seeds == {t, Lower(t)}
      invariant seeds <= forms <= all
      invariant forall f :: f in seeds && f !in pending ==> Substitutions(f, 4) <= forms
      decreases |pending|
    {
      var f :| f in pending;
      pending := pending - {f};
      forms := AddSubstitutions(forms, f);
    }
    assert t in seeds && Lower(t) in seeds;
  }

  /** Every answer is judged equal to itself. */
  lemma IsCorrectReflexive(s: string)
    ensures IsCorrect(s, s)
  {
    var x := Normalize(Strip(s));
    assert x in AltForms(s);
    assert x in AltForms(s) * AltForms(s);
  }

  /** Grading does not depend on which string is the user's and which the expected one. */
  lemma IsCorrectSymmetric(u: string, a: string)
    ensures IsCorrect(u, a) == IsCorrect(a, u)
  {
  }

  /** Answers that agree once trimmed, lower-cased and with whitespace runs collapsed are accepted. */
  lemma CaseAndSpacingIgnored(u: string, a: string)
    requires Normalize(Lower(Strip(u))) == Normalize(Lower(Strip(a)))
    ensures IsCorrect(u, a)
  {
    var x := Normalize(Lower(Strip(u)));
    assert x in AltForms(u) && x in AltForms(a);
    assert x in AltForms(u) * AltForms(a);
  }

  /** "Über" lower-cased and with ü spelled out is "ueber". */
  lemma UberSpelledOut()
    ensures Replace(Lower("Über"), "ü", "ue") == "ueber"
  {
    LowerCons('Ü', "ber");
    LowerCons('b', "er");
    LowerCons('e', "r");
    LowerCons('r', "");
    assert "Über" == ['Ü'] + "ber" && "ber" == ['b'] + "er" && "er" == ['e'] + "r" && "r" == ['r'] + "";
    assert Lower("Über") == "über";
    ReplaceCharHit('ü', "ber", "ue");
    ReplaceCharMiss('b', "er", 'ü', "ue");
    ReplaceCharMiss('e', "r", 'ü', "ue");
    ReplaceCharMiss('r', "", 'ü', "ue");
  }

  /** "Fuß" lower-cased and with ß spelled out is "fuss". */
  lemma FussSpelledOut()
    ensures Replace(Lower("Fuß"), "ß", "ss") == "fuss"
  {
    LowerCons('F', "uß");
    LowerCons('u', "ß");
    LowerCons('ß', "");
    assert "Fuß" == ['F'] + "uß" && "uß" == ['u'] + "ß" && "ß" == ['ß'] + "";
    assert Lower("Fuß") == "fuß";
    ReplaceCharMiss('f', "uß", 'ß', "ss");
    ReplaceCharMiss('u', "ß", 'ß', "ss");
    ReplaceCharHit('ß', "", "ss");
  }

  /** One substitution on the lower-case seed of an answer without whitespace is one of its forms. */
  lemma LowerSubstitutionIsForm(s: string, j: nat, t: string)
    requires NoSpaceIn(s) && j < |UmlautMap|
    requires t == Replace(Lower(s), UmlautMap[j].0, UmlautMap[j].1) && NoSpaceIn(t)
    ensures t in AltForms(s)
  {
    NoSpaceUnchanged(s);
    NoSpaceUnchanged(t);
    var l := Lower(s);
    SubstitutionAccepted(s, l, j);
  }

  /**
   * `forms |= {f.replace(k, v), f.replace(v, k)}` for a seed f and a pair of the map:
   * both spellings, normalised, are accepted forms.
   */
  lemma SubstitutionAccepted(s: string, f: string, j: nat)
    requires f in Seeds(s) && j < |UmlautMap|
    ensures var (k, v) := UmlautMap[j];
      {Normalize(Replace(f, k, v)), Normalize(Replace(f, v, k))} <= AltForms(s)
  {
    PairInRaw(s, f, j);
    NormalizedSubset(RawForms(s), PairForms(f, j));
  }

  /** Both spellings a pair gives from a seed are raw forms. */
  lemma PairInRaw(s: string, f: string, j: nat)
    requires f in Seeds(s) && j < |UmlautMap|
    ensures PairForms(f, j) <= RawForms(s)
  {
    PairIncluded(f, j, 4);
  }

  /** The members of a part of a set of forms, normalised, are among the normalised forms. */
  lemma NormalizedSubset(forms: set<string>, part: set<string>)
    requires part <= forms
    ensures forall x :: x in part ==> Normalize(x) in NormalizedForms(forms)
  {
  }

  /** No pattern of the map occurs in f, so every substitution leaves f as it is. */
  ghost predicate Untouched(f: string) {
    forall j :: 0 <= j < |UmlautMap| ==> !Occurs(f, UmlautMap[j].0) && !Occurs(f, UmlautMap[j].1)
  }

  /** The substitutions of a word no pattern touches are the word alone. */
  lemma {:induction false} SubstitutionsOfUntouched(f: string, n: nat)
    requires 0 < n <= |UmlautMap| && Untouched(f)
    ensures Substitutions(f, n) == {f}
  {
    ReplaceAbsent(f, UmlautMap[n - 1].0, UmlautMap[n - 1].1);
    ReplaceAbsent(f, UmlautMap[n - 1].1, UmlautMap[n - 1].0);
    if n > 1 {
      SubstitutionsOfUntouched(f, n - 1);
    }
  }

  /** Seeds no pattern touches give no spelling beyond themselves. */
  lemma SeedFormsUntouched(t: string, l: string)
    requires Untouched(t) && Untouched(l)
    ensures SeedForms(t, l) == {t, l}
  {
    SubstitutionsOfUntouched(t, 4);
    SubstitutionsOfUntouched(l, 4);
  }

  /** A word without whitespace that no pattern touches, in either case, has its two seeds as its only forms. */
  lemma UntouchedForms(s: string, l: string, x: string)
    requires l == Lower(s) && NoSpaceIn(s) && NoSpaceIn(l) && Untouched(s) && Untouched(l)
    ensures x in AltForms(s) <==> x == s || x == l
  {
    NoSpaceUnchanged(s);
    NoSpaceUnchanged(l);
    if x in AltForms(s) {
      var y := AltFormOrigin(s, x);
      SeedOrigin(s, l, y);
    }
  }

  /** Every raw form of untouched seeds is one of the seeds. */
  lemma SeedOrigin(t: string, l: string, y: string)
    requires Untouched(t) && Untouched(l) && y in SeedForms(t, l)
    ensures y == t || y == l
  {
    SeedFormsUntouched(t, l);
  }

  /** f holds none of ä, ö, ü, ß, s, and no e right after a, o or u. */
  predicate Plain(f: string) {
    && (forall i :: 0 <= i < |f| ==> f[i] != 'ä' && f[i] != 'ö' && f[i] != 'ü' && f[i] != 'ß' && f[i] != 's')
    && (forall i :: 0 < i < |f| && f[i] == 'e' ==> f[i - 1] != 'a' && f[i - 1] != 'o' && f[i - 1] != 'u')
  }

  /** A pattern whose first one or two characters fit nowhere in f does not occur in it. */
  lemma NoWindow(f: string, p: string)
    requires p != []
    requires forall i :: 0 <= i && i + |p| <= |f| ==> f[i] != p[0] || (|p| > 1 && f[i + 1] != p[1])
    ensures !Occurs(f, p)
  {
    forall i | 0 <= i && i + |p| <= |f| ensures !OccursAt(f, p, i) {
      assert f[i] != p[0] || (|p| > 1 && f[i + 1] != p[1]);
      assert f[i..i + |p|][0] == f[i];
      if |p| > 1 {
        assert f[i..i + |p|][1] == f[i + 1];
      }
    }
  }

  /** No pattern of the map fits in a plain word. */
  lemma PlainUntouched(f: string)
    requires Plain(f)
    ensures Untouched(f)
  {
    forall j | 0 <= j < |UmlautMap| ensures !Occurs(f, UmlautMap[j].0) && !Occurs(f, UmlautMap[j].1) {
      assert j == 0 || j == 1 || j == 2 || j == 3;
      NoWindow(f, UmlautMap[j].0);
      NoWindow(f, UmlautMap[j].1);
    }
  }

  /**
   * Two plain answers without whitespace are rejected when neither of them, nor its
   * lower case, is the other or the other's lower case.
   */
  lemma PlainAnswersRejected(u: string, lu: string, a: string, la: string)
    requires lu == Lower(u) && la == Lower(a)
    requires NoSpaceIn(u) && NoSpaceIn(lu) && NoSpaceIn(a) && NoSpaceIn(la)
    requires Plain(u) && Plain(lu) && Plain(a) && Plain(la)
    requires u != a && u != la && lu != a && lu != la
    ensures !IsCorrect(u, a)
  {
    PlainUntouched(u);
    PlainUntouched(lu);
    PlainUntouched(a);
    PlainUntouched(la);
    forall x | x in AltForms(u) && x in AltForms(a) ensures false {
      UntouchedForms(u, lu, x);
      UntouchedForms(a, la, x);
    }
  }

  /** "Katze" and "Hund" lower-cased. */
  lemma KatzeHundLower()
    ensures Lower("Katze") == "katze" && Lower("Hund") == "hund"
  {
  }

  /** "Katze", in either case, is a plain word without whitespace. */
  lemma KatzePlain()
    ensures NoSpaceIn("Katze") && NoSpaceIn("katze") && Plain("Katze") && Plain("katze")
  {
  }

  /** "Hund", in either case, is a plain word without whitespace. */
  lemma HundPlain()
    ensures NoSpaceIn("Hund") && NoSpaceIn("hund") && Plain("Hund") && Plain("hund")
  {
  }

  /** An ordinary wrong answer is rejected: "Hund" is not accepted for "Katze". */
  lemma KatzeHundRejected()
    ensures !IsCorrect("Katze", "Hund")
  {
    KatzeHundLower();
    KatzePlain();
    HundPlain();
    PlainAnswersRejected("Katze", "katze", "Hund", "hund");
  }

  /** An answer without whitespace is one of its own forms. */
  lemma OwnForm(s: string)
    requires NoSpaceIn(s)
    ensures s in AltForms(s)
  {
    NoSpaceUnchanged(s);
  }

  /** An umlaut may be spelled out: "ueber" is accepted for "Über". */
  lemma UmlautSpelledOutAccepted()
    ensures IsCorrect("Über", "ueber")
  {
    UberSpelledOut();
    assert UmlautMap[2] == ("ü", "ue");
    LowerSubstitutionIsForm("Über", 2, "ueber");
    OwnForm("ueber");
    assert "ueber" in AltForms("Über") * AltForms("ueber");
  }

  /** Sharp s may be spelled out: "fuss" is accepted for "Fuß". */
  lemma SharpSSpelledOutAccepted()
    ensures IsCorrect("Fuß", "fuss")
  {
    FussSpelledOut();
    assert UmlautMap[3] == ("ß", "ss");
    LowerSubstitutionIsForm("Fuß", 3, "fuss");
    OwnForm("fuss");
    assert "fuss" in AltForms("Fuß") * AltForms("fuss");
  }

  /** Two of the three letters ü, ä, ß occur in x. */
  predicate TwoSpecials(x: string) {
    ('ü' in x && 'ä' in x) || ('ü' in x && 'ß' in x) || ('ä' in x && 'ß' in x)
  }

  /** All three letters occur in f. */
  predicate AllSpecials(f: string) {
    'ü' in f && 'ä' in f && 'ß' in f
  }

  /** None of the three letters occurs in f. */
  predicate NoSpecials(f: string) {
    'ü' !in f && 'ä' !in f && 'ß' !in f
  }

  /** No pattern of the map holds two of the letters, so neither does any replacement. */
  lemma PatternsHoldOneSpecial(j: nat)
    requires j < |UmlautMap|
    ensures !TwoSpecials(UmlautMap[j].0) && !TwoSpecials(UmlautMap[j].1)
  {
    assert j == 0 || j == 1 || j == 2 || j == 3;
  }

  /** One replacement removes at most one of the three letters. */
  lemma OneReplaceKeepsTwo(f: string, target: string, replacement: string)
    requires target != [] && !TwoSpecials(target)
    requires AllSpecials(f)
    ensures TwoSpecials(Replace(f, target, replacement))
  {
    if 'ü' !in target { ReplaceKeeps(f, target, replacement, 'ü'); }
    if 'ä' !in target { ReplaceKeeps(f, target, replacement, 'ä'); }
    if 'ß' !in target { ReplaceKeeps(f, target, replacement, 'ß'); }
  }

  /** One replacement on a string without the letters brings in at most the replacement's one. */
  lemma OneReplaceAddsOne(f: string, target: string, replacement: string)
    requires target != [] && !TwoSpecials(replacement)
    requires NoSpecials(f)
    ensures !TwoSpecials(Replace(f, target, replacement))
  {
    var r := Replace(f, target, replacement);
    if 'ü' in r { ReplaceDraws(f, target, replacement, 'ü'); }
    if 'ä' in r { ReplaceDraws(f, target, replacement, 'ä'); }
    if 'ß' in r { ReplaceDraws(f, target, replacement, 'ß'); }
  }

  /** Normalising neither adds nor removes any of the letters. */
  lemma NormalizeKeepsSpecials(x: string)
    ensures TwoSpecials(Normalize(x)) == TwoSpecials(x)
  {
    NormalizeChars(x, 'ü');
    NormalizeChars(x, 'ä');
    NormalizeChars(x, 'ß');
  }

  /** What one pair gives from a string with all three letters keeps two of them. */
  lemma PairKeepsTwo(f: string, j: nat, x: string)
    requires j < |UmlautMap| && x in PairForms(f, j)
    requires AllSpecials(f)
    ensures TwoSpecials(x)
  {
    PatternsHoldOneSpecial(j);
    OneReplaceKeepsTwo(f, UmlautMap[j].0, UmlautMap[j].1);
    OneReplaceKeepsTwo(f, UmlautMap[j].1, UmlautMap[j].0);
  }

  /** What one pair gives from a string without the letters holds at most one of them. */
  lemma PairAddsOne(f: string, j: nat, x: string)
    requires j < |UmlautMap| && x in PairForms(f, j)
    requires NoSpecials(f)
    ensures !TwoSpecials(x)
  {
    PatternsHoldOneSpecial(j);
    OneReplaceAddsOne(f, UmlautMap[j].0, UmlautMap[j].1);
    OneReplaceAddsOne(f, UmlautMap[j].1, UmlautMap[j].0);
  }

  /** A form lies in a seed or in what one pair gives from a seed. */
  lemma SeedFormOrigin(t: string, l: string, x: string)
    requires x in SeedForms(t, l) && x != t && x != l
    ensures exists f, j :: (f == t || f == l) && 0 <= j < |UmlautMap| && x in PairForms(f, j)
  {
    var f := if x in Substitutions(t, 4) then t else l;
    SubstitutionFrom(f, 4, x);
  }

  /** Every form of seeds holding all three letters holds two of them. */
  lemma FormsKeepTwo(t: string, l: string, x: string)
    requires AllSpecials(t) && AllSpecials(l) && x in SeedForms(t, l)
    ensures TwoSpecials(x)
  {
    if x != t && x != l {
      SeedFormOrigin(t, l, x);
      var f, j :| (f == t || f == l) && 0 <= j < |UmlautMap| && x in PairForms(f, j);
      PairKeepsTwo(f, j, x);
    }
  }

  /** No form of seeds without the three letters holds two of them. */
  lemma FormsHoldOne(t: string, l: string, x: string)
    requires NoSpecials(t) && NoSpecials(l) && x in SeedForms(t, l)
    ensures !TwoSpecials(x)
  {
    if x != t && x != l {
      SeedFormOrigin(t, l, x);
      var f, j :| (f == t || f == l) && 0 <= j < |UmlautMap| && x in PairForms(f, j);
      PairAddsOne(f, j, x);
    }
  }

  /** Every alternative form of a word holding all three letters holds two of them. */
  lemma AllSpecialsForms(s: string, x: string)
    requires NoSpaceIn(s) && AllSpecials(s) && x in AltForms(s)
    ensures TwoSpecials(x)
  {
    LowerKeepsSpecials(s);
    var y := AltFormOrigin(s, x);
    FormsKeepTwo(s, Lower(s), y);
    NormalizeKeepsSpecials(y);
  }

  /** Trimming and lower-casing a word holding the three letters keeps them. */
  lemma LowerKeepsSpecials(s: string)
    requires NoSpaceIn(s) && AllSpecials(s)
    ensures Strip(s) == s && AllSpecials(Lower(s))
  {
    StripNoEdgeSpace(s);
    LowerKeepsSpecial(s, 'ü');
    LowerKeepsSpecial(s, 'ä');
    LowerKeepsSpecial(s, 'ß');
  }

  lemma LowerKeepsSpecial(s: string, d: char)
    requires d in s && (d == 'ü' || d == 'ä' || d == 'ß')
    ensures d in Lower(s)
  {
    assert LowerChar(d) == d;
    LowerKeeps(s, d);
  }

  /** The raw form an alternative form was normalised from. */
  ghost function AltFormOrigin(s: string, x: string): (y: string)
    requires x in AltForms(s)
    ensures y in RawForms(s) && x == Normalize(y)
  {
    var y :| y in RawForms(s) && x == Normalize(y); y
  }

  /** A word made of the letters a to z is its own lower case. */
  lemma LowerAscii(s: string)
    requires forall i :: 0 <= i < |s| ==> 'a' <= s[i] <= 'z'
    ensures Lower(s) == s && NoSpaceIn(s) && NoSpecials(s)
  {
  }

  /** No alternative form of a word made of the letters a to z holds two of the three letters. */
  lemma AsciiForms(s: string, x: string)
    requires forall i :: 0 <= i < |s| ==> 'a' <= s[i] <= 'z'
    requires x in AltForms(s)
    ensures !TwoSpecials(x)
  {
    LowerAscii(s);
    NoSpaceUnchanged(s);
    var y := AltFormOrigin(s, x);
    FormsHoldOne(s, s, y);
    NormalizeKeepsSpecials(y);
  }

  /**
   * Substitutions do not compound: a word with ü, ä and ß is never accepted when written
   * with all three spelled out, since one substitution on each side bridges at most two.
   */
  lemma OneSubstitutionPerSide(u: string, a: string)
    requires NoSpaceIn(u) && AllSpecials(u)
    requires forall i :: 0 <= i < |a| ==> 'a' <= a[i] <= 'z'
    ensures !IsCorrect(u, a)
  {
    forall x | x in AltForms(u) && x in AltForms(a) ensures false {
      AllSpecialsForms(u, x);
      AsciiForms(a, x);
    }
  }

  /** "uebermaessig" is rejected for "übermäßig": it needs three substitutions, not one per side. */
  lemma SubstitutionsDoNotCompound()
    ensures !IsCorrect("übermäßig", "uebermaessig")
  {
    var u, a := "übermäßig", "uebermaessig";
    assert u[0] == 'ü' && u[5] == 'ä' && u[6] == 'ß';
    assert NoSpaceIn(u);
    assert forall i :: 0 <= i < |a| ==> 'a' <= a[i] <= 'z';
    OneSubstitutionPerSide(u, a);
  }
}
