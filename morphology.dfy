/**
 * Declension of possessive determiners ("ein-words") for the pronoun quiz:
 * a determiner stem takes the ending its case and its noun's gender call for.
 * Cases and genders are the plain strings the quiz passes ("nom", "dat";
 * "m", "f", "n", "pl"); any other string is accepted and gets no ending.
 */
module Morphology {
  import opened Text

  /** The ending table, keyed by (case, gender). */
  const Endings: map<(string, string), string> := map[
    ("nom", "m") := "", ("nom", "f") := "e", ("nom", "n") := "", ("nom", "pl") := "e",
    ("dat", "m") := "em", ("dat", "f") := "er", ("dat", "n") := "em", ("dat", "pl") := "en"
  ]

  /** The two cases and four genders the table covers. */
  const Cases: set<string> := {"nom", "dat"}
  const Genders: set<string> := {"m", "f", "n", "pl"}

  /** What the quiz prints in place of an empty ending. */
  const NoEnding: string := "∅"

  datatype Declension = Declension(phrase: string, rule: string)

  /** The stem a determiner takes its ending on: only "euer" loses its second e. */
  function Stem(p: string): (r: string)
    ensures r == p <==> p != "euer"
    ensures p == "euer" ==> r == "eur"
  {
    if p == "euer" then "eur" else p
  }

  /** `ENDINGS.get((case, g), '')`: the table's ending, or none for a pair the table lacks. */
  function Ending(grammaticalCase: string, gender: string): (e: string)
    ensures (grammaticalCase, gender) !in Endings ==> e == ""
  {
    if (grammaticalCase, gender) in Endings then Endings[(grammaticalCase, gender)] else ""
  }

  /** The explanation shown after an answer: the case, the gender and the ending, or the empty-set sign. */
  function Rule(grammaticalCase: string, gender: string, e: string): string {
    "ein-word ending for " + grammaticalCase + "+" + gender + " is -" + (if e == "" then NoEnding else e)
  }

  /**
   * `decline_possessive(p, case, g, noun)`: the declined determiner, one blank and the noun,
   * together with the rule that produced the ending. Total: it accepts every input.
   */
  function DeclinePossessive(p: string, grammaticalCase: string, gender: string, noun: string): (d: Declension)
    ensures var e := Ending(grammaticalCase, gender);
      |d.phrase| == |Stem(p)| + |e| + 1 + |noun|
      && d.phrase[..|Stem(p)|] == Stem(p)
      && d.phrase[|Stem(p)|..|Stem(p)| + |e|] == e
      && d.phrase[|d.phrase| - |noun| - 1..] == " " + noun
    ensures d.rule == Rule(grammaticalCase, gender, Ending(grammaticalCase, gender))
  {
    var e := Ending(grammaticalCase, gender);
    Declension(Stem(p) + e + " " + noun, Rule(grammaticalCase, gender, e))
  }

  /** The table is complete on the two cases and four genders, and holds exactly these endings. */
  lemma EndingTable()
    ensures forall c, g :: c in Cases && g in Genders ==> (c, g) in Endings
    ensures forall c, g :: (c, g) in Endings ==> c in Cases && g in Genders
    ensures Ending("nom", "m") == "" && Ending("nom", "f") == "e"
         && Ending("nom", "n") == "" && Ending("nom", "pl") == "e"
    ensures Ending("dat", "m") == "em" && Ending("dat", "f") == "er"
         && Ending("dat", "n") == "em" && Ending("dat", "pl") == "en"
  {
  }

  /** Every ending is empty or starts with an e. */
  lemma EndingShape(grammaticalCase: string, gender: string)
    ensures var e := Ending(grammaticalCase, gender);
      e in {"", "e", "em", "er", "en"} && (e != [] ==> e[0] == 'e')
  {
  }

  /** A pair outside the table (an unknown case such as "akk", an unknown gender such as "x") gets no ending and the empty-set sign. */
  lemma UnknownPairHasNoEnding(p: string, grammaticalCase: string, gender: string, noun: string)
    requires grammaticalCase !in Cases || gender !in Genders
    ensures DeclinePossessive(p, grammaticalCase, gender, noun).phrase == Stem(p) + " " + noun
    ensures DeclinePossessive(p, grammaticalCase, gender, noun).rule
         == "ein-word ending for " + grammaticalCase + "+" + gender + " is -∅"
  {
    EndingTable();
    var d := DeclinePossessive(p, grammaticalCase, gender, noun);
    assert d.phrase == d.phrase[..|Stem(p)|] + d.phrase[|Stem(p)|..];
  }

  /** The text after "is -" in the rule, with the empty-set sign read back as no ending. */
  function EndingFromRule(grammaticalCase: string, gender: string, rule: string): string {
    var prefix := "ein-word ending for " + grammaticalCase + "+" + gender + " is -";
    if |prefix| <= |rule| && rule[..|prefix|] == prefix then
      var tail := rule[|prefix|..];
      if tail == NoEnding then "" else tail
    else NoEnding
  }

  /** The rule string names the ending that was applied: reading it back recovers the ending. */
  lemma RuleNamesEnding(p: string, grammaticalCase: string, gender: string, noun: string)
    ensures EndingFromRule(grammaticalCase, gender, DeclinePossessive(p, grammaticalCase, gender, noun).rule)
         == Ending(grammaticalCase, gender)
  {
    var e := Ending(grammaticalCase, gender);
    EndingShape(grammaticalCase, gender);
    var prefix := "ein-word ending for " + grammaticalCase + "+" + gender + " is -";
    var rule := DeclinePossessive(p, grammaticalCase, gender, noun).rule;
    assert rule == prefix + (if e == "" then NoEnding else e);
    assert rule[..|prefix|] == prefix;
    assert rule[|prefix|..] == (if e == "" then NoEnding else e);
  }

  /** "euer" always comes out as "eur" plus the ending: never in its unchanged form. */
  lemma IrregularStem(grammaticalCase: string, gender: string, noun: string)
    ensures var phrase := DeclinePossessive("euer", grammaticalCase, gender, noun).phrase;
      StartsWith(phrase, "eur") && !StartsWith(phrase, "euer")
  {
    EndingShape(grammaticalCase, gender);
    var e := Ending(grammaticalCase, gender);
    var phrase := DeclinePossessive("euer", grammaticalCase, gender, noun).phrase;
    assert phrase[3] == if e == [] then ' ' else e[0];
  }

  /** The quiz's worked example for the dative feminine. */
  lemma DativeFeminineExample()
    ensures DeclinePossessive("dein", "dat", "f", "Katze")
         == Declension("deiner Katze", "ein-word ending for dat+f is -er")
  {
  }

  /** The quiz's worked example for "euer" with no ending. */
  lemma EuerExample()
    ensures DeclinePossessive("euer", "nom", "m", "Hund")
         == Declension("eur Hund", "ein-word ending for nom+m is -∅")
  {
  }
}
