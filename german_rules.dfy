/**
 * The grammar reference: ten constant tables (cases, articles, two preposition tables,
 * word order, conjugation, separable verbs, personal pronouns, modal verbs, plurals)
 * filled once and never changed, and nine getters: eight look a key up in their table,
 * one picks a preposition table by the case name; each answers with a fixed message
 * when it has nothing to return.
 */
module GermanRules {
  import opened Dicts

  /** A getter's answer: the table entry, or the message the getter returns in its place. */
  datatype Lookup<T> = Found(value: T) | NotFound(message: string)

  /** One grammatical case: its role, its definite article per gender, an example sentence. */
  datatype CaseInfo = CaseInfo(role: string, articles: map<string, string>, example: string)

  /** The four genders the article tables are keyed by. */
  const Genders: set<string> := {"Masculine", "Feminine", "Neuter", "Plural"}

  const Cases: map<string, CaseInfo> := map[
    "Nominativ" := CaseInfo(
      "Subject (who or what is performing the action)",
      map["Masculine" := "der", "Feminine" := "die", "Neuter" := "das", "Plural" := "die"],
      "Der Mann liest. (The man reads.)"),
    "Akkusativ" := CaseInfo(
      "Direct object (who or what is receiving the action)",
      map["Masculine" := "den", "Feminine" := "die", "Neuter" := "das", "Plural" := "die"],
      "Ich sehe den Hund. (I see the dog.)"),
    "Dativ" := CaseInfo(
      "Indirect object (to whom/for whom something is done)",
      map["Masculine" := "dem", "Feminine" := "der", "Neuter" := "dem", "Plural" := "den"],
      "Ich gebe dem Kind ein Buch. (I give the child a book.)"),
    "Genitiv" := CaseInfo(
      "Possession or relationship (whose)",
      map["Masculine" := "des", "Feminine" := "der", "Neuter" := "des", "Plural" := "der"],
      "Das Auto des Mannes. (The man’s car.)")
  ]

  const Articles: map<string, map<string, string>> := map[
    "Definite" := map["Masculine" := "der", "Feminine" := "die", "Neuter" := "das", "Plural" := "die"],
    "Indefinite" := map["Masculine" := "ein", "Feminine" := "eine", "Neuter" := "ein"]
  ]

  const AkkusativPrepositions: map<string, string> := map[
    "durch" := "through", "für" := "for", "ohne" := "without", "gegen" := "against", "um" := "around/about"
  ]

  const DativPrepositions: map<string, string> := map[
    "aus" := "from/out of", "bei" := "at/near/with", "mit" := "with", "nach" := "after/to",
    "seit" := "since/for", "von" := "from", "zu" := "to/at"
  ]

  const WordOrderExamples: map<string, string> := map[
    "simple_sentence" := "Ich liebe den Film. (I love the movie.)",
    "questions" := "Liebst du den Film? (Do you love the movie?)",
    "subordinate_clause" := "Ich weiß, dass du den Film liebst. (I know that you love the movie.)"
  ]

  const RegularVerbConjugation: map<string, map<string, string>> := map[
    "lieben" := map[
      "ich" := "liebe", "du" := "liebst", "er/sie/es" := "liebt",
      "wir" := "lieben", "ihr" := "liebt", "sie/Sie" := "lieben"]
  ]

  const SeparableVerbs: map<string, (string, string)> := map[
    "ankommen" := ("to arrive", "Er kommt um 8 Uhr an. (He arrives at 8 o'clock.)"),
    "aufstehen" := ("to get up", "Ich stehe früh auf. (I get up early.)"),
    "mitbringen" := ("to bring with", "Sie bringt ihren Freund mit. (She brings her friend along.)")
  ]

  /** The nominative pronoun literal as written: nine entries, "sie" twice. */
  const NominativEntries: seq<(string, string)> := [
    ("ich", "I"), ("du", "you"), ("er", "he"), ("sie", "she"), ("es", "it"),
    ("wir", "we"), ("ihr", "you all"), ("sie", "they"), ("Sie", "you formal")
  ]

  /** The accusative pronoun literal as written: nine entries, "sie" twice. */
  const AkkusativEntries: seq<(string, string)> := [
    ("mich", "me"), ("dich", "you"), ("ihn", "him"), ("sie", "her"), ("es", "it"),
    ("uns", "us"), ("euch", "you all"), ("sie", "them"), ("Sie", "you formal")
  ]

  const DativPronouns: map<string, string> := map[
    "mir" := "to me", "dir" := "to you", "ihm" := "to him", "ihr" := "to her",
    "ihm (neuter)" := "to it", "uns" := "to us", "euch" := "to you all",
    "ihnen" := "to them", "Ihnen" := "to you formal"
  ]

  /** The personal-pronoun tables, the first two built from their literals as Python builds them. */
  const PersonalPronouns: map<string, map<string, string>> := map[
    "Nominativ" := DictLiteral(NominativEntries),
    "Akkusativ" := DictLiteral(AkkusativEntries),
    "Dativ" := DativPronouns
  ]

  const ModalVerbs: map<string, string> := map[
    "können" := "can, to be able to", "müssen" := "must, to have to", "wollen" := "to want to",
    "sollen" := "should, ought to", "dürfen" := "may, to be allowed to", "mögen" := "to like"
  ]

  const PluralForms: map<string, (string, string, string)> := map[
    "katze" := ("die Katze", "die Katzen", "the cat → the cats"),
    "kind" := ("das Kind", "die Kinder", "the child → the children"),
    "blume" := ("die Blume", "die Blumen", "the flower → the flowers"),
    "auto" := ("das Auto", "die Autos", "the car → the cars"),
    "lehrer" := ("der Lehrer", "die Lehrer", "the teacher → the teachers")
  ]

  /** `table.get(key, message)`: the entry when the key is present, the message otherwise. */
  function Get<T>(table: map<string, T>, key: string, message: string): (r: Lookup<T>)
    ensures r.Found? <==> key in table
    ensures r.Found? ==> r.value == table[key]
    ensures r.NotFound? ==> r.message == message
  {
    if key in table then Found(table[key]) else NotFound(message)
  }

  function GetCaseInfo(grammaticalCase: string): (r: Lookup<CaseInfo>)
    ensures r.Found? <==> grammaticalCase in {"Nominativ", "Akkusativ", "Dativ", "Genitiv"}
    ensures r.Found? ==> r.value == Cases[grammaticalCase]
    ensures r.NotFound? ==> r.message == "Case not found."
  {
    Get(Cases, grammaticalCase, "Case not found.")
  }

  function GetArticleInfo(articleType: string): (r: Lookup<map<string, string>>)
    ensures r.Found? <==> articleType in {"Definite", "Indefinite"}
    ensures r.Found? ==> r.value == Articles[articleType]
    ensures r.NotFound? ==> r.message == "Article type not found."
  {
    Get(Articles, articleType, "Article type not found.")
  }

  /** Not a table lookup but a test of the case name: only the two exact names have a table. */
  function GetPrepositions(grammaticalCase: string): (r: Lookup<map<string, string>>)
    ensures r.Found? <==> grammaticalCase == "Akkusativ" || grammaticalCase == "Dativ"
    ensures grammaticalCase == "Akkusativ" ==> r == Found(AkkusativPrepositions) && |r.value| == 5
    ensures grammaticalCase == "Dativ" ==> r == Found(DativPrepositions) && |r.value| == 7
    ensures r.NotFound? ==> r.message == "Prepositions for this case not found."
  {
    if grammaticalCase == "Akkusativ" then Found(AkkusativPrepositions)
    else if grammaticalCase == "Dativ" then Found(DativPrepositions)
    else NotFound("Prepositions for this case not found.")
  }

  function GetWordOrderExample(sentenceType: string): (r: Lookup<string>)
    ensures r.Found? <==> sentenceType in {"simple_sentence", "questions", "subordinate_clause"}
    ensures r.Found? ==> r.value == WordOrderExamples[sentenceType]
    ensures r.NotFound? ==> r.message == "Sentence type not found."
  {
    Get(WordOrderExamples, sentenceType, "Sentence type not found.")
  }

  function GetVerbConjugation(verb: string): (r: Lookup<map<string, string>>)
    ensures r.Found? <==> verb == "lieben"
    ensures r.Found? ==> r.value == RegularVerbConjugation[verb]
    ensures r.NotFound? ==> r.message == "Verb not found."
  {
    Get(RegularVerbConjugation, verb, "Verb not found.")
  }

  function GetSeparableVerb(verb: string): (r: Lookup<(string, string)>)
    ensures r.Found? <==> verb in {"ankommen", "aufstehen", "mitbringen"}
    ensures r.Found? ==> r.value == SeparableVerbs[verb]
    ensures r.NotFound? ==> r.message == "Separable verb not found."
  {
    Get(SeparableVerbs, verb, "Separable verb not found.")
  }

  /** Shares its message with `GetCaseInfo`. */
  function GetPersonalPronouns(grammaticalCase: string): (r: Lookup<map<string, string>>)
    ensures r.Found? <==> grammaticalCase in {"Nominativ", "Akkusativ", "Dativ"}
    ensures r.Found? ==> r.value == PersonalPronouns[grammaticalCase]
    ensures r.NotFound? ==> r.message == "Case not found."
  {
    Get(PersonalPronouns, grammaticalCase, "Case not found.")
  }

  function GetModalVerb(verb: string): (r: Lookup<string>)
    ensures r.Found? <==> verb in {"können", "müssen", "wollen", "sollen", "dürfen", "mögen"}
    ensures r.Found? ==> r.value == ModalVerbs[verb]
    ensures r.NotFound? ==> r.message == "Modal verb not found."
  {
    Get(ModalVerbs, verb, "Modal verb not found.")
  }

  function GetPluralForm(singularNoun: string): (r: Lookup<(string, string, string)>)
    ensures r.Found? <==> singularNoun in {"katze", "kind", "blume", "auto", "lehrer"}
    ensures r.Found? ==> r.value == PluralForms[singularNoun]
    ensures r.NotFound? ==> r.message == "Noun not found."
  {
    Get(PluralForms, singularNoun, "Noun not found.")
  }

  /** Every case gives a definite article for each of the four genders, and for nothing else. */
  lemma CaseArticlesComplete()
    ensures forall c :: c in Cases ==> Cases[c].articles.Keys == Genders
  {
  }

  /** The dative feminine article is "der", as is the genitive one. */
  lemma FeminineDativeArticle()
    ensures GetCaseInfo("Dativ") == Found(Cases["Dativ"]) && Cases["Dativ"].articles["Feminine"] == "der"
    ensures Cases["Genitiv"].articles["Feminine"] == "der"
  {
  }

  /** The indefinite article has no plural, the definite one has. */
  lemma IndefiniteHasNoPlural()
    ensures GetArticleInfo("Indefinite").Found? && "Plural" !in GetArticleInfo("Indefinite").value
    ensures GetArticleInfo("Definite").Found? && "Plural" in GetArticleInfo("Definite").value
  {
  }

  /** The duplicated "sie" keeps its last value: "they" in the nominative, "them" in the accusative. */
  lemma DuplicateKeyKeepsLast()
    ensures GetPersonalPronouns("Nominativ") == Found(DictLiteral(NominativEntries))
    ensures DictLiteral(NominativEntries)["sie"] == "they"
    ensures GetPersonalPronouns("Akkusativ") == Found(DictLiteral(AkkusativEntries))
    ensures DictLiteral(AkkusativEntries)["sie"] == "them"
  {
    AssignLastWins(map[], NominativEntries, 7);
    AssignLastWins(map[], AkkusativEntries, 7);
  }

  /** The nominative table as Python builds it: eight keys, "sie" meaning "they". */
  const NominativPronouns: map<string, string> := map[
    "ich" := "I", "du" := "you", "er" := "he", "sie" := "they", "es" := "it",
    "wir" := "we", "ihr" := "you all", "Sie" := "you formal"]

  /** The accusative table as Python builds it: eight keys, "sie" meaning "them". */
  const AkkusativPronouns: map<string, string> := map[
    "mich" := "me", "dich" := "you", "ihn" := "him", "sie" := "them", "es" := "it",
    "uns" := "us", "euch" := "you all", "Sie" := "you formal"]

  /** Nine nominative entries are written, and the table built from them is the eight-key one. */
  lemma NominativBuilt()
    ensures DictLiteral(NominativEntries) == NominativPronouns
  {
  }

  /** Nine accusative entries are written, and the table built from them is the eight-key one. */
  lemma AkkusativBuilt()
    ensures DictLiteral(AkkusativEntries) == AkkusativPronouns
  {
  }

  /** The duplicated nominative key leaves one key fewer than entries written. */
  lemma NominativHasEightKeys()
    ensures |NominativEntries| == 9 && |NominativPronouns| == 8
  {
  }

  /** The duplicated accusative key leaves one key fewer than entries written. */
  lemma AkkusativHasEightKeys()
    ensures |AkkusativEntries| == 9 && |AkkusativPronouns| == 8
  {
  }

  /** Lookups are exact: the lower-case key is found, the capitalised noun is not. */
  lemma LookupIsCaseSensitive()
    ensures GetPluralForm("katze") == Found(("die Katze", "die Katzen", "the cat → the cats"))
    ensures GetPluralForm("Katze") == NotFound("Noun not found.")
    ensures GetPrepositions("dativ") == NotFound("Prepositions for this case not found.")
  {
  }
}
