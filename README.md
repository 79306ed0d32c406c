# schlange core, modelled in Dafny

schlange is a set of small German-learning tools. This project models and proves
properties of their core:

- **Possessive declension** (`Morphology`). The pronoun quiz declines an ein-word such
  as "dein" or "euer" by case and gender. It returns the declined phrase and the rule
  that produced the ending.
- **Answer equivalence** (`Equivalence`). A typed answer is expanded into a set of
  accepted spellings: trimmed, lower-cased, one umlaut or sharp-s substitution per seed,
  whitespace collapsed. Two answers are equal when their sets meet.
- **Grammar reference** (`GermanRules`). Ten constant tables and nine getters. Eight
  getters look their key up in one table with `dict.get`. The preposition getter picks
  one of the two preposition tables by the case name. Each getter answers with a fixed
  message when it has nothing to return.
- **Sentence database of the audio generator** (`SentenceStore`). Covers three things:
  - how a file-name key is derived from an English sentence;
  - how the model's reply is taken out of a Markdown code fence;
  - how the database map changes when sentences are generated and audio is created.
- **Markdown sectioning** (`MarkdownSections`, `Translate`, `SentenceAnalysis`). The
  translator and the sentence analyser both cut a chat reply into sections with
  `re.split(r"(### .+)", …)`. Each level-3 header and the text under it become one
  section.

Support modules:

- `Text`: Python's string built-ins used by the core (`strip`, `lower`, `isalnum`,
  `split`, `join`, `replace`, `re.sub(r'\s+', ' ', …)`).
- `Dicts`: sequential dictionary assignment, where the last assignment of a key wins.
- `Wrappers`: `Option`.

The tables and the declension are pure functions. The database is a class with a
`sentences` map field that its methods reassign. The loops of `alt_forms` and of
`format_response` are methods with loop invariants. Each loop is proved against the
function that specifies it.

Behaviour of the code worth knowing:

- **Answer checking.** `alt_forms` applies one umlaut or sharp-s substitution at a time,
  to the trimmed answer and to its lower-case form only. Substitutions never compound,
  so a word with two special letters is not accepted with both spelled out.
  `Equivalence.SubstitutionsDoNotCompound` shows such a pair:
  "übermäßig" against "uebermaessig".
- **Personal pronouns.** The table is written with duplicate keys ("sie" twice in the
  nominative and in the accusative). Python keeps the last value, so "she" and "her"
  are lost.
- **File-name keys.** A key is cut to 60 characters, so it can end in an underscore.
  Two sentences can derive the same key, and then the later one overwrites the earlier
  one (`SentenceStore.BatchLastPairWins`).

## Model

| member | source | states |
|---|---|---|
| Morphology.Stem | chatgpt/pronouns_cli_v2/src/morphology.py:2 | the stem is the determiner itself exactly when it is not "euer", and "eur" for "euer" |
| Morphology.Ending | chatgpt/pronouns_cli_v2/src/morphology.py:4 | a (case, gender) pair missing from the table gets the empty ending |
| Morphology.DeclinePossessive | chatgpt/pronouns_cli_v2/src/morphology.py:3-5 | the phrase is the stem, then the ending, then one blank and the noun; the rule names case, gender and ending; every input is accepted |
| Morphology.EndingTable | chatgpt/pronouns_cli_v2/src/morphology.py:1 | the table covers exactly the two cases × four genders, with the eight endings listed |
| Morphology.EndingShape | chatgpt/pronouns_cli_v2/src/morphology.py:1 | every ending is empty or starts with "e" |
| Morphology.UnknownPairHasNoEnding | chatgpt/pronouns_cli_v2/src/morphology.py:4-5 | an unknown case or gender declines to the bare stem, and the rule shows the empty-set sign |
| Morphology.RuleNamesEnding | chatgpt/pronouns_cli_v2/src/morphology.py:4 | the ending can be read back from the rule string (the empty-set sign stands for no ending) |
| Morphology.IrregularStem | chatgpt/pronouns_cli_v2/src/morphology.py:2-5 | a phrase declined from "euer" always starts with "eur" and never with "euer" |
| Morphology.DativeFeminineExample | chatgpt/pronouns_cli_v2/src/morphology.py:3-5 | "dein" dative feminine with "Katze" gives "deiner Katze" and the -er rule |
| Morphology.EuerExample | chatgpt/pronouns_cli_v2/src/morphology.py:2-5 | "euer" nominative masculine with "Hund" gives "eur Hund" and the -∅ rule |
| Equivalence.SubstitutionsSize | chatgpt/pronouns_cli_v2/src/utils.py:6 | the first n pairs of the map give at most 2n spellings from one seed |
| Equivalence.PairIncluded | chatgpt/pronouns_cli_v2/src/utils.py:6 | both replacements of every pair of the map are added |
| Equivalence.SubstitutionFrom | chatgpt/pronouns_cli_v2/src/utils.py:6 | nothing is added but one pair's replacement in one direction |
| Equivalence.PatternsHoldOneSpecial | chatgpt/pronouns_cli_v2/src/utils.py:2 | no key or value of the umlaut map holds two of ü, ä, ß |
| Equivalence.RawForms | chatgpt/pronouns_cli_v2/src/utils.py:4-6 | the forms hold both seeds: the trimmed answer and its lower case |
| Equivalence.RawFormsSize | chatgpt/pronouns_cli_v2/src/utils.py:4-6 | there are at most 18 forms before normalisation |
| Equivalence.AltForms | chatgpt/pronouns_cli_v2/src/utils.py:3-7 | the normalised trimmed answer and its lower case are accepted, and every accepted spelling is in normal form |
| Equivalence.AddSubstitutions | chatgpt/pronouns_cli_v2/src/utils.py:6 | the inner loop adds exactly one seed's substitutions to the set |
| Equivalence.MapEach | chatgpt/pronouns_cli_v2/src/utils.py:7 | the list comprehension has one entry per form, and its entries are exactly the mapped forms |
| Equivalence.CollectForms | chatgpt/pronouns_cli_v2/src/utils.py:4-6 | the loop over the snapshot of the seeds ends with the seeds and each seed's substitutions, nothing more |
| Equivalence.AltFormsList | chatgpt/pronouns_cli_v2/src/utils.py:3-7 | the returned list holds exactly the accepted spellings, one entry per form, at most 18 entries |
| Equivalence.IsCorrect | chatgpt/pronouns_cli_v2/src/utils.py:8 | no contract; defined as: the two answers' sets of accepted spellings share a member |
| Equivalence.IsCorrectReflexive | chatgpt/pronouns_cli_v2/src/utils.py:8 | every answer is accepted against itself |
| Equivalence.IsCorrectSymmetric | chatgpt/pronouns_cli_v2/src/utils.py:8 | the verdict does not depend on which answer is the user's |
| Equivalence.CaseAndSpacingIgnored | chatgpt/pronouns_cli_v2/src/utils.py:3-8 | answers that agree after trimming, lower-casing and collapsing whitespace are accepted |
| Equivalence.UberSpelledOut | chatgpt/pronouns_cli_v2/src/utils.py:4-6 | lower-casing "Über" and spelling out ü gives "ueber" |
| Equivalence.FussSpelledOut | chatgpt/pronouns_cli_v2/src/utils.py:4-6 | lower-casing "Fuß" and spelling out ß gives "fuss" |
| Equivalence.LowerSubstitutionIsForm | chatgpt/pronouns_cli_v2/src/utils.py:4-7 | one substitution on the lower-case seed of a word without whitespace is accepted |
| Equivalence.SubstitutionAccepted | chatgpt/pronouns_cli_v2/src/utils.py:4-7 | for either seed and every pair (k, v) of the map, both `f.replace(k, v)` and `f.replace(v, k)`, normalised, are accepted spellings |
| Equivalence.OwnForm | chatgpt/pronouns_cli_v2/src/utils.py:3-7 | a word without whitespace is one of its own accepted spellings |
| Equivalence.UmlautSpelledOutAccepted | chatgpt/pronouns_cli_v2/src/utils.py:2-8 | "ueber" is accepted for "Über" |
| Equivalence.SharpSSpelledOutAccepted | chatgpt/pronouns_cli_v2/src/utils.py:2-8 | "fuss" is accepted for "Fuß" |
| Equivalence.AllSpecialsForms | chatgpt/pronouns_cli_v2/src/utils.py:3-7 | every accepted spelling of a word holding ü, ä and ß still holds two of them |
| Equivalence.AsciiForms | chatgpt/pronouns_cli_v2/src/utils.py:3-7 | no accepted spelling of a word of letters a–z holds two of ü, ä, ß |
| Equivalence.OneSubstitutionPerSide | chatgpt/pronouns_cli_v2/src/utils.py:3-8 | a word holding ü, ä and ß is never accepted against any spelling made of a–z only |
| Equivalence.SubstitutionsDoNotCompound | chatgpt/pronouns_cli_v2/src/utils.py:3-8 | "uebermaessig" is rejected for "übermäßig" |
| Equivalence.UntouchedForms | chatgpt/pronouns_cli_v2/src/utils.py:3-7 | a word without whitespace in which no pattern of the map occurs, in either case, has exactly itself and its lower case as accepted spellings |
| Equivalence.PlainUntouched | chatgpt/pronouns_cli_v2/src/utils.py:2 | no pattern of the map (ä, ae, ö, oe, ü, ue, ß, ss) occurs in a word without ä, ö, ü, ß, s and without an e after a, o or u |
| Equivalence.PlainAnswersRejected | chatgpt/pronouns_cli_v2/src/utils.py:3-8 | two words without whitespace that are plain in both cases are rejected against each other when neither word, nor its lower case, equals the other word or its lower case |
| Equivalence.KatzeHundRejected | chatgpt/pronouns_cli_v2/src/utils.py:8 | an ordinary wrong answer is rejected: "Hund" is not accepted for "Katze" |
| Text.Lower | chatgpt/pronouns_cli_v2/src/utils.py:4 | lower-casing keeps the length and maps each character on its own |
| Text.Strip | chatgpt/pronouns_cli_v2/src/utils.py:4 | `strip` leaves no whitespace at either end |
| Text.StripInfix | chatgpt/pronouns_cli_v2/src/utils.py:4 | `strip` returns the infix between the leading and the trailing whitespace, and removes nothing else |
| Text.CollapseWhitespace | chatgpt/pronouns_cli_v2/src/utils.py:7 | every whitespace run becomes one blank: no two whitespace characters in a row, and none other than the blank |
| Text.CollapseIsSqueeze | chatgpt/pronouns_cli_v2/src/utils.py:7 | the collapse equals a one-pass reading that copies each other character and writes one blank at the start of each whitespace run |
| Text.SqueezeAfterSpace | chatgpt/pronouns_cli_v2/src/utils.py:7 | inside a whitespace run, further whitespace writes nothing |
| Text.Normalize | chatgpt/pronouns_cli_v2/src/utils.py:7 | the result has no edge whitespace, no whitespace runs and only blanks as whitespace |
| Text.NormalizeIdempotent | chatgpt/pronouns_cli_v2/src/utils.py:7 | normalising twice is normalising once |
| Text.NormalizeChars | chatgpt/pronouns_cli_v2/src/utils.py:7 | normalising keeps every non-whitespace character and adds none |
| Text.Replace | chatgpt/pronouns_cli_v2/src/utils.py:6 | `replace` of the whole string by the pattern gives the replacement; defined as the left-to-right, non-overlapping replacement |
| Text.ReplaceAbsent | chatgpt/pronouns_cli_v2/src/utils.py:6 | replacing a pattern that does not occur changes nothing |
| Text.ReplaceKeeps | chatgpt/pronouns_cli_v2/src/utils.py:6 | a character outside the pattern and the replacement survives a replacement |
| Text.ReplaceDraws | chatgpt/pronouns_cli_v2/src/utils.py:6 | a replacement brings in no character that is in neither the string nor the replacement |
| Text.Words | claude/german_tts_generator.py:119 | no contract; defined as: skip whitespace, take the longest run of non-whitespace as a word, repeat |
| Text.JoinWith | claude/german_tts_generator.py:119 | `"_".join`: no words give the empty string, otherwise the result starts with the first word |
| Text.WordsShape | claude/german_tts_generator.py:119 | `split()` yields non-empty words without whitespace |
| Text.WordsEmpty | claude/german_tts_generator.py:119 | `split()` yields no word exactly when the string is all whitespace |
| Text.WordsAreAlnum | claude/german_tts_generator.py:118-119 | splitting a string of letters, digits and whitespace yields words of letters and digits |
| Dicts.Assign | claude/german_tts_generator.py:115-125 | no contract; defined as: the entries assigned one after the other into the map, as `d[k] = v` in a loop or a dict literal does |
| Dicts.AssignKeys | claude/german_tts_generator.py:115-125 | after the assignments the keys are the old keys and the assigned ones |
| Dicts.AssignLastWins | chatgpt/german_rules.py:111-133 | a key assigned again later holds its last value |
| Dicts.AssignUntouched | claude/german_tts_generator.py:115-125 | a key no entry assigns keeps its value |
| Dicts.AssignAppend | claude/german_tts_generator.py:115-125 | assigning two batches one after the other is assigning them joined |
| GermanRules.Get | chatgpt/german_rules.py:166-205 | `dict.get` with a default: the entry exactly when the key is present, the getter's message otherwise |
| GermanRules.GetCaseInfo | chatgpt/german_rules.py:166-168 | found exactly for the four case names, with that case's entry; "Case not found." otherwise |
| GermanRules.GetArticleInfo | chatgpt/german_rules.py:170-172 | found exactly for "Definite" and "Indefinite", with that article table; "Article type not found." otherwise |
| GermanRules.GetPrepositions | chatgpt/german_rules.py:174-181 | the accusative table (5 prepositions) for "Akkusativ", the dative table (7) for "Dativ", the fixed message for any other name |
| GermanRules.GetWordOrderExample | chatgpt/german_rules.py:183-185 | found exactly for the three sentence types, with that type's example; "Sentence type not found." otherwise |
| GermanRules.GetVerbConjugation | chatgpt/german_rules.py:187-189 | found exactly for "lieben", with its conjugation table; "Verb not found." otherwise |
| GermanRules.GetSeparableVerb | chatgpt/german_rules.py:191-193 | found exactly for the three separable verbs, with that verb's entry; "Separable verb not found." otherwise |
| GermanRules.GetPersonalPronouns | chatgpt/german_rules.py:195-197 | found exactly for the three cases of the table, with that case's pronoun table; "Case not found." otherwise |
| GermanRules.GetModalVerb | chatgpt/german_rules.py:199-201 | found exactly for the six modal verbs, with that verb's entry; "Modal verb not found." otherwise |
| GermanRules.GetPluralForm | chatgpt/german_rules.py:203-205 | found exactly for the five lower-case nouns, with that noun's plural; "Noun not found." otherwise |
| GermanRules.CaseArticlesComplete | chatgpt/german_rules.py:6-47 | every case has a definite article for each of the four genders and for nothing else |
| GermanRules.FeminineDativeArticle | chatgpt/german_rules.py:27-45 | the dative and the genitive feminine article is "der" |
| GermanRules.IndefiniteHasNoPlural | chatgpt/german_rules.py:50-61 | the definite articles have a plural and the indefinite ones do not |
| GermanRules.DuplicateKeyKeepsLast | chatgpt/german_rules.py:111-133 | the duplicated "sie" means "they" in the nominative and "them" in the accusative |
| GermanRules.NominativBuilt | chatgpt/german_rules.py:112-122 | the nine written nominative entries build the eight-key table |
| GermanRules.AkkusativBuilt | chatgpt/german_rules.py:123-133 | the nine written accusative entries build the eight-key table |
| GermanRules.NominativHasEightKeys | chatgpt/german_rules.py:112-122 | nine entries are written and eight keys remain |
| GermanRules.AkkusativHasEightKeys | chatgpt/german_rules.py:123-133 | nine entries are written and eight keys remain |
| GermanRules.LookupIsCaseSensitive | chatgpt/german_rules.py:174-205 | lookups are exact: "katze" is found, "Katze" and "dativ" are not |
| SentenceStore.KeepAlnumOrSpace | claude/german_tts_generator.py:118 | only letters, digits and whitespace remain, and a letter or digit remains exactly when one was there |
| SentenceStore.KeepAlnumOrSpaceChar | claude/german_tts_generator.py:118 | one character is kept exactly when it is a letter, a digit or whitespace |
| SentenceStore.KeepAlnumOrSpaceConcat | claude/german_tts_generator.py:118 | the cleaning is a filter: cleaning a joined string is joining the cleaned pieces, in order |
| SentenceStore.DeriveKey | claude/german_tts_generator.py:116-119 | no contract; defined as: lower-case, keep letters, digits and whitespace, split into words, join with "_", cut to 60 characters (its shape is stated by DerivedKeyShape) |
| SentenceStore.JoinKeyShape | claude/german_tts_generator.py:119 | joining non-empty alphanumeric words with "_" gives letters, digits and single underscores, none first |
| SentenceStore.PrefixKeyShape | claude/german_tts_generator.py:119 | cutting a key to 60 keeps its shape |
| SentenceStore.DerivedKeyShape | claude/german_tts_generator.py:116-119 | every key has at most 60 characters, all letters, digits or underscores, never a leading or doubled underscore; it is empty exactly when the sentence has no letter or digit |
| SentenceStore.NoWordsIff | claude/german_tts_generator.py:117-119 | the cleaned sentence has no word exactly when the sentence has no letter or digit |
| SentenceStore.LowerHasAlnum | claude/german_tts_generator.py:117 | lower-casing keeps whether a letter or digit is present |
| SentenceStore.AlnumOrSpaceHasAlnum | claude/german_tts_generator.py:118-119 | a string of letters, digits and whitespace has a letter or digit exactly when it is not all whitespace |
| SentenceStore.Unfence | claude/german_tts_generator.py:103-110 | no contract; defined as: trim the reply; when it opens with a fence, take the text up to the next fence (or the end), drop a leading "json", and trim again (its behaviour is stated by FenceRoundTrip and UnfencedReplyKept) |
| SentenceStore.DropJsonTag | claude/german_tts_generator.py:107-108 | no contract; defined as: the text less its first four characters when it starts with "json", the text itself otherwise |
| SentenceStore.FirstOccurrence | claude/german_tts_generator.py:106 | the leftmost occurrence of the fence, or the end when there is none |
| SentenceStore.UnfencedReplyKept | claude/german_tts_generator.py:103-110 | a reply not opening with a fence is only trimmed |
| SentenceStore.FenceRoundTrip | claude/german_tts_generator.py:103-110 | a body wrapped in a fence, with or without the "json" tag and followed by any text, is recovered trimmed, and unchanged when it has no whitespace at its ends; the text after the closing fence never matters |
| SentenceStore.TrailingProseIgnored | claude/german_tts_generator.py:103-110 | "```json\n[]\n```\nHope this helps!" gives "[]": the chatter after the closing fence is dropped |
| SentenceStore.ClosingFence | claude/german_tts_generator.py:106 | `split("```")[1]` stops at the closing fence when the body holds none |
| SentenceStore.TagDropped | claude/german_tts_generator.py:107-108 | the "json" tag, and only it, is dropped |
| SentenceStore.Entries | claude/german_tts_generator.py:115-125 | one assignment per pair |
| SentenceStore.EntriesAt | claude/german_tts_generator.py:115-125 | the i-th assignment files the i-th pair under its derived key as not yet generated |
| SentenceStore.IsPending | claude/german_tts_generator.py:186 | `not v.get('audio_generated', False)`: pending exactly when the flag is missing or false, that is, exactly when it is not true |
| SentenceStore.PendingKeys | claude/german_tts_generator.py:186 | a key is pending exactly when its record lacks the flag or has it false |
| SentenceStore.SentenceDatabase.constructor | claude/german_tts_generator.py:113 | the database starts as the loaded map |
| SentenceStore.SentenceDatabase.GenerateSentences | claude/german_tts_generator.py:113-125 | the new map is the old one with every pair's entry assigned in order |
| SentenceStore.SentenceDatabase.CreateAudio | claude/german_tts_generator.py:132-181 | false and no change for an unknown key; otherwise true and exactly that record flagged |
| SentenceStore.SentenceDatabase.CreateAllAudio | claude/german_tts_generator.py:183-192 | afterwards every record is flagged and nothing else changes |
| SentenceStore.BatchStep | claude/german_tts_generator.py:115-125 | filing one more pair is one more dictionary assignment |
| SentenceStore.BatchLastPairWins | claude/german_tts_generator.py:115-125 | a pair's key holds its record unless a later pair of the batch derives the same key |
| SentenceStore.BatchKeepsOtherKeys | claude/german_tts_generator.py:113-125 | keys no pair derives keep their records |
| SentenceStore.BatchIsPending | claude/german_tts_generator.py:121-125 | every key of a new batch is pending |
| SentenceStore.MarkLeavesPending | claude/german_tts_generator.py:177 | flagging a record removes exactly its key from the pending keys |
| SentenceStore.AllGeneratedNothingPending | claude/german_tts_generator.py:186-192 | once all records are flagged nothing is pending, and no sentence text changed |
| MarkdownSections.FindHeader | translate.py:45 | the leftmost position where `### .+` matches, or none |
| MarkdownSections.LineEnd | translate.py:45 | where the greedy `.+` stops: the first newline or the end |
| MarkdownSections.Split | translate.py:45 | the split has an odd number of parts |
| MarkdownSections.SplitConcat | translate.py:45 | the parts joined give the reply back |
| MarkdownSections.SplitHeaders | translate.py:45 | every odd part is a header line without a newline, and the part after it is empty or starts a new line |
| MarkdownSections.HeaderRunsToEnd | translate.py:45 | an empty part after a header is the last part: the greedy `.+` ran to the end of the reply, so no header is cut short before another |
| MarkdownSections.SplitFirst | translate.py:45 | the first part is a prefix of the reply, and no match of `### .+` in the reply starts inside it |
| MarkdownSections.SplitGaps | translate.py:45 | no even part holds a header, and no match of `### .+` in the reply starts inside an even part |
| MarkdownSections.SplitNoHeader | translate.py:45 | the split is one part exactly when the reply holds no header |
| MarkdownSections.Section | translate.py:48-50 | no contract; defined as: the trimmed header, a blank line, the trimmed text under it |
| MarkdownSections.Sections | translate.py:46-51 | no contract; defined as: one Section per odd place of the split, from that header and the part after it, in order |
| MarkdownSections.FormatSections | translate.py:46-52 | the loop yields, for each odd place, the trimmed header, a blank line and the trimmed text after it |
| MarkdownSections.SectionsStep | translate.py:47-51 | one more loop round appends the next header's section |
| MarkdownSections.SectionsOfReply | german_sentence_analysis.py:40-47 | there is one section per header, and each opens with "###" |
| MarkdownSections.SectionOpensWithHashes | german_sentence_analysis.py:43-45 | a section built from a header line opens with "###" |
| MarkdownSections.NoSectionsIff | german_sentence_analysis.py:40-47 | there is no section exactly when the reply has no header |
| MarkdownSections.SectionsIgnorePreamble | german_sentence_analysis.py:40-47 | the text before the first header does not affect the sections |
| MarkdownSections.SplitAfterNewline | translate.py:43-45 | a newline in front of the reply joins only its first part |
| MarkdownSections.HeaderFirst | translate.py:43-45 | a reply opening with a header line splits into nothing, that line, then the rest's split |
| MarkdownSections.SplitUnderHeader | translate.py:43-45 | a reply under a header line of its own: the text before the reply's first header joins that header |
| MarkdownSections.SectionsAfterFirst | translate.py:43-51 | one more header in front gives its section first and leaves the others unchanged |
| Translate.FormatResponse | translate.py:42-52 | the added header's section holds the reply's text up to its first header, and the reply's own sections follow unchanged |
| Translate.TranslationSections | translate.py:42-52 | the sections under the added header are the translation section followed by the reply's own sections |
| Translate.TranslationSplit | translate.py:43-45 | the split under the added header is nothing, the header, the reply's first part behind a newline, then the reply's other parts |
| Translate.TranslationSection | translate.py:48-50 | the translation section is the header, a blank line and the trimmed text |
| SentenceAnalysis.FormatResponse | german_sentence_analysis.py:38-47 | one section per header of the reply, each opening with "###"; none exactly when the reply has no header |

## Left out

- I/O: the chat-completion and model calls, speech synthesis, audio files, the JSON database file, printing and the user interface are outside the model. `generate_sentences` is modelled from the parsed pairs onwards. The reply text it parses is a parameter of `Unfence`.
- `json.loads`: parsing the unfenced reply into pairs is not modelled. A pair without a "german" or "english" key raises in Python; the model takes well-formed pairs.
- `Markdown(...)`: the rich-text wrapper is the identity; a section is its Markdown string.
- Both `format_response` functions run the same loop. `MarkdownSections.FormatSections` models both.
- SentenceStore.SentenceDatabase.CreateAudio: each call in Python reloads and saves the database file. The model works on the in-memory map only, and synthesis failures are not modelled.
- SentenceStore.SentenceDatabase.CreateAllAudio: the pending keys are a list in dictionary order in Python and a set here. The order in which audio is created is not modelled.
- SentenceStore.PendingKeys: a flag that is present but neither true nor false (another JSON value) is not modelled. The flag is absent, true or false.
- Text.IsSpace: covers Python's ASCII whitespace only; Unicode whitespace beyond ASCII is not recognised by `strip`, `split` or `\s` in the model.
- Text.IsAlnum: approximates `str.isalnum` by the ASCII letters and digits, the Latin-1 letters À–ÿ other than × and ÷ (they hold the German umlauts and ß), and the capital ẞ. Python also counts ª, µ, º and the Latin-1 number signs ² ³ ¹ ¼ ½ ¾; the model does not, nor any other Unicode letter or digit.
- Text.LowerChar: lower-cases ASCII, Latin-1 and the capital sharp s only, one character to one character (Python's multi-character lower-case mappings are not modelled).
- The other files of the repository (the quiz loops, rule printing, vocabulary quiz, free-form pronoun quiz) are not part of this model.
