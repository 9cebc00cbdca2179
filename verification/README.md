# Flashcards: a Dafny model of the card collection, the quiz and the import/export merge

This project models the in-memory core of a console flashcard trainer. A card is a term, a
definition and a mistake counter. The collection is an insertion-ordered list of cards with
case-insensitive lookups. The commands built on it are:

- the guarded add (terms and definitions stay unique);
- remove;
- the quiz, which draws from a depletable pool and refills it only when it is empty;
- the hardest-card scan;
- the statistics reset;
- the export text;
- the import merge, which reconciles a file's rows with the collection by term.

Everything is a pure function over `seq<Card>`, except the hardest-card scan, which is a method
with the loop the Java code has. The modules follow the source:

| file | module | models |
|---|---|---|
| `wrappers.dfy` | `Wrappers` | `Option`, `Result` |
| `java_int.dfy` | `JavaInt` | Java `int`: wrap-around `+ 1`, `Integer.toString`, `Integer.parseInt` |
| `strings.dfy` | `Strings` | `equalsIgnoreCase` (ASCII fold), `split(":")`, line-by-line reading |
| `cards.dfy` | `Cards` | `Card.java` |
| `card_set.dfy` | `CardSet` | `CardSet.java` |
| `commands.dfy` | `Commands` | add, remove, hardest-card and reset commands |
| `quiz.dfy` | `Quiz` | the ask command |
| `quiz_cycles.dfy` | `QuizCycles` | the once-per-cycle guarantee of the ask command |
| `export.dfy` | `CardExport` | the text `exportCardsToFile` builds |
| `import.dfy` | `CardImport` | the per-line merge loop of `importCardsFromFile` |

Modelling choices:

- Java object references become positions. A lookup returns the index of the first match, or
  `None` where Java returns `null`.
- The random draw `rand.nextInt(size())` becomes a caller-supplied number `pick`, and the model
  draws index `pick % |pool|`.
- The user's answers are a sequence of `Turn`s. Running out of them is the error
  `InputExhausted`, because `Scanner.nextLine` throws. A draw from an empty collection is
  `EmptyCollection`, because `nextInt(0)` throws. Neither exception is caught: `askCommand`,
  `processInput` (FlashcardIOHandler.java:31-60) and `Main.main` (Main.java:23-55) have no
  handler, so the program ends there. These failure values only name the cause. The model does
  not continue past them.
- `mistakes` is a 32-bit `int32`, so the quiz's `getMistakes() + 1` wraps at 2^31 − 1.
- The question count follows `while (numQuestions-- != 0)` on a 32-bit int. A negative count
  therefore asks n + 2^32 questions.

In these places the model follows the code, not the behaviour one would expect of a flashcard
trainer:

- A mistake counter may be any `int`, negative included.
- A negative question count does not stop the loop.
- An imported row with fewer than three fields is not given a default count of 0. On the paths
  that append a card, reading the missing field throws `ArrayIndexOutOfBoundsException`. A
  count that is not an int throws `NumberFormatException`. The import catches only
  `FileNotFoundException` and `IOException` (FlashcardIOHandler.java:327-333), and nothing
  above it catches the rest. So such a row ends the program, and the final export requested on
  the command line is not written either. The model returns `Aborted(deck)`. It records only
  the in-memory collection at the moment of the exception, which the program then loses. In the
  replace case the old card has already been removed by then
  (`CardImport.MalformedReplaceDropsCard`).
- Importing the same well-formed file twice need not leave the collection as one import did.
  The rows `a:x`, `a:y`, `c:x` give {a:y, c:x}, and importing them again gives {c:x, a:y}
  (`CardImport.ImportTwiceReorders`).

The quiz's cycle property is proved on `Quiz.Draws`. `Draws` is the question loop seen through
terms alone. `Quiz.Run` states as part of its contract that its asked terms and its final pool
agree with `Draws`.

## Model

| member | source | states |
|---|---|---|
| Cards.SetMistakes | flashcards/Card.java:46-53 | after `setMistakes(m)` the counter reads `m`; term and definition are unchanged |
| JavaInt.Inc | flashcards/FlashcardIOHandler.java:166 | `x + 1` on a Java int is congruent to x + 1 mod 2^32 and grows strictly below `MAX` |
| JavaInt.ToString | flashcards/FlashcardIOHandler.java:263 | `Integer.toString`: non-empty, starting with `-` exactly for negative values, decimal digits otherwise, with at least one digit and no leading `0` unless the value is 0; the digits denote the value's magnitude |
| JavaInt.Parse | flashcards/FlashcardIOHandler.java:324 | `Integer.parseInt`: a value only for an optional `+` or `-` followed by at least one digit, negative only after `-`; digits alone, or after `+`, whose value fits in an int give that value, and after `-` its negation down to `MIN`; any value returned is the signed value of the digits, so a number outside the int range gives `None`, as `parseInt` throws |
| JavaInt.ParseToString | flashcards/FlashcardIOHandler.java:324 | `Integer.parseInt` reads back every int that `Integer.toString` wrote; the text is non-empty and has no `:` or line break |
| Strings.SameTextIsEquivalence | flashcards/CardSet.java:89-94 | case-insensitive equality relates strings of equal length and is reflexive, symmetric and transitive |
| Strings.SplitAll | flashcards/FlashcardIOHandler.java:302 | the pieces between separators are separator-free, there is at least one, and joining them with the separator gives back the line |
| Strings.JavaSplit | flashcards/FlashcardIOHandler.java:302 | `split(":")`: the pieces are colon-free; a line without `:` is returned whole; otherwise the last piece is non-empty; the joined pieces are a prefix of the line, and only colons follow them |
| Strings.SplitThree | flashcards/FlashcardIOHandler.java:302 | `split(":")` of three colon-free fields, the last non-empty, returns exactly those three fields |
| Strings.Lines | flashcards/FlashcardIOHandler.java:296-301 | the lines `readLine` returns hold no break; there are none exactly for empty text; joined with breaks they give the text, less at most one final break |
| Strings.LinesOfText | flashcards/FlashcardIOHandler.java:296-301 | reading newline-terminated text line by line returns the lines that were written, when none contains a break |
| CardSet.FirstMatch | flashcards/CardSet.java:89-94 | the result is the first key equal ignoring case, and it is `None` exactly when no key matches |
| CardSet.FindTerm | flashcards/CardSet.java:89-94 | `getCardByTerm`: the first card whose term matches ignoring case; `None` iff no card matches |
| CardSet.FindDefinition | flashcards/CardSet.java:102-107 | `getCardByDefinition`: the first card whose definition matches ignoring case; `None` iff none does |
| CardSet.AddCard | flashcards/CardSet.java:43-45 | exactly one card with the given triple is appended; earlier cards and order are unchanged; a duplicate term stays hidden behind the older card |
| CardSet.AddCards | flashcards/CardSet.java:53-57 | the result is the collection followed by all of `cs`'s cards in order, so the size grows by `cs.size()` |
| CardSet.Copy | flashcards/CardSet.java:25-33 | the copy has the same triples in the same order |
| CardSet.RemoveCard | flashcards/CardSet.java:65-71 | with no match nothing changes; otherwise the first matching card goes, the size drops by one, and the cards before and after keep their order; the terms lose exactly the first matching key |
| CardSet.RemoveKeyAtFirstMatch | flashcards/CardSet.java:65-71 | removal by key deletes exactly the position the first-match lookup finds, and nothing when there is none |
| CardSet.RandomIndex | flashcards/CardSet.java:115-117 | a draw exists iff the collection is non-empty, and it is a valid position |
| CardSet.RandomIndexReachesAll | flashcards/CardSet.java:115-117 | every position of a non-empty collection can be drawn |
| CardSet.RemoveShrinksTerms | flashcards/CardSet.java:65-71 | removal takes away exactly one occurrence of the matched term, counted with multiplicity |
| CardSet.RemovePreservesUnique | flashcards/CardSet.java:65-71 | removal keeps terms unique and keeps definitions unique |
| CardSet.RemoveDeletesTerm | flashcards/CardSet.java:65-71 | in a term-unique collection, no card matches the removed term afterwards |
| Commands.AddCommand | flashcards/FlashcardIOHandler.java:67-87 | a present term is rejected first, then a present definition; otherwise `(term, definition, 0)` is appended; a valid collection stays valid |
| Commands.RemoveCommand | flashcards/FlashcardIOHandler.java:93-105 | an absent term gives `NotFound`; otherwise the result is the collection's `removeCard(term)`, one card shorter, and a valid collection stays valid without the term |
| Commands.AddThenRemove | flashcards/FlashcardIOHandler.java:67-105 | removing the term a successful add inserted gives back exactly the collection before the add |
| Commands.ResetStats | flashcards/FlashcardIOHandler.java:236-241 | every counter becomes 0; terms, definitions, order and size are unchanged |
| Commands.ResetPreservesValid | flashcards/FlashcardIOHandler.java:236-241 | a reset keeps the collection valid, and resetting twice equals resetting once |
| Commands.ResetClearsHardest | flashcards/FlashcardIOHandler.java:236-241 | after a reset the largest positive mistake count is 0, so the scan finds nothing |
| Commands.MaxMistakes | flashcards/FlashcardIOHandler.java:204-216 | reference value: non-negative, at least every card's count, and reached by some card unless it is 0 |
| Commands.WithMistakesMembers | flashcards/FlashcardIOHandler.java:204-216 | the reference tie list holds only cards of the collection with exactly `m` mistakes, and every such card |
| Commands.ScanStep | flashcards/FlashcardIOHandler.java:208-215 | each branch of the loop body keeps the running maximum and tie list equal to the reference over the cards seen |
| Commands.HardestCards | flashcards/FlashcardIOHandler.java:204-216 | the scan reports max(0, largest count) and, when that is positive, exactly the cards with it in collection order; the list is empty iff no card has a positive count |
| Quiz.QuestionCount | flashcards/FlashcardIOHandler.java:153 | `while (n-- != 0)` on a 32-bit n runs n times for n ≥ 0 and n + 2^32 times for n < 0 |
| Quiz.Refill | flashcards/FlashcardIOHandler.java:154 | an empty pool is refilled with the whole collection; a non-empty pool is left alone; the pool invariant `PoolInDeck` survives the refill |
| Quiz.Charge | flashcards/FlashcardIOHandler.java:166-169 | exactly the first collection card with the term gets one more mistake (32-bit); all other cards, terms and definitions are unchanged |
| Quiz.Score | flashcards/FlashcardIOHandler.java:161-170 | correct iff the answer equals the definition ignoring case, and then nothing changes; any wrong answer is charged; "wrong but another card's definition" iff a definition lookup succeeds, naming that card's term |
| Quiz.PoolTermInDeck | flashcards/FlashcardIOHandler.java:163-169 | the collection lookup for a drawn card never comes back empty |
| Quiz.PoolNonEmptyDeck | flashcards/FlashcardIOHandler.java:154-156 | a non-empty pool implies a non-empty collection |
| Quiz.Ask | flashcards/FlashcardIOHandler.java:156-172 | one question asks the term at the drawn position and shows the drawn card's definition, a pair some collection card has; the collection's card for it exists, and the verdict and the collection's new mistake counts are those `Score` gives for the drawn card, which is `Judged` and `ChargeStep`; the term's first occurrence leaves the pool; the pool's terms stay within the collection's; collection terms and definitions are kept |
| Quiz.Run | flashcards/FlashcardIOHandler.java:153-173 | k passes succeed iff k = 0 or the collection is non-empty and k answers are supplied; on success k questions are asked; the asked terms and the final pool are those `Draws` gives; each question's term and shown definition are those of a collection card (`PairInDeck`); each answer gets the verdict `Judged` requires, and the final collection is `ChargeAll` of the verdicts |
| Quiz.Draws | flashcards/FlashcardIOHandler.java:153-172 | the question loop on terms alone asks at most one term per pass, and exactly one per pass when the collection is non-empty |
| Quiz.StartPoolInDeck | flashcards/FlashcardIOHandler.java:146 | the starting pool is a copy of the collection, so its terms are the collection's |
| Quiz.AskCommand | flashcards/FlashcardIOHandler.java:145-174 | the command succeeds iff there is nothing to ask or the collection is non-empty and enough answers are supplied; it keeps terms and definitions; its asked terms follow `Draws` from a full pool; each question shows the definition of a collection card with its term (`PairInDeck`); the i-th answer is judged correct iff it matches that definition ignoring case, and otherwise names the owner of the definition it matches; the final collection has every wrong answer charged to its term, in order (`ChargeAll`) |
| Quiz.ChargeAllCorrect | flashcards/FlashcardIOHandler.java:161-170 | a quiz answered correctly throughout leaves every mistake counter unchanged |
| QuizCycles.RemoveDistinctKey | flashcards/CardSet.java:65-71 | among distinct keys, removing the key at position i removes exactly that position |
| QuizCycles.Drain | flashcards/FlashcardIOHandler.java:154-172 | without a refill, the terms asked plus the terms left in a distinct pool are exactly the pool's terms, and the pool loses one term per question |
| QuizCycles.DrawsSplit | flashcards/FlashcardIOHandler.java:153-173 | a + b passes are a passes followed by b passes from where they stopped |
| QuizCycles.FullCycle | flashcards/FlashcardIOHandler.java:137-143 | from a full or empty pool, \|collection\| questions over distinct terms ask every term exactly once and empty the pool |
| QuizCycles.Cycles | flashcards/FlashcardIOHandler.java:137-143 | q full cycles ask every term q times, counted with multiplicity |
| QuizCycles.UniqueTermOccursOnce | flashcards/FlashcardIOHandler.java:137-143 | in a term-unique collection every term occurs once |
| QuizCycles.AskCommandCycles | flashcards/FlashcardIOHandler.java:145-174 | on a term-unique collection, asking q × size questions asks each term exactly q times, and after at least one cycle the pool is empty |
| CardExport.Export | flashcards/FlashcardIOHandler.java:257-265 | the count is the collection size; for any collection without line breaks in its fields (colons included), the text read back line by line is the header and then one row per card in collection order |
| CardExport.RowFields | flashcards/FlashcardIOHandler.java:302 | splitting a row of plain fields on `:` returns the term, the definition and a count that `parseInt` reads back as the card's count |
| CardImport.AppendRow | flashcards/FlashcardIOHandler.java:324-325 | the append fails exactly when the third field is missing or does not parse; otherwise the row is appended and counted |
| CardImport.MergeFields | flashcards/FlashcardIOHandler.java:302-325 | a line with fewer than two fields fails untouched; a failure leaves the collection as it was or with the term's card removed; a skip changes nothing; terms stay unique |
| CardImport.MergeRow | flashcards/FlashcardIOHandler.java:304-325 | a row is counted unless only its definition is present; same term and definition change nothing; same term with another definition replaces the card at the end, keeping the size; otherwise the row is appended; terms stay unique |
| CardImport.Merge | flashcards/FlashcardIOHandler.java:301-326 | merging well-formed rows never fails, counts at most one per row, and keeps terms unique |
| CardImport.ImportRows | flashcards/FlashcardIOHandler.java:301-326 | the line loop counts at most one per line and keeps terms unique, also when it aborts |
| CardImport.ImportText | flashcards/FlashcardIOHandler.java:292-336 | the first line is skipped: a text of at most one line imports nothing, and the count is at most the number of lines after the first; terms stay unique |
| CardImport.ImportExported | flashcards/FlashcardIOHandler.java:301-326 | importing exported rows of plain cards is the merge of those cards |
| CardImport.ImportOfExport | flashcards/FlashcardIOHandler.java:257-326 | importing the export text of plain cards merges exactly those cards in order |
| CardImport.MergeFresh | flashcards/FlashcardIOHandler.java:320-325 | rows whose terms and definitions are new and unique are all appended and all counted |
| CardImport.MergeKnown | flashcards/FlashcardIOHandler.java:312-315 | rows that are cards of a term-unique collection change nothing and are all counted |
| CardImport.FindOwnTerm | flashcards/CardSet.java:89-94 | in a term-unique collection, looking up a card's term finds that card |
| CardImport.ExportImportRoundTrip | flashcards/FlashcardIOHandler.java:257-326 | exporting a valid collection of plain cards and importing the text into an empty collection rebuilds it and counts every card |
| CardImport.ReimportChangesNothing | flashcards/FlashcardIOHandler.java:312-315 | importing a term-unique collection's own export back into it changes nothing and counts every card |
| CardImport.SharedDefinitionLosesCard | flashcards/FlashcardIOHandler.java:257-326 | exporting `b:y:0`, `a:y:5`, two cards sharing a definition, and importing the text into an empty collection gives only `b:y:0` with a count of 1, since the row `a:y:5` is skipped at lines 320-321 |
| CardImport.ReplaceCanDuplicateDefinition | flashcards/FlashcardIOHandler.java:306-308 | the replace case can break definition uniqueness: `a:y` into {a:x, b:y} leaves two cards defined as `y` |
| CardImport.ImportTwiceReorders | flashcards/FlashcardIOHandler.java:301-326 | importing the same well-formed rows twice can reorder the collection: `a:x`, `a:y`, `c:x` give {a:y, c:x} once and {c:x, a:y} twice |
| CardImport.MalformedReplaceDropsCard | flashcards/FlashcardIOHandler.java:306-324 | a replace row without a count removes the old card before the missing field throws |

## Left out

- `Main.java`: argument handling and the menu loop are not part of this model.
- Console output, prompts, menu text and the log command. Only the verdict of each quiz answer is kept.
- File I/O: existence checks, `PrintWriter`, `BufferedReader` and their exception branches. The export is modelled as the text it builds and the import as the text it reads.
- `java.util.Random` is replaced by the caller-supplied `pick` of each turn. No probabilistic claim is made.
- `Integer.parseInt` of the question count: the ask command takes the count as an `int32`.
- Case folding covers ASCII letters only. Java's `equalsIgnoreCase` also folds other Unicode letters.
- `Card.toString` is debugging output.
- `CardSet.size()` is the sequence length `|deck|` and has no member of its own.
- JavaInt.Parse: only ASCII digits are read. `Integer.parseInt` also accepts other Unicode decimal digits, so a row whose count is written in, say, Arabic-Indic digits is appended by the program and aborts the model's import.
- Trimming of input lines (`getInput`, FlashcardIOHandler.java line 382) is not modelled. Answers, terms and definitions are taken as already trimmed.
- `Lines` treats only `\n` as a line break. `readLine` also accepts `\r` and `\r\n`.
- CardImport.Merge: the import count is an unbounded `nat`. It is at most the number of rows, so a 32-bit counter would only wrap past 2^31 − 1 rows.
- CardImport.MergeRow: definition uniqueness is not claimed after a merge, because the replace case can break it (`CardImport.ReplaceCanDuplicateDefinition`).
- CardImport.ExportImportRoundTrip: the round trip is proved only for valid collections whose terms and definitions hold no `:` or line break. Other text does not split back into the same fields. A collection where two cards share a definition, which the import's replace case can produce (`CardImport.ReplaceCanDuplicateDefinition`), loses the later of the two, because the import skips a row whose definition is already present (`CardImport.SharedDefinitionLosesCard`).
- QuizCycles.AskCommandCycles: the cycle guarantee assumes unique terms. With duplicate terms, removal by term can take a different card than the one drawn.
