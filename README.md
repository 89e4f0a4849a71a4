# russian_anki in Dafny

A Dafny model of the core of russian_anki. The program reads Russian text
from files, keeps the words the user does not know yet, translates them into
German through an LLM provider (OpenRouter), caches the translations in
SQLite, and writes them as an Anki deck. A separate script removes duplicate
notes from an exported deck. The model covers these parts:

- **Text** (`text.dfy`): the Python string operations the program relies
  on, each with its meaning proved. These are `str.lower`, `str.strip`,
  `str.split()`, `' '.join`, `str.find`/`rfind`, `str.split(sep)` and
  `os.path.splitext`.
- **Retry** (`retry.dfy`): the `retry_with_backoff` decorator, as a loop
  that calls an operation oracle and records its sleeps.
- **ResponseParser** (`response_parser.dfy`): `_parse_response`. It cuts at
  the first `{`, removes code fences, decodes directly, then decodes the
  brace span, then falls back to a raw-text result.
- **Cache** (`translation_cache.dfy`): `TranslationCache`. It is one SQLite
  table whose primary key is the lower-cased word.
- **Translator** (`translator.dfy`): `RussianTranslator`. This covers the
  word check and the cleaning, the cache loop and the provider loop of
  `translate_word`, and `batch_translate`. The OpenRouter provider is
  `translate` wrapped in the retry decorator.
- **Storage** (`storage.dfy`): `VocabEntry.validate`, `get_storage`, and the
  SQLite and CSV vocabulary backends (`get_words`, `add_words`,
  `add_entries`).
- **TextExtraction** (`text_extraction.dfy`): `clean_and_split_text`, and
  the new-word filtering of `extract_text_from_input` for one file and for a
  directory.
- **RemoveDuplicates** (`remove_duplicates.dfy`): `find_russian_field_index`
  and the duplicate-finding loop. Also the choice between leaving the deck
  unchanged and writing a backup plus a de-duplicated package.
- **AnkiGenerator** (`anki_generator.dfy`): the deck and model ids, the six
  note fields per translation, `add_notes_to_deck` and `create_anki_deck`.

Objects whose methods update state are classes:

- `TranslationCache` has a `rows` map.
- `SqliteStorage` has a `table` map.
- `CsvStorage` has a `rows` sequence.
- `RussianTranslator` modifies its cache.
- `Deck` has its notes.

Each method is proved against a specification function, and the properties
are proved about that function. Pure code is modelled as functions and
lemmas.

Effects the model cannot perform are parameters:

- the replies to HTTP requests (`http(word, k)` for the k-th request for a
  word)
- `json.loads` (`loads`)
- `time.time()` (`now`)
- `random.randint` (`deckDraw`, `modelDraw`)
- pymorphy2's word check (`isValid`)
- `str()` of non-string JSON values (`show`)
- the text each extractor returned

Three behaviours of `_parse_response` differ from what its own comments
suggest; the model follows the code:

- **The cut at the first `{`.** The comment at `src/translator.py:329` says
  the final fallback returns the raw text. But line 291 first applies
  `content[content.find('{'):]`, and without a `{` the index is -1, so only
  the last character survives. A prose reply such as "Conclusion: привет
  means hello" therefore falls back with the translation "o"
  (`ResponseParser.ConclusionExample`).
- **Non-dict values raise.** Only `json.JSONDecodeError` is caught
  (lines 313 and 326). A reply without `{` whose last character is a digit
  decodes to a number, and assigning `"original"` into it (line 305) raises
  TypeError. That error escapes the parser and is retried like any other
  failure (`ResponseParser.TrailingDigitRaises`).
- **Only direct parses are normalized.** The `grammatical_case` key is
  renamed only on the direct parse (lines 308-309), not on the brace-span
  parse (lines 316-325) (`ResponseParser.SpanParseKeepsKeys`). The deck
  reads only `"grammatical case"`
  (`AnkiGenerator.GrammarReadsOnlySpacedKey`).

## Model

| member | source | states |
|---|---|---|
| Text.LowerChar | src/translator.py:393 | lower() on one code point yields no upper-case letter, keeps whitespace whitespace, and leaves every non-capital unchanged |
| Text.Lower | src/translator.py:393 | lower() keeps the length and lower-cases each code point in place |
| Text.LowerIdempotent | src/translator.py:393 | a lower-cased string is lower case, and lower-casing it again changes nothing |
| Text.LowerOfLower | src/translator.py:128-131 | a string that is already lower case is its own lower() (the cache lowers an already-cleaned word again) |
| Text.LStrip | src/translator.py:393 | lstrip() leaves a suffix that does not start with whitespace, and everything cut was whitespace |
| Text.RStrip | src/translator.py:393 | rstrip() leaves a prefix that does not end with whitespace, and everything cut was whitespace |
| Text.StripSpec | src/translator.py:393 | strip() leaves the contiguous middle of the string with no whitespace at either end, and everything removed is whitespace |
| Text.StripTrimmed | src/translator.py:393 | strip() leaves a string without whitespace at its ends unchanged |
| Text.SplitSound | src/text_extraction.py:66-70 | every word split() returns is a maximal run of non-whitespace of the string |
| Text.SplitComplete | src/text_extraction.py:66-70 | every maximal run of non-whitespace is among the words split() returns |
| Text.SplitWords | src/text_extraction.py:66-70 | the words of split() are exactly the maximal runs of non-whitespace |
| Text.SplitWellFormed | src/text_extraction.py:66-70 | every word of split() is non-empty and free of whitespace |
| Text.SplitJoinSpace | src/text_extraction.py:66 | splitting ' '.join(words) gives the words back when each is non-empty and free of whitespace |
| Text.Find | src/translator.py:291 | find() returns the first index of the character, or -1 exactly when it does not occur |
| Text.RFind | src/translator.py:318 | rfind() returns the last index of the character, or -1 exactly when it does not occur |
| Text.SplitOn | remove_duplicates.py:126 | split(sep) always yields at least one piece |
| Text.SplitOnJoin | remove_duplicates.py:126 | the pieces of split(sep) contain no separator and join back to the original string |
| Text.SplitExt | remove_duplicates.py:158 | splitext() cuts the path into a root and an extension whose concatenation is the path |
| Text.SplitExtSpec | src/text_extraction.py:208 | the extension is empty, or a '.' followed by no other '.' or '/' and preceded in its component by something other than dots |
| Text.SplitExtOfName | remove_duplicates.py:158 | a name stem.ext with a stem that is not all dots splits into stem and .ext |
| Text.SplitExtWithoutDot | src/text_extraction.py:208-209 | a last path component without a '.' has no extension (so such a file is never read from a directory) |
| Retry.RetryWithBackoff | src/translator.py:45-78 | the wrapper's outcome and call count are those of Retried, and its sleeps are the backoffs between failed calls, one fewer than the calls |
| Retry.FirstSuccessWins | src/translator.py:61-63 | when call k is the first that returns, the wrapper returns its value after exactly k + 1 calls |
| Retry.AllFailReraises | src/translator.py:64-68 | when every allowed call raises, the wrapper re-raises the last exception after exactly max_retries calls |
| Retry.RetriedShape | src/translator.py:58-76 | for any operation: at most max_retries calls; a returned value is the last call's with every earlier call raising; a re-raise uses all calls; None exactly when no call is allowed |
| Retry.BackoffsArePowers | src/translator.py:59-73 | the i-th sleep lasts initial_backoff * backoff_factor^i |
| Retry.BackoffsStep | src/translator.py:72-73 | each sleep is the previous one times the factor |
| Retry.BackoffsGrow | src/translator.py:59-73 | with a non-negative first backoff and a factor of at least 1, no sleep is shorter than the one before |
| Retry.TwoFailuresThenSuccess | src/translator.py:223 | under translate's settings (3 tries, 2 s), two failures then a success make three calls with sleeps of 2 s and 4 s |
| ResponseParser.CutAtBrace | src/translator.py:291 | the cut text starts at the first '{' when there is one; otherwise it is only the last character (empty for empty input) |
| ResponseParser.NormalizeKeys | src/translator.py:308-309 | "grammatical_case" is renamed to "grammatical case" with its value when only the former is present; otherwise the dict is unchanged; other keys are kept |
| ResponseParser.ParseText | src/translator.py:302-339 | every result the decoding stage returns has "original" set to the word |
| ResponseParser.ParseResponse | src/translator.py:279-339 | every parsed result has "original" set to the word asked |
| ResponseParser.CutNeverOpensFence | src/translator.py:291-299 | after the cut the text never starts with a fence, so only a closing fence is ever removed |
| ResponseParser.FencedBraceStaysBrace | src/translator.py:291-299 | a reply containing '{' still starts with '{' once fences are removed |
| ResponseParser.NeverRaisesWithBrace | src/translator.py:291-325 | with a decoder that yields only objects from text starting with '{', a reply containing '{' always parses without TypeError |
| ResponseParser.NoBraceKeepsLastCharacter | src/translator.py:291-339 | a reply without '{' whose last character is not JSON falls back with that one character as its translation |
| ResponseParser.ConclusionExample | src/translator.py:291-339 | "Conclusion: привет means hello" gives the fallback with translation "o" |
| ResponseParser.NoBraceNonObjectRaises | src/translator.py:291-305 | a reply without '{' whose last character decodes to a non-dict raises TypeError |
| ResponseParser.TrailingDigitRaises | src/translator.py:291-305 | "The answer is 7" raises TypeError |
| ResponseParser.DirectParseNormalizes | src/translator.py:302-312 | a directly decoded dict with only "grammatical_case" comes back with that value under "grammatical case" |
| ResponseParser.SpanParseKeepsKeys | src/translator.py:316-325 | a brace-span parse returns the decoded dict with "original" set and keys not renamed |
| ResponseParser.NothingDecodesFallsBack | src/translator.py:327-339 | when nothing decodes, the result's translation is the text, "original" is the word, and every other field is empty |
| Cache.Lookup | src/translator.py:114-142 | get finds a result exactly when the database is readable and the lower-cased word's row belongs to that provider, and then returns that row's result |
| Cache.Stored | src/translator.py:144-169 | set replaces the row of the lower-cased word with (provider, result, now), leaves other rows, and changes nothing on a database error |
| Cache.TranslationCache.constructor | src/translator.py:84-112 | a new cache starts with an empty table |
| Cache.TranslationCache.Get | src/translator.py:114-142 | get returns Lookup of the current table |
| Cache.TranslationCache.Set | src/translator.py:144-169 | set makes the table Stored(old table, …) |
| Cache.SetThenGet | src/translator.py:114-169 | reading back a stored word for the same provider returns the stored result |
| Cache.CaseVariantsShareRow | src/translator.py:128-131 | a word and its lower-cased form look up the same row |
| Cache.SetForOtherProviderEvicts | src/translator.py:156-162 | because the key is the word alone, storing for one provider evicts another provider's result for that word |
| Cache.SetLeavesOtherWords | src/translator.py:158-161 | storing one word leaves every lookup of a different lower-cased word unchanged |
| Translator.IsRussianWord | src/translator.py:367-380 | true exactly when some character is in А-Я/а-я (U+0410..U+044F) |
| Translator.IoIsNotRussian | src/translator.py:377 | ё and Ё alone do not count as Russian, but Ёж does |
| Translator.CleanWord | src/translator.py:382-396 | the cleaned word is lower case, has no whitespace at its ends, and is no longer than the input |
| Translator.CleanWordIdempotent | src/translator.py:393 | cleaning a cleaned word changes nothing |
| Translator.OpenRouterCall | src/translator.py:250-277 | a call returns exactly when the reply is 200 and parses; a failed request raises RequestError; another status raises an API error with that status; results carry "original" |
| Translator.OpenRouterFaithful | src/translator.py:266-339 | whatever the replies and the decoder, every result of the OpenRouter provider is for the word asked |
| Translator.Answers | src/translator.py:223-226 | each provider's answer is its decorated translate: the retry outcome over its numbered calls |
| Translator.FirstAnswer | src/translator.py:424-433 | the provider loop stops at the first returned, truthy result; no earlier answer qualifies, and with no winner none does |
| Translator.ProviderRunFirst | src/translator.py:424-437 | the winner is the first provider whose decorated translate produces a truthy result, with that result; with no winner no provider produces one |
| Translator.FirstCached | src/translator.py:416-421 | the cache loop returns the first provider under whose name a truthy result is cached, and every earlier provider misses or finds an empty result |
| Translator.TranslateRun | src/translator.py:398-437 | an empty or non-Russian word gives None with no effect; without the cache no read and no change; at most one read per provider |
| Translator.RussianTranslator.constructor | src/translator.py:345-365 | the translator has the single provider "openrouter" |
| Translator.RussianTranslator.ReadCache | src/translator.py:416-421 | returns FirstCached and the number of reads it made |
| Translator.RussianTranslator.AskProviders | src/translator.py:424-437 | returns the provider loop's winner and request count, as ProviderRun |
| Translator.RussianTranslator.TranslateWord | src/translator.py:398-437 | the result, new table, reads and requests are those of TranslateRun on the old table |
| Translator.RussianTranslator.BatchTranslate | src/translator.py:439-475 | empty input gives [] and no change; each distinct word is translated once, in list(set(words)) order; every call is one translate_word step on the table left by the previous; results keep the truthy outcomes |
| Translator.RussianTranslator.TranslateEach | src/translator.py:462-472 | the loop chains translate_word over the words and keeps the truthy results |
| Translator.AskProvider | src/translator.py:223-226 | one decorated translate gives the retry outcome and call count |
| Translator.ListOfSet | src/translator.py:455 | list(set(...)) holds each element of the set exactly once |
| Translator.Somes | src/translator.py:469-470 | keeping the truthy outcomes never gives more results than calls |
| Translator.SomesMembers | src/translator.py:469-470 | a value is kept exactly when some call produced it |
| Translator.RunOriginal | src/translator.py:398-437 | with a valid cache and faithful providers, a result of translate_word is non-empty and its "original" is the cleaned word |
| Translator.RunKeepsCacheValid | src/translator.py:428-430 | translate_word only stores a result under the word it is for, so a valid cache stays valid |
| Translator.CacheHitMakesNoRequest | src/translator.py:416-421 | a cache hit returns the cached result with no HTTP request and no change to the table |
| Translator.MissAsksProvidersInOrder | src/translator.py:424-437 | on a miss the first producing provider wins and its result is stored under the cleaned word and its name; with no producer the result is None and nothing is stored |
| Translator.SecondCallIsCached | src/translator.py:412-430 | once a word was translated into a healthy cache, any word that cleans to it gets the same result from the cache with no request |
| Translator.FirstCachedFinds | src/translator.py:416-421 | a row stored by a listed provider is found by the cache loop |
| Translator.RunnerKeepsCacheValid | src/translator.py:398-437 | translate_word keeps every valid table valid, for any word |
| Translator.BatchKeepsCacheValid | src/translator.py:462-472 | through a batch of such calls the table stays valid after every call |
| Translator.BatchOriginals | src/translator.py:462-472 | every result of a batch is non-empty and its "original" is the cleaned form of the word it came from |
| Translator.BatchDeduplicates | src/translator.py:451-470 | a batch order holding each distinct word once has exactly as many entries as there are distinct words, each word at one position, and the kept results number at most the distinct words |
| Translator.DistinctCard | src/translator.py:455 | a list without repeats, such as list(set(words)), has as many entries as distinct elements |
| Storage.ValidEntries | src/storage.py:238 | keeps exactly the entries whose word is non-empty, never more than given |
| Storage.GetStorage | src/storage.py:410-428 | 'sqlite' and 'csv' select their backend; anything else fails with "Invalid storage type: " and the type |
| Storage.SqlLower | src/storage.py:160 | SQLite's lower() folds only A-Z, keeping the length |
| Storage.LastFor | src/storage.py:246-258 | finds an entry for the key when one exists, and it has that key |
| Storage.SqliteStorage.constructor | src/storage.py:101-117 | a new store has an empty vocab table |
| Storage.SqliteStorage.GetWords | src/storage.py:150-168 | get_words returns SQLite's lower() of every stored word |
| Storage.SqliteStorage.AddWords | src/storage.py:170-221 | add_words inserts a blank row for each lower-cased word not yet returned by get_words, returns how many, and keeps every key lower case |
| Storage.SqliteStorage.InsertBlank | src/storage.py:199-215 | the insert loop adds one blank row per new word and counts every insert |
| Storage.SqliteStorage.AddEntries | src/storage.py:223-267 | add_entries upserts every valid entry in order under its lower-cased word and returns the number of valid entries |
| Storage.AddWordsKeepsValid | src/storage.py:192-205 | the words add_words inserts are lower case |
| Storage.SqlLowerOfLower | src/storage.py:188-193 | SQLite's lower() leaves a Python-lower-cased word unchanged |
| Storage.NewWordAbsent | src/storage.py:201-209 | a word add_words inserts is never already a key, so the IntegrityError branch cannot run |
| Storage.AddWordsTwice | src/storage.py:170-221 | after add_words every lower-cased input word is in get_words, and a second add_words of the same words inserts nothing |
| Storage.UpsertedLastWins | src/storage.py:246-258 | after add_entries each key holds the last valid entry for it, and untouched keys keep their rows |
| Storage.UpsertRepeated | src/storage.py:250-253 | upserting the same entry twice equals upserting it once |
| Storage.WordsOfMembers | src/storage.py:303-305 | a word is read back exactly when some row has it (non-empty) as its lower-cased word |
| Storage.KeyIndex | src/storage.py:379-391 | finds the first position of a key in an insertion-ordered dict, or -1 when absent |
| Storage.Lookup | src/storage.py:379-391 | dict lookup finds a row with that key, or none when no row has it |
| Storage.Put | src/storage.py:379-391 | dict assignment replaces an existing key in place, or appends a new key last |
| Storage.PutLookup | src/storage.py:379-391 | after an assignment the key maps to the new row and every other key to what it held |
| Storage.PutAllSpec | src/storage.py:379-391 | after a series of assignments each key holds the last row for it, or what it held before, and keys stay distinct |
| Storage.Kept | src/storage.py:380 | the rows read back are exactly those with a non-empty word |
| Storage.EntryRows | src/storage.py:387-391 | each valid entry becomes the row (word.lower(), translation, context) |
| Storage.CsvStorage.constructor | src/storage.py:273-289 | a new file holds no data rows |
| Storage.CsvStorage.GetWords | src/storage.py:292-311 | get_words returns the lower-cased non-empty words of the rows |
| Storage.CsvStorage.AddWords | src/storage.py:317-352 | add_words appends one blank row per lower-cased word not yet read back, each once, returns how many, and get_words then gains them (except the empty word) |
| Storage.CsvStorage.AppendBlank | src/storage.py:341-347 | the write loop appends one blank row per word, each once, keeping the earlier rows |
| Storage.CsvStorage.AddEntries | src/storage.py:354-406 | add_entries rewrites the file as the dict of rows read back updated with every valid entry, and returns the number of valid entries |
| Storage.ReadBack | src/storage.py:376-381 | reading back puts each row with a non-empty word into the dict in file order |
| Storage.PutEntries | src/storage.py:386-391 | the update loop puts every valid entry's row into the dict in order |
| Storage.CsvEntriesLastWins | src/storage.py:374-398 | after add_entries keys are distinct and each holds the last valid entry for it, else the last row read back for it |
| Storage.CsvCountsRepeats | src/storage.py:386-401 | an entry given twice counts twice but yields one row |
| Storage.CsvEmptyWordReadded | src/storage.py:304-334 | the empty word is never read back, so add_words appends it again every time |
| TextExtraction.Clean | src/text_extraction.py:63 | the substitution keeps the length, keeps every kept character, and makes a position whitespace exactly when its character is not kept |
| TextExtraction.CleanAndSplitText | src/text_extraction.py:57-75 | no text or empty text gives no words; otherwise the result is Words of the text |
| TextExtraction.FilteredPartsAreWords | src/text_extraction.py:66-72 | the loop's filter drops no piece, so it collects exactly the words of the text |
| TextExtraction.PartsAreKept | src/text_extraction.py:66-71 | re-joining with spaces does not change the split, and every piece passes the length and pattern filter |
| TextExtraction.RunsOfClean | src/text_extraction.py:63 | the non-whitespace runs of the cleaned text are the runs of kept characters, with the same content |
| TextExtraction.WordsAreKeptRuns | src/text_extraction.py:57-75 | the words are exactly the lower-cased maximal runs of kept characters |
| TextExtraction.WordsAlphabet | src/text_extraction.py:63-72 | every word is non-empty, has no whitespace, and uses only а-я, ё and the two stress marks |
| TextExtraction.StressMarkAlone | src/text_extraction.py:63-72 | a lone stress mark is kept as a word |
| TextExtraction.NewWordsOfText | src/text_extraction.py:230-231 | a new word is a word of the text that is valid and not in the vocabulary |
| TextExtraction.ExtractTextFromInput | src/text_extraction.py:185-239 | the result is Extracted: empty without a vocabulary or for a missing path, else the new words of the file or directory |
| TextExtraction.WalkDirectory | src/text_extraction.py:203-225 | the walk unites the new words of every supported file in order |
| TextExtraction.DirectoryUnion | src/text_extraction.py:203-225 | a word is in the directory result exactly when some file contributes it |
| TextExtraction.ExtractedSound | src/text_extraction.py:193-239 | every extracted word is valid, not in the vocabulary, and a word of the single file or of a supported file in the directory |
| RemoveDuplicates.FirstRussianField | remove_duplicates.py:13-16 | the first field whose lower-cased name contains a Russian marker, with no earlier one |
| RemoveDuplicates.FindRussianFieldIndex | remove_duplicates.py:8-17 | a missing model or one without fields gives 0; otherwise the first marked field, or 0 when none is marked |
| RemoveDuplicates.FindDuplicates | remove_duplicates.py:118-139 | the loop's notes_to_delete and seen_words are DuplicateIds and Seen of the notes |
| RemoveDuplicates.RussianWord | remove_duplicates.py:123-129 | the note's key is its Russian field stripped and lower-cased, or none when it has too few fields |
| RemoveDuplicates.SeenMembers | remove_duplicates.py:131-139 | a word is in seen_words exactly when some note has it as key |
| RemoveDuplicates.SeenKeepsFirst | remove_duplicates.py:131-139 | a non-empty word stays filed under the first note that has it |
| RemoveDuplicates.SeenEmptyKeepsLast | remove_duplicates.py:131-139 | the empty word is filed under the last note that has it |
| RemoveDuplicates.DuplicatesAreMarked | remove_duplicates.py:118-139 | notes_to_delete is, in order, exactly the notes whose non-empty key repeats an earlier note's key |
| RemoveDuplicates.NonEmptyKeysAreSeen | remove_duplicates.py:131-139 | the non-empty keys are exactly the non-empty words in seen_words |
| RemoveDuplicates.DuplicateCount | remove_duplicates.py:118-141 | deleted notes plus distinct non-empty keys equal the notes with a non-empty key |
| RemoveDuplicates.RemoveDuplicatesFromAnkiDeck | remove_duplicates.py:19-175 | the deck is left unchanged exactly when no note is a duplicate; otherwise exactly the duplicates are deleted, with a ".backup" copy and a "_no_duplicates.apkg" output |
| RemoveDuplicates.OutputNameOfApkg | remove_duplicates.py:158 | stem.apkg is rewritten as stem_no_duplicates.apkg |
| AnkiGenerator.FieldValue | src/anki_generator.py:169-174 | a missing or falsy value gives "", and a string value is itself |
| AnkiGenerator.NoteFields | src/anki_generator.py:105-176 | a note has the six card fields, each the field value of its key, in card order |
| AnkiGenerator.NoteFieldsOfStrings | src/anki_generator.py:166-176 | for a dict of strings each field is the value of its key, or "" when the key is missing |
| AnkiGenerator.GrammarReadsOnlySpacedKey | src/anki_generator.py:172 | a result carrying its case only under "grammatical_case" gets an empty Grammar field |
| AnkiGenerator.NotesOfBounds | src/anki_generator.py:163-184 | at most one note per translation, exactly one each when all are dicts, and each note has six fields |
| AnkiGenerator.Deck.constructor | src/anki_generator.py:206 | a new deck has the given id and name and no notes |
| AnkiGenerator.Deck.AddNote | src/anki_generator.py:177 | adding a note appends it |
| AnkiGenerator.AnkiDeckGenerator.constructor | src/anki_generator.py:117-126 | both ids lie in [2^30, 2^31] |
| AnkiGenerator.AnkiDeckGenerator.AddNotesToDeck | src/anki_generator.py:146-184 | the deck gains the notes of the translations in order, and the count is their number |
| AnkiGenerator.CreateAnkiDeck | src/anki_generator.py:187-225 | a package is written exactly when some note was added; it goes to the output path and holds deck "Russian Vocabulary" with an id in range and exactly those notes |

## Left out

- HTTP, headers, the API key and `.env` loading are left out. The OpenRouter
  provider's constructor raises TranslationError when no key is set, and
  that is not modelled either. Each HTTP request is replaced by its reply
  (`http(word, k)`), and the reply envelope (`response.json()["choices"]…`)
  is taken as already read into `content`.
- `json.loads` is a parameter. The cache's `json.dumps`/`json.loads` round
  trip is taken to return the stored dict unchanged.
- Cache.TranslationCache.Get: `healthy` stands for errors raised by the
  `execute`/`commit` calls inside the `try` blocks of `get` and `set`, which
  the code logs and swallows: a failing read is a miss and a failing write
  does nothing. The flag is fixed per cache, so there are no intermittent
  errors.
- Cache.TranslationCache.constructor: a failure of `sqlite3.connect`, which
  sits outside those `try` blocks (`src/translator.py:96`, `:125`, `:153`),
  is not modelled. In the code it makes the constructor raise; in `get` it
  escapes `translate_word` and `batch_translate` drops the word; in `set`
  it is caught by the provider loop, which then discards the translation it
  just obtained, so `translate_word` returns None.
- Translator.OpenRouter: the replies are a function of the cleaned word and
  the attempt number alone, and the attempt count starts again at 0 on
  every `translate_word` call. Two calls for the same cleaned word (without
  the cache, or for two spellings of one word in a batch) therefore see the
  same replies; replies that change over time are not modelled.
- Translator.RussianTranslator.BatchTranslate: thread-pool concurrency is
  not modelled. The words are translated one after another in the order of
  `list(set(words))`. The source collects results in completion order, so
  the model fixes one such order. Batch size and worker count play no role.
- Translator.RussianTranslator.constructor: takes a cache even when
  `use_cache` is false. The source then creates none. The model never uses
  it in that case, which TranslateRun's contract states.
- Retry.RetryWithBackoff: sleeps are returned as a list instead of
  performed. Logging is dropped everywhere.
- `time.time()` is the parameter `now`. The cache timestamp is stored
  as given.
- Storage: the files, connections and the connection pool are in memory.
  The StorageError raised on an I/O or database failure is not modelled,
  and FileNotFoundError recovery in the CSV backend is not modelled.
- Storage.GetStorage: returns which backend to build, not the object. The
  StorageError is the Failure value.
- TextExtraction.ExtractTextFromInput: `get_vocab` raising is modelled as
  the vocabulary `None`, since every exception leads to the empty set.
  `os.path.exists`/`isdir` are the shape of the input. `os.walk` order is a
  sequence of files.
- Reading PDF, DOCX, Markdown, plain text and images (OCR) is not modelled.
  The text an extractor returned is an input; a failed extraction is the
  empty text, which yields no words in both cases.
- pymorphy2's `is_valid_russian_word` is a parameter `isValid`.
- Text.LowerChar: folds Basic Latin, Latin-1 and Cyrillic capitals only. It
  leaves every other code point as it is, and does not expand one character
  into several as full Unicode lower() can.
- Text.SplitExt: models POSIX `os.path.splitext`. Windows drive letters and
  backslashes are not treated as separators.
- RemoveDuplicates.RemoveDuplicatesFromAnkiDeck: unzipping, the temporary
  directory and the SQL DELETE are not modelled. So are zipping the new
  package, the diagnostic printing and the copy of the backup. The notes
  are given in query order, and the note types as a map from id. The
  source looks them up by `str(mid)` in the decoded models JSON. A field
  without 'name' is the empty name; a models JSON that fails to decode is
  the empty map.
- AnkiGenerator.CreateAnkiDeck: genanki's package writing is not modelled,
  nor are the model's templates and styling. The AnkiGenerationError raised
  when anything fails is not modelled. `str()` of a non-string field value
  is the parameter `show`.
- AnkiGenerator.AnkiDeckGenerator.constructor: `random.randint` is
  replaced by two draws reduced into the inclusive id range.
- The module-level provider wiring and translator singletons at the end of
  `src/translator.py` (lines 504-605) are setup code and are not part of
  this model; neither are the GUI, CLI, configuration and utility modules.
