/** The word-level part of text extraction: clean_and_split_text, which
    turns extracted text into lower-cased Russian words, and the filtering
    in extract_text_from_input that keeps the valid words not yet in the
    vocabulary. Reading PDF, DOCX, Markdown and image files is outside the
    model: a file contributes the text its extractor returned. */
module TextExtraction {
  import opened Text
  import opened Wrappers

  /** The characters the cleaning pattern keeps besides whitespace: а-я
      (U+0430-U+044F), А-Я (U+0410-U+042F), ё (U+0451), Ё (U+0401) and the
      combining grave and acute accents U+0300 and U+0301 used as stress marks. */
  predicate IsKept(c: char) {
    || ('\U{0430}' <= c <= '\U{044F}')
    || ('\U{0410}' <= c <= '\U{042F}')
    || c == '\U{0451}' || c == '\U{0401}'
    || c == '\U{0300}' || c == '\U{0301}'
  }

  /** The alphabet of an extracted word: the lower-case kept characters. */
  predicate IsLowerKept(c: char) {
    || ('\U{0430}' <= c <= '\U{044F}')
    || c == '\U{0451}'
    || c == '\U{0300}' || c == '\U{0301}'
  }

  /** The substitution that replaces every character that is neither kept
      nor whitespace by a space. */
  function Clean(s: string): (r: string)
    ensures |r| == |s|
    ensures forall i :: 0 <= i < |s| ==> (!IsSpace(r[i]) <==> IsKept(s[i]))
    ensures forall i :: 0 <= i < |s| && IsKept(s[i]) ==> r[i] == s[i]
  {
    seq(|s|, i requires 0 <= i < |s| => if IsKept(s[i]) || IsSpace(s[i]) then s[i] else ' ')
  }

  /** The search pattern of the word filter: some kept character occurs. */
  predicate HasKept(t: string) {
    exists k :: 0 <= k < |t| && IsKept(t[k])
  }

  /** s[i..j] is a maximal run of kept characters of s. */
  predicate IsKeptRun(s: string, i: int, j: int) {
    && 0 <= i < j <= |s|
    && (forall k :: i <= k < j ==> IsKept(s[k]))
    && (i == 0 || !IsKept(s[i - 1]))
    && (j == |s| || !IsKept(s[j]))
  }

  /** The words of s: its cleaned whitespace-separated pieces, lower-cased. */
  function Words(s: string): set<string> {
    set t | t in Split(Clean(s)) :: Lower(t)
  }

  /** clean_and_split_text(text). */
  method CleanAndSplitText(text: Option<string>) returns (words: set<string>)
    ensures text == None || text == Some("") ==> words == {}
    ensures text.Some? ==> words == Words(text.value)
  {
    if text == None || text == Some("") {
      return {};
    }
    var cleaned := Clean(text.value);
    var normalized := JoinSpace(Split(cleaned));
    var parts := Split(normalized);
    words := {};
    for i := 0 to |parts|
      invariant words == set k | 0 <= k < i && |parts[k]| >= 1 && HasKept(parts[k]) :: Lower(parts[k])
    {
      if |parts[i]| >= 1 && HasKept(parts[i]) {
        words := words + {Lower(parts[i])};
      }
    }
    FilteredPartsAreWords(text.value, parts);
  }

  /** The loop's filter drops none of the split pieces, so what it collects
      is the set of words of the text. */
  lemma FilteredPartsAreWords(s: string, parts: seq<string>)
    requires parts == Split(JoinSpace(Split(Clean(s))))
    ensures (set k | 0 <= k < |parts| && |parts[k]| >= 1 && HasKept(parts[k]) :: Lower(parts[k])) == Words(s)
  {
    PartsAreKept(s);
    var words := set k | 0 <= k < |parts| && |parts[k]| >= 1 && HasKept(parts[k]) :: Lower(parts[k]);
    forall w ensures w in words <==> w in Words(s) {
      if w in Words(s) {
        var t :| t in Split(Clean(s)) && w == Lower(t);
        var k :| 0 <= k < |parts| && parts[k] == t;
        assert w == Lower(parts[k]);
      }
    }
  }

  /** Re-joining with single spaces changes nothing for the split, and every
      piece passes the filter of the loop. */
  lemma PartsAreKept(s: string)
    ensures Split(JoinSpace(Split(Clean(s)))) == Split(Clean(s))
    ensures forall t :: t in Split(Clean(s)) ==> |t| >= 1 && HasKept(t)
  {
    SplitWellFormed(Clean(s));
    SplitJoinSpace(Split(Clean(s)));
    forall t | t in Split(Clean(s)) ensures |t| >= 1 && HasKept(t) {
      SplitWords(Clean(s), t);
      var i, j :| IsRun(Clean(s), i, j) && t == Clean(s)[i..j];
      assert t[0] == Clean(s)[i] == s[i] && IsKept(t[0]);
    }
  }

  /** The maximal runs of non-whitespace of the cleaned text are exactly
      the maximal runs of kept characters of the text, with the same content. */
  lemma RunsOfClean(s: string, i: int, j: int)
    ensures IsRun(Clean(s), i, j) <==> IsKeptRun(s, i, j)
    ensures IsKeptRun(s, i, j) ==> Clean(s)[i..j] == s[i..j]
  {
  }

  /** The extracted words are exactly the lower-cased maximal runs of kept
      characters: every other character separates words. */
  lemma WordsAreKeptRuns(s: string, w: string)
    ensures w in Words(s) <==> exists i, j :: IsKeptRun(s, i, j) && w == Lower(s[i..j])
  {
    if w in Words(s) {
      var t :| t in Split(Clean(s)) && w == Lower(t);
      SplitWords(Clean(s), t);
      var i, j :| IsRun(Clean(s), i, j) && t == Clean(s)[i..j];
      RunsOfClean(s, i, j);
    }
    if exists i, j :: IsKeptRun(s, i, j) && w == Lower(s[i..j]) {
      var i, j :| IsKeptRun(s, i, j) && w == Lower(s[i..j]);
      RunsOfClean(s, i, j);
      SplitWords(Clean(s), s[i..j]);
    }
  }

  /** Every extracted word is non-empty, contains no whitespace and is made
      only of а-я, ё and the two stress marks. */
  lemma WordsAlphabet(s: string, w: string)
    requires w in Words(s)
    ensures |w| >= 1 && HasNoSpace(w)
    ensures forall k :: 0 <= k < |w| ==> IsLowerKept(w[k])
  {
    WordsAreKeptRuns(s, w);
    var i, j :| IsKeptRun(s, i, j) && w == Lower(s[i..j]);
    assert forall k :: 0 <= k < |w| ==> w[k] == LowerChar(s[i + k]) && IsKept(s[i + k]);
  }

  /** A run made only of a stress mark is kept as a word of its own. */
  lemma StressMarkAlone()
    ensures Words("\U{0301}") == {"\U{0301}"}
  {
    var s := "\U{0301}";
    assert IsKeptRun(s, 0, 1) && s[0..1] == s;
    WordsAreKeptRuns(s, s);
    forall w | w in Words(s) ensures w == s {
      WordsAreKeptRuns(s, w);
    }
  }

  /** The new-word filter: valid words whose lower-cased form is not in the
      existing vocabulary. */
  function NewWords(words: set<string>, isValid: string -> bool, existing: set<string>): set<string> {
    set w | w in words && isValid(w) && Lower(w) !in existing
  }

  /** The new words of a text are exactly its valid words absent from the
      vocabulary: already lower-case, the words need no second folding. */
  lemma NewWordsOfText(s: string, isValid: string -> bool, existing: set<string>, w: string)
    ensures w in NewWords(Words(s), isValid, existing) <==> w in Words(s) && isValid(w) && w !in existing
  {
    if w in Words(s) {
      var t :| t in Split(Clean(s)) && w == Lower(t);
      LowerIdempotent(t);
    }
  }

  /** A file found under a directory: its name and the text its extractor
      returned (an empty string when extraction failed). */
  datatype SourceFile = SourceFile(name: string, text: string)

  /** What the input path names: nothing, one file (with its extracted
      text), or a directory whose walk yields the given files. */
  datatype InputPath = Missing | SingleFile(text: string) | Directory(files: seq<SourceFile>)

  const SupportedExtensions: seq<string> := [".txt", ".pdf", ".docx", ".png", ".jpg", ".jpeg", ".md"]

  /** The directory walk reads only files whose lower-cased extension is supported. */
  predicate Supported(name: string) {
    Lower(SplitExt(name).1) in SupportedExtensions
  }

  /** The new words one file contributes: none unless it is supported. */
  function FileNewWords(f: SourceFile, isValid: string -> bool, existing: set<string>): set<string> {
    if Supported(f.name) then NewWords(Words(f.text), isValid, existing) else {}
  }

  /** The new words of each file, as the walk sees them. */
  function FileContribution(isValid: string -> bool, existing: set<string>): SourceFile -> set<string> {
    f => FileNewWords(f, isValid, existing)
  }

  /** The union of what each file contributes, accumulated in walk order. */
  function DirectoryNewWords(files: seq<SourceFile>, contrib: SourceFile -> set<string>): set<string> {
    if files == [] then {}
    else DirectoryNewWords(files[..|files| - 1], contrib) + contrib(files[|files| - 1])
  }

  /** The result of extract_text_from_input, where vocab is what get_vocab
      returned (None when it raised: every exception gives the empty set). */
  function Extracted(input: InputPath, vocab: Option<set<string>>, isValid: string -> bool): set<string> {
    match vocab
    case None => {}
    case Some(existing) =>
      match input
      case Missing => {}
      case SingleFile(text) => NewWords(Words(text), isValid, existing)
      case Directory(files) => DirectoryNewWords(files, FileContribution(isValid, existing))
  }

  /** extract_text_from_input, with the pymorphy2 check as isValid. */
  method ExtractTextFromInput(input: InputPath, vocab: Option<set<string>>, isValid: string -> bool)
    returns (r: set<string>)
    ensures r == Extracted(input, vocab, isValid)
  {
    if vocab == None || input == Missing {
      return {};
    }
    var existing := vocab.value;
    if input.Directory? {
      r := WalkDirectory(input.files, isValid, existing);
    } else {
      var words := CleanAndSplitText(Some(input.text));
      r := NewWords(words, isValid, existing);
    }
  }

  /** The directory branch: the new words of each supported file added in turn. */
  method WalkDirectory(files: seq<SourceFile>, isValid: string -> bool, existing: set<string>)
    returns (r: set<string>)
    ensures r == DirectoryNewWords(files, FileContribution(isValid, existing))
  {
    r := {};
    for i := 0 to |files|
      invariant r == DirectoryNewWords(files[..i], FileContribution(isValid, existing))
    {
      assert files[..i + 1][..i] == files[..i];
      if Supported(files[i].name) {
        var words := CleanAndSplitText(Some(files[i].text));
        r := r + NewWords(words, isValid, existing);
      }
    }
    assert files[..|files|] == files;
  }

  /** A word is in the union of a directory exactly when one of its files
      contributes it. */
  lemma {:induction false} DirectoryUnion(files: seq<SourceFile>, contrib: SourceFile -> set<string>, w: string)
    ensures w in DirectoryNewWords(files, contrib) <==> exists i :: 0 <= i < |files| && w in contrib(files[i])
  {
    if files != [] {
      var init := files[..|files| - 1];
      DirectoryUnion(init, contrib, w);
      if w in DirectoryNewWords(init, contrib) {
        var i :| 0 <= i < |init| && w in contrib(init[i]);
        assert files[i] == init[i];
      }
      if exists i :: 0 <= i < |files| && w in contrib(files[i]) {
        var i :| 0 <= i < |files| && w in contrib(files[i]);
        if i < |init| {
          assert init[i] == files[i];
        }
      }
    }
  }

  /** Every extracted word is a valid word of some read text and is not in
      the existing vocabulary; nothing is extracted without a vocabulary or
      from a missing path. */
  lemma ExtractedSound(input: InputPath, vocab: Option<set<string>>, isValid: string -> bool, w: string)
    requires w in Extracted(input, vocab, isValid)
    ensures vocab.Some? && !input.Missing?
    ensures isValid(w) && w !in vocab.value
    ensures input.SingleFile? ==> w in Words(input.text)
    ensures input.Directory? ==> exists i :: 0 <= i < |input.files| && Supported(input.files[i].name) && w in Words(input.files[i].text)
  {
    var existing := vocab.value;
    match input
    case SingleFile(text) =>
      NewWordsOfText(text, isValid, existing, w);
    case Directory(files) =>
      DirectoryUnion(files, FileContribution(isValid, existing), w);
      var i :| 0 <= i < |files| && w in FileNewWords(files[i], isValid, existing);
      NewWordsOfText(files[i].text, isValid, existing, w);
  }
}
