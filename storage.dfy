/** The vocabulary store: which words the user already knows. Two backends
    keep the same vocabulary, a SQLite table keyed by the word and a CSV
    file of rows; both are kept here in memory. */
module Storage {
  import opened Text
  import opened Wrappers

  /** A vocabulary entry: a word with its translation and context. */
  datatype VocabEntry = VocabEntry(word: string, translation: string, context: string)

  /** VocabEntry.validate: the word is a non-empty string. */
  predicate Validate(e: VocabEntry) {
    e.word != ""
  }

  /** [entry for entry in entries if entry.validate()]. */
  function ValidEntries(entries: seq<VocabEntry>): (r: seq<VocabEntry>)
    ensures |r| <= |entries|
    ensures forall e :: e in r <==> e in entries && Validate(e)
  {
    if entries == [] then []
    else
      var init := entries[..|entries| - 1];
      var last := entries[|entries| - 1];
      assert entries == init + [last];
      ValidEntries(init) + (if Validate(last) then [last] else [])
  }

  /** {word.lower() for word in words}. */
  function LowerAll(words: set<string>): set<string> {
    set w | w in words :: Lower(w)
  }

  /** The backend get_storage selects. */
  datatype StorageKind = SqliteKind | CsvKind

  /** get_storage(storage_type, path): 'sqlite' or 'csv'; anything else is
      a StorageError naming the type. */
  function GetStorage(storageType: string): (r: Result<StorageKind, string>)
    ensures r.Success? <==> storageType == "sqlite" || storageType == "csv"
    ensures r == Success(SqliteKind) <==> storageType == "sqlite"
    ensures r == Success(CsvKind) <==> storageType == "csv"
    ensures r.Failure? ==> r.error == "Invalid storage type: " + storageType
  {
    if storageType == "sqlite" then Success(SqliteKind)
    else if storageType == "csv" then Success(CsvKind)
    else Failure("Invalid storage type: " + storageType)
  }

  // ---------------------------------------------------------------- SQLite

  /** The non-key columns of a vocab row. */
  datatype Row = Row(translation: string, context: string)

  /** SQLite's lower(): only the ASCII letters A-Z are folded. */
  function SqlLower(s: string): (r: string)
    ensures |r| == |s|
    ensures forall i :: 0 <= i < |s| ==> r[i] == if 'A' <= s[i] <= 'Z' then (s[i] as int + 32) as char else s[i]
  {
    seq(|s|, i requires 0 <= i < |s| => if 'A' <= s[i] <= 'Z' then (s[i] as int + 32) as char else s[i])
  }

  /** SELECT DISTINCT lower(word) FROM vocab. */
  function SqlWords(table: map<string, Row>): set<string> {
    set k | k in table :: SqlLower(k)
  }

  /** What add_words inserts: the lower-cased words not yet in the table. */
  function NewWords(words: set<string>, table: map<string, Row>): set<string> {
    LowerAll(words) - SqlWords(table)
  }

  /** A blank row (empty translation and context) for each word. */
  function Blank(words: set<string>): map<string, Row> {
    map w | w in words :: Row("", "")
  }

  /** The table after INSERT OR REPLACE of each entry in turn, keyed by the
      lower-cased word. */
  function Upserted(table: map<string, Row>, entries: seq<VocabEntry>): map<string, Row> {
    if entries == [] then table
    else
      var last := entries[|entries| - 1];
      Upserted(table, entries[..|entries| - 1])[Lower(last.word) := Row(last.translation, last.context)]
  }

  /** The last entry whose lower-cased word is key, if any. */
  function LastFor(entries: seq<VocabEntry>, key: string): (r: Option<VocabEntry>)
    ensures r.Some? ==> r.value in entries && Lower(r.value.word) == key
    ensures r.None? ==> forall e :: e in entries ==> Lower(e.word) != key
  {
    if entries == [] then None
    else
      var last := entries[|entries| - 1];
      var init := entries[..|entries| - 1];
      assert entries == init + [last];
      if Lower(last.word) == key then Some(last) else LastFor(init, key)
  }

  class SqliteStorage {
    /** The vocab table: word (the primary key) to its other columns. */
    var table: map<string, Row>

    /** Every word in the table was lower-cased by Python's lower(). */
    ghost predicate Valid()
      reads this
    {
      forall k :: k in table ==> IsLower(k)
    }

    /** A storage over an empty vocab table (init_db creates it). */
    constructor ()
      ensures table == map[] && Valid()
    {
      table := map[];
    }

    /** get_words. */
    method GetWords() returns (r: set<string>)
      ensures r == SqlWords(table)
    {
      r := set k | k in table :: SqlLower(k);
    }

    /** add_words(words): inserts each lower-cased word not yet present,
        with an empty translation and context, and returns how many. */
    method AddWords(words: set<string>) returns (added: nat)
      modifies this
      ensures added == |NewWords(words, old(table))|
      ensures table == old(table) + Blank(NewWords(words, old(table)))
      ensures old(Valid()) ==> Valid()
    {
      if words == {} {
        assert NewWords(words, table) == {};
        assert Blank({}) == map[];
        assert table == table + map[];
        return 0;
      }
      var existing := SqlWords(table);
      var truelyNew := LowerAll(words) - existing;
      if truelyNew == {} {
        assert Blank({}) == map[];
        assert table == table + map[];
        return 0;
      }
      forall w | w in truelyNew ensures w !in table {
        NewWordAbsent(words, table, w);
      }
      added := InsertBlank(truelyNew);
      AddWordsKeepsValid(words, old(table));
    }

    /** The insert loop of add_words: one blank row per word, counting the
        inserts. None of the words is a key yet, so no INSERT hits the
        primary-key constraint (the IntegrityError branch never runs). */
    method InsertBlank(newWords: set<string>) returns (added: nat)
      requires forall w :: w in newWords ==> w !in table
      modifies this
      ensures added == |newWords|
      ensures table == old(table) + Blank(newWords)
    {
      added := 0;
      var remaining := newWords;
      ghost var done: set<string> := {};
      while remaining != {}
        invariant remaining <= newWords && done == newWords - remaining
        invariant added == |done|
        invariant table == old(table) + Blank(done)
        decreases remaining
      {
        var word :| word in remaining;
        BlankInsert(old(table), done, word);
        table := table[word := Row("", "")];
        added := added + 1;
        done := done + {word};
        remaining := remaining - {word};
      }
    }

    /** add_entries(entries): upserts every valid entry under its
        lower-cased word, in order, and returns how many it upserted. */
    method AddEntries(entries: seq<VocabEntry>) returns (count: nat)
      modifies this
      ensures count == |ValidEntries(entries)|
      ensures table == Upserted(old(table), ValidEntries(entries))
      ensures old(Valid()) ==> Valid()
    {
      if entries == [] {
        return 0;
      }
      var valid := ValidEntries(entries);
      count := 0;
      for i := 0 to |valid|
        invariant count == i
        invariant table == Upserted(old(table), valid[..i])
        invariant old(Valid()) ==> Valid()
      {
        var e := valid[i];
        assert valid[..i + 1][..i] == valid[..i];
        LowerIdempotent(e.word);
        table := table[Lower(e.word) := Row(e.translation, e.context)];
        count := count + 1;
      }
      assert valid[..|valid|] == valid;
    }
  }

  lemma BlankInsert(t: map<string, Row>, done: set<string>, word: string)
    ensures (t + Blank(done))[word := Row("", "")] == t + Blank(done + {word})
  {
    var l := (t + Blank(done))[word := Row("", "")];
    var r := t + Blank(done + {word});
    assert l.Keys == r.Keys;
    forall k | k in l ensures l[k] == r[k] {
    }
  }

  lemma AddWordsKeepsValid(words: set<string>, t: map<string, Row>)
    ensures (forall k :: k in t ==> IsLower(k)) ==>
            forall k :: k in t + Blank(NewWords(words, t)) ==> IsLower(k)
  {
    LowerAllIsLower(words);
  }

  /** A word that lower() produced has no ASCII capital, so SQLite's lower()
      leaves it as it is. */
  lemma SqlLowerOfLower(s: string)
    requires IsLower(s)
    ensures SqlLower(s) == s
  {
  }

  lemma LowerAllIsLower(words: set<string>)
    ensures forall w :: w in LowerAll(words) ==> IsLower(w)
  {
    forall w | w in LowerAll(words) ensures IsLower(w) {
      var v :| v in words && w == Lower(v);
      LowerIdempotent(v);
    }
  }

  /** A word add_words picks is not already a key: a key equal to it would
      have put it among the existing words. */
  lemma NewWordAbsent(words: set<string>, table: map<string, Row>, word: string)
    requires word in NewWords(words, table)
    ensures word !in table
  {
    LowerAllIsLower(words);
    SqlLowerOfLower(word);
    assert word in table ==> SqlLower(word) in SqlWords(table);
  }

  /** After add_words, get_words holds every lower-cased input word, and a
      second add_words of the same words inserts nothing. */
  lemma {:induction false} AddWordsTwice(words: set<string>, table: map<string, Row>)
    requires forall k :: k in table ==> IsLower(k)
    ensures var after := table + Blank(NewWords(words, table));
            && LowerAll(words) <= SqlWords(after)
            && NewWords(words, after) == {}
  {
    var after := table + Blank(NewWords(words, table));
    LowerAllIsLower(words);
    forall w | w in LowerAll(words) ensures w in SqlWords(after) {
      SqlLowerOfLower(w);
      if w in NewWords(words, table) {
        assert w in after;
      } else {
        var k :| k in table && SqlLower(k) == w;
        assert k in after;
      }
    }
  }

  /** After add_entries, the row of a key is that of the last valid entry for
      it, and a key no valid entry names keeps its row (or stays absent). */
  lemma {:induction false} UpsertedLastWins(table: map<string, Row>, entries: seq<VocabEntry>, key: string)
    ensures var t := Upserted(table, entries);
            match LastFor(entries, key)
            case Some(e) => key in t && t[key] == Row(e.translation, e.context)
            case None => (key in t <==> key in table) && (key in table ==> t[key] == table[key])
  {
    if entries != [] {
      UpsertedLastWins(table, entries[..|entries| - 1], key);
    }
  }

  /** Upserting an entry again with the same word changes nothing more:
      upserts are last-write-wins, not appends. */
  lemma UpsertRepeated(table: map<string, Row>, e: VocabEntry)
    ensures Upserted(table, [e, e]) == Upserted(table, [e])
  {
    assert [e, e][..1] == [e];
    assert [e][..0] == [];
  }

  // ------------------------------------------------------------------- CSV

  /** A CSV data row (the header line is not kept). */
  datatype CsvRow = CsvRow(word: string, translation: string, context: string)

  /** The words get_words reads: each non-empty word, lower-cased. */
  function WordsOf(rows: seq<CsvRow>): set<string> {
    if rows == [] then {}
    else
      var last := rows[|rows| - 1];
      WordsOf(rows[..|rows| - 1]) + (if last.word != "" then {Lower(last.word)} else {})
  }

  lemma {:induction false} WordsOfMembers(rows: seq<CsvRow>, w: string)
    ensures w in WordsOf(rows) <==> exists i :: 0 <= i < |rows| && rows[i].word != "" && Lower(rows[i].word) == w
  {
    if rows != [] {
      var init := rows[..|rows| - 1];
      WordsOfMembers(init, w);
      if exists i :: 0 <= i < |rows| && rows[i].word != "" && Lower(rows[i].word) == w {
        var i :| 0 <= i < |rows| && rows[i].word != "" && Lower(rows[i].word) == w;
        if i < |rows| - 1 {
          assert init[i] == rows[i];
        }
      }
      if exists i :: 0 <= i < |init| && init[i].word != "" && Lower(init[i].word) == w {
        var i :| 0 <= i < |init| && init[i].word != "" && Lower(init[i].word) == w;
        assert rows[i] == init[i];
      }
    }
  }

  /** The key a row is filed under in add_entries' dict. */
  function KeyOf(row: CsvRow): string {
    Lower(row.word)
  }

  /** The position of key in an insertion-ordered dict of rows, or -1. */
  function KeyIndex(d: seq<CsvRow>, key: string): (r: int)
    ensures -1 <= r < |d|
    ensures r >= 0 ==> KeyOf(d[r]) == key
    ensures forall k :: 0 <= k < |d| && (r < 0 || k < r) ==> KeyOf(d[k]) != key
  {
    if d == [] then -1
    else if KeyOf(d[0]) == key then 0
    else var r := KeyIndex(d[1..], key); if r < 0 then -1 else r + 1
  }

  /** dict.get(key). */
  function Lookup(d: seq<CsvRow>, key: string): (r: Option<CsvRow>)
    ensures r.Some? ==> r.value in d && KeyOf(r.value) == key
    ensures r.None? ==> forall row :: row in d ==> KeyOf(row) != key
  {
    var i := KeyIndex(d, key);
    if i >= 0 then Some(d[i]) else None
  }

  /** No two rows of the dict are filed under the same key. */
  predicate DistinctKeys(d: seq<CsvRow>) {
    forall i, j :: 0 <= i < j < |d| ==> KeyOf(d[i]) != KeyOf(d[j])
  }

  /** dict[key(row)] = row on an insertion-ordered dict: a row already under
      that key is replaced where it stands, otherwise the row goes last. */
  function Put(d: seq<CsvRow>, row: CsvRow): (r: seq<CsvRow>)
    ensures KeyIndex(d, KeyOf(row)) >= 0 ==> |r| == |d| && r == d[KeyIndex(d, KeyOf(row)) := row]
    ensures KeyIndex(d, KeyOf(row)) < 0 ==> r == d + [row]
  {
    var i := KeyIndex(d, KeyOf(row));
    if i >= 0 then d[i := row] else d + [row]
  }

  /** Two dicts with the same keys at the same positions find a key at the
      same position. */
  lemma KeyIndexSameKeys(d1: seq<CsvRow>, d2: seq<CsvRow>, key: string)
    requires |d1| == |d2| && forall i :: 0 <= i < |d1| ==> KeyOf(d1[i]) == KeyOf(d2[i])
    ensures KeyIndex(d1, key) == KeyIndex(d2, key)
  {
    var r1, r2 := KeyIndex(d1, key), KeyIndex(d2, key);
    assert r1 >= 0 ==> KeyOf(d2[r1]) == key;
    assert r2 >= 0 ==> KeyOf(d1[r2]) == key;
  }

  /** In a dict with distinct keys, a key is found at the one position that
      holds it. */
  lemma KeyIndexOfDistinct(d: seq<CsvRow>, i: nat)
    requires DistinctKeys(d) && i < |d|
    ensures KeyIndex(d, KeyOf(d[i])) == i
  {
  }

  lemma PutKeepsDistinct(d: seq<CsvRow>, row: CsvRow)
    requires DistinctKeys(d)
    ensures DistinctKeys(Put(d, row))
  {
    var i := KeyIndex(d, KeyOf(row));
    var r := Put(d, row);
    if i >= 0 {
      assert forall k :: 0 <= k < |d| ==> KeyOf(r[k]) == KeyOf(d[k]);
    } else {
      assert forall k :: 0 <= k < |d| ==> r[k] == d[k];
    }
  }

  /** After dict[key(row)] = row, the row is filed under its key and every
      other key is filed as before. */
  lemma PutLookup(d: seq<CsvRow>, row: CsvRow, key: string)
    requires DistinctKeys(d)
    ensures Lookup(Put(d, row), key) == if key == KeyOf(row) then Some(row) else Lookup(d, key)
  {
    var i := KeyIndex(d, KeyOf(row));
    var r := Put(d, row);
    PutKeepsDistinct(d, row);
    if i >= 0 {
      assert forall k :: 0 <= k < |d| ==> KeyOf(r[k]) == KeyOf(d[k]);
      KeyIndexSameKeys(r, d, key);
      if key == KeyOf(row) {
        KeyIndexOfDistinct(r, i);
      }
    } else {
      assert forall k :: 0 <= k < |d| ==> r[k] == d[k];
      if key == KeyOf(row) {
        KeyIndexOfDistinct(r, |d|);
      } else {
        var j := KeyIndex(r, key);
        assert j != |d|;
        assert j >= 0 ==> KeyOf(d[j]) == key;
      }
    }
  }

  /** Each row put into the dict in turn. */
  function PutAll(d: seq<CsvRow>, rows: seq<CsvRow>): seq<CsvRow> {
    if rows == [] then d else Put(PutAll(d, rows[..|rows| - 1]), rows[|rows| - 1])
  }

  lemma PutAllSnoc(d: seq<CsvRow>, rows: seq<CsvRow>, row: CsvRow)
    ensures PutAll(d, rows + [row]) == Put(PutAll(d, rows), row)
  {
    assert (rows + [row])[..|rows|] == rows;
  }

  /** The last row filed under key, if any. */
  function LastRow(rows: seq<CsvRow>, key: string): (r: Option<CsvRow>)
    ensures r.Some? ==> r.value in rows && KeyOf(r.value) == key
    ensures r.None? ==> forall row :: row in rows ==> KeyOf(row) != key
  {
    if rows == [] then None
    else
      var last := rows[|rows| - 1];
      var init := rows[..|rows| - 1];
      assert rows == init + [last];
      if KeyOf(last) == key then Some(last) else LastRow(init, key)
  }

  /** After putting rows in turn, the dict files under each key the last of
      those rows with that key, or what it held before; keys stay distinct. */
  lemma {:induction false} PutAllSpec(d: seq<CsvRow>, rows: seq<CsvRow>, key: string)
    requires DistinctKeys(d)
    ensures DistinctKeys(PutAll(d, rows))
    ensures Lookup(PutAll(d, rows), key) == if LastRow(rows, key).Some? then LastRow(rows, key) else Lookup(d, key)
  {
    if rows != [] {
      var init := rows[..|rows| - 1];
      PutAllSpec(d, init, key);
      PutKeepsDistinct(PutAll(d, init), rows[|rows| - 1]);
      PutLookup(PutAll(d, init), rows[|rows| - 1], key);
    }
  }

  /** The rows read back from the file: those with a non-empty word. */
  function Kept(rows: seq<CsvRow>): (r: seq<CsvRow>)
    ensures forall row :: row in r <==> row in rows && row.word != ""
  {
    if rows == [] then []
    else
      var init := rows[..|rows| - 1];
      var last := rows[|rows| - 1];
      assert rows == init + [last];
      Kept(init) + (if last.word != "" then [last] else [])
  }

  lemma KeptSnoc(rows: seq<CsvRow>, i: nat)
    requires i < |rows|
    ensures Kept(rows[..i + 1]) == Kept(rows[..i]) + (if rows[i].word != "" then [rows[i]] else [])
  {
    assert rows[..i + 1][..i] == rows[..i];
  }

  /** The row each valid entry is written as. */
  function EntryRows(entries: seq<VocabEntry>): (r: seq<CsvRow>)
    ensures |r| == |entries|
    ensures forall i :: 0 <= i < |entries| ==>
              r[i] == CsvRow(Lower(entries[i].word), entries[i].translation, entries[i].context)
  {
    if entries == [] then []
    else EntryRows(entries[..|entries| - 1]) + [CsvRow(Lower(entries[|entries| - 1].word),
                                                       entries[|entries| - 1].translation,
                                                       entries[|entries| - 1].context)]
  }

  /** The file's rows after add_entries: the rows read back, then the valid
      entries, each put into an insertion-ordered dict under its lower-cased
      word, written back in dict order. */
  function CsvAfterEntries(rows: seq<CsvRow>, entries: seq<VocabEntry>): seq<CsvRow> {
    PutAll(PutAll([], Kept(rows)), EntryRows(ValidEntries(entries)))
  }

  lemma WordsOfStep(rows: seq<CsvRow>, i: nat)
    requires i < |rows|
    ensures WordsOf(rows[..i + 1]) == WordsOf(rows[..i]) + (if rows[i].word != "" then {Lower(rows[i].word)} else {})
  {
    assert rows[..i + 1] == rows[..i] + [rows[i]];
    WordsOfSnoc(rows[..i], rows[i]);
  }

  lemma WordsOfSnoc(rows: seq<CsvRow>, row: CsvRow)
    ensures WordsOf(rows + [row]) == WordsOf(rows) + (if row.word != "" then {Lower(row.word)} else {})
  {
    assert (rows + [row])[..|rows|] == rows;
  }

  /** The invariant of the add_words write loop: the words written so far
      are those of unseen no longer remaining. */
  ghost predicate AppendLoop(before: seq<CsvRow>, after: seq<CsvRow>, unseen: set<string>,
                             remaining: set<string>, added: nat) {
    && remaining <= unseen
    && added == |unseen - remaining|
    && AppendsBlank(before, after, unseen - remaining)
    && WordsOf(after) == WordsOf(before) + (unseen - remaining - {""})
  }

  lemma AppendStep(before: seq<CsvRow>, after: seq<CsvRow>, unseen: set<string>,
                   remaining: set<string>, added: nat, word: string)
    requires forall w :: w in unseen ==> IsLower(w)
    requires AppendLoop(before, after, unseen, remaining, added) && word in remaining
    ensures AppendLoop(before, after + [CsvRow(word, "", "")], unseen, remaining - {word}, added + 1)
  {
    LowerOfLower(word);
    WordsOfSnoc(after, CsvRow(word, "", ""));
    AppendsBlankSnoc(before, after, unseen - remaining, word);
    assert unseen - (remaining - {word}) == (unseen - remaining) + {word};
  }

  /** after is before followed by one blank row for each word of ws, each
      word once. */
  ghost predicate AppendsBlank(before: seq<CsvRow>, after: seq<CsvRow>, ws: set<string>) {
    && |after| == |before| + |ws|
    && after[..|before|] == before
    && (forall i :: |before| <= i < |after| ==>
          after[i].word in ws && after[i].translation == "" && after[i].context == "")
    && (forall i, j :: |before| <= i < j < |after| ==> after[i].word != after[j].word)
  }

  lemma NothingAppended(rows: seq<CsvRow>)
    ensures AppendsBlank(rows, rows, {})
  {
    assert rows[..|rows|] == rows;
  }

  lemma AppendsBlankSnoc(before: seq<CsvRow>, after: seq<CsvRow>, ws: set<string>, word: string)
    requires AppendsBlank(before, after, ws) && word !in ws
    ensures AppendsBlank(before, after + [CsvRow(word, "", "")], ws + {word})
  {
    var a := after + [CsvRow(word, "", "")];
    assert a[..|before|] == after[..|before|];
  }

  class CsvStorage {
    /** The data rows of the file, in file order. */
    var rows: seq<CsvRow>

    /** A storage over a new file holding only the header row. */
    constructor ()
      ensures rows == []
    {
      rows := [];
    }

    /** get_words. */
    method GetWords() returns (r: set<string>)
      ensures r == WordsOf(rows)
      ensures forall w :: w in r <==> exists i :: 0 <= i < |rows| && rows[i].word != "" && Lower(rows[i].word) == w
    {
      var current := rows;
      r := {};
      for i := 0 to |current|
        invariant r == WordsOf(current[..i])
      {
        WordsOfStep(current, i);
        if current[i].word != "" {
          r := r + {Lower(current[i].word)};
        }
      }
      assert current[..|current|] == current;
      forall w ensures w in r <==> exists i :: 0 <= i < |current| && current[i].word != "" && Lower(current[i].word) == w {
        WordsOfMembers(current, w);
      }
    }

    /** add_words(words): appends a blank row for each lower-cased word that
        get_words does not already return, and returns how many. */
    method AddWords(words: set<string>) returns (added: nat)
      modifies this
      ensures added == |LowerAll(words) - WordsOf(old(rows))|
      ensures AppendsBlank(old(rows), rows, LowerAll(words) - WordsOf(old(rows)))
      ensures WordsOf(rows) == WordsOf(old(rows)) + (LowerAll(words) - WordsOf(old(rows)) - {""})
    {
      if words == {} {
        assert LowerAll(words) == {};
        NothingAppended(rows);
        return 0;
      }
      var existing := GetWords();
      var unseen := LowerAll(words) - existing;
      if unseen == {} {
        NothingAppended(rows);
        return 0;
      }
      LowerAllIsLower(words);
      added := AppendBlank(unseen);
    }

    /** The write loop of add_words: one row [word, '', ''] per word. */
    method AppendBlank(unseen: set<string>) returns (added: nat)
      requires forall w :: w in unseen ==> IsLower(w)
      modifies this
      ensures added == |unseen|
      ensures AppendsBlank(old(rows), rows, unseen)
      ensures WordsOf(rows) == WordsOf(old(rows)) + (unseen - {""})
    {
      var before := rows;
      var written := rows;
      var remaining := unseen;
      added := 0;
      while remaining != {}
        invariant AppendLoop(before, written, unseen, remaining, added)
        decreases remaining
      {
        var word :| word in remaining;
        AppendStep(before, written, unseen, remaining, added, word);
        written := written + [CsvRow(word, "", "")];
        remaining := remaining - {word};
        added := added + 1;
      }
      assert unseen - remaining == unseen;
      rows := written;
    }

    /** add_entries(entries): rewrites the file from an insertion-ordered
        dict of the rows read back, updated with every valid entry under its
        lower-cased word; returns the number of valid entries. */
    method AddEntries(entries: seq<VocabEntry>) returns (count: nat)
      modifies this
      ensures entries == [] ==> count == 0 && rows == old(rows)
      ensures entries != [] ==> count == |ValidEntries(entries)| && rows == CsvAfterEntries(old(rows), entries)
    {
      if entries == [] {
        return 0;
      }
      var valid := ValidEntries(entries);
      var existing := ReadBack(rows);
      existing := PutEntries(existing, valid);
      rows := existing;
      count := |valid|;
    }
  }

  /** One more row read back: it is put into the dict when its word is non-empty. */
  lemma ReadBackStep(rows: seq<CsvRow>, i: nat)
    requires i < |rows|
    ensures PutAll([], Kept(rows[..i + 1]))
            == if rows[i].word != "" then Put(PutAll([], Kept(rows[..i])), rows[i]) else PutAll([], Kept(rows[..i]))
  {
    KeptSnoc(rows, i);
    if rows[i].word != "" {
      PutAllSnoc([], Kept(rows[..i]), rows[i]);
    } else {
      assert Kept(rows[..i + 1]) == Kept(rows[..i]);
    }
  }

  /** The reading loop of add_entries: each row with a non-empty word put
      into the dict under its lower-cased word. */
  method ReadBack(rows: seq<CsvRow>) returns (d: seq<CsvRow>)
    ensures d == PutAll([], Kept(rows))
  {
    d := [];
    for i := 0 to |rows|
      invariant d == PutAll([], Kept(rows[..i]))
    {
      ReadBackStep(rows, i);
      if rows[i].word != "" {
        d := Put(d, rows[i]);
      }
    }
    assert rows[..|rows|] == rows;
  }

  /** The update loop of add_entries: each valid entry put into the dict
      as the row (word.lower(), translation, context). */
  method PutEntries(d0: seq<CsvRow>, valid: seq<VocabEntry>) returns (d: seq<CsvRow>)
    ensures d == PutAll(d0, EntryRows(valid))
  {
    d := d0;
    ghost var entryRows := EntryRows(valid);
    for i := 0 to |valid|
      invariant d == PutAll(d0, entryRows[..i])
    {
      assert entryRows[..i + 1] == entryRows[..i] + [entryRows[i]];
      PutAllSnoc(d0, entryRows[..i], entryRows[i]);
      d := Put(d, CsvRow(Lower(valid[i].word), valid[i].translation, valid[i].context));
    }
    assert entryRows[..|valid|] == entryRows;
  }

  /** After CSV add_entries, each key holds the row of the last valid entry
      for it, or else the last row read back for it; keys are distinct. */
  lemma CsvEntriesLastWins(rows: seq<CsvRow>, entries: seq<VocabEntry>, key: string)
    ensures DistinctKeys(CsvAfterEntries(rows, entries))
    ensures var written := EntryRows(ValidEntries(entries));
            Lookup(CsvAfterEntries(rows, entries), key)
            == if LastRow(written, key).Some? then LastRow(written, key) else LastRow(Kept(rows), key)
  {
    PutAllSpec([], Kept(rows), key);
    PutAllSpec(PutAll([], Kept(rows)), EntryRows(ValidEntries(entries)), key);
  }

  /** CSV add_entries counts every valid entry, also when two of them name
      the same word and only one row results. */
  lemma CsvCountsRepeats(e: VocabEntry)
    requires Validate(e)
    ensures |ValidEntries([e, e])| == 2
    ensures |CsvAfterEntries([], [e, e])| == 1
  {
    assert [e, e][..1] == [e];
    assert ValidEntries([e]) == [e] by { assert [e][..0] == []; }
    assert ValidEntries([e, e]) == [e, e];
    var row := CsvRow(Lower(e.word), e.translation, e.context);
    assert EntryRows([e, e]) == [row, row];
    assert [row, row][..1] == [row];
    assert PutAll([], [row]) == [row] by { assert [row][..0] == []; }
  }

  /** CSV add_words of the empty word appends a row that get_words never
      returns, so the same call appends it again every time. */
  lemma CsvEmptyWordReadded(rows: seq<CsvRow>)
    ensures LowerAll({""}) - WordsOf(rows) == {""}
  {
    assert LowerAll({""}) == {""} by { assert Lower("") == ""; }
    WordsOfMembers(rows, "");
  }
}
