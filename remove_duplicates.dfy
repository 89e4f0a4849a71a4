/** The de-duplication script for exported Anki decks: it picks the Russian
    field of each note type, walks the notes in the order the query returns
    them (by sort field), keeps the first note of every Russian word and
    marks every later one for deletion, then names a backup and an output
    package. Unpacking, SQL deletion and repacking are outside the model. */
module RemoveDuplicates {
  import opened Text
  import opened Wrappers

  /** A note type from the collection's models JSON. flds is None when the
      model has no 'flds' key (an empty model, which is falsy, has none);
      otherwise it lists each field's 'name', or "" when the field has none. */
  datatype NoteType = NoteType(flds: Option<seq<string>>)

  /** A row (id, flds, mid) of the notes table: flds holds the field values
      separated by U+001F, mid is the note type's id. */
  datatype Note = Note(id: int, flds: string, mid: int)

  /** A field name marks the Russian field when its lower-cased form
      contains 'russisch', 'russian' or 'русский'. */
  predicate IsRussianName(name: string) {
    var n := Lower(name);
    Contains(n, "russisch") || Contains(n, "russian") || Contains(n, "русский")
  }

  /** The first index at or after from whose name marks the Russian field. */
  function FirstRussianField(names: seq<string>, from: nat): (r: Option<nat>)
    requires from <= |names|
    ensures r.Some? ==> from <= r.value < |names| && IsRussianName(names[r.value])
    ensures forall k :: from <= k < |names| && (r.None? || k < r.value) ==> !IsRussianName(names[k])
    decreases |names| - from
  {
    if from == |names| then None
    else if IsRussianName(names[from]) then Some(from)
    else FirstRussianField(names, from + 1)
  }

  /** find_russian_field_index(model), with None for a missing model. */
  function FindRussianFieldIndex(model: Option<NoteType>): (r: nat)
    ensures model.None? || model.value.flds.None? ==> r == 0
    ensures model.Some? && model.value.flds.Some? ==>
      var names := model.value.flds.value;
      || (r < |names| && IsRussianName(names[r]) && forall k :: 0 <= k < r ==> !IsRussianName(names[k]))
      || (r == 0 && forall k :: 0 <= k < |names| ==> !IsRussianName(names[k]))
  {
    match model
    case None => 0
    case Some(m) =>
      match m.flds
      case None => 0
      case Some(names) =>
        match FirstRussianField(names, 0)
        case Some(i) => i
        case None => 0
  }

  /** The Russian field's value of a note, stripped and lower-cased; None
      when the note has too few fields for the chosen index. */
  function NoteKey(note: Note, models: map<int, NoteType>): Option<string> {
    var model := if note.mid in models then Some(models[note.mid]) else None;
    var index := if model.Some? then FindRussianFieldIndex(model) else 0;
    var fields := SplitOn(note.flds, '\U{1F}');
    if |fields| > index then Some(Lower(Strip(fields[index]))) else None
  }

  /** The key function of a collection's note types. */
  function KeyOf(models: map<int, NoteType>): Note -> Option<string> {
    (n: Note) => NoteKey(n, models)
  }

  /** seen_words after the given notes: a non-empty word keeps the note
      that first had it, while the empty word is rewritten by each note
      that has it. */
  function Seen(notes: seq<Note>, key: Note -> Option<string>): map<string, (int, string)> {
    if notes == [] then map[]
    else
      var seen := Seen(notes[..|notes| - 1], key);
      var note := notes[|notes| - 1];
      match key(note)
      case None => seen
      case Some(k) => if k != "" && k in seen then seen else seen[k := (note.id, note.flds)]
  }

  /** notes_to_delete after the given notes. */
  function DuplicateIds(notes: seq<Note>, key: Note -> Option<string>): seq<int> {
    if notes == [] then []
    else
      var init := notes[..|notes| - 1];
      var note := notes[|notes| - 1];
      var k := key(note);
      DuplicateIds(init, key) + (if k.Some? && k.value != "" && k.value in Seen(init, key) then [note.id] else [])
  }

  /** The duplicate-finding loop: returns notes_to_delete and seen_words. */
  method FindDuplicates(notes: seq<Note>, models: map<int, NoteType>)
    returns (toDelete: seq<int>, seen: map<string, (int, string)>)
    ensures toDelete == DuplicateIds(notes, KeyOf(models))
    ensures seen == Seen(notes, KeyOf(models))
  {
    ghost var key := KeyOf(models);
    toDelete := [];
    seen := map[];
    for i := 0 to |notes|
      invariant toDelete == DuplicateIds(notes[..i], key)
      invariant seen == Seen(notes[..i], key)
    {
      FindStep(notes, key, i);
      var russianWord := RussianWord(notes[i], models);
      if russianWord.Some? {
        if russianWord.value != "" && russianWord.value in seen {
          toDelete := toDelete + [notes[i].id];
        } else {
          seen := seen[russianWord.value := (notes[i].id, notes[i].flds)];
        }
      }
    }
    assert notes[..|notes|] == notes;
  }

  /** The loop body's reading of a note: the Russian field index of its
      model (0 without a model), the fields split on U+001F, and the field
      at that index stripped and lower-cased when there are enough fields. */
  method RussianWord(note: Note, models: map<int, NoteType>) returns (w: Option<string>)
    ensures w == KeyOf(models)(note)
  {
    var model := if note.mid in models then Some(models[note.mid]) else None;
    var russianIndex := if model.Some? then FindRussianFieldIndex(model) else 0;
    var fieldsSplit := SplitOn(note.flds, '\U{1F}');
    if |fieldsSplit| > russianIndex {
      w := Some(Lower(Strip(fieldsSplit[russianIndex])));
    } else {
      w := None;
    }
  }

  /** One more note seen by the loop. */
  lemma FindStep(notes: seq<Note>, key: Note -> Option<string>, i: nat)
    requires i < |notes|
    ensures var k := key(notes[i]);
      var seen := Seen(notes[..i], key);
      && DuplicateIds(notes[..i + 1], key)
         == DuplicateIds(notes[..i], key) + (if k.Some? && k.value != "" && k.value in seen then [notes[i].id] else [])
      && Seen(notes[..i + 1], key)
         == (if k.None? || (k.value != "" && k.value in seen) then seen else seen[k.value := (notes[i].id, notes[i].flds)])
  {
    assert notes[..i + 1][..i] == notes[..i];
  }

  /** A word is in seen_words exactly when some note has it as its key. */
  lemma {:induction false} SeenMembers(notes: seq<Note>, key: Note -> Option<string>, k: string)
    ensures k in Seen(notes, key) <==> exists j :: 0 <= j < |notes| && key(notes[j]) == Some(k)
  {
    if notes != [] {
      var init := notes[..|notes| - 1];
      SeenMembers(init, key, k);
      if exists j :: 0 <= j < |init| && key(init[j]) == Some(k) {
        var j :| 0 <= j < |init| && key(init[j]) == Some(k);
        assert notes[j] == init[j];
      }
      if exists j :: 0 <= j < |notes| && key(notes[j]) == Some(k) {
        var j :| 0 <= j < |notes| && key(notes[j]) == Some(k);
        if j < |init| {
          assert init[j] == notes[j];
        }
      }
    }
  }

  /** A non-empty word stays filed under the first note that has it: later
      notes with the same word never overwrite it. */
  lemma {:induction false} SeenKeepsFirst(notes: seq<Note>, key: Note -> Option<string>, j: nat)
    requires j < |notes|
    requires key(notes[j]).Some? && key(notes[j]).value != ""
    requires forall i :: 0 <= i < j ==> key(notes[i]) != key(notes[j])
    ensures var k := key(notes[j]).value;
      k in Seen(notes, key) && Seen(notes, key)[k] == (notes[j].id, notes[j].flds)
  {
    var k := key(notes[j]).value;
    var init := notes[..|notes| - 1];
    if j < |init| {
      assert init[j] == notes[j];
      assert forall i :: 0 <= i < j ==> init[i] == notes[i];
      SeenKeepsFirst(init, key, j);
    } else {
      SeenMembers(init, key, k);
      assert forall i :: 0 <= i < |init| ==> init[i] == notes[i];
    }
  }

  /** The empty word, by contrast, is filed under the last note that has it. */
  lemma SeenEmptyKeepsLast(notes: seq<Note>, key: Note -> Option<string>, j: nat)
    requires j < |notes| && key(notes[j]) == Some("")
    requires forall i :: j < i < |notes| ==> key(notes[i]) != Some("")
    ensures "" in Seen(notes, key) && Seen(notes, key)[""] == (notes[j].id, notes[j].flds)
    decreases |notes|
  {
    var init := notes[..|notes| - 1];
    if j < |init| {
      assert init[j] == notes[j];
      assert forall i :: j < i < |init| ==> init[i] == notes[i];
      SeenEmptyKeepsLast(init, key, j);
    }
  }

  /** Note i is a duplicate: its key is non-empty and an earlier note has
      the same key. A note with an empty key, or with too few fields, is
      never one. */
  predicate Marked(notes: seq<Note>, key: Note -> Option<string>, i: nat)
    requires i < |notes|
  {
    var k := key(notes[i]);
    k.Some? && k.value != "" && exists j :: 0 <= j < i && key(notes[j]) == k
  }

  /** The ids of the marked notes, in note order. */
  function MarkedIds(notes: seq<Note>, key: Note -> Option<string>): seq<int> {
    if notes == [] then []
    else MarkedIds(notes[..|notes| - 1], key) + (if Marked(notes, key, |notes| - 1) then [notes[|notes| - 1].id] else [])
  }

  /** notes_to_delete holds, in note order, exactly the ids of the notes
      whose key repeats an earlier note's non-empty key. */
  lemma {:induction false} DuplicatesAreMarked(notes: seq<Note>, key: Note -> Option<string>)
    ensures DuplicateIds(notes, key) == MarkedIds(notes, key)
  {
    if notes != [] {
      var init := notes[..|notes| - 1];
      DuplicatesAreMarked(init, key);
      var k := key(notes[|notes| - 1]);
      if k.Some? {
        SeenMembers(init, key, k.value);
        assert forall j :: 0 <= j < |init| ==> init[j] == notes[j];
      }
    }
  }

  /** The non-empty keys of the notes. */
  function NonEmptyKeys(notes: seq<Note>, key: Note -> Option<string>): set<string> {
    if notes == [] then {}
    else
      var k := key(notes[|notes| - 1]);
      NonEmptyKeys(notes[..|notes| - 1], key) + (if k.Some? && k.value != "" then {k.value} else {})
  }

  /** The number of notes with a non-empty key. */
  function KeyedCount(notes: seq<Note>, key: Note -> Option<string>): nat {
    if notes == [] then 0
    else
      var k := key(notes[|notes| - 1]);
      KeyedCount(notes[..|notes| - 1], key) + (if k.Some? && k.value != "" then 1 else 0)
  }

  lemma {:induction false} NonEmptyKeysAreSeen(notes: seq<Note>, key: Note -> Option<string>, k: string)
    ensures k in NonEmptyKeys(notes, key) <==> k != "" && k in Seen(notes, key)
  {
    if notes != [] {
      NonEmptyKeysAreSeen(notes[..|notes| - 1], key, k);
    }
  }

  /** One note is deleted for every note with a non-empty key beyond the
      first note of each distinct key. */
  lemma {:induction false} DuplicateCount(notes: seq<Note>, key: Note -> Option<string>)
    ensures |DuplicateIds(notes, key)| + |NonEmptyKeys(notes, key)| == KeyedCount(notes, key)
  {
    if notes != [] {
      var init := notes[..|notes| - 1];
      DuplicateCount(init, key);
      var k := key(notes[|notes| - 1]);
      if k.Some? && k.value != "" {
        NonEmptyKeysAreSeen(init, key, k.value);
        if k.value in Seen(init, key) {
          assert NonEmptyKeys(notes, key) == NonEmptyKeys(init, key);
        } else {
          assert NonEmptyKeys(notes, key) == NonEmptyKeys(init, key) + {k.value};
          assert |NonEmptyKeys(notes, key)| == |NonEmptyKeys(init, key)| + 1;
        }
      }
    }
  }

  /** What the script leaves on disk: nothing when no note is deleted,
      otherwise a backup copy and a new package without the deleted notes. */
  datatype Rewrite = Unchanged | Rewritten(backupPath: string, outputPath: string, deleted: seq<int>)

  /** The de-duplication of the package at apkgPath, given its notes in
      query order and its note types by id. */
  method RemoveDuplicatesFromAnkiDeck(apkgPath: string, notes: seq<Note>, models: map<int, NoteType>)
    returns (r: Rewrite)
    ensures r.Unchanged? <==> MarkedIds(notes, KeyOf(models)) == []
    ensures r.Rewritten? ==> r.deleted == MarkedIds(notes, KeyOf(models))
    ensures r.Rewritten? ==> r.backupPath == apkgPath + ".backup"
    ensures r.Rewritten? ==> r.outputPath == SplitExt(apkgPath).0 + "_no_duplicates.apkg"
  {
    if |notes| == 0 {
      return Unchanged;
    }
    var toDelete, seen := FindDuplicates(notes, models);
    DuplicatesAreMarked(notes, KeyOf(models));
    if toDelete != [] {
      var backupPath := apkgPath + ".backup";
      var outputPath := SplitExt(apkgPath).0 + "_no_duplicates.apkg";
      r := Rewritten(backupPath, outputPath, toDelete);
    } else {
      r := Unchanged;
    }
  }

  /** A package named stem.apkg is rewritten as stem_no_duplicates.apkg. */
  lemma OutputNameOfApkg(stem: string)
    requires '/' !in stem && !AllDots(stem)
    ensures SplitExt(stem + ".apkg").0 + "_no_duplicates.apkg" == stem + "_no_duplicates.apkg"
  {
    assert stem + ".apkg" == stem + "." + "apkg";
    SplitExtOfName(stem, "apkg");
  }
}
