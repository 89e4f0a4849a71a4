/** The Anki deck generator: every translation dict becomes a note of six
    fields in the card model's field order, the notes are counted, and a
    package is written only when at least one note was added. Templates,
    styling and the package format are outside the model. */
module AnkiGenerator {
  import opened JsonValue
  import opened Wrappers

  /** The card model's field names, in order. */
  const CardFields: seq<string> := ["Russian", "German", "PartOfSpeech", "Grammar", "Example_DE", "Example_RU"]

  /** The translation keys read for those fields, in the same order. */
  const NoteKeys: seq<string> := ["original", "translation", "part_of_speech", "grammatical case", "example_de", "example_ru"]

  /** The bounds 1 << 30 and 1 << 31 of the id range. */
  const IdLow: int := 0x4000_0000
  const IdHigh: int := 0x8000_0000

  /** str(trans.get(key, "") or ""): the empty string for a missing or falsy
      value, a string value itself, and show(v) (str of a number, list or
      dict) otherwise. */
  function FieldValue(trans: Dict, key: string, show: Json -> string): (r: string)
    ensures key !in trans || !Truthy(trans[key]) ==> r == ""
    ensures key in trans && trans[key].JStr? ==> r == trans[key].s
  {
    if key !in trans || !Truthy(trans[key]) then ""
    else if trans[key].JStr? then trans[key].s
    else show(trans[key])
  }

  /** The fields of the note made from one translation. */
  function NoteFields(trans: Dict, show: Json -> string): (r: seq<string>)
    ensures |r| == |CardFields| == |NoteKeys|
    ensures forall i :: 0 <= i < |NoteKeys| ==> r[i] == FieldValue(trans, NoteKeys[i], show)
  {
    seq(|NoteKeys|, i requires 0 <= i < |NoteKeys| => FieldValue(trans, NoteKeys[i], show))
  }

  /** A translation dict of strings fills the note with exactly its values
      in card order, and with "" where a key is missing. */
  lemma NoteFieldsOfStrings(trans: Dict, show: Json -> string, i: nat)
    requires i < |NoteKeys|
    requires forall k :: k in trans ==> trans[k].JStr?
    ensures NoteFields(trans, show)[i] == if NoteKeys[i] in trans then trans[NoteKeys[i]].s else ""
  {
  }

  /** The Grammar field reads only the key "grammatical case": a result that
      carries its case under "grammatical_case" gets an empty Grammar field. */
  lemma GrammarReadsOnlySpacedKey(trans: Dict, show: Json -> string)
    requires "grammatical case" !in trans && "grammatical_case" in trans
    ensures CardFields[3] == "Grammar" && NoteFields(trans, show)[3] == ""
  {
    assert NoteKeys[3] == "grammatical case";
  }

  /** The notes the translations yield: one per dict, in order; any other
      value raises on .get and is skipped. */
  function NotesOf(translations: seq<Json>, show: Json -> string): seq<seq<string>> {
    if translations == [] then []
    else
      var last := translations[|translations| - 1];
      NotesOf(translations[..|translations| - 1], show) + (if last.JObj? then [NoteFields(last.fields, show)] else [])
  }

  /** At most one note per translation, exactly one when all are dicts, and
      every note has the six card fields. */
  lemma {:induction false} NotesOfBounds(translations: seq<Json>, show: Json -> string)
    ensures |NotesOf(translations, show)| <= |translations|
    ensures (forall k :: 0 <= k < |translations| ==> translations[k].JObj?) ==> |NotesOf(translations, show)| == |translations|
    ensures forall n :: n in NotesOf(translations, show) ==> |n| == |CardFields|
  {
    if translations != [] {
      NotesOfBounds(translations[..|translations| - 1], show);
    }
  }

  /** A genanki deck: its id, its name and the notes added so far. */
  class Deck {
    const deckId: int
    const name: string
    var notes: seq<seq<string>>

    constructor (deckId: int, name: string)
      ensures this.deckId == deckId && this.name == name && notes == []
    {
      this.deckId := deckId;
      this.name := name;
      notes := [];
    }

    method AddNote(fields: seq<string>)
      modifies this
      ensures notes == old(notes) + [fields]
    {
      notes := notes + [fields];
    }
  }

  /** A written .apkg package: where, and the deck it holds. */
  datatype Package = Package(path: string, deckId: int, deckName: string, notes: seq<seq<string>>)

  class AnkiDeckGenerator {
    const deckName: string
    const deckId: int
    const modelId: int

    /** The ids come from random.randint(1 << 30, 1 << 31); the draws are
        passed in and reduced into that inclusive range. */
    constructor (deckName: string, deckDraw: nat, modelDraw: nat)
      ensures this.deckName == deckName
      ensures IdLow <= deckId <= IdHigh && IdLow <= modelId <= IdHigh
      ensures deckId == IdLow + deckDraw % (IdHigh - IdLow + 1)
      ensures modelId == IdLow + modelDraw % (IdHigh - IdLow + 1)
    {
      this.deckName := deckName;
      deckId := IdLow + deckDraw % (IdHigh - IdLow + 1);
      modelId := IdLow + modelDraw % (IdHigh - IdLow + 1);
    }

    /** add_notes_to_deck(deck, model, translations). */
    method AddNotesToDeck(deck: Deck, translations: seq<Json>, show: Json -> string) returns (addedCount: nat)
      modifies deck
      ensures deck.notes == old(deck.notes) + NotesOf(translations, show)
      ensures addedCount == |NotesOf(translations, show)|
    {
      addedCount := 0;
      for i := 0 to |translations|
        invariant deck.notes == old(deck.notes) + NotesOf(translations[..i], show)
        invariant addedCount == |NotesOf(translations[..i], show)|
      {
        assert translations[..i + 1][..i] == translations[..i];
        var trans := translations[i];
        if trans.JObj? {
          var note := NoteFields(trans.fields, show);
          deck.AddNote(note);
          addedCount := addedCount + 1;
        }
      }
      assert translations[..|translations|] == translations;
    }
  }

  /** create_anki_deck(translations, output_file), with the two id draws
      as parameters: reports whether a package was written and which. */
  method CreateAnkiDeck(translations: seq<Json>, outputFile: string, show: Json -> string,
                        deckDraw: nat, modelDraw: nat)
    returns (ok: bool, written: Option<Package>)
    ensures ok <==> written.Some?
    ensures ok <==> NotesOf(translations, show) != []
    ensures written.Some? ==> written.value.path == outputFile && written.value.notes == NotesOf(translations, show)
    ensures written.Some? ==> written.value.deckName == "Russian Vocabulary"
    ensures written.Some? ==> IdLow <= written.value.deckId <= IdHigh
  {
    var generator := new AnkiDeckGenerator("Russian Vocabulary", deckDraw, modelDraw);
    var deck := new Deck(generator.deckId, generator.deckName);
    var addedCount := generator.AddNotesToDeck(deck, translations, show);
    if addedCount == 0 {
      return false, None;
    }
    ok := true;
    written := Some(Package(outputFile, deck.deckId, deck.name, deck.notes));
  }
}
