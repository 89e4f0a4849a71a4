/** TranslationCache: the SQLite table of translation results. The table's
    only primary-key column is the word, so a row also names the provider
    that produced it, and storing a word again replaces its row whatever the
    provider. Rows are kept here as a map from the lower-cased word. */
module Cache {
  import opened Text
  import opened JsonValue
  import opened Wrappers

  /** One row: the provider, the result (stored as JSON text and read back
      with json.loads, which gives the same dict) and the time it was stored. */
  datatype CacheRow = CacheRow(provider: string, result: Dict, timestamp: int)

  /** What get(word, provider) finds: the row of the lower-cased word, when
      the database can be read and the row is the given provider's. */
  function Lookup(rows: map<string, CacheRow>, healthy: bool, word: string, provider: string): (r: Option<Dict>)
    ensures r.Some? <==> healthy && Lower(word) in rows && rows[Lower(word)].provider == provider
    ensures r.Some? ==> r.value == rows[Lower(word)].result
  {
    var key := Lower(word);
    if healthy && key in rows && rows[key].provider == provider then Some(rows[key].result) else None
  }

  /** The table after set(word, provider, result) at time now: INSERT OR
      REPLACE on the lower-cased word, or nothing when the database fails. */
  function Stored(rows: map<string, CacheRow>, healthy: bool, word: string, provider: string,
                  result: Dict, now: int): (r: map<string, CacheRow>)
    ensures healthy ==> r.Keys == rows.Keys + {Lower(word)}
    ensures healthy ==> r[Lower(word)] == CacheRow(provider, result, now)
    ensures forall k :: k in rows && k != Lower(word) ==> k in r && r[k] == rows[k]
    ensures !healthy ==> r == rows
  {
    if healthy then rows[Lower(word) := CacheRow(provider, result, now)] else rows
  }

  class TranslationCache {
    /** The translations table, keyed by the lower-cased word. */
    var rows: map<string, CacheRow>
    /** False when the queries fail once connected: the code logs and
        swallows an error of execute or commit, so every get is a miss and
        every set does nothing. A failing connect is not modelled. */
    var healthy: bool

    /** A cache over an empty table (_init_db creates the table if absent). */
    constructor (healthy: bool)
      ensures rows == map[] && this.healthy == healthy
    {
      rows := map[];
      this.healthy := healthy;
    }

    /** get(word, provider). */
    method Get(word: string, provider: string) returns (r: Option<Dict>)
      ensures r == Lookup(rows, healthy, word, provider)
    {
      var key := Lower(word);
      if healthy && key in rows && rows[key].provider == provider {
        r := Some(rows[key].result);
      } else {
        r := None;
      }
    }

    /** set(word, provider, result), at time now. */
    method Set(word: string, provider: string, result: Dict, now: int)
      modifies this
      ensures healthy == old(healthy)
      ensures rows == Stored(old(rows), healthy, word, provider, result, now)
    {
      if healthy {
        rows := rows[Lower(word) := CacheRow(provider, result, now)];
      }
    }
  }

  /** Reading back what was just stored, with the same word and provider,
      gives the stored result. */
  lemma SetThenGet(rows: map<string, CacheRow>, word: string, provider: string, result: Dict, now: int)
    ensures Lookup(Stored(rows, true, word, provider, result, now), true, word, provider) == Some(result)
  {
  }

  /** Case variants of a word share one row: a lookup of the word and of its
      lower-cased form agree. */
  lemma CaseVariantsShareRow(rows: map<string, CacheRow>, healthy: bool, word: string, provider: string)
    ensures Lookup(rows, healthy, word, provider) == Lookup(rows, healthy, Lower(word), provider)
  {
    LowerIdempotent(word);
  }

  /** Because the key is the word alone, storing a word for one provider
      removes what another provider had stored for it. */
  lemma SetForOtherProviderEvicts(rows: map<string, CacheRow>, word: string, provider: string,
                                  other: string, result: Dict, now: int)
    requires other != provider
    ensures Lookup(Stored(rows, true, word, other, result, now), true, word, provider) == None
  {
  }

  /** Storing one word leaves every lookup of a word with another key as it was. */
  lemma SetLeavesOtherWords(rows: map<string, CacheRow>, healthy: bool, word: string, provider: string,
                            result: Dict, now: int, other: string, p: string)
    requires Lower(other) != Lower(word)
    ensures Lookup(Stored(rows, healthy, word, provider, result, now), healthy, other, p)
            == Lookup(rows, healthy, other, p)
  {
  }
}
