/**
 * The settings table of the gateway's SQLite database: `init_db` seeds three defaults with
 * `INSERT OR IGNORE`, and `dbg` looks a key up. The table is a map from key to value.
 */
module Settings {
  import opened Wrappers

  const SYSTEM_PROMPT: string := "system_prompt"
  const CONTEXT_LENGTH: string := "context_length"
  const TEMPERATURE: string := "temperature"

  /** The seeded rows, in the order `init_db` inserts them. */
  const DEFAULTS: seq<(string, string)> := [(SYSTEM_PROMPT, ""), (CONTEXT_LENGTH, "20"), (TEMPERATURE, "0.7")]

  /** `INSERT OR IGNORE INTO settings VALUES(k, v)`: adds the row only when the key is absent. */
  function InsertOrIgnore(t: map<string, string>, k: string, v: string): (r: map<string, string>)
    ensures r.Keys == t.Keys + {k}
    ensures forall key :: key in t ==> r[key] == t[key]
    ensures k !in t ==> r[k] == v
  {
    if k in t then t else t[k := v]
  }

  /** The rows of `DEFAULTS[i..]` inserted, in order, into `t`. */
  function SeedFrom(t: map<string, string>, i: nat): (r: map<string, string>)
    requires i <= |DEFAULTS|
    decreases |DEFAULTS| - i
  {
    if i == |DEFAULTS| then t else SeedFrom(InsertOrIgnore(t, DEFAULTS[i].0, DEFAULTS[i].1), i + 1)
  }

  /**
   * The table after `init_db`: the three default keys are present, the rows that were already
   * there keep their values, and a key that was missing gets its default.
   */
  function Seed(t: map<string, string>): (r: map<string, string>)
    ensures r.Keys == t.Keys + {SYSTEM_PROMPT, CONTEXT_LENGTH, TEMPERATURE}
    ensures forall key :: key in t ==> r[key] == t[key]
    ensures SYSTEM_PROMPT !in t ==> r[SYSTEM_PROMPT] == ""
    ensures CONTEXT_LENGTH !in t ==> r[CONTEXT_LENGTH] == "20"
    ensures TEMPERATURE !in t ==> r[TEMPERATURE] == "0.7"
  {
    SeedFrom(t, 0)
  }

  /** Seeding twice is seeding once. */
  lemma SeedIdempotent(t: map<string, string>)
    ensures Seed(Seed(t)) == Seed(t)
  {
    var s := Seed(t);
    assert forall key :: key in s ==> Seed(s)[key] == s[key];
  }

  /** Seeding adds nothing to a table that already has all three keys. */
  lemma SeedKeepsFullTable(t: map<string, string>)
    requires SYSTEM_PROMPT in t && CONTEXT_LENGTH in t && TEMPERATURE in t
    ensures Seed(t) == t
  {
    assert forall key :: key in Seed(t) ==> Seed(t)[key] == t[key];
  }

  /** `dbg(k)`'s answer for table `t`: the stored value, or None (no row). */
  function Lookup(t: map<string, string>, k: string): (r: Option<string>)
    ensures r.Some? <==> k in t
    ensures r.Some? ==> r.value == t[k]
  {
    if k in t then Some(t[k]) else None
  }

  /** The settings table of one database file. */
  class SettingsStore {
    var table: map<string, string>

    /** Opens a database file whose settings table holds `rows` (empty for a new file). */
    constructor (rows: map<string, string>)
      ensures table == rows
    {
      table := rows;
    }

    /** One `INSERT OR IGNORE` statement. */
    method InsertOrIgnoreRow(k: string, v: string)
      modifies this
      ensures table == InsertOrIgnore(old(table), k, v)
    {
      if k !in table {
        table := table[k := v];
      }
    }

    /** `init_db`: the three seeding statements, in order. */
    method InitDb()
      modifies this
      ensures table == Seed(old(table))
    {
      InsertOrIgnoreRow(SYSTEM_PROMPT, "");
      InsertOrIgnoreRow(CONTEXT_LENGTH, "20");
      InsertOrIgnoreRow(TEMPERATURE, "0.7");
    }

    /** `dbg(k)`: `SELECT value FROM settings WHERE key=?`, the value of the row or None. */
    method Get(k: string) returns (v: Option<string>)
      ensures v == Lookup(table, k)
    {
      if k in table {
        v := Some(table[k]);
      } else {
        v := None;
      }
    }
  }

  /** A freshly initialised store answers "0.7" for the temperature and "20" for the context length. */
  method FreshStoreDefaults() returns (temperature: Option<string>, contextLength: Option<string>, other: Option<string>)
    ensures temperature == Some("0.7") && contextLength == Some("20") && other == None
  {
    var store := new SettingsStore(map[]);
    store.InitDb();
    temperature := store.Get(TEMPERATURE);
    contextLength := store.Get(CONTEXT_LENGTH);
    other := store.Get("theme");
  }
}
