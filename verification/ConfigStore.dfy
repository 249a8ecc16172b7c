/** Reading and writing config keys: one lookup by two paths, over rows, an alias and defaults (models/config.py). */
module ConfigStore {
  import opened Basics
  import opened ConfigPaths

  type Values = map<string, Json>

  /** The table, the in-memory defaults, and whether keys (and OAuth keys) persist at all. */
  datatype State = State(rows: Values, defaults: Values, persistent: bool, oauthPersistent: bool)

  const OAUTH := "oauth."

  /** `persistent_enabled_for`. */
  predicate Enabled(s: State, key: string) {
    s.persistent && !(OAUTH <= key && !s.oauthPersistent)
  }

  /** `LEGACY_CONFIG_KEY_ALIASES`. */
  function Alias(key: string): (r: Option<string>)
    ensures r.Some? ==> r.value != key && r.value != "" && !(OAUTH <= key) && !(OAUTH <= r.value)
  {
    if key == "openlaunch.url" then
      assert key[1] != OAUTH[1] && "webui.url"[0] != OAUTH[0] && key[0] != "webui.url"[0];
      Some("webui.url")
    else None
  }

  function FindAlias(m: Values, key: string): (r: Option<Json>) {
    if Alias(key).Some? then Find(m, Alias(key).value) else None
  }

  function Else<T>(a: Option<T>, b: Option<T>): (r: Option<T>) {
    if a.Some? then a else b
  }

  /** What `Config.get` finds: None stands for the caller's default. */
  function Lookup(s: State, key: string): (r: Option<Json>) {
    if !Enabled(s, key) then Find(s.defaults, key)
    else Else(Else(Find(s.rows, key), FindAlias(s.rows, key)), Find(s.defaults, key))
  }

  /** `Config.get_many`: one query for the enabled keys and their aliases. */
  function GetMany(s: State, keys: set<string>): (r: Values) {
    var disabled := map k | k in keys && !Enabled(s, k) && k in s.defaults :: s.defaults[k];
    var enabled := set k | k in keys && Enabled(s, k);
    if enabled == {} then disabled
    else
      var values :=
        map k | k in s.rows && (k in enabled || exists e :: e in enabled && Alias(e) == Some(k)) :: s.rows[k];
      map k | k in keys && (k in values || FindAlias(values, k).Some? || k in s.defaults || k in disabled) ::
        if k in values then values[k]
        else match Find(values, if Alias(k).Some? then Alias(k).value else "")
             case Some(v) => v
             case None => if k in s.defaults then s.defaults[k] else Leaf("")
  }

  /** A key without alias and row is answered by the row of the empty key, when that is requested along with it. */
  predicate AnsweredByEmptyKey(s: State, keys: set<string>, key: string) {
    && "" in keys && Enabled(s, "") && "" in s.rows
    && key != "" && Alias(key).None? && key in s.defaults && !(Enabled(s, key) && key in s.rows)
    && s.rows[""] != s.defaults[key]
  }

  /** `get_many` returns for each requested key exactly what `get` returns and omits exactly the undefined ones,
      except for keys answered by the empty key. */
  lemma GetManyAgreesIff(s: State, keys: set<string>, key: string)
    requires key in keys
    ensures Find(GetMany(s, keys), key) == Lookup(s, key) <==> !AnsweredByEmptyKey(s, keys, key)
  {
    var enabled := set k | k in keys && Enabled(s, k);
    if enabled != {} {
      var values :=
        map k | k in s.rows && (k in enabled || exists e :: e in enabled && Alias(e) == Some(k)) :: s.rows[k];
      assert key in values <==> Enabled(s, key) && key in s.rows;
      assert "" in values <==> "" in keys && Enabled(s, "") && "" in s.rows;
      if Alias(key).Some? {
        assert Enabled(s, key);
        assert FindAlias(values, key) == FindAlias(s.rows, key);
      }
    } else {
      assert key !in enabled;
      assert "" in keys && Enabled(s, "") ==> "" in enabled;
    }
  }

  /** A key with a default, requested along with the empty key, which has a row. */
  lemma EmptyKeyAnswers(key: string, a: Json, b: Json) returns (s: State)
    requires key != "" && Alias(key).None? && a != b
    ensures Lookup(s, key) == Some(b) && Find(GetMany(s, {"", key}), key) == Some(a)
  {
    s := State(map["" := a], map[key := b], true, true);
    var keys := {"", key};
    var enabled := set k | k in keys && Enabled(s, k);
    assert "" in enabled;
    var values := map k | k in s.rows && (k in enabled || exists e :: e in enabled && Alias(e) == Some(k)) :: s.rows[k];
    assert values == map["" := a] && Find(values, "") == Some(a);
    assert key in keys && key !in values && FindAlias(values, key).None?;
  }

  /** No key is requested that `get_many` could confuse: the two paths agree on every key. */
  lemma GetManyAgrees(s: State, keys: set<string>)
    requires "" !in keys || "" !in s.rows
    ensures GetMany(s, keys) == map k | k in keys && Lookup(s, k).Some? :: Lookup(s, k).value
  {
    forall k | k in keys ensures Find(GetMany(s, keys), k) == Lookup(s, k) {
      GetManyAgreesIff(s, keys, k);
    }
    assert forall k :: k in GetMany(s, keys) ==> k in keys;
  }

  /** With persistence off, or for an OAuth key without OAuth persistence, only the defaults count: reads do not look
      at the table, and an upsert changes the default and leaves the row alone. */
  lemma WithoutPersistence(s: State, updates: Values, key: string)
    requires !s.persistent || ("oauth." <= key && !s.oauthPersistent)
    ensures Lookup(s, key) == Find(s.defaults, key)
    ensures forall rows :: Lookup(s.(rows := rows), key) == Lookup(s, key)
    ensures var r := Upserted(s, updates);
            && Find(r.rows, key) == Find(s.rows, key)
            && Find(r.defaults, key) == if key in updates then Some(updates[key]) else Find(s.defaults, key)
  {
  }

  /** Otherwise a stored row answers, then the row of the old name of the one renamed key, then the default; an upsert
      writes the row and leaves the default alone. */
  lemma WithPersistence(s: State, updates: Values, key: string)
    requires s.persistent && (!("oauth." <= key) || s.oauthPersistent)
    ensures key in s.rows ==> Lookup(s, key) == Some(s.rows[key])
    ensures key !in s.rows && key == "openlaunch.url" && "webui.url" in s.rows ==>
              Lookup(s, key) == Some(s.rows["webui.url"])
    ensures key !in s.rows && !(key == "openlaunch.url" && "webui.url" in s.rows) ==>
              Lookup(s, key) == Find(s.defaults, key)
    ensures var r := Upserted(s, updates);
            && Find(r.rows, key) == (if key in updates then Some(updates[key]) else Find(s.rows, key))
            && Find(r.defaults, key) == Find(s.defaults, key)
  {
  }

  /** The updates among `done` for keys that persist, or for keys that do not. */
  function Part(s: State, updates: Values, done: set<string>, persistent: bool): (r: Values) {
    map k | k in updates && k in done && Enabled(s, k) == persistent :: updates[k]
  }

  lemma PartOneMore(s: State, updates: Values, done: set<string>, key: string)
    requires key in updates && key !in done
    ensures forall p :: Part(s, updates, done + {key}, p) ==
              if Enabled(s, key) == p then Part(s, updates, done, p)[key := updates[key]] else Part(s, updates, done, p)
  {
  }

  function Upserted(s: State, updates: Values): (r: State) {
    s.(rows := s.rows + Part(s, updates, updates.Keys, true),
       defaults := s.defaults + Part(s, updates, updates.Keys, false))
  }

  class Config {
    var rows: Values
    var defaults: Values
    const persistent: bool
    const oauthPersistent: bool

    constructor (defaults: Values, persistent: bool, oauthPersistent: bool)
      ensures View() == State(map[], defaults, persistent, oauthPersistent)
    {
      this.rows, this.defaults, this.persistent, this.oauthPersistent := map[], defaults, persistent, oauthPersistent;
    }

    function View(): (s: State)
      reads this
    {
      State(rows, defaults, persistent, oauthPersistent)
    }

    method Get(key: string, default: Json) returns (v: Json)
      ensures v == if Lookup(View(), key).Some? then Lookup(View(), key).value else default
    {
      if !Enabled(View(), key) {
        return if key in defaults then defaults[key] else default;
      }
      if key in rows {
        return rows[key];
      }
      if Alias(key).Some? && Alias(key).value in rows {
        return rows[Alias(key).value];
      }
      v := if key in defaults then defaults[key] else default;
    }

    /** `upsert`: the keys are split first, then the persistent ones are written row by row. */
    method Upsert(updates: Values)
      modifies this
      ensures View() == Upserted(old(View()), updates)
    {
      var persistentUpdates := WriteDefaults(updates);
      WriteRows(persistentUpdates);
    }

    method WriteDefaults(updates: Values) returns (persistentUpdates: Values)
      modifies this`defaults
      ensures persistentUpdates == Part(old(View()), updates, updates.Keys, true)
      ensures defaults == old(defaults) + Part(old(View()), updates, updates.Keys, false)
    {
      ghost var was := View();
      persistentUpdates := map[];
      var todo := updates.Keys;
      assert updates.Keys - todo == {};
      while todo != {}
        invariant todo <= updates.Keys
        invariant persistentUpdates == Part(was, updates, updates.Keys - todo, true)
        invariant defaults == was.defaults + Part(was, updates, updates.Keys - todo, false)
      {
        var key :| key in todo;
        PartOneMore(was, updates, updates.Keys - todo, key);
        assert updates.Keys - (todo - {key}) == (updates.Keys - todo) + {key};
        if Enabled(View(), key) {
          persistentUpdates := persistentUpdates[key := updates[key]];
        } else {
          defaults := defaults[key := updates[key]];
        }
        todo := todo - {key};
      }
      assert updates.Keys - {} == updates.Keys;
    }

    method WriteRows(values: Values)
      modifies this`rows
      ensures rows == old(rows) + values
    {
      var todo := values.Keys;
      while todo != {}
        invariant todo <= values.Keys
        invariant rows == old(rows) + (values - todo)
      {
        var key :| key in todo;
        rows := rows[key := values[key]];
        todo := todo - {key};
      }
      assert values - {} == values;
    }
  }

  /** After an upsert every updated key reads back its value, and every other key is unchanged except through
      its alias. */
  lemma UpsertReads(s: State, updates: Values, key: string)
    ensures Lookup(Upserted(s, updates), key) ==
            if key in updates then Some(updates[key])
            else if Enabled(s, key) && key !in s.rows && FindAlias(updates, key).Some? then FindAlias(updates, key)
            else Lookup(s, key)
  {
    if Alias(key).Some? {
      assert Enabled(s, key) <==> Enabled(s, Alias(key).value);
    }
  }

  function RunUpserts(s: State, us: seq<Values>): (r: State) {
    if us == [] then s else Upserted(RunUpserts(s, us[..|us| - 1]), us[|us| - 1])
  }

  function LastWrite(us: seq<Values>, key: string): (r: Option<Json>) {
    if us == [] then None else Else(Find(us[|us| - 1], key), LastWrite(us[..|us| - 1], key))
  }

  /** The logical map behind a run of upserts: a key's last write; else, for an aliased key without a row of its
      own, the alias's last write; else what was there at the start. */
  function LogicalRead(s: State, us: seq<Values>, key: string): (r: Option<Json>) {
    Else(LastWrite(us, key),
         Else(if Enabled(s, key) && key !in s.rows && Alias(key).Some? then LastWrite(us, Alias(key).value) else None,
              Lookup(s, key)))
  }

  lemma {:induction false} RunRows(s: State, us: seq<Values>, key: string)
    ensures var r := RunUpserts(s, us);
            && r.persistent == s.persistent && r.oauthPersistent == s.oauthPersistent
            && (Enabled(s, key) ==> (key in r.rows <==> key in s.rows || LastWrite(us, key).Some?))
  {
    if us != [] {
      RunRows(s, us[..|us| - 1], key);
    }
  }

  /** Over any run of upserts the store refines that logical map. */
  lemma {:induction false} RunReads(s: State, us: seq<Values>, key: string)
    ensures Lookup(RunUpserts(s, us), key) == LogicalRead(s, us, key)
  {
    if us != [] {
      var init, u := us[..|us| - 1], us[|us| - 1];
      RunReads(s, init, key);
      RunRows(s, init, key);
      UpsertReads(RunUpserts(s, init), u, key);
    }
  }
}
