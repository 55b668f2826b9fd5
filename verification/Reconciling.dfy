/** Bringing the stored plugin tables in line with the loaded manifests: `SettingsStore::reconcile`. */
module Reconciling {

  type Table = map<string, string>
  type Tables = map<string, Table>

  /** One declared setting: the text of its default, and what else its check looks at. */
  datatype SettingDef = SettingDef(default: string, shape: int)
  type Schema = map<string, SettingDef>

  /** `check_setting_bounds`: may a key hold a value under its definition? Defaults themselves may fail it. */
  type Check = (string, string, SettingDef) -> bool

  /** A declared key is left alone when its value passes, and gets its default otherwise. */
  function Settled(check: Check, key: string, def: SettingDef, table: Table): string {
    if key in table && check(key, table[key], def) then table[key] else def.default
  }

  function ReconciledTable(check: Check, schema: Schema, table: Table): Table {
    map key | key in schema :: Settled(check, key, schema[key], table)
  }

  function TableOf(tables: Tables, plugin: string): Table {
    if plugin in tables then tables[plugin] else map[]
  }

  /** The tables afterwards. No loop and no order: one entry per plugin. */
  function ReconciledTables(check: Check, manifests: map<string, Schema>, tables: Tables): Tables {
    map plugin | plugin in tables.Keys + Declared(manifests) ::
      if plugin in manifests && manifests[plugin] != map[]
      then ReconciledTable(check, manifests[plugin], TableOf(tables, plugin))
      else tables[plugin]
  }

  function Declared(manifests: map<string, Schema>): set<string> {
    set plugin | plugin in manifests && manifests[plugin] != map[]
  }

  /** One plugin: stale keys are dropped, then declared keys are filled in or reset, each in whatever order
      the tables happen to be walked. */
  method ReconcileTable(check: Check, schema: Schema, table: Table) returns (entry: Table, changed: bool)
    ensures entry == ReconciledTable(check, schema, table)
    ensures changed <==> entry != table
  {
    entry, changed := table, false;
    var stale := set k | k in entry && k !in schema;
    var todo := stale;
    while todo != {}
      invariant todo <= stale
      invariant entry == table - (stale - todo)
      invariant changed <==> todo != stale
      decreases todo
    {
      var k :| k in todo;
      entry := entry - {k};
      changed := true;
      todo := todo - {k};
    }
    ghost var kept := entry;
    ghost var dropped := changed;
    assert stale - todo == stale;
    assert kept == table - stale;
    var keys := schema.Keys;
    while keys != {}
      invariant keys <= schema.Keys
      invariant forall k :: k in entry <==> k in schema && (k in kept || k !in keys)
      invariant forall k | k in entry :: entry[k] == if k in keys then kept[k] else Settled(check, k, schema[k], kept)
      invariant changed <==> dropped || entry != kept
      decreases keys
    {
      var key :| key in keys;
      var def := schema[key];
      var needsDefault := key !in entry || !check(key, entry[key], def);
      if needsDefault && (key !in entry || entry[key] != def.default) {
        assert key in kept ==> entry[key] == kept[key];
        entry := entry[key := def.default];
        assert key in entry && (key !in kept || entry[key] != kept[key]);
        changed := true;
      }
      keys := keys - {key};
    }
    if dropped {
      var k :| k in stale;
      assert k in table && k !in entry;
    } else {
      assert stale == {};
      assert kept == table;
    }
    assert forall k | k in schema :: Settled(check, k, schema[k], kept) == Settled(check, k, schema[k], table);
    assert entry == ReconciledTable(check, schema, table);
  }

  /** The store's plugin tables and flag. */
  class Store {
    var plugins: Tables
    var dirty: bool

    constructor (plugins: Tables, dirty: bool)
      ensures this.plugins == plugins && this.dirty == dirty
    {
      this.plugins, this.dirty := plugins, dirty;
    }

    /** The result does not depend on the order in which manifests are visited, and the flag returned says
        whether anything in the plugin tables changed. */
    method Reconcile(check: Check, manifests: map<string, Schema>) returns (changed: bool)
      modifies this
      ensures plugins == ReconciledTables(check, manifests, old(plugins))
      ensures changed <==> plugins != old(plugins)
      ensures dirty == (old(dirty) || changed)
    {
      changed := false;
      var todo := Declared(manifests);
      while todo != {}
        invariant todo <= Declared(manifests)
        invariant Progress(check, manifests, old(plugins), plugins, todo)
        invariant dirty == old(dirty)
        invariant changed <==> plugins != old(plugins)
        decreases todo
      {
        var p :| p in todo;
        var entry, touched := ReconcileTable(check, manifests[p], TableOf(plugins, p));
        ProgressStep(check, manifests, old(plugins), plugins, todo, p);
        plugins := plugins[p := entry];
        if touched { changed := true; }
        todo := todo - {p};
      }
      ProgressDone(check, manifests, old(plugins), plugins);
      if changed { dirty := true; }
    }
  }

  /** The tables `now` have been reconciled except for the plugins in `todo`. */
  ghost predicate Progress(check: Check, manifests: map<string, Schema>, before: Tables, now: Tables,
                           todo: set<string>) {
    && now.Keys == before.Keys + (Declared(manifests) - todo)
    && forall p | p in now :: now[p] == (
         if p in Declared(manifests) && p !in todo
         then ReconciledTable(check, manifests[p], TableOf(before, p))
         else before[p])
  }

  lemma ProgressStep(check: Check, manifests: map<string, Schema>, before: Tables, now: Tables,
                     todo: set<string>, p: string)
    requires Progress(check, manifests, before, now, todo) && p in todo && todo <= Declared(manifests)
    ensures var table := TableOf(now, p);
            var entry := ReconciledTable(check, manifests[p], table);
            && Progress(check, manifests, before, now[p := entry], todo - {p})
            && (entry == table ==> now[p := entry] == now)
            && (entry != table ==> now[p := entry] != before)
  {
    var table := TableOf(now, p);
    var entry := ReconciledTable(check, manifests[p], table);
    var now' := now[p := entry];
    assert table == TableOf(before, p);
    assert now'.Keys == before.Keys + (Declared(manifests) - (todo - {p}));
    if p !in now {
      var key :| key in manifests[p];
      assert key in entry;
    }
    if entry != table {
      assert p in now' && now'[p] == entry;
      assert p in before ==> now'[p] != before[p];
    }
  }

  lemma ProgressDone(check: Check, manifests: map<string, Schema>, before: Tables, now: Tables)
    requires Progress(check, manifests, before, now, {})
    ensures now == ReconciledTables(check, manifests, before)
  {
    var after := ReconciledTables(check, manifests, before);
    assert now.Keys == after.Keys;
    forall p | p in now ensures now[p] == after[p] {
    }
  }

  /** A table has exactly the schema's keys, each value valid or its default. */
  predicate Conforms(check: Check, schema: Schema, table: Table) {
    && table.Keys == schema.Keys
    && forall key | key in table :: check(key, table[key], schema[key]) || table[key] == schema[key].default
  }

  /** Each loaded plugin with a non-empty schema has exactly the schema's keys, each value valid or its default. */
  lemma TablesConform(check: Check, manifests: map<string, Schema>, tables: Tables, plugin: string)
    requires plugin in manifests && manifests[plugin] != map[]
    ensures var after := ReconciledTables(check, manifests, tables);
            && plugin in after && Conforms(check, manifests[plugin], after[plugin])
            && (forall key | key in manifests[plugin] && key in TableOf(tables, plugin) &&
                             check(key, TableOf(tables, plugin)[key], manifests[plugin][key]) ::
                  after[plugin][key] == TableOf(tables, plugin)[key])
  {
    assert plugin in Declared(manifests);
  }

  /** Tables of plugins that are not loaded, or declare nothing, are untouched. */
  lemma OthersUntouched(check: Check, manifests: map<string, Schema>, tables: Tables, plugin: string)
    requires plugin !in manifests || manifests[plugin] == map[]
    ensures var after := ReconciledTables(check, manifests, tables);
      (plugin in after <==> plugin in tables) && (plugin in tables ==> after[plugin] == tables[plugin])
  {
    assert plugin !in Declared(manifests);
  }

  lemma SettledTwice(check: Check, schema: Schema, table: Table)
    ensures ReconciledTable(check, schema, ReconciledTable(check, schema, table)) ==
              ReconciledTable(check, schema, table)
  {
  }

  /** A second run changes nothing, even when a default fails its own check. */
  lemma Fixpoint(check: Check, manifests: map<string, Schema>, tables: Tables)
    ensures var once := ReconciledTables(check, manifests, tables);
      ReconciledTables(check, manifests, once) == once
  {
    var once := ReconciledTables(check, manifests, tables);
    var twice := ReconciledTables(check, manifests, once);
    assert Declared(manifests) <= once.Keys;
    assert twice.Keys == once.Keys;
    forall p | p in once ensures twice[p] == once[p] {
      if p in Declared(manifests) {
        SettledTwice(check, manifests[p], TableOf(tables, p));
      }
    }
  }

  /** A table is unchanged exactly when it conforms already. */
  lemma ConformingIffSettled(check: Check, schema: Schema, table: Table)
    ensures ReconciledTable(check, schema, table) == table <==> Conforms(check, schema, table)
  {
    var after := ReconciledTable(check, schema, table);
    assert after.Keys == schema.Keys;
    if after == table {
      forall key | key in table ensures check(key, table[key], schema[key]) || table[key] == schema[key].default {
        assert after[key] == table[key];
      }
    }
  }

  /** Nothing changes exactly when every declared table is there and conforms. */
  lemma UnchangedIffConforming(check: Check, manifests: map<string, Schema>, tables: Tables)
    ensures ReconciledTables(check, manifests, tables) == tables <==>
            forall p | p in Declared(manifests) :: p in tables && Conforms(check, manifests[p], tables[p])
  {
    var after := ReconciledTables(check, manifests, tables);
    assert after.Keys == tables.Keys + Declared(manifests);
    forall p | p in Declared(manifests) && p in tables
      ensures after[p] == tables[p] <==> Conforms(check, manifests[p], tables[p])
    {
      ConformingIffSettled(check, manifests[p], tables[p]);
    }
    if forall p | p in Declared(manifests) :: p in tables && Conforms(check, manifests[p], tables[p]) {
      assert after.Keys == tables.Keys;
      forall p | p in after ensures after[p] == tables[p] { }
    }
  }
}
