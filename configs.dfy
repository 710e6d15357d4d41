/** The wedding configuration routes: GET is get-or-create, PUT is an upsert. Neither checks membership. */
module Configs {
  import opened Wrappers
  import opened Collections
  import opened Store

  /** The PUT body; an absent field is left out of the write. */
  datatype ConfigFields = ConfigFields(groomName: Option<string>, brideName: Option<string>, venue: Option<string>,
                                       logoUrl: Option<string>, importantDates: Option<seq<string>>)

  function FindConfig(configs: seq<WeddingConfig>, workspaceId: Id): Option<WeddingConfig> {
    FindByKey(configs, ConfigWorkspace, workspaceId)
  }

  /** The record GET creates: empty names and venue, no logo, no important dates. */
  function DefaultConfig(workspaceId: Id): WeddingConfig {
    WeddingConfig(workspaceId, Some(""), Some(""), Some(""), None, Some([]))
  }

  /** Every field supplied in `f` has its supplied value in `c`. */
  predicate Carries(c: WeddingConfig, f: ConfigFields) {
    && (f.groomName.Some? ==> c.groomName == f.groomName)
    && (f.brideName.Some? ==> c.brideName == f.brideName)
    && (f.venue.Some? ==> c.venue == f.venue)
    && (f.logoUrl.Some? ==> c.logoUrl == f.logoUrl)
    && (f.importantDates.Some? ==> c.importantDates == f.importantDates)
  }

  /** Every field absent from `f` has in `r` the value it had in `c`. */
  predicate KeepsAbsent(r: WeddingConfig, c: WeddingConfig, f: ConfigFields) {
    && (f.groomName.None? ==> r.groomName == c.groomName)
    && (f.brideName.None? ==> r.brideName == c.brideName)
    && (f.venue.None? ==> r.venue == c.venue)
    && (f.logoUrl.None? ==> r.logoUrl == c.logoUrl)
    && (f.importantDates.None? ==> r.importantDates == c.importantDates)
  }

  function Pick<T>(supplied: Option<T>, current: Option<T>): Option<T> {
    if supplied.Some? then supplied else current
  }

  /** The upsert's `update` branch: supplied fields overwrite, absent ones stay as they were. */
  function Overwrite(c: WeddingConfig, f: ConfigFields): (r: WeddingConfig)
    ensures r.workspaceId == c.workspaceId && Carries(r, f)
    ensures KeepsAbsent(r, c, f)
    ensures f == ConfigFields(None, None, None, None, None) ==> r == c
  {
    WeddingConfig(c.workspaceId, Pick(f.groomName, c.groomName), Pick(f.brideName, c.brideName),
                  Pick(f.venue, c.venue), Pick(f.logoUrl, c.logoUrl), Pick(f.importantDates, c.importantDates))
  }

  /** The upsert's `create` branch: the supplied fields, absent ones null. */
  function FromFields(workspaceId: Id, f: ConfigFields): (r: WeddingConfig)
    ensures r.workspaceId == workspaceId && Carries(r, f)
  {
    WeddingConfig(workspaceId, f.groomName, f.brideName, f.venue, f.logoUrl, f.importantDates)
  }

  /** GET /workspaces/:workspaceId/config. An existing record is returned untouched; otherwise the
      default record is inserted and returned. Either way the workspace then has exactly that record. */
  method GetConfig(db: Db, workspaceId: Id) returns (status: int, config: WeddingConfig)
    requires db.Valid()
    modifies db`configs
    ensures db.Valid()
    ensures status == 200
    ensures FindConfig(db.configs, workspaceId) == Some(config)
    ensures old(FindConfig(db.configs, workspaceId)).Some? ==>
      config == old(FindConfig(db.configs, workspaceId)).value && db.configs == old(db.configs)
    ensures old(FindConfig(db.configs, workspaceId)).None? ==>
      config == DefaultConfig(workspaceId) && db.configs == old(db.configs) + [config]
  {
    var found := FindConfig(db.configs, workspaceId);
    if found.Some? {
      config := found.value;
    } else {
      config := DefaultConfig(workspaceId);
      FindByKeyAppend(db.configs, ConfigWorkspace, config, workspaceId);
      AppendDistinct(db.configs, ConfigWorkspace, config);
      db.configs := db.configs + [config];
    }
    status := 200;
  }

  /** Two GETs in a row return the same record, and the second writes nothing. */
  method GetConfigTwice(db: Db, workspaceId: Id) returns (first: WeddingConfig, second: WeddingConfig)
    requires db.Valid()
    modifies db`configs
    ensures db.Valid()
    ensures first == second
    ensures |db.configs| <= |old(db.configs)| + 1
  {
    var _, c1 := GetConfig(db, workspaceId);
    ghost var afterFirst := db.configs;
    var _, c2 := GetConfig(db, workspaceId);
    assert db.configs == afterFirst;
    first, second := c1, c2;
  }

  /** PUT /workspaces/:workspaceId/config. Afterwards the workspace has exactly one record carrying
      every supplied field, whether or not it had one before; no other workspace's record changes. */
  method PutConfig(db: Db, workspaceId: Id, fields: ConfigFields) returns (status: int, config: WeddingConfig)
    requires db.Valid()
    modifies db`configs
    ensures db.Valid()
    ensures status == 200
    ensures FindConfig(db.configs, workspaceId) == Some(config)
    ensures Carries(config, fields)
    ensures config == match old(FindConfig(db.configs, workspaceId))
                      case Some(c) => Overwrite(c, fields)
                      case None => FromFields(workspaceId, fields)
    ensures |db.configs| == |old(db.configs)| + (if old(FindConfig(db.configs, workspaceId)).Some? then 0 else 1)
    ensures forall w :: w != workspaceId ==> FindConfig(db.configs, w) == old(FindConfig(db.configs, w))
  {
    var k := IndexOfKey(db.configs, ConfigWorkspace, workspaceId);
    if k.Some? {
      FindByKeyDistinct(db.configs, ConfigWorkspace, db.configs[k.value]);
      config := Overwrite(db.configs[k.value], fields);
      ReplaceKeyed(db.configs, ConfigWorkspace, k.value, config);
      forall w ensures FindByKey(db.configs[k.value := config], ConfigWorkspace, w) ==
        (if w == workspaceId then Some(config) else FindByKey(db.configs, ConfigWorkspace, w)) {
        FindByKeyReplace(db.configs, ConfigWorkspace, k.value, config, w);
      }
      db.configs := db.configs[k.value := config];
    } else {
      config := FromFields(workspaceId, fields);
      forall w ensures FindByKey(db.configs + [config], ConfigWorkspace, w) ==
        (if w == workspaceId then Some(config) else FindByKey(db.configs, ConfigWorkspace, w)) {
        FindByKeyAppend(db.configs, ConfigWorkspace, config, w);
      }
      AppendDistinct(db.configs, ConfigWorkspace, config);
      db.configs := db.configs + [config];
    }
    status := 200;
  }
}
