/**
 * The project store: the schema a project's `config` file must satisfy, the
 * checks `getProjectConfig` runs before handing a configuration to the engine,
 * and the listing of available projects. A JSON document is a `Value`; what
 * joi accepts is `ParseConfig`, which turns an accepted document into the typed
 * `ProjectConfig` with the schema's defaults filled in.
 */
module Util {
  import opened Wrappers
  import opened Paths
  import Seqs

  /** A JSON value as `fs.readJson` produces it (numbers are kept as integers). */
  datatype Value =
    | Null
    | Bool(b: bool)
    | Num(n: int)
    | Str(s: string)
    | Arr(items: seq<Value>)
    | Obj(fields: map<string, Value>)

  /** The `options` of an object entity: every key optional. */
  datatype EntityOptions = EntityOptions(symlinks: Option<bool>, includes: Option<seq<string>>, excludes: Option<seq<string>>)

  /** The three accepted entity shapes. */
  datatype Entity =
    | StringEntity(path: string)
    | ArrayEntity(items: seq<string>)
    | ObjectEntity(i: string, o: string, options: Option<EntityOptions>)

  /** A validated project configuration; `syncConfig` and `branch` carry their defaults when absent. */
  datatype ProjectConfig = ProjectConfig(
    url: Option<string>,
    readme: Option<string>,
    syncConfig: bool,
    branch: string,
    entities: seq<Entity>)

  const DEFAULT_SYNC_CONFIG := true
  const DEFAULT_BRANCH := "master"

  const CONFIG_KEYS: set<string> := {"url", "readme", "syncConfig", "branch", "entities"}
  const ENTITY_KEYS: set<string> := {"i", "o", "options"}
  const OPTION_KEYS: set<string> := {"symlinks", "include", "exclude"}

  /** `joi.string()`: a string, and not the empty one (joi refuses "" unless allowed). */
  predicate IsText(v: Value) { v.Str? && v.s != "" }

  /** `joi.array().items(joi.string())` on the items of an array. */
  function Texts(vs: seq<Value>): (r: Option<seq<string>>)
    ensures r.Some? <==> forall k :: 0 <= k < |vs| ==> IsText(vs[k])
    ensures r.Some? ==> |r.value| == |vs| && forall k :: 0 <= k < |vs| ==> vs[k] == Str(r.value[k])
  {
    if vs == [] then Some([])
    else if !IsText(vs[0]) then None
    else match Texts(vs[1..])
      case None => None
      case Some(rest) => Some([vs[0].s] + rest)
  }

  /** An optional key: None when present but invalid, Some(None) when absent. */
  function OptionalText(m: map<string, Value>, key: string, ok: string -> bool): Option<Option<string>> {
    if key !in m then Some(None)
    else if IsText(m[key]) && ok(m[key].s) then Some(Some(m[key].s))
    else None
  }

  function OptionalBool(m: map<string, Value>, key: string): Option<Option<bool>> {
    if key !in m then Some(None)
    else if m[key].Bool? then Some(Some(m[key].b))
    else None
  }

  function OptionalTexts(m: map<string, Value>, key: string): Option<Option<seq<string>>> {
    if key !in m then Some(None)
    else if !m[key].Arr? then None
    else match Texts(m[key].items)
      case None => None
      case Some(ts) => Some(Some(ts))
  }

  /** The `options` schema: an object with an optional boolean and two optional string lists. */
  function ParseOptions(v: Value): (r: Option<EntityOptions>)
    ensures r.Some? ==> v.Obj? && v.fields.Keys <= OPTION_KEYS
    ensures r.Some? ==> (r.value.symlinks.Some? <==> "symlinks" in v.fields)
  {
    if !v.Obj? || !(v.fields.Keys <= OPTION_KEYS) then None
    else
      var symlinks := OptionalBool(v.fields, "symlinks");
      var includes := OptionalTexts(v.fields, "include");
      var excludes := OptionalTexts(v.fields, "exclude");
      if symlinks.None? || includes.None? || excludes.None? then None
      else Some(EntityOptions(symlinks.value, includes.value, excludes.value))
  }

  /** The entity alternatives, tried in order: a string, an array of strings, an `{i, o, options}` object. */
  function ParseEntity(v: Value): (r: Option<Entity>)
    ensures r.Some? && v.Str? ==> r.value == StringEntity(v.s) && v.s != ""
    ensures r.Some? && v.Obj? ==> v.fields.Keys <= ENTITY_KEYS && "i" in v.fields && "o" in v.fields && r.value.ObjectEntity?
                                  && v.fields["i"] == Str(r.value.i) && v.fields["o"] == Str(r.value.o)
    ensures v.Null? || v.Bool? || v.Num? ==> r.None?
  {
    match v
    case Str(s) => if s != "" then Some(StringEntity(s)) else None
    case Arr(items) =>
      (match Texts(items)
       case Some(ts) => Some(ArrayEntity(ts))
       case None => None)
    case Obj(m) =>
      if !(m.Keys <= ENTITY_KEYS) || "i" !in m || "o" !in m || !IsText(m["i"]) || !IsText(m["o"]) then None
      else if "options" !in m then Some(ObjectEntity(m["i"].s, m["o"].s, None))
      else
        (match ParseOptions(m["options"])
         case None => None
         case Some(options) => Some(ObjectEntity(m["i"].s, m["o"].s, Some(options))))
    case _ => None
  }

  /** Every item of `entities` must match one of the alternatives. */
  function ParseEntities(vs: seq<Value>): (r: Option<seq<Entity>>)
    ensures r.Some? <==> forall k :: 0 <= k < |vs| ==> ParseEntity(vs[k]).Some?
    ensures r.Some? ==> |r.value| == |vs| && forall k :: 0 <= k < |vs| ==> ParseEntity(vs[k]) == Some(r.value[k])
  {
    if vs == [] then Some([])
    else match ParseEntity(vs[0])
      case None => None
      case Some(e) =>
        match ParseEntities(vs[1..])
        case None => None
        case Some(rest) => Some([e] + rest)
  }

  /**
   * `configSchema.validate(config)`: None on a schema error, otherwise the
   * configuration with `syncConfig` defaulting to true and `branch` to "master".
   * `urlOk` is the URL pattern, which is not modelled.
   */
  function ParseConfig(v: Value, urlOk: string -> bool): (r: Option<ProjectConfig>)
    ensures r.Some? ==> v.Obj? && v.fields.Keys <= CONFIG_KEYS && "entities" in v.fields && v.fields["entities"].Arr?
  {
    if !v.Obj? || !(v.fields.Keys <= CONFIG_KEYS) then None
    else
      var m := v.fields;
      var url := OptionalText(m, "url", urlOk);
      var readme := OptionalText(m, "readme", (s: string) => true);
      var syncConfig := OptionalBool(m, "syncConfig");
      var branch := OptionalText(m, "branch", (s: string) => true);
      if url.None? || readme.None? || syncConfig.None? || branch.None? then None
      else if "entities" !in m || !m["entities"].Arr? then None
      else match ParseEntities(m["entities"].items)
        case None => None
        case Some(entities) =>
          Some(ProjectConfig(url.value, readme.value, syncConfig.value.GetOr(DEFAULT_SYNC_CONFIG),
                             branch.value.GetOr(DEFAULT_BRANCH), entities))
  }

  // ---------------------------------------------------------------------------
  // The JSON form of a configuration, and the round trips with ParseConfig

  function TextsValue(ts: seq<string>): (r: seq<Value>)
    ensures |r| == |ts| && forall k :: 0 <= k < |ts| ==> r[k] == Str(ts[k])
  {
    Seqs.Map(ts, (t: string) => Str(t))
  }

  function OptionsValue(o: EntityOptions): Value {
    var withSymlinks: map<string, Value> := if o.symlinks.Some? then map["symlinks" := Bool(o.symlinks.value)] else map[];
    var withInclude := if o.includes.Some? then withSymlinks["include" := Arr(TextsValue(o.includes.value))] else withSymlinks;
    Obj(if o.excludes.Some? then withInclude["exclude" := Arr(TextsValue(o.excludes.value))] else withInclude)
  }

  function EntityValue(e: Entity): Value {
    match e
    case StringEntity(p) => Str(p)
    case ArrayEntity(items) => Arr(TextsValue(items))
    case ObjectEntity(i, o, options) =>
      var m := map["i" := Str(i), "o" := Str(o)];
      Obj(if options.Some? then m["options" := OptionsValue(options.value)] else m)
  }

  function EntitiesValue(es: seq<Entity>): (r: seq<Value>)
    ensures |r| == |es| && forall k :: 0 <= k < |es| ==> r[k] == EntityValue(es[k])
  {
    Seqs.Map(es, EntityValue)
  }

  /** The document joi's `result.value` is: every key the configuration has, defaults included. */
  function ConfigValue(c: ProjectConfig): Value {
    var m := map["syncConfig" := Bool(c.syncConfig), "branch" := Str(c.branch), "entities" := Arr(EntitiesValue(c.entities))];
    var withUrl := if c.url.Some? then m["url" := Str(c.url.value)] else m;
    Obj(if c.readme.Some? then withUrl["readme" := Str(c.readme.value)] else withUrl)
  }

  /** A document filled with the schema's defaults for the keys it leaves out. */
  function WithDefaults(v: Value): Value
    requires v.Obj?
  {
    var withSync := if "syncConfig" in v.fields then v.fields else v.fields["syncConfig" := Bool(DEFAULT_SYNC_CONFIG)];
    Obj(if "branch" in withSync then withSync else withSync["branch" := Str(DEFAULT_BRANCH)])
  }

  predicate NonEmptyTexts(ts: seq<string>) { forall k :: 0 <= k < |ts| ==> ts[k] != "" }

  predicate WellFormedOptions(o: EntityOptions) {
    (o.includes.Some? ==> NonEmptyTexts(o.includes.value)) && (o.excludes.Some? ==> NonEmptyTexts(o.excludes.value))
  }

  predicate WellFormedEntity(e: Entity) {
    match e
    case StringEntity(p) => p != ""
    case ArrayEntity(items) => NonEmptyTexts(items)
    case ObjectEntity(i, o, options) => i != "" && o != "" && (options.Some? ==> WellFormedOptions(options.value))
  }

  /** What the schema guarantees of an accepted configuration: no empty string anywhere. */
  predicate WellFormed(c: ProjectConfig, urlOk: string -> bool) {
    && (c.url.Some? ==> c.url.value != "" && urlOk(c.url.value))
    && (c.readme.Some? ==> c.readme.value != "")
    && c.branch != ""
    && forall k :: 0 <= k < |c.entities| ==> WellFormedEntity(c.entities[k])
  }

  lemma TextsRoundTrip(ts: seq<string>)
    requires NonEmptyTexts(ts)
    ensures Texts(TextsValue(ts)) == Some(ts)
  {
    var r := Texts(TextsValue(ts));
    assert r.Some?;
    assert r.value == ts;
  }

  lemma TextsValueBack(vs: seq<Value>)
    requires Texts(vs).Some?
    ensures TextsValue(Texts(vs).value) == vs
  {
    assert TextsValue(Texts(vs).value) == vs;
  }

  lemma EntityRoundTrip(e: Entity)
    requires WellFormedEntity(e)
    ensures ParseEntity(EntityValue(e)) == Some(e)
  {
    match e
    case StringEntity(p) =>
    case ArrayEntity(items) => TextsRoundTrip(items);
    case ObjectEntity(i, o, options) =>
      if options.Some? {
        var opts := options.value;
        if opts.includes.Some? { TextsRoundTrip(opts.includes.value); }
        if opts.excludes.Some? { TextsRoundTrip(opts.excludes.value); }
        var ov := OptionsValue(opts);
        assert ov.fields.Keys <= OPTION_KEYS;
        assert ParseOptions(ov) == Some(opts);
      }
  }

  lemma EntityValueBack(v: Value)
    requires ParseEntity(v).Some?
    ensures EntityValue(ParseEntity(v).value) == v
  {
    match v
    case Str(s) =>
    case Arr(items) => TextsValueBack(items);
    case Obj(m) =>
      var e := ParseEntity(v).value;
      var back := EntityValue(e);
      if "options" in m {
        var ov := m["options"];
        var fs := ov.fields;
        var opts := ParseOptions(ov).value;
        if "include" in fs { TextsValueBack(fs["include"].items); }
        if "exclude" in fs { TextsValueBack(fs["exclude"].items); }
        assert OptionsValue(opts).fields == fs;
      }
      assert back.fields == m;
  }

  /** A well-formed configuration, written out as JSON, is accepted and read back unchanged. */
  lemma ParseConfigRoundTrip(c: ProjectConfig, urlOk: string -> bool)
    requires WellFormed(c, urlOk)
    ensures ParseConfig(ConfigValue(c), urlOk) == Some(c)
  {
    var vs := EntitiesValue(c.entities);
    forall k | 0 <= k < |vs|
      ensures ParseEntity(vs[k]) == Some(c.entities[k])
    {
      EntityRoundTrip(c.entities[k]);
    }
    var es := ParseEntities(vs);
    assert es.Some?;
    assert es.value == c.entities;
    var v := ConfigValue(c);
    assert v.fields.Keys <= CONFIG_KEYS;
  }

  /** What validation returns carries exactly the document's content, plus the defaults. */
  lemma ParseConfigKeepsDocument(v: Value, urlOk: string -> bool)
    requires ParseConfig(v, urlOk).Some?
    ensures v.Obj? && ConfigValue(ParseConfig(v, urlOk).value) == WithDefaults(v)
  {
    var c := ParseConfig(v, urlOk).value;
    var m := v.fields;
    var items := m["entities"].items;
    forall k | 0 <= k < |items|
      ensures EntityValue(c.entities[k]) == items[k]
    {
      EntityValueBack(items[k]);
    }
    assert EntitiesValue(c.entities) == items;
    assert ConfigValue(c).fields == WithDefaults(v).fields;
  }

  /** An accepted configuration is well formed, so no entity path or pattern is empty. */
  lemma ParsedIsWellFormed(v: Value, urlOk: string -> bool)
    requires ParseConfig(v, urlOk).Some?
    ensures WellFormed(ParseConfig(v, urlOk).value, urlOk)
  {
    var c := ParseConfig(v, urlOk).value;
    var items := v.fields["entities"].items;
    forall k | 0 <= k < |c.entities|
      ensures WellFormedEntity(c.entities[k])
    {
      assert ParseEntity(items[k]) == Some(c.entities[k]);
    }
  }

  /** `syncConfig` and `branch` take their defaults exactly when the document leaves them out. */
  lemma ParseConfigDefaults(v: Value, urlOk: string -> bool)
    requires ParseConfig(v, urlOk).Some?
    ensures v.Obj?
    ensures "syncConfig" !in v.fields ==> ParseConfig(v, urlOk).value.syncConfig == true
    ensures "syncConfig" in v.fields ==> v.fields["syncConfig"] == Bool(ParseConfig(v, urlOk).value.syncConfig)
    ensures "branch" !in v.fields ==> ParseConfig(v, urlOk).value.branch == "master"
    ensures "branch" in v.fields ==> v.fields["branch"] == Str(ParseConfig(v, urlOk).value.branch)
  {
  }

  /** `entities` is required: a document without it is refused. */
  lemma EntitiesRequired(v: Value, urlOk: string -> bool)
    requires v.Obj? && "entities" !in v.fields
    ensures ParseConfig(v, urlOk) == None
  {
  }

  // ---------------------------------------------------------------------------
  // getProjectPath, getProjectConfig, getAvailableProjects

  /** The four ways `getProjectConfig` fails, in the order it checks them. */
  datatype ConfigError =
    | ProjectPathInvalid
    | ConfigMissing(project: string)
    | InvalidJson(project: string)
    | InvalidConfiguration(project: string)

  /** `${gbckPath}/${projectName}` */
  function ProjectPath(root: string, name: string): string { root + "/" + name }

  /** `getProjectPath`: the project's directory, which must exist. */
  function GetProjectPath(fs: FileSystem, root: string, name: string): (r: Result<string, ConfigError>)
    ensures r.Ok? <==> ProjectPath(root, name) in fs
    ensures r.Ok? ==> r.value == root + "/" + name
    ensures r.Err? ==> r.error == ProjectPathInvalid
  {
    if ProjectPath(root, name) in fs then Ok(ProjectPath(root, name)) else Err(ProjectPathInvalid)
  }

  /**
   * `getProjectConfig`: the project directory must exist, then its `config`
   * file, then the file must hold JSON (`parse` is the JSON parser, None on a
   * syntax error; `contents` holds the readable files), then the schema must
   * accept it. Each check raises its own error, and only once the earlier
   * checks have passed.
   */
  function GetProjectConfig(fs: FileSystem, contents: map<string, string>, parse: string -> Option<Value>,
                            urlOk: string -> bool, root: string, name: string): (r: Result<ProjectConfig, ConfigError>)
    ensures var dir := root + "/" + name;
            var path := dir + "/config";
            && (r == Err(ProjectPathInvalid) <==> dir !in fs)
            && (r == Err(ConfigMissing(name)) <==> dir in fs && path !in fs)
            && (r == Err(InvalidJson(name)) <==>
                  dir in fs && path in fs && (path !in contents || parse(contents[path]).None?))
            && (r == Err(InvalidConfiguration(name)) <==>
                  dir in fs && path in fs && path in contents && parse(contents[path]).Some?
                  && ParseConfig(parse(contents[path]).value, urlOk).None?)
            && (r.Ok? ==>
                  dir in fs && path in fs && path in contents && parse(contents[path]).Some?
                  && ParseConfig(parse(contents[path]).value, urlOk) == Some(r.value))
  {
    match GetProjectPath(fs, root, name)
    case Err(e) => Err(e)
    case Ok(projectPath) =>
      var configPath := projectPath + "/config";
      if configPath !in fs then Err(ConfigMissing(name))
      else if configPath !in contents || parse(contents[configPath]).None? then Err(InvalidJson(name))
      else match ParseConfig(parse(contents[configPath]).value, urlOk)
        case None => Err(InvalidConfiguration(name))
        case Some(c) => Ok(c)
  }

  /** `getAvailableProjects`: the entries of the root listing that are directories, in listing order. */
  function AvailableProjects(fs: FileSystem, root: string, listing: seq<string>): (r: seq<string>)
    requires forall k :: 0 <= k < |listing| ==> Resolve(root, listing[k]) in fs
    ensures forall k :: 0 <= k < |r| ==> r[k] in listing && IsDir(fs, Resolve(root, r[k]))
    ensures forall k :: 0 <= k < |listing| && IsDir(fs, Resolve(root, listing[k])) ==> listing[k] in r
  {
    Seqs.Filter(listing, (a: string) => IsDir(fs, Resolve(root, a)))
  }

  /** The listing is filtered entry by entry, so the available projects keep the listing order. */
  lemma AvailableProjectsOrder(fs: FileSystem, root: string, a: seq<string>, b: seq<string>)
    requires forall k :: 0 <= k < |a + b| ==> Resolve(root, (a + b)[k]) in fs
    ensures forall k :: 0 <= k < |a| ==> Resolve(root, a[k]) in fs
    ensures forall k :: 0 <= k < |b| ==> Resolve(root, b[k]) in fs
    ensures AvailableProjects(fs, root, a + b) == AvailableProjects(fs, root, a) + AvailableProjects(fs, root, b)
  {
    assert forall k :: 0 <= k < |a| ==> (a + b)[k] == a[k];
    assert forall k :: 0 <= k < |b| ==> (a + b)[|a| + k] == b[k];
    Seqs.FilterConcat(a, b, (n: string) => IsDir(fs, Resolve(root, n)));
  }
}
