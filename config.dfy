/** The configuration of the posting CLI (`core/config.js`): the defaults,
    the renaming of legacy keys, the merge with the defaults and the
    environment, and validation. */
module Config {
  import opened Wrappers
  import opened Strings
  import opened Sorting
  import opened JsValues

  // ---------------------------------------------------------------------
  // Defaults

  const DefaultFixedTimes: seq<Js> := [Str("09:00"), Str("12:00"), Str("15:00"), Str("18:00"), Str("21:00")]

  const DefaultPosting: map<string, Js> := map[
    "use" := Bool(true),
    "scheduleType" := Str("interval"),
    "startDate" := Str("auto"),
    "interval" := Num(0.5),
    "postTime" := Str("auto"),
    "autoTimeOffset" := Num(30.0),
    "fixedTimes" := Arr(DefaultFixedTimes),
    "skipWeekends" := Bool(false)]

  const ApiKeyNames: seq<string> := ["apiKey", "apiKeySecret", "accessToken", "accessTokenSecret"]

  const DefaultTwitterApi: map<string, Js> := map[
    "apiKey" := Str(""), "apiKeySecret" := Str(""), "accessToken" := Str(""), "accessTokenSecret" := Str("")]

  const DefaultConfig: Js := Obj(map["posting" := Obj(DefaultPosting), "twitterApi" := Obj(DefaultTwitterApi)])

  // ---------------------------------------------------------------------
  // setNestedValue

  /** `setNestedValue` once the path is split: every missing or false
      intermediate property becomes `{}`, then the last key is assigned.
      The objects are values here, rebuilt on the way back up. */
  function SetKeys(cur: Js, keys: seq<string>, value: Js): Result<Js, JsError>
    requires |keys| >= 1
    decreases |keys|
  {
    if |keys| == 1 then Put(cur, keys[0], value)
    else
      var k := keys[0];
      var got := Get(cur, k);
      if got.Err? then Err(got.error)
      else if Truthy(got.value) then
        var inner := SetKeys(got.value, keys[1..], value);
        if inner.Err? then inner else Put(cur, k, inner.value)
      else
        var made := Put(cur, k, Obj(map[]));
        if made.Err? then made
        else
          var next := Get(made.value, k);
          if next.Err? then Err(next.error)
          else
            var inner := SetKeys(next.value, keys[1..], value);
            if inner.Err? then inner else if made.value.Obj? then Put(made.value, k, inner.value) else made
  }

  function SetNestedValue(obj: Js, path: string, value: Js): Result<Js, JsError> {
    SetKeys(obj, Split(path, '.'), value)
  }

  /** The paths of the migration are `posting.` and a field name. */
  lemma PostingPath(f: string)
    requires '.' !in f
    ensures Split("posting." + f, '.') == ["posting", f]
  {
    assert Join(["posting", f], ".") == "posting." + f;
    SplitJoin(["posting", f], '.');
  }

  /** Setting `posting.f` on an object whose `posting` is an object, or is
      missing or false, stores the value in that object or in a new one. */
  lemma SetPostingField(m: map<string, Js>, f: string, v: Js)
    requires '.' !in f
    ensures var r := SetNestedValue(Obj(m), "posting." + f, v);
      var base := if "posting" in m && m["posting"].Obj? then m["posting"].props else map[];
      ("posting" !in m || !Truthy(m["posting"]) || m["posting"].Obj?) ==> r == Ok(Obj(m["posting" := Obj(base[f := v])]))
  {
    PostingPath(f);
    var keys := ["posting", f];
    assert keys[1..] == [f];
    if "posting" in m && Truthy(m["posting"]) && m["posting"].Obj? {
      assert SetKeys(m["posting"], [f], v) == Ok(Obj(m["posting"].props[f := v]));
    } else if "posting" !in m || !Truthy(m["posting"]) {
      var m1 := m["posting" := Obj(map[])];
      assert SetKeys(Obj(map[]), [f], v) == Ok(Obj(map[][f := v]));
      assert m1["posting" := Obj(map[][f := v])] == m["posting" := Obj(map[][f := v])];
    }
  }

  /** A `posting` value that is true but not an object swallows the
      assignment. */
  lemma SetPostingFieldLost(m: map<string, Js>, f: string, v: Js)
    requires '.' !in f
    requires "posting" in m && Truthy(m["posting"]) && !m["posting"].Obj?
    ensures SetNestedValue(Obj(m), "posting." + f, v) == Ok(Obj(m))
  {
    PostingPath(f);
    assert ["posting", f][1..] == [f];
    assert SetKeys(m["posting"], [f], v) == Ok(m["posting"]);
    assert m["posting" := m["posting"]] == m;
  }

  // ---------------------------------------------------------------------
  // migrateLegacyConfig

  /** `LEGACY_KEY_MAP`: each legacy key and the field of `posting` it moves
      to (its path is `posting.` and the field). */
  const LegacyKeyMap: seq<(string, string)> := [
    ("useScheduledPosting", "use"),
    ("scheduledPostingStartDate", "startDate"),
    ("scheduledPostingInterval", "interval"),
    ("scheduledPostingTime", "postTime"),
    ("scheduledPostingAutoTimeOffset", "autoTimeOffset"),
    ("scheduledPostingSkipWeekends", "skipWeekends")]

  lemma LegacyKeyMapShape()
    ensures forall i :: 0 <= i < |LegacyKeyMap| ==> '.' !in LegacyKeyMap[i].1 && LegacyKeyMap[i].0 != "posting"
    ensures forall i, j :: 0 <= i < j < |LegacyKeyMap| ==> LegacyKeyMap[i].0 != LegacyKeyMap[j].0 && LegacyKeyMap[i].1 != LegacyKeyMap[j].1
  {
  }

  /** `JSON.parse(JSON.stringify(config))`: `undefined` has no JSON text,
      so parsing it throws; any other value is copied unchanged. JSON would
      also drop properties whose value is `undefined` and turn `undefined`
      array items into `null`; the values `loadConfig` passes here come
      from `JSON.parse` or the defaults and hold no `undefined`. */
  function JsonCopy(config: Js): Result<Js, JsError> {
    if config == Undefined then Err(SyntaxError) else Ok(config)
  }

  /** One turn of the migration loop for a legacy key `legacy` and field `f`:
      a key whose value is not `undefined` is stored under `posting.f` of
      the copy and deleted from it. */
  function MigrateStep(config: Js, acc: Result<Js, JsError>, legacy: string, f: string): Result<Js, JsError> {
    if acc.Err? then acc
    else
      var v := Get(config, legacy);
      if v.Err? then Err(v.error)
      else if v.value == Undefined then acc
      else
        var stored := SetNestedValue(acc.value, "posting." + f, v.value);
        if stored.Err? then stored else Ok(Delete(stored.value, legacy))
  }

  /** The migration loop over a list of (legacy key, field) pairs. */
  function MigrateKeys(config: Js, pairs: seq<(string, string)>): Result<Js, JsError> {
    if |pairs| == 0 then JsonCopy(config)
    else
      var last := pairs[|pairs| - 1];
      MigrateStep(config, MigrateKeys(config, pairs[..|pairs| - 1]), last.0, last.1)
  }

  function Migrated(config: Js): Result<Js, JsError> {
    MigrateKeys(config, LegacyKeyMap)
  }

  /** Once a step fails, the migration fails with the same error. */
  lemma {:induction false} MigrateErrStays(config: Js, pairs: seq<(string, string)>, i: nat)
    requires i <= |pairs|
    requires MigrateKeys(config, pairs[..i]).Err?
    ensures MigrateKeys(config, pairs) == MigrateKeys(config, pairs[..i])
    decreases |pairs| - i
  {
    if i < |pairs| {
      assert pairs[..i + 1][..i] == pairs[..i];
      MigrateErrStays(config, pairs, i + 1);
    } else {
      assert pairs[..i] == pairs;
    }
  }

  /** `migrateLegacyConfig`. */
  method MigrateLegacyConfig(config: Js) returns (r: Result<Js, JsError>)
    ensures r == Migrated(config)
  {
    if config == Undefined {
      MigrateErrStays(config, LegacyKeyMap, 0);
      return Err(SyntaxError);
    }
    var newConfig := config;
    var i := 0;
    while i < |LegacyKeyMap|
      invariant i <= |LegacyKeyMap|
      invariant MigrateKeys(config, LegacyKeyMap[..i]) == Ok(newConfig)
    {
      var (oldKey, field) := LegacyKeyMap[i];
      assert LegacyKeyMap[..i + 1][..i] == LegacyKeyMap[..i];
      var value := Get(config, oldKey);
      if value.Err? {
        MigrateErrStays(config, LegacyKeyMap, i + 1);
        return Err(value.error);
      }
      if value.value != Undefined {
        var stored := SetNestedValue(newConfig, "posting." + field, value.value);
        if stored.Err? {
          MigrateErrStays(config, LegacyKeyMap, i + 1);
          return stored;
        }
        newConfig := Delete(stored.value, oldKey);
      }
      i := i + 1;
    }
    assert LegacyKeyMap[..i] == LegacyKeyMap;
    return Ok(newConfig);
  }

  // ---------------------------------------------------------------------
  // What the migration does to an object

  /** A legacy key that the migration moves: present and not `undefined`. */
  predicate Present(m: map<string, Js>, k: string) {
    k in m && m[k] != Undefined
  }

  function FieldsOf(pairs: seq<(string, string)>): (fs: seq<string>)
    ensures |fs| == |pairs| && forall i :: 0 <= i < |pairs| ==> fs[i] == pairs[i].1
  {
    seq(|pairs|, i requires 0 <= i < |pairs| => pairs[i].1)
  }

  /** The pairs the migration can use: fields without a dot, legacy keys
      other than `posting`, and no key or field twice. */
  predicate WellFormed(pairs: seq<(string, string)>) {
    (forall i :: 0 <= i < |pairs| ==> '.' !in pairs[i].1 && pairs[i].0 != "posting")
    && Distinct(KeysOf(pairs)) && Distinct(FieldsOf(pairs))
  }

  lemma LegacyKeyMapWellFormed()
    ensures WellFormed(LegacyKeyMap)
  {
    LegacyKeyMapShape();
  }

  /** Whether a legacy key of `pairs` is present. */
  predicate AnyPresent(m: map<string, Js>, pairs: seq<(string, string)>) {
    exists i :: 0 <= i < |pairs| && Present(m, pairs[i].0)
  }

  /** The fields that receive a value. */
  function Written(m: map<string, Js>, pairs: seq<(string, string)>): seq<string> {
    if |pairs| == 0 then []
    else
      var last := pairs[|pairs| - 1];
      Written(m, pairs[..|pairs| - 1]) + (if Present(m, last.0) then [last.1] else [])
  }

  /** `posting` can take the new fields: missing, false, or an object. */
  predicate PostingWritable(m: map<string, Js>) {
    "posting" !in m || !Truthy(m["posting"]) || m["posting"].Obj?
  }

  /** The fields `posting` already has. */
  function PostingBase(m: map<string, Js>): map<string, Js> {
    if "posting" in m && m["posting"].Obj? then m["posting"].props else map[]
  }

  /** Agreement of two objects on key `k`. */
  predicate SameAt(a: map<string, Js>, b: map<string, Js>, k: string) {
    (k in a <==> k in b) && (k in a ==> a[k] == b[k])
  }

  /** The fields of the new `posting`: each present legacy value under its
      field, every other field as it was. */
  ghost predicate PostingFacts(m: map<string, Js>, pairs: seq<(string, string)>, p: map<string, Js>) {
    (forall i :: 0 <= i < |pairs| && Present(m, pairs[i].0) ==> pairs[i].1 in p && p[pairs[i].1] == m[pairs[i].0])
    && (forall f :: f !in Written(m, pairs) ==> SameAt(p, PostingBase(m), f))
  }

  /** The configuration after the pairs: present legacy keys are gone,
      absent ones and all other keys are as they were, and `posting` is
      untouched unless some legacy key was moved into it. */
  ghost predicate MigrateFacts(m: map<string, Js>, pairs: seq<(string, string)>, r: map<string, Js>) {
    (forall i :: 0 <= i < |pairs| ==> if Present(m, pairs[i].0) then pairs[i].0 !in r else SameAt(r, m, pairs[i].0))
    && (forall k :: k !in KeysOf(pairs) && k != "posting" ==> SameAt(r, m, k))
    && (if AnyPresent(m, pairs) then "posting" in r && r["posting"].Obj? && PostingFacts(m, pairs, r["posting"].props)
        else r == m)
  }

  lemma MigrateAbsentStep(m: map<string, Js>, pairs: seq<(string, string)>, k: string, f: string, r: map<string, Js>)
    requires !Present(m, k) && k !in KeysOf(pairs) && k != "posting"
    requires MigrateFacts(m, pairs, r)
    ensures MigrateStep(Obj(m), Ok(Obj(r)), k, f) == Ok(Obj(r))
    ensures MigrateFacts(m, pairs + [(k, f)], r)
  {
    var ps := pairs + [(k, f)];
    assert ps[..|pairs|] == pairs;
    assert Written(m, ps) == Written(m, pairs);
    assert KeysOf(ps) == KeysOf(pairs) + [k];
    assert AnyPresent(m, ps) == AnyPresent(m, pairs);
  }

  lemma PostingStep(m: map<string, Js>, pairs: seq<(string, string)>, k: string, f: string, base: map<string, Js>)
    requires Present(m, k) && f !in FieldsOf(pairs)
    requires if AnyPresent(m, pairs) then PostingFacts(m, pairs, base) else base == PostingBase(m)
    ensures PostingFacts(m, pairs + [(k, f)], base[f := m[k]])
  {
    var ps := pairs + [(k, f)];
    var p := base[f := m[k]];
    assert ps[..|pairs|] == pairs;
    assert Written(m, ps) == Written(m, pairs) + [f];
    forall i | 0 <= i < |ps| && Present(m, ps[i].0)
      ensures ps[i].1 in p && p[ps[i].1] == m[ps[i].0]
    {
      if i < |pairs| {
        assert AnyPresent(m, pairs) by { assert Present(m, pairs[i].0); }
        assert FieldsOf(pairs)[i] == ps[i].1;
      }
    }
  }

  lemma MigratePresentStep(m: map<string, Js>, pairs: seq<(string, string)>, k: string, f: string, r: map<string, Js>)
    requires Present(m, k) && k !in KeysOf(pairs) && k != "posting" && f !in FieldsOf(pairs) && '.' !in f
    requires "posting" !in KeysOf(pairs)
    requires PostingWritable(m) && MigrateFacts(m, pairs, r)
    ensures var base := if AnyPresent(m, pairs) then r["posting"].props else PostingBase(m);
      var r' := r["posting" := Obj(base[f := m[k]])] - {k};
      MigrateStep(Obj(m), Ok(Obj(r)), k, f) == Ok(Obj(r')) && MigrateFacts(m, pairs + [(k, f)], r')
  {
    SetPostingField(r, f, m[k]);
    var ps := pairs + [(k, f)];
    var base := if AnyPresent(m, pairs) then r["posting"].props else PostingBase(m);
    var p := base[f := m[k]];
    var r' := r["posting" := Obj(p)] - {k};
    assert ps[..|pairs|] == pairs;
    assert KeysOf(ps) == KeysOf(pairs) + [k];
    assert AnyPresent(m, ps) by { assert Present(m, ps[|pairs|].0); }
    PostingStep(m, pairs, k, f, base);
    forall i | 0 <= i < |ps|
      ensures if Present(m, ps[i].0) then ps[i].0 !in r' else SameAt(r', m, ps[i].0)
    {
      if i < |pairs| {
        assert ps[i] == pairs[i];
        assert KeysOf(pairs)[i] == pairs[i].0;
        var key := pairs[i].0;
        assert key != k && key != "posting";
        if !Present(m, key) {
          assert SameAt(r, m, key);
        }
      }
    }
  }

  lemma DistinctSnoc(s: seq<string>, x: string)
    requires Distinct(s + [x])
    ensures Distinct(s) && x !in s
  {
    forall i | 0 <= i < |s| ensures s[i] != x {
      assert (s + [x])[i] == s[i] && (s + [x])[|s|] == x;
    }
    forall i, j | 0 <= i < j < |s| ensures s[i] != s[j] {
      assert (s + [x])[i] == s[i] && (s + [x])[j] == s[j];
    }
  }

  lemma {:induction false} MigrateObject(m: map<string, Js>, pairs: seq<(string, string)>)
    requires WellFormed(pairs) && PostingWritable(m)
    ensures MigrateKeys(Obj(m), pairs).Ok? && MigrateKeys(Obj(m), pairs).value.Obj?
    ensures MigrateFacts(m, pairs, MigrateKeys(Obj(m), pairs).value.props)
  {
    if |pairs| > 0 {
      var n := |pairs| - 1;
      var init := pairs[..n];
      var (k, f) := pairs[n];
      assert pairs == init + [(k, f)];
      assert KeysOf(pairs) == KeysOf(init) + [k];
      assert FieldsOf(pairs) == FieldsOf(init) + [f];
      DistinctSnoc(KeysOf(init), k);
      DistinctSnoc(FieldsOf(init), f);
      assert "posting" !in KeysOf(init);
      MigrateObject(m, init);
      var r := MigrateKeys(Obj(m), init).value.props;
      if Present(m, k) {
        MigratePresentStep(m, init, k, f, r);
      } else {
        MigrateAbsentStep(m, init, k, f, r);
      }
    }
  }

  lemma {:induction false} WrittenAreFields(m: map<string, Js>, pairs: seq<(string, string)>, f: string)
    requires f in Written(m, pairs)
    ensures f in FieldsOf(pairs)
  {
    var n := |pairs| - 1;
    if f in Written(m, pairs[..n]) {
      WrittenAreFields(m, pairs[..n], f);
      var j :| 0 <= j < n && FieldsOf(pairs[..n])[j] == f;
      assert FieldsOf(pairs)[j] == f;
    } else {
      assert FieldsOf(pairs)[n] == f;
    }
  }

  /** `migrateLegacyConfig` on an object whose `posting` can take fields:
      every present legacy key is removed and its value is found under its
      new field of `posting`; the other fields of `posting` and the other
      keys keep their values; and without legacy keys nothing changes. */
  lemma MigrateLegacyObject(m: map<string, Js>)
    requires PostingWritable(m)
    ensures Migrated(Obj(m)).Ok? && Migrated(Obj(m)).value.Obj?
    ensures var r := Migrated(Obj(m)).value.props;
      forall i :: 0 <= i < |LegacyKeyMap| && Present(m, LegacyKeyMap[i].0) ==>
        LegacyKeyMap[i].0 !in r && "posting" in r && r["posting"].Obj?
        && LegacyKeyMap[i].1 in r["posting"].props && r["posting"].props[LegacyKeyMap[i].1] == m[LegacyKeyMap[i].0]
    ensures var r := Migrated(Obj(m)).value.props;
      forall k :: k !in KeysOf(LegacyKeyMap) && k != "posting" ==> SameAt(r, m, k)
    ensures var r := Migrated(Obj(m)).value.props;
      AnyPresent(m, LegacyKeyMap) ==> forall f :: f !in FieldsOf(LegacyKeyMap) ==> SameAt(r["posting"].props, PostingBase(m), f)
    ensures !AnyPresent(m, LegacyKeyMap) ==> Migrated(Obj(m)) == Ok(Obj(m))
  {
    LegacyKeyMapWellFormed();
    MigrateObject(m, LegacyKeyMap);
    forall f | f !in FieldsOf(LegacyKeyMap) ensures f !in Written(m, LegacyKeyMap) {
      if f in Written(m, LegacyKeyMap) {
        WrittenAreFields(m, LegacyKeyMap, f);
      }
    }
  }

  /** `migrateLegacyConfig` on a value that is not an object: `null` throws
      on the first legacy key, other values come back unchanged. */
  lemma {:induction false} MigratePrimitive(v: Js, pairs: seq<(string, string)>)
    requires !v.Obj? && v != Undefined
    ensures v == Null && |pairs| > 0 ==> MigrateKeys(v, pairs) == Err(TypeError)
    ensures v != Null ==> MigrateKeys(v, pairs) == Ok(v)
    ensures v == Null && |pairs| == 0 ==> MigrateKeys(v, pairs) == Ok(v)
  {
    if |pairs| > 0 {
      MigratePrimitive(v, pairs[..|pairs| - 1]);
    }
  }

  // ---------------------------------------------------------------------
  // loadConfig: defaults, migration, merge, environment

  /** `process.env.A || process.env.B || ''`. */
  function EnvOr(env: map<string, string>, a: string, b: string): (v: string)
    ensures v != "" ==> (a in env && v == env[a]) || (b in env && v == env[b])
    ensures v == "" <==> (a !in env || env[a] == "") && (b !in env || env[b] == "")
  {
    if a in env && env[a] != "" then env[a] else if b in env && env[b] != "" then env[b] else ""
  }

  /** `getApiKeysFromEnv`. */
  function EnvKeys(env: map<string, string>): map<string, Js> {
    map[
      "apiKey" := Str(EnvOr(env, "TW_API_KEY", "TWITTER_API_KEY")),
      "apiKeySecret" := Str(EnvOr(env, "TW_API_KEY_SECRET", "TWITTER_API_KEY_SECRET")),
      "accessToken" := Str(EnvOr(env, "TW_ACCESS_TOKEN", "TWITTER_ACCESS_TOKEN")),
      "accessTokenSecret" := Str(EnvOr(env, "TW_ACCESS_TOKEN_SECRET", "TWITTER_ACCESS_TOKEN_SECRET"))]
  }

  /** The merged configuration: `posting` and `twitterApi` of the file
      spread over their defaults; nothing else of the file is kept. */
  function MergeDefaults(config: Js): Result<map<string, Js>, JsError> {
    var posting := Get(config, "posting");
    if posting.Err? then Err(posting.error)
    else
      var api := Get(config, "twitterApi");
      Ok(map[
      "posting" := Obj(SpreadMerge(Obj(DefaultPosting), posting.value)),
      "twitterApi" := Obj(SpreadMerge(Obj(DefaultTwitterApi), api.value))])
  }

  /** The environment fills `twitterApi` only when the merged `apiKey` is
      false and the environment has an API key; then all four keys come
      from the environment. */
  function WithEnvKeys(api: map<string, Js>, env: map<string, string>): map<string, Js> {
    var fromEnv := EnvKeys(env);
    if !Truthy(if "apiKey" in api then api["apiKey"] else Undefined) && fromEnv["apiKey"] != Str("") then api + fromEnv
    else api
  }

  /** How reading and parsing `configs/sns.json` ended. */
  datatype ReadOutcome =
    | NotFound          // ENOENT
    | ReadFailed        // any other read error
    | Unparsable        // the text is not JSON
    | Parsed(value: Js)

  datatype LoadError = FileError | ParseError | Thrown(error: JsError)

  /** `loadConfig`: a missing file means a copy of the defaults, any other
      failure is thrown; then migration, merge and the environment. */
  function LoadConfig(read: ReadOutcome, env: map<string, string>): Result<Js, LoadError> {
    match read
    case NotFound => Prepared(DefaultConfig, env)
    case ReadFailed => Err(FileError)
    case Unparsable => Err(ParseError)
    case Parsed(v) => Prepared(v, env)
  }

  /** What `loadConfig` makes of the parsed file: migration, merge with the
      defaults and the environment. */
  function Prepared(config: Js, env: map<string, string>): Result<Js, LoadError> {
    var migrated := Migrated(config);
    if migrated.Err? then Err(Thrown(migrated.error))
    else
      var merged := MergeDefaults(migrated.value);
      if merged.Err? then Err(Thrown(merged.error))
      else Ok(Obj(merged.value["twitterApi" := Obj(WithEnvKeys(merged.value["twitterApi"].props, env))]))
  }

  /** The merged `posting` and `twitterApi` hold every default key, the
      file's values win, and the defaults fill the rest. */
  lemma MergeKeepsDefaults(config: Js)
    requires config != Undefined && config != Null
    ensures MergeDefaults(config).Ok?
    ensures var r := MergeDefaults(config).value;
      var p := Get(config, "posting").value;
      var a := Get(config, "twitterApi").value;
      && r.Keys == {"posting", "twitterApi"}
      && r["posting"].Obj? && r["twitterApi"].Obj?
      && (forall k :: k in DefaultPosting ==> k in r["posting"].props)
      && (forall k :: k in DefaultTwitterApi ==> k in r["twitterApi"].props)
      && (forall k :: p.Obj? && k in p.props ==> r["posting"].props[k] == p.props[k])
      && (forall k :: a.Obj? && k in a.props ==> r["twitterApi"].props[k] == a.props[k])
      && (forall k :: k in DefaultPosting && !(p.Obj? && k in p.props) ==> r["posting"].props[k] == DefaultPosting[k])
      && (forall k :: k in DefaultTwitterApi && !(a.Obj? && k in a.props) ==> r["twitterApi"].props[k] == DefaultTwitterApi[k])
  {
  }

  /** The environment replaces the API keys exactly when the merged
      `apiKey` is false and the environment's API key is not empty. */
  lemma EnvFallback(api: map<string, Js>, env: map<string, string>)
    requires forall k :: k in DefaultTwitterApi ==> k in api
    ensures var r := WithEnvKeys(api, env);
      var envKey := EnvOr(env, "TW_API_KEY", "TWITTER_API_KEY");
      if !Truthy(api["apiKey"]) && envKey != "" then
        r == api + EnvKeys(env) && r["apiKey"] == Str(envKey)
        && r["apiKeySecret"] == Str(EnvOr(env, "TW_API_KEY_SECRET", "TWITTER_API_KEY_SECRET"))
        && r["accessToken"] == Str(EnvOr(env, "TW_ACCESS_TOKEN", "TWITTER_ACCESS_TOKEN"))
        && r["accessTokenSecret"] == Str(EnvOr(env, "TW_ACCESS_TOKEN_SECRET", "TWITTER_ACCESS_TOKEN_SECRET"))
      else r == api
  {
  }

  /** The default configuration has no legacy keys. */
  lemma DefaultsNeedNoMigration()
    ensures Migrated(DefaultConfig) == Ok(DefaultConfig)
  {
    var m := DefaultConfig.props;
    forall i | 0 <= i < |LegacyKeyMap| ensures !Present(m, LegacyKeyMap[i].0) {
      LegacyKeyMapShape();
    }
    MigrateLegacyObject(m);
  }

  /** Read and parse failures other than a missing file are errors, and
      so is a file holding `null`. */
  lemma LoadFailures(env: map<string, string>)
    ensures LoadConfig(ReadFailed, env) == Err(FileError)
    ensures LoadConfig(Unparsable, env) == Err(ParseError)
    ensures LoadConfig(Parsed(Null), env) == Err(Thrown(TypeError))
  {
    MigratePrimitive(Null, LegacyKeyMap);
  }

  /** A missing file loads the defaults, with the API keys from the
      environment when it has an API key. */
  lemma LoadWithoutFile(env: map<string, string>)
    ensures LoadConfig(NotFound, env) ==
      Ok(Obj(map["posting" := Obj(DefaultPosting), "twitterApi" := Obj(WithEnvKeys(DefaultTwitterApi, env))]))
  {
    DefaultsNeedNoMigration();
    SpreadSelf(DefaultPosting);
    SpreadSelf(DefaultTwitterApi);
    assert MergeDefaults(DefaultConfig) == Ok(DefaultConfig.props);
    ReplaceApi(Obj(DefaultPosting), Obj(DefaultTwitterApi), Obj(WithEnvKeys(DefaultTwitterApi, env)));
  }

  lemma ReplaceApi(p: Js, a: Js, b: Js)
    ensures map["posting" := p, "twitterApi" := a]["twitterApi" := b] == map["posting" := p, "twitterApi" := b]
  {
  }

  lemma SpreadSelf(d: map<string, Js>)
    ensures SpreadMerge(Obj(d), Obj(d)) == d
  {
    assert d + d == d;
  }

  /** What the migration leaves in `posting` for an object: the legacy
      values under their fields and the other fields as they were. */
  lemma MigratedPosting(m: map<string, Js>) returns (p: map<string, Js>)
    requires PostingWritable(m)
    ensures Migrated(Obj(m)).Ok? && Migrated(Obj(m)).value.Obj?
    ensures var c := Migrated(Obj(m)).value.props;
      Get(Obj(c), "posting") == Ok(if AnyPresent(m, LegacyKeyMap) || p != map[] then Obj(p) else Get(Obj(m), "posting").value)
    ensures forall i :: 0 <= i < |LegacyKeyMap| && Present(m, LegacyKeyMap[i].0) ==>
      LegacyKeyMap[i].1 in p && p[LegacyKeyMap[i].1] == m[LegacyKeyMap[i].0]
    ensures forall f :: f in PostingBase(m) && f !in FieldsOf(LegacyKeyMap) ==> f in p && p[f] == PostingBase(m)[f]
  {
    MigrateLegacyObject(m);
    var c := Migrated(Obj(m)).value.props;
    if AnyPresent(m, LegacyKeyMap) {
      p := c["posting"].props;
    } else {
      p := PostingBase(m);
    }
  }

  /** A file's legacy settings reach the loaded `posting` (for an object
      whose `posting` can take them), and its other `posting` settings
      override the defaults. */
  lemma LoadFromFile(m: map<string, Js>, env: map<string, string>)
    requires PostingWritable(m)
    ensures LoadConfig(Parsed(Obj(m)), env).Ok?
    ensures var r := LoadConfig(Parsed(Obj(m)), env).value;
      r.Obj? && r.props.Keys == {"posting", "twitterApi"} && r.props["posting"].Obj?
      && (forall i :: 0 <= i < |LegacyKeyMap| && Present(m, LegacyKeyMap[i].0) ==>
            LegacyKeyMap[i].1 in r.props["posting"].props
            && r.props["posting"].props[LegacyKeyMap[i].1] == m[LegacyKeyMap[i].0])
      && (forall f :: f in PostingBase(m) && f !in FieldsOf(LegacyKeyMap) ==>
            f in r.props["posting"].props && r.props["posting"].props[f] == PostingBase(m)[f])
  {
    var p := MigratedPosting(m);
    var c := Migrated(Obj(m)).value;
    LoadParsed(Obj(m), env);
    PreparedPosting(Obj(m), env);
    if AnyPresent(m, LegacyKeyMap) || p != map[] {
      assert Get(c, "posting") == Ok(Obj(p)) by {
        assert c == Obj(c.props);
      }
    }
  }

  lemma LoadParsed(v: Js, env: map<string, string>)
    ensures LoadConfig(Parsed(v), env) == Prepared(v, env)
  {
  }

  /** Loading keeps every setting of the migrated `posting` (the defaults
      fill the rest); only `twitterApi` takes the environment. */
  lemma PreparedPosting(config: Js, env: map<string, string>)
    requires Migrated(config).Ok? && Migrated(config).value != Undefined && Migrated(config).value != Null
    ensures Prepared(config, env).Ok? && Prepared(config, env).value.Obj?
    ensures var r := Prepared(config, env).value.props;
      var q := Get(Migrated(config).value, "posting").value;
      r.Keys == {"posting", "twitterApi"} && r["posting"].Obj?
      && (forall k :: q.Obj? && k in q.props ==> k in r["posting"].props && r["posting"].props[k] == q.props[k])
  {
    var c := Migrated(config).value;
    MergeKeepsDefaults(c);
    var merged := MergeDefaults(c).value;
    assert Prepared(config, env).value.props["posting"] == merged["posting"];
  }

  // ---------------------------------------------------------------------
  // validateConfig

  /** JavaScript's `String(v)`; numbers are written by `numText`. */
  function JsText(v: Js, numText: real -> string): string
    decreases v, 1
  {
    match v
    case Undefined => "undefined"
    case Null => "null"
    case Bool(b) => if b then "true" else "false"
    case Num(r) => numText(r)
    case Str(s) => s
    case Arr(items) =>
      assert forall i :: 0 <= i < |items| ==> items[i] in items;
      ItemsText(v, items, numText)
    case Obj(_) => "[object Object]"
  }

  /** `Array.prototype.join(',')`, where `null` and `undefined` are empty. */
  function ItemsText(whole: Js, items: seq<Js>, numText: real -> string): string
    requires forall i :: 0 <= i < |items| ==> items[i] < whole
    decreases whole, 0, |items|
  {
    if items == [] then ""
    else
      var last := items[|items| - 1];
      var t := if last == Undefined || last == Null then "" else JsText(last, numText);
      if |items| == 1 then t else ItemsText(whole, items[..|items| - 1], numText) + "," + t
  }

  /** `v <= 0`: both sides become numbers, and `NaN` (`None`) compares
      false. Strings are read by `strNum`. */
  predicate AtMostZero(v: Js, numText: real -> string, strNum: string -> Option<real>) {
    var n :=
      match v
      case Undefined => None
      case Null => Some(0.0)
      case Bool(b) => Some(if b then 1.0 else 0.0)
      case Num(r) => Some(r)
      case Str(s) => strNum(s)
      case Arr(_) => strNum(JsText(v, numText))
      case Obj(_) => None;
    n.Some? && n.value <= 0.0
  }

  /** `^([01]?[0-9]|2[0-3]):[0-5][0-9]$`. */
  predicate TimeMatches(s: string) {
    var minutes := |s| >= 2 && '0' <= s[|s| - 2] <= '5' && IsDigit(s[|s| - 1]);
    (|s| == 4 && IsDigit(s[0]) && s[1] == ':' && minutes)
    || (|s| == 5 && s[2] == ':' && minutes
        && (((s[0] == '0' || s[0] == '1') && IsDigit(s[1])) || (s[0] == '2' && '0' <= s[1] <= '3')))
  }

  function DigitValue(c: char): int { c as int - '0' as int }

  /** The times the pattern accepts, by value: one or two hour digits with
      an hour up to 23, a colon, two minute digits up to 59. */
  predicate ClockText(s: string) {
    (|s| == 4 || |s| == 5) && s[|s| - 3] == ':'
    && AllDigits(s[..|s| - 3]) && IsDigit(s[|s| - 2]) && IsDigit(s[|s| - 1])
    && (if |s| == 5 then 10 * DigitValue(s[0]) + DigitValue(s[1]) else DigitValue(s[0])) <= 23
    && 10 * DigitValue(s[|s| - 2]) + DigitValue(s[|s| - 1]) <= 59
  }

  lemma TimeMatchesClocks(s: string)
    ensures TimeMatches(s) <==> ClockText(s)
  {
    if |s| == 5 && ClockText(s) {
      assert IsDigit(s[..2][0]) && IsDigit(s[..2][1]);
    }
  }

  const IntervalMessage: string := "投稿間隔は0より大きい値を設定してください"
  const FixedTimesRequiredMessage: string := "固定時刻モードでは fixedTimes 配列が必要です"
  const FixedTimesEmptyMessage: string := "fixedTimes 配列は少なくとも1つの時刻が必要です"

  function MissingKeyMessage(key: string): string {
    "Twitter API設定が不足: " + key
  }

  function BadTimeMessage(time: string): string {
    "無効な時刻フォーマット: " + time + " (HH:MM形式で入力してください)"
  }

  function BadTypeMessage(scheduleType: string): string {
    "無効なスケジュールタイプ: " + scheduleType + " ('interval' または 'fixed' を指定してください)"
  }

  /** `v[k]` where reading cannot throw. */
  function Prop(v: Js, k: string): Js
    requires v != Undefined && v != Null
  {
    Get(v, k).value
  }

  /** The required API keys that are false, in order. */
  function MissingKeys(api: Js): seq<string>
    requires api != Undefined && api != Null
  {
    Filter(ApiKeyNames, MissingTest(api))
  }

  function MissingTest(api: Js): string -> bool
    requires api != Undefined && api != Null
  {
    k => !Truthy(Prop(api, k))
  }

  function KeyMessages(keys: seq<string>): (r: seq<string>)
    ensures |r| == |keys| && forall i :: 0 <= i < |keys| ==> r[i] == MissingKeyMessage(keys[i])
  {
    seq(|keys|, i requires 0 <= i < |keys| => MissingKeyMessage(keys[i]))
  }

  /** Whether a `fixedTimes` entry, as text, fails the pattern. */
  function BadTimeTest(numText: real -> string): Js -> bool {
    t => !TimeMatches(JsText(t, numText))
  }

  function TimeMessages(bad: seq<Js>, numText: real -> string): (r: seq<string>)
    ensures |r| == |bad| && forall i :: 0 <= i < |bad| ==> r[i] == BadTimeMessage(JsText(bad[i], numText))
  {
    seq(|bad|, i requires 0 <= i < |bad| => BadTimeMessage(JsText(bad[i], numText)))
  }

  /** One message per entry of `fixedTimes` that fails the pattern. */
  function TimeErrors(times: seq<Js>, numText: real -> string): seq<string> {
    TimeMessages(Filter(times, BadTimeTest(numText)), numText)
  }

  /** `scheduleType || 'interval'`. */
  function ScheduleType(posting: Js): Js
    requires posting != Undefined && posting != Null
  {
    var t := Prop(posting, "scheduleType");
    if Truthy(t) then t else Str("interval")
  }

  /** The errors of the `posting` section. */
  function ScheduleErrors(posting: Js, numText: real -> string, strNum: string -> Option<real>): seq<string>
    requires posting != Undefined && posting != Null
  {
    var ty := ScheduleType(posting);
    if ty == Str("interval") then
      if AtMostZero(Prop(posting, "interval"), numText, strNum) then [IntervalMessage] else []
    else if ty == Str("fixed") then
      var times := Prop(posting, "fixedTimes");
      if !Truthy(times) || !times.Arr? then [FixedTimesRequiredMessage]
      else if |times.items| == 0 then [FixedTimesEmptyMessage]
      else
        TimeErrors(times.items, numText)
    else [BadTypeMessage(JsText(ty, numText))]
  }

  /** `validateConfig`: reading `twitterApi` or `posting` of a configuration
      that lacks them throws. */
  function ConfigErrors(config: Js, numText: real -> string, strNum: string -> Option<real>): Result<seq<string>, JsError> {
    var api := Get(config, "twitterApi");
    if api.Err? then Err(api.error)
    else if api.value == Undefined || api.value == Null then Err(TypeError)
    else
      var posting := Get(config, "posting");
      if posting.value == Undefined || posting.value == Null then Err(TypeError)
      else
        Ok(KeyMessages(MissingKeys(api.value)) + ScheduleErrors(posting.value, numText, strNum))
  }

  lemma KeyMessagesSnoc(keys: seq<string>, k: string)
    ensures KeyMessages(keys + [k]) == KeyMessages(keys) + [MissingKeyMessage(k)]
  {
  }

  lemma TimeMessagesSnoc(bad: seq<Js>, t: Js, numText: real -> string)
    ensures TimeMessages(bad + [t], numText) == TimeMessages(bad, numText) + [BadTimeMessage(JsText(t, numText))]
  {
  }

  /** The loop over the required API keys. */
  method CollectMissingKeys(api: Js) returns (errors: seq<string>)
    requires api != Undefined && api != Null
    ensures errors == KeyMessages(MissingKeys(api))
  {
    errors := [];
    var i := 0;
    while i < |ApiKeyNames|
      invariant i <= |ApiKeyNames|
      invariant errors == KeyMessages(Filter(ApiKeyNames[..i], MissingTest(api)))
    {
      FilterPrefix(ApiKeyNames, i, MissingTest(api));
      var key := ApiKeyNames[i];
      if !Truthy(Prop(api, key)) {
        KeyMessagesSnoc(Filter(ApiKeyNames[..i], MissingTest(api)), key);
        errors := errors + [MissingKeyMessage(key)];
      }
      i := i + 1;
    }
    assert ApiKeyNames[..i] == ApiKeyNames;
  }

  /** The loop over the entries of `fixedTimes`. */
  method CollectTimeErrors(times: seq<Js>, numText: real -> string) returns (errors: seq<string>)
    ensures errors == TimeErrors(times, numText)
  {
    errors := [];
    var j := 0;
    while j < |times|
      invariant j <= |times|
      invariant errors == TimeMessages(Filter(times[..j], BadTimeTest(numText)), numText)
    {
      FilterPrefix(times, j, BadTimeTest(numText));
      var time := times[j];
      if !TimeMatches(JsText(time, numText)) {
        TimeMessagesSnoc(Filter(times[..j], BadTimeTest(numText)), time, numText);
        errors := errors + [BadTimeMessage(JsText(time, numText))];
      }
      j := j + 1;
    }
    assert times[..j] == times;
  }

  /** The checks of the `posting` section. */
  method CheckSchedule(posting: Js, numText: real -> string, strNum: string -> Option<real>)
    returns (errors: seq<string>)
    requires posting != Undefined && posting != Null
    ensures errors == ScheduleErrors(posting, numText, strNum)
  {
    errors := [];
    var scheduleType := Prop(posting, "scheduleType");
    if !Truthy(scheduleType) {
      scheduleType := Str("interval");
    }
    assert scheduleType == ScheduleType(posting);
    if scheduleType == Str("interval") {
      if AtMostZero(Prop(posting, "interval"), numText, strNum) {
        errors := errors + [IntervalMessage];
      }
    } else if scheduleType == Str("fixed") {
      var times := Prop(posting, "fixedTimes");
      if !Truthy(times) || !times.Arr? {
        errors := errors + [FixedTimesRequiredMessage];
      } else if |times.items| == 0 {
        errors := errors + [FixedTimesEmptyMessage];
      } else {
        errors := CollectTimeErrors(times.items, numText);
      }
    } else {
      errors := errors + [BadTypeMessage(JsText(scheduleType, numText))];
    }
  }

  /** `validateConfig`. */
  method ValidateConfig(config: Js, numText: real -> string, strNum: string -> Option<real>)
    returns (r: Result<seq<string>, JsError>)
    ensures r == ConfigErrors(config, numText, strNum)
  {
    var apiGet := Get(config, "twitterApi");
    if apiGet.Err? {
      return Err(apiGet.error);
    }
    var api := apiGet.value;
    if api == Undefined || api == Null {
      return Err(TypeError);
    }
    var errors := CollectMissingKeys(api);
    var posting := Get(config, "posting").value;
    if posting == Undefined || posting == Null {
      return Err(TypeError);
    }
    var scheduleErrors := CheckSchedule(posting, numText, strNum);
    return Ok(errors + scheduleErrors);
  }

  // ---------------------------------------------------------------------
  // What validation accepts

  /** A configuration without errors, stated directly: both sections are
      there, every API key is set, and the schedule is an interval above
      zero or a non-empty list of fixed times that all match. */
  predicate ValidConfig(config: Js, numText: real -> string, strNum: string -> Option<real>) {
    config != Undefined && config != Null
    && Prop(config, "twitterApi") != Undefined && Prop(config, "twitterApi") != Null
    && Prop(config, "posting") != Undefined && Prop(config, "posting") != Null
    && (forall k :: k in ApiKeyNames ==> Truthy(Prop(Prop(config, "twitterApi"), k)))
    && ScheduleValid(Prop(config, "posting"), numText, strNum)
  }

  predicate ScheduleValid(posting: Js, numText: real -> string, strNum: string -> Option<real>)
    requires posting != Undefined && posting != Null
  {
    var ty := ScheduleType(posting);
    var times := Prop(posting, "fixedTimes");
    (ty == Str("interval") && !AtMostZero(Prop(posting, "interval"), numText, strNum))
    || (ty == Str("fixed") && times.Arr? && |times.items| > 0
        && forall t :: t in times.items ==> TimeMatches(JsText(t, numText)))
  }

  lemma NoMissingKeys(api: Js)
    requires api != Undefined && api != Null
    ensures MissingKeys(api) == [] <==> forall k :: k in ApiKeyNames ==> Truthy(Prop(api, k))
  {
    FilterMembers(ApiKeyNames, MissingTest(api));
    if MissingKeys(api) != [] {
      assert MissingKeys(api)[0] in MissingKeys(api);
    }
  }

  lemma NoTimeErrors(times: seq<Js>, numText: real -> string)
    ensures TimeErrors(times, numText) == [] <==> forall t :: t in times ==> TimeMatches(JsText(t, numText))
  {
    var bad := Filter(times, BadTimeTest(numText));
    FilterMembers(times, BadTimeTest(numText));
    if bad != [] {
      assert bad[0] in bad;
    }
  }

  /** `validateConfig` returns no errors exactly for the valid
      configurations. */
  lemma ValidIffNoErrors(config: Js, numText: real -> string, strNum: string -> Option<real>)
    ensures ConfigErrors(config, numText, strNum) == Ok([]) <==> ValidConfig(config, numText, strNum)
  {
    if config != Undefined && config != Null {
      var api := Prop(config, "twitterApi");
      var posting := Prop(config, "posting");
      if api != Undefined && api != Null && posting != Undefined && posting != Null {
        assert ConfigErrors(config, numText, strNum) == Ok(KeyMessages(MissingKeys(api)) + ScheduleErrors(posting, numText, strNum));
        NoMissingKeys(api);
        NoScheduleErrors(posting, numText, strNum);
      }
    }
  }

  lemma NoScheduleErrors(posting: Js, numText: real -> string, strNum: string -> Option<real>)
    requires posting != Undefined && posting != Null
    ensures ScheduleErrors(posting, numText, strNum) == [] <==> ScheduleValid(posting, numText, strNum)
  {
    var times := Prop(posting, "fixedTimes");
    if times.Arr? {
      NoTimeErrors(times.items, numText);
    }
  }

  lemma MissingKeyMessageInjective(a: string, b: string)
    requires MissingKeyMessage(a) == MissingKeyMessage(b)
    ensures a == b
  {
    var n := |"Twitter API設定が不足: "|;
    assert a == MissingKeyMessage(a)[n..];
    assert b == MissingKeyMessage(b)[n..];
  }

  /** One error per false API key: a key's message is reported exactly
      when the key is required and false. */
  lemma KeyErrorsExact(api: Js, k: string)
    requires api != Undefined && api != Null
    ensures MissingKeyMessage(k) in KeyMessages(MissingKeys(api)) <==> k in ApiKeyNames && !Truthy(Prop(api, k))
  {
    var ms := MissingKeys(api);
    FilterMembers(ApiKeyNames, MissingTest(api));
    if MissingKeyMessage(k) in KeyMessages(ms) {
      var i :| 0 <= i < |ms| && KeyMessages(ms)[i] == MissingKeyMessage(k);
      MissingKeyMessageInjective(ms[i], k);
      assert ms[i] in ms;
    }
    if k in ApiKeyNames && !Truthy(Prop(api, k)) {
      assert k in ms;
      var i :| 0 <= i < |ms| && ms[i] == k;
      assert KeyMessages(ms)[i] == MissingKeyMessage(k);
    }
  }

  /** With every key missing, the four messages come in the order of the
      required keys. */
  lemma AllKeysMissing(api: Js)
    requires api != Undefined && api != Null
    requires forall k :: k in ApiKeyNames ==> !Truthy(Prop(api, k))
    ensures KeyMessages(MissingKeys(api)) == [
      MissingKeyMessage("apiKey"), MissingKeyMessage("apiKeySecret"),
      MissingKeyMessage("accessToken"), MissingKeyMessage("accessTokenSecret")]
  {
    FilterAll(ApiKeyNames, MissingTest(api));
  }

  /** Any `scheduleType` other than `interval` and `fixed` (after the
      default) gives exactly one error, naming it. */
  lemma UnknownScheduleType(posting: Js, numText: real -> string, strNum: string -> Option<real>)
    requires posting != Undefined && posting != Null
    requires ScheduleType(posting) != Str("interval") && ScheduleType(posting) != Str("fixed")
    ensures ScheduleErrors(posting, numText, strNum) == [BadTypeMessage(JsText(ScheduleType(posting), numText))]
  {
  }

  /** In interval mode there is one error at most: for an interval that
      is not above zero. */
  lemma IntervalErrors(posting: Js, numText: real -> string, strNum: string -> Option<real>)
    requires posting != Undefined && posting != Null
    requires ScheduleType(posting) == Str("interval")
    ensures ScheduleErrors(posting, numText, strNum) ==
      if AtMostZero(Prop(posting, "interval"), numText, strNum) then [IntervalMessage] else []
  {
  }

  /** In fixed mode: a missing or non-array `fixedTimes` gives one error,
      an empty one one error, and otherwise every error names an entry
      that fails the pattern and every such entry is named. */
  lemma FixedErrors(posting: Js, numText: real -> string, strNum: string -> Option<real>)
    requires posting != Undefined && posting != Null
    requires ScheduleType(posting) == Str("fixed")
    ensures var times := Prop(posting, "fixedTimes");
      var errors := ScheduleErrors(posting, numText, strNum);
      && (!times.Arr? ==> errors == [FixedTimesRequiredMessage])
      && (times.Arr? && times.items == [] ==> errors == [FixedTimesEmptyMessage])
      && (times.Arr? && times.items != [] ==>
            |errors| <= |times.items|
            && (forall t :: t in times.items && !TimeMatches(JsText(t, numText)) ==> BadTimeMessage(JsText(t, numText)) in errors))
  {
    var times := Prop(posting, "fixedTimes");
    if times.Arr? && times.items != [] {
      var bad := Filter(times.items, BadTimeTest(numText));
      FilterMembers(times.items, BadTimeTest(numText));
      forall t | t in times.items && !TimeMatches(JsText(t, numText))
        ensures BadTimeMessage(JsText(t, numText)) in TimeErrors(times.items, numText)
      {
        assert t in bad;
        var i :| 0 <= i < |bad| && bad[i] == t;
        assert TimeErrors(times.items, numText)[i] == BadTimeMessage(JsText(t, numText));
      }
    }
  }

  /** The default times all match the pattern. */
  lemma DefaultTimesMatch()
    ensures forall t :: t in DefaultFixedTimes ==> t.Str? && TimeMatches(t.s)
  {
  }

  /** A configuration of a valid `posting` and a filled `twitterApi`
      validates clean. */
  lemma ValidFromParts(posting: map<string, Js>, api: map<string, Js>, numText: real -> string, strNum: string -> Option<real>)
    requires forall k :: k in ApiKeyNames ==> k in api && Truthy(api[k])
    requires ScheduleValid(Obj(posting), numText, strNum)
    ensures ConfigErrors(Obj(map["posting" := Obj(posting), "twitterApi" := Obj(api)]), numText, strNum) == Ok([])
  {
    var config := Obj(map["posting" := Obj(posting), "twitterApi" := Obj(api)]);
    assert ValidConfig(config, numText, strNum);
    ValidIffNoErrors(config, numText, strNum);
  }

  /** Fixed mode with a non-empty list of matching times is valid. */
  lemma FixedModeValid(posting: map<string, Js>, times: seq<Js>, numText: real -> string, strNum: string -> Option<real>)
    requires "scheduleType" in posting && posting["scheduleType"] == Str("fixed")
    requires "fixedTimes" in posting && posting["fixedTimes"] == Arr(times) && times != []
    requires forall t :: t in times ==> t.Str? && TimeMatches(t.s)
    ensures ScheduleValid(Obj(posting), numText, strNum)
  {
    assert ScheduleType(Obj(posting)) == Str("fixed");
  }

  /** The defaults with the four API keys filled in validate clean. */
  lemma DefaultsValid(api: map<string, Js>, numText: real -> string, strNum: string -> Option<real>)
    requires forall k :: k in ApiKeyNames ==> k in api && Truthy(api[k])
    ensures ConfigErrors(Obj(map["posting" := Obj(DefaultPosting), "twitterApi" := Obj(api)]), numText, strNum) == Ok([])
  {
    assert ScheduleType(Obj(DefaultPosting)) == Str("interval");
    assert Prop(Obj(DefaultPosting), "interval") == Num(0.5);
    ValidFromParts(DefaultPosting, api, numText, strNum);
  }

  /** So do the defaults switched to fixed mode, with the default times. */
  lemma DefaultFixedTimesValid(api: map<string, Js>, numText: real -> string, strNum: string -> Option<real>)
    requires forall k :: k in ApiKeyNames ==> k in api && Truthy(api[k])
    ensures ConfigErrors(Obj(map["posting" := Obj(DefaultPosting["scheduleType" := Str("fixed")]), "twitterApi" := Obj(api)]), numText, strNum) == Ok([])
  {
    var p := DefaultPosting["scheduleType" := Str("fixed")];
    DefaultTimesMatch();
    FixedModeValid(p, DefaultFixedTimes, numText, strNum);
    ValidFromParts(p, api, numText, strNum);
  }
}
