/** Model of the manifest synchroniser `DataPackagePipeline` of witsi/pipeline.py.

    The manifest (`datapackage.json`) names the data package and lists one
    resource entry per job. Constructing the pipeline creates the manifest only
    when there is none; closing it finds the job's entry by a first-match scan
    on "name", appends an empty entry when there is none, and then stamps that
    one entry with the job's name, content hash, size, time and field schema. */
module DataPackage {
  import opened Wrappers

  /** A JSON value (non-integer numbers are not modelled). */
  datatype Json =
    | JNull
    | JBool(b: bool)
    | JInt(i: int)
    | JString(s: string)
    | JArray(items: seq<Json>)
    | JObject(members: map<string, Json>)

  /** A JSON object, such as one resource entry or one field schema. */
  type Object = map<string, Json>

  /** The manifest document. */
  datatype Manifest = Manifest(name: string, title: string, description: string, resources: seq<Object>)

  // ---------------------------------------------------------------------------
  // Configuration and the field schema (from_crawler)
  // ---------------------------------------------------------------------------

  /** The `DATA_PACKAGE` settings with "NAME" defaulting to the spider's name. */
  function PackageConfig(settings: map<string, string>, spiderName: string): (config: map<string, string>)
    ensures "NAME" in config
    ensures config["NAME"] == if "NAME" in settings then settings["NAME"] else spiderName
    ensures forall k :: k != "NAME" ==> (k in config <==> k in settings)
    ensures forall k :: k != "NAME" && k in settings ==> config[k] == settings[k]
  {
    if "NAME" in settings then settings else settings["NAME" := spiderName]
  }

  /** `{'name': key, **schema}`: the entry holds the schema's keys and "name";
      the schema's own values win, so "name" is the key unless the schema has one. */
  function FieldEntry(key: string, schema: Object): (entry: Object)
    ensures entry.Keys == schema.Keys + {"name"}
    ensures forall k :: k in schema ==> entry[k] == schema[k]
    ensures "name" !in schema ==> entry["name"] == JString(key)
  {
    map["name" := JString(key)] + schema
  }

  /** The declared fields of the item class that the header exports, in
      declaration order. */
  function Exported(keys: seq<string>, header: seq<string>): (kept: seq<string>)
    ensures forall k :: k in kept <==> k in keys && k in header
    ensures |kept| <= |keys|
  {
    if keys == [] then []
    else if keys[0] in header then [keys[0]] + Exported(keys[1..], header)
    else Exported(keys[1..], header)
  }

  /** `a` is `b` with some elements left out, the rest in the same order. */
  ghost predicate IsSubsequence<T>(a: seq<T>, b: seq<T>)
    decreases |b|
  {
    if a == [] then true
    else if b == [] then false
    else if a[0] == b[0] then IsSubsequence(a[1..], b[1..])
    else IsSubsequence(a, b[1..])
  }

  /** The exported fields follow the item class's declaration order, whatever
      the order of the header. */
  lemma {:induction false} ExportedInDeclarationOrder(keys: seq<string>, header: seq<string>)
    ensures IsSubsequence(Exported(keys, header), keys)
  {
    if keys != [] {
      ExportedInDeclarationOrder(keys[1..], header);
      var rest := Exported(keys[1..], header);
      if keys[0] !in header {
        SkipKeepsSubsequence(rest, keys);
      }
    }
  }

  lemma {:induction false} SkipKeepsSubsequence<T>(a: seq<T>, b: seq<T>)
    requires b != [] && IsSubsequence(a, b[1..])
    ensures IsSubsequence(a, b)
    decreases |b|, 0
  {
    if a != [] && a[0] == b[0] && |b| > 1 {
      // a[0] also heads a subsequence of b[1..]: drop it from both
      SubsequenceTail(a, b[1..]);
    }
  }

  lemma {:induction false} SubsequenceTail<T>(a: seq<T>, b: seq<T>)
    requires a != [] && IsSubsequence(a, b)
    ensures IsSubsequence(a[1..], b)
    decreases |b|, 1
  {
    if a[0] == b[0] {
      if a[1..] != [] {
        SkipKeepsSubsequence(a[1..], b);
      }
    } else {
      SubsequenceTail(a, b[1..]);
      if a[1..] != [] {
        SkipKeepsSubsequence(a[1..], b);
      }
    }
  }

  /** The field schema stored with the job's resource: one entry per exported
      field, in declaration order, built from the item class's JSON schema. */
  function SchemaFields(keys: seq<string>, properties: map<string, Object>, header: seq<string>)
    : (fields: seq<Object>)
    requires forall k :: k in keys && k in header ==> k in properties
    ensures |fields| == |Exported(keys, header)|
    ensures forall i :: 0 <= i < |fields| ==>
      var key := Exported(keys, header)[i]; fields[i] == FieldEntry(key, properties[key])
  {
    if keys == [] then []
    else if keys[0] in header then
      [FieldEntry(keys[0], properties[keys[0]])] + SchemaFields(keys[1..], properties, header)
    else SchemaFields(keys[1..], properties, header)
  }

  // ---------------------------------------------------------------------------
  // Creating the manifest
  // ---------------------------------------------------------------------------

  /** `config.get(key, default)`. */
  function Setting(config: map<string, string>, key: string, default: string): string
  {
    if key in config then config[key] else default
  }

  /** The manifest written when none exists: no resources yet. */
  function FreshManifest(config: map<string, string>): (m: Manifest)
    requires "NAME" in config
    ensures m.resources == []
  {
    Manifest(config["NAME"], Setting(config, "TITLE", ""), Setting(config, "DESCRIPTION", ""), [])
  }

  /** With the configuration `from_crawler` builds, a fresh manifest is named
      after the spider unless NAME is set, and title and description default
      to the empty string. */
  lemma FreshManifestDefaults(settings: map<string, string>, spiderName: string)
    ensures var m := FreshManifest(PackageConfig(settings, spiderName));
      && m.name == (if "NAME" in settings then settings["NAME"] else spiderName)
      && m.title == (if "TITLE" in settings then settings["TITLE"] else "")
      && m.description == (if "DESCRIPTION" in settings then settings["DESCRIPTION"] else "")
      && m.resources == []
  {
  }

  // ---------------------------------------------------------------------------
  // Finding and stamping the job's resource entry
  // ---------------------------------------------------------------------------

  /** Why `close_spider` gives up: the scan met an entry without "name". */
  datatype ManifestError = MissingName(index: nat)

  /** The entry describes the job. */
  predicate IsJob(resource: Object, job: string)
  {
    "name" in resource && resource["name"] == JString(job)
  }

  /** The scan got past the first `n` entries: each has a name, none the job's. */
  ghost predicate ScannedPast(resources: seq<Object>, job: string, n: nat)
    requires n <= |resources|
  {
    forall j :: 0 <= j < n ==> "name" in resources[j] && !IsJob(resources[j], job)
  }

  /** The `next(...)` scan over the resources: the index of the first entry
      whose "name" is the job, `None` when there is none, or the error raised
      by reading "name" from an entry that lacks it before a match. */
  function FindJob(resources: seq<Object>, job: string): (found: Result<Option<nat>, ManifestError>)
    ensures found.Ok? && found.value.Some? ==>
      var i := found.value.value; i < |resources| && IsJob(resources[i], job) && ScannedPast(resources, job, i)
    ensures found.Ok? && found.value.None? ==> ScannedPast(resources, job, |resources|)
    ensures found.Err? ==>
      var i := found.error.index; i < |resources| && "name" !in resources[i] && ScannedPast(resources, job, i)
  {
    if resources == [] then Ok(None)
    else if "name" !in resources[0] then Err(MissingName(0))
    else if IsJob(resources[0], job) then Ok(Some(0))
    else
      match FindJob(resources[1..], job)
      case Ok(None) => Ok(None)
      case Ok(Some(i)) => Ok(Some(i + 1))
      case Err(MissingName(i)) => Err(MissingName(i + 1))
  }

  /** What `close_spider` records about the job's output. */
  datatype Stamp = Stamp(digest: string, bytes: nat, lastUpdated: string, fields: seq<Object>)

  /** The keys `close_spider` sets on the job's entry. */
  const StampKeys: set<string> := {"name", "hash", "bytes", "last_updated", "fields"}

  /** The field schema as the JSON array value of "fields". */
  function FieldsJson(fields: seq<Object>): seq<Json>
  {
    seq(|fields|, i requires 0 <= i < |fields| => JObject(fields[i]))
  }

  /** The job's entry after `close_spider` sets its keys; the others stay. */
  function Stamped(resource: Object, job: string, stamp: Stamp): (entry: Object)
    ensures entry.Keys == resource.Keys + StampKeys
    ensures IsJob(entry, job)
    ensures entry["hash"] == JString("md5-" + stamp.digest)
    ensures entry["bytes"] == JInt(stamp.bytes)
    ensures entry["last_updated"] == JString(stamp.lastUpdated)
    ensures entry["fields"] == JArray(FieldsJson(stamp.fields))
    ensures forall k :: k in resource && k !in StampKeys ==> entry[k] == resource[k]
  {
    resource["name" := JString(job)]
            ["hash" := JString("md5-" + stamp.digest)]
            ["bytes" := JInt(stamp.bytes)]
            ["last_updated" := JString(stamp.lastUpdated)]
            ["fields" := JArray(FieldsJson(stamp.fields))]
  }

  /** The resource list after `close_spider`: the first entry of the job is
      stamped in place, or a stamped empty entry is appended when there is none. */
  function Upsert(resources: seq<Object>, job: string, stamp: Stamp): (res: Result<seq<Object>, ManifestError>)
    ensures res.Err? <==> FindJob(resources, job).Err?
    ensures res.Err? ==> res.error == FindJob(resources, job).error
    ensures res.Ok? && FindJob(resources, job).value.Some? ==>
      var i := FindJob(resources, job).value.value;
      && |res.value| == |resources|
      && res.value[i] == Stamped(resources[i], job, stamp)
      && forall j :: 0 <= j < |resources| && j != i ==> res.value[j] == resources[j]
    ensures res.Ok? && FindJob(resources, job).value.None? ==>
      && |res.value| == |resources| + 1
      && res.value[..|resources|] == resources
      && res.value[|resources|] == Stamped(map[], job, stamp)
  {
    match FindJob(resources, job)
    case Err(e) => Err(e)
    case Ok(Some(i)) => Ok(resources[i := Stamped(resources[i], job, stamp)])
    case Ok(None) => Ok(resources + [Stamped(map[], job, stamp)])
  }

  // ---------------------------------------------------------------------------
  // What the upsert preserves
  // ---------------------------------------------------------------------------

  /** No two named entries share a name. */
  ghost predicate UniqueNames(resources: seq<Object>)
  {
    forall i, j :: 0 <= i < j < |resources| && "name" in resources[i] && "name" in resources[j] ==>
      resources[i]["name"] != resources[j]["name"]
  }

  lemma UpsertKeepsNamesUnique(resources: seq<Object>, job: string, stamp: Stamp)
    requires UniqueNames(resources) && Upsert(resources, job, stamp).Ok?
    ensures UniqueNames(Upsert(resources, job, stamp).value)
  {
    var out := Upsert(resources, job, stamp).value;
    match FindJob(resources, job).value
    case Some(i) =>
      assert forall j :: 0 <= j < |out| ==> ("name" in out[j] <==> "name" in resources[j]);
      assert forall j :: 0 <= j < |out| && "name" in out[j] ==> out[j]["name"] == resources[j]["name"];
    case None =>
      assert ScannedPast(resources, job, |resources|);
      assert forall j :: 0 <= j < |resources| ==> out[j] == resources[j];
  }

  /** The number of entries that describe the job. */
  function JobCount(resources: seq<Object>, job: string): nat
  {
    if resources == [] then 0
    else (if IsJob(resources[0], job) then 1 else 0) + JobCount(resources[1..], job)
  }

  lemma {:induction false} JobCountZero(resources: seq<Object>, job: string)
    requires ScannedPast(resources, job, |resources|)
    ensures JobCount(resources, job) == 0
  {
    if resources != [] {
      assert ScannedPast(resources[1..], job, |resources| - 1) by {
        forall j | 0 <= j < |resources| - 1
          ensures "name" in resources[1..][j] && !IsJob(resources[1..][j], job)
        {
          assert resources[1..][j] == resources[j + 1];
        }
      }
      JobCountZero(resources[1..], job);
    }
  }

  lemma {:induction false} JobCountAppend(resources: seq<Object>, entry: Object, job: string)
    ensures JobCount(resources + [entry], job) == JobCount(resources, job) + (if IsJob(entry, job) then 1 else 0)
  {
    if resources != [] {
      assert (resources + [entry])[1..] == resources[1..] + [entry];
      JobCountAppend(resources[1..], entry, job);
    }
  }

  lemma {:induction false} JobCountReplace(resources: seq<Object>, i: nat, entry: Object, job: string)
    requires i < |resources| && IsJob(resources[i], job) == IsJob(entry, job)
    ensures JobCount(resources[i := entry], job) == JobCount(resources, job)
  {
    if i > 0 {
      assert resources[i := entry][1..] == resources[1..][i - 1 := entry];
      JobCountReplace(resources[1..], i - 1, entry, job);
    } else {
      assert resources[i := entry][1..] == resources[1..];
    }
  }

  /** After the upsert the job has exactly as many entries as before, or one
      if it had none: an entry for the job is never added twice. */
  lemma UpsertJobCount(resources: seq<Object>, job: string, stamp: Stamp)
    requires Upsert(resources, job, stamp).Ok?
    ensures JobCount(Upsert(resources, job, stamp).value, job) ==
      if JobCount(resources, job) == 0 then 1 else JobCount(resources, job)
  {
    var out := Upsert(resources, job, stamp).value;
    match FindJob(resources, job).value
    case Some(i) =>
      assert out == resources[i := Stamped(resources[i], job, stamp)];
      JobCountReplace(resources, i, Stamped(resources[i], job, stamp), job);
      JobCountPositive(resources, i, job);
    case None =>
      JobCountZero(resources, job);
      assert out == resources + [Stamped(map[], job, stamp)];
      JobCountAppend(resources, Stamped(map[], job, stamp), job);
  }

  lemma {:induction false} JobCountPositive(resources: seq<Object>, i: nat, job: string)
    requires i < |resources| && IsJob(resources[i], job)
    ensures JobCount(resources, job) >= 1
  {
    if i > 0 {
      assert resources[1..][i - 1] == resources[i];
      JobCountPositive(resources[1..], i - 1, job);
    }
  }

  /** Rescanning after an upsert finds the entry just stamped. */
  lemma FindJobAfterUpsert(resources: seq<Object>, job: string, stamp: Stamp)
    requires Upsert(resources, job, stamp).Ok?
    ensures FindJob(Upsert(resources, job, stamp).value, job) ==
      Ok(Some(match FindJob(resources, job).value case Some(i) => i case None => |resources|))
  {
    var out := Upsert(resources, job, stamp).value;
    var i := match FindJob(resources, job).value case Some(i) => i case None => |resources|;
    assert i < |out| && IsJob(out[i], job);
    assert forall j :: 0 <= j < i ==> out[j] == resources[j];
    FindJobFirst(out, job, i);
  }

  /** An entry of the job after a scanned-past prefix is what the scan finds. */
  lemma {:induction false} FindJobFirst(resources: seq<Object>, job: string, i: nat)
    requires i < |resources| && IsJob(resources[i], job) && ScannedPast(resources, job, i)
    ensures FindJob(resources, job) == Ok(Some(i))
  {
    if i > 0 {
      assert resources[1..][i - 1] == resources[i];
      assert ScannedPast(resources[1..], job, i - 1) by {
        forall j | 0 <= j < i - 1
          ensures "name" in resources[1..][j] && !IsJob(resources[1..][j], job)
        {
          assert resources[1..][j] == resources[j + 1];
        }
      }
      FindJobFirst(resources[1..], job, i - 1);
    }
  }

  /** Finalising twice leaves the manifest as finalising once with the later
      values: the second run updates the entry the first one stamped. */
  lemma UpsertTwice(resources: seq<Object>, job: string, first: Stamp, second: Stamp)
    requires Upsert(resources, job, first).Ok?
    ensures Upsert(Upsert(resources, job, first).value, job, second) == Upsert(resources, job, second)
  {
    var once := Upsert(resources, job, first).value;
    FindJobAfterUpsert(resources, job, first);
    match FindJob(resources, job).value
    case Some(i) =>
      var entry := resources[i];
      StampedTwice(entry, job, first, second);
      assert once[i := Stamped(once[i], job, second)] == resources[i := Stamped(entry, job, second)];
    case None =>
      var n := |resources|;
      StampedTwice(map[], job, first, second);
      assert once[n := Stamped(once[n], job, second)] == resources + [Stamped(map[], job, second)];
  }

  /** Stamping an entry again overwrites every value the first stamp set. */
  lemma StampedTwice(resource: Object, job: string, first: Stamp, second: Stamp)
    ensures Stamped(Stamped(resource, job, first), job, second) == Stamped(resource, job, second)
  {
  }

  /** A fresh manifest finalised twice holds exactly one resource, the job's,
      with the size and hash of the second run. */
  lemma FreshManifestFinalisedTwice(config: map<string, string>, job: string, first: Stamp, second: Stamp)
    requires "NAME" in config
    ensures var resources := FreshManifest(config).resources;
      && Upsert(resources, job, first).Ok?
      && var twice := Upsert(Upsert(resources, job, first).value, job, second);
      && twice.Ok? && |twice.value| == 1 && JobCount(twice.value, job) == 1
      && twice.value[0]["bytes"] == JInt(second.bytes)
      && twice.value[0]["hash"] == JString("md5-" + second.digest)
  {
    var resources := FreshManifest(config).resources;
    assert FindJob(resources, job) == Ok(None);
    UpsertTwice(resources, job, first, second);
    var once := Upsert(resources, job, second).value;
    assert once == [Stamped(map[], job, second)];
    assert JobCount(once, job) == 1 by {
      assert once[1..] == [];
    }
  }

  // ---------------------------------------------------------------------------
  // The pipeline object
  // ---------------------------------------------------------------------------

  class DataPackagePipeline {
    /** The field schema recorded with the job's resource. */
    const fields: seq<Object>
    /** The manifest file: `None` while it does not exist. */
    var manifest: Option<Manifest>

    /** Once the pipeline exists, so does the manifest. */
    ghost predicate Valid()
      reads this
    {
      manifest.Some?
    }

    /** `existing` is the manifest file as found (`None` when there is no
        file). A missing manifest is created from `config`, which then must
        hold NAME; an existing one is left as it is. */
    constructor (existing: Option<Manifest>, config: map<string, string>, fields: seq<Object>)
      requires existing.Some? || "NAME" in config
      ensures Valid() && this.fields == fields
      ensures existing.Some? ==> manifest == existing
      ensures existing.None? ==> manifest == Some(FreshManifest(config))
    {
      this.fields := fields;
      if existing.None? {
        manifest := Some(FreshManifest(config));
      } else {
        manifest := existing;
      }
    }

    /** `close_spider`: records the CSV file `csv` of `job` in the manifest.
        `digest` stands for the MD5 hex digest and `now` for the current time. */
    method Close(job: string, csv: string, digest: string -> string, now: string)
      returns (outcome: Result<(), ManifestError>)
      requires Valid()
      modifies this`manifest
      ensures Valid()
      ensures match Upsert(old(manifest.value.resources), job, Stamp(digest(csv), |csv|, now, fields))
        case Ok(resources) => manifest == Some(old(manifest.value).(resources := resources)) && outcome == Ok(())
        case Err(e) => manifest == old(manifest) && outcome == Err(e)
    {
      var package := manifest.value;
      var resources := package.resources;
      var found := FindJob(resources, job);
      if found.Err? {
        return Err(found.error);
      }
      var index: nat;
      if found.value.None? {
        index := |resources|;
        resources := resources + [map[]];
      } else {
        index := found.value.value;
      }
      ghost var stamp := Stamp(digest(csv), |csv|, now, fields);
      ghost var before := resources;
      var resource := resources[index];
      resource := resource["name" := JString(job)];
      resource := resource["hash" := JString("md5-" + digest(csv))];
      resource := resource["bytes" := JInt(|csv|)];
      resource := resource["last_updated" := JString(now)];
      resource := resource["fields" := JArray(FieldsJson(fields))];
      assert resource == Stamped(before[index], job, stamp);
      resources := resources[index := resource];
      if found.value.None? {
        assert resources == package.resources + [Stamped(map[], job, stamp)];
      }
      assert Upsert(package.resources, job, stamp) == Ok(resources);
      manifest := Some(package.(resources := resources));
      outcome := Ok(());
    }

    /** `process_item`: the item passes through unchanged. */
    method ProcessItem<I>(item: I) returns (passed: I)
      ensures passed == item
    {
      passed := item;
    }
  }
}
