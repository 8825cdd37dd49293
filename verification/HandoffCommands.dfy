/** The pure decisions of the `handoff:fetch` command: the directory name
    derived from a component id, whether an existing export may be
    overwritten, which version of the fetched component is imported, and
    the property schema written to the component's `.component.yml`.

    Prompts, logging, HTTP and the filesystem are left to the caller: the
    user's answer to the overwrite prompt, the decoded HTTP response and the
    state of the export directory are parameters. */
module HandoffCommands {
  import opened Wrappers

  // -----------------------------------------------------------------------
  // Component id sanitising

  /** The characters `[a-zA-Z0-9_]` that survive in a directory name. */
  predicate IdChar(c: char) {
    ('a' <= c <= 'z') || ('A' <= c <= 'Z') || ('0' <= c <= '9') || c == '_'
  }

  predicate AllIdChars(s: string) {
    forall k :: 0 <= k < |s| ==> IdChar(s[k])
  }

  /** Removes every character outside `[a-zA-Z0-9_]`. A character outside
      ASCII is removed whole, as the byte-wise PHP replacement removes each
      of its UTF-8 bytes. */
  function SanitizeId(id: string): (name: string)
    ensures AllIdChars(name)
    ensures |name| <= |id|
    decreases |id|
  {
    if |id| == 0 then ""
    else if IdChar(id[0]) then [id[0]] + SanitizeId(id[1..])
    else SanitizeId(id[1..])
  }

  /** `a` can be obtained from `b` by deleting characters. */
  predicate IsSubsequence(a: string, b: string)
    decreases |b|
  {
    if |a| == 0 then true
    else if |b| == 0 then false
    else if a[0] == b[0] then IsSubsequence(a[1..], b[1..])
    else IsSubsequence(a, b[1..])
  }

  /** The sanitised name keeps the id's characters in their original order. */
  lemma {:induction false} SanitizeIsSubsequence(id: string)
    ensures IsSubsequence(SanitizeId(id), id)
    decreases |id|
  {
    if |id| > 0 {
      var rest := SanitizeId(id[1..]);
      SanitizeIsSubsequence(id[1..]);
      if IdChar(id[0]) {
        assert ([id[0]] + rest)[1..] == rest;
      } else if |rest| > 0 {
        assert IdChar(rest[0]);
      }
    }
  }

  /** Every allowed character occurs as often in the name as in the id, and
      every other character not at all. Together with the order kept, the
      name is exactly the id's subsequence of allowed characters. */
  lemma {:induction false} SanitizeKeepsIdChars(id: string, c: char)
    ensures IdChar(c) ==> multiset(SanitizeId(id))[c] == multiset(id)[c]
    ensures !IdChar(c) ==> multiset(SanitizeId(id))[c] == 0
    decreases |id|
  {
    if |id| > 0 {
      SanitizeKeepsIdChars(id[1..], c);
      assert id == [id[0]] + id[1..];
      assert multiset(id) == multiset([id[0]]) + multiset(id[1..]);
      if IdChar(id[0]) {
        assert multiset(SanitizeId(id)) == multiset([id[0]]) + multiset(SanitizeId(id[1..]));
      }
    }
  }

  /** An id made only of allowed characters is its own directory name. */
  lemma {:induction false} SanitizeKeepsValidId(id: string)
    requires AllIdChars(id)
    ensures SanitizeId(id) == id
    decreases |id|
  {
    if |id| > 0 {
      assert AllIdChars(id[1..]);
      SanitizeKeepsValidId(id[1..]);
      assert [id[0]] + id[1..] == id;
    }
  }

  /** Sanitising a sanitised name changes nothing. */
  lemma SanitizeIdempotent(id: string)
    ensures SanitizeId(SanitizeId(id)) == SanitizeId(id)
  {
    SanitizeKeepsValidId(SanitizeId(id));
  }

  /** Sanitising a concatenation sanitises each part. */
  lemma {:induction false} SanitizeAppend(a: string, b: string)
    ensures SanitizeId(a + b) == SanitizeId(a) + SanitizeId(b)
    decreases |a|
  {
    if |a| > 0 {
      SanitizeAppend(a[1..], b);
      assert (a + b)[0] == a[0];
      assert (a + b)[1..] == a[1..] + b;
      if IdChar(a[0]) {
        assert [a[0]] + SanitizeId(a[1..]) + SanitizeId(b) == [a[0]] + (SanitizeId(a[1..]) + SanitizeId(b));
      }
    } else {
      assert a + b == b;
    }
  }

  /** The directory a component is exported to, inside the theme's
      `components` directory. The sanitised name holds neither `/` nor `.`,
      so no id can place the export anywhere else; an id without any allowed
      character names the `components` directory itself. */
  function ComponentDir(themeDir: string, id: string): (dir: string)
    ensures var parent := themeDir + "/components/";
            parent <= dir && '/' !in dir[|parent|..] && '.' !in dir[|parent|..]
    ensures dir == themeDir + "/components/" <==> SanitizeId(id) == ""
  {
    var name := SanitizeId(id);
    assert !IdChar('/') && !IdChar('.');
    themeDir + "/components" + "/" + name
  }

  // -----------------------------------------------------------------------
  // Re-exporting an existing component

  /** What the export directory holds: no directory for the component yet,
      or an earlier export whose `.handoff.yaml` records a version. The
      version is `None` when the field is missing or is not a string (a YAML
      number, say); strict comparison never equates such a value with the
      requested version string. */
  datatype Existing = NoExport | Exported(version: Option<string>)

  /** Whether the command goes on to export the component or stops. */
  datatype Outcome = Proceed | Stop

  /** The user is asked whether to overwrite exactly when an earlier export
      records some other version (or none). */
  predicate AsksOverwrite(existing: Existing, requested: string) {
    existing.Exported? && existing.version != Some(requested)
  }

  /** The decision taken before exporting. `overwrite` is the user's answer
      to the overwrite prompt; it is only consulted when the prompt is shown.
      The `!==` test in `validateComponent` is reached only after `===`
      failed, so it always holds and is not repeated here. */
  function ValidateComponent(existing: Existing, requested: string, force: bool, overwrite: bool): (o: Outcome)
    ensures existing == NoExport ==> o == Proceed
    ensures existing == Exported(Some(requested)) ==> (o == Proceed <==> force)
    ensures AsksOverwrite(existing, requested) ==> (o == Proceed <==> overwrite)
    ensures !AsksOverwrite(existing, requested) && o == Proceed ==> existing == NoExport || force
  {
    match existing
    case NoExport => Proceed
    case Exported(version) =>
      if version == Some(requested) then
        if !force then Stop else Proceed
      else
        if !overwrite then Stop else Proceed
  }

  // -----------------------------------------------------------------------
  // Version selection

  /** One property of a Handoff component as decoded from JSON;
      `description` is `None` when missing or null. */
  datatype Property = Property(propType: string, name: string, description: Option<string>)

  /** Property entries in the order of the decoded JSON object; as keys of a
      PHP array they are distinct. */
  predicate DistinctKeys<T>(entries: seq<(string, T)>) {
    forall i, j :: 0 <= i < j < |entries| ==> entries[i].0 != entries[j].0
  }

  type PropertyList = ps: seq<(string, Property)> | DistinctKeys(ps)

  /** One version of a Handoff component. */
  datatype Component = Component(id: string, title: string, properties: PropertyList)

  /** The decoded `/api/component/NAME.json` body: its keys are version
      strings plus `latest` and `version`; a `None` value is a JSON null. */
  type VersionMap = map<string, Option<Component>>

  /** The HTTP request either failed or returned a body. A body that does
      not decode behaves as an empty map: every lookup in it is unset. */
  datatype Response = RequestFailed | Decoded(data: VersionMap)

  /** The command's state as far as fetching is concerned. `component` is
      `None` until fetched, and stays `None` when the selected entry is
      missing or null. */
  datatype Command = Command(name: string, version: string, force: bool, component: Option<Component>)

  /** PHP `isset($data[$key])`: the key is present with a non-null value. */
  predicate IsSet(data: VersionMap, key: string) {
    key in data && data[key].Some?
  }

  /** PHP `$data[$key]`: null when the key is missing. */
  function Lookup(data: VersionMap, key: string): Option<Component> {
    if key in data then data[key] else None
  }

  function NotInLibraryError(name: string): string {
    "Could not find " + name + " in library."
  }

  function MissingVersionError(name: string, version: string): string {
    "Could not find version " + version + " in " + name + "."
  }

  function MissingLatestError(name: string): string {
    "Could not find latest for " + name + "."
  }

  /** Picks the component to import from the decoded data. */
  function SelectVersion(name: string, requested: string, force: bool, data: VersionMap): (r: Result<Option<Component>, string>)
    ensures requested != "latest" && IsSet(data, requested) ==> r == Success(data[requested])
    ensures requested != "latest" && !IsSet(data, requested) && !force ==>
              r == Failure(MissingVersionError(name, requested))
    ensures requested != "latest" && !IsSet(data, requested) && force ==> r == Success(Lookup(data, "latest"))
    ensures requested == "latest" && IsSet(data, "latest") ==> r == Success(data["latest"])
    ensures requested == "latest" && !IsSet(data, "latest") ==> r == Failure(MissingLatestError(name))
    ensures r.Success? && requested == "latest" ==> r.value.Some?
    ensures r.Success? ==> r.value == Lookup(data, requested) || r.value == Lookup(data, "latest")
    ensures r.Failure? ==> !IsSet(data, requested) && (requested == "latest" || !force)
  {
    if requested != "latest" then
      if IsSet(data, requested) then Success(data[requested])
      else if !force then Failure(MissingVersionError(name, requested))
      else Success(Lookup(data, "latest"))
    else if IsSet(data, "latest") then Success(data["latest"])
    else Failure(MissingLatestError(name))
  }

  /** `fetch`: stores the selected component. The version resolved from the
      data is only kept in a local, so the stored requested version, the
      name and the force flag are never changed. */
  function Fetch(cmd: Command, response: Response): (r: Result<Command, string>)
    ensures r.Success? ==> r.value.name == cmd.name && r.value.version == cmd.version && r.value.force == cmd.force
    ensures response == RequestFailed ==> r == Failure(NotInLibraryError(cmd.name))
    ensures response.Decoded? ==>
              (r.Failure? <==> SelectVersion(cmd.name, cmd.version, cmd.force, response.data).Failure?)
    ensures r.Success? ==>
              (response.Decoded? &&
               Success(r.value.component) == SelectVersion(cmd.name, cmd.version, cmd.force, response.data))
  {
    match response
    case RequestFailed => Failure(NotInLibraryError(cmd.name))
    case Decoded(data) =>
      var component :- SelectVersion(cmd.name, cmd.version, cmd.force, data);
      Success(cmd.(component := component))
  }

  /** With `force`, a specific version never makes `fetch` fail once the
      data is in hand; only `latest` can still be missing. */
  lemma ForcedFetchOfVersionSucceeds(cmd: Command, data: VersionMap)
    requires cmd.force && cmd.version != "latest"
    ensures Fetch(cmd, Decoded(data)).Success?
  {
    assert SelectVersion(cmd.name, cmd.version, cmd.force, data).Success?;
  }

  // -----------------------------------------------------------------------
  // The component.yml schema

  /** One entry of the schema's `properties`. */
  datatype SchemaProperty = SchemaProperty(propType: string, title: string, description: string)

  /** The `properties` value of the component.yml: a JSON-schema object. */
  datatype PropsSchema = PropsSchema(schemaType: string, required: seq<string>, properties: seq<(string, SchemaProperty)>)

  /** The document written to `NAME.component.yml`. */
  datatype ComponentYaml = ComponentYaml(name: string, status: string, group: string, props: PropsSchema)

  function SchemaOf(p: Property): (s: SchemaProperty)
    ensures s.propType == p.propType && s.title == p.name
    ensures s.description == (if p.description.Some? then p.description.value else "")
  {
    SchemaProperty(p.propType, p.name, p.description.GetOr(""))
  }

  /** One schema entry per property, under the same key and in the same order. */
  function SchemaProperties(ps: seq<(string, Property)>): (out: seq<(string, SchemaProperty)>)
    ensures |out| == |ps|
    ensures forall i :: 0 <= i < |ps| ==> out[i].0 == ps[i].0 && out[i].1 == SchemaOf(ps[i].1)
  {
    if |ps| == 0 then []
    else [(ps[0].0, SchemaOf(ps[0].1))] + SchemaProperties(ps[1..])
  }

  /** The value stored under `key`, if any. */
  function Find<T>(entries: seq<(string, T)>, key: string): Option<T> {
    if |entries| == 0 then None
    else if entries[0].0 == key then Some(entries[0].1)
    else Find(entries[1..], key)
  }

  /** Looking a key up in the schema gives the schema of the property under
      that key, and no key is added or lost. */
  lemma {:induction false} SchemaFind(ps: seq<(string, Property)>, key: string)
    ensures Find(SchemaProperties(ps), key).Some? <==> Find(ps, key).Some?
    ensures Find(ps, key).Some? ==> Find(SchemaProperties(ps), key) == Some(SchemaOf(Find(ps, key).value))
    decreases |ps|
  {
    if |ps| > 0 {
      var out := SchemaProperties(ps);
      assert out[1..] == SchemaProperties(ps[1..]);
      SchemaFind(ps[1..], key);
    }
  }

  /** The schema has exactly the keys of the properties, each once. */
  lemma SchemaKeys(ps: seq<(string, Property)>)
    requires DistinctKeys(ps)
    ensures DistinctKeys(SchemaProperties(ps))
    ensures forall key :: Find(SchemaProperties(ps), key).Some? <==> Find(ps, key).Some?
  {
    forall key ensures Find(SchemaProperties(ps), key).Some? <==> Find(ps, key).Some? {
      SchemaFind(ps, key);
    }
  }

  /** `makeYamlFromComponent`: the component.yml document. */
  function MakeYaml(c: Component): (y: ComponentYaml)
    ensures y.name == c.title && y.status == "experimental" && y.group == "handoff"
    ensures y.props.schemaType == "object" && y.props.required == []
    ensures |y.props.properties| == |c.properties| && DistinctKeys(y.props.properties)
    ensures forall key :: Find(y.props.properties, key).Some? <==> Find(c.properties, key).Some?
  {
    var props := SchemaProperties(c.properties);
    SchemaKeys(c.properties);
    ComponentYaml(c.title, "experimental", "handoff", PropsSchema("object", [], props))
  }
}
