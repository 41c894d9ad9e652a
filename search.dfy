/**
 * The session state of class ElasticSearch: the client and index that init()
 * connects once, the type table getAllTypes() builds once from the sections
 * that have a mapping file, and the choice indexEntry() makes between
 * skipping, indexing and deleting an entry. Configuration, sections, mapping
 * files, the live index and the mapping classes' mapData() are inputs; no
 * request is sent.
 */
module Search {
  import opened Wrappers

  // ---------------------------------------------------------------------------
  // Values
  // ---------------------------------------------------------------------------

  /** PHP's empty() on a string: true for "" and for "0". */
  predicate Empty(s: string) {
    s == "" || s == "0"
  }

  /** Connection settings: the arguments of init(), or the `elasticsearch` configuration group. */
  datatype Settings = Settings(host: string, indexName: string, username: string, password: string)

  /** init() called without arguments. */
  const NoArguments := Settings("", "", "", "")

  datatype Credentials = Credentials(username: string, password: string)

  /** The client init() builds: its one host and its Basic authentication, if any. */
  datatype Client = Client(host: string, auth: Option<Credentials>)

  /** self::$index: the index name when the index exists, or what creating it returned. */
  datatype IndexHandle = Existing(name: string) | Created(name: string)

  /** A client together with its index, the pair init() stores. */
  datatype Connection = Connection(client: Client, index: IndexHandle)

  /** The exceptions thrown by init() and getAllTypes(). */
  datatype Error =
    | HostNotSet
    | IndexNameNotSet
    | ClientFailed(reason: string)
    | InvalidMapping(handle: string)

  /** The message each exception carries. */
  function Message(e: Error): string {
    match e
    case HostNotSet => "ElasticSearch \"host\" not set in configuration."
    case IndexNameNotSet => "ElasticSearch \"index-name\" not set in configuration."
    case ClientFailed(reason) => "ElasticSearch client: " + reason
    case InvalidMapping(handle) => "Invalid mapping JSON for " + handle
  }

  datatype Field = Field(id: nat, elementName: string)

  datatype Section = Section(id: nat, handle: string, fields: seq<Field>)

  /** An entry: its id, its section and the stored data of each field id. */
  datatype Entry = Entry(id: nat, sectionId: nat, data: map<nat, string>)

  /**
   * A mapping `.json` file: its text and, for each top-level key of the JSON,
   * the names of the `properties` under it. A key that is missing stands for
   * a falsy `properties`.
   */
  datatype MappingFile = MappingFile(json: string, properties: map<string, seq<string>>)

  /** The object getAllTypes() stores for a section. */
  datatype Descriptor = Descriptor(
    section: Section,
    fields: seq<string>,
    engineType: Option<string>,
    mappingJson: string,
    mappingClass: string)

  /** Everything outside the class that its methods read. */
  datatype Environment = Environment(
    config: Settings,                        // the `elasticsearch` configuration group
    pingError: Option<string>,               // why building or pinging the client throws, if it does
    existingIndices: set<string>,            // indices that exist on the server
    liveMappings: set<string>,               // handles with a mapping in the live index
    sections: seq<Section>,                  // what SectionManager::fetch() returns
    mappingFiles: map<string, MappingFile>)  // mapping files, by file name without `.json`

  /** The field data handed to mapData(), by element name. */
  type FieldValues = map<string, Option<string>>

  /** A document body returned by mapData(); None stands for NULL or false. */
  type Document = map<string, string>

  /** PHP truthiness of mapData()'s result: neither NULL, false nor an empty array. */
  predicate Truthy(d: Option<Document>) {
    d.Some? && d.value != map[]
  }

  /** What indexEntry() or deleteEntry() asks the server to do. */
  datatype Action =
    | Skipped
    | Indexed(index: IndexHandle, typeName: string, id: nat, body: Document)
    | Deleted(id: nat)

  // ---------------------------------------------------------------------------
  // init()
  // ---------------------------------------------------------------------------

  /** An empty argument falls back to the configured value. */
  function Fallback(argument: string, configured: string): string {
    if Empty(argument) then configured else argument
  }

  function Resolve(given: Settings, config: Settings): Settings {
    Settings(Fallback(given.host, config.host), Fallback(given.indexName, config.indexName),
             Fallback(given.username, config.username), Fallback(given.password, config.password))
  }

  /**
   * Lines 32-76 of init(): the connection made from the arguments and the
   * configuration, or the exception thrown. A missing host is reported
   * before a missing index name, and both before any client is built.
   */
  function Connect(given: Settings, env: Environment): (r: Result<Connection, Error>)
    ensures r == Failure(HostNotSet) <==> Empty(given.host) && Empty(env.config.host)
    ensures r == Failure(IndexNameNotSet) <==>
              !(Empty(given.host) && Empty(env.config.host))
              && Empty(given.indexName) && Empty(env.config.indexName)
    ensures r.Success? <==>
              !(Empty(given.host) && Empty(env.config.host))
              && !(Empty(given.indexName) && Empty(env.config.indexName))
              && env.pingError.None?
    ensures !(Empty(given.host) && Empty(env.config.host))
            && !(Empty(given.indexName) && Empty(env.config.indexName))
            && env.pingError.Some? ==>
              && r == Failure(ClientFailed(env.pingError.value))
              && Message(r.error) == "ElasticSearch client: " + env.pingError.value
    ensures r.Success? ==>
              && r.value.client.host == (if Empty(given.host) then env.config.host else given.host)
              && r.value.index.name == (if Empty(given.indexName) then env.config.indexName else given.indexName)
              && (r.value.index.Existing? <==> r.value.index.name in env.existingIndices)
    ensures r.Success? ==>
              (r.value.client.auth.Some? <==>
                 !(Empty(given.username) && Empty(env.config.username))
                 && !(Empty(given.password) && Empty(env.config.password)))
    ensures r.Success? && r.value.client.auth.Some? ==>
              r.value.client.auth.value == Credentials(Fallback(given.username, env.config.username),
                                                       Fallback(given.password, env.config.password))
  {
    var s := Resolve(given, env.config);
    if Empty(s.host) then
      Failure(HostNotSet)
    else if Empty(s.indexName) then
      Failure(IndexNameNotSet)
    else if env.pingError.Some? then
      Failure(ClientFailed(env.pingError.value))
    else
      var auth := if !Empty(s.username) && !Empty(s.password)
                  then Some(Credentials(s.username, s.password)) else None;
      var index := if s.indexName in env.existingIndices then Existing(s.indexName) else Created(s.indexName);
      Success(Connection(Client(s.host, auth), index))
  }

  // ---------------------------------------------------------------------------
  // getAllTypes()
  // ---------------------------------------------------------------------------

  /** The file name of a section's mappings: its handle with each `-` replaced by `_`. */
  function FileBase(handle: string): (r: string)
    ensures |r| == |handle| && '-' !in r
    ensures forall i :: 0 <= i < |r| && handle[i] != '-' ==> r[i] == handle[i]
    ensures forall i :: 0 <= i < |r| && handle[i] == '-' ==> r[i] == '_'
  {
    if handle == [] then []
    else [if handle[0] == '-' then '_' else handle[0]] + FileBase(handle[1..])
  }

  /** The class a section's `.php` mapping file declares. */
  function MappingClassName(handle: string): string {
    "elasticsearch_" + FileBase(handle)
  }

  /** Lines 130-152: the descriptor of a section whose mapping file is `file`. */
  function Describe(s: Section, file: MappingFile, live: set<string>): (d: Descriptor)
    requires s.handle in file.properties
    ensures d.section == s && d.fields == file.properties[s.handle] && d.mappingJson == file.json
    ensures d.engineType.Some? <==> s.handle in live
    ensures d.engineType.Some? ==> d.engineType.value == s.handle
  {
    Descriptor(s, file.properties[s.handle], if s.handle in live then Some(s.handle) else None,
               file.json, MappingClassName(s.handle))
  }

  /** A section with a mapping file whose JSON has no `properties` for it. */
  predicate Malformed(s: Section, files: map<string, MappingFile>) {
    FileBase(s.handle) in files && s.handle !in files[FileBase(s.handle)].properties
  }

  /** One pass of the loop at lines 118-153. */
  function AddSection(t: map<string, Descriptor>, s: Section, files: map<string, MappingFile>,
                      live: set<string>): (r: Result<map<string, Descriptor>, Error>)
    ensures r.Failure? <==> Malformed(s, files)
    ensures r.Failure? ==> r.error == InvalidMapping(s.handle)
    ensures r.Success? ==> r.value.Keys == t.Keys + (if FileBase(s.handle) in files then {s.handle} else {})
    ensures r.Success? ==> forall h :: h in t && h != s.handle ==> h in r.value && r.value[h] == t[h]
  {
    var base := FileBase(s.handle);
    if base !in files then Success(t)
    else if s.handle !in files[base].properties then Failure(InvalidMapping(s.handle))
    else Success(t[s.handle := Describe(s, files[base], live)])
  }

  /** The table built by the loop at lines 118-153 over `sections`, in order. */
  function TypeTable(sections: seq<Section>, files: map<string, MappingFile>,
                     live: set<string>): (r: Result<map<string, Descriptor>, Error>)
    ensures r.Success? ==> forall h :: h in r.value ==> r.value[h].section.handle == h
    decreases |sections|
  {
    if sections == [] then Success(map[])
    else
      match TypeTable(sections[..|sections| - 1], files, live)
      case Failure(e) => Failure(e)
      case Success(t) => AddSection(t, sections[|sections| - 1], files, live)
  }

  /**
   * Each descriptor is keyed by its section's handle, belongs to a section
   * that has a mapping file, lists that file's properties, and has a `type`
   * exactly when its handle is among the live mappings.
   */
  lemma {:induction false} TypeTableEntries(sections: seq<Section>, files: map<string, MappingFile>,
                                            live: set<string>)
    requires TypeTable(sections, files, live).Success?
    ensures forall h :: h in TypeTable(sections, files, live).value ==>
              var d := TypeTable(sections, files, live).value[h];
              && d.section in sections && d.section.handle == h
              && FileBase(h) in files && h in files[FileBase(h)].properties
              && d.fields == files[FileBase(h)].properties[h]
              && d.mappingJson == files[FileBase(h)].json
              && d.mappingClass == MappingClassName(h)
              && d.engineType == (if h in live then Some(h) else None)
    decreases |sections|
  {
    if sections != [] {
      var init := sections[..|sections| - 1];
      TypeTableEntries(init, files, live);
      assert forall x :: x in init ==> x in sections;
    }
  }

  /** Every section that has a mapping file gets a descriptor. */
  lemma {:induction false} TypeTableComplete(sections: seq<Section>, files: map<string, MappingFile>,
                                             live: set<string>)
    requires TypeTable(sections, files, live).Success?
    ensures forall s :: s in sections && FileBase(s.handle) in files ==>
              s.handle in TypeTable(sections, files, live).value
    decreases |sections|
  {
    if sections != [] {
      var init := sections[..|sections| - 1];
      TypeTableComplete(init, files, live);
      assert sections == init + [sections[|sections| - 1]];
    }
  }

  /**
   * Building fails exactly when some section's mapping file has no
   * `properties` for it, and the exception names such a section.
   */
  lemma {:induction false} TypeTableFailure(sections: seq<Section>, files: map<string, MappingFile>,
                                            live: set<string>)
    ensures TypeTable(sections, files, live).Failure? <==> exists s :: s in sections && Malformed(s, files)
    ensures TypeTable(sections, files, live).Failure? ==>
              exists s :: s in sections && Malformed(s, files)
                          && TypeTable(sections, files, live).error == InvalidMapping(s.handle)
                          && Message(TypeTable(sections, files, live).error) == "Invalid mapping JSON for " + s.handle
    decreases |sections|
  {
    if sections != [] {
      var init := sections[..|sections| - 1];
      var last := sections[|sections| - 1];
      TypeTableFailure(init, files, live);
      assert sections == init + [last];
      assert forall x :: x in sections <==> x in init || x == last;
      match TypeTable(init, files, live)
      case Failure(e) =>
        assert TypeTable(sections, files, live) == Failure(e);
      case Success(t) =>
        if Malformed(last, files) {
          assert TypeTable(sections, files, live) == Failure(InvalidMapping(last.handle));
        } else {
          assert TypeTable(sections, files, live).Success?;
        }
    }
  }

  /** Once a prefix of the sections has failed, the whole build fails the same way. */
  lemma {:induction false} TypeTableFailureStays(sections: seq<Section>, k: int,
                                                 files: map<string, MappingFile>, live: set<string>)
    requires 0 <= k <= |sections| && TypeTable(sections[..k], files, live).Failure?
    ensures TypeTable(sections, files, live) == TypeTable(sections[..k], files, live)
    decreases |sections| - k
  {
    if k < |sections| {
      assert sections[..k + 1][..k] == sections[..k];
      TypeTableFailureStays(sections, k + 1, files, live);
    } else {
      assert sections[..k] == sections;
    }
  }

  /** The loop at lines 118-153, run over the given sections. */
  method BuildTypes(sections: seq<Section>, files: map<string, MappingFile>, live: set<string>)
    returns (r: Result<map<string, Descriptor>, Error>)
    ensures r == TypeTable(sections, files, live)
  {
    var types: map<string, Descriptor> := map[];
    var i := 0;
    while i < |sections|
      invariant 0 <= i <= |sections|
      invariant TypeTable(sections[..i], files, live) == Success(types)
    {
      var s := sections[i];
      assert sections[..i + 1][..i] == sections[..i];
      var base := FileBase(s.handle);
      if base in files {
        var file := files[base];
        if s.handle !in file.properties {
          TypeTableFailureStays(sections, i + 1, files, live);
          return Failure(InvalidMapping(s.handle));
        }
        types := types[s.handle := Describe(s, file, live)];
      }
      i := i + 1;
    }
    assert sections[..i] == sections;
    return Success(types);
  }

  // ---------------------------------------------------------------------------
  // indexEntry()
  // ---------------------------------------------------------------------------

  /** The entry's data for a field id: `$entry->getData($id)`. */
  function EntryData(entry: Entry, fieldId: nat): Option<string> {
    if fieldId in entry.data then Some(entry.data[fieldId]) else None
  }

  /** Lines 206-209: the entry's data by element name, a later field winning over an earlier one. */
  function FieldData(fields: seq<Field>, entry: Entry): (r: FieldValues)
    ensures fields == [] ==> r == map[]
    ensures fields != [] ==>
              && fields[|fields| - 1].elementName in r
              && r[fields[|fields| - 1].elementName] == EntryData(entry, fields[|fields| - 1].id)
    decreases |fields|
  {
    if fields == [] then map[]
    else
      var last := fields[|fields| - 1];
      FieldData(fields[..|fields| - 1], entry)[last.elementName := EntryData(entry, last.id)]
  }

  /** The element names present are exactly those of the fields. */
  lemma {:induction false} FieldDataKeys(fields: seq<Field>, entry: Entry)
    ensures forall name :: name in FieldData(fields, entry) <==>
              exists k :: 0 <= k < |fields| && fields[k].elementName == name
    decreases |fields|
  {
    if fields != [] {
      var init := fields[..|fields| - 1];
      FieldDataKeys(init, entry);
      forall name | name in FieldData(fields, entry)
        ensures exists k :: 0 <= k < |fields| && fields[k].elementName == name
      {
        if name != fields[|fields| - 1].elementName {
          assert name in FieldData(init, entry);
          var k :| 0 <= k < |init| && init[k].elementName == name;
          assert fields[k] == init[k];
        }
      }
      forall name | exists k :: 0 <= k < |fields| && fields[k].elementName == name
        ensures name in FieldData(fields, entry)
      {
        var k :| 0 <= k < |fields| && fields[k].elementName == name;
        if k < |init| {
          assert init[k] == fields[k];
        }
      }
    }
  }

  /** The value under an element name is the data of the last field with that name. */
  lemma {:induction false} FieldDataLastWins(fields: seq<Field>, entry: Entry, k: int)
    requires 0 <= k < |fields|
    requires forall m :: k < m < |fields| ==> fields[m].elementName != fields[k].elementName
    ensures fields[k].elementName in FieldData(fields, entry)
    ensures FieldData(fields, entry)[fields[k].elementName] == EntryData(entry, fields[k].id)
    decreases |fields|
  {
    if k < |fields| - 1 {
      var init := fields[..|fields| - 1];
      assert init[k] == fields[k];
      FieldDataLastWins(init, entry, k);
    }
  }

  /** The loop at lines 206-209. */
  method CollectFieldData(fields: seq<Field>, entry: Entry) returns (data: FieldValues)
    ensures data == FieldData(fields, entry)
  {
    data := map[];
    var i := 0;
    while i < |fields|
      invariant 0 <= i <= |fields|
      invariant data == FieldData(fields[..i], entry)
    {
      assert fields[..i + 1][..i] == fields[..i];
      data := data[fields[i].elementName := EntryData(entry, fields[i].id)];
      i := i + 1;
    }
    assert fields[..i] == fields;
  }

  /** PHP falsiness of a descriptor's `type`: NULL, "" or "0". */
  predicate Untyped(d: Descriptor) {
    d.engineType.None? || Empty(d.engineType.value)
  }

  /**
   * Lines 200-223: with the section's descriptor `d`, an entry is skipped
   * when there is no descriptor or its `type` is falsy, indexed under its
   * section's handle when mapData() returns something truthy, and deleted
   * otherwise.
   */
  function EntryAction(d: Option<Descriptor>, index: IndexHandle, section: Section, entry: Entry,
                       mapData: (string, FieldValues, Entry) -> Option<Document>): (r: Action)
    ensures r == Skipped <==> d.None? || Untyped(d.value)
    ensures r.Indexed? <==>
              d.Some? && !Untyped(d.value)
              && Truthy(mapData(d.value.mappingClass, FieldData(section.fields, entry), entry))
    ensures r.Indexed? ==>
              r == Indexed(index, section.handle, entry.id,
                           mapData(d.value.mappingClass, FieldData(section.fields, entry), entry).value)
    ensures r.Deleted? ==> r.id == entry.id
  {
    if d.None? || Untyped(d.value) then
      Skipped
    else
      var body := mapData(d.value.mappingClass, FieldData(section.fields, entry), entry);
      if Truthy(body) then Indexed(index, section.handle, entry.id, body.value) else Deleted(entry.id)
  }

  /** The descriptor stored for a handle, or NULL. */
  function Lookup(types: map<string, Descriptor>, handle: string): (r: Option<Descriptor>)
    ensures r.Some? <==> handle in types
    ensures r.Some? ==> r.value == types[handle]
  {
    if handle in types then Some(types[handle]) else None
  }

  /**
   * What getAllTypes() returns from a state holding `types`, connected or
   * not: the stored table when it has a descriptor, else the exception of
   * init(), else the table built from the sections.
   */
  function SessionTable(types: map<string, Descriptor>, connected: bool, env: Environment)
    : Result<map<string, Descriptor>, Error>
  {
    if types != map[] then Success(types)
    else if !connected && Connect(NoArguments, env).Failure? then Failure(Connect(NoArguments, env).error)
    else TypeTable(env.sections, env.mappingFiles, env.liveMappings)
  }

  // ---------------------------------------------------------------------------
  // The class
  // ---------------------------------------------------------------------------

  /** The static state of class ElasticSearch and its methods. */
  class ElasticSearch {
    var client: Option<Client>
    var index: Option<IndexHandle>
    var types: map<string, Descriptor>
    var mappings: set<string>

    /** init() has set both the client and the index. */
    predicate Connected()
      reads this
    {
      client.Some? && index.Some?
    }

    /**
     * Client and index are set together; a type table exists only once
     * connected; each descriptor is keyed by its handle and has a `type`
     * exactly when its handle is among the stored mappings.
     */
    ghost predicate Valid()
      reads this
    {
      && (client.Some? <==> index.Some?)
      && (types != map[] ==> client.Some?)
      && forall h :: h in types ==>
           types[h].section.handle == h && types[h].engineType == (if h in mappings then Some(h) else None)
    }

    /**
     * The state after a call that goes through getAllTypes(): unchanged when
     * a table was stored or init() throws; otherwise connected, holding the
     * live mappings, and holding the built table unless building throws.
     */
    twostate predicate LoadedFrom(env: Environment)
      reads this
    {
      if old(types) != map[] || (!old(Connected()) && Connect(NoArguments, env).Failure?) then
        types == old(types) && mappings == old(mappings) && client == old(client) && index == old(index)
      else
        && mappings == env.liveMappings
        && types == (match TypeTable(env.sections, env.mappingFiles, env.liveMappings)
                     case Success(t) => t
                     case Failure(_) => old(types))
        && (old(Connected()) ==> client == old(client) && index == old(index))
        && (!old(Connected()) ==> client == Some(Connect(NoArguments, env).value.client)
                                  && index == Some(Connect(NoArguments, env).value.index))
    }

    /** The initial values of the static fields. */
    constructor ()
      ensures client == None && index == None && types == map[] && mappings == {}
      ensures Valid()
    {
      client := None;
      index := None;
      types := map[];
      mappings := {};
    }

    /** flush(): forget the connection, the type table and the mappings. */
    method Flush()
      modifies this
      ensures client == None && index == None && types == map[] && mappings == {}
      ensures Valid()
    {
      client := None;
      index := None;
      types := map[];
      mappings := {};
    }

    /**
     * init(): nothing happens once connected; otherwise connect as Connect
     * says, or throw and change nothing.
     */
    method Init(env: Environment, given: Settings) returns (r: Outcome<Error>)
      requires Valid()
      modifies this
      ensures Valid()
      ensures types == old(types) && mappings == old(mappings)
      ensures old(Connected()) ==> r == Pass && client == old(client) && index == old(index)
      ensures !old(Connected()) && Connect(given, env).Success? ==>
                && r == Pass
                && client == Some(Connect(given, env).value.client)
                && index == Some(Connect(given, env).value.index)
      ensures !old(Connected()) && Connect(given, env).Failure? ==>
                r == Fail(Connect(given, env).error) && client == old(client) && index == old(index)
    {
      if Connected() {
        return Pass;
      }
      var c := Connect(given, env);
      if c.Failure? {
        return Fail(c.error);
      }
      client := Some(c.value.client);
      index := Some(c.value.index);
      return Pass;
    }

    /**
     * getAllTypes(): connect without arguments, then return the stored table
     * if it has any descriptor; otherwise store the live mappings and build
     * the table from the sections, storing it unless building throws.
     */
    method GetAllTypes(env: Environment) returns (r: Result<map<string, Descriptor>, Error>)
      requires Valid()
      modifies this
      ensures Valid() && LoadedFrom(env)
      ensures r == SessionTable(old(types), old(Connected()), env)
      ensures r.Success? ==> Connected() && types == r.value
    {
      var connected := Init(env, NoArguments);
      if connected.Fail? {
        return Failure(connected.error);
      }
      if types != map[] {
        return Success(types);
      }
      mappings := env.liveMappings;
      var built := BuildTypes(env.sections, env.mappingFiles, mappings);
      if built.Failure? {
        return built;
      }
      TypeTableEntries(env.sections, env.mappingFiles, mappings);
      types := built.value;
      return built;
    }

    /**
     * getTypeByHandle(): the `in_array` test at line 97 compares the handle
     * with the stored descriptors, never equal to a string, so every lookup
     * goes through GetAllTypes and yields the descriptor for the handle, or
     * NULL when there is none.
     */
    method GetTypeByHandle(env: Environment, handle: string) returns (r: Result<Option<Descriptor>, Error>)
      requires Valid()
      modifies this
      ensures Valid() && LoadedFrom(env)
      ensures r == match SessionTable(old(types), old(Connected()), env)
                   case Success(t) => Success(Lookup(t, handle))
                   case Failure(e) => Failure(e)
      ensures r.Success? ==> Connected() && r.value == Lookup(types, handle)
    {
      var all := GetAllTypes(env);
      if all.Failure? {
        return Failure(all.error);
      }
      types := all.value;
      return Success(Lookup(types, handle));
    }

    /**
     * deleteEntry(): look the section's descriptor up; without one, do
     * nothing; with one, delete the entry's document.
     */
    method DeleteEntry(env: Environment, entry: Entry, section: Section) returns (r: Result<Action, Error>)
      requires Valid()
      modifies this
      ensures Valid() && LoadedFrom(env)
      ensures r == match SessionTable(old(types), old(Connected()), env)
                   case Success(t) => Success(if section.handle in t then Deleted(entry.id) else Skipped)
                   case Failure(e) => Failure(e)
    {
      var d := GetTypeByHandle(env, section.handle);
      if d.Failure? {
        return Failure(d.error);
      }
      if d.value.None? {
        return Success(Skipped);
      }
      return Success(Deleted(entry.id));
    }

    /**
     * indexEntry(): connect, look the section's descriptor up, then skip,
     * index or delete the entry as EntryAction says.
     */
    method IndexEntry(env: Environment, entry: Entry, section: Section,
                      mapData: (string, FieldValues, Entry) -> Option<Document>)
      returns (r: Result<Action, Error>)
      requires Valid()
      modifies this
      ensures Valid() && LoadedFrom(env)
      ensures match SessionTable(old(types), old(Connected()), env)
              case Success(t) =>
                Connected() && r == Success(EntryAction(Lookup(t, section.handle), index.value, section, entry, mapData))
              case Failure(e) => r == Failure(e)
    {
      var connected := Init(env, NoArguments);
      if connected.Fail? {
        return Failure(connected.error);
      }
      var d := GetTypeByHandle(env, section.handle);
      if d.Failure? {
        return Failure(d.error);
      }
      if d.value.None? || Untyped(d.value.value) {
        return Success(Skipped);
      }
      var data := CollectFieldData(section.fields, entry);
      var body := mapData(d.value.value.mappingClass, data, entry);
      if Truthy(body) {
        return Success(Indexed(index.value, section.handle, entry.id, body.value));
      }
      r := DeleteEntry(env, entry, section);
    }
  }

  /**
   * The type table is built once per session: after a lookup that built it,
   * a second lookup returns a descriptor from the same table even when the
   * sections, mapping files or live mappings have changed since.
   */
  method LookupTwice(es: ElasticSearch, before: Environment, after: Environment, first: string, second: string)
    returns (r1: Result<Option<Descriptor>, Error>, r2: Result<Option<Descriptor>, Error>)
    requires es.Valid()
    modifies es
    ensures r1.Success? && old(es.types) != map[] ==>
              r2 == Success(Lookup(old(es.types), second)) && es.types == old(es.types)
    ensures r1.Success? && old(es.types) == map[]
            && TypeTable(before.sections, before.mappingFiles, before.liveMappings) != Success(map[]) ==>
              && TypeTable(before.sections, before.mappingFiles, before.liveMappings) == Success(es.types)
              && r2 == Success(Lookup(es.types, second))
  {
    r1 := es.GetTypeByHandle(before, first);
    r2 := es.GetTypeByHandle(after, second);
  }
}
