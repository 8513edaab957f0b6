/** The configuration of native extensions: what is visible of it, and the revisions that stand for it. */
module Preferences {
  import opened Wrappers
  import opened JsText
  import opened Numbers
  import StoreKeys

  // --- Preference values -----------------------------------------------------------------------

  datatype Value =
    | Null
    | Bool(value: bool)
    | Number(number: int)
    | Text(text: string)
    | List(items: seq<Value>)
    | Object(fields: Record)

  type Record = map<string, Value>

  datatype PreferenceKind = Checkbox | Dropdown(first: Option<string>) | ApplicationPicker | OtherKind

  datatype Preference = Preference(name: string, kind: PreferenceKind, fallback: Option<Value>)

  /** A property of an application, trimmed, if it says anything. */
  function Kept(fields: Record, name: string): Record {
    if name in fields && fields[name].Text? && Trim(fields[name].text) != "" then map[name := Text(Trim(fields[name].text))]
    else map[]
  }

  function ApplicationFields(fields: Record): Record {
    Kept(fields, "name") + Kept(fields, "bundleId") + Kept(fields, "path")
  }

  /** `normalizeNativeExtensionApplicationPreferenceValue`. */
  function NormalApplication(v: Value): Value {
    match v
    case Text(text) => if Trim(text) != "" then Object(map["name" := Text(Trim(text))]) else Null
    case Object(fields) => if ApplicationFields(fields) == map[] then Null else Object(ApplicationFields(fields))
    case _ => Null
  }

  function Normal(p: Preference, v: Value): Value {
    if p.kind.ApplicationPicker? then NormalApplication(v) else v
  }

  function Default(p: Preference): Value {
    if p.fallback.Some? then Normal(p, p.fallback.value)
    else
      match p.kind
      case Checkbox => Bool(false)
      case Dropdown(first) => Text(if first.Some? then first.value else "")
      case _ => Text("")
  }

  /** The value of a preference in a record; its default where the record has none, or null. */
  function ValueFor(p: Preference, record: Record): Value {
    Normal(p, if p.name in record && record[p.name] != Null then record[p.name] else Default(p))
  }

  /** `normalizePreferenceRecord`: blank names do not count. */
  function Named(record: Record): Record {
    map name | name in record && Trim(name) != "" :: record[name]
  }

  function Resolve(schema: seq<Preference>, record: Record): Record {
    if schema == [] then map[]
    else
      var p := schema[|schema| - 1];
      Resolve(schema[..|schema| - 1], record)[p.name := ValueFor(p, record)]
  }

  /** The preference of a name; the last one, should there be several. */
  function LastNamed(schema: seq<Preference>, name: string): (p: Option<Preference>)
    ensures p.Some? ==> p.value.name == name
  {
    if schema == [] then None
    else if schema[|schema| - 1].name == name then Some(schema[|schema| - 1])
    else LastNamed(schema[..|schema| - 1], name)
  }

  function Public(names: seq<string>, record: Record): Record {
    map name | name in names && name in record :: record[name]
  }

  // --- Manifests and state ---------------------------------------------------------------------

  datatype Connection = Connection(id: string, provider: string, secretNames: Option<seq<string>>, publicNames: seq<string>)

  datatype Command = Command(name: string, preferences: seq<Preference>)

  datatype Manifest = Manifest(name: string, preferences: seq<Preference>, commands: seq<Command>, connection: Connection)

  /** How the keys are built. */
  datatype Keys = Keys(
    owner: (string, string, string) -> string,
    revision: (string, string) -> string,
    command: (string, string) -> Option<string>)
  {
    function Owner(extensionName: string, provider: string, connectionId: string): string {
      owner(extensionName, provider, connectionId)
    }

    function CommandRevision(extensionName: string, commandName: string): string {
      revision(extensionName, commandName)
    }

    function CommandPreference(extensionName: string, commandName: string): Option<string> {
      command(extensionName, commandName)
    }

    ghost predicate Injective() {
      && (forall e, p, c, e', p', c' {:trigger Owner(e, p, c), Owner(e', p', c')} ::
            Owner(e, p, c) == Owner(e', p', c') ==> e == e' && p == p' && c == c')
      && (forall e, c, e', c' {:trigger CommandRevision(e, c), CommandRevision(e', c')} ::
            CommandRevision(e, c) == CommandRevision(e', c') ==> e == e' && c == c')
      && (forall e, c, e', c' {:trigger CommandPreference(e, c), CommandPreference(e', c')} ::
            CommandPreference(e, c).Some? && CommandPreference(e, c) == CommandPreference(e', c') ==> e == e' && c == c')
    }
  }

  function StoreKeyBuilders(): Keys {
    Keys((e, p, c) => StoreKeys.ConnectionOwnerKey(e, p, c), (e, c) => StoreKeys.CommandRevisionKey(e, c),
         (e, c) => StoreKeys.CommandPreferenceKey(e, c))
  }

  lemma StoreKeysAreInjective()
    ensures StoreKeyBuilders().Injective()
  {
    var keys := StoreKeyBuilders();
    forall e, p, c, e', p', c' | keys.Owner(e, p, c) == keys.Owner(e', p', c') ensures e == e' && p == p' && c == c' {
      StoreKeys.ConnectionOwnerKeyInjective(e, p, c, e', p', c');
    }
    forall e, c, e', c' | keys.CommandRevision(e, c) == keys.CommandRevision(e', c') ensures e == e' && c == c' {
      StoreKeys.CommandRevisionKeyInjective(e, c, e', c');
    }
    forall e, c, e', c' | keys.CommandPreference(e, c).Some? && keys.CommandPreference(e, c) == keys.CommandPreference(e', c')
      ensures e == e' && c == c'
    {
      StoreKeys.CommandPreferenceKeyInjective(e, c, e', c');
    }
  }

  /** What does not change: the keys and the manifests. */
  datatype Setup = Setup(keys: Keys, manifests: seq<Manifest>) {
    function Manifest(name: string): (manifest: Option<Manifest>)
      ensures manifest.Some? ==> manifest.value.name == name
    {
      FindManifest(manifests, name)
    }
  }

  function FindManifest(manifests: seq<Manifest>, name: string): (manifest: Option<Manifest>)
    ensures manifest.Some? ==> manifest.value.name == name
  {
    if manifests == [] then None
    else if manifests[0].name == name then Some(manifests[0])
    else FindManifest(manifests[1..], name)
  }

  function FindCommand(commands: seq<Command>, name: string): Option<Command> {
    if commands == [] then None else if commands[0].name == name then Some(commands[0]) else FindCommand(commands[1..], name)
  }

  datatype ConnectionRevisions = ConnectionRevisions(config: nat, credential: nat)

  datatype State = State(
    secrets: map<string, map<string, string>>,
    extensionPreferences: map<string, Record>,
    commandPreferences: map<string, Record>,
    commandConfigs: map<string, nat>,
    connectionConfigs: map<string, ConnectionRevisions>,
    extensionConfigs: map<string, nat>)

  function Lookup<V>(entries: map<string, V>, key: string): Option<V> {
    if key in entries then Some(entries[key]) else None
  }

  function Revision(entries: map<string, nat>, key: string): nat {
    if key in entries then entries[key] else 0
  }

  function RevisionsOf(state: State, key: string): ConnectionRevisions {
    if key in state.connectionConfigs then state.connectionConfigs[key] else ConnectionRevisions(0, 0)
  }

  /** `incrementNativeExtensionRevision`, which fails where integers stop being exact. */
  function Increment(revision: nat): (next: Option<nat>)
    ensures next.Some? ==> next.value == revision + 1
  {
    if revision < MAX_SAFE_INTEGER then Some(revision + 1) else None
  }

  // --- What is visible -------------------------------------------------------------------------

  function OwnerKey(setup: Setup, manifest: Manifest): string {
    setup.keys.Owner(manifest.name, manifest.connection.provider, manifest.connection.id)
  }

  /** The name of a command, where an empty one is as good as none. */
  function Given(command: Option<string>): Option<string> {
    if command == Some("") then None else command
  }

  /** The stored values that a snapshot is made from. */
  datatype Parts = Parts(extension: Option<Record>, command: Option<Record>, secrets: Option<map<string, string>>)

  function CommandPart(setup: Setup, state: State, manifest: Manifest, command: Option<string>): Option<Record> {
    if Given(command).None? then None
    else
      var key := setup.keys.CommandPreference(manifest.name, Given(command).value);
      if key.None? then None else Lookup(state.commandPreferences, key.value)
  }

  function PartsOf(setup: Setup, state: State, manifest: Manifest, command: Option<string>): Parts {
    Parts(Lookup(state.extensionPreferences, manifest.name), CommandPart(setup, state, manifest, command),
          Lookup(state.secrets, OwnerKey(setup, manifest)))
  }

  function OrEmpty<V>(entries: Option<map<string, V>>): map<string, V> {
    if entries.Some? then entries.value else map[]
  }

  function VisibleExtension(manifest: Manifest, stored: Option<Record>): Record {
    Resolve(manifest.preferences, Named(OrEmpty(stored)))
  }

  /** Nothing if the command is not declared, or its name is refused. */
  function VisibleCommand(setup: Setup, manifest: Manifest, name: string, parts: Parts): Option<Record> {
    var command := FindCommand(manifest.commands, name);
    if command.None? || setup.keys.CommandPreference(manifest.name, name).None? then None
    else Some(VisibleExtension(manifest, parts.extension) + Resolve(command.value.preferences, Named(OrEmpty(parts.command))))
  }

  function NormalSecrets(record: map<string, string>): map<string, string> {
    map name | name in record && Trim(name) != "" && record[name] != "" :: record[name]
  }

  function Selected(names: seq<string>, record: map<string, string>): map<string, string> {
    map name | name in names && name in record && record[name] != "" :: record[name]
  }

  function SecretNames(manifest: Manifest): seq<string> {
    if manifest.connection.secretNames.Some? then manifest.connection.secretNames.value else []
  }

  function VisibleSecrets(manifest: Manifest, stored: Option<map<string, string>>): map<string, string> {
    Selected(SecretNames(manifest), NormalSecrets(OrEmpty(stored)))
  }

  datatype Token = Token(
    commandName: Option<string>, connectionId: string, extensionName: string, provider: string,
    commandConfig: nat, connectionConfig: nat, credential: nat, extensionConfig: nat)
  {
    function Total(): nat {
      commandConfig + connectionConfig + credential + extensionConfig
    }
  }

  function TokenOf(setup: Setup, state: State, manifest: Manifest, command: Option<string>): Token {
    var revisions := RevisionsOf(state, OwnerKey(setup, manifest));
    var given := Given(command);
    Token(given, manifest.connection.id, manifest.name, manifest.connection.provider,
          if given.Some? then Revision(state.commandConfigs, setup.keys.CommandRevision(manifest.name, given.value)) else 0,
          revisions.config, revisions.credential, Revision(state.extensionConfigs, manifest.name))
  }

  datatype Snapshot = Snapshot(
    commandPreferences: Option<Record>, secrets: map<string, string>, extensionPreferences: Record,
    publicConfig: Record, token: Token)

  /** Everything that is visible, made from the stored parts. */
  function SnapshotFrom(setup: Setup, manifest: Manifest, parts: Parts, token: Token): Option<Snapshot> {
    var extension := VisibleExtension(manifest, parts.extension);
    var command := if token.commandName.None? then None else VisibleCommand(setup, manifest, token.commandName.value, parts);
    if token.commandName.Some? && command.None? then None
    else Some(Snapshot(command, VisibleSecrets(manifest, parts.secrets), extension,
                       Public(manifest.connection.publicNames, extension), token))
  }

  /**
    * `getNativeExtensionConfigurationSnapshot`; nothing for a command that is not declared, or whose name has a
    * null character.
    */
  function SnapshotOf(setup: Setup, state: State, manifest: Manifest, command: Option<string>): Option<Snapshot> {
    SnapshotFrom(setup, manifest, PartsOf(setup, state, manifest, command), TokenOf(setup, state, manifest, command))
  }

  // --- Commits ---------------------------------------------------------------------------------

  datatype Change = CredentialChange | ExtensionChange | ConnectionChange | CommandChange

  datatype Outcome = Failed | Committed(state: State, snapshot: Snapshot, changed: seq<Change>)

  function Published(state: State, snapshot: Option<Snapshot>, changed: seq<Change>): Outcome {
    if snapshot.None? then Failed else Committed(state, snapshot.value, changed)
  }

  function PublicChanges(manifest: Manifest, stored: Option<Record>, next: Record): bool {
    var names := manifest.connection.publicNames;
    Public(names, VisibleExtension(manifest, stored)) != Public(names, Resolve(manifest.preferences, Named(next)))
  }

  /** The outcome of `setNativeExtensionPreferenceRecord`. */
  function ExtensionCommitted(setup: Setup, state: State, name: string, next: Record): Outcome {
    var found := setup.Manifest(name);
    if found.None? then Failed
    else
      var manifest, key := found.value, OwnerKey(setup, found.value);
      var revisions := RevisionsOf(state, key);
      var publicChanges := PublicChanges(manifest, Lookup(state.extensionPreferences, name), next);
      var config := if publicChanges then Increment(revisions.config) else Some(revisions.config);
      var extension := Increment(Revision(state.extensionConfigs, name));
      if config.None? || extension.None? then Failed
      else
        var newState := state.(
          extensionPreferences := state.extensionPreferences[name := Resolve(manifest.preferences, Named(next))],
          connectionConfigs := state.connectionConfigs[key := ConnectionRevisions(config.value, revisions.credential)],
          extensionConfigs := state.extensionConfigs[name := extension.value]);
        Published(newState, SnapshotOf(setup, newState, manifest, None),
                  [ExtensionChange] + if publicChanges then [ConnectionChange] else [])
  }

  /** The outcome of `setNativeExtensionCommandPreferenceRecord`. */
  function CommandCommitted(setup: Setup, state: State, name: string, commandName: string, next: Record): Outcome {
    var found := setup.Manifest(name);
    var key := setup.keys.CommandPreference(name, commandName);
    if found.None? || key.None? then Failed
    else
      var command := FindCommand(found.value.commands, commandName);
      var revisionKey := setup.keys.CommandRevision(name, commandName);
      var revision := Increment(Revision(state.commandConfigs, revisionKey));
      if command.None? || revision.None? then Failed
      else
        var newState := state.(
          commandPreferences := state.commandPreferences[key.value := Resolve(command.value.preferences, Named(next))],
          commandConfigs := state.commandConfigs[revisionKey := revision.value]);
        Published(newState, SnapshotOf(setup, newState, found.value, Some(commandName)), [CommandChange])
  }

  datatype SecretCommit = SecretCommit(
    connectionId: string, extensionName: string, provider: string, merge: bool, record: map<string, string>,
    expected: Option<Connection>)

  /** The manifest a secret commit is for, if it may be made. */
  function SecretOwner(setup: Setup, commit: SecretCommit): Option<Manifest> {
    var found := setup.Manifest(commit.extensionName);
    if found.None? then None
    else
      var connection := found.value.connection;
      if connection.id != commit.connectionId || connection.provider != commit.provider
         || (commit.expected.Some? && commit.expected.value != connection) || connection.secretNames.None?
      then None
      else found
  }

  function NextSecrets(
      manifest: Manifest, stored: Option<map<string, string>>, commit: SecretCommit): map<string, string> {
    var candidate := if commit.merge then VisibleSecrets(manifest, stored) + commit.record else commit.record;
    Selected(SecretNames(manifest), candidate)
  }

  function WithSecrets(
      secrets: map<string, map<string, string>>, key: string, next: map<string, string>): map<string, map<string, string>> {
    if next == map[] then secrets - {key} else secrets[key := next]
  }

  /** The outcome of `setNativeExtensionConnectionSecretRecord`. */
  function SecretsCommitted(setup: Setup, state: State, commit: SecretCommit): Outcome {
    var owner := SecretOwner(setup, commit);
    if owner.None? then Failed
    else
      var manifest, key := owner.value, OwnerKey(setup, owner.value);
      var stored := Lookup(state.secrets, key);
      var next := NextSecrets(manifest, stored, commit);
      if next == VisibleSecrets(manifest, stored) then Published(state, SnapshotOf(setup, state, manifest, None), [])
      else
        var revisions := RevisionsOf(state, key);
        var credential := Increment(revisions.credential);
        if credential.None? then Failed
        else
          var newState := state.(
            secrets := WithSecrets(state.secrets, key, next),
            connectionConfigs := state.connectionConfigs[key := revisions.(credential := credential.value)]);
          Published(newState, SnapshotOf(setup, newState, manifest, None), [CredentialChange])
  }

  // --- The store -------------------------------------------------------------------------------

  class PreferenceStore {
    const setup: Setup
    var settings: State

    constructor (setup: Setup)
      ensures this.setup == setup && settings == EmptyState()
    {
      this.setup := setup;
      settings := EmptyState();
    }

    /** `setNativeExtensionPreferenceRecord`. */
    method SetPreferenceRecord(name: string, next: Record) returns (outcome: Outcome)
      modifies this
      ensures outcome == ExtensionCommitted(setup, old(settings), name, next)
      ensures settings == if outcome.Failed? then old(settings) else outcome.state
    {
      var found := setup.Manifest(name);
      if found.None? {
        return Failed;
      }
      var manifest, state := found.value, settings;
      var normalized := Resolve(manifest.preferences, Named(next));
      var current := VisibleExtension(manifest, Lookup(state.extensionPreferences, name));
      var names := manifest.connection.publicNames;
      var publicChanges := Public(names, current) != Public(names, normalized);
      var key := OwnerKey(setup, manifest);
      var revisions := RevisionsOf(state, key);
      var changed := [ExtensionChange];
      if publicChanges {
        var config := Increment(revisions.config);
        if config.None? {
          return Failed;
        }
        revisions := revisions.(config := config.value);
        changed := changed + [ConnectionChange];
      }
      var extension := Increment(Revision(state.extensionConfigs, name));
      if extension.None? {
        return Failed;
      }
      state := state.(extensionPreferences := state.extensionPreferences[name := normalized],
                      connectionConfigs := state.connectionConfigs[key := revisions],
                      extensionConfigs := state.extensionConfigs[name := extension.value]);
      var snapshot := SnapshotOf(setup, state, manifest, None);
      if snapshot.None? {
        return Failed;
      }
      settings := state;
      outcome := Committed(state, snapshot.value, changed);
    }

    /** `setNativeExtensionCommandPreferenceRecord`. */
    method SetCommandPreferenceRecord(name: string, commandName: string, next: Record) returns (outcome: Outcome)
      modifies this
      ensures outcome == CommandCommitted(setup, old(settings), name, commandName, next)
      ensures settings == if outcome.Failed? then old(settings) else outcome.state
    {
      var found := setup.Manifest(name);
      if found.None? {
        return Failed;
      }
      var manifest, state := found.value, settings;
      var key := setup.keys.CommandPreference(name, commandName);
      if key.None? {
        return Failed;
      }
      var revisionKey := setup.keys.CommandRevision(name, commandName);
      var command := FindCommand(manifest.commands, commandName);
      if command.None? {
        return Failed;
      }
      var normalized := Resolve(command.value.preferences, Named(next));
      var revision := Increment(Revision(state.commandConfigs, revisionKey));
      if revision.None? {
        return Failed;
      }
      state := state.(commandPreferences := state.commandPreferences[key.value := normalized],
                      commandConfigs := state.commandConfigs[revisionKey := revision.value]);
      var snapshot := SnapshotOf(setup, state, manifest, Some(commandName));
      if snapshot.None? {
        return Failed;
      }
      settings := state;
      outcome := Committed(state, snapshot.value, [CommandChange]);
    }

    /** `setNativeExtensionConnectionSecretRecord`. */
    method SetConnectionSecretRecord(commit: SecretCommit) returns (outcome: Outcome)
      modifies this
      ensures outcome == SecretsCommitted(setup, old(settings), commit)
      ensures settings == if outcome.Failed? then old(settings) else outcome.state
    {
      var owner := SecretOwner(setup, commit);
      if owner.None? {
        return Failed;
      }
      var manifest, state := owner.value, settings;
      var key := OwnerKey(setup, manifest);
      var current := VisibleSecrets(manifest, Lookup(state.secrets, key));
      var next := Selected(SecretNames(manifest), if commit.merge then current + commit.record else commit.record);
      if next == current {
        return Published(state, SnapshotOf(setup, state, manifest, None), []);
      }
      var revisions := RevisionsOf(state, key);
      var credential := Increment(revisions.credential);
      if credential.None? {
        return Failed;
      }
      state := state.(secrets := WithSecrets(state.secrets, key, next),
                      connectionConfigs := state.connectionConfigs[key := revisions.(credential := credential.value)]);
      var snapshot := SnapshotOf(setup, state, manifest, None);
      if snapshot.None? {
        return Failed;
      }
      settings := state;
      outcome := Committed(state, snapshot.value, [CredentialChange]);
    }
  }

  function EmptyState(): State {
    State(map[], map[], map[], map[], map[], map[])
  }
}
