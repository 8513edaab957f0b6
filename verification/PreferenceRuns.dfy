/** Runs of configuration commits: what revision tokens promise. */
module PreferenceRuns {
  import opened Wrappers
  import opened JsText
  import opened Preferences

  datatype Event =
    | SetExtension(name: string, record: Record)
    | SetCommand(name: string, commandName: string, record: Record)
    | SetSecrets(commit: SecretCommit)

  function OutcomeOf(setup: Setup, state: State, event: Event): Outcome {
    match event
    case SetExtension(name, record) => ExtensionCommitted(setup, state, name, record)
    case SetCommand(name, commandName, record) => CommandCommitted(setup, state, name, commandName, record)
    case SetSecrets(commit) => SecretsCommitted(setup, state, commit)
  }

  /** A commit that fails changes nothing. */
  function Step(setup: Setup, state: State, event: Event): State {
    var outcome := OutcomeOf(setup, state, event);
    if outcome.Failed? then state else outcome.state
  }

  function Run(setup: Setup, state: State, events: seq<Event>): State
    decreases |events|
  {
    if events == [] then state else Run(setup, Step(setup, state, events[0]), events[1..])
  }

  function ExtensionOf(event: Event): string {
    if event.SetSecrets? then event.commit.extensionName else event.name
  }

  /** Whether a commit may concern what is visible for an extension and one of its commands. */
  predicate Concerns(event: Event, manifest: Manifest, command: Option<string>) {
    ExtensionOf(event) == manifest.name && (event.SetCommand? ==> Given(command) == Some(event.commandName))
  }

  ghost predicate IsRegistered(setup: Setup, manifest: Manifest) {
    setup.keys.Injective() && setup.Manifest(manifest.name) == Some(manifest)
  }

  // --- Commits and tokens ----------------------------------------------------------------------

  lemma OwnersDiffer(setup: Setup, a: Manifest, b: Manifest)
    requires setup.keys.Injective() && a.name != b.name
    ensures OwnerKey(setup, a) != OwnerKey(setup, b)
  {
  }

  lemma CommandKeysDiffer(setup: Setup, name: string, commandName: string, otherName: string, otherCommand: string)
    requires setup.keys.Injective() && (name != otherName || commandName != otherCommand)
    ensures setup.keys.CommandRevision(name, commandName) != setup.keys.CommandRevision(otherName, otherCommand)
    ensures setup.keys.CommandPreference(name, commandName).Some? ==>
              setup.keys.CommandPreference(name, commandName) != setup.keys.CommandPreference(otherName, otherCommand)
  {
  }

  /** The token and the stored parts are the same in both states. */
  ghost predicate SameFor(setup: Setup, a: State, b: State, manifest: Manifest, command: Option<string>) {
    && TokenOf(setup, a, manifest, command) == TokenOf(setup, b, manifest, command)
    && PartsOf(setup, a, manifest, command) == PartsOf(setup, b, manifest, command)
  }

  lemma OtherExtensionsStay(
      setup: Setup, state: State, name: string, record: Record, manifest: Manifest, command: Option<string>)
    requires setup.keys.Injective() && name != manifest.name
             && ExtensionCommitted(setup, state, name, record).Committed?
    ensures SameFor(setup, ExtensionCommitted(setup, state, name, record).state, state, manifest, command)
  {
    OwnersDiffer(setup, setup.Manifest(name).value, manifest);
  }

  lemma OtherCommandsStay(
    setup: Setup, state: State, name: string, commandName: string, record: Record, manifest: Manifest, command: Option<string>)
    requires setup.keys.Injective() && CommandCommitted(setup, state, name, commandName, record).Committed?
    requires name != manifest.name || Given(command) != Some(commandName)
    ensures SameFor(setup, CommandCommitted(setup, state, name, commandName, record).state, state, manifest, command)
  {
    if Given(command).Some? {
      CommandKeysDiffer(setup, name, commandName, manifest.name, Given(command).value);
    }
  }

  lemma SecretsTouchOneKey(setup: Setup, state: State, commit: SecretCommit, key: string)
    requires SecretsCommitted(setup, state, commit).Committed?
    requires key != OwnerKey(setup, SecretOwner(setup, commit).value)
    ensures var next := SecretsCommitted(setup, state, commit).state;
            next == state.(secrets := next.secrets, connectionConfigs := next.connectionConfigs)
            && Lookup(next.secrets, key) == Lookup(state.secrets, key) && RevisionsOf(next, key) == RevisionsOf(state, key)
  {
  }

  lemma OtherSecretsStay(setup: Setup, state: State, commit: SecretCommit, manifest: Manifest, command: Option<string>)
    requires setup.keys.Injective() && SecretsCommitted(setup, state, commit).Committed?
    requires commit.extensionName != manifest.name
    ensures SameFor(setup, SecretsCommitted(setup, state, commit).state, state, manifest, command)
  {
    OwnersDiffer(setup, SecretOwner(setup, commit).value, manifest);
    SecretsTouchOneKey(setup, state, commit, OwnerKey(setup, manifest));
  }

  /** A commit to another extension, or to another command, leaves the token and the stored parts alone. */
  lemma OthersAreLeftAlone(setup: Setup, state: State, event: Event, manifest: Manifest, command: Option<string>)
    requires IsRegistered(setup, manifest) && !Concerns(event, manifest, command)
    ensures SameFor(setup, Step(setup, state, event), state, manifest, command)
  {
    if OutcomeOf(setup, state, event).Committed? {
      match event
      case SetExtension(name, record) => OtherExtensionsStay(setup, state, name, record, manifest, command);
      case SetCommand(name, commandName, record) =>
        OtherCommandsStay(setup, state, name, commandName, record, manifest, command);
      case SetSecrets(commit) => OtherSecretsStay(setup, state, commit, manifest, command);
    }
  }

  /** A commit that concerns an extension raises a revision in its token, unless it changes no part at all. */
  lemma CommitRaisesToken(setup: Setup, state: State, event: Event, manifest: Manifest, command: Option<string>)
    requires IsRegistered(setup, manifest) && Concerns(event, manifest, command)
    ensures var next := Step(setup, state, event);
            next == state
            || TokenOf(setup, next, manifest, command).Total() > TokenOf(setup, state, manifest, command).Total()
  {
  }

  lemma TokensOnlyRise(setup: Setup, state: State, event: Event, manifest: Manifest, command: Option<string>)
    requires IsRegistered(setup, manifest)
    ensures var next, old' := Step(setup, state, event), TokenOf(setup, state, manifest, command);
            var new' := TokenOf(setup, next, manifest, command);
            old'.Total() <= new'.Total()
            && (old'.Total() == new'.Total() ==>
                old' == new' && PartsOf(setup, next, manifest, command) == PartsOf(setup, state, manifest, command))
  {
    if Concerns(event, manifest, command) {
      CommitRaisesToken(setup, state, event, manifest, command);
    } else {
      OthersAreLeftAlone(setup, state, event, manifest, command);
    }
  }

  lemma {:induction false} TokensRiseOverRuns(
      setup: Setup, state: State, events: seq<Event>, manifest: Manifest, command: Option<string>)
    requires IsRegistered(setup, manifest)
    ensures var later := Run(setup, state, events);
            var before, after := TokenOf(setup, state, manifest, command), TokenOf(setup, later, manifest, command);
            before.Total() <= after.Total()
            && (before.Total() == after.Total() ==>
                before == after && PartsOf(setup, later, manifest, command) == PartsOf(setup, state, manifest, command))
    decreases |events|
  {
    if events != [] {
      TokensOnlyRise(setup, state, events[0], manifest, command);
      TokensRiseOverRuns(setup, Step(setup, state, events[0]), events[1..], manifest, command);
    }
  }

  /** Two states of a run with equal tokens show exactly the same configuration, secrets included. */
  lemma EqualTokensMeanEqualConfiguration(
    setup: Setup, state: State, events: seq<Event>, manifest: Manifest, command: Option<string>)
    requires IsRegistered(setup, manifest)
    requires TokenOf(setup, Run(setup, state, events), manifest, command) == TokenOf(setup, state, manifest, command)
    ensures SnapshotOf(setup, Run(setup, state, events), manifest, command) == SnapshotOf(setup, state, manifest, command)
  {
    TokensRiseOverRuns(setup, state, events, manifest, command);
  }

  /** What a commit does not concern, it does not change: neither the token nor anything visible. */
  lemma UnrelatedConfigurationStays(
      setup: Setup, state: State, event: Event, manifest: Manifest, command: Option<string>)
    requires IsRegistered(setup, manifest) && !Concerns(event, manifest, command)
    ensures SnapshotOf(setup, Step(setup, state, event), manifest, command) == SnapshotOf(setup, state, manifest, command)
  {
    OthersAreLeftAlone(setup, state, event, manifest, command);
  }

  /** The keys that are used have what this rests on. */
  lemma RegisteredWithStoreKeys(manifests: seq<Manifest>, manifest: Manifest)
    requires FindManifest(manifests, manifest.name) == Some(manifest)
    ensures IsRegistered(Setup(StoreKeyBuilders(), manifests), manifest)
  {
    StoreKeysAreInjective();
  }

  // --- Normal values ---------------------------------------------------------------------------

  lemma KeptIsStable(fields: Record, name: string)
    ensures Kept(Kept(fields, name), name) == Kept(fields, name)
    ensures forall k :: k in Kept(fields, name) ==> k == name
  {
    if name in fields && fields[name].Text? {
      TrimFacts(fields[name].text);
    }
  }

  lemma ApplicationFieldsAreStable(fields: Record)
    ensures ApplicationFields(ApplicationFields(fields)) == ApplicationFields(fields)
  {
    var kept := ApplicationFields(fields);
    KeptOfFields(fields, "name");
    KeptOfFields(fields, "bundleId");
    KeptOfFields(fields, "path");
  }

  lemma KeptOfFields(fields: Record, name: string)
    requires name in ["name", "bundleId", "path"]
    ensures Kept(ApplicationFields(fields), name) == Kept(fields, name)
  {
    KeptIsStable(fields, "name");
    KeptIsStable(fields, "bundleId");
    KeptIsStable(fields, "path");
    assert "name" != "bundleId" && "name" != "path" && "bundleId" != "path" by {
      assert |"name"| == 4 && |"bundleId"| == 8 && |"path"| == 4 && "name"[0] == 'n' && "path"[0] == 'p';
    }
  }

  /** What was normalised once stays. */
  lemma NormalIsStable(p: Preference, v: Value)
    ensures Normal(p, Normal(p, v)) == Normal(p, v)
  {
    if p.kind.ApplicationPicker? {
      match v
      case Text(text) =>
        TrimFacts(text);
        if Trim(text) != "" {
          TextIsStable(Trim(text));
        }
      case Object(fields) => ApplicationFieldsAreStable(fields);
      case _ =>
    }
  }

  lemma TextIsStable(text: string)
    requires text != "" && Trim(text) == text
    ensures NormalApplication(Object(map["name" := Text(text)])) == Object(map["name" := Text(text)])
  {
    var fields: Record := map["name" := Text(text)];
    assert |"name"| == 4 && |"bundleId"| == 8 && |"path"| == 4 && "name"[0] == 'n' && "path"[0] == 'p';
    assert ApplicationFields(fields) == fields;
  }

  lemma {:induction false} ResolveAt(schema: seq<Preference>, record: Record, name: string)
    ensures name in Resolve(schema, record) <==> LastNamed(schema, name).Some?
    ensures LastNamed(schema, name).Some? ==> Resolve(schema, record)[name] == ValueFor(LastNamed(schema, name).value, record)
    decreases |schema|
  {
    if schema != [] {
      ResolveAt(schema[..|schema| - 1], record, name);
    }
  }

  /** A value that names no application, for a preference whose default does. */
  predicate Rejected(p: Preference, record: Record) {
    ValueFor(p, record) == Null && Normal(p, Default(p)) != Null
  }

  /** Reading back what was resolved: the value itself, but the default where the value was rejected. */
  lemma ReadsBack(schema: seq<Preference>, record: Record, p: Preference)
    requires LastNamed(schema, p.name) == Some(p)
    ensures ValueFor(p, Named(Resolve(schema, Named(record))))
         == if Rejected(p, Named(record)) then Normal(p, Default(p)) else ValueFor(p, Named(record))
  {
    var resolved := Resolve(schema, Named(record));
    var v := ValueFor(p, Named(record));
    ResolveAt(schema, Named(record), p.name);
    NormalIsStable(p, if p.name in Named(record) && Named(record)[p.name] != Null then Named(record)[p.name] else Default(p));
    assert Normal(p, v) == v;
    if Trim(p.name) == "" {
      assert p.name !in Named(resolved) && p.name !in Named(record);
    } else {
      assert Named(resolved)[p.name] == v;
    }
  }

  // --- The revision of the public configuration ------------------------------------------------

  /** Values are stored the way commits store them. */
  ghost predicate Settled(setup: Setup, state: State) {
    forall name :: name in state.extensionPreferences && setup.Manifest(name).Some? ==>
      SettledRecord(setup.Manifest(name).value.preferences, state.extensionPreferences[name])
  }

  ghost predicate SettledRecord(schema: seq<Preference>, record: Record) {
    forall p: Preference :: LastNamed(schema, p.name) == Some(p) ==> SettledValue(p, record)
  }

  predicate SettledValue(p: Preference, record: Record) {
    p.name in record ==> Normal(p, record[p.name]) == record[p.name]
  }

  lemma ResolvedIsSettled(schema: seq<Preference>, record: Record)
    ensures SettledRecord(schema, Resolve(schema, record))
  {
    forall p: Preference | LastNamed(schema, p.name) == Some(p) ensures SettledValue(p, Resolve(schema, record)) {
      ResolveAt(schema, record, p.name);
      NormalIsStable(p, if p.name in record && record[p.name] != Null then record[p.name] else Default(p));
    }
  }

  lemma StepStaysSettled(setup: Setup, state: State, event: Event)
    requires Settled(setup, state)
    ensures Settled(setup, Step(setup, state, event))
  {
    if event.SetExtension? && OutcomeOf(setup, state, event).Committed? {
      ResolvedIsSettled(setup.Manifest(event.name).value.preferences, Named(event.record));
    }
  }

  /** Every state a run reaches from an empty store is settled. */
  lemma {:induction false} RunsStaySettled(setup: Setup, state: State, events: seq<Event>)
    requires Settled(setup, state)
    ensures Settled(setup, Run(setup, state, events))
    decreases |events|
  {
    if events != [] {
      StepStaysSettled(setup, state, events[0]);
      RunsStaySettled(setup, Step(setup, state, events[0]), events[1..]);
    }
  }

  function PublicConfig(manifest: Manifest, state: State): Record {
    Public(manifest.connection.publicNames, VisibleExtension(manifest, Lookup(state.extensionPreferences, manifest.name)))
  }

  /** Some public preference is given a value that is rejected. */
  ghost predicate RejectsPublic(manifest: Manifest, record: Record) {
    exists name :: RejectsAt(manifest, record, name)
  }

  predicate RejectsAt(manifest: Manifest, record: Record, name: string) {
    name in manifest.connection.publicNames
    && LastNamed(manifest.preferences, name).Some?
    && Rejected(LastNamed(manifest.preferences, name).value, Named(record))
  }

  lemma PublicAt(manifest: Manifest, record: Record, name: string)
    ensures var config := Public(manifest.connection.publicNames, Resolve(manifest.preferences, record));
            (name in config <==> name in manifest.connection.publicNames && LastNamed(manifest.preferences, name).Some?)
            && (name in config ==> config[name] == ValueFor(LastNamed(manifest.preferences, name).value, record))
  {
    ResolveAt(manifest.preferences, record, name);
  }

  /** Without a rejected value, what is resolved is what will be visible. */
  lemma AcceptedIsVisible(manifest: Manifest, record: Record)
    requires !RejectsPublic(manifest, record)
    ensures var names, resolved := manifest.connection.publicNames, Resolve(manifest.preferences, Named(record));
            Public(names, VisibleExtension(manifest, Some(resolved))) == Public(names, resolved)
  {
    var names, resolved := manifest.connection.publicNames, Resolve(manifest.preferences, Named(record));
    var visible := Public(names, VisibleExtension(manifest, Some(resolved)));
    forall name ensures (name in visible <==> name in Public(names, resolved))
                        && (name in visible ==> visible[name] == Public(names, resolved)[name])
    {
      PublicAt(manifest, Named(resolved), name);
      PublicAt(manifest, Named(record), name);
      if name in visible {
        assert !RejectsAt(manifest, record, name);
        ReadsBack(manifest.preferences, record, LastNamed(manifest.preferences, name).value);
      }
    }
  }

  /** A rejected value is never what was visible before. */
  lemma RejectedIsNotVisible(manifest: Manifest, stored: Option<Record>, record: Record)
    requires RejectsPublic(manifest, record)
    requires stored.Some? ==> SettledRecord(manifest.preferences, stored.value)
    ensures PublicChanges(manifest, stored, record)
  {
    var name :| RejectsAt(manifest, record, name);
    var p := LastNamed(manifest.preferences, name).value;
    PublicAt(manifest, Named(OrEmpty(stored)), name);
    PublicAt(manifest, Named(record), name);
    if name in Named(OrEmpty(stored)) {
      assert SettledValue(p, stored.value);
    }
  }

  /**
    * The connection revision is raised exactly when the public configuration changes, or when a public preference is
    * given a value that names no application although its default does.
    */
  lemma ConnectionRevisionTracksPublicConfig(setup: Setup, state: State, manifest: Manifest, record: Record)
    requires IsRegistered(setup, manifest) && Settled(setup, state)
    requires ExtensionCommitted(setup, state, manifest.name, record).Committed?
    ensures var next := ExtensionCommitted(setup, state, manifest.name, record).state;
            var key := OwnerKey(setup, manifest);
            (RevisionsOf(next, key).config == RevisionsOf(state, key).config + 1
             <==> PublicConfig(manifest, next) != PublicConfig(manifest, state) || RejectsPublic(manifest, record))
            && (RevisionsOf(next, key).config == RevisionsOf(state, key).config
                || RevisionsOf(next, key).config == RevisionsOf(state, key).config + 1)
  {
    var stored := Lookup(state.extensionPreferences, manifest.name);
    if RejectsPublic(manifest, record) {
      RejectedIsNotVisible(manifest, stored, record);
    } else {
      AcceptedIsVisible(manifest, record);
    }
  }

  function PickerManifest(): Manifest {
    Manifest("mail", [Preference("app", ApplicationPicker, Some(Text("Mail")))], [],
             Connection("id", "provider", None, ["app"]))
  }

  lemma PickerRejects(record: Record)
    requires record == map["app" := Bool(true)]
    ensures RejectsPublic(PickerManifest(), record) && PublicChanges(PickerManifest(), None, record)
    ensures VisibleExtension(PickerManifest(), Some(Resolve(PickerManifest().preferences, Named(record))))
         == VisibleExtension(PickerManifest(), None)
  {
    var manifest := PickerManifest();
    var picker := manifest.preferences[0];
    assert Trim("app") == "app" && Trim("Mail") == "Mail";
    assert LastNamed([picker], "app") == Some(picker);
    TextIsStable("Mail");
    assert Rejected(picker, Named(record));
    assert RejectsAt(manifest, record, "app");
    RejectedIsNotVisible(manifest, None, record);
    ReadsBack([picker], record, picker);
    assert Resolve([picker][..0], Named(Resolve([picker], Named(record)))) == map[];
    assert Resolve([picker][..0], Named(map[])) == map[];
  }

  /**
   * A commit that does so: the first one of all, which sets an application preference to a value that names no
   * application. It raises the connection revision, and says that the connection changed, but the public
   * configuration is what it was.
   */
  lemma RejectedValueRaisesForNothing(keys: Keys)
    ensures var manifest := PickerManifest();
            var setup := Setup(keys, [manifest]);
            var key := OwnerKey(setup, manifest);
            var outcome := ExtensionCommitted(setup, EmptyState(), "mail", map["app" := Bool(true)]);
            && outcome.Committed? && outcome.changed == [ExtensionChange, ConnectionChange]
            && RevisionsOf(EmptyState(), key).config == 0 && RevisionsOf(outcome.state, key).config == 1
            && PublicConfig(manifest, outcome.state) == PublicConfig(manifest, EmptyState())
  {
    var manifest := PickerManifest();
    var record: Record := map["app" := Bool(true)];
    PickerRejects(record);
    assert FindManifest([manifest], "mail") == Some(manifest);
    FirstCommit(Setup(keys, [manifest]), manifest, record);
  }

  /** The first commit to an extension with no stored values, if it changes the public configuration. */
  lemma FirstCommit(setup: Setup, manifest: Manifest, record: Record)
    requires setup.Manifest(manifest.name) == Some(manifest) && PublicChanges(manifest, None, record)
    ensures var outcome := ExtensionCommitted(setup, EmptyState(), manifest.name, record);
            && outcome.Committed? && outcome.changed == [ExtensionChange, ConnectionChange]
            && RevisionsOf(outcome.state, OwnerKey(setup, manifest)).config == 1
            && Lookup(outcome.state.extensionPreferences, manifest.name)
               == Some(Resolve(manifest.preferences, Named(record)))
  {
  }

  // --- The revision of the secrets -------------------------------------------------------------

  predicate HasBlankName(record: map<string, string>) {
    exists name :: name in record && Trim(name) == ""
  }

  /** A secret is given under a name that is declared but blank. */
  predicate GivesBlankSecret(manifest: Manifest, commit: SecretCommit) {
    exists name :: name in commit.record
                   && name in SecretNames(manifest) && Trim(name) == "" && commit.record[name] != ""
  }

  lemma BlankOnlyIfGiven(manifest: Manifest, stored: Option<map<string, string>>, commit: SecretCommit)
    ensures HasBlankName(NextSecrets(manifest, stored, commit)) <==> GivesBlankSecret(manifest, commit)
  {
    var next := NextSecrets(manifest, stored, commit);
    VisibleHasNoBlankName(manifest, stored);
    if name :| name in next && Trim(name) == "" {
      assert name !in VisibleSecrets(manifest, stored);
      assert name in commit.record;
    }
    if name :| name in commit.record && name in SecretNames(manifest) && Trim(name) == "" && commit.record[name] != "" {
      assert name in next;
    }
  }

  /** The credential revision is raised exactly when the visible secrets change, or one is given under a blank name. */
  lemma CredentialRevisionTracksSecrets(setup: Setup, state: State, commit: SecretCommit)
    requires SecretOwner(setup, commit).Some? && SecretsCommitted(setup, state, commit).Committed?
    ensures var manifest := SecretOwner(setup, commit).value;
            var key := OwnerKey(setup, manifest);
            var next := SecretsCommitted(setup, state, commit).state;
            var before, after := Lookup(state.secrets, key), Lookup(next.secrets, key);
            RevisionsOf(next, key).credential > RevisionsOf(state, key).credential
            <==> VisibleSecrets(manifest, after) != VisibleSecrets(manifest, before)
                 || GivesBlankSecret(manifest, commit)
  {
    var manifest := SecretOwner(setup, commit).value;
    var before := Lookup(state.secrets, OwnerKey(setup, manifest));
    var next := NextSecrets(manifest, before, commit);
    SecretsAreStored(setup, state, commit);
    BlankOnlyIfGiven(manifest, before, commit);
    if next != VisibleSecrets(manifest, before) && !HasBlankName(next) {
      SelectedIsVisible(manifest, next, if commit.merge then VisibleSecrets(manifest, before) + commit.record else commit.record);
    }
    VisibleHasNoBlankName(manifest, before);
  }

  /** The revision is raised exactly when other secrets than the visible ones are to be stored. */
  lemma SecretsAreStored(setup: Setup, state: State, commit: SecretCommit)
    requires SecretOwner(setup, commit).Some? && SecretsCommitted(setup, state, commit).Committed?
    ensures var manifest := SecretOwner(setup, commit).value;
            var key := OwnerKey(setup, manifest);
            var later := SecretsCommitted(setup, state, commit).state;
            var next := NextSecrets(manifest, Lookup(state.secrets, key), commit);
            if next == VisibleSecrets(manifest, Lookup(state.secrets, key)) then later == state
            else RevisionsOf(later, key).credential == RevisionsOf(state, key).credential + 1
                 && Lookup(later.secrets, key) == if next == map[] then None else Some(next)
  {
  }

  lemma VisibleHasNoBlankName(manifest: Manifest, stored: Option<map<string, string>>)
    ensures !HasBlankName(VisibleSecrets(manifest, stored))
  {
  }

  /** Secrets that were selected and have names are visible as they are. */
  lemma SelectedIsVisible(manifest: Manifest, next: map<string, string>, candidate: map<string, string>)
    requires next == Selected(SecretNames(manifest), candidate) && !HasBlankName(next)
    ensures VisibleSecrets(manifest, Some(next)) == next
    ensures next == map[] ==> VisibleSecrets(manifest, None) == next
  {
    var visible := VisibleSecrets(manifest, Some(next));
    forall name ensures name in visible <==> name in next {
      if name in next {
        assert Trim(name) != "";
      }
    }
  }
}
