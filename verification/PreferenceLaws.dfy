/** What a commit of preferences or secrets makes visible, said value by value, and when it is refused. */
module PreferenceLaws {
  import opened Wrappers
  import opened JsText
  import opened Numbers
  import opened Preferences
  import opened PreferenceRuns

  // --- Secrets ---------------------------------------------------------------------------------

  /** A secret is visible if its name is declared and not blank and its stored value is not empty, and then as stored. */
  lemma VisibleSecretIff(manifest: Manifest, stored: Option<map<string, string>>, name: string, value: string)
    ensures var visible := VisibleSecrets(manifest, stored);
            (name in visible && visible[name] == value)
            <==> (&& manifest.connection.secretNames.Some? && name in manifest.connection.secretNames.value
                  && Trim(name) != "" && value != ""
                  && stored.Some? && name in stored.value && stored.value[name] == value)
  {
  }

  /**
   * After a commit of secrets, each declared secret is what the commit says, where it says something: a new value
   * replaces an old one, an empty one takes it away. What it does not mention stays under a merge, and goes otherwise.
   */
  lemma CommittedSecrets(setup: Setup, state: State, commit: SecretCommit, manifest: Manifest, name: string)
    requires SecretsCommitted(setup, state, commit).Committed? && setup.Manifest(commit.extensionName) == Some(manifest)
    requires manifest.connection.secretNames.Some? && name in manifest.connection.secretNames.value && Trim(name) != ""
    ensures var before := VisibleSecrets(manifest, Lookup(state.secrets, OwnerKey(setup, manifest)));
            var after := SecretsCommitted(setup, state, commit).snapshot.secrets;
            if name in commit.record then
              if commit.record[name] != "" then name in after && after[name] == commit.record[name] else name !in after
            else if commit.merge then
              (name in after <==> name in before) && (name in before ==> after[name] == before[name])
            else
              name !in after
  {
    CommittedSecretsAreVisible(setup, state, commit, manifest, name);
    WantedIsNext(manifest, Lookup(state.secrets, OwnerKey(setup, manifest)), commit, name);
  }

  /** What a commit wants of one declared secret. */
  function Wanted(commit: SecretCommit, before: map<string, string>, name: string): Option<string> {
    if name in commit.record then if commit.record[name] != "" then Some(commit.record[name]) else None
    else if commit.merge then Lookup(before, name)
    else None
  }

  lemma WantedIsNext(manifest: Manifest, stored: Option<map<string, string>>, commit: SecretCommit, name: string)
    ensures Lookup(NextSecrets(manifest, stored, commit), name)
         == if name in SecretNames(manifest) then Wanted(commit, VisibleSecrets(manifest, stored), name) else None
  {
  }

  lemma CommittedSecretsAreVisible(setup: Setup, state: State, commit: SecretCommit, manifest: Manifest, name: string)
    requires SecretsCommitted(setup, state, commit).Committed? && setup.Manifest(commit.extensionName) == Some(manifest)
    requires Trim(name) != ""
    ensures Lookup(SecretsCommitted(setup, state, commit).snapshot.secrets, name)
         == Lookup(NextSecrets(manifest, Lookup(state.secrets, OwnerKey(setup, manifest)), commit), name)
  {
    SecretsAreStored(setup, state, commit);
  }

  /** The commit is one for the connection that the manifest declares, as the committer knows it, and it has secrets. */
  predicate MayCommit(manifest: Manifest, commit: SecretCommit) {
    && manifest.connection.id == commit.connectionId && manifest.connection.provider == commit.provider
    && (commit.expected.None? || commit.expected.value == manifest.connection)
    && manifest.connection.secretNames.Some?
  }

  /** A commit of secrets is refused exactly if it may not be made, or if it would raise a revision past the last. */
  lemma SecretsCommittedIff(setup: Setup, state: State, commit: SecretCommit)
    ensures var found := setup.Manifest(commit.extensionName);
            SecretsCommitted(setup, state, commit).Committed?
            <==> (&& found.Some? && MayCommit(found.value, commit)
                  && var key := OwnerKey(setup, found.value);
                     var before := VisibleSecrets(found.value, Lookup(state.secrets, key));
                     RevisionsOf(state, key).credential < MAX_SAFE_INTEGER
                     || forall name :: name in found.value.connection.secretNames.value ==>
                          Wanted(commit, before, name) == Lookup(before, name))
  {
    var found := setup.Manifest(commit.extensionName);
    if found.Some? && MayCommit(found.value, commit) {
      NothingNewIff(found.value, Lookup(state.secrets, OwnerKey(setup, found.value)), commit);
    }
  }

  lemma NothingNewIff(manifest: Manifest, stored: Option<map<string, string>>, commit: SecretCommit)
    requires manifest.connection.secretNames.Some?
    ensures NextSecrets(manifest, stored, commit) == VisibleSecrets(manifest, stored)
       <==> forall name :: name in manifest.connection.secretNames.value ==>
              Wanted(commit, VisibleSecrets(manifest, stored), name) == Lookup(VisibleSecrets(manifest, stored), name)
  {
    var next, before := NextSecrets(manifest, stored, commit), VisibleSecrets(manifest, stored);
    forall name
      ensures name in manifest.connection.secretNames.value ==> Lookup(next, name) == Wanted(commit, before, name)
      ensures name !in manifest.connection.secretNames.value ==> name !in next && name !in before
    {
      WantedIsNext(manifest, stored, commit, name);
    }
    if forall name :: name in manifest.connection.secretNames.value ==> Wanted(commit, before, name) == Lookup(before, name) {
      forall name ensures Lookup(next, name) == Lookup(before, name) {
        assert name !in manifest.connection.secretNames.value ==> name !in next && name !in before;
      }
      SameLookups(next, before);
    }
  }

  lemma SameLookups(a: map<string, string>, b: map<string, string>)
    requires forall name :: Lookup(a, name) == Lookup(b, name)
    ensures a == b
  {
    forall name ensures (name in a <==> name in b) && (name in a ==> a[name] == b[name]) {
      assert Lookup(a, name) == Lookup(b, name);
    }
  }

  // --- Preferences -----------------------------------------------------------------------------

  /** A record says something about a preference: under its name, which is not blank, there is a value, not null. */
  predicate Gives(record: Record, name: string) {
    Trim(name) != "" && name in record && record[name] != Null
  }

  /** A property of an application that counts. */
  predicate Usable(fields: Record, property: string) {
    property in ["name", "bundleId", "path"]
    && property in fields && fields[property].Text? && Trim(fields[property].text) != ""
  }

  lemma ApplicationFieldIff(fields: Record, property: string)
    ensures property in ApplicationFields(fields) <==> Usable(fields, property)
    ensures Usable(fields, property) ==> ApplicationFields(fields)[property] == Text(Trim(fields[property].text))
  {
    KeptIsStable(fields, "name");
    KeptIsStable(fields, "bundleId");
    KeptIsStable(fields, "path");
    assert "name" != "bundleId" && "name" != "path" && "bundleId" != "path" by {
      assert |"name"| == 4 && |"bundleId"| == 8 && |"path"| == 4 && "name"[0] == 'n' && "path"[0] == 'p';
    }
  }

  /** The three properties of an application that are texts with ink, trimmed, and no others. */
  ghost predicate IsApplication(fields: Record, application: Record) {
    forall property ::
      && (property in application <==> Usable(fields, property))
      && (property in application ==> application[property] == Text(Trim(fields[property].text)))
  }

  /** A value as an application: a text with ink is its name; of an object the usable properties count, if any. */
  ghost predicate NamesApplication(v: Value, application: Record) {
    application != map[]
    && match v
       case Text(text) => Trim(text) != "" && application == map["name" := Text(Trim(text))]
       case Object(fields) => IsApplication(fields, application)
       case _ => false
  }

  lemma FieldsAreApplication(fields: Record)
    ensures IsApplication(fields, ApplicationFields(fields))
  {
    forall property
      ensures property in ApplicationFields(fields) <==> Usable(fields, property)
      ensures Usable(fields, property) ==>
                ApplicationFields(fields)[property] == Text(Trim(fields[property].text))
    {
      ApplicationFieldIff(fields, property);
    }
  }

  lemma OneApplication(fields: Record, a: Record, b: Record)
    requires IsApplication(fields, a) && IsApplication(fields, b)
    ensures a == b
  {
    forall property ensures (property in a <==> property in b) && (property in a ==> a[property] == b[property]) {
      assert property in a <==> Usable(fields, property);
      assert property in b <==> Usable(fields, property);
    }
  }

  lemma NormalApplicationIff(v: Value, application: Record)
    ensures NormalApplication(v) == Object(application) <==> NamesApplication(v, application)
  {
    match v
    case Object(fields) => ObjectNamesIff(fields, application);
    case Text(text) => TextNamesIff(text, application);
    case _ =>
  }

  lemma ObjectNamesIff(fields: Record, application: Record)
    ensures NormalApplication(Object(fields)) == Object(application) <==> NamesApplication(Object(fields), application)
  {
    FieldsAreApplication(fields);
    if IsApplication(fields, application) {
      OneApplication(fields, application, ApplicationFields(fields));
    }
  }

  lemma TextNamesIff(text: string, application: Record)
    ensures NormalApplication(Text(text)) == Object(application) <==> NamesApplication(Text(text), application)
  {
    var named: Record := map["name" := Text(Trim(text))];
    assert "name" in named && named != map[];
    assert Trim(text) != "" ==> NormalApplication(Text(text)) == Object(named);
  }

  ghost predicate NamesNone(v: Value) {
    forall application :: !NamesApplication(v, application)
  }

  lemma NamesNoneIff(v: Value)
    ensures NormalApplication(v) == Null <==> NamesNone(v)
  {
    if NormalApplication(v).Object? {
      NormalApplicationIff(v, NormalApplication(v).fields);
      assert NamesApplication(v, NormalApplication(v).fields);
    } else {
      assert NormalApplication(v) == Null;
      forall application ensures !NamesApplication(v, application) {
        NormalApplicationIff(v, application);
      }
    }
  }

  /** What a preference falls back to: what it declares, or else what is usual for its kind. */
  predicate IsFallback(p: Preference, v: Value) {
    if p.fallback.Some? then v == p.fallback.value
    else
      match p.kind
      case Checkbox => v == Bool(false)
      case Dropdown(first) => v == Text(if first.Some? then first.value else "")
      case _ => v == Text("")
  }

  lemma DefaultIsFallback(p: Preference)
    requires !p.kind.ApplicationPicker?
    ensures IsFallback(p, Default(p))
  {
  }

  /**
   * After a commit of preferences, each declared one shows the value that was given, or its fallback if none was.
   */
  lemma CommittedPreference(setup: Setup, state: State, manifest: Manifest, record: Record, p: Preference)
    requires setup.Manifest(manifest.name) == Some(manifest) && LastNamed(manifest.preferences, p.name) == Some(p)
    requires ExtensionCommitted(setup, state, manifest.name, record).Committed? && !p.kind.ApplicationPicker?
    ensures var visible := ExtensionCommitted(setup, state, manifest.name, record).snapshot.extensionPreferences;
            && p.name in visible
            && (Gives(record, p.name) ==> visible[p.name] == record[p.name])
            && (!Gives(record, p.name) ==> IsFallback(p, visible[p.name]))
  {
    CommittedReadsBack(setup, state, manifest, record, p);
    DefaultIsFallback(p);
  }

  lemma CommittedReadsBack(setup: Setup, state: State, manifest: Manifest, record: Record, p: Preference)
    requires setup.Manifest(manifest.name) == Some(manifest) && LastNamed(manifest.preferences, p.name) == Some(p)
    requires ExtensionCommitted(setup, state, manifest.name, record).Committed?
    ensures var visible := ExtensionCommitted(setup, state, manifest.name, record).snapshot.extensionPreferences;
            p.name in visible
            && visible[p.name] == if Rejected(p, Named(record)) then Normal(p, Default(p)) else ValueFor(p, Named(record))
  {
    var stored := Resolve(manifest.preferences, Named(record));
    ReadsBack(manifest.preferences, record, p);
    ResolveAt(manifest.preferences, Named(stored), p.name);
    assert Lookup(ExtensionCommitted(setup, state, manifest.name, record).state.extensionPreferences, manifest.name)
        == Some(stored);
  }

  /**
   * A preference for an application shows the application that the given value names, or the one its fallback
   * names if nothing was given or what was given names none; and null if that names none either.
   */
  lemma CommittedApplication(setup: Setup, state: State, manifest: Manifest, record: Record, p: Preference,
                             application: Record)
    requires setup.Manifest(manifest.name) == Some(manifest) && LastNamed(manifest.preferences, p.name) == Some(p)
    requires ExtensionCommitted(setup, state, manifest.name, record).Committed? && p.kind.ApplicationPicker?
    ensures var visible := ExtensionCommitted(setup, state, manifest.name, record).snapshot.extensionPreferences;
            && p.name in visible
            && (Gives(record, p.name) && NamesApplication(record[p.name], application) ==>
                  visible[p.name] == Object(application))
            && ((Gives(record, p.name) ==> NamesNone(record[p.name]))
                && p.fallback.Some? && NamesApplication(p.fallback.value, application) ==>
                  visible[p.name] == Object(application))
            && ((Gives(record, p.name) ==> NamesNone(record[p.name]))
                && (p.fallback.Some? ==> NamesNone(p.fallback.value)) ==>
                  visible[p.name] == Null)
  {
    CommittedReadsBack(setup, state, manifest, record, p);
    if Gives(record, p.name) {
      NormalApplicationIff(record[p.name], application);
      NamesNoneIff(record[p.name]);
    }
    if p.fallback.Some? {
      NormalApplicationIff(p.fallback.value, application);
      NamesNoneIff(p.fallback.value);
      NormalIsStable(p, p.fallback.value);
    }
  }

  /** A declared command shows its own preferences, and those of its extension that it does not declare itself. */
  lemma CommandWins(setup: Setup, manifest: Manifest, name: string, parts: Parts, preference: string)
    requires VisibleCommand(setup, manifest, name, parts).Some?
    ensures var own := FindCommand(manifest.commands, name).value.preferences;
            var inherited, visible := VisibleExtension(manifest, parts.extension), VisibleCommand(setup, manifest, name, parts).value;
            if LastNamed(own, preference).Some? then
              preference in visible
              && visible[preference] == ValueFor(LastNamed(own, preference).value, Named(OrEmpty(parts.command)))
            else
              (preference in visible <==> preference in inherited)
              && (preference in visible ==> visible[preference] == inherited[preference])
  {
    ResolveAt(FindCommand(manifest.commands, name).value.preferences, Named(OrEmpty(parts.command)), preference);
  }

  /** After a commit to a command, its own preferences show what was given, whatever its extension says. */
  lemma CommittedCommandPreference(setup: Setup, state: State, manifest: Manifest, name: string, record: Record,
                                   p: Preference)
    requires setup.Manifest(manifest.name) == Some(manifest) && name != ""
    requires CommandCommitted(setup, state, manifest.name, name, record).Committed? && !p.kind.ApplicationPicker?
    requires LastNamed(FindCommand(manifest.commands, name).value.preferences, p.name) == Some(p)
    ensures var visible := CommandCommitted(setup, state, manifest.name, name, record).snapshot.commandPreferences;
            && visible.Some? && p.name in visible.value
            && (Gives(record, p.name) ==> visible.value[p.name] == record[p.name])
            && (!Gives(record, p.name) ==> IsFallback(p, visible.value[p.name]))
  {
    var next := CommandCommitted(setup, state, manifest.name, name, record).state;
    var own := FindCommand(manifest.commands, name).value.preferences;
    var parts := PartsOf(setup, next, manifest, Some(name));
    assert parts.command == Some(Resolve(own, Named(record)));
    CommandWins(setup, manifest, name, parts, p.name);
    ReadsBack(own, record, p);
    DefaultIsFallback(p);
  }

  // --- Snapshots -------------------------------------------------------------------------------

  /**
   * What a snapshot shows: the secrets and the preferences of the extension, of these only the public ones in the
   * public configuration, and preferences of a command exactly if one was asked for. There is none exactly if the
   * command is not declared or its name has no key.
   */
  lemma SnapshotShows(setup: Setup, state: State, manifest: Manifest, command: Option<string>, name: string)
    ensures var asked, snapshot := Given(command), SnapshotOf(setup, state, manifest, command);
            if asked.Some? && (FindCommand(manifest.commands, asked.value).None?
                               || setup.keys.CommandPreference(manifest.name, asked.value).None?) then
              snapshot.None?
            else
              && snapshot.Some?
              && snapshot.value.secrets == VisibleSecrets(manifest, Lookup(state.secrets, OwnerKey(setup, manifest)))
              && snapshot.value.extensionPreferences
                 == VisibleExtension(manifest, Lookup(state.extensionPreferences, manifest.name))
              && (name in snapshot.value.publicConfig
                  <==> name in manifest.connection.publicNames && name in snapshot.value.extensionPreferences)
              && (name in snapshot.value.publicConfig ==>
                    snapshot.value.publicConfig[name] == snapshot.value.extensionPreferences[name])
              && (snapshot.value.commandPreferences.Some? <==> asked.Some?)
              && snapshot.value.token == TokenOf(setup, state, manifest, command)
  {
  }

  // --- Refusals and reports --------------------------------------------------------------------

  predicate IsFirst(commands: seq<Command>, name: string, i: int) {
    0 <= i < |commands| && commands[i].name == name && forall j :: 0 <= j < i ==> commands[j].name != name
  }

  /** The command found is the first declared under the name; none is found if none is declared. */
  lemma {:induction false} CommandFound(commands: seq<Command>, name: string)
    ensures FindCommand(commands, name).None? <==> forall i :: 0 <= i < |commands| ==> commands[i].name != name
    ensures forall i :: IsFirst(commands, name, i) ==> FindCommand(commands, name) == Some(commands[i])
  {
    if commands != [] {
      CommandFound(commands[1..], name);
      forall i | IsFirst(commands, name, i) ensures FindCommand(commands, name) == Some(commands[i]) {
        if i > 0 {
          assert commands[1..][i - 1] == commands[i];
          assert IsFirst(commands[1..], name, i - 1);
        }
      }
    }
  }

  /** A commit of preferences is refused exactly for an unknown extension, or where a revision would pass the last. */
  lemma ExtensionCommittedIff(setup: Setup, state: State, name: string, record: Record)
    ensures var found := setup.Manifest(name);
            ExtensionCommitted(setup, state, name, record).Committed?
            <==> (&& found.Some? && Revision(state.extensionConfigs, name) < MAX_SAFE_INTEGER
                  && (PublicChanges(found.value, Lookup(state.extensionPreferences, name), record) ==>
                        RevisionsOf(state, OwnerKey(setup, found.value)).config < MAX_SAFE_INTEGER))
  {
  }

  /** A commit to a command is refused exactly for an unknown extension or command, a name without a key, or likewise. */
  lemma CommandCommittedIff(setup: Setup, state: State, name: string, commandName: string, record: Record)
    ensures var found := setup.Manifest(name);
            CommandCommitted(setup, state, name, commandName, record).Committed?
            <==> (&& found.Some? && FindCommand(found.value.commands, commandName).Some?
                  && setup.keys.CommandPreference(name, commandName).Some?
                  && Revision(state.commandConfigs, setup.keys.CommandRevision(name, commandName)) < MAX_SAFE_INTEGER)
  {
  }

  /** The revisions of a connection are raised by one each exactly if the change is reported. */
  predicate ConnectionRose(setup: Setup, state: State, outcome: Outcome, manifest: Manifest)
    requires outcome.Committed?
  {
    var key := OwnerKey(setup, manifest);
    var was, now := RevisionsOf(state, key), RevisionsOf(outcome.state, key);
    && now.credential == was.credential + (if CredentialChange in outcome.changed then 1 else 0)
    && now.config == was.config + (if ConnectionChange in outcome.changed then 1 else 0)
  }

  predicate ExtensionRose(state: State, outcome: Outcome, name: string)
    requires outcome.Committed?
  {
    Revision(outcome.state.extensionConfigs, name)
    == Revision(state.extensionConfigs, name) + (if ExtensionChange in outcome.changed then 1 else 0)
  }

  predicate CommandRose(setup: Setup, state: State, outcome: Outcome, name: string, commandName: string)
    requires outcome.Committed?
  {
    var key := setup.keys.CommandRevision(name, commandName);
    Revision(outcome.state.commandConfigs, key)
    == Revision(state.commandConfigs, key) + (if CommandChange in outcome.changed then 1 else 0)
  }

  /** What a commit reports as changed are exactly the revisions it raised, each by one. */
  lemma ReportsWhatRose(setup: Setup, state: State, event: Event, manifest: Manifest, commandName: string)
    requires setup.Manifest(ExtensionOf(event)) == Some(manifest) && OutcomeOf(setup, state, event).Committed?
    requires event.SetCommand? ==> commandName == event.commandName
    ensures var outcome := OutcomeOf(setup, state, event);
            && ConnectionRose(setup, state, outcome, manifest)
            && ExtensionRose(state, outcome, manifest.name)
            && CommandRose(setup, state, outcome, manifest.name, commandName)
  {
    match event
    case SetExtension(name, record) => ExtensionReportsWhatRose(setup, state, name, record, manifest);
    case SetCommand(name, _, record) => CommandReportsWhatRose(setup, state, name, commandName, record, manifest);
    case SetSecrets(commit) => SecretsReportWhatRose(setup, state, commit, manifest);
  }

  lemma ExtensionReportsWhatRose(setup: Setup, state: State, name: string, record: Record, manifest: Manifest)
    requires setup.Manifest(name) == Some(manifest) && ExtensionCommitted(setup, state, name, record).Committed?
    ensures var outcome := ExtensionCommitted(setup, state, name, record);
            && ConnectionRose(setup, state, outcome, manifest) && ExtensionRose(state, outcome, name)
            && outcome.state.commandConfigs == state.commandConfigs && CommandChange !in outcome.changed
  {
  }

  lemma CommandReportsWhatRose(
      setup: Setup, state: State, name: string, commandName: string, record: Record, manifest: Manifest)
    requires setup.Manifest(name) == Some(manifest)
    requires CommandCommitted(setup, state, name, commandName, record).Committed?
    ensures var outcome := CommandCommitted(setup, state, name, commandName, record);
            && ConnectionRose(setup, state, outcome, manifest) && ExtensionRose(state, outcome, name)
            && CommandRose(setup, state, outcome, name, commandName)
  {
  }

  lemma SecretsReportWhatRose(setup: Setup, state: State, commit: SecretCommit, manifest: Manifest)
    requires setup.Manifest(commit.extensionName) == Some(manifest) && SecretsCommitted(setup, state, commit).Committed?
    ensures var outcome := SecretsCommitted(setup, state, commit);
            && ConnectionRose(setup, state, outcome, manifest) && ExtensionRose(state, outcome, manifest.name)
            && outcome.state.commandConfigs == state.commandConfigs && CommandChange !in outcome.changed
  {
    SecretsAreStored(setup, state, commit);
  }
}
