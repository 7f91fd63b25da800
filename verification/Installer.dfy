/** The installer's settings: which secrets a run keeps and which it draws afresh.  A run starts from the settings read
    back from the file of the run before, so that the promises about secrets are promises over any number of runs. */
module Installer {
  import opened Basics
  import opened Text
  import opened EnvFile

  const PATH_KEYS: seq<string> :=
    ["BOOKS_PATH", "BOOK_LIBRARY_PATH", "PUBLIC_ORIGIN", "CORS_ORIGINS"]
  const AUTH_KEYS: seq<string> :=
    ["AUTH_DB_DIR", "AUTH_DB_PATH", "AUTH_JWT_SECRET", "AUTH_JWT_TTL"]
  const ACCOUNT_KEYS: seq<string> :=
    ["AUTH_COOKIE_NAME", "AUTH_ADMIN_USERNAME", "AUTH_ADMIN_PASSWORD"]
  const QUEUE_KEYS: seq<string> :=
    ["RABBITMQ_USER", "RABBITMQ_PASS", "RABBITMQ_LISTER_USER", "RABBITMQ_LISTER_PASS", "RABBITMQ_INDEXER_USER"]
  const MORE_QUEUE_KEYS: seq<string> :=
    ["RABBITMQ_INDEXER_PASS", "RABBITMQ_SEARCH_USER", "RABBITMQ_SEARCH_PASS", "RABBITMQ_ADMIN_USER",
     "RABBITMQ_ADMIN_PASS"]
  const SOLR_KEYS: seq<string> :=
    ["SOLR_ADMIN_USER", "SOLR_ADMIN_PASS", "SOLR_READONLY_USER", "SOLR_READONLY_PASS", "SOLR_TOPOLOGY"]
  const BUILD_KEYS: seq<string> := ["VERSION", "GIT_COMMIT", "BUILD_DATE"]

  /** The keys the installer writes to the file, in order. */
  function EnvKeys(): seq<string> {
    PATH_KEYS + AUTH_KEYS + ACCOUNT_KEYS + QUEUE_KEYS + MORE_QUEUE_KEYS + SOLR_KEYS + BUILD_KEYS
  }

  predicate KeyShaped(s: string) {
    |s| > 0 && KeyCharacters(s)
  }
  predicate Shaped(ks: seq<string>) {
    forall i :: 0 <= i < |ks| ==> KeyShaped(ks[i])
  }

  lemma PathKeysAreShaped() ensures Shaped(PATH_KEYS) && API_KEY !in PATH_KEYS { }
  lemma AuthKeysAreShaped() ensures Shaped(AUTH_KEYS) && API_KEY !in AUTH_KEYS { }
  lemma AccountKeysAreShaped() ensures Shaped(ACCOUNT_KEYS) && API_KEY !in ACCOUNT_KEYS { }
  lemma QueueKeysAreShaped() ensures Shaped(QUEUE_KEYS) && API_KEY !in QUEUE_KEYS { }
  lemma MoreQueueKeysAreShaped() ensures Shaped(MORE_QUEUE_KEYS) && API_KEY !in MORE_QUEUE_KEYS { }
  lemma SolrKeysAreShaped() ensures Shaped(SOLR_KEYS) && API_KEY !in SOLR_KEYS { }
  lemma BuildKeysAreShaped() ensures Shaped(BUILD_KEYS) && API_KEY !in BUILD_KEYS { }

  /** The keys of the file are printable and leave out the administration key. */
  lemma KeysAreShaped()
    ensures Shaped(EnvKeys()) && API_KEY !in EnvKeys()
  {
    PathKeysAreShaped(); AuthKeysAreShaped(); AccountKeysAreShaped(); QueueKeysAreShaped(); MoreQueueKeysAreShaped();
    SolrKeysAreShaped(); BuildKeysAreShaped();
  }

  /** The fixed list of keys with their comments, whose wording does not matter. */
  predicate IsEnvComments(settings: seq<Setting>) {
    && |settings| == |EnvKeys()|
    && forall i :: 0 <= i < |settings| ==> settings[i].key == EnvKeys()[i] && OneLine(settings[i].comment)
  }

  predicate IsHeader(header: string) {
    |header| > 0 && header[0] == '#' && OneLine(header) && !IsSpace(header[|header| - 1])
  }

  lemma EnvCommentsArePrintable(header: string, settings: seq<Setting>)
    requires IsHeader(header) && IsEnvComments(settings)
    ensures Printable(header, settings)
    ensures forall key :: Listed(settings, key) <==> key in EnvKeys()
  {
    KeysAreShaped();
    assert forall i :: 0 <= i < |settings| ==> KeyShaped(EnvKeys()[i]);
    forall key ensures Listed(settings, key) <==> key in EnvKeys() {
      if key in EnvKeys() {
        var i :| 0 <= i < |EnvKeys()| && EnvKeys()[i] == key;
        assert settings[i].key == key;
      }
    }
  }

  // ---------------------------------------------------------------------------------------------
  // Choosing the values
  // ---------------------------------------------------------------------------------------------

  const JWT_SECRET := "AUTH_JWT_SECRET"
  const API_KEY := "ADMIN_API_KEY"
  const RABBIT_PASS := "RABBITMQ_PASS"
  const SERVICE_PASSES: seq<string> :=
    ["RABBITMQ_LISTER_PASS", "RABBITMQ_INDEXER_PASS", "RABBITMQ_SEARCH_PASS", "RABBITMQ_ADMIN_PASS"]
  const SOLR_ADMIN := "SOLR_ADMIN_PASS"
  const SOLR_READONLY := "SOLR_READONLY_PASS"

  /** The secrets, in the order in which they are drawn. */
  function SecretNames(): seq<string> {
    [JWT_SECRET, RABBIT_PASS] + SERVICE_PASSES + [API_KEY, SOLR_ADMIN, SOLR_READONLY]
  }

  /** The values that count as "not set yet" for a secret. */
  function Placeholders(name: string): set<string> {
    if name == JWT_SECRET then {"", "change-me", "development-only-change-me", "generate-with-installer"}
    else if name == RABBIT_PASS then {"", "change-me", "guest", "generate-with-installer"}
    else if name == API_KEY then {""}
    else if name == SOLR_ADMIN || name == SOLR_READONLY then
      {"", "change-me", "SolrAdmin_dev2024!", "SolrRead_dev2024!", "generate-with-installer"}
    else
      {"", "change-me", "generate-with-installer", "lister_dev_pass", "indexer_dev_pass", "search_dev_pass",
       "admin_dev_pass"}
  }

  function Get(env: map<string, string>, key: string, default: string): string {
    if key in env then env[key] else default
  }

  predicate Keeps(existing: map<string, string>, reset: bool, name: string) {
    !reset && Get(existing, name, "") !in Placeholders(name)
  }

  /** What a run does for the secrets `names`: each is the existing value or a token of its own;
      `drawn` says which token. */
  ghost predicate Secured(names: seq<string>, existing: map<string, string>, reset: bool, token: nat -> string,
                          secrets: map<string, string>, drawn: map<string, nat>, issued: nat)
  {
    && (forall name :: name in secrets <==> name in names)
    && (forall name :: name in secrets ==>
          if Keeps(existing, reset, name) then name !in drawn && name in existing && secrets[name] == existing[name]
          else name in drawn && secrets[name] == token(drawn[name]))
    && (forall name :: name in drawn ==> name in secrets && drawn[name] < issued)
    && (forall n, m :: n in drawn && m in drawn && n != m ==> drawn[n] != drawn[m])
  }

  lemma SecretNamesAreDistinct()
    ensures Distinct(SecretNames())
  { }

  ghost predicate IsNth(n: nat, name: string) {
    n < |SecretNames()| && SecretNames()[n] == name
  }

  lemma SecretNamesInOrder()
    ensures IsNth(0, JWT_SECRET) && IsNth(1, RABBIT_PASS)
    ensures |SERVICE_PASSES| == 4 && forall i :: 0 <= i < 4 ==> IsNth(2 + i, SERVICE_PASSES[i])
    ensures IsNth(6, API_KEY) && IsNth(7, SOLR_ADMIN) && IsNth(8, SOLR_READONLY)
    ensures |SecretNames()| == 9
  { }

  /** One more secret settled, by its existing value or by the next token. */
  lemma SecuredMore(names: seq<string>, name: string, existing: map<string, string>, reset: bool, token: nat -> string,
                    secrets: map<string, string>, drawn: map<string, nat>, issued: nat)
    requires Secured(names, existing, reset, token, secrets, drawn, issued) && name !in names
    ensures Keeps(existing, reset, name) && name in existing ==>
              Secured(names + [name], existing, reset, token, secrets[name := existing[name]], drawn, issued)
    ensures !Keeps(existing, reset, name) ==>
              Secured(names + [name], existing, reset, token, secrets[name := token(issued)], drawn[name := issued],
                      issued + 1)
  { }

  /** The first `n` secrets are settled. */
  ghost predicate Settled(n: nat, existing: map<string, string>, reset: bool, token: nat -> string,
                          secrets: map<string, string>, drawn: map<string, nat>, issued: nat)
  {
    n <= |SecretNames()| && Secured(SecretNames()[..n], existing, reset, token, secrets, drawn, issued)
  }

  lemma BlankIsPlaceholder(name: string)
    ensures "" in Placeholders(name)
  { }

  /** Settles the `n`th secret; `secret_factory` is a stream of tokens of which `issued` have been used. */
  method Renew(ghost n: nat, name: string, existing: map<string, string>, reset: bool, token: nat -> string,
               secrets: map<string, string>, ghost drawn: map<string, nat>, issued: nat)
    returns (secrets': map<string, string>, ghost drawn': map<string, nat>, issued': nat)
    requires IsNth(n, name) && Settled(n, existing, reset, token, secrets, drawn, issued)
    ensures Settled(n + 1, existing, reset, token, secrets', drawn', issued')
    ensures Keeps(existing, reset, name) ==>
              name in existing && secrets' == secrets[name := existing[name]] && issued' == issued
    ensures !Keeps(existing, reset, name) ==> secrets' == secrets[name := token(issued)] && issued' == issued + 1
  {
    ghost var names := SecretNames();
    SecretNamesAreDistinct();
    BlankIsPlaceholder(name);
    assert names[..n + 1] == names[..n] + [name];
    SecuredMore(names[..n], name, existing, reset, token, secrets, drawn, issued);
    var secret := Get(existing, name, "");
    secrets', drawn', issued' := secrets, drawn, issued;
    if reset || secret in Placeholders(name) {
      secret := token(issued);
      drawn' := drawn[name := issued];
      issued' := issued + 1;
    }
    secrets' := secrets[name := secret];
  }

  /** The choices of one run that come from outside the file; `adminPassword` may be absent. */
  datatype Config = Config(libraryPath: string, authDbDir: string, authDbName: string, origin: string,
                           adminUser: string, adminPassword: Option<string>, reset: bool,
                           version: string, commit: string, now: string)

  function RabbitUser(existing: map<string, string>, reset: bool): string {
    var user := Strip(Get(existing, "RABBITMQ_USER", ""));
    if reset || user in {"", "change-me", "guest", "generate-with-installer"} then "aithena" else user
  }

  /** Settings taken over from the file whatever they are, with a default for the first run. */
  function CarriedOver(c: Config, existing: map<string, string>): map<string, string> {
    map["AUTH_JWT_TTL" := Get(existing, "AUTH_JWT_TTL", "24h"),
        "AUTH_COOKIE_NAME" := Get(existing, "AUTH_COOKIE_NAME", "aithena_auth"),
        "SOLR_ADMIN_USER" := Get(existing, "SOLR_ADMIN_USER", "solr_admin"),
        "SOLR_READONLY_USER" := Get(existing, "SOLR_READONLY_USER", "solr_read"),
        "VERSION" := Get(existing, "VERSION", c.version),
        "GIT_COMMIT" := Get(existing, "GIT_COMMIT", c.commit),
        "BUILD_DATE" := Get(existing, "BUILD_DATE", c.now)]
  }

  /** Settings decided by this run's choices. */
  function Chosen(c: Config, existing: map<string, string>): map<string, string> {
    map["BOOKS_PATH" := c.libraryPath,
        "BOOK_LIBRARY_PATH" := c.libraryPath,
        "PUBLIC_ORIGIN" := c.origin,
        "CORS_ORIGINS" := c.origin,
        "AUTH_DB_DIR" := c.authDbDir,
        "AUTH_DB_PATH" := "/data/auth/" + c.authDbName,
        "AUTH_ADMIN_USERNAME" := c.adminUser,
        "AUTH_ADMIN_PASSWORD" :=
          if c.adminPassword.Some? && c.adminPassword.value != "" then c.adminPassword.value
          else Get(existing, "AUTH_ADMIN_PASSWORD", ""),
        "RABBITMQ_USER" := RabbitUser(existing, c.reset),
        "RABBITMQ_LISTER_USER" := "lister",
        "RABBITMQ_INDEXER_USER" := "indexer",
        "RABBITMQ_SEARCH_USER" := "search",
        "RABBITMQ_ADMIN_USER" := "admin"]
  }

  /** What one run decides: the secrets as `Secured` says, everything else as above. */
  ghost predicate Built(c: Config, existing: map<string, string>, token: nat -> string,
                        values: map<string, string>, secrets: map<string, string>, drawn: map<string, nat>, issued: nat)
  {
    && Secured(SecretNames(), existing, c.reset, token, secrets, drawn, issued)
    && values == Chosen(c, existing) + CarriedOver(c, existing) + secrets
  }

  lemma AllSettled(existing: map<string, string>, reset: bool, token: nat -> string,
                   secrets: map<string, string>, drawn: map<string, nat>, issued: nat)
    requires Settled(9, existing, reset, token, secrets, drawn, issued)
    ensures Secured(SecretNames(), existing, reset, token, secrets, drawn, issued)
  {
    SecretNamesInOrder();
    assert SecretNames()[..9] == SecretNames();
  }

  /** Exactly the secrets, each kept or one of the issued tokens. */
  ghost predicate AllChosen(existing: map<string, string>, reset: bool, token: nat -> string,
                            secrets: map<string, string>, issued: nat)
  {
    && (forall name :: name in secrets <==> name in SecretNames())
    && forall name :: name in secrets ==>
         if Keeps(existing, reset, name) then name in existing && secrets[name] == existing[name]
         else exists j: nat :: j < issued && secrets[name] == token(j)
  }

  lemma AllSettledAreChosen(existing: map<string, string>, reset: bool, token: nat -> string,
                            secrets: map<string, string>, drawn: map<string, nat>, issued: nat)
    requires Secured(SecretNames(), existing, reset, token, secrets, drawn, issued)
    ensures AllChosen(existing, reset, token, secrets, issued)
  {
    forall name | name in secrets && !Keeps(existing, reset, name)
      ensures exists j: nat :: j < issued && secrets[name] == token(j)
    {
      assert drawn[name] < issued && secrets[name] == token(drawn[name]);
    }
  }

  method ChooseSecrets(existing: map<string, string>, reset: bool, token: nat -> string)
    returns (secrets: map<string, string>, ghost drawn: map<string, nat>, issued: nat)
    ensures Secured(SecretNames(), existing, reset, token, secrets, drawn, issued)
    ensures AllChosen(existing, reset, token, secrets, issued)
  {
    SecretNamesInOrder();
    secrets, drawn, issued := map[], map[], 0;
    if Get(existing, JWT_SECRET, "") == "" {
      issued := 1;   // a token is drawn here and replaced at once by the next one
    }
    secrets, drawn, issued := Renew(0, JWT_SECRET, existing, reset, token, secrets, drawn, issued);
    secrets, drawn, issued := Renew(1, RABBIT_PASS, existing, reset, token, secrets, drawn, issued);
    for i := 0 to |SERVICE_PASSES|
      invariant Settled(2 + i, existing, reset, token, secrets, drawn, issued)
    {
      secrets, drawn, issued := Renew(2 + i, SERVICE_PASSES[i], existing, reset, token, secrets, drawn, issued);
    }
    secrets, drawn, issued := Renew(6, API_KEY, existing, reset, token, secrets, drawn, issued);
    secrets, drawn, issued := Renew(7, SOLR_ADMIN, existing, reset, token, secrets, drawn, issued);
    secrets, drawn, issued := Renew(8, SOLR_READONLY, existing, reset, token, secrets, drawn, issued);
    AllSettled(existing, reset, token, secrets, drawn, issued);
    AllSettledAreChosen(existing, reset, token, secrets, drawn, issued);
  }

  predicate JwtSecretIsReplaced(c: Config, existing: map<string, string>) {
    || c.reset || "AUTH_JWT_SECRET" !in existing
    || existing["AUTH_JWT_SECRET"] in {"", "change-me", "development-only-change-me", "generate-with-installer"}
  }

  lemma JwtSecretFlag(c: Config, existing: map<string, string>, flag: bool)
    requires flag <==> c.reset || Get(existing, JWT_SECRET, "") in Placeholders(JWT_SECRET)
    ensures flag <==> JwtSecretIsReplaced(c, existing)
  { }

  method BuildEnvValues(c: Config, existing: map<string, string>, token: nat -> string)
    returns (values: map<string, string>, generatedJwtSecret: bool, generatedSolrPasswords: bool,
             secrets: map<string, string>,
             ghost drawn: map<string, nat>, issued: nat)
    ensures Built(c, existing, token, values, secrets, drawn, issued)
    ensures generatedJwtSecret <==> JWT_SECRET in drawn
    ensures generatedJwtSecret <==> JwtSecretIsReplaced(c, existing)
    ensures generatedSolrPasswords <==> (exists name <- [SOLR_ADMIN, SOLR_READONLY] ::
                                           Get(secrets, name, "") != Get(existing, name, ""))
  {
    generatedJwtSecret := c.reset || Get(existing, JWT_SECRET, "") in Placeholders(JWT_SECRET);
    secrets, drawn, issued := ChooseSecrets(existing, c.reset, token);
    values := Chosen(c, existing) + CarriedOver(c, existing) + secrets;
    SecretNamesInOrder();
    JwtSecretFlag(c, existing, generatedJwtSecret);
    NthIsSettled(0, JWT_SECRET, existing, c.reset, token, secrets, drawn, issued);
    NthIsSettled(7, SOLR_ADMIN, existing, c.reset, token, secrets, drawn, issued);
    NthIsSettled(8, SOLR_READONLY, existing, c.reset, token, secrets, drawn, issued);
    generatedSolrPasswords := secrets[SOLR_ADMIN] != Get(existing, SOLR_ADMIN, "")
                           || secrets[SOLR_READONLY] != Get(existing, SOLR_READONLY, "");
  }

  lemma NthIsSettled(n: nat, name: string, existing: map<string, string>, reset: bool, token: nat -> string,
                     secrets: map<string, string>, drawn: map<string, nat>, issued: nat)
    requires IsNth(n, name) && Secured(SecretNames(), existing, reset, token, secrets, drawn, issued)
    ensures name in secrets && (name in drawn <==> !Keeps(existing, reset, name))
  { }

  // ---------------------------------------------------------------------------------------------
  // The values, key by key
  // ---------------------------------------------------------------------------------------------

  /** The nine secrets. */
  lemma TheSecretsAre(name: string)
    ensures name in SecretNames()
       <==> name in ["AUTH_JWT_SECRET", "RABBITMQ_PASS", "RABBITMQ_LISTER_PASS", "RABBITMQ_INDEXER_PASS",
                     "RABBITMQ_SEARCH_PASS", "RABBITMQ_ADMIN_PASS", "ADMIN_API_KEY", "SOLR_ADMIN_PASS",
                     "SOLR_READONLY_PASS"]
  { }

  /** With reset every secret is drawn anew, each from a token of its own. */
  lemma ResetRenewsEverySecret(c: Config, existing: map<string, string>, token: nat -> string,
                               values: map<string, string>, secrets: map<string, string>, drawn: map<string, nat>,
                               issued: nat)
    requires c.reset && Built(c, existing, token, values, secrets, drawn, issued)
    ensures forall name :: name in SecretNames() ==>
              name in drawn && drawn[name] < issued && name in values && values[name] == token(drawn[name])
    ensures forall m, n :: m in drawn && n in drawn && m != n ==> drawn[m] != drawn[n]
  { }

  /** The existing value of a secret is kept if it is none of these, and else replaced by a token. */
  ghost predicate KeptUnless(name: string, placeholders: set<string>, existing: map<string, string>,
                             values: map<string, string>, drawn: map<string, nat>, token: nat -> string)
  {
    && name in values
    && if name in existing && existing[name] !in placeholders then name !in drawn && values[name] == existing[name]
       else name in drawn && values[name] == token(drawn[name])
  }

  /** Without reset: which values of which secret are replaced. */
  lemma PlaceholdersAreReplaced(c: Config, existing: map<string, string>, token: nat -> string,
                                values: map<string, string>, secrets: map<string, string>, drawn: map<string, nat>,
                                issued: nat)
    requires !c.reset && Built(c, existing, token, values, secrets, drawn, issued)
    ensures KeptUnless("AUTH_JWT_SECRET", {"", "change-me", "development-only-change-me", "generate-with-installer"},
                       existing, values, drawn, token)
    ensures KeptUnless("RABBITMQ_PASS", {"", "change-me", "guest", "generate-with-installer"},
                       existing, values, drawn, token)
    ensures KeptUnless("ADMIN_API_KEY", {""}, existing, values, drawn, token)
    ensures forall name :: name in ["RABBITMQ_LISTER_PASS", "RABBITMQ_INDEXER_PASS", "RABBITMQ_SEARCH_PASS",
                                    "RABBITMQ_ADMIN_PASS"] ==>
              KeptUnless(name, {"", "change-me", "generate-with-installer", "lister_dev_pass", "indexer_dev_pass",
                                "search_dev_pass", "admin_dev_pass"}, existing, values, drawn, token)
    ensures forall name :: name in ["SOLR_ADMIN_PASS", "SOLR_READONLY_PASS"] ==>
              KeptUnless(name, {"", "change-me", "SolrAdmin_dev2024!", "SolrRead_dev2024!", "generate-with-installer"},
                         existing, values, drawn, token)
  {
    SecretIsKeptUnless(0, JWT_SECRET, c, existing, token, values, secrets, drawn, issued);
    SecretIsKeptUnless(1, RABBIT_PASS, c, existing, token, values, secrets, drawn, issued);
    SecretIsKeptUnless(6, API_KEY, c, existing, token, values, secrets, drawn, issued);
    SecretIsKeptUnless(7, SOLR_ADMIN, c, existing, token, values, secrets, drawn, issued);
    SecretIsKeptUnless(8, SOLR_READONLY, c, existing, token, values, secrets, drawn, issued);
    ServicePassesAreReplaced(c, existing, token, values, secrets, drawn, issued);
  }

  lemma ServicePassesAreReplaced(c: Config, existing: map<string, string>, token: nat -> string,
                                 values: map<string, string>, secrets: map<string, string>, drawn: map<string, nat>,
                                 issued: nat)
    requires !c.reset && Built(c, existing, token, values, secrets, drawn, issued)
    ensures forall name :: name in SERVICE_PASSES ==>
              KeptUnless(name, {"", "change-me", "generate-with-installer", "lister_dev_pass", "indexer_dev_pass",
                                "search_dev_pass", "admin_dev_pass"}, existing, values, drawn, token)
  {
    forall i | 0 <= i < 4
      ensures KeptUnless(SERVICE_PASSES[i], Placeholders(SERVICE_PASSES[i]), existing, values, drawn, token)
    {
      SecretIsKeptUnless(2 + i, SERVICE_PASSES[i], c, existing, token, values, secrets, drawn, issued);
    }
    ServicePlaceholders();
  }

  lemma ServicePlaceholders()
    ensures forall i :: 0 <= i < |SERVICE_PASSES| ==>
              Placeholders(SERVICE_PASSES[i]) ==
              {"", "change-me", "generate-with-installer", "lister_dev_pass", "indexer_dev_pass", "search_dev_pass",
               "admin_dev_pass"}
  { }

  lemma SecretIsKeptUnless(n: nat, name: string, c: Config, existing: map<string, string>, token: nat -> string,
                           values: map<string, string>, secrets: map<string, string>, drawn: map<string, nat>,
                           issued: nat)
    requires n < 9 && (n == 0 ==> name == JWT_SECRET) && (n == 1 ==> name == RABBIT_PASS)
    requires n == 6 ==> name == API_KEY
    requires (2 <= n < 6 ==> name == SERVICE_PASSES[n - 2]) && (n == 7 ==> name == SOLR_ADMIN)
    requires n == 8 ==> name == SOLR_READONLY
    requires !c.reset && Built(c, existing, token, values, secrets, drawn, issued)
    ensures KeptUnless(name, Placeholders(name), existing, values, drawn, token)
  {
    SecretNamesInOrder();
    assert IsNth(n, name) && name in SecretNames() && name in secrets;
    BlankIsPlaceholder(name);
  }

  /** A key has this value. */
  predicate Set(values: map<string, string>, key: string, v: string) {
    key in values && values[key] == v
  }

  lemma ChosenPaths(c: Config, existing: map<string, string>)
    ensures var m := Chosen(c, existing);
            && Set(m, "BOOKS_PATH", c.libraryPath) && Set(m, "BOOK_LIBRARY_PATH", c.libraryPath)
            && Set(m, "PUBLIC_ORIGIN", c.origin) && Set(m, "CORS_ORIGINS", c.origin)
            && Set(m, "AUTH_DB_DIR", c.authDbDir) && Set(m, "AUTH_DB_PATH", "/data/auth/" + c.authDbName)
  { }

  lemma ChosenUsers(c: Config, existing: map<string, string>)
    ensures var m := Chosen(c, existing);
            && Set(m, "RABBITMQ_LISTER_USER", "lister") && Set(m, "RABBITMQ_INDEXER_USER", "indexer")
            && Set(m, "RABBITMQ_SEARCH_USER", "search") && Set(m, "RABBITMQ_ADMIN_USER", "admin")
            && Set(m, "AUTH_ADMIN_USERNAME", c.adminUser)
            && Set(m, "AUTH_ADMIN_PASSWORD",
                   if c.adminPassword.Some? && c.adminPassword.value != "" then c.adminPassword.value
                   else if "AUTH_ADMIN_PASSWORD" in existing then existing["AUTH_ADMIN_PASSWORD"] else "")
  { }

  lemma ChosenRabbitUser(c: Config, existing: map<string, string>)
    ensures var user := Strip(if "RABBITMQ_USER" in existing then existing["RABBITMQ_USER"] else "");
            Set(Chosen(c, existing), "RABBITMQ_USER",
                if c.reset || user in {"", "change-me", "guest", "generate-with-installer"} then "aithena" else user)
  { }

  function OrDefault(existing: map<string, string>, key: string, default: string): string {
    if key in existing then existing[key] else default
  }

  lemma CarriedValues(c: Config, existing: map<string, string>)
    ensures var m := CarriedOver(c, existing);
            && Set(m, "AUTH_JWT_TTL", OrDefault(existing, "AUTH_JWT_TTL", "24h"))
            && Set(m, "AUTH_COOKIE_NAME", OrDefault(existing, "AUTH_COOKIE_NAME", "aithena_auth"))
            && Set(m, "SOLR_ADMIN_USER", OrDefault(existing, "SOLR_ADMIN_USER", "solr_admin"))
            && Set(m, "SOLR_READONLY_USER", OrDefault(existing, "SOLR_READONLY_USER", "solr_read"))
            && Set(m, "VERSION", OrDefault(existing, "VERSION", c.version))
            && Set(m, "GIT_COMMIT", OrDefault(existing, "GIT_COMMIT", c.commit))
            && Set(m, "BUILD_DATE", OrDefault(existing, "BUILD_DATE", c.now))
  { }

  /** The keys that are no secrets, in two groups. */
  const CHOSEN_KEYS: seq<string> :=
    ["BOOKS_PATH", "BOOK_LIBRARY_PATH", "PUBLIC_ORIGIN", "CORS_ORIGINS", "AUTH_DB_DIR", "AUTH_DB_PATH",
     "AUTH_ADMIN_USERNAME", "AUTH_ADMIN_PASSWORD", "RABBITMQ_USER", "RABBITMQ_LISTER_USER", "RABBITMQ_INDEXER_USER",
     "RABBITMQ_SEARCH_USER", "RABBITMQ_ADMIN_USER"]
  const CARRIED_KEYS: seq<string> :=
    ["AUTH_JWT_TTL", "AUTH_COOKIE_NAME", "SOLR_ADMIN_USER", "SOLR_READONLY_USER", "VERSION", "GIT_COMMIT", "BUILD_DATE"]

  lemma ChosenKeys(c: Config, existing: map<string, string>, key: string)
    ensures key in Chosen(c, existing) <==> key in CHOSEN_KEYS
    ensures key in CarriedOver(c, existing) <==> key in CARRIED_KEYS
  { }

  lemma ChosenIsNoSecret(key: string)
    requires key in CHOSEN_KEYS
    ensures key !in SecretNames()
  { }

  lemma CarriedIsNoSecret(key: string)
    requires key in CARRIED_KEYS
    ensures key !in SecretNames()
  { }

  lemma ChosenIsNotCarriedOver(key: string)
    requires key in CHOSEN_KEYS
    ensures key !in CARRIED_KEYS
  { }

  /** Each setting ends up as its group says. */
  lemma SettingsAre(c: Config, existing: map<string, string>, token: nat -> string, values: map<string, string>,
                    secrets: map<string, string>, drawn: map<string, nat>, issued: nat, key: string)
    requires Built(c, existing, token, values, secrets, drawn, issued)
    ensures key in CHOSEN_KEYS ==> key in Chosen(c, existing) && Set(values, key, Chosen(c, existing)[key])
    ensures key in CARRIED_KEYS ==> key in CarriedOver(c, existing) && Set(values, key, CarriedOver(c, existing)[key])
    ensures key in SecretNames() ==> key in secrets && Set(values, key, secrets[key])
    ensures key in values <==> key in CHOSEN_KEYS || key in CARRIED_KEYS || key in SecretNames()
  {
    ChosenKeys(c, existing, key);
    if key in CHOSEN_KEYS {
      ChosenIsNoSecret(key);
      ChosenIsNotCarriedOver(key);
    }
    if key in CARRIED_KEYS {
      CarriedIsNoSecret(key);
    }
  }

  lemma WrittenKeysAre(key: string)
    ensures key in EnvKeys()
       <==> (key in CHOSEN_KEYS || key in CARRIED_KEYS || (key in SecretNames() && key != API_KEY)
             || key == "SOLR_TOPOLOGY")
  {
    KeysAreShaped();
  }

  /** Every setting but the administration key is written; the topology, set elsewhere, is written too. */
  lemma EverySettingIsWritten(c: Config, existing: map<string, string>, token: nat -> string,
                              values: map<string, string>, secrets: map<string, string>, drawn: map<string, nat>,
                              issued: nat, key: string)
    requires Built(c, existing, token, values, secrets, drawn, issued)
    ensures key in values ==> (key in EnvKeys() <==> key != "ADMIN_API_KEY")
    ensures key in EnvKeys() && key != "SOLR_TOPOLOGY" ==> key in values
  {
    SettingsAre(c, existing, token, values, secrets, drawn, issued, key);
    WrittenKeysAre(key);
    KeysAreShaped();
  }

  // ---------------------------------------------------------------------------------------------
  // Running the installer again
  // ---------------------------------------------------------------------------------------------

  /** A value that quoting, printing, parsing and unquoting give back unchanged. */
  predicate Unchanged(v: string) {
    Sanitize(v) == v && (NeedsQuotes(v) || !Wrapped(v))
  }

  lemma {:induction false} SanitizeShortens(v: string)
    ensures |Sanitize(v)| <= |v| && (|Sanitize(v)| == |v| ==> Sanitize(v) == v)
  {
    if v != "" {
      SanitizeShortens(v[1..]);
    }
  }

  lemma ReturnsExactlyWhenUnchanged(v: string)
    ensures UnquoteEnvValue(QuoteEnvValue(v)) == v <==> Unchanged(v)
  {
    var s := Sanitize(v);
    QuoteRoundTripsExactlyWhen(v);
    SanitizeShortens(v);
    if !NeedsQuotes(s) && Wrapped(s) {
      var inner := s[1..|s| - 1];
      UnprefixedNotLonger(inner, '"');
      UnprefixedNotLonger(Unprefixed(inner, '"'), '\\');
    }
  }

  /** The value of a key that one run wrote, as the next run reads it. */
  lemma WhatTheNextRunReads(header: string, settings: seq<Setting>, written: map<string, string>, key: string)
    requires IsHeader(header) && IsEnvComments(settings) && AllOneLine(settings, written)
    ensures var existing := Load(Write(header, settings, written));
            if key in written && key in EnvKeys() then
              key in existing && existing[key] == UnquoteEnvValue(QuoteEnvValue(written[key]))
            else key !in existing
  {
    EnvCommentsArePrintable(header, settings);
    LoadOfWritten(header, settings, written);
  }

  lemma SecretsAreWritten(name: string)
    requires name in SecretNames()
    ensures name in EnvKeys() <==> name != API_KEY
  {
    KeysAreShaped();
    SecretNamesInOrder();
    SecretsAreListed();
    var n :| 0 <= n < |SecretNames()| && SecretNames()[n] == name;
    assert IsNth(n, name);
  }

  lemma SecretsAreListed()
    ensures JWT_SECRET in EnvKeys() && RABBIT_PASS in EnvKeys() && SOLR_ADMIN in EnvKeys() && SOLR_READONLY in EnvKeys()
    ensures forall i :: 0 <= i < |SERVICE_PASSES| ==> SERVICE_PASSES[i] in EnvKeys()
  {
    assert AUTH_KEYS[2] == JWT_SECRET && QUEUE_KEYS[1] == RABBIT_PASS;
    assert SOLR_KEYS[1] == SOLR_ADMIN && SOLR_KEYS[3] == SOLR_READONLY;
    assert QUEUE_KEYS[3] == SERVICE_PASSES[0];
    assert MORE_QUEUE_KEYS[0] == SERVICE_PASSES[1] && MORE_QUEUE_KEYS[2] == SERVICE_PASSES[2];
    assert MORE_QUEUE_KEYS[4] == SERVICE_PASSES[3];
  }

  /** A run without reset keeps a secret of the previous run exactly when the secret is not a placeholder
      and comes back unchanged from the file. */
  lemma RerunKeepsExactlyWhen(header: string, settings: seq<Setting>, written: map<string, string>, name: string,
                              c: Config, token: nat -> string, values: map<string, string>,
                              secrets: map<string, string>, drawn: map<string, nat>, issued: nat)
    requires IsHeader(header) && IsEnvComments(settings) && AllOneLine(settings, written)
    requires name in SecretNames() && name != API_KEY && name in written
    requires !c.reset && Built(c, Load(Write(header, settings, written)), token, values, secrets, drawn, issued)
    ensures (name !in drawn && values[name] == written[name])
       <==> (Unchanged(written[name]) && written[name] !in Placeholders(name))
  {
    SecretsAreWritten(name);
    WhatTheNextRunReads(header, settings, written, name);
    ReturnsExactlyWhenUnchanged(written[name]);
    assert name in secrets;
  }

  predicate UrlSafe(s: string) {
    forall i :: 0 <= i < |s| ==> 'a' <= s[i] <= 'z' || 'A' <= s[i] <= 'Z' || '0' <= s[i] <= '9' || s[i] in ['-', '_']
  }

  lemma {:induction false} UrlSafeIsUnchanged(v: string)
    requires UrlSafe(v)
    ensures Unchanged(v)
  {
    if v != "" {
      UrlSafeIsUnchanged(v[1..]);
      assert v[0] !in ['\n', '\r', '\0'];
    }
  }

  /** One run of the installer: what it built, and what it wrote, in which later steps may have added
      settings that are not secrets. */
  datatype Run = Run(config: Config, token: nat -> string, values: map<string, string>, secrets: map<string, string>,
                     drawn: map<string, nat>, issued: nat, header: string, written: map<string, string>)

  ghost predicate Wrote(settings: seq<Setting>, r: Run) {
    && IsHeader(r.header) && AllOneLine(settings, r.written)
    && forall name :: name in r.secrets ==> name in r.written && r.written[name] == r.secrets[name]
  }

  ghost predicate BuiltFrom(r: Run, existing: map<string, string>) {
    Built(r.config, existing, r.token, r.values, r.secrets, r.drawn, r.issued)
  }

  /** What run `i` finds in the file. */
  function Found(settings: seq<Setting>, first: map<string, string>, runs: seq<Run>, i: nat): map<string, string>
    requires i < |runs|
  {
    if i == 0 then first else Load(Write(runs[i - 1].header, settings, runs[i - 1].written))
  }

  ghost predicate IsRun(settings: seq<Setting>, first: map<string, string>, runs: seq<Run>, i: nat)
    requires i < |runs|
  {
    && Wrote(settings, runs[i]) && BuiltFrom(runs[i], Found(settings, first, runs, i))
    && (i > 0 ==> !runs[i].config.reset)
  }

  /** A first run in any circumstances, and then runs without reset on the file of the run before. */
  ghost predicate Reruns(settings: seq<Setting>, first: map<string, string>, runs: seq<Run>) {
    && IsEnvComments(settings)
    && forall i :: 0 <= i < |runs| ==> IsRun(settings, first, runs, i)
  }

  lemma SecretsOfARun(settings: seq<Setting>, first: map<string, string>, runs: seq<Run>, name: string, i: nat)
    requires Reruns(settings, first, runs) && i < |runs| && name in SecretNames()
    ensures var r := runs[i];
            && name in r.secrets && name in r.values && name in r.written
            && r.written[name] == r.values[name] == r.secrets[name]
  {
    assert IsRun(settings, first, runs, i);
  }

  predicate Lasting(name: string, v: string) {
    name in SecretNames() && name != API_KEY && UrlSafe(v) && v !in Placeholders(name)
  }

  predicate Holds(written: map<string, string>, name: string, v: string) {
    name in written && written[name] == v
  }

  lemma NextRunKeeps(settings: seq<Setting>, first: map<string, string>, runs: seq<Run>, name: string, v: string,
                     i: nat)
    requires Reruns(settings, first, runs) && 0 < i < |runs|
    requires Lasting(name, v) && Holds(runs[i - 1].written, name, v)
    ensures Holds(runs[i].written, name, v)
  {
    var p, r := runs[i - 1], runs[i];
    assert IsRun(settings, first, runs, i - 1) && IsRun(settings, first, runs, i);
    SecretsOfARun(settings, first, runs, name, i);
    UrlSafeIsUnchanged(v);
    RerunKeepsExactlyWhen(p.header, settings, p.written, name, r.config, r.token, r.values, r.secrets, r.drawn,
                          r.issued);
  }

  /** Over any number of runs, a url-safe secret that is no placeholder never changes. */
  lemma {:induction false} SecretsNeverChange(settings: seq<Setting>, first: map<string, string>, runs: seq<Run>,
                                              name: string, v: string, i: nat)
    requires Reruns(settings, first, runs) && i < |runs|
    requires Lasting(name, v) && Holds(runs[0].written, name, v)
    ensures Holds(runs[i].written, name, v)
  {
    if i > 0 {
      SecretsNeverChange(settings, first, runs, name, v, i - 1);
      NextRunKeeps(settings, first, runs, name, v, i);
    }
  }

  /** The administration key is not written, so every later run draws a new one. */
  lemma ApiKeyChangesOnEveryRun(settings: seq<Setting>, first: map<string, string>, runs: seq<Run>, i: nat)
    requires Reruns(settings, first, runs) && 0 < i < |runs|
    ensures API_KEY in runs[i].drawn && API_KEY in runs[i].values
    ensures runs[i].values[API_KEY] == runs[i].token(runs[i].drawn[API_KEY])
  {
    var p, r := runs[i - 1], runs[i];
    assert IsRun(settings, first, runs, i - 1) && IsRun(settings, first, runs, i);
    SecretNamesInOrder();
    assert IsNth(6, API_KEY) && API_KEY in SecretNames();
    SecretsAreWritten(API_KEY);
    WhatTheNextRunReads(p.header, settings, p.written, API_KEY);
    SecretsOfARun(settings, first, runs, API_KEY, i);
    BlankIsPlaceholder(API_KEY);
  }

  lemma VersionIsNoSecret()
    ensures "VERSION" in EnvKeys() && "VERSION" !in SecretNames()
  {
    assert BUILD_KEYS[0] == "VERSION";
  }

  lemma VersionIsCarriedOver(c: Config, existing: map<string, string>, secrets: map<string, string>)
    requires "VERSION" !in secrets
    ensures var values := Chosen(c, existing) + CarriedOver(c, existing) + secrets;
            "VERSION" in values && values["VERSION"] == Get(existing, "VERSION", c.version)
  { }

  /** The version once written is what later runs read back, whatever version they were made from, and even
      with reset; it stays the same exactly when the file returns it unchanged. */
  lemma VersionIsNeverUpdated(header: string, settings: seq<Setting>, written: map<string, string>, c: Config,
                              token: nat -> string, values: map<string, string>, secrets: map<string, string>,
                              drawn: map<string, nat>, issued: nat)
    requires IsHeader(header) && IsEnvComments(settings) && AllOneLine(settings, written) && "VERSION" in written
    requires Built(c, Load(Write(header, settings, written)), token, values, secrets, drawn, issued)
    ensures "VERSION" in values && values["VERSION"] == UnquoteEnvValue(QuoteEnvValue(written["VERSION"]))
    ensures values["VERSION"] == written["VERSION"] <==> Unchanged(written["VERSION"])
  {
    VersionIsNoSecret();
    VersionIsCarriedOver(c, Load(Write(header, settings, written)), secrets);
    WhatTheNextRunReads(header, settings, written, "VERSION");
    ReturnsExactlyWhenUnchanged(written["VERSION"]);
  }

  /** Secrets drawn in one run differ from one another when the tokens do. */
  lemma DrawnSecretsDiffer(r: Run, existing: map<string, string>, a: string, b: string)
    requires BuiltFrom(r, existing)
    requires a in r.drawn && b in r.drawn && a != b
    requires forall m: nat, n: nat :: m != n ==> r.token(m) != r.token(n)
    ensures r.values[a] != r.values[b]
  { }
}
