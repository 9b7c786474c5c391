/**
 * The `dotnet nuget add source` commands of `addSourceCmds`
 * (lib/manager/nuget/artifacts.ts:32-60): one per registry, carrying the
 * feed URL, the registry's name when it has one, and the host rule's
 * credentials when both are set.
 */
module SourceCommands {
  import opened Wrappers
  import opened NugetHost

  /**
   * `(await getConfiguredRegistries(...)) || getDefaultRegistries()`: the
   * defaults only when the lookup gives null or undefined; an array,
   * even an empty one, is truthy and is used as it is.
   */
  function Registries(host: Host, packageFileName: string): seq<Registry> {
    match host.configuredRegistries(packageFileName, host.localDir)
    case Some(rs) => rs
    case None => host.defaultRegistries
  }

  function BaseCmd(feedUrl: string, nugetConfigFile: string): string {
    "dotnet nuget add source " + feedUrl + " --configfile " + nugetConfigFile
  }

  function NameOption(quotedName: string): string {
    " --name " + quotedName
  }

  function CredentialOptions(username: string, password: string): string {
    " --username " + username + " --password " + password + " --store-password-in-clear-text"
  }

  predicate HasCredentials(c: Credentials) {
    Truthy(c.username) && Truthy(c.password)
  }

  /** The command `addSourceCmds` pushes for `registry`. */
  function AddSourceCmd(host: Host, registry: Registry, nugetConfigFile: string): string {
    var creds := host.find(registry.url);
    var base := BaseCmd(host.feedUrl(registry.url), nugetConfigFile);
    var named := if Truthy(registry.name) then base + NameOption(host.quote(registry.name.value)) else base;
    if HasCredentials(creds) then named + CredentialOptions(creds.username.value, creds.password.value) else named
  }

  predicate EndsWith(s: string, suffix: string) {
    |suffix| <= |s| && s[|s| - |suffix|..] == suffix
  }

  /**
   * The shape of one command: it starts with the feed and the config file;
   * ` --name` follows directly if and only if the registry has a name,
   * and then carries the quoted name; the credential options close the
   * command when both the username and the password are set, and the
   * length accounts for exactly the options present.
   */
  lemma AddSourceCmdShape(host: Host, registry: Registry, nugetConfigFile: string)
    ensures var cmd := AddSourceCmd(host, registry, nugetConfigFile);
      var base := BaseCmd(host.feedUrl(registry.url), nugetConfigFile);
      var creds := host.find(registry.url);
      && base <= cmd
      && (base + " --name " <= cmd <==> Truthy(registry.name))
      && (Truthy(registry.name) ==> base + NameOption(host.quote(registry.name.value)) <= cmd)
      && (HasCredentials(creds) ==> EndsWith(cmd, CredentialOptions(creds.username.value, creds.password.value)))
      && |cmd| == |base|
           + (if Truthy(registry.name) then |NameOption(host.quote(registry.name.value))| else 0)
           + (if HasCredentials(creds) then |CredentialOptions(creds.username.value, creds.password.value)| else 0)
  {
    var cmd := AddSourceCmd(host, registry, nugetConfigFile);
    var base := BaseCmd(host.feedUrl(registry.url), nugetConfigFile);
    var creds := host.find(registry.url);
    var name := if Truthy(registry.name) then NameOption(host.quote(registry.name.value)) else "";
    var cred := if HasCredentials(creds) then CredentialOptions(creds.username.value, creds.password.value) else "";
    assert cmd == (base + name) + cred;
    Appended(base, name, cred);
    assert Truthy(registry.name) ==> base + " --name " <= cmd by {
      if Truthy(registry.name) {
        NamePrefix(base, host.quote(registry.name.value), cmd);
      }
    }
    assert !Truthy(registry.name) ==> !(base + " --name " <= cmd) by {
      if !Truthy(registry.name) {
        assert base + name == base;
        assert HasCredentials(creds) ==> " --u" <= cred;
        NotNamed(base, cred);
      }
    }
  }

  lemma Appended(base: string, name: string, cred: string)
    ensures base <= base + name <= (base + name) + cred
    ensures EndsWith((base + name) + cred, cred)
    ensures |(base + name) + cred| == |base| + |name| + |cred|
  {
    assert ((base + name) + cred)[|base| + |name|..] == cred;
  }

  lemma NamePrefix(base: string, quoted: string, cmd: string)
    requires base + NameOption(quoted) <= cmd
    ensures base + " --name " <= cmd
  {
    assert base + NameOption(quoted) == (base + " --name ") + quoted;
  }

  /** Without a name the next option, if any, is ` --username`, which differs from ` --name` at its third character. */
  lemma NotNamed(base: string, cred: string)
    requires cred == "" || " --u" <= cred
    ensures !(base + " --name " <= base + cred)
  {
    var probe := base + " --name ";
    if cred != "" {
      assert (base + cred)[|base| + 3] == 'u';
      assert probe[|base| + 3] == 'n';
    }
  }

  /**
   * `addSourceCmds`: one command per registry, in registry order, each
   * built by appending to the feed-and-config prefix.
   */
  method AddSourceCmds(host: Host, packageFileName: string, nugetConfigFile: string) returns (result: seq<string>)
    ensures |result| == |Registries(host, packageFileName)|
    ensures forall i :: 0 <= i < |result| ==> result[i] == AddSourceCmd(host, Registries(host, packageFileName)[i], nugetConfigFile)
  {
    var registries := Registries(host, packageFileName);
    result := [];
    for k := 0 to |registries|
      invariant |result| == k
      invariant forall i :: 0 <= i < k ==> result[i] == AddSourceCmd(host, registries[i], nugetConfigFile)
    {
      var registry := registries[k];
      var creds := host.find(registry.url);
      var addSourceCmd := "dotnet nuget add source " + host.feedUrl(registry.url) + " --configfile " + nugetConfigFile;
      if Truthy(registry.name) {
        addSourceCmd := addSourceCmd + (" --name " + host.quote(registry.name.value));
      }
      if Truthy(creds.username) && Truthy(creds.password) {
        addSourceCmd := addSourceCmd
          + (" --username " + creds.username.value + " --password " + creds.password.value + " --store-password-in-clear-text");
      }
      assert addSourceCmd == AddSourceCmd(host, registry, nugetConfigFile);
      result := result + [addSourceCmd];
    }
  }
}
