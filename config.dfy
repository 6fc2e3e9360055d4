/**
 * Startup configuration: the bearer token comes from NPM_TOKEN or else from
 * the last `--token=` argument; the registry comes from NPM_REGISTRY or else
 * from the last `registry=` line of `.npmrc`, falls back to the public
 * registry, gets `https:` in front of a leading '/' and loses one trailing
 * '/'. The environment values, the argument list and the file's text (absent
 * when it cannot be read) are inputs.
 */
module Config {
  import opened Wrappers
  import opened Strings

  const TokenFlag: string := "--token="
  const RegistryKey: string := "registry="
  const DefaultRegistry: string := "https://registry.npmjs.org"

  /** Entry k starts with key and no later entry does. */
  predicate LastMatch(entries: seq<string>, key: string, k: int) {
    0 <= k < |entries| && StartsWith(entries[k], key)
    && forall j :: k < j < |entries| ==> !StartsWith(entries[j], key)
  }

  /**
   * What a forward scan that overwrites on every entry starting with key
   * leaves behind: `entry.split(key)[1]` of the last such entry, if any.
   */
  function LastValue(entries: seq<string>, key: string): Option<string>
    requires |key| > 0
    decreases |entries|
  {
    if entries == [] then None
    else
      var n := |entries| - 1;
      if StartsWith(entries[n], key) then Some(AfterPrefix(entries[n], key))
      else LastValue(entries[..n], key)
  }

  /** LastValue finds nothing exactly when no entry starts with key, and otherwise reads the last one that does. */
  lemma {:induction false} LastValueMeaning(entries: seq<string>, key: string)
    requires |key| > 0
    ensures LastValue(entries, key).None? <==> forall i :: 0 <= i < |entries| ==> !StartsWith(entries[i], key)
    ensures LastValue(entries, key).Some? ==>
              exists k :: LastMatch(entries, key, k) && LastValue(entries, key).value == AfterPrefix(entries[k], key)
    decreases |entries|
  {
    if entries != [] {
      var n := |entries| - 1;
      if StartsWith(entries[n], key) {
        assert LastMatch(entries, key, n);
      } else {
        LastValueMeaning(entries[..n], key);
        assert forall i :: 0 <= i < n ==> entries[..n][i] == entries[i];
        var v := LastValue(entries[..n], key);
        if v.Some? {
          var k :| LastMatch(entries[..n], key, k) && v.value == AfterPrefix(entries[..n][k], key);
          assert LastMatch(entries, key, k);
        }
      }
    }
  }

  /** The last matching entry determines the value. */
  lemma LastValueAt(entries: seq<string>, key: string, k: int)
    requires |key| > 0 && LastMatch(entries, key, k)
    ensures LastValue(entries, key) == Some(AfterPrefix(entries[k], key))
  {
    LastValueMeaning(entries, key);
    var v := LastValue(entries, key);
    var k' :| LastMatch(entries, key, k') && v.value == AfterPrefix(entries[k'], key);
    assert k == k';
  }

  lemma LastValueStep(entries: seq<string>, i: nat, key: string)
    requires |key| > 0 && i < |entries|
    ensures entries[..i + 1][..i] == entries[..i]
    ensures LastValue(entries[..i + 1], key)
         == if StartsWith(entries[i], key) then Some(AfterPrefix(entries[i], key)) else LastValue(entries[..i], key)
  {
    assert entries[..i + 1][..i] == entries[..i];
  }

  // ------------------------------------------------------------------ token

  /** The token the run uses: a truthy NPM_TOKEN, else the last `--token=` argument, else NPM_TOKEN as it was. */
  function TokenOf(env: Option<string>, argv: seq<string>): Option<string>
  {
    if Truthy(env) then env else LastValue(argv, TokenFlag).OrElse(env)
  }

  /** The token scan as the source writes it: a forEach over argv that overwrites on every match. */
  method ResolveToken(env: Option<string>, argv: seq<string>) returns (token: Option<string>)
    ensures token == TokenOf(env, argv)
  {
    token := env;
    if !Truthy(token) {
      for i := 0 to |argv|
        invariant token == LastValue(argv[..i], TokenFlag).OrElse(env)
      {
        LastValueStep(argv, i, TokenFlag);
        var v := argv[i];
        if StartsWith(v, TokenFlag) {
          token := Some(AfterPrefix(v, TokenFlag));
        }
      }
      assert argv[..|argv|] == argv;
    }
  }

  /** NPM_TOKEN wins when truthy; otherwise the last `--token=` argument's value, if there is one. */
  lemma TokenChoice(env: Option<string>, argv: seq<string>)
    ensures Truthy(env) ==> TokenOf(env, argv) == env
    ensures !Truthy(env) && (forall i :: 0 <= i < |argv| ==> !StartsWith(argv[i], TokenFlag))
            ==> TokenOf(env, argv) == env
    ensures forall k ::
              (!Truthy(env) && LastMatch(argv, TokenFlag, k) ==> TokenOf(env, argv) == Some(AfterPrefix(argv[k], TokenFlag)))
  {
    LastValueMeaning(argv, TokenFlag);
    forall k | !Truthy(env) && LastMatch(argv, TokenFlag, k)
      ensures TokenOf(env, argv) == Some(AfterPrefix(argv[k], TokenFlag))
    {
      LastValueAt(argv, TokenFlag, k);
    }
  }

  // --------------------------------------------------------------- registry

  /** The lines of `.npmrc`, each trimmed. */
  function TrimmedLines(text: string): (lines: seq<string>)
    ensures |lines| == |Split(text, '\n')|
  {
    var raw := Split(text, '\n');
    seq(|raw|, i requires 0 <= i < |raw| => Trim(raw[i]))
  }

  /** Line i of TrimmedLines is line i of the text, trimmed. */
  lemma TrimmedLineAt(text: string, i: nat)
    requires i < |Split(text, '\n')|
    ensures TrimmedLines(text)[i] == Trim(Split(text, '\n')[i])
  {
  }

  /** The registry setting before the fixups: a truthy NPM_REGISTRY, else the last `registry=` line. */
  function RegistrySetting(env: Option<string>, npmrc: Option<string>): Option<string>
  {
    if Truthy(env) then env
    else match npmrc
      case None => env
      case Some(text) => LastValue(TrimmedLines(text), RegistryKey).OrElse(env)
  }

  /** The fixups of a non-empty registry: `https:` before a leading '/', one trailing '/' dropped. */
  function Normalize(s: string): (r: string)
    requires s != ""
    ensures r != "" && r[0] != '/'
    ensures var expanded := if s[0] == '/' then "https:" + s else s;
      if s[|s| - 1] == '/' then r + "/" == expanded else r == expanded
  {
    var expanded := if s[0] == '/' then "https:" + s else s;
    if expanded[|expanded| - 1] == '/' then expanded[..|expanded| - 1] else expanded
  }

  /** The registry the run uses. */
  function RegistryOf(env: Option<string>, npmrc: Option<string>): string
  {
    var setting := RegistrySetting(env, npmrc);
    Normalize(if Truthy(setting) then setting.value else DefaultRegistry)
  }

  /** The per-line callback of the `.npmrc` scan: trim, skip an empty line, let a `registry=` line overwrite. */
  method ScanLine(line: string, setting0: Option<string>) returns (setting: Option<string>)
    ensures var n := Trim(line);
      setting == if StartsWith(n, RegistryKey) then Some(AfterPrefix(n, RegistryKey)) else setting0
  {
    setting := setting0;
    var n := Trim(line);
    if n == "" {
      return;
    }
    if StartsWith(n, RegistryKey) {
      setting := Some(AfterPrefix(n, RegistryKey));
    }
  }

  /** The `.npmrc` scan: every line through ScanLine, in order, so the last `registry=` line wins. */
  method ScanNpmrc(text: string, setting0: Option<string>) returns (setting: Option<string>)
    ensures setting == LastValue(TrimmedLines(text), RegistryKey).OrElse(setting0)
  {
    setting := setting0;
    var lines := Split(text, '\n');
    ghost var trimmed := TrimmedLines(text);
    for i := 0 to |lines|
      invariant setting == LastValue(trimmed[..i], RegistryKey).OrElse(setting0)
    {
      LastValueStep(trimmed, i, RegistryKey);
      TrimmedLineAt(text, i);
      setting := ScanLine(lines[i], setting);
    }
    assert trimmed[..|lines|] == trimmed;
  }

  /** NPM_REGISTRY, replaced by the `.npmrc` scan when it is not truthy and the file was read. */
  method ReadRegistrySetting(env: Option<string>, npmrc: Option<string>) returns (setting: Option<string>)
    ensures setting == RegistrySetting(env, npmrc)
  {
    setting := env;
    if !Truthy(setting) && npmrc.Some? {
      setting := ScanNpmrc(npmrc.value, setting);
    }
  }

  /** The two fixups as the source writes them, each an in-place reassignment. */
  method ApplyFixups(chosen: string) returns (registry: string)
    requires chosen != ""
    ensures registry == Normalize(chosen)
  {
    registry := chosen;
    if registry[0] == '/' {
      registry := "https:" + registry;
    }
    if registry[|registry| - 1] == '/' {
      registry := registry[..|registry| - 1];
    }
  }

  /** The registry resolution as the source writes it: the setting, the default, then the fixups. */
  method ResolveRegistry(env: Option<string>, npmrc: Option<string>) returns (registry: string)
    ensures registry == RegistryOf(env, npmrc)
  {
    var setting := ReadRegistrySetting(env, npmrc);
    var chosen := if Truthy(setting) then setting.value else DefaultRegistry;
    registry := ApplyFixups(chosen);
  }

  lemma NormalizeDefault()
    ensures Normalize(DefaultRegistry) == DefaultRegistry
  {
  }

  /** NPM_REGISTRY wins when truthy. */
  lemma RegistryEnvWins(env: Option<string>, npmrc: Option<string>)
    requires Truthy(env)
    ensures RegistryOf(env, npmrc) == Normalize(env.value)
  {
  }

  /** Otherwise the last trimmed `registry=` line of `.npmrc` decides, when its value is not empty. */
  lemma RegistryFromNpmrc(env: Option<string>, text: string, k: nat)
    requires !Truthy(env) && LastMatch(TrimmedLines(text), RegistryKey, k)
    requires AfterPrefix(TrimmedLines(text)[k], RegistryKey) != ""
    ensures RegistryOf(env, Some(text)) == Normalize(AfterPrefix(TrimmedLines(text)[k], RegistryKey))
  {
    LastValueAt(TrimmedLines(text), RegistryKey, k);
  }

  /** With no usable setting the public registry is used. */
  lemma RegistryDefaults(env: Option<string>, npmrc: Option<string>)
    requires !Truthy(env)
    requires npmrc.None? || forall i :: 0 <= i < |TrimmedLines(npmrc.value)|
                              ==> !StartsWith(TrimmedLines(npmrc.value)[i], RegistryKey)
    ensures RegistryOf(env, npmrc) == DefaultRegistry
  {
    if npmrc.Some? {
      LastValueMeaning(TrimmedLines(npmrc.value), RegistryKey);
    }
  }

  /** A last `registry=` line with an empty value leaves the setting falsy, so the public registry is used. */
  lemma RegistryEmptyValueDefaults(env: Option<string>, text: string, k: nat)
    requires !Truthy(env) && LastMatch(TrimmedLines(text), RegistryKey, k)
    requires AfterPrefix(TrimmedLines(text)[k], RegistryKey) == ""
    ensures RegistryOf(env, Some(text)) == DefaultRegistry
  {
    LastValueAt(TrimmedLines(text), RegistryKey, k);
  }

  /** Only one trailing '/' is dropped, and a leading '/' gets the scheme. */
  lemma NormalizeExamples()
    ensures Normalize("https://r.example.com//") == "https://r.example.com/"
    ensures Normalize("//r.example.com/") == "https://r.example.com"
    ensures Normalize("/") == "https:"
  {
  }
}
