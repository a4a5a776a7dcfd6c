/**
 * The session variable store (lib/gitsh/environment.rb).
 *
 * Lookups go through three tiers, highest priority first: the computed
 * ("magic") variables, the session's own bindings, then git configuration.
 * The magic-variable provider and the repository are not part of this model:
 * they are given to an environment as fixed maps (their values at the time
 * of the lookup) and a fixed list of repository aliases.
 */
module Environment {
  import opened Wrappers
  import opened StringOrder

  const DefaultGitCommand: string := "/usr/bin/env git"
  const GitCommandVariable: string := "gitsh.gitCommand"
  const AliasPrefix: string := "alias."

  /**
   * A variable name as a caller passes it, a Ruby String or Symbol.  The source
   * normalises keys with `to_sym` (and `to_s` for git config), so both kinds
   * denote the variable named by their text.
   */
  datatype Key = Str(text: string) | Sym(text: string)

  datatype UnsetVariableError = UnsetVariableError(message: string)

  function UnsetMessage(name: string): string {
    "Variable '" + name + "' is not set"
  }

  /**
   * `fetch`: magic variables, then local bindings, then git configuration; the
   * caller's default (the block) is handed to the git-config lookup only.
   */
  function Lookup(
    magic: map<string, string>, variables: map<string, string>, config: map<string, string>,
    name: string, default: Option<string>): (r: Result<string, UnsetVariableError>)
    ensures r.Err? <==> name !in magic && name !in variables && name !in config && default.None?
    ensures r.Err? ==> r.error == UnsetVariableError(UnsetMessage(name))
    ensures r.Ok? ==> r.value in magic.Values + variables.Values + config.Values || Some(r.value) == default
  {
    if name in magic then Ok(magic[name])
    else if name in variables then Ok(variables[name])
    else if name in config then Ok(config[name])
    else if default.Some? then Ok(default.value)
    else Err(UnsetVariableError(UnsetMessage(name)))
  }

  /** The tiers overlay each other: fetch reads the map in which magic overrides local, and local overrides config. */
  lemma LookupIsOverlay(
    magic: map<string, string>, variables: map<string, string>, config: map<string, string>,
    name: string, default: Option<string>)
    ensures var all := config + variables + magic;
      Lookup(magic, variables, config, name, default) ==
        if name in all then Ok(all[name])
        else if default.Some? then Ok(default.value)
        else Err(UnsetVariableError(UnsetMessage(name)))
  {
  }

  /** After `env[k] = v`, fetching `k` gives `v` unless `k` is a magic variable, whatever git config holds. */
  lemma LookupAfterBind(
    magic: map<string, string>, variables: map<string, string>, config: map<string, string>,
    name: string, value: string, default: Option<string>)
    requires name !in magic
    ensures Lookup(magic, variables[name := value], config, name, default) == Ok(value)
  {
  }

  /** Binding one name leaves every other name's lookup as it was. */
  lemma LookupOtherAfterBind(
    magic: map<string, string>, variables: map<string, string>, config: map<string, string>,
    name: string, value: string, other: string, default: Option<string>)
    requires other != name
    ensures Lookup(magic, variables[name := value], config, other, default)
         == Lookup(magic, variables, config, other, default)
  {
  }

  /** A magic variable shadows a local binding of the same name: binding it changes nothing. */
  lemma MagicShadowsLocal(
    magic: map<string, string>, variables: map<string, string>, config: map<string, string>,
    name: string, value: string, default: Option<string>)
    requires name in magic
    ensures Lookup(magic, variables[name := value], config, name, default) == Ok(magic[name])
  {
  }

  /** A local binding shadows git config: any config gives the same result. */
  lemma LocalShadowsConfig(
    magic: map<string, string>, variables: map<string, string>, config: map<string, string>,
    otherConfig: map<string, string>, name: string, default: Option<string>)
    requires name in variables
    ensures Lookup(magic, variables, config, name, default) == Lookup(magic, variables, otherConfig, name, default)
  {
  }

  /** The default reaches only the last tier: it never overrides a value found at any tier. */
  lemma DefaultOnlyAtLastTier(
    magic: map<string, string>, variables: map<string, string>, config: map<string, string>,
    name: string, default: string)
    requires name in magic || name in variables || name in config
    ensures Lookup(magic, variables, config, name, Some(default)) == Lookup(magic, variables, config, name, None)
  {
  }

  /** `config_variables`: the local bindings whose name contains a dot. */
  function DottedBindings(variables: map<string, string>): (r: map<string, string>)
    ensures forall k :: k in r <==> k in variables && '.' in k
    ensures forall k :: k in r ==> r[k] == variables[k]
  {
    map k | k in variables && '.' in k :: variables[k]
  }

  /** Binding a dotted name adds it to `config_variables`; binding any other name leaves them alone. */
  lemma {:induction false} DottedBindingsAfterBind(variables: map<string, string>, name: string, value: string)
    ensures DottedBindings(variables[name := value]) ==
      if '.' in name then DottedBindings(variables)[name := value] else DottedBindings(variables)
  {
    var after := DottedBindings(variables[name := value]);
    var expected := if '.' in name then DottedBindings(variables)[name := value] else DottedBindings(variables);
    assert after.Keys == expected.Keys;
    forall k | k in after ensures after[k] == expected[k] {
    }
  }

  /** `local_aliases`: the local names that start with `alias.`, with that prefix removed. */
  function LocalAliases(variables: map<string, string>): (r: set<string>)
    ensures forall a :: a in r <==> AliasPrefix + a in variables
  {
    var r := set k | k in variables && AliasPrefix <= k :: k[|AliasPrefix|..];
    assert forall a :: AliasPrefix + a in variables ==> a in r by {
      forall a | AliasPrefix + a in variables ensures a in r {
        var k := AliasPrefix + a;
        assert AliasPrefix <= k && k[|AliasPrefix|..] == a;
      }
    }
    assert forall a :: a in r ==> AliasPrefix + a in variables by {
      forall a | a in r ensures AliasPrefix + a in variables {
        var k :| k in variables && AliasPrefix <= k && k[|AliasPrefix|..] == a;
        assert k == AliasPrefix + a;
      }
    }
    r
  }

  class Env {
    /** The magic variables' values, keyed by name. */
    const magic: map<string, string>
    /** The repository's git configuration, keyed by name. */
    const config: map<string, string>
    /** `repo.aliases`. */
    const repoAliases: seq<string>
    /** `@variables`: the session's own bindings. */
    var variables: map<string, string>

    /** `Environment.new`: no local bindings yet. */
    constructor (magic: map<string, string>, config: map<string, string>, repoAliases: seq<string>)
      ensures this.magic == magic && this.config == config && this.repoAliases == repoAliases
      ensures variables == map[]
    {
      this.magic := magic;
      this.config := config;
      this.repoAliases := repoAliases;
      variables := map[];
    }

    /** `fetch(key, force_default_git_command, &block)`; `default` stands for the block's value. */
    function Fetch(key: Key, default: Option<string>): (r: Result<string, UnsetVariableError>)
      reads this
      ensures r.Err? <==> key.text !in magic && key.text !in variables && key.text !in config && default.None?
      ensures r.Err? ==> r.error == UnsetVariableError(UnsetMessage(key.text))
      ensures key.text in magic ==> r == Ok(magic[key.text])
      ensures key.text !in magic && key.text in variables ==> r == Ok(variables[key.text])
      ensures key.text !in magic && key.text !in variables && key.text in config ==> r == Ok(config[key.text])
    {
      Lookup(magic, variables, config, key.text, default)
    }

    /** `env[key] = value`: the binding is stored under the key's text, so a String and a Symbol key hit it alike. */
    method Set(key: Key, value: string)
      modifies this
      ensures variables == old(variables)[key.text := value]
      ensures key.text !in magic ==> Fetch(Str(key.text), None) == Ok(value) && Fetch(Sym(key.text), None) == Ok(value)
      ensures forall other :: other != key.text ==> Lookup(magic, variables, config, other, None) == old(Lookup(magic, variables, config, other, None))
    {
      variables := variables[key.text := value];
    }

    /** `git_command(force_default)`: `gitsh.gitCommand` if it is set at any tier, otherwise the default. */
    function GitCommand(forceDefault: bool): (r: string)
      reads this
      ensures forceDefault ==> r == DefaultGitCommand
      ensures !forceDefault ==>
        r == match Fetch(Str(GitCommandVariable), None)
             case Ok(v) => v
             case Err(_) => DefaultGitCommand
    {
      if forceDefault then DefaultGitCommand
      else Fetch(Str(GitCommandVariable), Some(DefaultGitCommand)).value
    }

    /** `git_command = cmd`: a local binding of `gitsh.gitCommand`. */
    method SetGitCommand(command: string)
      modifies this
      ensures variables == old(variables)[GitCommandVariable := command]
      ensures GitCommandVariable !in magic ==> GitCommand(false) == command
      ensures GitCommand(true) == DefaultGitCommand
    {
      Set(Str(GitCommandVariable), command);
    }

    /** `available_variables`: every name known at any tier, once each, sorted. */
    ghost function AvailableVariables(): (r: seq<string>)
      reads this
      ensures StrictlySorted(r)
      ensures forall x :: x in r <==> x in magic || x in variables || x in config
    {
      SortUnique(magic.Keys + variables.Keys + config.Keys)
    }

    /** `config_variables`. */
    function ConfigVariables(): (r: map<string, string>)
      reads this
      ensures forall k :: k in r <==> k in variables && '.' in k
      ensures forall k :: k in r ==> r[k] == variables[k]
    {
      DottedBindings(variables)
    }

    /**
     * `git_aliases`: the repository's aliases and the local ones, sorted with
     * duplicates kept (a name defined in both places appears twice).  The
     * local names come out of the hash in insertion order; since they are
     * sorted afterwards, any order gives the same result.
     */
    ghost function GitAliases(): (r: seq<string>)
      reads this
      ensures Sorted(r)
      ensures multiset(r) == multiset(repoAliases) + multiset(LocalAliases(variables))
    {
      var local := LocalAliases(variables);
      SortUniqueMultiset(local);
      Sort(repoAliases + SortUnique(local))
    }

    /** `dup`/`clone`: a new environment with its own copy of the bindings. */
    method Copy() returns (c: Env)
      ensures fresh(c)
      ensures c.magic == magic && c.config == config && c.repoAliases == repoAliases
      ensures c.variables == variables
    {
      c := new Env(magic, config, repoAliases);
      c.variables := variables;
    }
  }

  /** Assigning in a copy does not change the original. */
  method AssignInCopy(original: Env, key: Key, value: string) returns (c: Env)
    ensures fresh(c) && c != original
    ensures original.variables == old(original.variables)
    ensures c.variables == original.variables[key.text := value]
  {
    c := original.Copy();
    c.Set(key, value);
  }
}
