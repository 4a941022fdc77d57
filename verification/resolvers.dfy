/**
 Resolver records and the registry that maps a type prefix to one of them
 (`Installer::$supportedTypes` with the `iMSCPInstaller` and
 `RoundcubeInstaller` classes). A record is plain data: its location templates
 keyed by subtype and its inflection hook.
 */
module Resolvers {
  import opened Wrappers
  import opened Inflection

  datatype Resolver = Resolver(locations: map<string, string>, inflection: Inflection)

  /** Ordered (prefix, resolver) pairs; a PHP array with string keys. */
  type Registry = seq<(string, Resolver)>

  /** The `iMSCPInstaller` record: no inflection. */
  const IMSCP := Resolver(
    map["plugin" := "plugins/{$name}/",
        "theme" := "theme/{$name}/",
        "tool" := "public/tools/{$name}/"],
    Verbatim)

  /** The `RoundcubeInstaller` record: lower-case, underscore-separated names. */
  const Roundcube := Resolver(map["plugin" := "plugins/{$name}/"], LowerSnake)

  /** The built-in table, before any resolver is disabled. */
  const DefaultRegistry: Registry := [("imscp", IMSCP), ("roundcube", Roundcube)]

  function Keys(reg: Registry): (keys: seq<string>)
    ensures |keys| == |reg|
    ensures forall i :: 0 <= i < |reg| ==> keys[i] == reg[i].0
    decreases |reg|
  {
    if |reg| == 0 then [] else [reg[0].0] + Keys(reg[1..])
  }

  /** Keys are unique, as in any PHP array. */
  ghost predicate DistinctKeys(reg: Registry)
  {
    forall i, j :: 0 <= i < j < |reg| ==> reg[i].0 != reg[j].0
  }

  /** `$supportedTypes[$key]`. */
  function Get(reg: Registry, key: string): (r: Option<Resolver>)
    ensures r.None? <==> key !in Keys(reg)
    ensures r.Some? ==> (key, r.value) in reg
    decreases |reg|
  {
    if |reg| == 0 then None
    else if reg[0].0 == key then Some(reg[0].1)
    else Get(reg[1..], key)
  }

  lemma DefaultRegistryWellFormed()
    ensures DistinctKeys(DefaultRegistry)
    ensures Keys(DefaultRegistry) == ["imscp", "roundcube"]
    ensures Get(DefaultRegistry, "imscp") == Some(IMSCP)
    ensures Get(DefaultRegistry, "roundcube") == Some(Roundcube)
  {
    assert DefaultRegistry[1..][1..] == [];
  }
}
