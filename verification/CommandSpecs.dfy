/** The entries of the command registry, with what the models need of them. */
module CommandSpecs {
  datatype CommandSpec = CommandSpec(
    path: seq<string>,
    aliases: seq<seq<string>>,
    repeatableFlags: set<string>,
    destructive: bool,
    hidden: bool)

  function SpecPaths(spec: CommandSpec): (paths: seq<seq<string>>)
    ensures paths != []
  {
    [spec.path] + spec.aliases
  }
}
