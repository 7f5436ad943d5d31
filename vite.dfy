/** What the two plugins take from Vite: the fields of the resolved
    configuration they read, and the shape of a transform's result. */
module Vite {
  import opened Paths
  import opened Html
  import opened Inliner

  /** `config.command` and `config.root` of Vite's `ResolvedConfig`. */
  datatype ResolvedConfig = ResolvedConfig(command: string, root: Path)

  /** The serialised page, or the error that aborted the transform. */
  function Serialized(o: Outcome<seq<Node>>, serialize: seq<Node> -> string): Outcome<string> {
    match o
    case Ok(nodes) => Ok(serialize(nodes))
    case Cycle(chain) => Cycle(chain)
  }
}
