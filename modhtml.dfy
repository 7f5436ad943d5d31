/** `src/index.ts`: the `vite-plugin-modhtml` plugin. Its markers are
    `<modhtml-include src="…">`, and it inlines them only in a build. */
module ModHtml {
  import opened Paths
  import opened Html
  import opened Inliner
  import opened Vite

  const IncludeTag := "modhtml-include"

  class ModHtmlPlugin {
    /** The configuration `configResolved` stores; unset until Vite calls it. */
    var config: Option<ResolvedConfig>

    constructor ()
      ensures config == None
    {
      config := None;
    }

    method ConfigResolved(resolved: ResolvedConfig)
      modifies this
      ensures config == Some(resolved)
    {
      config := Some(resolved);
    }

    /** `transformIndexHtml(html, ctx)` for a page whose logical path is
        `pagePath`; `parse` and `serialize` stand for parse5's. */
    method TransformIndexHtml(html: string, pagePath: string, fs: FileSystem,
                              parse: string -> seq<Node>, serialize: seq<Node> -> string)
      returns (r: Outcome<string>)
      requires config.Some?
      ensures config.value.command != "build" ==> r == Ok(html)
      ensures config.value.command == "build" ==>
                r == Serialized(Expand(IncludeTag, fs, PageBaseDir(config.value.root, pagePath), [], parse(html)),
                                serialize)
      ensures config.value.command == "build" && AllClean(IncludeTag, parse(html)) ==>
                r == Ok(serialize(parse(html)))
      ensures r.Cycle? ==> CycleChainBelow(fs, [], r.chain)
    {
      if config.value.command != "build" {
        return Ok(html);
      }
      var document := parse(html);
      var relHtmlPath := StripLeadingSlashes(pagePath);
      var htmlFile := Resolve(config.value.root, relHtmlPath);
      var htmlBaseDir := Dirname(htmlFile);
      var inlined := InlineNodes(IncludeTag, fs, htmlBaseDir, [], document);
      if AllClean(IncludeTag, document) {
        ExpandClean(IncludeTag, fs, htmlBaseDir, [], document);
      }
      if inlined.Cycle? {
        CycleChain(IncludeTag, fs, htmlBaseDir, [], document);
      }
      r := Serialized(inlined, serialize);
    }
  }
}
