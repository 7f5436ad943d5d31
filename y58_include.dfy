/** `src/index.new.ts`: the `vite-plugin-y58-include` plugin. Its markers are
    `<y58-include src="…">`, and it leaves them alone for the dev server. */
module Y58Include {
  import opened Paths
  import opened Html
  import opened Inliner
  import opened Vite

  const IncludeTag := "y58-include"

  class Y58IncludePlugin {
    /** The site root: the working directory until `configResolved` runs. */
    var rootDir: Path

    /** `y58IncludePlugin()`, called with `process.cwd()`. */
    constructor (cwd: Path)
      ensures rootDir == cwd
    {
      rootDir := cwd;
    }

    method ConfigResolved(config: ResolvedConfig)
      modifies this
      ensures rootDir == config.root
    {
      rootDir := config.root;
    }

    /** `transformIndexHtml.transform(html, ctx)` for a page whose logical
        path is `pagePath`; `devServer` says whether `ctx.server` is set, and
        `parse` and `serialize` stand for parse5's. */
    method Transform(html: string, pagePath: string, devServer: bool, fs: FileSystem,
                     parse: string -> seq<Node>, serialize: seq<Node> -> string)
      returns (r: Outcome<string>)
      ensures devServer ==> r == Ok(html)
      ensures !devServer ==>
                r == Serialized(Expand(IncludeTag, fs, PageBaseDir(rootDir, pagePath), [], parse(html)), serialize)
      ensures !devServer && AllClean(IncludeTag, parse(html)) ==> r == Ok(serialize(parse(html)))
      ensures r.Cycle? ==> CycleChainBelow(fs, [], r.chain)
    {
      if devServer {
        return Ok(html);
      }
      var document := parse(html);
      var relHtmlPath := StripLeadingSlashes(pagePath);
      var htmlFile := Resolve(rootDir, relHtmlPath);
      var htmlBaseDir := Dirname(htmlFile);
      var inlined := InlineNodes(IncludeTag, fs, htmlBaseDir, [], document);
      if AllClean(IncludeTag, document) {
        ExpandClean(IncludeTag, fs, htmlBaseDir, [], document);
      }
      if inlined.Cycle? {
        CycleChain(IncludeTag, fs, htmlBaseDir, [], document);
      }
      r := Serialized(inlined, serialize);
    }
  }
}
