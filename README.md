# vite-plugin-modhtml / vite-plugin-y58-include: the include inliner

Both Vite plugins of this repository turn an HTML page with include markers
into one flattened page at build time. A marker is an element with the
plugin's tag (`modhtml-include` in `src/index.ts`, `y58-include` in
`src/index.new.ts`) and a `src` attribute. The inliner `inlineNodes` walks
the parsed page depth-first and edits each child list in place:

- it resolves `src` against the directory of the file the marker is in;
- if that file is already on the chain of files being included above the
  marker, it throws a circular-include error listing the chain and the file;
- if the file cannot be read, it removes the marker and goes on with the next
  sibling;
- otherwise it parses the file as a fragment, inlines the fragment from the
  file's own directory with the file added to the chain, and splices the
  fragment's children in where the marker was, stepping over them.

Every other element is inlined in turn with the same directory and chain.

The model has six modules, one per concern and one per plugin file:

- `Paths` (`paths.dfy`): POSIX `path.resolve` and `path.dirname` on absolute
  paths kept as segment lists, `ctx.path.replace(/^\/+/, '')`, and the page's
  base directory.
- `Html` (`html.dfy`): the parsed tree, with elements (tag, attribute list,
  child list) and leaves (text, comment, doctype), and `attrs.find`.
- `Inliner` (`inliner.dfy`): the inliner, written once and parameterised by
  the marker tag.
  - `Expand` is its specification: the flat-map of `ExpandNode` over a child
    list. It returns `Ok(nodes)` or `Cycle(chain)`, and the first error in
    document order wins.
  - `InlineNodes` is the source's index loop. It splices out with `i--`,
    splices in with `i += n - 1`, and is proved equal to `Expand`.
  - The lemmas state what the source promises about `Expand`.
- `Vite` (`vite.dfy`): the two fields of Vite's resolved configuration the
  plugins read, and the serialised result of a transform.
- `ModHtml` (`modhtml.dfy`): `src/index.ts`. Its class holds the stored
  configuration and runs the transform only when `command` is `"build"`.
- `Y58Include` (`y58_include.dfy`): `src/index.new.ts`. Its class holds
  `rootDir`, which starts as the working directory and is overwritten by
  `configResolved`. The transform passes the page through unchanged when
  `ctx.server` is set.

Reading a file and parsing it as a fragment are one step. A `FileSystem` is
a `map<Path, seq<Node>>` from a path to the parsed fragment's children, and a
path with no entry is a read failure. `parse` and `serialize` are function
parameters of the transforms.

The termination measure is the number of readable files not yet on the chain,
then the size of the tree. The source relies on the same fact without stating
it: a fragment is entered only for a readable file that is not yet on the
chain.

Three behaviours of the code that a reader may not expect:

- A `src` that starts with `/` is resolved from the filesystem root, not from
  the site root. `path.resolve(baseDir, "/x")` is `/x`
  (`ResolveRootedFromFsRoot`).
- An empty `src` is not a no-op. It resolves to the base directory itself,
  which is then read like any file (`Resolve`'s second `ensures`). A directory
  cannot be read, so the marker is dropped (`EmptySrcDropped`).
- Neither plugin keeps a set of the files a page depends on, so the model has
  no such set.

## Model

| member | source | states |
|---|---|---|
| `Paths.Resolve` | src/index.ts:48 | `path.resolve(baseDir, src)` joins a relative `src` to the string form of `baseDir` and normalises the whole, so a `..` in `baseDir` counts too (`ResolveBaseNormalised`); `..` and `.` in `src` go up and stay (`ResolveParent`, `ResolveDot`). The result is a normalised absolute path (no empty, `.` or `..` segment). An empty `src` gives a normalised `baseDir` itself. |
| `Paths.ResolveRootedFromFsRoot` | src/index.ts:48 | A `src` starting with `/` names the same file from every base directory: the filesystem root, not the site root. |
| `Paths.ResolveName` | src/index.ts:48 | A plain file name resolves inside the including file's directory, and `dirname` of the result is that directory again. |
| `Paths.ResolveCompose` | src/index.ts:48 | Resolving `x/y` equals resolving `x` and then `y` from the result. |
| `Paths.ResolveParent` | src/index.ts:48 | `src=".."` from a normalised directory names its parent, `dirname` of the directory. |
| `Paths.ResolveDot` | src/index.ts:48 | `src="."` from a normalised directory names the directory itself. |
| `Paths.ResolveBaseNormalised` | src/index.ts:48 | A relative `src` is resolved from the normalised form of the base, so a `.` or `..` inside the base counts: `/a/..` and `/` resolve `x` alike. |
| `Paths.ResolvePrint` | src/index.ts:48 | The printed form of a resolved path resolves back to the same path from any base. |
| `Paths.JoinSplit` | src/index.ts:48 | Splitting a path string at `/` and joining it again gives the string back. |
| `Paths.Dirname` | src/index.ts:68 | `path.dirname` is the parent: a prefix one segment shorter, and `/` for `/`. It stays normalised. |
| `Paths.StripLeadingSlashes` | src/index.ts:84 | The result is the input with exactly its leading run of `/` removed, and it does not start with `/`. |
| `Paths.PageFileFromRoot` | src/index.ts:84-85 | For a normalised site root, the page file is the page path walked from the root, even though the page path starts with `/`. |
| `Paths.PageFileBelowRoot` | src/index.ts:84-85 | For a normalised site root, a page path without `..` names a file below the root. |
| `Html.FindAttr` | src/index.ts:46 | `attrs.find(a => a.name === 'src')` gives the value of the first attribute with that name, and gives nothing exactly when no attribute has it. |
| `Inliner.InlineNodes` | src/index.ts:41-82 | The in-place splice loop, with its `i--` and `i += n - 1`, returns exactly `Expand` of the child list: every sibling is visited once and no inserted node is rescanned. The same loop is src/index.new.ts:33-73. |
| `Inliner.UnreadShrinks` | src/index.ts:49-69 | Entering a readable file that is not on the chain leaves fewer readable files off the chain, so the recursion terminates. |
| `Inliner.ExpandAppend` | src/index.ts:43-81 | The inliner is a flat-map over siblings: a list expands piecewise, and the first error in document order is the one thrown. |
| `Inliner.ExpandClean` | src/index.ts:42-80 | A tree with no marker-with-`src` at any depth comes out unchanged, in order, whatever the files, base directory and chain. |
| `Inliner.ExpandYieldsClean` | src/index.ts:45-80 | A successful inlining leaves no marker-with-`src` at any depth. |
| `Inliner.ExpandIdempotent` | src/index.ts:41-82 | Inlining an already inlined tree again, with any files, base directory and chain, changes nothing. |
| `Inliner.CycleChain` | src/index.ts:49-55 | The cycle error's chain begins with the current chain. It lists each file on the include path once, in order, each added file readable. It ends with the file already on it. From the page's empty chain, no file is ever entered twice along one include path. |
| `Inliner.MarkerOnChainFails` | src/index.ts:49-55 | A marker whose resolved path is on the chain fails with exactly `visited ++ [srcPath]`, unless an earlier sibling failed first. |
| `Inliner.EmptySrcDropped` | src/index.ts:46-65 | A marker with `src=""` names its own base directory, which cannot be read, so it is dropped and its siblings are expanded as if it were not there. |
| `Inliner.UnreadableMarkerDropped` | src/index.ts:58-65 | A marker whose file cannot be read is removed. The siblings keep their order, and the next sibling is expanded, not skipped. |
| `Inliner.ReadableMarkerSpliced` | src/index.ts:66-74 | A readable marker is replaced, at its place, by its file's fragment. The fragment is expanded with base `dirname(srcPath)` and chain `visited ++ [srcPath]` and not rescanned. The walk resumes at the next original sibling, also when the fragment is empty. |
| `Inliner.ElementExpandedInPlace` | src/index.ts:45-80 | Any other element stays at its place with its children expanded under the same base directory and chain. A marker-tag element without `src` is such an element. |
| `Inliner.LeafKept` | src/index.ts:77-80 | A text, comment or doctype node is kept as it is, at its place. |
| `Inliner.SiblingReinclusion` | src/index.ts:69 | The chain is copied per include path, so one file included from two sibling markers is expanded twice, without error. |
| `Inliner.MutualIncludeCycle` | src/index.ts:49-69 | A page includes `a`, `a` includes `b`, and `b` includes `a`: this fails with the chain `a, b, a`. |
| `ModHtml.ModHtmlPlugin.constructor` | src/index.ts:18-20 | A new plugin has no configuration yet. |
| `ModHtml.ModHtmlPlugin.ConfigResolved` | src/index.ts:26-28 | `configResolved` stores the resolved configuration. |
| `ModHtml.ModHtmlPlugin.TransformIndexHtml` | src/index.ts:34-90 | Outside a build the HTML is returned unchanged. In a build the result is the serialised `Expand` of the parsed page. It starts from `dirname(resolve(root, ctx.path without leading '/'))` with an empty chain. A page without markers serialises unchanged, and a cycle error carries a real cycle. |
| `Y58Include.Y58IncludePlugin.constructor` | src/index.new.ts:11-12 | `rootDir` starts as the working directory. |
| `Y58Include.Y58IncludePlugin.ConfigResolved` | src/index.new.ts:18-20 | `configResolved` overwrites `rootDir` with `config.root`. |
| `Y58Include.Y58IncludePlugin.Transform` | src/index.new.ts:24-84 | With `ctx.server` set the HTML is returned unchanged. Otherwise the result is the serialised `Expand` for tag `y58-include`, starting from `dirname(resolve(rootDir, ctx.path without leading '/'))` with an empty chain. A page without markers serialises unchanged, and a cycle error carries a real cycle. |

## Left out

- Vite and Rollup glue is not modelled: `buildStart` and the `rollupCtx` it stores but never uses, the `enforce` flags, the plugin names, and the context types beyond `ctx.path` and `ctx.server`.
- parse5's `parse`, `parseFragment` and `serialize` are a foreign library. The transforms take `parse` and `serialize` as parameters. The file system map holds already parsed fragments. The `content` of `<template>` elements is not modelled.
- `fs.readFileSync` is I/O. It is a map from path to fragment, and a missing entry stands for any read error (missing file, directory, permission). The files do not change during one transform.
- The `console.error` report of a read failure is a side effect and is not modelled.
- The error message is not rendered. The chain is kept as a list of absolute paths, without `path.relative(root, …)`, the `' -> '` join or the message prefix.
- Paths are POSIX only. The base directory and site root are absolute paths, as Vite's `config.root` and `process.cwd()` are. `Resolve` is exact for any base; the lemmas about the page file assume a normalised site root, which both of those are. Windows drive letters and separators are not modelled.
- Inliner.InlineNodes: parse5 nodes are objects whose `childNodes` arrays are changed in place. The model treats nodes as values. The loop splices a local copy of the child list and returns it, and the caller stores an element's new list back into the element. Aliasing between node objects is not modelled, because each parsed node appears once in the tree.
- ModHtml.ModHtmlPlugin.TransformIndexHtml: it requires that `configResolved` has run. In the source an unset `config` would throw a `TypeError`, and Vite always resolves the configuration before transforming pages.
