# ahds: the AmiraFile document and the console report builders

ahds reads Amira files. An `AmiraFile` is itself a Block: an ordered attribute tree named
after the file. Its constructor adds three attributes:

- `meta`, holding the file name, the header length, the declared stream count and the load flag;
- `header`, the parsed header's block;
- `data_streams`, an empty block.

When streams are to be loaded, the constructor then calls `read()`. For an AmiraMesh file,
`read()` walks the declared streams in order. Each stream gets a `data` attribute holding its
decoded data and is attached to `data_streams` under its own name. For a HyperSurface file,
`read()` attaches the single block built for `Data`. Any other file type attaches nothing.
`__str__` frames the Block rendering between a 140-wide banner and a closing rule.

The console entry point does four things:

- It splits its positional arguments into a file name and optional dotted paths (`set_file_and_paths`).
- `get_paths` resolves each path from the document root, one `getattr` per dot-separated segment.
  It concatenates a bannered section for every path that resolves, in order. With no paths it
  renders the whole document.
- `get_debug` shows the pretty-printed parsed header data when asked.
- `get_literal` shows the literal header when asked.

The model has four modules:

- `Text`: Python's `c * n` rule, the three-line section banner, and `str.split` with its inverse `join`.
- `Blocks`: the attribute tree as values. `add_attr` appends at the end and refuses a name that is
  already present.
- `Amira`: the document. `AmiraFile` is a class whose `root` Block and load flag `Read` updates in
  place, next to a `Header` object whose stream blocks `Read` marks. `Read` is proved against the
  specification function `ReadSpec`. Its AmiraMesh branch is the loop `MeshLoop`, proved
  against the left fold `MeshPrefix`, whose closed form is proved in `MeshPrefixSpec`.
- `Console`: the report builders. `GetPaths` is a two-level loop proved against `Report`, and
  lemmas relate `Report` to the paths it is given.

Code that is not visible here is passed in as function-valued parameters:

- the header parser's result (`ParsedHeader`);
- the stream decoders (`ds.get_data()` and `set_data_stream`), as `Decoders`;
- the Block renderer `_str` and `pprint.pformat`.

The console's `WIDTH` constant is a parameter `w`, because its defining module is not part of
this model. `AmiraFile.__str__` uses its own literal width of 140.

Where the code and the design description differ, the model follows the code:

- `read()` documents "if they are not read yet", but it has no such guard. A second AmiraMesh
  read starts over, and add_attr refuses it at the first stream, which already has `data`
  (`ReadAgainMesh`).
- `read()` sets the document's and the header's load flags. It leaves `meta.streams_loaded` at
  the value the document was opened with.
- A path that is not found is announced with `print`. That notice is not part of the string
  `get_paths` returns.

## Model

| member | source | states |
|---|---|---|
| Text.Banner | src/ahds/ahds.py:70-72 | the section banner of lines 70-72, 83-85 and 93-95 and of ahds/__init__.py:68-70: a `*` rule, the title and a `-` rule, each closed by a newline; its length is two rules, the title and three newlines |
| Text.Rule | src/ahds/ahds.py:70 | `c * w` is a string of exactly `w` characters, each of them `c` |
| Text.Split | src/ahds/ahds.py:63 | `path.split('.')` always yields at least one piece, and no piece contains the separator |
| Text.SplitJoin | src/ahds/ahds.py:63 | joining the pieces of a split with the separator gives back the original text |
| Text.JoinSplit | src/ahds/ahds.py:63 | splitting a join of separator-free pieces gives back exactly those pieces |
| Text.SplitNoSep | src/ahds/ahds.py:63 | a path without a dot is a single segment |
| Text.SplitConcat | src/ahds/ahds.py:63 | splitting `a + sep + b` gives the pieces of `a` followed by the pieces of `b` |
| Text.BannerLines | src/ahds/ahds.py:70-72 | a banner followed by a body reads line by line as the `*` rule, the title, the `-` rule, then the body's own lines |
| Blocks.Lookup | src/ahds/ahds.py:66 | getattr on a block finds a value exactly when some attribute has that name, and the value found is stored under that name |
| Blocks.AddAttr | ahds/__init__.py:37-45 | add_attr fails exactly when the name is already present, with that name as the error; otherwise it appends the attribute at the end and keeps the block's name |
| Blocks.AddBlock | ahds/__init__.py:45 | `add_attr(block)` (also lines 55 and 59) stores the block under its own name: it fails exactly when that name is present, and otherwise appends the block at the end |
| Blocks.LookupAt | ahds/__init__.py:37-45 | in a block with unique names, every attribute is found under its own name |
| Blocks.LookupAppend | ahds/__init__.py:54-55 | after an append, an older attribute shadows the new one, and the new one is found only under its own name |
| Blocks.AddAttrKeys | ahds/__init__.py:37-45 | a successful add_attr extends the names by the new one, at the end, and keeps them unique |
| Blocks.AddAttrLookup | ahds/__init__.py:37-45 | after a successful add_attr the new value is found under its name, and every other name finds what it found before |
| Amira.Header.constructor | ahds/__init__.py:35 | the header keeps the parsed data, its declared stream blocks and the load flag it was given |
| Amira.Meta | ahds/__init__.py:37-41 | the `meta` block holds `file`, `header length`, `data streams` and `streams_loaded`, in that order, with the file name, header length, stream count and load flag |
| Amira.MetaLookup | ahds/__init__.py:37-41 | each of the four `meta` facts is found under its own name |
| Amira.Composed | ahds/__init__.py:31-45 | the document is named after the file, has exactly `meta`, `header`, `data_streams` in that order, and each is found with its block, `data_streams` empty |
| Amira.WithData | ahds/__init__.py:54 | `ds.add_attr('data', ds.get_data())` once it is accepted: the stream keeps its name and its earlier attributes, gains exactly one attribute, and has `data` afterwards |
| Amira.WithDataLookup | ahds/__init__.py:54 | a stream without `data` finds its decoded data under `data` once it has been given it |
| Amira.MeshStep | ahds/__init__.py:53-55 | one AmiraMesh iteration on stream `i`: only that stream of the header's list may change, `data_streams` keeps its name, a refused attribute leaves `data_streams` as it was, and success appends exactly one child after the existing ones |
| Amira.MeshPrefix | ahds/__init__.py:52-55 | the AmiraMesh loop after `k` streams, stopping at the first error: the streams not yet reached are untouched, and `data_streams` keeps its name and its earlier children and gains at most `k` |
| Amira.MeshLoop | ahds/__init__.py:52-55 | the loop over the declared streams, giving each its data and attaching it, ends in exactly the state and error of `MeshPrefix` over all streams |
| Amira.ReadSpec | ahds/__init__.py:51-59 | `read()`'s dispatch on the file type; whatever the type, `data_streams` keeps its name and its earlier children, and only AmiraMesh touches the header's streams |
| Amira.MeshStuck | ahds/__init__.py:52-55 | once an AmiraMesh iteration has failed, the next iteration changes nothing |
| Amira.MeshSticky | ahds/__init__.py:52-55 | once the AmiraMesh loop has failed, every later prefix of the loop gives the same state and error |
| Amira.HasLoaded | ahds/__init__.py:55 | after `i` streams, a name is in `data_streams` exactly when it was there before or names one of those streams |
| Amira.MeshReadyNext | ahds/__init__.py:52-55 | the first `i+1` streams can all be attached exactly when the first `i` can and stream `i` can |
| Amira.MeshStepAttach | ahds/__init__.py:52-55 | one AmiraMesh iteration after `i` successful ones succeeds exactly when stream `i` has no `data` and its name is new, and then appends that stream with its data |
| Amira.MeshClosedNext | ahds/__init__.py:52-55 | if the closed form below holds after `i` streams, it holds after `i + 1` |
| Amira.MeshPrefixSpec | ahds/__init__.py:51-55 | the AmiraMesh loop succeeds on its first `k` streams exactly when each can be attached; then `data_streams` gains one child per stream, in declaration order, each carrying its data, and the header's first `k` streams carry their data |
| Amira.MeshPrefixFailure | ahds/__init__.py:51-55 | when the AmiraMesh loop fails, it failed at the first stream that could not be attached, and `data_streams` holds exactly the streams before it |
| Amira.ReadSurface | ahds/__init__.py:56-59 | a HyperSurface read attaches exactly the block built for `Data`, unless a block of that name is already there, in which case nothing changes; the header's streams are untouched |
| Amira.ReadOther | ahds/__init__.py:51-60 | a file type other than AmiraMesh and HyperSurface attaches nothing and cannot fail |
| Amira.LoadMesh | ahds/__init__.py:46-55 | reading a fresh AmiraMesh document whose streams have distinct names and no data gives exactly one child per declared stream, named after it, in declaration order, each with its decoded data under `data` |
| Amira.ReadAgainMesh | ahds/__init__.py:49-55 | a second AmiraMesh read is refused at the first stream with a duplicate `data` and leaves `data_streams` and the header's streams as the first read left them |
| Amira.AmiraFile.constructor | ahds/__init__.py:31-45 | the new document is the composed document with `meta`, `header` and an empty `data_streams`, and a fresh header holding the parsed data and the load flag |
| Amira.AmiraFile.Open | ahds/__init__.py:17-47 | opening without loading leaves `data_streams` empty and cannot fail; opening with loading gives the state and error of one read of the fresh document; `meta` and `header` are as composed |
| Amira.AmiraFile.Read | ahds/__init__.py:49-60 | `data_streams`, the header's stream blocks and the error are those of the file-type dispatch on the old state; the tree's `meta` and `header` entries are unchanged, and the `header` entry stays the header's own block; both load flags become true when the read succeeded |
| Amira.AmiraFile.Str | ahds/__init__.py:65-73 | the text is the banner titled AMIRA HEADER AND DATA STREAMS, the Block rendering and a 140-wide `*` rule; its first three lines are the two rules around the title, and it ends with the closing rule |
| Console.SetFileAndPaths | src/ahds/ahds.py:100-107 | the first argument is the file; the paths are None exactly when only the file was given, otherwise the remaining arguments in order; file and paths together give back the argument list |
| Console.Get | src/ahds/ahds.py:66 | getattr with default None gives None on a non-block or a missing name, and otherwise the attribute's value |
| Console.Walk | src/ahds/ahds.py:64-66 | the inner loop's `getattr` chain from a starting value over a list of segments |
| Console.Resolve | src/ahds/ahds.py:63-66 | what a dotted path names: the walk from the document root over the path's dot-separated segments |
| Console.WalkAppend | src/ahds/ahds.py:65-66 | walking two segment lists one after the other is walking their concatenation |
| Console.WalkNull | src/ahds/ahds.py:65-66 | once a segment misses, the walk stays at None for every remaining segment |
| Console.FirstSegmentMissing | src/ahds/ahds.py:63-66 | a path whose first segment is not a top-level attribute resolves to None |
| Console.WalkThroughBlocks | src/ahds/ahds.py:63-66 | a path that resolves passed through blocks only, each segment being an attribute of the block before it |
| Console.ResolvePair | src/ahds/ahds.py:63-66 | a dotted path `a.b` of dot-free segments resolves by getattr of `a`, then of `b` |
| Console.ComposedPaths | ahds/__init__.py:37-45 | on a freshly composed document, `meta.file`, `meta.header length`, `meta.data streams`, `meta.streams_loaded`, `header` and `data_streams` lead to the file name, header length, stream count, load flag, header block and empty stream block |
| Console.Section | src/ahds/ahds.py:70-73 | a found path's section: the banner titled `ahds: Displaying path '<path>'` followed by the rendering of what it names |
| Console.Contribution | src/ahds/ahds.py:67-73 | what one path adds: nothing exactly when it resolves to None, otherwise its section |
| Console.Sections | src/ahds/ahds.py:61-73 | the contributions of the paths, in the order given |
| Console.Report | src/ahds/ahds.py:59-76 | `get_paths`' result: the whole document's rendering when no paths (None or empty) were given, otherwise the sections of the given paths resolved from the document root |
| Console.SectionsEmpty | src/ahds/ahds.py:61-73 | the sections are empty exactly when none of the paths resolves |
| Console.NothingFound | src/ahds/ahds.py:59-76 | when paths were given, `get_paths` returns the empty string exactly when none of them is found |
| Console.SectionsSnoc | src/ahds/ahds.py:62-73 | one more path extends the report by exactly that path's contribution |
| Console.SectionsAppend | src/ahds/ahds.py:61-73 | the report for two path lists one after the other is the concatenation of their reports |
| Console.MissingPathAddsNothing | src/ahds/ahds.py:67-68 | a path that resolves to None adds nothing to the report, wherever it stands |
| Console.FoundPathAddsSection | src/ahds/ahds.py:69-73 | a path that resolves adds exactly its section, in its place among the others |
| Console.SectionLines | src/ahds/ahds.py:70-73 | a found path's section reads as the `*` rule, `ahds: Displaying path '<path>'`, the `-` rule, then its rendering's lines |
| Console.GetPaths | src/ahds/ahds.py:59-76 | with no paths the result is the document's rendering; otherwise it is the sections, in order, of the paths that resolve from the document root |
| Console.GetDebug | src/ahds/ahds.py:79-87 | empty unless debugging was asked for; then the banner titled `ahds: Displaying parsed header data`, the pretty-printed parsed data and a final newline |
| Console.GetLiteral | src/ahds/ahds.py:90-97 | empty unless the literal header was asked for; then the banner titled `ahds: Displaying literal header` and the rendering of the literal header data |

## Left out

- `parse_args`, `main` and `get_amira_file` (src/ahds/ahds.py:23-56): argument parsing, printing and process exit are I/O. `Args` stands for the parsed arguments, and `AmiraFile.Open` for `get_amira_file`.
- The header parser `AmiraHeader`, the stream decoders (`ds.read`, `ds.get_data`, `set_data_stream`, `block.read`), the Block renderer `_str` and `pprint.pformat` are not part of this model. They are parameters (`ParsedHeader`, `Decoders`, `render`, `pformat`), and their failures are not modelled.
- Block (ahds/core.py) is not part of this model. The model assumes that `add_attr` refuses a name already present, that attributes keep insertion order, and that a Block argument is stored under its own name.
- `WIDTH` is defined in a module that is not part of this model, so the console builders take it as a parameter `w`.
- `AmiraFile.__repr__` (ahds/__init__.py:62-63): it reads an attribute `_read` that the class never sets, so it has no behaviour to model.
- The `__slots__` tuple (ahds/__init__.py:15) runs `'_meta' '_header'` together into one name. This has no effect on the document's attributes and is not modelled.
- Console.Get: Python's getattr also reaches methods, dunder attributes and the private fields `_fn`, `_header` and `_load_streams`. The model resolves only the document's Block attributes.
- The optional `prefix` and `index` arguments of `__str__` are passed through to the Block rendering. The renderer is a parameter, so they are not modelled.
- Amira.AmiraFile.Open: in Python a refused attribute raises an exception out of the constructor. The model returns it as an error value beside the partly built document.
- Amira.AmiraFile.Read: in Python each attached stream becomes visible in `data_streams` as soon as it is added. The model writes the document back once, after the loop, with the same final state.
- Amira.AmiraFile.Read: in Python the tree's `header` entry is the header object itself, so the load flag and the stream blocks that `read` changes on it are reachable through the tree. The model's tree holds the header's Block attributes as parsed; the load flag and the stream blocks are kept on the `Header` object beside the tree, and `Valid` ties the tree's `header` entry to that object's parsed block in every state.
- Console.GetDebug: the source pretty-prints `af.parsed_data`, an attribute the shown `AmiraFile` never sets itself. The model takes it to be the parsed header data the header parser hands over (`header.parsed.parsedData`).
- Console.GetPaths: the "Path not found" notice is printed, not returned, so it is not part of the modelled result.
