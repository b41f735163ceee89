/** The console entry point's report builders: splitting the command line into a file and
    dotted paths, resolving each path in the document, and assembling the bannered sections. */
module Console {
  import opened Blocks
  import opened Text
  import Amira

  /** The parsed command line: `file` holds the file name followed by any dotted paths. */
  datatype Args = Args(file: seq<string>, loadStreams: bool, debug: bool, literal: bool)

  const PATH_SEP: char := '.'
  const DEBUG_TITLE: string := "ahds: Displaying parsed header data"
  const LITERAL_TITLE: string := "ahds: Displaying literal header"

  /** `set_file_and_paths`: the first argument is the file; any further arguments, in order, are
      the paths, and there are no paths (None) when only the file was given. */
  function SetFileAndPaths(args: Args): (r: (string, Option<seq<string>>))
    requires |args.file| >= 1
    ensures r.1.None? <==> |args.file| == 1
    ensures r.1.Some? ==> |r.1.value| >= 1
    ensures [r.0] + (if r.1.Some? then r.1.value else []) == args.file
  {
    if |args.file| == 1 then (args.file[0], None)
    else (args.file[0], Some(args.file[1..]))
  }

  /** `getattr(v, key, None)`: a block's attribute, or None when it has no such attribute or
      `v` is not a block at all. */
  function Get(v: Value, key: string): (r: Value)
    ensures !v.Child? ==> r == Null
    ensures v.Child? && !Has(v.block.attrs, key) ==> r == Null
    ensures v.Child? && Lookup(v.block.attrs, key).Some? ==> r == Lookup(v.block.attrs, key).value
  {
    if v.Child? then
      match Lookup(v.block.attrs, key)
      case Some(x) => x
      case None => Null
    else Null
  }

  /** The inner loop of `get_paths`: `current_block = getattr(current_block, segment, None)`
      for each segment in turn. */
  function Walk(v: Value, segs: seq<string>): Value
    decreases |segs|
  {
    if segs == [] then v else Get(Walk(v, segs[..|segs| - 1]), segs[|segs| - 1])
  }

  /** What a dotted path names in the document: the walk from the root over its segments. */
  function Resolve(root: Block, path: string): Value
  {
    Walk(Child(root), Split(path, PATH_SEP))
  }

  function PathTitle(path: string): string
  {
    "ahds: Displaying path '" + path + "'"
  }

  /** The resolver `get_paths` uses: each path walked from the document root. */
  function Resolver(root: Block): string -> Value
  {
    path => Resolve(root, path)
  }

  /** The section a found path contributes: the banner naming the path, then its rendering. */
  function Section(w: nat, path: string, v: Value, render: Value -> string): string
  {
    Banner(w, PathTitle(path)) + render(v)
  }

  /** What one path adds to the report: nothing when it resolves to None, else its section. */
  function Contribution(w: nat, path: string, v: Value, render: Value -> string): (r: string)
    ensures r == [] <==> v.Null?
  {
    if v.Null? then "" else Section(w, path, v, render)
  }

  /** The contributions of `paths`, in order, each path resolved by `resolve`. */
  function Sections(resolve: string -> Value, paths: seq<string>, w: nat, render: Value -> string): string
    decreases |paths|
  {
    if paths == [] then ""
    else
      var last := paths[|paths| - 1];
      Sections(resolve, paths[..|paths| - 1], w, render) + Contribution(w, last, resolve(last), render)
  }

  /** One more path extends the report by that path's contribution. */
  lemma SectionsSnoc(resolve: string -> Value, ps: seq<string>, i: nat, w: nat, render: Value -> string)
    requires i < |ps|
    ensures Sections(resolve, ps[..i + 1], w, render) ==
      Sections(resolve, ps[..i], w, render) + Contribution(w, ps[i], resolve(ps[i]), render)
  {
    assert ps[..i + 1][..i] == ps[..i];
  }

  /** Writing a section piece by piece, as `get_paths` does, appends the section. */
  lemma SectionText(s: string, w: nat, path: string, body: string)
    ensures s + Rule('*', w) + "\n" + PathTitle(path) + "\n" + Rule('-', w) + "\n" + body ==
      s + (Banner(w, PathTitle(path)) + body)
  {
  }

  /** `get_paths`: the whole document's rendering when no paths were given, otherwise the
      sections of the given paths. */
  function Report(root: Block, paths: Option<seq<string>>, w: nat, render: Value -> string): string
  {
    if paths.None? || paths.value == [] then render(Child(root))
    else Sections(Resolver(root), paths.value, w, render)
  }

  /** Walking over two segment lists is walking over the first, then over the second. */
  lemma {:induction false} WalkAppend(v: Value, a: seq<string>, b: seq<string>)
    ensures Walk(v, a + b) == Walk(Walk(v, a), b)
    decreases |b|
  {
    if b == [] {
      assert a + b == a;
    } else {
      var n := |b| - 1;
      assert (a + b)[..|a + b| - 1] == a + b[..n];
      assert (a + b)[|a + b| - 1] == b[n];
      WalkAppend(v, a, b[..n]);
    }
  }

  /** Once a segment misses, the walk stays at None for every remaining segment. */
  lemma {:induction false} WalkNull(segs: seq<string>)
    ensures Walk(Null, segs) == Null
    decreases |segs|
  {
    if segs != [] {
      WalkNull(segs[..|segs| - 1]);
    }
  }

  /** A path whose first segment is not an attribute of the root resolves to None. */
  lemma FirstSegmentMissing(root: Block, seg: string, rest: seq<string>)
    requires !Has(root.attrs, seg)
    ensures Walk(Child(root), [seg] + rest) == Null
  {
    WalkAppend(Child(root), [seg], rest);
    assert [seg][..0] == [];
    WalkNull(rest);
  }

  /** A walk that ends somewhere passed through blocks only: every proper prefix of the
      segments leads to a block, and each segment is an attribute of the block before it. */
  lemma {:induction false} WalkThroughBlocks(v: Value, segs: seq<string>, k: nat)
    requires k < |segs|
    requires !Walk(v, segs).Null?
    ensures Walk(v, segs[..k]).Child?
    ensures Has(Walk(v, segs[..k]).block.attrs, segs[k])
    decreases |segs|
  {
    var n := |segs| - 1;
    var before := Walk(v, segs[..n]);
    assert before.Child? && Has(before.block.attrs, segs[n]);
    if k < n {
      var prefix := segs[..n];
      assert prefix[..k] == segs[..k] && prefix[k] == segs[k];
      WalkThroughBlocks(v, prefix, k);
    }
  }

  /** The report of a concatenation of path lists is the concatenation of their reports. */
  lemma {:induction false} SectionsAppend(resolve: string -> Value, a: seq<string>, b: seq<string>, w: nat, render: Value -> string)
    ensures Sections(resolve, a + b, w, render) == Sections(resolve, a, w, render) + Sections(resolve, b, w, render)
    decreases |b|
  {
    if b == [] {
      assert a + b == a;
    } else {
      var n := |b| - 1;
      var c := Contribution(w, b[n], resolve(b[n]), render);
      assert (a + b)[..|a + b| - 1] == a + b[..n];
      assert (a + b)[|a + b| - 1] == b[n];
      assert Sections(resolve, a + b, w, render) == Sections(resolve, a + b[..n], w, render) + c;
      assert Sections(resolve, b, w, render) == Sections(resolve, b[..n], w, render) + c;
      SectionsAppend(resolve, a, b[..n], w, render);
      Assoc(Sections(resolve, a, w, render), Sections(resolve, b[..n], w, render), c);
    }
  }

  /** The sections are empty exactly when none of the paths resolves. */
  lemma {:induction false} SectionsEmpty(resolve: string -> Value, paths: seq<string>, w: nat, render: Value -> string)
    ensures Sections(resolve, paths, w, render) == [] <==> forall i :: 0 <= i < |paths| ==> resolve(paths[i]).Null?
    decreases |paths|
  {
    if paths != [] {
      var n := |paths| - 1;
      SectionsEmpty(resolve, paths[..n], w, render);
      assert forall i :: 0 <= i < n ==> paths[..n][i] == paths[i];
    }
  }

  /** When paths were given, the report is empty exactly when none of them is found. */
  lemma NothingFound(root: Block, paths: seq<string>, w: nat, render: Value -> string)
    requires paths != []
    ensures Report(root, Some(paths), w, render) == [] <==>
      forall i :: 0 <= i < |paths| ==> Resolve(root, paths[i]).Null?
  {
    SectionsEmpty(Resolver(root), paths, w, render);
  }

  /** A path that resolves to None adds nothing to the report, wherever it stands in the list. */
  lemma MissingPathAddsNothing(resolve: string -> Value, a: seq<string>, p: string, b: seq<string>, w: nat, render: Value -> string)
    requires resolve(p).Null?
    ensures Sections(resolve, a + [p] + b, w, render) == Sections(resolve, a + b, w, render)
  {
    SectionsAppend(resolve, a + [p], b, w, render);
    SectionsAppend(resolve, a, [p], w, render);
    SectionsAppend(resolve, a, b, w, render);
    assert [p][..0] == [];
    assert Sections(resolve, [p], w, render) == "";
    assert Sections(resolve, a, w, render) + "" == Sections(resolve, a, w, render);
  }

  /** A path that resolves to something adds exactly its section, in its place in the list. */
  lemma FoundPathAddsSection(resolve: string -> Value, a: seq<string>, p: string, b: seq<string>, w: nat, render: Value -> string)
    requires !resolve(p).Null?
    ensures Sections(resolve, a + [p] + b, w, render) ==
      Sections(resolve, a, w, render) + Section(w, p, resolve(p), render) + Sections(resolve, b, w, render)
  {
    SectionsAppend(resolve, a + [p], b, w, render);
    SectionsAppend(resolve, a, [p], w, render);
    assert [p][..0] == [];
    assert Sections(resolve, [p], w, render) == Section(w, p, resolve(p), render);
  }

  /** A found path's section reads as the `*` rule, the line naming the path, the `-` rule, and
      then the lines of its rendering. */
  lemma SectionLines(w: nat, path: string, v: Value, render: Value -> string)
    requires '\n' !in path
    ensures Split(Section(w, path, v, render), '\n') ==
      [Rule('*', w), PathTitle(path), Rule('-', w)] + Split(render(v), '\n')
  {
    assert '\n' !in PathTitle(path);
    BannerLines(w, PathTitle(path), render(v));
  }

  /** `get_paths(paths, af)`: resolves each path from the document root and concatenates the
      sections of those found, in the order given; with no paths, the document's rendering. */
  method GetPaths(paths: Option<seq<string>>, af: Amira.AmiraFile, w: nat, render: Value -> string)
    returns (s: string)
    ensures s == Report(af.root, paths, w, render)
  {
    if paths.Some? && paths.value != [] {
      var ps := paths.value;
      s := "";
      var i := 0;
      while i < |ps|
        invariant 0 <= i <= |ps|
        invariant s == Sections(Resolver(af.root), ps[..i], w, render)
      {
        var path := ps[i];
        var segs := Split(path, PATH_SEP);
        var current := Child(af.root);
        var j := 0;
        while j < |segs|
          invariant 0 <= j <= |segs|
          invariant current == Walk(Child(af.root), segs[..j])
        {
          current := Get(current, segs[j]);
          j := j + 1;
          assert segs[..j][..j - 1] == segs[..j - 1];
        }
        assert segs[..j] == segs;
        assert current == Resolver(af.root)(path);
        ghost var before := s;
        if !current.Null? {
          s := s + Rule('*', w) + "\n";
          s := s + PathTitle(path) + "\n";
          s := s + Rule('-', w) + "\n";
          s := s + render(current);
          SectionText(before, w, path, render(current));
        }
        SectionsSnoc(Resolver(af.root), ps, i, w, render);
        i := i + 1;
      }
      assert ps[..i] == ps;
    } else {
      s := render(Child(af.root));
    }
  }

  /** `get_debug`: nothing unless debugging was asked for; then the banner and the
      pretty-printed parsed header data, closed by a newline. */
  method GetDebug(af: Amira.AmiraFile, args: Args, w: nat, pformat: Value -> string) returns (s: string)
    ensures !args.debug ==> s == ""
    ensures args.debug ==> s == Banner(w, DEBUG_TITLE) + pformat(af.header.parsed.parsedData) + "\n"
    ensures args.debug ==>
      var lines := Split(s, '\n');
      |lines| >= 4 && lines[..3] == [Rule('*', w), DEBUG_TITLE, Rule('-', w)] && lines[|lines| - 1] == ""
  {
    s := "";
    if args.debug {
      var body := pformat(af.header.parsed.parsedData);
      s := s + Rule('*', w) + "\n";
      s := s + DEBUG_TITLE + "\n";
      s := s + Rule('-', w) + "\n";
      s := s + body + "\n";
      assert s == Banner(w, DEBUG_TITLE) + (body + "\n");
      BannerLines(w, DEBUG_TITLE, body + "\n");
      SplitConcat(body, [], '\n');
      assert body + "\n" == body + ['\n'] + [];
    }
  }

  /** `get_literal`: nothing unless the literal header was asked for; then the banner and the
      rendering of the header's literal data. */
  method GetLiteral(af: Amira.AmiraFile, args: Args, w: nat, render: Value -> string) returns (s: string)
    ensures !args.literal ==> s == ""
    ensures args.literal ==> s == Banner(w, LITERAL_TITLE) + render(af.header.parsed.literal)
    ensures args.literal ==>
      var lines := Split(s, '\n');
      |lines| >= 3 && lines[..3] == [Rule('*', w), LITERAL_TITLE, Rule('-', w)]
  {
    s := "";
    if args.literal {
      var body := render(af.header.parsed.literal);
      s := s + Rule('*', w) + "\n";
      s := s + LITERAL_TITLE + "\n";
      s := s + Rule('-', w) + "\n";
      s := s + body;
      assert s == Banner(w, LITERAL_TITLE) + body;
      BannerLines(w, LITERAL_TITLE, body);
    }
  }

  /** A walk over one segment is one getattr step. */
  lemma WalkOne(v: Value, a: string)
    ensures Walk(v, [a]) == Get(v, a)
  {
    assert [a][..0] == [];
  }

  /** A walk over two segments is two getattr steps. */
  lemma WalkTwo(v: Value, a: string, b: string)
    ensures Walk(v, [a, b]) == Get(Get(v, a), b)
  {
    assert [a, b][..1] == [a];
    WalkOne(v, a);
  }

  /** A dotted path `a.b` with dot-free segments walks over exactly `a` and then `b`. */
  lemma ResolvePair(root: Block, a: string, b: string)
    requires PATH_SEP !in a && PATH_SEP !in b
    ensures Resolve(root, a) == Walk(Child(root), [a])
    ensures Resolve(root, a + [PATH_SEP] + b) == Walk(Child(root), [a, b])
  {
    SplitNoSep(a, PATH_SEP);
    SplitNoSep(b, PATH_SEP);
    SplitConcat(a, b, PATH_SEP);
  }

  /** On a freshly composed document, the segment lists of the paths `meta.file`,
      `meta.header length`, `meta.data streams`, `meta.streams_loaded`, `header` and
      `data_streams` lead to the provenance facts, the header block and the empty stream block. */
  lemma ComposedPaths(fn: string, parsed: Amira.ParsedHeader, load: bool)
    ensures var root := Amira.Composed(fn, parsed, load);
      Walk(Child(root), ["meta", "file"]) == Str(fn) &&
      Walk(Child(root), ["meta", "header length"]) == Int(parsed.length) &&
      Walk(Child(root), ["meta", "data streams"]) == Int(parsed.streamCount) &&
      Walk(Child(root), ["meta", "streams_loaded"]) == Bool(load) &&
      Walk(Child(root), ["header"]) == Child(parsed.block) &&
      Walk(Child(root), ["data_streams"]) == Child(Amira.EMPTY_STREAMS)
  {
    var root := Amira.Composed(fn, parsed, load);
    Amira.MetaLookup(fn, parsed.length, parsed.streamCount, load);
    WalkTwo(Child(root), "meta", "file");
    WalkTwo(Child(root), "meta", "header length");
    WalkTwo(Child(root), "meta", "data streams");
    WalkTwo(Child(root), "meta", "streams_loaded");
    WalkOne(Child(root), "header");
    WalkOne(Child(root), "data_streams");
  }
}
