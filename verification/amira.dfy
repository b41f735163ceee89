/** AmiraFile, the root document of an Amira file: a Block named after the file whose attributes
    are `meta` (provenance facts), `header` (the parsed header's block) and `data_streams` (one
    child per decoded stream, filled in by Read). */
module Amira {
  import opened Blocks
  import opened Text

  const MESH: string := "AmiraMesh"
  const SURFACE: string := "HyperSurface"

  /** AmiraFile.__str__ uses its own literal width and title. */
  const DOC_WIDTH: nat := 140
  const DOC_TITLE: string := "AMIRA HEADER AND DATA STREAMS"

  /** What the header parser hands over: the header's own attribute block, the file type tag,
      `len(header)`, the declared stream count, the declared stream blocks in declaration order,
      the literal header data and the parsed header data. */
  datatype ParsedHeader = ParsedHeader(
    block: Block,
    filetype: string,
    length: int,
    streamCount: int,
    streams: seq<Block>,
    literal: Value,
    parsedData: Value)

  /** The stream decoders: `getData(ds)` is what `ds.read(); ds.get_data()` yields for a declared
      stream, `setDataStream(name, header)` the block that `set_data_stream(name, header)` builds
      and `block.read()` fills. */
  datatype Decoders = Decoders(
    getData: Block -> Value,
    setDataStream: (string, ParsedHeader) -> Block)

  /** The AmiraHeader object: the parsed data, the stream blocks it owns (which Read marks with
      their data) and its `load_streams` flag. */
  class Header {
    const parsed: ParsedHeader
    var streamBlocks: seq<Block>
    var loadStreams: bool

    constructor (parsed: ParsedHeader, loadStreams: bool)
      ensures this.parsed == parsed && streamBlocks == parsed.streams
      ensures this.loadStreams == loadStreams
    {
      this.parsed := parsed;
      streamBlocks := parsed.streams;
      this.loadStreams := loadStreams;
    }
  }

  /** The `meta` block: file name, header length, declared stream count and the load flag the
      document was opened with, added in that order. */
  function Meta(fn: string, length: int, count: int, load: bool): (m: Block)
    ensures m.name == "meta"
    ensures Keys(m.attrs) == ["file", "header length", "data streams", "streams_loaded"]
    ensures m.attrs[0].value == Str(fn) && m.attrs[1].value == Int(length)
    ensures m.attrs[2].value == Int(count) && m.attrs[3].value == Bool(load)
  {
    var m0 := Block("meta", []);
    var m1 := AddAttr(m0, "file", Str(fn));
    assert !Has(m1.value.attrs, "header length") by { assert Keys(m1.value.attrs) == ["file"]; }
    var m2 := AddAttr(m1.value, "header length", Int(length));
    assert !Has(m2.value.attrs, "data streams") by {
      assert Keys(m2.value.attrs) == ["file", "header length"];
    }
    var m3 := AddAttr(m2.value, "data streams", Int(count));
    assert !Has(m3.value.attrs, "streams_loaded") by {
      assert Keys(m3.value.attrs) == ["file", "header length", "data streams"];
    }
    AddAttr(m3.value, "streams_loaded", Bool(load)).value
  }

  /** Each `meta` fact is found under its own name. */
  lemma MetaLookup(fn: string, length: int, count: int, load: bool)
    ensures var m := Meta(fn, length, count, load);
      Lookup(m.attrs, "file") == Some(Str(fn)) &&
      Lookup(m.attrs, "header length") == Some(Int(length)) &&
      Lookup(m.attrs, "data streams") == Some(Int(count)) &&
      Lookup(m.attrs, "streams_loaded") == Some(Bool(load))
  {
    var m := Meta(fn, length, count, load);
    assert UniqueKeys(m.attrs) by {
      forall i, j | 0 <= i < j < |m.attrs| ensures m.attrs[i].key != m.attrs[j].key {
        assert Keys(m.attrs)[i] != Keys(m.attrs)[j];
      }
    }
    LookupAt(m.attrs, 0);
    LookupAt(m.attrs, 1);
    LookupAt(m.attrs, 2);
    LookupAt(m.attrs, 3);
  }

  const EMPTY_STREAMS: Block := Block("data_streams", [])

  /** The document as the constructor leaves it: `meta`, `header`, and an empty `data_streams`. */
  function Composed(fn: string, parsed: ParsedHeader, load: bool): (r: Block)
    ensures r.name == fn
    ensures Keys(r.attrs) == ["meta", "header", "data_streams"]
    ensures Lookup(r.attrs, "meta") == Some(Child(Meta(fn, parsed.length, parsed.streamCount, load)))
    ensures Lookup(r.attrs, "header") == Some(Child(parsed.block))
    ensures Lookup(r.attrs, "data_streams") == Some(Child(EMPTY_STREAMS))
  {
    var r := Block(fn, [Attr("meta", Child(Meta(fn, parsed.length, parsed.streamCount, load))),
                        Attr("header", Child(parsed.block)),
                        Attr("data_streams", Child(EMPTY_STREAMS))]);
    assert UniqueKeys(r.attrs);
    LookupAt(r.attrs, 0);
    LookupAt(r.attrs, 1);
    LookupAt(r.attrs, 2);
    r
  }

  /** A declared stream after `ds.add_attr('data', ds.get_data())`. */
  function WithData(s: Block, getData: Block -> Value): (r: Block)
    ensures r.name == s.name
    ensures |r.attrs| == |s.attrs| + 1 && r.attrs[..|s.attrs|] == s.attrs
    ensures Has(r.attrs, "data")
  {
    assert (s.attrs + [Attr("data", getData(s))])[|s.attrs|].key == "data";
    Block(s.name, s.attrs + [Attr("data", getData(s))])
  }

  /** A stream that had no `data` before finds its decoded data under `data`. */
  lemma WithDataLookup(s: Block, getData: Block -> Value)
    ensures !Has(s.attrs, "data") ==> Lookup(WithData(s, getData).attrs, "data") == Some(getData(s))
  {
    LookupAppend(s.attrs, Attr("data", getData(s)), "data");
  }

  /** The state Read works on: the `data_streams` block, the header's stream blocks, and the
      error that stopped it, if any. */
  datatype Progress = Progress(dataStreams: Block, streams: seq<Block>, failed: Option<Error>)

  /** One AmiraMesh iteration on stream `i`: give it its data, then attach it to `data_streams`;
      either add_attr may refuse a duplicate name and stop the read. */
  function MeshStep(p: Progress, i: nat, getData: Block -> Value): (q: Progress)
    requires i < |p.streams|
    ensures |q.streams| == |p.streams|
    ensures forall j :: 0 <= j < |p.streams| && j != i ==> q.streams[j] == p.streams[j]
    ensures q.dataStreams.name == p.dataStreams.name
    ensures q.failed.Some? ==> q.dataStreams == p.dataStreams
    ensures q.failed.None? ==> (p.dataStreams.attrs <= q.dataStreams.attrs &&
      |q.dataStreams.attrs| == |p.dataStreams.attrs| + 1)
  {
    var s := p.streams[i];
    match AddAttr(s, "data", getData(s))
    case Err(e) => Progress(p.dataStreams, p.streams, Some(e))
    case Ok(marked) =>
      var streams := p.streams[i := marked];
      match AddBlock(p.dataStreams, marked)
      case Err(e) => Progress(p.dataStreams, streams, Some(e))
      case Ok(ds) => Progress(ds, streams, None)
  }

  /** The AmiraMesh loop after its first `k` streams; an error ends the loop. */
  function MeshPrefix(ds: Block, streams: seq<Block>, k: nat, getData: Block -> Value): (p: Progress)
    requires k <= |streams|
    ensures |p.streams| == |streams|
    ensures forall j :: k <= j < |streams| ==> p.streams[j] == streams[j]
    ensures p.dataStreams.name == ds.name
    ensures ds.attrs <= p.dataStreams.attrs && |p.dataStreams.attrs| <= |ds.attrs| + k
    decreases k
  {
    if k == 0 then Progress(ds, streams, None)
    else
      var p := MeshPrefix(ds, streams, k - 1, getData);
      if p.failed.Some? then p else MeshStep(p, k - 1, getData)
  }

  /** Stream `j` can be attached: it has no `data` attribute yet, and its name is neither already
      in `data_streams` nor the name of an earlier stream. */
  predicate MeshOk(ds: Block, streams: seq<Block>, j: nat)
    requires j < |streams|
  {
    !Has(streams[j].attrs, "data") &&
    !Has(ds.attrs, streams[j].name) &&
    forall l :: 0 <= l < j ==> streams[l].name != streams[j].name
  }

  predicate MeshReady(ds: Block, streams: seq<Block>, k: nat)
    requires k <= |streams|
  {
    forall j :: 0 <= j < k ==> MeshOk(ds, streams, j)
  }

  /** The attributes the first `k` streams add to `data_streams`, in declaration order. */
  function Loaded(streams: seq<Block>, k: nat, getData: Block -> Value): seq<Attr>
    requires k <= |streams|
  {
    seq(k, j requires 0 <= j < k => Attr(streams[j].name, Child(WithData(streams[j], getData))))
  }

  /** The header's stream list once the first `k` streams carry their data. */
  function Marked(streams: seq<Block>, k: nat, getData: Block -> Value): seq<Block>
  {
    seq(|streams|, j requires 0 <= j < |streams| => if j < k then WithData(streams[j], getData) else streams[j])
  }

  /** `self.read()`: dispatch on the file type. AmiraMesh walks the declared streams,
      HyperSurface attaches the one block built for 'Data', any other type attaches nothing. */
  function ReadSpec(ds: Block, parsed: ParsedHeader, streams: seq<Block>, dec: Decoders): (o: Progress)
    ensures o.dataStreams.name == ds.name && ds.attrs <= o.dataStreams.attrs
    ensures |o.streams| == |streams|
    ensures parsed.filetype != MESH ==> o.streams == streams
  {
    if parsed.filetype == MESH then MeshPrefix(ds, streams, |streams|, dec.getData)
    else if parsed.filetype == SURFACE then
      var b := dec.setDataStream("Data", parsed);
      match AddBlock(ds, b)
      case Ok(d) => Progress(d, streams, None)
      case Err(e) => Progress(ds, streams, Some(e))
    else Progress(ds, streams, None)
  }

  /** Once the AmiraMesh loop has stopped on an error, later iterations change nothing. */
  lemma MeshStuck(ds: Block, streams: seq<Block>, n: nat, getData: Block -> Value)
    requires 0 < n <= |streams|
    requires MeshPrefix(ds, streams, n - 1, getData).failed.Some?
    ensures MeshPrefix(ds, streams, n, getData) == MeshPrefix(ds, streams, n - 1, getData)
  {
  }

  lemma {:induction false} MeshSticky(ds: Block, streams: seq<Block>, k: nat, n: nat, getData: Block -> Value)
    requires k <= n <= |streams|
    requires MeshPrefix(ds, streams, k, getData).failed.Some?
    ensures MeshPrefix(ds, streams, n, getData) == MeshPrefix(ds, streams, k, getData)
    decreases n - k
  {
    if k < n {
      MeshStuck(ds, streams, k + 1, getData);
      MeshSticky(ds, streams, k + 1, n, getData);
    }
  }

  /** A name is in `data_streams` after `i` streams when it was there before or is the name of
      one of those streams. */
  lemma HasLoaded(ds: Block, streams: seq<Block>, i: nat, getData: Block -> Value, name: string)
    requires i <= |streams|
    ensures Has(ds.attrs + Loaded(streams, i, getData), name) <==>
      Has(ds.attrs, name) || exists l :: 0 <= l < i && streams[l].name == name
  {
    var before := ds.attrs + Loaded(streams, i, getData);
    if Has(before, name) {
      var m :| 0 <= m < |before| && before[m].key == name;
      if m >= |ds.attrs| {
        assert streams[m - |ds.attrs|].name == name;
      }
    }
    if exists l :: 0 <= l < i && streams[l].name == name {
      var l :| 0 <= l < i && streams[l].name == name;
      assert before[|ds.attrs| + l].key == name;
    }
    if Has(ds.attrs, name) {
      var m :| 0 <= m < |ds.attrs| && ds.attrs[m].key == name;
      assert before[m].key == name;
    }
  }

  lemma MeshReadyNext(ds: Block, streams: seq<Block>, i: nat)
    requires i < |streams|
    ensures MeshReady(ds, streams, i + 1) <==> MeshReady(ds, streams, i) && MeshOk(ds, streams, i)
  {
    if MeshReady(ds, streams, i) && MeshOk(ds, streams, i) {
      forall j | 0 <= j < i + 1 ensures MeshOk(ds, streams, j) {
        if j < i {
          assert MeshOk(ds, streams, j);
        }
      }
    }
  }

  lemma LoadedNext(ds: Block, streams: seq<Block>, i: nat, getData: Block -> Value)
    requires i < |streams|
    ensures ds.attrs + Loaded(streams, i, getData) + [Attr(streams[i].name, Child(WithData(streams[i], getData)))]
      == ds.attrs + Loaded(streams, i + 1, getData)
  {
    assert Loaded(streams, i, getData) + [Attr(streams[i].name, Child(WithData(streams[i], getData)))]
      == Loaded(streams, i + 1, getData);
  }

  lemma MarkedNext(streams: seq<Block>, i: nat, getData: Block -> Value)
    requires i < |streams|
    ensures Marked(streams, i, getData)[i := WithData(streams[i], getData)] == Marked(streams, i + 1, getData)
  {
  }

  /** One AmiraMesh iteration after `i` successful ones succeeds exactly when stream `i` can be
      attached, and then it extends the closed form by that stream. */
  lemma MeshStepAttach(ds: Block, streams: seq<Block>, i: nat, getData: Block -> Value)
    requires i < |streams|
    ensures var p := Progress(Block(ds.name, ds.attrs + Loaded(streams, i, getData)), Marked(streams, i, getData), None);
      var q := MeshStep(p, i, getData);
      (q.failed.None? <==> MeshOk(ds, streams, i)) &&
      (q.failed.None? ==>
        q == Progress(Block(ds.name, ds.attrs + Loaded(streams, i + 1, getData)), Marked(streams, i + 1, getData), None))
  {
    var s := streams[i];
    var before := ds.attrs + Loaded(streams, i, getData);
    assert Marked(streams, i, getData)[i] == s;
    HasLoaded(ds, streams, i, getData, s.name);
    if MeshOk(ds, streams, i) {
      var marked := WithData(s, getData);
      assert AddAttr(s, "data", getData(s)) == Ok(marked);
      assert AddBlock(Block(ds.name, before), marked) == Ok(Block(ds.name, before + [Attr(s.name, Child(marked))]));
      LoadedNext(ds, streams, i, getData);
      MarkedNext(streams, i, getData);
    }
  }

  /** The closed form of the AmiraMesh loop after its first `k` streams: it succeeded exactly
      when each of them could be attached, and then `data_streams` gained one child per stream,
      in declaration order, each the stream with its `data` attribute, and the header's first
      `k` streams carry their data. */
  predicate MeshClosed(ds: Block, streams: seq<Block>, k: nat, getData: Block -> Value)
    requires k <= |streams|
  {
    var p := MeshPrefix(ds, streams, k, getData);
    (p.failed.None? <==> MeshReady(ds, streams, k)) &&
    (p.failed.None? ==>
      p == Progress(Block(ds.name, ds.attrs + Loaded(streams, k, getData)), Marked(streams, k, getData), None))
  }

  /** The closed form after `i` streams gives the closed form after `i + 1`. */
  lemma MeshClosedNext(ds: Block, streams: seq<Block>, i: nat, getData: Block -> Value)
    requires i < |streams|
    requires MeshClosed(ds, streams, i, getData)
    ensures MeshClosed(ds, streams, i + 1, getData)
  {
    var prev := MeshPrefix(ds, streams, i, getData);
    MeshReadyNext(ds, streams, i);
    if prev.failed.None? {
      MeshStepAttach(ds, streams, i, getData);
      assert MeshPrefix(ds, streams, i + 1, getData) == MeshStep(prev, i, getData);
    } else {
      assert MeshPrefix(ds, streams, i + 1, getData) == prev;
    }
  }

  /** The AmiraMesh loop satisfies its closed form after every prefix of the streams. */
  lemma {:induction false} MeshPrefixSpec(ds: Block, streams: seq<Block>, k: nat, getData: Block -> Value)
    requires k <= |streams|
    ensures MeshClosed(ds, streams, k, getData)
    decreases k
  {
    if k == 0 {
      assert Marked(streams, 0, getData) == streams;
      assert ds.attrs + Loaded(streams, 0, getData) == ds.attrs;
    } else {
      MeshPrefixSpec(ds, streams, k - 1, getData);
      MeshClosedNext(ds, streams, k - 1, getData);
    }
  }

  /** When the AmiraMesh loop fails, `data_streams` holds exactly the streams before the first
      one that could not be attached. */
  lemma {:induction false} MeshPrefixFailure(ds: Block, streams: seq<Block>, k: nat, getData: Block -> Value)
    requires k <= |streams|
    requires MeshPrefix(ds, streams, k, getData).failed.Some?
    ensures exists f :: (0 <= f < k && MeshReady(ds, streams, f) && !MeshOk(ds, streams, f) &&
      MeshPrefix(ds, streams, k, getData).dataStreams == Block(ds.name, ds.attrs + Loaded(streams, f, getData)))
    decreases k
  {
    var i := k - 1;
    var prev := MeshPrefix(ds, streams, i, getData);
    if prev.failed.Some? {
      MeshPrefixFailure(ds, streams, i, getData);
      var f :| 0 <= f < i && MeshReady(ds, streams, f) && !MeshOk(ds, streams, f) &&
        prev.dataStreams == Block(ds.name, ds.attrs + Loaded(streams, f, getData));
      assert MeshPrefix(ds, streams, k, getData) == prev;
    } else {
      MeshPrefixSpec(ds, streams, i, getData);
      MeshPrefixSpec(ds, streams, k, getData);
      MeshReadyNext(ds, streams, i);
      assert MeshPrefix(ds, streams, k, getData).dataStreams == prev.dataStreams;
      assert 0 <= i < k && MeshReady(ds, streams, i) && !MeshOk(ds, streams, i);
    }
  }

  /** A HyperSurface read attaches exactly the one block built for 'Data', unless `data_streams`
      already holds a block of that name; the header's stream list is not touched. */
  lemma ReadSurface(ds: Block, parsed: ParsedHeader, streams: seq<Block>, dec: Decoders)
    requires parsed.filetype == SURFACE
    ensures var o := ReadSpec(ds, parsed, streams, dec);
      var b := dec.setDataStream("Data", parsed);
      o.streams == streams &&
      (o.failed.None? <==> !Has(ds.attrs, b.name)) &&
      (o.failed.None? ==> o.dataStreams == Block(ds.name, ds.attrs + [Attr(b.name, Child(b))])) &&
      (o.failed.Some? ==> o.dataStreams == ds)
  {
  }

  /** Any other file type attaches nothing and cannot fail. */
  lemma ReadOther(ds: Block, parsed: ParsedHeader, streams: seq<Block>, dec: Decoders)
    requires parsed.filetype != MESH && parsed.filetype != SURFACE
    ensures ReadSpec(ds, parsed, streams, dec) == Progress(ds, streams, None)
  {
  }

  /** Read on a freshly opened AmiraMesh document whose declared streams have distinct names and no
      data yet: `data_streams` ends up with exactly one child per declared stream, named after it,
      in declaration order, and each child's `data` attribute holds that stream's decoded data. */
  lemma {:induction false} LoadMesh(parsed: ParsedHeader, dec: Decoders)
    requires parsed.filetype == MESH
    requires forall j :: 0 <= j < |parsed.streams| ==> !Has(parsed.streams[j].attrs, "data")
    requires forall l, j :: 0 <= l < j < |parsed.streams| ==> parsed.streams[l].name != parsed.streams[j].name
    ensures var o := ReadSpec(EMPTY_STREAMS, parsed, parsed.streams, dec);
      o.failed.None? &&
      |o.dataStreams.attrs| == |parsed.streams| &&
      forall j :: 0 <= j < |parsed.streams| ==>
        o.dataStreams.attrs[j].key == parsed.streams[j].name &&
        o.dataStreams.attrs[j].value.Child? &&
        Lookup(o.dataStreams.attrs[j].value.block.attrs, "data") == Some(dec.getData(parsed.streams[j]))
  {
    var streams := parsed.streams;
    assert MeshReady(EMPTY_STREAMS, streams, |streams|);
    MeshPrefixSpec(EMPTY_STREAMS, streams, |streams|, dec.getData);
    var attrs := ReadSpec(EMPTY_STREAMS, parsed, streams, dec).dataStreams.attrs;
    assert attrs == Loaded(streams, |streams|, dec.getData);
    forall j | 0 <= j < |streams|
      ensures attrs[j].key == streams[j].name && attrs[j].value.Child?
      ensures Lookup(attrs[j].value.block.attrs, "data") == Some(dec.getData(streams[j]))
    {
      WithDataLookup(streams[j], dec.getData);
    }
  }

  /** The body has no "not read yet" guard: a second AmiraMesh read over a non-empty stream list
      starts again, and is refused at the first stream because it already has `data`, so the
      document's `data_streams` stays as the first read left it. */
  lemma ReadAgainMesh(ds: Block, parsed: ParsedHeader, streams: seq<Block>, dec: Decoders)
    requires parsed.filetype == MESH && |streams| > 0
    requires ReadSpec(ds, parsed, streams, dec).failed.None?
    ensures var o := ReadSpec(ds, parsed, streams, dec);
      var again := ReadSpec(o.dataStreams, parsed, o.streams, dec);
      again.failed == Some(DuplicateAttribute("data")) &&
      again.dataStreams == o.dataStreams && again.streams == o.streams
  {
    var o := ReadSpec(ds, parsed, streams, dec);
    MeshPrefixSpec(ds, streams, |streams|, dec.getData);
    var first := o.streams[0];
    assert first == WithData(streams[0], dec.getData);
    assert Keys(first.attrs)[|first.attrs| - 1] == "data";
    assert Has(first.attrs, "data");
    MeshSticky(o.dataStreams, o.streams, 1, |streams|, dec.getData);
  }

  /** The AmiraMesh loop of `read()`: for each declared stream in order, give it its data and
      attach it to `data_streams`, stopping at the first refused attribute. */
  method MeshLoop(ds0: Block, streams0: seq<Block>, getData: Block -> Value)
    returns (ds: Block, streams: seq<Block>, err: Option<Error>)
    ensures Progress(ds, streams, err) == MeshPrefix(ds0, streams0, |streams0|, getData)
  {
    ds, streams, err := ds0, streams0, None;
    var i := 0;
    while i < |streams| && err.None?
      invariant |streams| == |streams0|
      invariant 0 <= i <= |streams|
      invariant MeshPrefix(ds0, streams0, i, getData) == Progress(ds, streams, err)
    {
      var s := streams[i];
      var marked := AddAttr(s, "data", getData(s));
      if marked.Err? {
        err := Some(marked.error);
      } else {
        streams := streams[i := marked.value];
        var added := AddBlock(ds, marked.value);
        if added.Err? {
          err := Some(added.error);
        } else {
          ds := added.value;
        }
      }
      i := i + 1;
    }
    if err.Some? {
      MeshSticky(ds0, streams0, i, |streams0|, getData);
    }
  }

  /** The data_streams block, replaced in the root's third attribute. */
  function WithDataStreams(root: Block, ds: Block): Block
    requires |root.attrs| == 3
  {
    Block(root.name, root.attrs[2 := Attr("data_streams", Child(ds))])
  }

  class AmiraFile {
    const fn: string
    var loadStreams: bool
    const header: Header
    /** The Block this object is: named after the file, holding the document's attributes. */
    var root: Block

    /** The tree's `header` entry is the header's own block, `data_streams` is a block of that
        name, and the tree's names are those the constructor added. */
    ghost predicate Valid()
      reads this
    {
      root.name == fn &&
      Keys(root.attrs) == ["meta", "header", "data_streams"] &&
      root.attrs[1] == Attr("header", Child(header.parsed.block)) &&
      root.attrs[2].value.Child? &&
      root.attrs[2].value.block.name == "data_streams"
    }

    function DataStreams(): Block
      reads this
      requires Valid()
    {
      root.attrs[2].value.block
    }

    /** Builds the document without reading streams: `meta`, `header`, empty `data_streams`. */
    constructor (fn: string, parsed: ParsedHeader, loadStreams: bool)
      ensures Valid() && fresh(header)
      ensures this.fn == fn && this.loadStreams == loadStreams
      ensures header.parsed == parsed && header.streamBlocks == parsed.streams
      ensures header.loadStreams == loadStreams
      ensures root == Composed(fn, parsed, loadStreams)
    {
      this.fn := fn;
      this.loadStreams := loadStreams;
      header := new Header(parsed, loadStreams);
      var meta := Attr("meta", Child(Meta(fn, parsed.length, parsed.streamCount, loadStreams)));
      var doc := Block(fn, []);
      var added := AddAttr(doc, meta.key, meta.value);
      assert added.value.attrs == [meta];
      doc := added.value;
      added := AddAttr(doc, "header", Child(parsed.block));
      assert added.value.attrs == [meta, Attr("header", Child(parsed.block))];
      doc := added.value;
      added := AddBlock(doc, EMPTY_STREAMS);
      doc := added.value;
      root := doc;
    }

    /** `AmiraFile(fn, load_streams)`: builds the document and, when asked, reads its streams.
        A refused attribute is returned as the error the constructor would raise. */
    static method Open(fn: string, parsed: ParsedHeader, loadStreams: bool, dec: Decoders)
      returns (af: AmiraFile, err: Option<Error>)
      ensures fresh(af) && fresh(af.header) && af.Valid()
      ensures af.fn == fn && af.header.parsed == parsed
      ensures af.root.attrs[..2] == Composed(fn, parsed, loadStreams).attrs[..2]
      ensures !loadStreams ==>
        err.None? && af.DataStreams() == EMPTY_STREAMS && af.header.streamBlocks == parsed.streams
      ensures loadStreams ==>
        var o := ReadSpec(EMPTY_STREAMS, parsed, parsed.streams, dec);
        af.DataStreams() == o.dataStreams && af.header.streamBlocks == o.streams && err == o.failed
      ensures af.loadStreams == loadStreams && af.header.loadStreams == loadStreams
    {
      af := new AmiraFile(fn, parsed, loadStreams);
      err := None;
      if loadStreams {
        err := af.Read(dec);
      }
    }

    /** `read()`: attaches the streams the file type calls for and, when nothing was refused,
        sets the document's and the header's load flags. The `meta` and `header` attributes are
        not touched, so `meta`'s `streams_loaded` keeps the value the document was opened with. */
    method Read(dec: Decoders) returns (err: Option<Error>)
      requires Valid()
      modifies this, header
      ensures Valid()
      ensures var o := ReadSpec(old(DataStreams()), header.parsed, old(header.streamBlocks), dec);
        DataStreams() == o.dataStreams && header.streamBlocks == o.streams && err == o.failed
      ensures root.attrs[..2] == old(root.attrs[..2])
      ensures loadStreams == (err.None? || old(loadStreams))
      ensures header.loadStreams == (err.None? || old(header.loadStreams))
    {
      var ds := DataStreams();
      var streams := header.streamBlocks;
      err := None;
      if header.parsed.filetype == MESH {
        ds, streams, err := MeshLoop(ds, streams, dec.getData);
      } else if header.parsed.filetype == SURFACE {
        var block := dec.setDataStream("Data", header.parsed);
        var added := AddBlock(ds, block);
        if added.Err? {
          err := Some(added.error);
        } else {
          ds := added.value;
        }
      }
      header.streamBlocks := streams;
      root := WithDataStreams(root, ds);
      assert Keys(root.attrs) == ["meta", "header", "data_streams"];
      if err.None? {
        loadStreams := true;
        header.loadStreams := true;
      }
    }

    /** `__str__`: the banner titled AMIRA HEADER AND DATA STREAMS, the Block rendering of the
        document, and a closing `*` rule with no newline after it. */
    method Str(blockStr: Block -> string) returns (s: string)
      ensures s == Banner(DOC_WIDTH, DOC_TITLE) + blockStr(root) + Rule('*', DOC_WIDTH)
      ensures |Split(s, '\n')| >= 3 && Split(s, '\n')[..3] == [Rule('*', DOC_WIDTH), DOC_TITLE, Rule('-', DOC_WIDTH)]
      ensures |s| >= DOC_WIDTH && s[|s| - DOC_WIDTH..] == Rule('*', DOC_WIDTH)
    {
      s := "";
      s := s + Rule('*', DOC_WIDTH) + "\n";
      s := s + DOC_TITLE + "\n";
      s := s + Rule('-', DOC_WIDTH) + "\n";
      s := s + blockStr(root);
      s := s + Rule('*', DOC_WIDTH);
      assert s == Banner(DOC_WIDTH, DOC_TITLE) + (blockStr(root) + Rule('*', DOC_WIDTH));
      BannerLines(DOC_WIDTH, DOC_TITLE, blockStr(root) + Rule('*', DOC_WIDTH));
    }
  }
}
