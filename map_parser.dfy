/** The hand-written reader of the map document (`get_layer`, `get_all_chunks`, `parse_chunk`
    and the start of `World::default` in src/assets.rs). The document is the text of a map in
    the TMX format with CSV-encoded chunks; reading it is a chain of `split_once(..).unwrap()`
    calls, and each `unwrap` on a missing piece is a panic, here `None`. */
module MapParser {
  import opened Wrappers
  import opened Text
  import opened Chunks
  import opened Worlds

  const LayerEnd: string := "</layer>"
  const ChunkEnd: string := "</chunk>"

  /** `get_layer`: the text between the `>` that follows the first ` name="<layer>` of the
      document and the next `</layer>`. The key names no element and has no closing quote, so
      it matches the `name` attribute of any element (a layer, an object group, an image layer,
      a property) whose name merely starts with `layer`: the first such match in document
      order decides what is read. */
  function GetLayer(xml: string, layer: string): (r: Option<string>)
    ensures r.Some? ==> Lacks(r.value, LayerEnd)
  {
    var named :- SplitOnce(xml, " name=\"" + layer);
    var tagged :- SplitOnce(named.1, ">");
    var body :- SplitOnce(tagged.1, LayerEnd);
    PrefixHasNoOccurrence(body.0, LayerEnd, body.1);
    Some(body.0)
  }

  /** The converse of GetLayer's contract: in a document laid out as
      `before`, the name key, the rest of the tag, `>`, the content, `</layer>`, `after`,
      where the key first occurs at the end of `before`, the tag's rest has no `>` and
      `</layer>` first occurs right after the content, the layer read is that content. */
  lemma GetLayerFindsContent(before: string, layer: string, tagRest: string, content: string, after: string)
    requires forall j :: 0 <= j < |before| ==>
      !OccursAt(before + (" name=\"" + layer) + (tagRest + ">" + (content + LayerEnd + after)), " name=\"" + layer, j)
    requires '>' !in tagRest
    requires forall j :: 0 <= j < |content| ==> !OccursAt(content + LayerEnd + after, LayerEnd, j)
    ensures GetLayer(before + (" name=\"" + layer) + (tagRest + ">" + (content + LayerEnd + after)), layer) == Some(content)
  {
    var key := " name=\"" + layer;
    var body := content + LayerEnd + after;
    SplitOnceAtFirst(before, key, tagRest + ">" + body);
    SplitOnceAtChar(tagRest, '>', body);
    SplitOnceAtFirst(content, LayerEnd, after);
  }

  /** The pieces `get_all_chunks` hands to `parse_chunk`: the text before each `</chunk>`, in
      document order; whatever follows the last `</chunk>` is not a piece. */
  function ChunkSections(s: string): seq<string>
    decreases |s|
  {
    match SplitOnce(s, ChunkEnd)
    case None => []
    case Some((current, remains)) => [current] + ChunkSections(remains)
  }

  /** The text after the last `</chunk>`, which `get_all_chunks` ignores. */
  function ChunkRemainder(s: string): string
    decreases |s|
  {
    match SplitOnce(s, ChunkEnd)
    case None => s
    case Some((_, remains)) => ChunkRemainder(remains)
  }

  /** Sections glued back, each followed by its `</chunk>`. */
  function JoinSections(sections: seq<string>): string
    decreases |sections|
  {
    if |sections| == 0 then "" else sections[0] + ChunkEnd + JoinSections(sections[1..])
  }

  /** Cutting at every `</chunk>` loses nothing: the sections, each with its `</chunk>`, then
      the ignored remainder, make up the layer text again. */
  lemma {:induction false} ChunkSectionsRoundTrip(s: string)
    ensures s == JoinSections(ChunkSections(s)) + ChunkRemainder(s)
    decreases |s|
  {
    var cut := SplitOnce(s, ChunkEnd);
    if cut.Some? {
      var current, remains := cut.value.0, cut.value.1;
      ChunkSectionsRoundTrip(remains);
      var rest := ChunkSections(remains);
      assert ChunkSections(s) == [current] + rest;
      JoinSectionsCons(current, rest);
      assert ChunkRemainder(s) == ChunkRemainder(remains);
      assert s == current + ChunkEnd + remains;
      ConcatAssoc(current + ChunkEnd, JoinSections(rest), ChunkRemainder(remains));
    } else {
      assert ChunkSections(s) == [];
      assert ChunkRemainder(s) == s;
      assert JoinSections([]) + s == s;
    }
  }

  lemma JoinSectionsCons(section: string, rest: seq<string>)
    ensures JoinSections([section] + rest) == section + ChunkEnd + JoinSections(rest)
  {
    assert ([section] + rest)[1..] == rest;
  }

  /** No section and not the remainder holds a `</chunk>`: there is exactly one section per
      `</chunk>` of the layer text. */
  lemma {:induction false} ChunkSectionsSeparated(s: string)
    ensures forall k :: 0 <= k < |ChunkSections(s)| ==> Lacks(ChunkSections(s)[k], ChunkEnd)
    ensures Lacks(ChunkRemainder(s), ChunkEnd)
    decreases |s|
  {
    var cut := SplitOnce(s, ChunkEnd);
    if cut.Some? {
      var current, remains := cut.value.0, cut.value.1;
      ChunkSectionsSeparated(remains);
      PrefixHasNoOccurrence(current, ChunkEnd, remains);
      var rest := ChunkSections(remains);
      assert ChunkSections(s) == [current] + rest;
    }
  }

  /** An `i16` attribute of a tag: the text between `key` and the next `"`, parsed. */
  function Attribute(tag: string, key: string): Option<int>
  {
    var afterKey :- SplitOnce(tag, key);
    var quoted :- SplitOnce(afterKey.1, "\"");
    ParseI16(quoted.0)
  }

  /** Reading back an attribute written as decimal text gives its value. */
  lemma AttributeOfShown(before: string, key: string, v: int, after: string)
    requires I16Min <= v <= I16Max
    requires forall j :: 0 <= j < |before| ==> !OccursAt(before + key + (ShowInt(v) + "\"" + after), key, j)
    ensures Attribute(before + key + (ShowInt(v) + "\"" + after), key) == Some(v)
  {
    SplitOnceAtFirst(before, key, ShowInt(v) + "\"" + after);
    forall j | 0 <= j < |ShowInt(v)|
      ensures ShowInt(v)[j] != '"'
    {
      ShowIntChars(v, j);
    }
    SplitOnceAtChar(ShowInt(v), '"', after);
    ParseShowInt(v);
  }

  /** The decimal text of an integer holds only digits and a minus sign. */
  lemma ShowIntChars(v: int, j: int)
    requires 0 <= j < |ShowInt(v)|
    ensures IsDigit(ShowInt(v)[j]) || ShowInt(v)[j] == '-'
  {
    if v >= 0 {
      assert IsDigit(ShowNat(v)[j]);
    } else if j > 0 {
      assert ShowInt(v)[j] == ShowNat(-v)[j - 1];
    }
  }

  /** The part of `parse_chunk` before its tile loop: after `<chunk `, the tag runs to the next
      `>` and the chunk data follows; the tag's `x="…"` and `y="…"` attributes are the origin. */
  function ChunkHeader(xml: string): (r: Option<(int, int, string)>)
    ensures r.Some? ==> I16Min <= r.value.0 <= I16Max && I16Min <= r.value.1 <= I16Max
  {
    var tagOpen :- SplitOnce(xml, "<chunk ");
    var tagged :- SplitOnce(tagOpen.1, ">");
    var x :- Attribute(tagged.0, "x=\"");
    var y :- Attribute(tagged.0, "y=\"");
    Some((x, y, tagged.1))
  }

  /** The part of a written tag from its `y` attribute on: ` y="…"` and the other attributes. */
  function YAttribute(y: int, others: string): string
  {
    " " + "y=\"" + (ShowInt(y) + "\"" + others)
  }

  /** A chunk tag's attributes as a map editor writes them: `x="…" y="…"` followed by others. */
  function ShownTag(x: int, y: int, others: string): string
  {
    "x=\"" + (ShowInt(x) + "\"" + YAttribute(y, others))
  }

  /** The `x` attribute of a written tag reads back as the column written into it. */
  lemma ShownTagColumn(x: int, y: int, others: string)
    requires I16Min <= x <= I16Max
    ensures Attribute(ShownTag(x, y, others), "x=\"") == Some(x)
  {
    assert [] + "x=\"" == "x=\"";
    AttributeOfShown([], "x=\"", x, YAttribute(y, others));
  }

  /** The `y` attribute of a written tag reads back as the row written into it: nothing before
      it spells `y="`. */
  lemma ShownTagRow(x: int, y: int, others: string)
    requires I16Min <= y <= I16Max
    ensures Attribute(ShownTag(x, y, others), "y=\"") == Some(y)
  {
    var tag := ShownTag(x, y, others);
    var beforeY := "x=\"" + (ShowInt(x) + "\"") + " ";
    assert tag == beforeY + "y=\"" + (ShowInt(y) + "\"" + others);
    forall j | 0 <= j < |beforeY|
      ensures !OccursAt(tag, "y=\"", j)
    {
      assert tag[j] == beforeY[j];
      if 3 <= j < 3 + |ShowInt(x)| {
        ShowIntChars(x, j - 3);
        assert beforeY[j] == ShowInt(x)[j - 3];
      }
      NoOccurrenceAt(tag, "y=\"", j);
    }
    AttributeOfShown(beforeY, "y=\"", y, others);
  }

  /** A written tag ends at the `>` that follows it. */
  lemma ShownTagClosed(x: int, y: int, others: string)
    requires '>' !in others
    ensures '>' !in ShownTag(x, y, others)
  {
    forall j | 0 <= j < |ShowInt(x)| ensures ShowInt(x)[j] != '>' {
      ShowIntChars(x, j);
    }
    forall j | 0 <= j < |ShowInt(y)| ensures ShowInt(y)[j] != '>' {
      ShowIntChars(y, j);
    }
  }

  /** A chunk section written as `<chunk x="…" y="…" …>data`, after text free of `<chunk `,
      reads back as that origin and that data. */
  lemma ChunkHeaderOfShown(before: string, x: int, y: int, others: string, data: string)
    requires I16Min <= x <= I16Max && I16Min <= y <= I16Max
    requires '>' !in others
    requires forall j :: 0 <= j < |before| ==>
      !OccursAt(before + "<chunk " + (ShownTag(x, y, others) + ">" + data), "<chunk ", j)
    ensures ChunkHeader(before + "<chunk " + (ShownTag(x, y, others) + ">" + data)) == Some((x, y, data))
  {
    var tag := ShownTag(x, y, others);
    SplitOnceAtFirst(before, "<chunk ", tag + ">" + data);
    ShownTagClosed(x, y, others);
    SplitOnceAtChar(tag, '>', data);
    ShownTagColumn(x, y, others);
    ShownTagRow(x, y, others);
  }

  /** The tile ids of a chunk's data: the first 256 comma-separated fields, each trimmed and
      parsed as `i16`; further fields are never looked at. `None` when there are fewer than 256
      fields or one of the first 256 does not parse. */
  function TileValues(data: string): (r: Option<seq<int>>)
    ensures r.Some? ==> |r.value| == Area
  {
    var fields := Split(data, ',');
    if |fields| < Area || exists k :: 0 <= k < Area && ParseI16(Trim(fields[k])).None? then None
    else Some(seq(Area, k requires 0 <= k < Area => ParseI16(Trim(fields[k])).GetOr(0)))
  }

  /** The decimal texts of a list of tile ids. */
  function ShowAll(values: seq<int>): (r: seq<string>)
    ensures |r| == |values|
    ensures forall k :: 0 <= k < |r| ==> r[k] == ShowInt(values[k])
    decreases |values|
  {
    if |values| == 0 then [] else [ShowInt(values[0])] + ShowAll(values[1..])
  }

  /** Chunk data written as 256 decimal tile ids separated by commas, possibly followed by
      further comma-separated text, reads back as exactly those 256 ids. */
  lemma TileValuesOfCsv(values: seq<int>, extra: seq<string>)
    requires |values| == Area
    requires forall k :: 0 <= k < |values| ==> I16Min <= values[k] <= I16Max
    requires forall k :: 0 <= k < |extra| ==> ',' !in extra[k]
    ensures TileValues(Join(ShowAll(values) + extra, ',')) == Some(values)
  {
    var fields := ShowAll(values) + extra;
    SplitJoin(fields, ',');
    forall k | 0 <= k < Area
      ensures ParseI16(Trim(fields[k])) == Some(values[k])
    {
      assert fields[k] == ShowInt(values[k]);
      TrimUntrimmed(fields[k]);
      ParseShowInt(values[k]);
    }
    TileValuesOfFields(Join(fields, ','), values);
  }

  /** What one chunk section describes. */
  datatype ChunkData = ChunkData(x: int, y: int, tiles: seq<int>)

  /** The chunk `parse_chunk` builds from a section, or `None` where it panics. */
  function ChunkSpec(xml: string): (r: Option<ChunkData>)
    ensures r.Some? ==> |r.value.tiles| == Area
  {
    var header :- ChunkHeader(xml);
    var tiles :- TileValues(header.2);
    Some(ChunkData(header.0, header.1, tiles))
  }

  /** Chunk `c` holds exactly what `d` describes. */
  ghost predicate Holds(c: Chunk, d: ChunkData)
    reads c.tiles
  {
    c.x == d.x && c.y == d.y && c.tiles[..] == d.tiles
  }

  /** `parse_chunk`: read the header, then fill a fresh 256-tile buffer from the data. */
  method ParseChunk(xml: string) returns (r: Option<Chunk>)
    ensures r.Some? <==> ChunkSpec(xml).Some?
    ensures r.Some? ==> fresh(r.value.tiles) && Holds(r.value, ChunkSpec(xml).value)
  {
    var header := ChunkHeader(xml);
    if header.None? {
      return None;
    }
    var (x, y, data) := header.value;
    var tiles := ReadTiles(data);
    if tiles.None? {
      return None;
    }
    var chunk := new Chunk(x, y, tiles.value);
    return Some(chunk);
  }

  /** The tile loop of `parse_chunk`: take the comma-separated fields one at a time, trim and
      parse each as `i16`, and store it in the next cell of a fresh 256-tile buffer. */
  method ReadTiles(data: string) returns (r: Option<array<int>>)
    ensures r.Some? <==> TileValues(data).Some?
    ensures r.Some? ==> fresh(r.value) && r.value[..] == TileValues(data).value
  {
    var split := Split(data, ',');
    var tiles := new int[Area](_ => 0);
    for i := 0 to Area
      invariant ReadAs(split, tiles[..i])
    {
      if i >= |split| {
        // `split.next().unwrap()` with no field left
        TileValuesMissing(data, i);
        return None;
      }
      var item := ParseI16(Trim(split[i]));
      if item.None? {
        // `a.parse().unwrap()` on a field that is not an i16
        TileValuesMissing(data, i);
        return None;
      }
      ghost var read := tiles[..i];
      tiles[i] := item.value;
      assert tiles[..i + 1] == read + [item.value];
      ReadAsSnoc(split, read, item.value);
    }
    assert tiles[..] == tiles[..Area];
    TileValuesOfFields(data, tiles[..]);
    return Some(tiles);
  }

  /** `vals` are the values the leading fields parse to, one per field. */
  ghost predicate ReadAs(fields: seq<string>, vals: seq<int>)
  {
    |vals| <= |fields| && forall k :: 0 <= k < |vals| ==> ParseI16(Trim(fields[k])) == Some(vals[k])
  }

  lemma ReadAsSnoc(fields: seq<string>, vals: seq<int>, v: int)
    requires ReadAs(fields, vals) && |vals| < |fields| && ParseI16(Trim(fields[|vals|])) == Some(v)
    ensures ReadAs(fields, vals + [v])
  {
  }

  /** The loop of `parse_chunk` stops early exactly where TileValues has no value. */
  lemma TileValuesMissing(data: string, i: nat)
    requires i < Area
    requires i >= |Split(data, ',')| || ParseI16(Trim(Split(data, ',')[i])).None?
    ensures TileValues(data).None?
  {
  }

  /** Values read from the first 256 fields one at a time are TileValues' values. */
  lemma TileValuesOfFields(data: string, values: seq<int>)
    requires |values| == Area && ReadAs(Split(data, ','), values)
    ensures TileValues(data) == Some(values)
  {
    var fields := Split(data, ',');
    assert !exists k :: 0 <= k < Area && ParseI16(Trim(fields[k])).None?;
    assert TileValues(data).value == values;
  }

  /** The chunks a layer's text describes, section by section; `None` when any section
      does not parse. */
  function LayerChunks(text: string): (r: Option<seq<ChunkData>>)
    ensures r.Some? ==> |r.value| == |ChunkSections(text)|
  {
    var sections := ChunkSections(text);
    if exists k :: 0 <= k < |sections| && ChunkSpec(sections[k]).None? then None
    else Some(seq(|sections|, k requires 0 <= k < |sections| => ChunkSpec(sections[k]).value))
  }

  /** Each chunk holds what the matching description says. */
  ghost predicate HoldAll(cs: seq<Chunk>, ds: seq<ChunkData>)
    reads Buffers(cs)
  {
    |cs| == |ds| && forall k :: 0 <= k < |cs| ==> Holds(cs[k], ds[k])
  }

  /** A section that does not parse makes the whole layer fail. */
  lemma LayerChunksNone(layer: string, k: nat)
    requires k < |ChunkSections(layer)| && ChunkSpec(ChunkSections(layer)[k]).None?
    ensures LayerChunks(layer).None?
  {
  }

  /** `specs` are what the sections describe, one per section. */
  ghost predicate Describes(sections: seq<string>, specs: seq<ChunkData>)
  {
    |sections| == |specs| && forall k :: 0 <= k < |specs| ==> ChunkSpec(sections[k]) == Some(specs[k])
  }

  lemma DescribesSnoc(sections: seq<string>, specs: seq<ChunkData>, section: string)
    requires Describes(sections, specs) && ChunkSpec(section).Some?
    ensures Describes(sections + [section], specs + [ChunkSpec(section).value])
  {
  }

  /** When every section parses, the layer's chunks are the sections' chunks, in order. */
  lemma LayerChunksSome(layer: string, specs: seq<ChunkData>)
    requires Describes(ChunkSections(layer), specs)
    ensures LayerChunks(layer) == Some(specs)
  {
    var sections := ChunkSections(layer);
    assert !exists k :: 0 <= k < |sections| && ChunkSpec(sections[k]).None?;
    assert LayerChunks(layer).value == specs;
  }

  lemma HoldAllSnoc(cs: seq<Chunk>, ds: seq<ChunkData>, c: Chunk, d: ChunkData)
    requires HoldAll(cs, ds) && Holds(c, d)
    ensures HoldAll(cs + [c], ds + [d])
  {
  }

  lemma WellFormedSnoc(cs: seq<Chunk>, c: Chunk)
    requires WellFormed(cs) && c.tiles.Length == Area && c.tiles !in Buffers(cs)
    ensures WellFormed(cs + [c])
  {
    forall k | 0 <= k < |cs|
      ensures cs[k].tiles != c.tiles
    {
      assert cs[k].tiles in Buffers(cs);
    }
  }

  /** One turn of `get_all_chunks`' loop: when `done` are the sections already taken from
      `layer` and `xml` is what is left, the next cut takes the next section. */
  lemma ChunkSectionsStep(layer: string, done: seq<string>, xml: string)
    requires ChunkSections(layer) == done + ChunkSections(xml)
    requires SplitOnce(xml, ChunkEnd).Some?
    ensures ChunkSections(layer) == (done + [SplitOnce(xml, ChunkEnd).value.0]) + ChunkSections(SplitOnce(xml, ChunkEnd).value.1)
    ensures |done| < |ChunkSections(layer)| && ChunkSections(layer)[|done|] == SplitOnce(xml, ChunkEnd).value.0
  {
    var cut := SplitOnce(xml, ChunkEnd).value;
    var rest := ChunkSections(cut.1);
    assert ChunkSections(xml) == [cut.0] + rest;
    assert done + ([cut.0] + rest) == (done + [cut.0]) + rest;
    assert (done + [cut.0] + rest)[|done|] == cut.0;
  }

  /** `get_all_chunks`: repeatedly cut the layer text at the next `</chunk>` and parse the
      piece before it, until no `</chunk>` is left. */
  method GetAllChunks(layer: string, ghost taken: set<array<int>>) returns (r: Option<seq<Chunk>>)
    ensures r.Some? <==> LayerChunks(layer).Some?
    ensures r.Some? ==> HoldAll(r.value, LayerChunks(layer).value) && WellFormed(r.value)
    ensures r.Some? ==> Buffers(r.value) !! taken
  {
    var chunks: seq<Chunk> := [];
    var xml := layer;
    ghost var done: seq<string> := [];
    ghost var specs: seq<ChunkData> := [];
    while SplitOnce(xml, ChunkEnd).Some?
      invariant ChunkSections(layer) == done + ChunkSections(xml)
      invariant Describes(done, specs)
      invariant HoldAll(chunks, specs) && WellFormed(chunks)
      invariant Buffers(chunks) !! taken
      decreases |xml|
    {
      var (current, remains) := SplitOnce(xml, ChunkEnd).value;
      ChunkSectionsStep(layer, done, xml);
      var c := ParseChunk(current);
      if c.None? {
        LayerChunksNone(layer, |done|);
        return None;
      }
      HoldAllSnoc(chunks, specs, c.value, ChunkSpec(current).value);
      WellFormedSnoc(chunks, c.value);
      BuffersSnoc(chunks, c.value);
      DescribesSnoc(done, specs, current);
      chunks := chunks + [c.value];
      done := done + [current];
      specs := specs + [ChunkSpec(current).value];
      xml := remains;
    }
    assert ChunkSections(xml) == [];
    assert done + [] == done;
    LayerChunksSome(layer, specs);
    return Some(chunks);
  }

  /** The chunks of the layer named `name` in the document, or `None` where reading it panics. */
  function DocumentLayer(doc: string, name: string): Option<seq<ChunkData>>
  {
    var text :- GetLayer(doc, name);
    LayerChunks(text)
  }

  /** Two chunk lists share no buffer. */
  lemma WellFormedJoin(a: seq<Chunk>, b: seq<Chunk>)
    requires WellFormed(a) && WellFormed(b) && Buffers(a) !! Buffers(b)
    ensures WellFormed(a + b)
  {
    var ab := a + b;
    forall j, k | 0 <= j < |a| && |a| <= k < |ab|
      ensures ab[j].tiles != ab[k].tiles
    {
      assert ab[j].tiles in Buffers(a) && ab[k].tiles in Buffers(b);
    }
  }

  lemma BuffersSnoc(cs: seq<Chunk>, c: Chunk)
    ensures Buffers(cs + [c]) == Buffers(cs) + {c.tiles}
  {
  }

  lemma BuffersJoin(a: seq<Chunk>, b: seq<Chunk>)
    ensures Buffers(a + b) == Buffers(a) + Buffers(b)
  {
  }

  /** The four layers, read one after the other into fresh buffers, form one well-formed list. */
  lemma WellFormedLayers(c: seq<Chunk>, d: seq<Chunk>, b: seq<Chunk>, i: seq<Chunk>)
    requires WellFormed(c) && WellFormed(d) && WellFormed(b) && WellFormed(i)
    requires Buffers(d) !! Buffers(c)
    requires Buffers(b) !! Buffers(c) + Buffers(d)
    requires Buffers(i) !! Buffers(c) + Buffers(d) + Buffers(b)
    ensures WellFormed(c + d + b + i)
  {
    WellFormedJoin(c, d);
    BuffersJoin(c, d);
    WellFormedJoin(c + d, b);
    BuffersJoin(c + d, b);
    WellFormedJoin(c + d + b, i);
  }

  /** `get_all_chunks(get_layer(xml, name))`: one layer of the document, cut out and read.
      Its buffers are new, so none of them is among the buffers `taken` before. */
  method LoadLayer(doc: string, name: string, ghost taken: set<array<int>>) returns (r: Option<seq<Chunk>>)
    ensures r.Some? <==> DocumentLayer(doc, name).Some?
    ensures r.Some? ==> HoldAll(r.value, DocumentLayer(doc, name).value) && WellFormed(r.value)
    ensures r.Some? ==> Buffers(r.value) !! taken
  {
    var text := GetLayer(doc, name);
    if text.None? {
      return None;
    }
    r := GetAllChunks(text.value, taken);
  }

  /** Every layer of the document can be read. */
  ghost predicate Loadable(doc: string)
  {
    DocumentLayer(doc, "Collision").Some? && DocumentLayer(doc, "Detail").Some? &&
    DocumentLayer(doc, "Background").Some? && DocumentLayer(doc, "Interactable").Some?
  }

  /** The world's chunk lists hold what the document's layers describe, layer by layer. */
  ghost predicate LoadedFrom(w: World, doc: string)
    requires Loadable(doc)
    reads w, Buffers(w.collision), Buffers(w.details), Buffers(w.background), Buffers(w.interactable)
  {
    HoldAll(w.collision, DocumentLayer(doc, "Collision").value) &&
    HoldAll(w.details, DocumentLayer(doc, "Detail").value) &&
    HoldAll(w.background, DocumentLayer(doc, "Background").value) &&
    HoldAll(w.interactable, DocumentLayer(doc, "Interactable").value)
  }

  /** `World::default` on the text of a map document: cut out the layers named "Collision",
      "Detail", "Interactable" and "Background", cut each into chunks, and derive the bounds.
      `None` where the source panics on a missing layer or a malformed chunk. */
  method LoadWorld(doc: string) returns (r: Option<World>)
    ensures r.Some? <==> Loadable(doc)
    ensures r.Some? ==> fresh(r.value) && r.value.Valid() && LoadedFrom(r.value, doc)
  {
    var collision := LoadLayer(doc, "Collision", {});
    if collision.None? {
      return None;
    }
    var c := collision.value;
    var details := LoadLayer(doc, "Detail", Buffers(c));
    if details.None? {
      return None;
    }
    var d := details.value;
    var background := LoadLayer(doc, "Background", Buffers(c) + Buffers(d));
    if background.None? {
      return None;
    }
    var b := background.value;
    var interactable := LoadLayer(doc, "Interactable", Buffers(c) + Buffers(d) + Buffers(b));
    if interactable.None? {
      return None;
    }
    var i := interactable.value;
    WellFormedLayers(c, d, b, i);
    var world := new World(c, d, b, i);
    return Some(world);
  }
}
