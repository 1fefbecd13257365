/**
 * `flush_chunk`: the three artefacts one chunk of the crawl produces, as
 * (file name, content) pairs instead of files written under `out_dir`.
 */
module FedoraChunks {
  import opened Wrappers
  import opened Strings

  datatype File = File(name: string, content: string)

  /**
   * `PREFIX_BLOCK`: `textwrap.dedent` of a block whose lines all carry the same
   * four-space margin, so each line loses it; the block starts and ends with a newline.
   */
  const PrefixBlock: string :=
    "\nPREFIX crm: <http://www.cidoc-crm.org/cidoc-crm/>"
    + "\nPREFIX dig: <http://www.cidoc-crm.org/cidoc-crm-dig/>"
    + "\nPREFIX rdf: <http://www.w3.org/1999/02/22-rdf-syntax-ns#>"
    + "\nPREFIX rdfs: <http://www.w3.org/2000/01/rdf-schema#>"
    + "\nPREFIX skos: <http://www.w3.org/2004/02/skos/core#>"
    + "\nPREFIX ex:  <http://www.researchspace.org/ontology/>"
    + "\nPREFIX prov: <http://www.w3.org/ns/prov#>"
    + "\nPREFIX ldp: <http://www.w3.org/ns/ldp#>\n"

  /** `' ' * 12`, the indentation of the graph's lines. */
  const LineIndent: string := "            "

  /** `textwrap.indent` line by line: a line with something besides whitespace gets the prefix. */
  function IndentLines(lines: seq<string>, prefix: string): (r: seq<string>)
    ensures |r| == |lines|
    ensures forall k :: 0 <= k < |lines| ==>
      r[k] == if Strip(lines[k], Whitespace) != [] then prefix + lines[k] else lines[k]
  {
    if lines == [] then [] else
      var l := lines[0];
      [if Strip(l, Whitespace) != [] then prefix + l else l] + IndentLines(lines[1..], prefix)
  }

  /** `textwrap.indent(text, prefix)`, with `\n` as the only line break. */
  function Indent(text: string, prefix: string): string
  {
    Join("\n", IndentLines(Split(text, "\n"), prefix))
  }

  /** The opening of the `INSERT DATA` command, after the prefix block. */
  function InsertHeader(graphUri: string): string
  {
    "\n        INSERT DATA { \n            GRAPH <" + graphUri + "> {\n        "
  }

  /** The closing of the command; `dedent` empties the trailing line of spaces. */
  const InsertFooter: string := "\n            }\n        };\n"

  /** The content of `insert-NNN.rq`. */
  function InsertQuery(trig: string, graphUri: string): string
  {
    PrefixBlock + InsertHeader(graphUri) + Indent(trig, LineIndent) + InsertFooter
  }

  /** `f"{name}-{idx:03d}.{ext}"` */
  function ChunkFileName(name: string, idx: nat, ext: string): string
  {
    name + "-" + ZeroPad(idx, 3) + "." + ext
  }

  /** `flush_chunk`: nothing when there are no target lines, otherwise the source, dataset and insert files. */
  function FlushChunk(srcBlocks: seq<string>, tgtLines: seq<string>, idx: nat, graphUri: string): (r: seq<File>)
    ensures r == [] <==> tgtLines == []
    ensures r != [] ==> (|r| == 3
      && r[0] == File(ChunkFileName("source", idx, "ttl"), Join("\n\n", srcBlocks))
      && r[1] == File(ChunkFileName("dataset", idx, "trig"), Join("\n", tgtLines))
      && r[2] == File(ChunkFileName("insert", idx, "rq"), InsertQuery(Join("\n", tgtLines), graphUri)))
  {
    if tgtLines == [] then []
    else
      var trig := Join("\n", tgtLines);
      [ File(ChunkFileName("source", idx, "ttl"), Join("\n\n", srcBlocks)),
        File(ChunkFileName("dataset", idx, "trig"), trig),
        File(ChunkFileName("insert", idx, "rq"), InsertQuery(trig, graphUri)) ]
  }

  /** The index of a chunk below 1000 is written with exactly three digits. */
  lemma ChunkIndexWidth(idx: nat)
    requires idx < 1000
    ensures |ZeroPad(idx, 3)| == 3
  {
    var m := idx / 10;
    if idx >= 10 {
      assert |DecimalDigits(idx)| == |DecimalDigits(m)| + 1;
      if m >= 10 {
        assert |DecimalDigits(m)| == |DecimalDigits(m / 10)| + 1;
      }
    }
  }

  /** The digits between the dash and the extension identify the chunk index. */
  lemma ChunkFileNameInjective(name: string, i: nat, j: nat, ext: string)
    requires ChunkFileName(name, i, ext) == ChunkFileName(name, j, ext)
    ensures i == j
  {
    var a, b := ZeroPad(i, 3), ZeroPad(j, 3);
    var n := |name| + 1;
    assert |a| == |b|;
    assert a == ChunkFileName(name, i, ext)[n..n + |a|];
    assert b == ChunkFileName(name, j, ext)[n..n + |b|];
    ZeroPadInjective(i, j, 3);
  }

  /** The names of the three artefacts of chunk `idx`. */
  function ChunkNames(idx: nat): seq<string>
  {
    [ChunkFileName("source", idx, "ttl"), ChunkFileName("dataset", idx, "trig"), ChunkFileName("insert", idx, "rq")]
  }

  /** Different chunk indices give disjoint sets of names. */
  lemma ChunkNamesDisjoint(i: nat, j: nat)
    requires i != j
    ensures forall a, b :: a in ChunkNames(i) && b in ChunkNames(j) ==> a != b
  {
    forall a, b | a in ChunkNames(i) && b in ChunkNames(j)
      ensures a != b
    {
      if a == b {
        // The first letters tell the three kinds apart, so equal names have the same kind.
        if a[0] == 's' {
          ChunkFileNameInjective("source", i, j, "ttl");
        } else if a[0] == 'd' {
          ChunkFileNameInjective("dataset", i, j, "trig");
        } else {
          ChunkFileNameInjective("insert", i, j, "rq");
        }
      }
    }
  }

  /** The dataset file reads back, line by line, as the target lines when none of them holds a newline. */
  lemma DatasetLinesRoundTrip(src: seq<string>, tgt: seq<string>, idx: nat, g: string)
    requires tgt != [] && forall k :: 0 <= k < |tgt| ==> '\n' !in tgt[k]
    ensures Split(FlushChunk(src, tgt, idx, g)[1].content, "\n") == tgt
  {
    SplitJoin(tgt, "\n");
  }

  /**
   * Indenting lines joined by newlines indents each of them, when none is blank or
   * holds a newline: inside `INSERT DATA { GRAPH <g> { ... } }` the target lines
   * appear in order, each behind twelve spaces.
   */
  lemma IndentJoined(lines: seq<string>, prefix: string)
    requires lines != []
    requires forall k :: 0 <= k < |lines| ==> '\n' !in lines[k] && Strip(lines[k], Whitespace) != []
    ensures Indent(Join("\n", lines), prefix) == Join("\n", IndentLines(lines, prefix))
    ensures forall k :: 0 <= k < |lines| ==> IndentLines(lines, prefix)[k] == prefix + lines[k]
  {
    SplitJoin(lines, "\n");
  }
}
