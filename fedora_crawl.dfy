/**
 * `crawl`: a breadth-first walk of the Fedora containment tree that fetches
 * each resource, transforms its triples and flushes buffers chunk by chunk.
 *
 * `Step` and `Run` specify one turn of the loop and the whole loop over an
 * explicit state; the method `Crawl` runs the loop as the source does, on
 * local variables, and is proved to agree with `Run`.  The loop need not
 * terminate (with `max_res == 0` a cycle of `ldp:contains` links never ends),
 * so both take a bound `fuel` on the number of turns.  A call of `flush_chunk`
 * is recorded as the arguments it was given; `Output` turns the records into
 * the files written.
 */
module FedoraCrawl {
  import opened Wrappers
  import opened Strings
  import opened FedoraRules
  import opened FedoraFetch
  import opened FedoraChunks

  /** `CONTAINS_PRED` */
  const ContainsPredicate: string := "http://www.w3.org/ns/ldp#contains"

  /** The suffix that marks the metadata of a binary resource. */
  const BinarySuffix: string := "/fcr:metadata"

  /** The arguments of `crawl` that stay fixed. */
  datatype Config = Config(base: string, root: string, rules: seq<Rule>, chunk: int, maxRes: int, graphUri: string)

  /** One call of `flush_chunk(src_buf, tgt_buf, out, chunk_idx, graph_uri)`. */
  datatype FlushCall = FlushCall(srcBlocks: seq<string>, tgtLines: seq<string>, idx: nat)

  /** The local variables of `crawl`, and the flushes made so far. */
  datatype CrawlState = CrawlState(
    queue: seq<string>,
    processed: nat,
    chunkIdx: nat,
    srcBuf: seq<string>,
    tgtBuf: seq<string>,
    fileUrls: seq<string>,
    flushes: seq<FlushCall>)

  /** The exceptions that escape `crawl`: one from `apply_rules`, or `processed % 0`. */
  datatype CrawlError = RuleFailed(cause: RuleError) | ZeroChunkSize

  /**
   * What one turn consults: the fetch of a URI (`fetch_rdf`) and the transformation of
   * a graph's triples (`apply_rules` with the loaded rules).
   */
  datatype Env = Env(
    fetch: string -> Result<Fetched, FetchError>,
    transform: seq<Triple> -> Result<seq<string>, RuleError>)

  /** The environment of the crawler: `fetch_rdf` against the server, `apply_rules` with the configured rules. */
  function Pipeline(cfg: Config, server: Server): Env
  {
    Env(uri => FetchRdf(uri, server), Transformer(cfg))
  }

  /** `apply_rules` with the configured rules. */
  function Transformer(cfg: Config): seq<Triple> -> Result<seq<string>, RuleError>
  {
    triples => TransformGraph(triples, cfg.rules)
  }

  datatype StepResult = Next(state: CrawlState) | Abort(error: CrawlError, state: CrawlState)

  /** How the crawl ends: normally (after the final flush), by an exception, or with its turns used up. */
  datatype Outcome =
    | Finished(state: CrawlState)
    | Aborted(error: CrawlError, state: CrawlState)
    | OutOfFuel(state: CrawlState)

  /** `f"{base.rstrip('/')}/{root.lstrip('/')}"` */
  function SeedUri(base: string, root: string): string
  {
    RStrip(base, {'/'}) + "/" + LStrip(root, {'/'})
  }

  /** The seed joins base and root with exactly one slash. */
  lemma SeedUriSingleSlash(base: string, root: string)
    ensures var b := RStrip(base, {'/'});
      var u := SeedUri(base, root);
      |u| > |b| && u[|b|] == '/'
      && (|b| > 0 ==> u[|b| - 1] != '/')
      && (|u| > |b| + 1 ==> u[|b| + 1] != '/')
      && u[..|b|] == b && base == b + base[|b|..]
      && (forall i :: |b| <= i < |base| ==> base[i] == '/')
  {
    var b := RStrip(base, {'/'});
    assert base == b + base[|b|..];
  }

  /** The queue at the start: the seed alone. */
  function Init(cfg: Config): CrawlState
  {
    CrawlState([SeedUri(cfg.base, cfg.root)], 0, 1, [], [], [], [])
  }

  /** `str(child)` for every `ldp:contains` triple, in iteration order. */
  function Children(triples: seq<Triple>): (r: seq<string>)
    ensures |r| <= |triples|
    ensures forall c :: c in r ==> exists t :: t in triples && t.p.str == ContainsPredicate && t.o.str == c
    decreases |triples|
  {
    if triples == [] then []
    else
      var t := triples[|triples| - 1];
      Children(triples[..|triples| - 1]) + (if t.p.str == ContainsPredicate then [t.o.str] else [])
  }

  /** Every `ldp:contains` triple contributes its object. */
  lemma {:induction false} ChildrenComplete(triples: seq<Triple>, t: Triple)
    requires t in triples && t.p.str == ContainsPredicate
    ensures t.o.str in Children(triples)
    decreases |triples|
  {
    var last := triples[|triples| - 1];
    if t != last {
      assert t in triples[..|triples| - 1];
      ChildrenComplete(triples[..|triples| - 1], t);
    }
  }

  /** `f"# Source 👉 {uri} ({len(g_src)} triples)"` */
  function SourceHeader(uri: string, count: nat): string
  {
    "# Source \U{1F449} " + uri + " (" + DecimalDigits(count) + " triples)"
  }

  /** The loop condition. */
  predicate Continues(cfg: Config, st: CrawlState)
  {
    st.queue != [] && (cfg.maxRes == 0 || st.processed < cfg.maxRes)
  }

  /** `flush_chunk` at a chunk boundary, then both buffers cleared and the index advanced. */
  function Flush(st: CrawlState): CrawlState
  {
    st.(flushes := st.flushes + [FlushCall(st.srcBuf, st.tgtBuf, st.chunkIdx)],
        srcBuf := [], tgtBuf := [], chunkIdx := st.chunkIdx + 1)
  }

  /** The rest of a turn after `uri` was fetched as `f`. */
  function Process(cfg: Config, env: Env, st: CrawlState, uri: string, f: Fetched): StepResult
  {
    var g := f.graph;
    var st1 := st.(queue := st.queue + Children(g.triples),
                   srcBuf := st.srcBuf + [SourceHeader(uri, |g.triples|), g.turtle]);
    match env.transform(g.triples)
    case Failure(e) => Abort(RuleFailed(e), st1)
    case Success(lines) => Record(cfg, st1, lines, f.effectiveUri)
  }

  /** The rest of a turn once the rules gave `lines`: buffer them, count the resource, note a binary, flush every `chunk` resources. */
  function Record(cfg: Config, st: CrawlState, lines: seq<string>, effectiveUri: string): StepResult
  {
    var urls := if EndsWith(effectiveUri, BinarySuffix)
      then st.fileUrls + [RSplitOnceHead(effectiveUri, BinarySuffix)] else st.fileUrls;
    var st2 := st.(tgtBuf := st.tgtBuf + lines, processed := st.processed + 1, fileUrls := urls);
    if cfg.chunk == 0 then Abort(ZeroChunkSize, st2)
    else if st2.processed % cfg.chunk == 0 then Next(Flush(st2))
    else Next(st2)
  }

  /** One turn of the loop: pop the oldest URI; a failed fetch is skipped. */
  function Step(cfg: Config, env: Env, st: CrawlState): StepResult
    requires st.queue != []
  {
    var uri := st.queue[0];
    var popped := st.(queue := st.queue[1..]);
    match env.fetch(uri)
    case Failure(_) => Next(popped)
    case Success(f) => Process(cfg, env, popped, uri, f)
  }

  /** After the loop: the final `flush_chunk`. */
  function Finish(st: CrawlState): CrawlState
  {
    st.(flushes := st.flushes + [FlushCall(st.srcBuf, st.tgtBuf, st.chunkIdx)])
  }

  /** The loop, for at most `fuel` turns. */
  function Run(cfg: Config, env: Env, st: CrawlState, fuel: nat): Outcome
    decreases fuel
  {
    if !Continues(cfg, st) then Finished(Finish(st))
    else if fuel == 0 then OutOfFuel(st)
    else
      match Step(cfg, env, st)
      case Abort(e, s) => Aborted(e, s)
      case Next(s) => Run(cfg, env, s, fuel - 1)
  }

  /** The files of the recorded flushes, in order. */
  function FlushedFiles(calls: seq<FlushCall>, graphUri: string): seq<File>
    decreases |calls|
  {
    if calls == [] then []
    else
      var c := calls[|calls| - 1];
      FlushedFiles(calls[..|calls| - 1], graphUri) + FlushChunk(c.srcBlocks, c.tgtLines, c.idx, graphUri)
  }

  /** Everything the crawl writes: the chunk files, and `files.txt` when binaries were seen and the crawl ended normally. */
  function Output(cfg: Config, outcome: Outcome): seq<File>
  {
    var chunks := FlushedFiles(outcome.state.flushes, cfg.graphUri);
    if outcome.Finished? && outcome.state.fileUrls != []
    then chunks + [File("files.txt", Join("\n", outcome.state.fileUrls))]
    else chunks
  }

  /** A failed fetch only removes the URI from the queue: no count, no child, no buffer change. */
  lemma StepSkipsFailedFetch(cfg: Config, env: Env, st: CrawlState)
    requires st.queue != [] && env.fetch(st.queue[0]).Failure?
    ensures Step(cfg, env, st) == Next(st.(queue := st.queue[1..]))
  {
  }

  /**
   * A fetched resource leaves the queue at the front and its children join at the back
   * (FIFO), two blocks join the source buffer, and -- unless the rules fail -- the count
   * grows by one and exactly one file URL is recorded when the effective URI ends with
   * `/fcr:metadata`: that URI without the suffix.
   */
  lemma StepFetched(cfg: Config, env: Env, st: CrawlState)
    requires st.queue != [] && env.fetch(st.queue[0]).Success?
    ensures var f := env.fetch(st.queue[0]).value;
      var s := Step(cfg, env, st).state;
      s.queue == st.queue[1..] + Children(f.graph.triples)
      && (Step(cfg, env, st).Abort? <==> env.transform(f.graph.triples).Failure? || cfg.chunk == 0)
      && (env.transform(f.graph.triples).Success? ==>
            s.processed == st.processed + 1
            && (EndsWith(f.effectiveUri, BinarySuffix) ==>
                  |s.fileUrls| == |st.fileUrls| + 1 && s.fileUrls[..|st.fileUrls|] == st.fileUrls
                  && s.fileUrls[|st.fileUrls|] + BinarySuffix == f.effectiveUri)
            && (!EndsWith(f.effectiveUri, BinarySuffix) ==> s.fileUrls == st.fileUrls))
  {
    var f := env.fetch(st.queue[0]).value;
    if EndsWith(f.effectiveUri, BinarySuffix) {
      RSplitOnceHeadOfSuffix(f.effectiveUri, BinarySuffix);
    }
  }

  /**
   * At a chunk boundary (`processed % chunk == 0` after the count), `flush_chunk` is
   * called with the buffers including this resource and the current index; then both
   * buffers are empty and the index has grown by exactly one.  Otherwise the buffers
   * keep growing and nothing is flushed.
   */
  lemma StepBoundary(cfg: Config, env: Env, st: CrawlState)
    requires st.queue != [] && cfg.chunk != 0
    requires env.fetch(st.queue[0]).Success?
    requires env.transform(env.fetch(st.queue[0]).value.graph.triples).Success?
    ensures var f := env.fetch(st.queue[0]).value;
      var lines := env.transform(f.graph.triples).value;
      var src := st.srcBuf + [SourceHeader(st.queue[0], |f.graph.triples|), f.graph.turtle];
      var s := Step(cfg, env, st);
      s.Next?
      && ((st.processed + 1) % cfg.chunk == 0 ==>
            s.state.flushes == st.flushes + [FlushCall(src, st.tgtBuf + lines, st.chunkIdx)]
            && s.state.srcBuf == [] && s.state.tgtBuf == [] && s.state.chunkIdx == st.chunkIdx + 1)
      && ((st.processed + 1) % cfg.chunk != 0 ==>
            s.state.flushes == st.flushes && s.state.srcBuf == src
            && s.state.tgtBuf == st.tgtBuf + lines && s.state.chunkIdx == st.chunkIdx)
  {
  }

  function Abs(x: int): nat
  {
    if x < 0 then -x else x
  }

  /** A positive multiple of `b` is at least `b`. */
  lemma MulAtLeast(b: int, k: int)
    requires b > 0 && k >= 1
    ensures b * k >= b
  {
    var i := 1;
    while i < k
      invariant 1 <= i <= k && b * i >= b
    {
      i := i + 1;
    }
  }

  /** Euclidean division has one quotient and one remainder. */
  lemma DivUnique(a: int, b: int, q: int, r: int)
    requires b > 0 && 0 <= r < b && a == b * q + r
    ensures a / b == q && a % b == r
  {
    var q0, r0 := a / b, a % b;
    assert b * (q0 - q) == r - r0;
    if q0 - q >= 1 {
      MulAtLeast(b, q0 - q);
    }
    if q - q0 >= 1 {
      MulAtLeast(b, q - q0);
    }
  }

  /** Python's and Dafny's `%` agree on divisibility, and a negative divisor divides like its absolute value. */
  lemma ModAbs(a: nat, c: int)
    requires c != 0
    ensures a % c == a % Abs(c)
  {
    if c < 0 {
      DivUnique(a, -c, -(a / c), a % c);
    }
  }

  /** Counting one more resource either completes a chunk or extends the partial one. */
  lemma CountStep(p: nat, c: nat)
    requires c > 0
    ensures (p + 1) % c == 0 ==> (p + 1) / c == p / c + 1 && p % c == c - 1
    ensures (p + 1) % c != 0 ==> (p + 1) / c == p / c && (p + 1) % c == p % c + 1
  {
    var q, r := p / c, p % c;
    if r + 1 == c {
      DivUnique(p + 1, c, q + 1, 0);
    } else {
      DivUnique(p + 1, c, q, r + 1);
    }
  }

  /**
   * What holds at the top of every turn: the chunk index is one more than the number of
   * completed chunks and one more than the number of flushes, flushes were numbered
   * 1, 2, 3, ..., the source buffer holds two blocks per resource of the open chunk, the
   * cap has not been passed, and there is at most one file URL per resource.
   */
  predicate Inv(cfg: Config, st: CrawlState)
  {
    st.chunkIdx == |st.flushes| + 1
    && (forall k :: 0 <= k < |st.flushes| ==> st.flushes[k].idx == k + 1)
    && (cfg.chunk == 0 ==> st.processed == 0 && st.srcBuf == [] && st.tgtBuf == [])
    && (cfg.chunk != 0 ==> st.chunkIdx == 1 + st.processed / Abs(cfg.chunk)
                           && |st.srcBuf| == 2 * (st.processed % Abs(cfg.chunk))
                           && forall k :: 0 <= k < |st.flushes| ==> |st.flushes[k].srcBlocks| == 2 * Abs(cfg.chunk))
    && (cfg.maxRes > 0 ==> st.processed <= cfg.maxRes)
    && (cfg.maxRes < 0 ==> st.processed == 0)
    && |st.fileUrls| <= st.processed
  }

  lemma InitInv(cfg: Config)
    ensures Inv(cfg, Init(cfg))
  {
  }

  /** A turn that continues keeps the invariant. */
  lemma StepInv(cfg: Config, env: Env, st: CrawlState)
    requires Inv(cfg, st) && Continues(cfg, st) && Step(cfg, env, st).Next?
    ensures Inv(cfg, Step(cfg, env, st).state)
  {
    var s := Step(cfg, env, st).state;
    if env.fetch(st.queue[0]).Success? {
      StepFetched(cfg, env, st);
      StepBoundary(cfg, env, st);
      ChunkArith(st.processed, cfg.chunk, st.chunkIdx, |st.srcBuf|);
      if (st.processed + 1) % cfg.chunk == 0 {
        assert s.flushes[|st.flushes|].idx == st.chunkIdx;
        assert |s.flushes[|st.flushes|].srcBlocks| == |st.srcBuf| + 2;
      }
    }
  }

  /** The chunk index and the source buffer's length follow the count across a boundary and between boundaries. */
  lemma ChunkArith(p: nat, chunk: int, idx: int, srcLen: int)
    requires chunk != 0 && idx == 1 + p / Abs(chunk) && srcLen == 2 * (p % Abs(chunk))
    ensures (p + 1) % chunk == 0 ==>
      idx + 1 == 1 + (p + 1) / Abs(chunk) && 0 == 2 * ((p + 1) % Abs(chunk)) && srcLen + 2 == 2 * Abs(chunk)
    ensures (p + 1) % chunk != 0 ==> idx == 1 + (p + 1) / Abs(chunk) && srcLen + 2 == 2 * ((p + 1) % Abs(chunk))
  {
    ModAbs(p + 1, chunk);
    CountStep(p, Abs(chunk));
  }

  /** What holds after a normal end: the loop condition failed and the final flush used the last index. */
  predicate FinalInv(cfg: Config, st: CrawlState)
  {
    |st.flushes| == st.chunkIdx >= 1
    && (forall k :: 0 <= k < |st.flushes| ==> st.flushes[k].idx == k + 1)
    && (cfg.chunk != 0 ==> st.chunkIdx == 1 + st.processed / Abs(cfg.chunk)
                           && (forall k :: 0 <= k < |st.flushes| - 1 ==> |st.flushes[k].srcBlocks| == 2 * Abs(cfg.chunk))
                           && |st.flushes[|st.flushes| - 1].srcBlocks| == 2 * (st.processed % Abs(cfg.chunk)))
    && (cfg.maxRes > 0 ==> st.processed <= cfg.maxRes)
    && (cfg.maxRes < 0 ==> st.processed == 0)
    && (st.queue == [] || (cfg.maxRes != 0 && st.processed >= cfg.maxRes))
    && |st.fileUrls| <= st.processed
  }

  /**
   * However the loop ends, the chunk files were flushed with the indices 1, 2, 3, ...
   * in turn; a normal end also satisfies `FinalInv`: the cap was respected, and the
   * number of flushes is one more than the number of completed chunks.
   */
  lemma {:induction false} RunInv(cfg: Config, env: Env, st: CrawlState, fuel: nat)
    requires Inv(cfg, st)
    ensures var o := Run(cfg, env, st, fuel);
      (o.Finished? ==> FinalInv(cfg, o.state))
      && (forall k :: 0 <= k < |o.state.flushes| ==> o.state.flushes[k].idx == k + 1)
    decreases fuel
  {
    if Continues(cfg, st) && fuel > 0 {
      var r := Step(cfg, env, st);
      if r.Next? {
        StepInv(cfg, env, st);
        RunInv(cfg, env, r.state, fuel - 1);
      } else {
        assert r.state.flushes == st.flushes;
      }
    }
  }

  /**
   * With chunks of two, a crawl that ends normally after five resources flushes
   * chunks 1, 2 and 3, holding two, two and one resources: each resource adds
   * a header and its Turtle text to the source buffer.
   */
  lemma FiveResourcesThreeChunks(cfg: Config, env: Env, fuel: nat)
    requires cfg.chunk == 2
    requires Run(cfg, env, Init(cfg), fuel).Finished? && Run(cfg, env, Init(cfg), fuel).state.processed == 5
    ensures var fl := Run(cfg, env, Init(cfg), fuel).state.flushes;
      |fl| == 3 && fl[0].idx == 1 && fl[1].idx == 2 && fl[2].idx == 3
      && |fl[0].srcBlocks| == 4 && |fl[1].srcBlocks| == 4 && |fl[2].srcBlocks| == 2
  {
    var o := Run(cfg, env, Init(cfg), fuel);
    InitInv(cfg);
    RunInv(cfg, env, Init(cfg), fuel);
    assert FinalInv(cfg, o.state);
    assert o.state.chunkIdx == 1 + 5 / 2 == 3;
  }

  /** `files.txt` is written exactly when the crawl ended normally with file URLs, as their `\n`-join. */
  lemma OutputFileList(cfg: Config, outcome: Outcome)
    ensures var out := Output(cfg, outcome);
      (outcome.Finished? && outcome.state.fileUrls != []) <==>
        (|out| > 0 && out[|out| - 1] == File("files.txt", Join("\n", outcome.state.fileUrls)))
  {
    var chunks := FlushedFiles(outcome.state.flushes, cfg.graphUri);
    FlushedFilesNames(outcome.state.flushes, cfg.graphUri);
    if chunks != [] {
      ChunkNameNotFileList(chunks[|chunks| - 1].name);
    }
  }

  /** Every chunk file carries a `-NNN.` part in its name. */
  lemma {:induction false} FlushedFilesNames(calls: seq<FlushCall>, graphUri: string)
    ensures forall f :: f in FlushedFiles(calls, graphUri) ==> exists idx: nat :: f.name in ChunkNames(idx)
    decreases |calls|
  {
    if calls != [] {
      var c := calls[|calls| - 1];
      var init := FlushedFiles(calls[..|calls| - 1], graphUri);
      FlushedFilesNames(calls[..|calls| - 1], graphUri);
      var r := FlushChunk(c.srcBlocks, c.tgtLines, c.idx, graphUri);
      assert FlushedFiles(calls, graphUri) == init + r;
      forall f: File | f in init + r
        ensures exists idx: nat :: f.name in ChunkNames(idx)
      {
        if f in r {
          assert f.name in ChunkNames(c.idx);
        }
      }
    }
  }

  /** No chunk file is called `files.txt`. */
  lemma ChunkNameNotFileList(name: string)
    requires exists idx: nat :: name in ChunkNames(idx)
    ensures name != "files.txt"
  {
    var idx: nat :| name in ChunkNames(idx);
    assert name[0] != 'f';
  }

  /** `for _s, _p, child in g_src.triples((None, CONTAINS_PRED, None)): queue.append(str(child))` */
  method EnqueueChildren(queue: seq<string>, triples: seq<Triple>) returns (q: seq<string>)
    ensures q == queue + Children(triples)
  {
    q := queue;
    var k := 0;
    while k < |triples|
      invariant 0 <= k <= |triples|
      invariant q == queue + Children(triples[..k])
    {
      assert triples[..k + 1][..k] == triples[..k];
      if triples[k].p.str == ContainsPredicate {
        q := q + [triples[k].o.str];
      }
      k := k + 1;
    }
    assert triples[..k] == triples;
  }

  /** The rest of one turn of the `while` loop of `crawl`, after `fetch_rdf(uri)` returned `f`. */
  method ProcessFetched(cfg: Config, ghost env: Env, st: CrawlState, uri: string, f: Fetched) returns (r: StepResult)
    requires env.transform == Transformer(cfg)
    ensures r == Process(cfg, env, st, uri, f)
  {
    var queue, processed, chunkIdx := st.queue, st.processed, st.chunkIdx;
    var srcBuf, tgtBuf, fileUrls, flushes := st.srcBuf, st.tgtBuf, st.fileUrls, st.flushes;
    var g := f.graph;
    queue := EnqueueChildren(queue, g.triples);
    srcBuf := srcBuf + [SourceHeader(uri, |g.triples|), g.turtle];
    var st1 := CrawlState(queue, processed, chunkIdx, srcBuf, tgtBuf, fileUrls, flushes);
    var lines := ApplyRules(g.triples, cfg.rules);
    assert env.transform(g.triples) == lines;
    if lines.Failure? {
      return Abort(RuleFailed(lines.error), st1);
    }
    r := RecordLines(cfg, st1, lines.value, f.effectiveUri);
  }

  /** The statements of `crawl` after the rules gave `lines`. */
  method RecordLines(cfg: Config, st: CrawlState, lines: seq<string>, effectiveUri: string) returns (r: StepResult)
    ensures r == Record(cfg, st, lines, effectiveUri)
  {
    var queue, processed, chunkIdx := st.queue, st.processed, st.chunkIdx;
    var srcBuf, tgtBuf, fileUrls, flushes := st.srcBuf, st.tgtBuf, st.fileUrls, st.flushes;
    tgtBuf := tgtBuf + lines;
    processed := processed + 1;
    if EndsWith(effectiveUri, BinarySuffix) {
      fileUrls := fileUrls + [RSplitOnceHead(effectiveUri, BinarySuffix)];
    }
    if cfg.chunk == 0 {
      return Abort(ZeroChunkSize, CrawlState(queue, processed, chunkIdx, srcBuf, tgtBuf, fileUrls, flushes));
    }
    if processed % cfg.chunk == 0 {
      flushes := flushes + [FlushCall(srcBuf, tgtBuf, chunkIdx)];
      srcBuf := [];
      tgtBuf := [];
      chunkIdx := chunkIdx + 1;
    }
    return Next(CrawlState(queue, processed, chunkIdx, srcBuf, tgtBuf, fileUrls, flushes));
  }

  /** One turn of the `while` loop of `crawl`: pop, fetch, and on success process; a failed fetch is logged and skipped. */
  method Turn(cfg: Config, env: Env, st: CrawlState) returns (r: StepResult)
    requires st.queue != [] && env.transform == Transformer(cfg)
    ensures r == Step(cfg, env, st)
  {
    var uri := st.queue[0];
    var popped := st.(queue := st.queue[1..]);
    var fetched := env.fetch(uri);
    if fetched.Failure? {
      return Next(popped);
    }
    r := ProcessFetched(cfg, env, popped, uri, fetched.value);
  }

  /** `crawl`: the seed, the loop with `fetch_rdf` against `server`, then the final flush. */
  method Crawl(cfg: Config, server: Server, fuel: nat) returns (outcome: Outcome)
    ensures outcome == Run(cfg, Pipeline(cfg, server), Init(cfg), fuel)
  {
    var seed := SeedUri(cfg.base, cfg.root);
    outcome := Loop(cfg, Pipeline(cfg, server), CrawlState([seed], 0, 1, [], [], [], []), fuel);
  }

  /** The `while` loop of `crawl` from state `st0` until the queue is empty or the cap is reached, then the final flush. */
  method Loop(cfg: Config, env: Env, st0: CrawlState, fuel: nat) returns (outcome: Outcome)
    requires env.transform == Transformer(cfg)
    ensures outcome == Run(cfg, env, st0, fuel)
  {
    ghost var total := Run(cfg, env, st0, fuel);
    var st := st0;
    var left := fuel;
    while st.queue != [] && (cfg.maxRes == 0 || st.processed < cfg.maxRes)
      invariant total == Run(cfg, env, st, left)
      decreases left
    {
      if left == 0 {
        RunStops(cfg, env, st, left);
        return OutOfFuel(st);
      }
      var r := Turn(cfg, env, st);
      RunTurn(cfg, env, st, left, r);
      if r.Abort? {
        return Aborted(r.error, r.state);
      }
      left := left - 1;
      st := r.state;
    }
    RunStops(cfg, env, st, left);
    st := st.(flushes := st.flushes + [FlushCall(st.srcBuf, st.tgtBuf, st.chunkIdx)]);
    return Finished(st);
  }

  /** The ways the loop stops before a turn: the condition fails, or the turns run out. */
  lemma RunStops(cfg: Config, env: Env, st: CrawlState, fuel: nat)
    ensures !Continues(cfg, st) ==> Run(cfg, env, st, fuel) == Finished(Finish(st))
    ensures Continues(cfg, st) && fuel == 0 ==> Run(cfg, env, st, fuel) == OutOfFuel(st)
  {
  }

  /** A turn `r` either ends the loop with its exception or hands its state to the rest of the loop. */
  lemma RunTurn(cfg: Config, env: Env, st: CrawlState, fuel: nat, r: StepResult)
    requires Continues(cfg, st) && fuel > 0 && r == Step(cfg, env, st)
    ensures Run(cfg, env, st, fuel) == if r.Abort? then Aborted(r.error, r.state) else Run(cfg, env, r.state, fuel - 1)
  {
  }
}
