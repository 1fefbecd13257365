/**
 * `build_sparql`: the SELECT query that reads the items to publish out of
 * ResearchSpace, rendered from the `root`, `prefixes` and `fields` entries of
 * the mapping rules; and the shape guard of `run_query` on the endpoint's
 * JSON reply.
 */
module OmekaQuery {
  import opened Wrappers
  import opened Strings
  import opened Dicts

  /** A field's `select` entry: the expression and the variable it is bound `AS`. */
  datatype SelectSpec = SelectSpec(expr: string, alias: string)

  /** A field's `to` entry: the Omeka property it fills, or its special role (`o:media`). */
  datatype Destination = Destination(property: Option<string>, special: Option<string>)

  /**
   * One entry of `fields`: `where` is absent or a list of triple patterns;
   * `required` is `False` when absent.
   */
  datatype FieldSpec = FieldSpec(select: SelectSpec, where: Option<seq<string>>, required: bool, to: Option<Destination>)

  /** The `root` entry; `orderBy` is absent when the rules give none. */
  datatype RootSpec = RootSpec(subjectVar: string, rdfClass: string, orderBy: Option<string>)

  /** The mapping rules; `prefixes` is absent when the rules give none. */
  datatype Rules = Rules(prefixes: Option<Dict<string, string>>, root: RootSpec, fields: seq<FieldSpec>)

  /** `f"PREFIX {k}: <{v}>"` */
  function PrefixLine(k: string, v: string): string
  {
    "PREFIX " + k + ": <" + v + ">"
  }

  /** One prefix declaration per entry, in the order of the mapping. */
  function PrefixLines(px: Dict<string, string>): (r: seq<string>)
    ensures |r| == |px| && forall i :: 0 <= i < |px| ==> r[i] == PrefixLine(px[i].0, px[i].1)
  {
    if px == [] then [] else [PrefixLine(px[0].0, px[0].1)] + PrefixLines(px[1..])
  }

  /** `"\n".join(...)` over `rules.get("prefixes", {})`. */
  function PrefixBlock(prefixes: Option<Dict<string, string>>): string
  {
    Join("\n", PrefixLines(if prefixes.Some? then prefixes.value else []))
  }

  /** `f"({sel['expr']} AS {sel['as']})"` */
  function SelectItem(f: FieldSpec): string
  {
    "(" + f.select.expr + " AS " + f.select.alias + ")"
  }

  /** One `(expr AS var)` per field, in field order. */
  function SelectItems(fs: seq<FieldSpec>): (r: seq<string>)
    ensures |r| == |fs| && forall k :: 0 <= k < |fs| ==> r[k] == SelectItem(fs[k])
  {
    if fs == [] then [] else SelectItems(fs[..|fs| - 1]) + [SelectItem(fs[|fs| - 1])]
  }

  /** `"where" in f and f["where"]` */
  predicate HasWhere(f: FieldSpec)
  {
    f.where.Some? && f.where.value != []
  }

  /** The patterns of a field with a `where`, on separate lines, inline when required and as an `OPTIONAL` group otherwise. */
  function WhereBlock(f: FieldSpec): string
    requires HasWhere(f)
  {
    var w := Join("\n    ", f.where.value);
    if f.required then w else "OPTIONAL {\n    " + w + "\n}"
  }

  /** One block per field with a `where`, in field order. */
  function WhereItems(fs: seq<FieldSpec>): (r: seq<string>)
    ensures |r| <= |fs|
  {
    if fs == [] then []
    else
      var f := fs[|fs| - 1];
      WhereItems(fs[..|fs| - 1]) + (if HasWhere(f) then [WhereBlock(f)] else [])
  }

  /** `root.get("order_by", s)` */
  function OrderKey(root: RootSpec): string
  {
    if root.orderBy.Some? then root.orderBy.value else root.subjectVar
  }

  /** `" ".join(select_parts)` */
  function SelectLine(rules: Rules): string
  {
    Join(" ", [rules.root.subjectVar] + SelectItems(rules.fields))
  }

  /** The class pattern every query starts its WHERE clause with. */
  function ClassPattern(root: RootSpec): string
  {
    root.subjectVar + " a " + root.rdfClass + " ."
  }

  /** `"\n  ".join(where_parts)` */
  function WhereBody(rules: Rules): string
  {
    Join("\n  ", [ClassPattern(rules.root)] + WhereItems(rules.fields))
  }

  /** The text of the query `build_sparql` returns. */
  function Query(rules: Rules): string
  {
    PrefixBlock(rules.prefixes) + "\n\nSELECT " + SelectLine(rules) + "\nWHERE {\n  " + WhereBody(rules) + Closing(rules.root)
  }

  /** The end of the WHERE clause and the grouping and ordering lines. */
  function Closing(root: RootSpec): string
  {
    "\n}\nGROUP BY " + root.subjectVar + "\nORDER BY " + OrderKey(root) + "\n"
  }

  /** `build_sparql`: the two part lists grow field by field, then the query is assembled. */
  method BuildSparql(rules: Rules) returns (query: string)
    ensures query == Query(rules)
  {
    var s := rules.root.subjectVar;
    var selectParts := [s];
    var whereParts := [s + " a " + rules.root.rdfClass + " ."];
    var i := 0;
    while i < |rules.fields|
      invariant 0 <= i <= |rules.fields|
      invariant selectParts == [s] + SelectItems(rules.fields[..i])
      invariant whereParts == [ClassPattern(rules.root)] + WhereItems(rules.fields[..i])
    {
      var f := rules.fields[i];
      PartsStep(rules.fields, i, s, ClassPattern(rules.root));
      selectParts := selectParts + ["(" + f.select.expr + " AS " + f.select.alias + ")"];
      if f.where.Some? && f.where.value != [] {
        var wtriples := Join("\n    ", f.where.value);
        ghost var before := whereParts;
        if f.required {
          whereParts := whereParts + [wtriples];
        } else {
          whereParts := whereParts + ["OPTIONAL {\n    " + wtriples + "\n}"];
        }
        assert whereParts == before + [WhereBlock(f)];
      }
      i := i + 1;
    }
    assert rules.fields[..i] == rules.fields;
    var orderBy := if rules.root.orderBy.Some? then rules.root.orderBy.value else s;
    query := PrefixBlock(rules.prefixes) + "\n\nSELECT " + Join(" ", selectParts)
      + "\nWHERE {\n  " + Join("\n  ", whereParts)
      + ("\n}\nGROUP BY " + s + "\nORDER BY " + orderBy + "\n");
  }

  /** One more field adds its select item after those before it, and its block when it has a `where`. */
  lemma PartsStep(fs: seq<FieldSpec>, i: nat, s: string, c: string)
    requires i < |fs|
    ensures [s] + SelectItems(fs[..i + 1]) == ([s] + SelectItems(fs[..i])) + [SelectItem(fs[i])]
    ensures HasWhere(fs[i]) ==> [c] + WhereItems(fs[..i + 1]) == ([c] + WhereItems(fs[..i])) + [WhereBlock(fs[i])]
    ensures !HasWhere(fs[i]) ==> [c] + WhereItems(fs[..i + 1]) == [c] + WhereItems(fs[..i])
  {
    assert fs[..i + 1][..i] == fs[..i];
  }

  /** The blocks of a concatenation of field lists are those of each list, in order. */
  lemma {:induction false} WhereItemsConcat(a: seq<FieldSpec>, b: seq<FieldSpec>)
    ensures WhereItems(a + b) == WhereItems(a) + WhereItems(b)
    decreases |b|
  {
    if b == [] {
      assert a + b == a;
    } else {
      var ab := a + b;
      assert ab[..|ab| - 1] == a + b[..|b| - 1];
      assert ab[|ab| - 1] == b[|b| - 1];
      WhereItemsConcat(a, b[..|b| - 1]);
    }
  }

  /** A single field adds exactly one block when it has a `where`, and none otherwise. */
  lemma WhereItemsSingle(f: FieldSpec)
    ensures WhereItems([f]) == if HasWhere(f) then [WhereBlock(f)] else []
  {
    assert [f][..0] == [];
  }

  /** A non-required block is the patterns wrapped in `OPTIONAL { ... }`; a required one is the patterns alone. */
  lemma WhereBlockShape(f: FieldSpec)
    requires HasWhere(f)
    ensures f.required ==> StartsWith(WhereBlock(f), f.where.value[0])
    ensures !f.required ==>
      StartsWith(WhereBlock(f), "OPTIONAL {\n    " + f.where.value[0]) && EndsWith(WhereBlock(f), "\n}")
  {
    var w := Join("\n    ", f.where.value);
    JoinStartsWith("\n    ", f.where.value);
    if !f.required {
      var b := "OPTIONAL {\n    " + w + "\n}";
      assert b[..|"OPTIONAL {\n    "|] == "OPTIONAL {\n    ";
      assert b[..|"OPTIONAL {\n    "| + |f.where.value[0]|] == "OPTIONAL {\n    " + w[..|f.where.value[0]|];
      assert b[|b| - 2..] == "\n}";
    }
  }

  /** The prefix block is empty exactly when the rules declare no prefixes. */
  lemma PrefixBlockEmpty(prefixes: Option<Dict<string, string>>)
    ensures PrefixBlock(prefixes) == [] <==> prefixes.None? || prefixes.value == []
  {
    var lines := PrefixLines(if prefixes.Some? then prefixes.value else []);
    if lines != [] {
      JoinStartsWith("\n", lines);
    }
  }

  /** Read back line by line, the prefix block is one `PREFIX k: <v>` per entry, in order, when no entry holds a newline. */
  lemma PrefixBlockLines(px: Dict<string, string>)
    requires px != []
    requires forall i :: 0 <= i < |px| ==> '\n' !in px[i].0 && '\n' !in px[i].1
    ensures var lines := Split(PrefixBlock(Some(px)), "\n");
      |lines| == |px| && forall i :: 0 <= i < |px| ==> lines[i] == "PREFIX " + px[i].0 + ": <" + px[i].1 + ">"
  {
    var lines := PrefixLines(px);
    forall i | 0 <= i < |lines|
      ensures '\n' !in lines[i]
    {
      assert lines[i] == "PREFIX " + px[i].0 + ": <" + px[i].1 + ">";
    }
    SplitJoin(lines, "\n");
  }

  /**
   * The query opens with the prefix block and then `SELECT` with the subject
   * variable first, and ends grouping by the subject variable and ordering by
   * `order_by`, or by the subject variable when there is none.
   */
  lemma QueryLayout(rules: Rules)
    ensures var s := rules.root.subjectVar;
      StartsWith(Query(rules), PrefixBlock(rules.prefixes) + "\n\nSELECT " + s)
      && EndsWith(Query(rules), "\n}\nGROUP BY " + s + "\nORDER BY "
           + (if rules.root.orderBy.Some? then rules.root.orderBy.value else s) + "\n")
  {
    SelectLineShape(rules);
    Framed(PrefixBlock(rules.prefixes), "\n\nSELECT ", SelectLine(rules), rules.root.subjectVar,
      "\nWHERE {\n  ", WhereBody(rules), Closing(rules.root));
  }

  /** A text framed by a head and a tail starts with the head and the start of the middle, and ends with the tail. */
  lemma Framed(h1: string, h2: string, mid: string, start: string, r1: string, r2: string, tail: string)
    requires StartsWith(mid, start)
    ensures StartsWith(h1 + h2 + mid + r1 + r2 + tail, h1 + h2 + start)
    ensures EndsWith(h1 + h2 + mid + r1 + r2 + tail, tail)
  {
    var q := h1 + h2 + mid + r1 + r2 + tail;
    assert q[..|h1 + h2| + |start|] == h1 + h2 + mid[..|start|];
    assert q[|q| - |tail|..] == tail;
  }

  /** The SELECT line is the subject variable, followed by the fields' items when there are any. */
  lemma SelectLineShape(rules: Rules)
    ensures StartsWith(SelectLine(rules), rules.root.subjectVar)
    ensures rules.fields == [] ==> SelectLine(rules) == rules.root.subjectVar
    ensures rules.fields != [] ==> SelectLine(rules) == rules.root.subjectVar + " " + Join(" ", SelectItems(rules.fields))
  {
    var parts := [rules.root.subjectVar] + SelectItems(rules.fields);
    JoinStartsWith(" ", parts);
    assert parts[1..] == SelectItems(rules.fields);
  }

  /** The WHERE clause always opens with the class pattern of the subject variable. */
  lemma WhereBodyStart(rules: Rules)
    ensures StartsWith(WhereBody(rules), rules.root.subjectVar + " a " + rules.root.rdfClass + " .")
  {
    JoinStartsWith("\n  ", [ClassPattern(rules.root)] + WhereItems(rules.fields));
  }

  /** One binding of a result row: `type`, `value` and the like. */
  type Binding = map<string, string>

  /** One result row: a binding per variable that is bound in it. */
  type Row = map<string, Binding>

  /** The `results` member of the reply, with its `bindings` member when present. */
  datatype ResultsPart = ResultsPart(bindings: Option<seq<Row>>)

  /** The converted reply of the endpoint: a dictionary, with its `results` member when present, or something else. */
  datatype Reply = NotADict | ReplyDict(results: Option<ResultsPart>)

  /** `run_query` after the request: the bindings of a well-formed reply, and no rows otherwise. */
  function RunQuery(reply: Reply): (rows: seq<Row>)
    ensures rows != [] ==> reply.ReplyDict? && reply.results.Some? && reply.results.value.bindings == Some(rows)
    ensures (reply.ReplyDict? && reply.results.Some? && reply.results.value.bindings.Some?)
      ==> rows == reply.results.value.bindings.value
  {
    match reply
    case NotADict => []
    case ReplyDict(results) =>
      if results.Some? && results.value.bindings.Some? then results.value.bindings.value else []
  }
}
