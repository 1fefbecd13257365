/**
 * The rule-driven triple transformer of the Fedora to ResearchSpace phase
 * (fedora_to_rspace/metadata_manager.py): loading the rule catalogue,
 * deriving file names for empty `ebucore:filename` values, selecting rules
 * with exact-object precedence, expanding templates and passing unmatched
 * triples through.
 */
module FedoraRules {
  import opened Wrappers
  import opened Strings

  /** An RDF term, seen through its two string forms: `str(t)` (used for matching) and `t.n3()` (used in output). */
  datatype Term = Term(str: string, n3: string)

  /** One triple of a source graph; a graph is the sequence of its triples in iteration order. */
  datatype Triple = Triple(s: Term, p: Term, o: Term)

  /** A normalised catalogue rule. Each field is absent when the record lacks the key. */
  datatype Rule = Rule(id: Option<string>, sourcePredicate: Option<string>, objectEquals: Option<string>, template: Option<string>)

  /** One record of the catalogue's `rules` list, as read from YAML. */
  type RawRule = map<string, string>

  datatype LoadError = NoRulesCollection

  /** The error a fired rule without a template raises (`None.replace`). */
  datatype RuleError = MissingTemplate(ruleId: Option<string>)

  const FilenamePredicate: string := "http://www.ebu.ch/metadata/ontologies/ebucore/ebucore#filename"
  const RepoMarker: string := "/repo/rest/"

  /** `r.get(key)` */
  function Field(r: RawRule, key: string): Option<string>
  {
    if key in r then Some(r[key]) else None
  }

  /** The record `load_rules` builds from one catalogue entry. */
  function Normalise(r: RawRule): Rule
  {
    Rule(Field(r, "id"), Field(r, "source_predicate"), Field(r, "object_equals"), Field(r, "target_pattern"))
  }

  /**
   * `load_rules`, after YAML parsing: `doc` is the document's `rules` entry,
   * absent when the document has none (a `KeyError` in the source).
   */
  method LoadRules(doc: Option<seq<RawRule>>) returns (r: Result<seq<Rule>, LoadError>)
    ensures doc.None? <==> r.Failure?
    ensures doc.Some? ==> |r.value| == |doc.value|
    ensures doc.Some? ==> forall i :: 0 <= i < |doc.value| ==> r.value[i] == Normalise(doc.value[i])
  {
    if doc.None? {
      return Failure(NoRulesCollection);
    }
    var raw := doc.value;
    var out: seq<Rule> := [];
    var i := 0;
    while i < |raw|
      invariant 0 <= i <= |raw|
      invariant |out| == i
      invariant forall k :: 0 <= k < i ==> out[k] == Normalise(raw[k])
    {
      out := out + [Normalise(raw[i])];
      i := i + 1;
    }
    return Success(out);
  }

  /** `subject_uri.split("/repo/rest/")[-1]` */
  function RelativePath(subject: string): string
  {
    Last(Split(subject, RepoMarker))
  }

  /** `_derive_filename_from_uri`: the flattened and the simple file name; the `mime` argument is never used. */
  function DeriveFilename(subject: string): (string, string)
  {
    var rel := RelativePath(subject);
    (Replace(rel, "/", "!") + ".jpg", Last(Split(rel, "/")) + ".jpg")
  }

  /** The relative path is the end of the subject after its last `/repo/rest/` (all of it when there is none). */
  lemma RelativePathSpec(subject: string)
    ensures var rel := RelativePath(subject);
      EndsWith(subject, rel) && !Contains(rel, RepoMarker)
      && (Contains(subject, RepoMarker) ==>
            |rel| + |RepoMarker| <= |subject| && OccursAt(subject, RepoMarker, |subject| - |rel| - |RepoMarker|))
      && (!Contains(subject, RepoMarker) ==> rel == subject)
  {
    SplitLastIsSuffix(subject, RepoMarker);
    SplitLastAvoidsSeparator(subject, RepoMarker);
    if Contains(subject, RepoMarker) {
      SplitLastPreceded(subject, RepoMarker);
    }
  }

  /** The flattened name is the relative path with every `/` turned into `!`, plus `.jpg`; turning `!` back recovers the path when it held no `!`. */
  lemma FlatNameSpec(subject: string)
    ensures var rel := RelativePath(subject);
      var flat := DeriveFilename(subject).0;
      |flat| == |rel| + 4 && flat[|rel|..] == ".jpg"
      && (forall i :: 0 <= i < |rel| ==> flat[i] == if rel[i] == '/' then '!' else rel[i])
      && '/' !in flat
      && ('!' !in rel ==> Replace(flat[..|rel|], "!", "/") == rel)
  {
    var rel := RelativePath(subject);
    var flat := DeriveFilename(subject).0;
    var stem := Replace(rel, "/", "!");
    ReplaceCharAt(rel, '/', '!');
    ReplaceCharRemoves(rel, '/', '!');
    assert flat[..|rel|] == stem;
    if '!' !in rel {
      ReplaceCharRoundTrip(rel, '/', '!');
    }
  }

  /** A character occurs in a string exactly when the one-character pattern does. */
  lemma CharContains(s: string, c: char)
    ensures c in s <==> Contains(s, [c])
  {
    if c in s {
      var k :| 0 <= k < |s| && s[k] == c;
      assert s[k..k + 1] == [c];
      assert OccursAt(s, [c], k);
    } else {
      SingleCharAbsent(s, c);
    }
  }

  /** The simple name is the last `/`-segment of the relative path, plus `.jpg`. */
  lemma SimpleNameSpec(subject: string)
    ensures var rel := RelativePath(subject);
      var simple := DeriveFilename(subject).1;
      |simple| >= 4 && simple[|simple| - 4..] == ".jpg"
      && EndsWith(rel, simple[..|simple| - 4]) && '/' !in simple
      && ('/' in rel ==> |simple| - 4 + 1 <= |rel| && OccursAt(rel, "/", |rel| - (|simple| - 4) - 1))
  {
    var rel := RelativePath(subject);
    var seg := Last(Split(rel, "/"));
    var simple := DeriveFilename(subject).1;
    assert simple == seg + ".jpg";
    assert simple[..|simple| - 4] == seg;
    SplitLastIsSuffix(rel, "/");
    SplitLastAvoidsSeparator(rel, "/");
    CharContains(seg, '/');
    CharContains(rel, '/');
    if '/' in rel {
      SplitLastPreceded(rel, "/");
    }
  }

  /** `not o_str or o_str.strip().strip('"') == ""` */
  predicate IsBlankFilename(o: string)
  {
    o == "" || Strip(Strip(o, Whitespace), {'"'}) == ""
  }

  /** A filename value is blank exactly when, once whitespace is stripped, nothing but `"` characters is left. */
  lemma BlankFilenameMeaning(o: string)
    ensures IsBlankFilename(o) <==> forall i :: 0 <= i < |Strip(o, Whitespace)| ==> Strip(o, Whitespace)[i] == '"'
  {
    StripEmpty(Strip(o, Whitespace), {'"'});
  }

  /** The rules for predicate `p` whose `object_equals` is `guard` (`None` selects the wildcard rules), in catalogue order. */
  function Matching(rules: seq<Rule>, p: string, guard: Option<string>): seq<Rule>
  {
    if rules == [] then []
    else if rules[0].sourcePredicate == Some(p) && rules[0].objectEquals == guard then [rules[0]] + Matching(rules[1..], p, guard)
    else Matching(rules[1..], p, guard)
  }

  /** Exactly the rules of the catalogue with that predicate and guard are selected. */
  lemma {:induction false} MatchingMembers(rules: seq<Rule>, p: string, guard: Option<string>)
    ensures forall r :: r in Matching(rules, p, guard) <==> r in rules && r.sourcePredicate == Some(p) && r.objectEquals == guard
    ensures Matching(rules, p, guard) == [] <==> forall r :: r in rules ==> !(r.sourcePredicate == Some(p) && r.objectEquals == guard)
  {
    if rules != [] {
      MatchingMembers(rules[1..], p, guard);
      assert rules == [rules[0]] + rules[1..];
    }
  }

  /** Selection keeps catalogue order: the rules selected from two consecutive stretches of the catalogue come one after the other. */
  lemma {:induction false} MatchingConcat(a: seq<Rule>, b: seq<Rule>, p: string, guard: Option<string>)
    ensures Matching(a + b, p, guard) == Matching(a, p, guard) + Matching(b, p, guard)
  {
    if a != [] {
      MatchingConcat(a[1..], b, p, guard);
      assert (a + b)[1..] == a[1..] + b;
      assert (a + b)[0] == a[0];
    } else {
      assert a + b == b;
    }
  }

  /** `exact or loose` */
  function Picked(rules: seq<Rule>, p: string, o: string): seq<Rule>
  {
    var exact := Matching(rules, p, Some(o));
    if exact != [] then exact else Matching(rules, p, None)
  }

  /**
   * Precedence: when some rule has predicate `p` and `object_equals == o`, exactly those
   * rules fire; otherwise exactly the wildcard rules for `p` fire.
   */
  lemma Precedence(rules: seq<Rule>, p: string, o: string)
    ensures (exists r :: r in rules && r.sourcePredicate == Some(p) && r.objectEquals == Some(o)) ==>
      forall r :: r in Picked(rules, p, o) <==> r in rules && r.sourcePredicate == Some(p) && r.objectEquals == Some(o)
    ensures (forall r :: r in rules && r.sourcePredicate == Some(p) ==> r.objectEquals != Some(o)) ==>
      forall r :: r in Picked(rules, p, o) <==> r in rules && r.sourcePredicate == Some(p) && r.objectEquals.None?
  {
    MatchingMembers(rules, p, Some(o));
    MatchingMembers(rules, p, None);
    if exists r :: r in rules && r.sourcePredicate == Some(p) && r.objectEquals == Some(o) {
      var r :| r in rules && r.sourcePredicate == Some(p) && r.objectEquals == Some(o);
      assert r in Matching(rules, p, Some(o));
    }
  }

  /** A catalogue record without `source_predicate` never fires. */
  lemma NoPredicateNeverFires(raw: RawRule, rules: seq<Rule>, p: string, o: string)
    requires "source_predicate" !in raw
    ensures Normalise(raw) !in Picked(rules, p, o)
  {
    var r := Normalise(raw);
    assert r.sourcePredicate.None?;
    MatchingMembers(rules, p, Some(o));
    MatchingMembers(rules, p, None);
  }

  /** `template.replace("?s", s.n3()).replace("?o", o.n3()).rstrip()` */
  function Expand(template: string, t: Triple): string
  {
    RStrip(Replace(Replace(template, "?s", t.s.n3), "?o", t.o.n3), Whitespace)
  }

  /** A template without placeholders and without trailing whitespace is emitted as written. */
  lemma ExpandConstant(template: string, t: Triple)
    requires !Contains(template, "?s") && !Contains(template, "?o")
    requires template != [] ==> template[|template| - 1] !in Whitespace
    ensures Expand(template, t) == template
  {
    ReplaceAbsent(template, "?s", t.s.n3);
    ReplaceAbsent(template, "?o", t.o.n3);
  }

  /**
   * Expansion on every template: the text between `?s` placeholders is kept,
   * in order, with the subject's form between the pieces; the same then
   * happens to `?o` and the object's form; then trailing whitespace goes.
   */
  lemma ExpandIsSplitJoin(template: string, t: Triple)
    ensures Expand(template, t) ==
      RStrip(Join(t.o.n3, Split(Join(t.s.n3, Split(template, "?s")), "?o")), Whitespace)
  {
    ReplaceIsJoinSplit(template, "?s", t.s.n3);
    ReplaceIsJoinSplit(Replace(template, "?s", t.s.n3), "?o", t.o.n3);
  }

  /**
   * A template made of pieces without `?`, separated by `?s`, expands to those
   * pieces with the subject's form between them, when that form holds no `?`.
   */
  lemma ExpandSubjectTemplate(parts: seq<string>, t: Triple)
    requires |parts| >= 1 && forall k :: 0 <= k < |parts| ==> '?' !in parts[k]
    requires '?' !in t.s.n3
    ensures Expand(Join("?s", parts), t) == RStrip(Join(t.s.n3, parts), Whitespace)
  {
    var template := Join("?s", parts);
    SplitJoin(parts, "?s");
    ReplaceIsJoinSplit(template, "?s", t.s.n3);
    var filled := Join(t.s.n3, parts);
    JoinAvoids('?', t.s.n3, parts);
    AbsentHead(filled, "?o");
    ReplaceAbsent(filled, "?o", t.o.n3);
  }

  /**
   * The two replacements run one after the other, so a `?o` inside the subject's
   * form is itself replaced: with the template `?s`, a subject written
   * `<x?o>` and an object written `"v"`, the line is `<x"v">`.
   */
  lemma ExpandIsSequential(t: Triple)
    requires t.s.n3 == "<x?o>" && t.o.n3 == "\"v\""
    ensures Expand("?s", t) == "<x\"v\">"
  {
    ReplaceWhole("?s", t.s.n3);
    ReplaceObjectInSubject();
    assert '>' !in Whitespace;
  }

  /** The pattern on its own is replaced by the replacement. */
  lemma ReplaceWhole(pat: string, rep: string)
    requires pat != []
    ensures Replace(pat, pat, rep) == rep
  {
    assert pat[..|pat|] == pat;
    assert pat[|pat|..] == [];
    assert rep + [] == rep;
  }

  /** The second replacement rewrites the `?o` left inside the subject's form. */
  lemma ReplaceObjectInSubject()
    ensures Replace("<x?o>", "?o", "\"v\"") == "<x\"v\">"
  {
    var a := "<x?o>";
    assert a[..2] != "?o" && a[1..][..2] != "?o";
    assert a[1..][1..] == a[2..];
    assert a[2..][..2] == "?o" && a[2..][2..] == ">";
    assert Replace(">", "?o", "\"v\"") == ">";
  }

  /** `f"{s.n3()} {p.n3()} {o.n3()} ."` */
  function Passthrough(t: Triple): string
  {
    t.s.n3 + " " + t.p.n3 + " " + t.o.n3 + " ."
  }

  /** The two lines emitted in place of an empty `ebucore:filename`. */
  function FilenameLines(t: Triple): seq<string>
  {
    var (flat, simple) := DeriveFilename(t.s.str);
    [t.s.n3 + " ex:PX_has_file_name \"" + flat + "\" .", t.s.n3 + " rdfs:label \"" + simple + "\" ."]
  }

  /** The lines of the fired rules, in order; fails at the first fired rule without a template. */
  function ExpandAll(picked: seq<Rule>, t: Triple): (r: Result<seq<string>, RuleError>)
    ensures r.Success? <==> forall i :: 0 <= i < |picked| ==> picked[i].template.Some?
    ensures r.Success? ==> |r.value| == |picked|
    ensures r.Success? ==> forall i :: 0 <= i < |picked| ==> r.value[i] == Expand(picked[i].template.value, t)
    decreases |picked|
  {
    if picked == [] then Success([])
    else
      var init := picked[..|picked| - 1];
      var last := picked[|picked| - 1];
      match ExpandAll(init, t)
      case Failure(e) => Failure(e)
      case Success(lines) =>
        match last.template
        case None => Failure(MissingTemplate(last.id))
        case Some(tm) => Success(lines + [Expand(tm, t)])
  }

  /** The lines one source triple contributes (the body of the main loop of `apply_rules`). */
  function TransformTriple(t: Triple, rules: seq<Rule>): Result<seq<string>, RuleError>
  {
    if t.p.str == FilenamePredicate && IsBlankFilename(t.o.str) then Success(FilenameLines(t))
    else
      var picked := Picked(rules, t.p.str, t.o.str);
      if picked == [] then Success([Passthrough(t)]) else ExpandAll(picked, t)
  }

  /**
   * What one triple yields: the two filename lines when intercepted, and nothing from
   * any rule; otherwise one expanded line per fired rule, in order; otherwise the
   * verbatim triple. In every case at least one line.
   */
  lemma TransformTripleCases(t: Triple, rules: seq<Rule>)
    ensures var r := TransformTriple(t, rules);
      var picked := Picked(rules, t.p.str, t.o.str);
      (t.p.str == FilenamePredicate && IsBlankFilename(t.o.str) ==> r == Success(FilenameLines(t)) && |r.value| == 2)
      && (!(t.p.str == FilenamePredicate && IsBlankFilename(t.o.str)) && picked == [] ==> r == Success([Passthrough(t)]))
      && (!(t.p.str == FilenamePredicate && IsBlankFilename(t.o.str)) && picked != [] ==>
            (r.Success? <==> forall i :: 0 <= i < |picked| ==> picked[i].template.Some?)
            && (r.Success? ==> (|r.value| == |picked|
                  && forall i :: 0 <= i < |picked| ==> r.value[i] == Expand(picked[i].template.value, t))))
      && (r.Success? ==> |r.value| >= 1)
  {
  }

  /**
   * Rules `[{p, null, A}, {p, "X", B}]` on a triple `(s, p, "X")` whose predicate is not
   * `ebucore:filename`: only `B` fires.
   */
  lemma ExactBeatsWildcard(t: Triple, a: string, b: string)
    requires t.p.str != FilenamePredicate && t.o.str == "X"
    ensures TransformTriple(t, [Rule(None, Some(t.p.str), None, Some(a)), Rule(None, Some(t.p.str), Some("X"), Some(b))])
         == Success([Expand(b, t)])
  {
    var rules := [Rule(None, Some(t.p.str), None, Some(a)), Rule(None, Some(t.p.str), Some("X"), Some(b))];
    assert rules[1..][1..] == [];
    assert Matching(rules[1..][1..], t.p.str, Some("X")) == [];
    assert Matching(rules[1..], t.p.str, Some("X")) == [rules[1]];
    assert Matching(rules, t.p.str, Some("X")) == [rules[1]];
    var e := ExpandAll([rules[1]], t);
    assert e.Success? && e.value[0] == Expand(b, t);
    assert e.value == [Expand(b, t)];
  }

  /** What each triple yields, in the graph's iteration order. */
  function Outcomes(src: seq<Triple>, rules: seq<Rule>): seq<Result<seq<string>, RuleError>>
  {
    seq(|src|, k requires 0 <= k < |src| => TransformTriple(src[k], rules))
  }

  /** The lines of the outcomes one after the other; the first failure wins. */
  function Collect(parts: seq<Result<seq<string>, RuleError>>): Result<seq<string>, RuleError>
    decreases |parts|
  {
    if parts == [] then Success([])
    else
      match Collect(parts[..|parts| - 1])
      case Failure(e) => Failure(e)
      case Success(lines) =>
        match parts[|parts| - 1]
        case Failure(e) => Failure(e)
        case Success(more) => Success(lines + more)
  }

  /** `apply_rules`, as a function of the graph's triples in iteration order. */
  function TransformGraph(src: seq<Triple>, rules: seq<Rule>): Result<seq<string>, RuleError>
  {
    Collect(Outcomes(src, rules))
  }

  /** A successful collection has every part successful and holds at least as many lines as there are parts with one line or more. */
  lemma {:induction false} CollectCovers(parts: seq<Result<seq<string>, RuleError>>)
    requires Collect(parts).Success?
    requires forall k :: 0 <= k < |parts| && parts[k].Success? ==> |parts[k].value| >= 1
    ensures forall k :: 0 <= k < |parts| ==> parts[k].Success?
    ensures |Collect(parts).value| >= |parts|
    decreases |parts|
  {
    if parts != [] {
      var init := parts[..|parts| - 1];
      assert forall k :: 0 <= k < |init| ==> init[k] == parts[k];
      CollectCovers(init);
    }
  }

  /** Collecting two stretches of parts gives their lines one after the other. */
  lemma {:induction false} CollectConcat(a: seq<Result<seq<string>, RuleError>>, b: seq<Result<seq<string>, RuleError>>)
    requires Collect(a).Success? && Collect(b).Success?
    ensures Collect(a + b) == Success(Collect(a).value + Collect(b).value)
    decreases |b|
  {
    if b == [] {
      assert a + b == a;
      assert Collect(a).value + [] == Collect(a).value;
    } else {
      var b' := b[..|b| - 1];
      var ab := a + b;
      assert ab[..|ab| - 1] == a + b';
      assert ab[|ab| - 1] == b[|b| - 1];
      CollectConcat(a, b');
      var av, bv, m := Collect(a).value, Collect(b').value, b[|b| - 1].value;
      assert Collect(b) == Success(bv + m);
      assert Collect(ab) == Success(av + bv + m);
      assert av + bv + m == av + (bv + m);
    }
  }

  /** Once a prefix of the parts fails, the whole collection fails with the same error. */
  lemma {:induction false} CollectFailurePersists(parts: seq<Result<seq<string>, RuleError>>, k: nat)
    requires k <= |parts| && Collect(parts[..k]).Failure?
    ensures Collect(parts) == Collect(parts[..k])
    decreases |parts| - k
  {
    if k < |parts| {
      assert parts[..k + 1][..k] == parts[..k];
      CollectFailurePersists(parts, k + 1);
    } else {
      assert parts[..k] == parts;
    }
  }

  /** No triple is silently dropped: a graph yields at least as many lines as it has triples. */
  lemma TransformGraphCoversTriples(src: seq<Triple>, rules: seq<Rule>)
    requires TransformGraph(src, rules).Success?
    ensures |TransformGraph(src, rules).value| >= |src|
  {
    var parts := Outcomes(src, rules);
    forall k | 0 <= k < |parts| && parts[k].Success?
      ensures |parts[k].value| >= 1
    {
      TransformTripleCases(src[k], rules);
    }
    CollectCovers(parts);
  }

  /** Output order follows triple order: two stretches of triples give their lines one after the other. */
  lemma TransformGraphConcat(a: seq<Triple>, b: seq<Triple>, rules: seq<Rule>)
    requires TransformGraph(a, rules).Success? && TransformGraph(b, rules).Success?
    ensures TransformGraph(a + b, rules) == Success(TransformGraph(a, rules).value + TransformGraph(b, rules).value)
  {
    OutcomesConcat(a, b, rules);
    CollectConcat(Outcomes(a, rules), Outcomes(b, rules));
  }

  /** The outcomes of two stretches of triples are the outcomes of each, one after the other. */
  lemma OutcomesConcat(a: seq<Triple>, b: seq<Triple>, rules: seq<Rule>)
    ensures Outcomes(a + b, rules) == Outcomes(a, rules) + Outcomes(b, rules)
  {
    var ab := a + b;
    assert forall k :: 0 <= k < |a| ==> ab[k] == a[k];
    assert forall k :: |a| <= k < |ab| ==> ab[k] == b[k - |a|];
  }

  /** Once a prefix of the triples fails, the whole graph fails with the same error. */
  lemma TransformGraphFailurePersists(src: seq<Triple>, k: nat, rules: seq<Rule>)
    requires k <= |src| && TransformGraph(src[..k], rules).Failure?
    ensures TransformGraph(src, rules) == TransformGraph(src[..k], rules)
  {
    assert Outcomes(src[..k], rules) == Outcomes(src, rules)[..k];
    CollectFailurePersists(Outcomes(src, rules), k);
  }

  /** The first rule without a template decides the error of `ExpandAll`. */
  lemma {:induction false} ExpandAllStops(picked: seq<Rule>, j: nat, t: Triple)
    requires j < |picked| && ExpandAll(picked[..j], t).Success? && picked[j].template.None?
    ensures ExpandAll(picked, t) == Failure(MissingTemplate(picked[j].id))
    decreases |picked|
  {
    var init := picked[..|picked| - 1];
    if j + 1 == |picked| {
      assert init == picked[..j];
    } else {
      assert init[..j] == picked[..j];
      ExpandAllStops(init, j, t);
    }
  }

  /** Extending the triples by one extends the lines by that triple's lines, or fails with its error. */
  lemma TransformGraphStep(src: seq<Triple>, i: nat, rules: seq<Rule>)
    requires i < |src| && TransformGraph(src[..i], rules).Success?
    ensures TransformTriple(src[i], rules).Failure? ==>
      TransformGraph(src[..i + 1], rules) == Failure(TransformTriple(src[i], rules).error)
    ensures TransformTriple(src[i], rules).Success? ==>
      TransformGraph(src[..i + 1], rules) == Success(TransformGraph(src[..i], rules).value + TransformTriple(src[i], rules).value)
  {
    var parts := Outcomes(src[..i + 1], rules);
    assert parts[..i] == Outcomes(src[..i], rules);
    assert parts[i] == TransformTriple(src[i], rules);
  }

  /** The inner loop of `apply_rules`: one line per fired rule, stopping at the first rule without a template. */
  method ExpandRules(picked: seq<Rule>, t: Triple) returns (r: Result<seq<string>, RuleError>)
    ensures r == ExpandAll(picked, t)
  {
    var out: seq<string> := [];
    var j := 0;
    while j < |picked|
      invariant 0 <= j <= |picked|
      invariant ExpandAll(picked[..j], t) == Success(out)
    {
      var rule := picked[j];
      if rule.template.None? {
        ExpandAllStops(picked, j, t);
        return Failure(MissingTemplate(rule.id));
      }
      assert picked[..j + 1][..j] == picked[..j];
      out := out + [Expand(rule.template.value, t)];
      j := j + 1;
    }
    assert picked[..j] == picked;
    return Success(out);
  }

  /** `apply_rules`: the main loop, appending each triple's lines to `out`; the first failure ends it. */
  method ApplyRules(src: seq<Triple>, rules: seq<Rule>) returns (r: Result<seq<string>, RuleError>)
    ensures r == TransformGraph(src, rules)
  {
    var out: seq<string> := [];
    var i := 0;
    while i < |src|
      invariant 0 <= i <= |src|
      invariant TransformGraph(src[..i], rules) == Success(out)
    {
      var t := src[i];
      TransformGraphStep(src, i, rules);
      if t.p.str == FilenamePredicate && IsBlankFilename(t.o.str) {
        var (flat, simple) := DeriveFilename(t.s.str);
        out := out + [t.s.n3 + " ex:PX_has_file_name \"" + flat + "\" .", t.s.n3 + " rdfs:label \"" + simple + "\" ."];
      } else {
        var exact := Matching(rules, t.p.str, Some(t.o.str));
        var loose := Matching(rules, t.p.str, None);
        var picked := if exact != [] then exact else loose;
        if picked != [] {
          var more := ExpandRules(picked, t);
          if more.Failure? {
            TransformGraphFailurePersists(src, i + 1, rules);
            return Failure(more.error);
          }
          out := out + more.value;
        } else {
          out := out + [Passthrough(t)];
        }
      }
      i := i + 1;
    }
    assert src[..i] == src;
    return Success(out);
  }
}
