/**
 * `main` of the ResearchSpace-to-Omeka step: for each result row of the
 * query, the fields dictionary is built from the bindings, the item is
 * created or updated, and each media value is split into candidate paths
 * that are converted and attached.  The SPARQL endpoint, the Omeka API and
 * the image converter are parameters; attaching is recorded as an action.
 */
module OmekaSteps {
  import opened Wrappers
  import opened Strings
  import opened Dicts
  import opened Paths
  import FedoraRules
  import OmekaQuery
  import opened OmekaItems

  /** The configuration and the services `main` uses: `apiURL`, `mediaRootDir`, the API and `convert_to_jpg`. */
  datatype Services = Services(apiUrl: string, mediaRoot: string, api: Api, convert: string -> Option<string>)

  /** What `attach_media` is given as the item: the pair `create_or_update_item` returns, or an item id. */
  datatype ItemRef = ItemPair(pair: Upsert) | ItemIdRef(id: Json)

  /** The effects of a row: the item saved under its key, and each `attach_media` call. */
  datatype Action =
    | Saved(uri: string, result: Upsert)
    | Attached(item: ItemRef, path: string, title: Option<string>)

  /** The actions of the rows handled, and the exception that ended the loop, if one did. */
  datatype Outcome = Outcome(actions: seq<Action>, crash: Option<Crash>)

  const MediaSpecial: string := "o:media"
  const TitleProperty: string := "dcterms:title"
  const MediaSeparator: string := "||"

  /** Python's truthiness of a string that may be `None`. */
  predicate Filled(s: Option<string>)
  {
    s.Some? && s.value != []
  }

  /** `r["s"]["value"]`, the key of the row; a missing member raises `KeyError`. */
  function RowKey(r: OmekaQuery.Row): (k: Result<string, Crash>)
    ensures k.Success? <==> "s" in r && "value" in r["s"]
    ensures k.Success? ==> k.value == r["s"]["value"]
    ensures k.Failure? ==> k.error == KeyMissing
  {
    if "s" in r && "value" in r["s"] then Success(r["s"]["value"]) else Failure(KeyMissing)
  }

  /** `f["select"]["as"].lstrip("?")` */
  function VarName(f: OmekaQuery.FieldSpec): string
  {
    LStrip(f.select.alias, {'?'})
  }

  /** `r.get(var, {}).get("value")` */
  function Bound(r: OmekaQuery.Row, v: string): Option<string>
  {
    if v in r && "value" in r[v] then Some(r[v]["value"]) else None
  }

  /** `f["to"].get("property") if "to" in f else None` */
  function Property(f: OmekaQuery.FieldSpec): Option<string>
  {
    if f.to.Some? then f.to.value.property else None
  }

  /** `f["to"].get("special") if "to" in f else None` */
  function Special(f: OmekaQuery.FieldSpec): Option<string>
  {
    if f.to.Some? then f.to.value.special else None
  }

  /** `fields[prop] = val` when `val and prop`: the assignment field `f` makes for row `r`, if any. */
  function Assignment(r: OmekaQuery.Row, f: OmekaQuery.FieldSpec): (a: Option<(string, string)>)
    ensures a.Some? <==> Filled(Bound(r, VarName(f))) && Filled(Property(f))
    ensures a.Some? ==> a.value == (Property(f).value, Bound(r, VarName(f)).value) && a.value.0 != [] && a.value.1 != []
  {
    var prop := Property(f);
    var val := Bound(r, VarName(f));
    if Filled(val) && Filled(prop) then Some((prop.value, val.value)) else None
  }

  /** The assignment of each field, in order. */
  function Assignments(r: OmekaQuery.Row, fs: seq<OmekaQuery.FieldSpec>): (ps: seq<Option<(string, string)>>)
    ensures |ps| == |fs|
    decreases |fs|
  {
    if fs == [] then [] else Assignments(r, fs[..|fs| - 1]) + [Assignment(r, fs[|fs| - 1])]
  }

  /** Entry `i` is the assignment of field `i`. */
  lemma {:induction false} AssignmentsAt(r: OmekaQuery.Row, fs: seq<OmekaQuery.FieldSpec>, i: nat)
    requires i < |fs|
    ensures Assignments(r, fs)[i] == Assignment(r, fs[i])
    decreases |fs|
  {
    if i < |fs| - 1 {
      AssignmentsAt(r, fs[..|fs| - 1], i);
    }
  }

  /** The `fields` dictionary the loop over `fs` builds. */
  function FieldsOf(r: OmekaQuery.Row, fs: seq<OmekaQuery.FieldSpec>): Dict<string, string>
  {
    PutEach(Assignments(r, fs))
  }

  /** The loop of lines 27-32, filling `fields` in place. */
  method CollectFields(r: OmekaQuery.Row, fs: seq<OmekaQuery.FieldSpec>) returns (fields: Dict<string, string>)
    ensures fields == FieldsOf(r, fs)
  {
    fields := [];
    var i := 0;
    while i < |fs|
      invariant 0 <= i <= |fs|
      invariant fields == PutEach(Assignments(r, fs[..i]))
    {
      // `prop`, `var` and `val` of the field, and the test `if val and prop`
      var a := Assignment(r, fs[i]);
      if a.Some? {
        fields := Put(fields, a.value.0, a.value.1);
      }
      PutEachSnoc(Assignments(r, fs[..i]), a);
      assert fs[..i + 1][..i] == fs[..i];
      i := i + 1;
    }
    assert fs[..i] == fs;
  }

  /**
   * A property is in the dictionary exactly when some field assigns it, and
   * its value is the one assigned by the last such field: later fields
   * overwrite.  Entry `i` of `Assignments` is field `i`'s (`AssignmentsAt`).
   */
  lemma FieldsOfLastWriter(r: OmekaQuery.Row, fs: seq<OmekaQuery.FieldSpec>, prop: string)
    ensures Get(FieldsOf(r, fs), prop).Some? <==> Written(Assignments(r, fs), prop)
    ensures var ps := Assignments(r, fs);
      Get(FieldsOf(r, fs), prop).Some? ==>
      exists i :: (0 <= i < |ps| && Writes(ps[i], prop) && Get(FieldsOf(r, fs), prop) == Some(ps[i].value.1)
        && forall j :: i < j < |ps| ==> !Writes(ps[j], prop))
  {
    var ps := Assignments(r, fs);
    assert FieldsOf(r, fs) == PutEach(ps);
    PutEachLastWriter(ps, prop);
  }

  /** The value under a property is the bound value of a field whose property it is. */
  lemma FieldsOfValue(r: OmekaQuery.Row, fs: seq<OmekaQuery.FieldSpec>, prop: string)
    requires Get(FieldsOf(r, fs), prop).Some?
    ensures prop != [] && exists i :: (0 <= i < |fs| && Property(fs[i]) == Some(prop)
      && Get(FieldsOf(r, fs), prop) == Bound(r, VarName(fs[i])))
  {
    var ps := Assignments(r, fs);
    FieldsOfLastWriter(r, fs, prop);
    var i :| 0 <= i < |ps| && Writes(ps[i], prop) && Get(FieldsOf(r, fs), prop) == Some(ps[i].value.1);
    AssignmentsAt(r, fs, i);
  }

  /** A field that assigns a property, with no later field assigning it, decides its value. */
  lemma FieldsOfLastField(r: OmekaQuery.Row, fs: seq<OmekaQuery.FieldSpec>, i: nat, prop: string)
    requires i < |fs| && Writes(Assignment(r, fs[i]), prop)
    requires forall j :: i < j < |fs| ==> !Writes(Assignments(r, fs)[j], prop)
    ensures Get(FieldsOf(r, fs), prop) == Bound(r, VarName(fs[i]))
  {
    var ps := Assignments(r, fs);
    AssignmentsAt(r, fs, i);
    FieldsOfLastWriter(r, fs, prop);
    var i' :| 0 <= i' < |ps| && Writes(ps[i'], prop) && Get(FieldsOf(r, fs), prop) == Some(ps[i'].value.1)
      && forall j :: i' < j < |ps| ==> !Writes(ps[j], prop);
    assert i' == i;
  }

  /** `os.path.join(mediaRootDir, p.replace("!", os.sep))` on POSIX. */
  function MediaPath(root: string, piece: string): string
  {
    PathJoin(root, Replace(piece, "!", "/"))
  }

  /** The pieces of a field's media value: only an `o:media` field with a non-empty value has any. */
  function MediaPieces(r: OmekaQuery.Row, f: OmekaQuery.FieldSpec): (ps: seq<string>)
    ensures ps != [] <==> Special(f) == Some(MediaSpecial) && Filled(Bound(r, VarName(f)))
    ensures ps != [] ==> ps == Split(Bound(r, VarName(f)).value, MediaSeparator)
  {
    var val := Bound(r, VarName(f));
    if Special(f) == Some(MediaSpecial) && Filled(val) then Split(val.value, MediaSeparator) else []
  }

  /** The converted paths of the pieces of one value: each conversion that gives a non-empty path, in order. */
  function ConvertedPaths(pieces: seq<string>, svc: Services): (paths: seq<string>)
    ensures |paths| <= |pieces|
    ensures forall p :: p in paths ==>
      p != [] && exists k :: 0 <= k < |pieces| && svc.convert(MediaPath(svc.mediaRoot, pieces[k])) == Some(p)
    decreases |pieces|
  {
    if pieces == [] then []
    else
      var n := |pieces| - 1;
      var prev := ConvertedPaths(pieces[..n], svc);
      assert forall k :: 0 <= k < n ==> pieces[..n][k] == pieces[k];
      var jpg := svc.convert(MediaPath(svc.mediaRoot, pieces[n]));
      if Filled(jpg) then prev + [jpg.value] else prev
  }

  /** The paths the media loop attaches, over the first `|fs|` fields. */
  function MediaPlan(r: OmekaQuery.Row, fs: seq<OmekaQuery.FieldSpec>, svc: Services): (paths: seq<string>)
    ensures forall p :: p in paths ==>
      p != [] && exists i, k :: (0 <= i < |fs| && 0 <= k < |MediaPieces(r, fs[i])|
        && svc.convert(MediaPath(svc.mediaRoot, MediaPieces(r, fs[i])[k])) == Some(p))
    decreases |fs|
  {
    if fs == [] then []
    else
      var n := |fs| - 1;
      var prev := MediaPlan(r, fs[..n], svc);
      assert forall i :: 0 <= i < n ==> fs[..n][i] == fs[i];
      prev + ConvertedPaths(MediaPieces(r, fs[n]), svc)
  }

  /** `attach_media(apiURL, params, item, path, title)` for each path, in order. */
  function AttachCalls(item: ItemRef, paths: seq<string>, title: Option<string>): (acts: seq<Action>)
    ensures |acts| == |paths|
    ensures forall k :: 0 <= k < |paths| ==> acts[k] == Attached(item, paths[k], title)
  {
    seq(|paths|, k requires 0 <= k < |paths| => Attached(item, paths[k], title))
  }

  /** When every conversion succeeds, there is one path per piece, the converted path of that piece. */
  lemma {:induction false} ConvertedPathsAll(pieces: seq<string>, svc: Services)
    requires forall k :: 0 <= k < |pieces| ==> Filled(svc.convert(MediaPath(svc.mediaRoot, pieces[k])))
    ensures |ConvertedPaths(pieces, svc)| == |pieces|
    ensures forall k :: 0 <= k < |pieces| ==>
      Some(ConvertedPaths(pieces, svc)[k]) == svc.convert(MediaPath(svc.mediaRoot, pieces[k]))
    decreases |pieces|
  {
    if pieces != [] {
      var n := |pieces| - 1;
      var init := pieces[..n];
      ConvertedPathsAll(init, svc);
      var jpg := svc.convert(MediaPath(svc.mediaRoot, pieces[n]));
      assert ConvertedPaths(pieces, svc) == ConvertedPaths(init, svc) + [jpg.value];
      assert forall k :: 0 <= k < n ==> init[k] == pieces[k];
    }
  }

  /** When no conversion gives a path, nothing is attached. */
  lemma {:induction false} ConvertedPathsNone(pieces: seq<string>, svc: Services)
    requires forall k :: 0 <= k < |pieces| ==> !Filled(svc.convert(MediaPath(svc.mediaRoot, pieces[k])))
    ensures ConvertedPaths(pieces, svc) == []
    decreases |pieces|
  {
    if pieces != [] {
      var n := |pieces| - 1;
      assert forall k :: 0 <= k < n ==> pieces[..n][k] == pieces[k];
      ConvertedPathsNone(pieces[..n], svc);
    }
  }

  /**
   * The round trip with the crawler: a flattened name turned back into a path
   * under the media root is the relative path of the resource plus `.jpg`,
   * when that relative path holds no `!`.
   */
  lemma MediaPathOfFlatName(root: string, subject: string)
    requires '!' !in FedoraRules.RelativePath(subject)
    ensures MediaPath(root, FedoraRules.DeriveFilename(subject).0) == PathJoin(root, FedoraRules.RelativePath(subject) + ".jpg")
  {
    var rel := FedoraRules.RelativePath(subject);
    var flat := FedoraRules.DeriveFilename(subject).0;
    FedoraRules.FlatNameSpec(subject);
    ReplaceCharAt(flat, '!', '/');
    var back := Replace(flat, "!", "/");
    assert forall i :: 0 <= i < |rel| ==> back[i] == rel[i];
    assert forall i :: |rel| <= i < |flat| ==> back[i] == ".jpg"[i - |rel|] by {
      forall i | |rel| <= i < |flat| ensures back[i] == ".jpg"[i - |rel|] {
        assert flat[i] == flat[|rel|..][i - |rel|];
      }
    }
    assert back == rel + ".jpg";
  }

  /** `if item_id:` as written: `item_id` is the pair `create_or_update_item` returns, and a pair is always true. */
  function AttachmentsAsWritten(r: OmekaQuery.Row, fs: seq<OmekaQuery.FieldSpec>, svc: Services, u: Upsert, title: Option<string>): seq<Action>
  {
    AttachCalls(ItemPair(u), MediaPlan(r, fs, svc), title)
  }

  /** The guard on the item id itself: media go only to an item that was saved, under its id. */
  function Attachments(r: OmekaQuery.Row, fs: seq<OmekaQuery.FieldSpec>, svc: Services, u: Upsert, title: Option<string>): (acts: seq<Action>)
    ensures acts != [] ==> Truthy(u.itemId)
    ensures forall a :: a in acts ==> a.Attached? && a.item == ItemIdRef(u.itemId) && a.title == title
    ensures Truthy(u.itemId) ==> (|acts| == |MediaPlan(r, fs, svc)|
      && forall k :: 0 <= k < |acts| ==> acts[k].path == MediaPlan(r, fs, svc)[k])
  {
    if Truthy(u.itemId) then AttachCalls(ItemIdRef(u.itemId), MediaPlan(r, fs, svc), title) else []
  }

  /**
   * As written, a failed save `(None, None)` still passes the guard: its media
   * are converted and attached to the pair itself, where the corrected guard
   * attaches nothing.
   */
  lemma FailedSaveStillAttaches(r: OmekaQuery.Row, fs: seq<OmekaQuery.FieldSpec>, svc: Services, title: Option<string>)
    requires MediaPlan(r, fs, svc) != []
    ensures var asWritten := AttachmentsAsWritten(r, fs, svc, Upsert(JNull, None), title);
      asWritten != [] && asWritten[0] == Attached(ItemPair(Upsert(JNull, None)), MediaPlan(r, fs, svc)[0], title)
    ensures Attachments(r, fs, svc, Upsert(JNull, None), title) == []
  {
  }

  /** The row up to the save: its key, its fields and the result of `create_or_update_item`. */
  function RowSave(r: OmekaQuery.Row, fs: seq<OmekaQuery.FieldSpec>, svc: Services): Result<(string, Upsert), Crash>
  {
    match RowKey(r)
    case Failure(e) => Failure(e)
    case Success(uri) =>
      match UpsertItem(uri, FieldsOf(r, fs), svc.apiUrl, svc.api)
      case Failure(e) => Failure(e)
      case Success(u) => Success((uri, u))
  }

  /** One iteration of the row loop as written: key, fields, save, then the media, attached to the pair. */
  function RowOutcome(r: OmekaQuery.Row, fs: seq<OmekaQuery.FieldSpec>, svc: Services): Result<seq<Action>, Crash>
  {
    match RowSave(r, fs, svc)
    case Failure(e) => Failure(e)
    case Success((uri, u)) => Success([Saved(uri, u)] + AttachmentsAsWritten(r, fs, svc, u, Get(FieldsOf(r, fs), TitleProperty)))
  }

  /** One iteration of the row loop with the guard on the item id. */
  function RowOutcomeCorrected(r: OmekaQuery.Row, fs: seq<OmekaQuery.FieldSpec>, svc: Services): Result<seq<Action>, Crash>
  {
    match RowSave(r, fs, svc)
    case Failure(e) => Failure(e)
    case Success((uri, u)) => Success([Saved(uri, u)] + Attachments(r, fs, svc, u, Get(FieldsOf(r, fs), TitleProperty)))
  }

  /**
   * Where the program as written and the corrected one agree: they raise
   * alike and save alike; for a saved item both attach the same paths with
   * the same title, the one to the pair and the other to the id; for a failed
   * save the corrected row attaches nothing, where the row as written still
   * attaches every path of the plan.
   */
  lemma RowOutcomesAgree(r: OmekaQuery.Row, fs: seq<OmekaQuery.FieldSpec>, svc: Services)
    ensures RowOutcome(r, fs, svc).Failure? <==> RowOutcomeCorrected(r, fs, svc).Failure?
    ensures RowOutcome(r, fs, svc).Failure? ==> RowOutcome(r, fs, svc) == RowOutcomeCorrected(r, fs, svc)
    ensures RowOutcome(r, fs, svc).Success? ==>
      var w := RowOutcome(r, fs, svc).value;
      var c := RowOutcomeCorrected(r, fs, svc).value;
      var plan := MediaPlan(r, fs, svc);
      w != [] && c != [] && w[0] == c[0] && w[0].Saved?
      && |w| == 1 + |plan|
      && (forall k :: 1 <= k < |w| ==> w[k] == Attached(ItemPair(w[0].result), plan[k - 1], Get(FieldsOf(r, fs), TitleProperty)))
      && (Truthy(w[0].result.itemId) ==>
            |c| == |w| && forall k :: 1 <= k < |c| ==> c[k] == w[k].(item := ItemIdRef(w[0].result.itemId)))
      && (!Truthy(w[0].result.itemId) ==> c == [w[0]])
  {
    if RowOutcome(r, fs, svc).Success? {
      var (uri, u) := RowSave(r, fs, svc).value;
      var title := Get(FieldsOf(r, fs), TitleProperty);
      var plan := MediaPlan(r, fs, svc);
      assert RowOutcome(r, fs, svc).value == [Saved(uri, u)] + AttachCalls(ItemPair(u), plan, title);
      assert RowOutcomeCorrected(r, fs, svc).value
        == [Saved(uri, u)] + (if Truthy(u.itemId) then AttachCalls(ItemIdRef(u.itemId), plan, title) else []);
      GuardedCalls(uri, u, plan, title);
    }
  }

  /** The calls after one save as written and with the guard: the same paths and title, to the pair or to the id. */
  lemma GuardedCalls(uri: string, u: Upsert, plan: seq<string>, title: Option<string>)
    ensures var w := [Saved(uri, u)] + AttachCalls(ItemPair(u), plan, title);
      var c := [Saved(uri, u)] + (if Truthy(u.itemId) then AttachCalls(ItemIdRef(u.itemId), plan, title) else []);
      w != [] && c != [] && w[0] == c[0] && w[0].Saved?
      && |w| == 1 + |plan|
      && (forall k :: 1 <= k < |w| ==> w[k] == Attached(ItemPair(w[0].result), plan[k - 1], title))
      && (Truthy(w[0].result.itemId) ==>
            |c| == |w| && forall k :: 1 <= k < |c| ==> c[k] == w[k].(item := ItemIdRef(w[0].result.itemId)))
      && (!Truthy(w[0].result.itemId) ==> c == [w[0]])
  {
  }

  /** The result of each row as written, in order. */
  function RowResults(rows: seq<OmekaQuery.Row>, fs: seq<OmekaQuery.FieldSpec>, svc: Services): (rs: seq<Result<seq<Action>, Crash>>)
    ensures |rs| == |rows|
    ensures forall i :: 0 <= i < |rows| ==> rs[i] == RowOutcome(rows[i], fs, svc)
  {
    seq(|rows|, i requires 0 <= i < |rows| => RowOutcome(rows[i], fs, svc))
  }

  /** The result of each row with the guard on the item id, in order. */
  function RowResultsCorrected(rows: seq<OmekaQuery.Row>, fs: seq<OmekaQuery.FieldSpec>, svc: Services): (rs: seq<Result<seq<Action>, Crash>>)
    ensures |rs| == |rows|
    ensures forall i :: 0 <= i < |rows| ==> rs[i] == RowOutcomeCorrected(rows[i], fs, svc)
  {
    seq(|rows|, i requires 0 <= i < |rows| => RowOutcomeCorrected(rows[i], fs, svc))
  }

  /** The loop over the row results: an exception in one row ends it, keeping the effects of the rows before. */
  function RunResults(rs: seq<Result<seq<Action>, Crash>>): Outcome
    decreases |rs|
  {
    if rs == [] then Outcome([], None)
    else
      var n := |rs| - 1;
      var prev := RunResults(rs[..n]);
      if prev.crash.Some? then prev
      else
        match rs[n]
        case Success(acts) => Outcome(prev.actions + acts, None)
        case Failure(e) => Outcome(prev.actions, Some(e))
  }

  /** The loop of `main` over the rows, as written. */
  function Run(rows: seq<OmekaQuery.Row>, fs: seq<OmekaQuery.FieldSpec>, svc: Services): Outcome
  {
    RunResults(RowResults(rows, fs, svc))
  }

  /** The loop of `main` over the rows, with the guard on the item id. */
  function RunCorrected(rows: seq<OmekaQuery.Row>, fs: seq<OmekaQuery.FieldSpec>, svc: Services): Outcome
  {
    RunResults(RowResultsCorrected(rows, fs, svc))
  }

  /** `main` after loading the rules: the query is sent, and a transport error of the endpoint raises before any row. */
  function Session(rules: OmekaQuery.Rules, endpoint: string -> Call<OmekaQuery.Reply>, svc: Services): Outcome
  {
    match endpoint(OmekaQuery.Query(rules))
    case TransportFailed => Outcome([], Some(Transport))
    case Answered(reply) => Run(OmekaQuery.RunQuery(reply), rules.fields, svc)
  }

  /** Every action of the loop comes from a row that was handled without an exception. */
  lemma {:induction false} RunResultsFrom(rs: seq<Result<seq<Action>, Crash>>, a: Action)
    requires a in RunResults(rs).actions
    ensures exists i :: 0 <= i < |rs| && rs[i].Success? && a in rs[i].value
    decreases |rs|
  {
    var n := |rs| - 1;
    var prev := RunResults(rs[..n]);
    if a in prev.actions {
      RunResultsFrom(rs[..n], a);
      var i :| 0 <= i < n && rs[..n][i].Success? && a in rs[..n][i].value;
      assert rs[..n][i] == rs[i];
    } else {
      assert rs[n].Success? && a in rs[n].value;
    }
  }

  /**
   * With the guard on the item id, every media attachment of the whole run
   * goes to the id of an item that was saved; the run raises exactly where
   * the program as written does.
   */
  lemma RunCorrectedAttachesSavedItems(rows: seq<OmekaQuery.Row>, fs: seq<OmekaQuery.FieldSpec>, svc: Services)
    ensures forall a :: a in RunCorrected(rows, fs, svc).actions && a.Attached? ==>
      a.item.ItemIdRef? && Truthy(a.item.id)
    ensures RunCorrected(rows, fs, svc).crash == Run(rows, fs, svc).crash
  {
    var rs := RowResultsCorrected(rows, fs, svc);
    forall a | a in RunResults(rs).actions && a.Attached?
      ensures a.item.ItemIdRef? && Truthy(a.item.id)
    {
      RunResultsFrom(rs, a);
      var i :| 0 <= i < |rs| && rs[i].Success? && a in rs[i].value;
      var (uri, u) := RowSave(rows[i], fs, svc).value;
      assert rs[i].value == [Saved(uri, u)] + Attachments(rows[i], fs, svc, u, Get(FieldsOf(rows[i], fs), TitleProperty));
    }
    var ws := RowResults(rows, fs, svc);
    forall i | 0 <= i < |rows|
      ensures ws[i].Success? <==> rs[i].Success?
      ensures ws[i].Failure? ==> ws[i] == rs[i]
    {
      RowOutcomesAgree(rows[i], fs, svc);
    }
    RunCrashAgree(ws, rs);
  }

  /** Two row sequences that raise at the same rows with the same exceptions end the loop alike. */
  lemma {:induction false} RunCrashAgree(ws: seq<Result<seq<Action>, Crash>>, rs: seq<Result<seq<Action>, Crash>>)
    requires |ws| == |rs|
    requires forall i :: 0 <= i < |ws| ==> (ws[i].Success? <==> rs[i].Success?) && (ws[i].Failure? ==> ws[i] == rs[i])
    ensures RunResults(ws).crash == RunResults(rs).crash
    decreases |ws|
  {
    if ws != [] {
      var n := |ws| - 1;
      RunCrashAgree(ws[..n], rs[..n]);
    }
  }

  /** The body of the row loop, with its field loop and its nested media loops. */
  method ProcessRow(r: OmekaQuery.Row, fs: seq<OmekaQuery.FieldSpec>, svc: Services) returns (res: Result<seq<Action>, Crash>)
    ensures res == RowOutcome(r, fs, svc)
  {
    if !("s" in r && "value" in r["s"]) {
      return Failure(KeyMissing);
    }
    var uri := r["s"]["value"];
    var fields := CollectFields(r, fs);
    var saved := CreateOrUpdateItem(uri, fields, svc.apiUrl, svc.api);
    if saved.Failure? {
      return Failure(saved.error);
    }
    var u := saved.value;
    assert RowSave(r, fs, svc) == Success((uri, u));
    var title := Get(fields, TitleProperty);
    // `if item_id:` tests the pair `u`, and a two-element tuple is always true
    var paths := MediaLoop(r, fs, svc);
    return Success([Saved(uri, u)] + AttachCalls(ItemPair(u), paths, title));
  }

  /** The loop of lines 38-47: the non-empty converted path of each piece of each media value, in order. */
  method MediaLoop(r: OmekaQuery.Row, fs: seq<OmekaQuery.FieldSpec>, svc: Services) returns (paths: seq<string>)
    ensures paths == MediaPlan(r, fs, svc)
  {
    paths := [];
    var i := 0;
    while i < |fs|
      invariant 0 <= i <= |fs|
      invariant paths == MediaPlan(r, fs[..i], svc)
    {
      var converted := ConvertPieces(MediaPieces(r, fs[i]), svc);
      paths := paths + converted;
      assert fs[..i + 1][..i] == fs[..i];
      i := i + 1;
    }
    assert fs[..i] == fs;
  }

  /** The loop of lines 44-47 over the pieces of one media value. */
  method ConvertPieces(pieces: seq<string>, svc: Services) returns (paths: seq<string>)
    ensures paths == ConvertedPaths(pieces, svc)
  {
    paths := [];
    var k := 0;
    while k < |pieces|
      invariant 0 <= k <= |pieces|
      invariant paths == ConvertedPaths(pieces[..k], svc)
    {
      var jpg := svc.convert(MediaPath(svc.mediaRoot, pieces[k]));
      if jpg.Some? && jpg.value != [] {
        paths := paths + [jpg.value];
      }
      assert pieces[..k + 1][..k] == pieces[..k];
      k := k + 1;
    }
    assert pieces[..k] == pieces;
  }

  /** `main` after loading the rules: build the query, run it, and handle the rows in order. */
  method ProcessRows(rules: OmekaQuery.Rules, endpoint: string -> Call<OmekaQuery.Reply>, svc: Services) returns (out: Outcome)
    ensures out == Session(rules, endpoint, svc)
  {
    var query := OmekaQuery.BuildSparql(rules);
    var reply := endpoint(query);
    if reply.TransportFailed? {
      return Outcome([], Some(Transport));
    }
    var rows := OmekaQuery.RunQuery(reply.answer);
    out := HandleRows(rows, rules.fields, svc);
  }

  /** The `for` loop of `main` over the rows of the result. */
  method HandleRows(rows: seq<OmekaQuery.Row>, fs: seq<OmekaQuery.FieldSpec>, svc: Services) returns (out: Outcome)
    ensures out == Run(rows, fs, svc)
  {
    ghost var rs := RowResults(rows, fs, svc);
    out := Outcome([], None);
    var i := 0;
    while i < |rows|
      invariant 0 <= i <= |rows|
      invariant out == RunResults(rs[..i])
      invariant out.crash.None?
    {
      var res := ProcessRow(rows[i], fs, svc);
      assert rs[..i + 1][..i] == rs[..i];
      assert rs[i] == res;
      if res.Failure? {
        out := Outcome(out.actions, Some(res.error));
        RunAfterCrash(rs, i + 1);
        assert rs[..|rs|] == rs;
        return;
      }
      out := Outcome(out.actions + res.value, None);
      i := i + 1;
    }
    assert rs[..i] == rs;
  }

  /** Once a row has raised, the later rows change nothing. */
  lemma {:induction false} RunAfterCrash(rs: seq<Result<seq<Action>, Crash>>, m: nat)
    requires m <= |rs| && RunResults(rs[..m]).crash.Some?
    ensures RunResults(rs) == RunResults(rs[..m])
    decreases |rs| - m
  {
    if m < |rs| {
      var n := |rs| - 1;
      assert rs[..n][..m] == rs[..m];
      RunAfterCrash(rs[..n], m);
    } else {
      assert rs[..m] == rs;
    }
  }

  /** The loop ends normally exactly when every row is handled without an exception. */
  lemma {:induction false} RunCompletes(rs: seq<Result<seq<Action>, Crash>>)
    ensures RunResults(rs).crash.None? <==> forall i :: 0 <= i < |rs| ==> rs[i].Success?
    decreases |rs|
  {
    if rs != [] {
      var n := |rs| - 1;
      RunCompletes(rs[..n]);
      assert forall i :: 0 <= i < n ==> rs[..n][i] == rs[i];
    }
  }

  /** The actions only grow: the effects of the first `m` rows stay at the front. */
  lemma {:induction false} RunPrefix(rs: seq<Result<seq<Action>, Crash>>, m: nat)
    requires m <= |rs|
    ensures var before := RunResults(rs[..m]).actions;
      |before| <= |RunResults(rs).actions| && RunResults(rs).actions[..|before|] == before
    decreases |rs| - m
  {
    if m < |rs| {
      var n := |rs| - 1;
      assert rs[..n][..m] == rs[..m];
      RunPrefix(rs[..n], m);
    } else {
      assert rs[..m] == rs;
    }
  }
}
