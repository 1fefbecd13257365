/**
 * `create_or_update_item`: the JSON payload of an Omeka S item built from a
 * `{property: value}` mapping, and the choice between updating the item that
 * already carries the identifier and creating a new one.  The Omeka S API is
 * a parameter of the model: each request is answered by a function.
 */
module OmekaItems {
  import opened Wrappers
  import opened Strings
  import opened Dicts

  /** A JSON value, as `resp.json()` returns it (numbers are integers here). */
  datatype Json = JNull | JBool(b: bool) | JNum(n: int) | JStr(s: string) | JList(items: seq<Json>) | JObj(members: seq<(string, Json)>)

  /** Python truthiness of a decoded JSON value. */
  predicate Truthy(j: Json)
  {
    match j
    case JNull => false
    case JBool(b) => b
    case JNum(n) => n != 0
    case JStr(s) => s != []
    case JList(items) => items != []
    case JObj(members) => members != []
  }

  /** The body of a reply: decoded JSON, or text that `resp.json()` cannot decode. */
  datatype Body = NotJson | Decoded(json: Json)

  /** A reply of the API. */
  datatype Reply = Reply(status: int, body: Body)

  /**
   * The exception that ends the call: a missing key, a value of the wrong
   * type, a body that is not JSON, or a transport error of a request
   * (`requests` raises it, and nothing catches it).
   */
  datatype Crash = KeyMissing | WrongType | UndecodableBody | Transport

  /**
   * The `property_ids` table, by local name: every key of the table is
   * `dcterms:` followed by one of these names, with the id given here.
   */
  const TermIds: Dict<string, nat> := [
    ("title", 1), ("creator", 2), ("subject", 3), ("description", 4), ("publisher", 5),
    ("contributor", 6), ("date", 7), ("type", 8), ("format", 9), ("identifier", 10),
    ("source", 11), ("language", 12), ("relation", 13), ("coverage", 14), ("rights", 15)]

  const Identifier: string := "dcterms:identifier"

  /** `property_ids.get(prop)` */
  function PropertyId(prop: string): (r: Option<nat>)
    ensures r.Some? ==> StartsWith(prop, "dcterms:")
  {
    if StartsWith(prop, "dcterms:") then Get(TermIds, prop[8..]) else None
  }

  /** No local name of the table holds a colon, and no id is 0. */
  lemma TermIdsShape()
    ensures forall i :: 0 <= i < |TermIds| ==> ':' !in TermIds[i].0 && TermIds[i].1 != 0
  {
  }

  /** A property the table knows is one of its entries. */
  lemma {:induction false} GetEntry<K, V>(d: Dict<K, V>, k: K)
    requires Get(d, k).Some?
    ensures exists i :: 0 <= i < |d| && d[i] == (k, Get(d, k).value)
    decreases |d|
  {
    if d[0].0 != k {
      GetEntry(d[1..], k);
      var i :| 0 <= i < |d[1..]| && d[1..][i] == (k, Get(d, k).value);
      assert d[i + 1] == (k, Get(d, k).value);
    }
  }

  /** Upper case of an ASCII letter; other characters are unchanged. */
  function UpperChar(c: char): char
  {
    if 'a' <= c <= 'z' then (c as int - 32) as char else c
  }

  /** Lower case of an ASCII letter; other characters are unchanged. */
  function LowerChar(c: char): char
  {
    if 'A' <= c <= 'Z' then (c as int + 32) as char else c
  }

  /** `s.capitalize()` on ASCII text: the first character upper case, the rest lower case. */
  function Capitalize(s: string): (r: string)
    ensures |r| == |s|
    ensures s != [] ==> r[0] == UpperChar(s[0])
    ensures forall i :: 1 <= i < |s| ==> r[i] == LowerChar(s[i])
  {
    if s == [] then [] else [UpperChar(s[0])] + seq(|s| - 1, i requires 0 <= i < |s| - 1 => LowerChar(s[i + 1]))
  }

  /** `prop.split(":")[1]`: the text between the first and the second colon. */
  function LocalName(prop: string): (r: string)
    requires ':' in prop
  {
    CharFound(prop, ':');
    var i := Find(prop, ":").value;
    Split(prop, ":")[1]
  }

  /** For a `dcterms:` term with no further colon, the local name is what follows `dcterms:`. */
  lemma LocalNameOfTerm(prop: string)
    requires StartsWith(prop, "dcterms:") && ':' !in prop[8..]
    ensures ':' in prop && LocalName(prop) == prop[8..]
  {
    assert prop[7] == ':';
    forall j: nat | j < 7
      ensures !OccursAt(prop, ":", j)
    {
      assert prop[j] == "dcterms:"[j];
    }
    assert prop[7..8] == ":";
    FindFirst(prop, ":", 7);
    SingleCharAbsent(prop[8..], ':');
    assert Split(prop, ":") == [prop[..7]] + Split(prop[8..], ":");
  }

  /** `property_label` of an entry. */
  function Label(prop: string): string
    requires ':' in prop
  {
    Capitalize(LocalName(prop))
  }

  /** One entry of a property's value list: `type` is `literal` and `is_public` is true in every one. */
  datatype Literal = Literal(propertyId: nat, propertyLabel: string, value: string)

  /** The values of the payload's members. */
  datatype Member =
    | Literals(values: seq<Literal>)
    | Types(names: seq<string>)
    | Flag(on: bool)
    | Link(id: string, oid: nat)
    | Links(links: seq<(string, nat)>)

  type Payload = Dict<string, Member>

  /** The payload before any field is added: the identifier, the item's types, visibility, class 32 and item set 2. */
  function BasePayload(uri: string, apiUrl: string): Payload
  {
    [ (Identifier, Literals([Literal(10, "Identifier", uri)])),
      ("@type", Types(["o:Item", "dctype:PhysicalObject"])),
      ("o:is_public", Flag(true)),
      ("o:resource_class", Link(apiUrl + "resource_classes/32", 32)),
      ("o:item_set", Links([(apiUrl + "item_sets/2", 2)])) ]
  }

  /** Whether a field reaches the payload: not the identifier, and a property of the table. */
  predicate Publishable(prop: string)
  {
    prop != Identifier && PropertyId(prop).Some?
  }

  /** A property of the table has a colon, so its label is defined. */
  lemma PublishableHasColon(prop: string)
    requires PropertyId(prop).Some?
    ensures StartsWith(prop, "dcterms:") && ':' !in prop[8..] && ':' in prop && PropertyId(prop).value != 0
  {
    assert StartsWith(prop, "dcterms:");
    assert ':' !in prop[8..] && PropertyId(prop).value != 0 by {
      TermIdsShape();
      NamedEntry(TermIds, prop[8..]);
    }
    assert prop[7] == ':' by {
      var head := prop[..8];
      assert head == "dcterms:" && head[7] == prop[7];
    }
  }

  /** A name found in a table whose names hold no colon and whose ids are not 0 holds no colon, and its id is not 0. */
  lemma NamedEntry(d: Dict<string, nat>, name: string)
    requires Get(d, name).Some?
    requires forall i :: 0 <= i < |d| ==> ':' !in d[i].0 && d[i].1 != 0
    ensures ':' !in name && Get(d, name).value != 0
  {
    GetEntry(d, name);
  }

  /** The member a publishable field becomes. */
  function FieldMember(prop: string, value: string): Member
    requires PropertyId(prop).Some?
  {
    PublishableHasColon(prop);
    Literals([Literal(PropertyId(prop).value, Label(prop), value)])
  }

  /** One turn of the loop over `fields.items()`. */
  function AddField(data: Payload, prop: string, value: string): Payload
  {
    if !Publishable(prop) then data else Put(data, prop, FieldMember(prop, value))
  }

  /** The payload after the loop over the fields, in their order. */
  function PayloadOf(uri: string, fields: Dict<string, string>, apiUrl: string): Payload
  {
    if fields == [] then BasePayload(uri, apiUrl)
    else
      var n := |fields| - 1;
      AddField(PayloadOf(uri, fields[..n], apiUrl), fields[n].0, fields[n].1)
  }

  /** The loop of `create_or_update_item` that fills `data`. */
  method BuildPayload(uri: string, fields: Dict<string, string>, apiUrl: string) returns (data: Payload)
    ensures data == PayloadOf(uri, fields, apiUrl)
  {
    data := BasePayload(uri, apiUrl);
    var i := 0;
    while i < |fields|
      invariant 0 <= i <= |fields|
      invariant data == PayloadOf(uri, fields[..i], apiUrl)
    {
      var (prop, value) := fields[i];
      assert fields[..i + 1][..i] == fields[..i];
      if prop == Identifier {
      } else {
        var propId := PropertyId(prop);
        if propId.None? {
        } else {
          PublishableHasColon(prop);
          data := Put(data, prop, Literals([Literal(propId.value, Capitalize(LocalName(prop)), value)]));
        }
      }
      i := i + 1;
    }
    assert fields[..i] == fields;
  }

  /** The base members are never overwritten: none of them is a `dcterms:` property other than the identifier. */
  lemma BaseNotPublishable(prop: string, uri: string, apiUrl: string)
    requires StartsWith(prop, "dcterms:") && prop != Identifier
    ensures prop !in Keys(BasePayload(uri, apiUrl)) && Get(BasePayload(uri, apiUrl), prop) == None
  {
    var b := BasePayload(uri, apiUrl);
    assert prop[0] == "dcterms:"[0];
    var names := [Identifier, "@type", "o:is_public", "o:resource_class", "o:item_set"];
    assert forall i :: 1 <= i < |names| ==> names[i][0] != 'd';
    assert Keys(b) == names;
    assert prop !in names;
    GetPresent(b, prop);
  }

  /**
   * The payload always identifies the item by `uri` (an identifier among the
   * fields is ignored), carries each publishable field under its property
   * with the table's id and the capitalised local name as label, and nothing
   * else: every other member is the base payload's.
   */
  lemma {:induction false} PayloadMembers(uri: string, fields: Dict<string, string>, apiUrl: string, prop: string)
    requires UniqueKeys(fields)
    ensures var data := PayloadOf(uri, fields, apiUrl);
      Get(data, Identifier) == Some(Literals([Literal(10, "Identifier", uri)]))
      && (Publishable(prop) ==>
            Get(data, prop) == if Get(fields, prop).Some? then Some(FieldMember(prop, Get(fields, prop).value)) else None)
      && (!Publishable(prop) ==> Get(data, prop) == Get(BasePayload(uri, apiUrl), prop))
    decreases |fields|
  {
    if fields == [] {
      if Publishable(prop) {
        BaseNotPublishable(prop, uri, apiUrl);
      }
    } else {
      var n := |fields| - 1;
      PayloadMembers(uri, fields[..n], apiUrl, prop);
      GetLast(fields, prop);
      if Publishable(prop) && fields[n].0 != prop {
        assert Get(fields[..n], prop) == Get(fields, prop);
      }
    }
  }

  /** `KeyOrder`: the publishable properties of the fields, in the order they come. */
  function PublishedKeys(fields: Dict<string, string>): (r: seq<string>)
    ensures forall k :: k in r ==> Publishable(k)
  {
    if fields == [] then []
    else
      var n := |fields| - 1;
      PublishedKeys(fields[..n]) + (if Publishable(fields[n].0) then [fields[n].0] else [])
  }

  /** With distinct field names the members come in insertion order: the base members, then the published fields in field order. */
  lemma {:induction false} PayloadKeys(uri: string, fields: Dict<string, string>, apiUrl: string)
    requires UniqueKeys(fields)
    ensures Keys(PayloadOf(uri, fields, apiUrl)) == Keys(BasePayload(uri, apiUrl)) + PublishedKeys(fields)
    decreases |fields|
  {
    if fields != [] {
      var n := |fields| - 1;
      var prop := fields[n].0;
      var init := fields[..n];
      assert UniqueKeys(init);
      PayloadKeys(uri, init, apiUrl);
      if Publishable(prop) {
        BaseNotPublishable(prop, uri, apiUrl);
        PublishedKeysAbsent(init, prop);
        PutAppendsKey(PayloadOf(uri, init, apiUrl), prop, FieldMember(prop, fields[n].1),
          Keys(BasePayload(uri, apiUrl)), PublishedKeys(init));
      }
    }
  }

  /** A name that is not among the fields is not among their published keys. */
  lemma {:induction false} PublishedKeysAbsent(fields: Dict<string, string>, prop: string)
    requires forall i :: 0 <= i < |fields| ==> fields[i].0 != prop
    ensures prop !in PublishedKeys(fields)
    decreases |fields|
  {
    if fields != [] {
      PublishedKeysAbsent(fields[..|fields| - 1], prop);
    }
  }

  /** `find_item_by_identifier` after the request: the first element of a non-empty list, and `None` otherwise. */
  function FindItem(body: Body): (r: Json)
    ensures r != JNull ==> body.Decoded? && body.json.JList? && body.json.items != [] && r == body.json.items[0]
    ensures body.Decoded? && body.json.JList? && body.json.items != [] ==> r == body.json.items[0]
  {
    match body
    case NotJson => JNull
    case Decoded(j) => if j.JList? && j.items != [] then j.items[0] else JNull
  }

  /** The API: the item search by identifier, the PATCH of an item, and the POST of a new one; each may fail in transport. */
  datatype Api = Api(search: string -> Call<Body>, patch: (Json, Payload) -> Call<Reply>, post: Payload -> Call<Reply>)

  /** `x["o:id"]` on a decoded value: only an object with that member has one. */
  function ItemId(j: Json): Result<Json, Crash>
  {
    match j
    case JObj(members) => if Get(members, "o:id").Some? then Success(Get(members, "o:id").value) else Failure(KeyMissing)
    case _ => Failure(WrongType)
  }

  /** `response.json().get("o:id")` */
  function CreatedId(body: Body): Result<Json, Crash>
  {
    match body
    case NotJson => Failure(UndecodableBody)
    case Decoded(JObj(members)) => Success(if Get(members, "o:id").Some? then Get(members, "o:id").value else JNull)
    case Decoded(_) => Failure(WrongType)
  }

  /** `status_code in (200, 201)` */
  predicate Accepted(status: int)
  {
    status == 200 || status == 201
  }

  /** The pair `create_or_update_item` returns: the item id and `"updated"`/`"created"`, or `(None, None)`. */
  datatype Upsert = Upsert(itemId: Json, action: Option<string>)

  /** `create_or_update_item` */
  function UpsertItem(uri: string, fields: Dict<string, string>, apiUrl: string, api: Api): Result<Upsert, Crash>
  {
    var data := PayloadOf(uri, fields, apiUrl);
    match api.search(uri)
    case TransportFailed => Failure(Transport)
    case Answered(found) =>
      var existing := FindItem(found);
      if Truthy(existing) then
        match ItemId(existing)
        case Failure(e) => Failure(e)
        case Success(itemId) =>
          match api.patch(itemId, data)
          case TransportFailed => Failure(Transport)
          case Answered(reply) =>
            if Accepted(reply.status) then Success(Upsert(itemId, Some("updated")))
            else Success(Upsert(JNull, None))
      else
        match api.post(data)
        case TransportFailed => Failure(Transport)
        case Answered(reply) =>
          if !Accepted(reply.status) then Success(Upsert(JNull, None))
          else
            match CreatedId(reply.body)
            case Failure(e) => Failure(e)
            case Success(itemId) => Success(Upsert(itemId, Some("created")))
  }

  /** `create_or_update_item`: the payload loop, the lookup, then one PATCH or one POST. */
  method CreateOrUpdateItem(uri: string, fields: Dict<string, string>, apiUrl: string, api: Api) returns (r: Result<Upsert, Crash>)
    ensures r == UpsertItem(uri, fields, apiUrl, api)
  {
    var data := BuildPayload(uri, fields, apiUrl);
    var found := api.search(uri);
    if found.TransportFailed? {
      return Failure(Transport);
    }
    var existing := FindItem(found.answer);
    if Truthy(existing) {
      var id := ItemId(existing);
      if id.Failure? {
        return Failure(id.error);
      }
      var response := api.patch(id.value, data);
      if response.TransportFailed? {
        return Failure(Transport);
      }
      if response.answer.status == 200 || response.answer.status == 201 {
        return Success(Upsert(id.value, Some("updated")));
      }
      return Success(Upsert(JNull, None));
    }
    var response := api.post(data);
    if response.TransportFailed? {
      return Failure(Transport);
    }
    if response.answer.status == 200 || response.answer.status == 201 {
      var id := CreatedId(response.answer.body);
      if id.Failure? {
        return Failure(id.error);
      }
      return Success(Upsert(id.value, Some("created")));
    }
    return Success(Upsert(JNull, None));
  }

  /**
   * The outcomes once the search has answered: an existing item is updated in
   * place under its own id; otherwise a new item is created under the id of
   * the reply; any status other than 200 or 201 gives `(None, None)`; a
   * transport error of the request sent raises.  The PATCH goes to the id of
   * the item found, with the payload of the fields.
   */
  lemma UpsertOutcomes(uri: string, fields: Dict<string, string>, apiUrl: string, api: Api)
    requires api.search(uri).Answered?
    ensures var r := UpsertItem(uri, fields, apiUrl, api);
      var existing := FindItem(api.search(uri).answer);
      var data := PayloadOf(uri, fields, apiUrl);
      (r.Success? && r.value.action == Some("updated") <==>
         Truthy(existing) && ItemId(existing).Success? && api.patch(ItemId(existing).value, data).Answered?
         && Accepted(api.patch(ItemId(existing).value, data).answer.status))
      && (r.Success? && r.value.action == Some("updated") ==> r.value.itemId == ItemId(existing).value)
      && (r.Success? && r.value.action == Some("created") <==>
         !Truthy(existing) && api.post(data).Answered? && Accepted(api.post(data).answer.status)
         && CreatedId(api.post(data).answer.body).Success?)
      && (r.Success? && r.value.action == Some("created") ==> r.value.itemId == CreatedId(api.post(data).answer.body).value)
      && (r.Success? && r.value.action.None? ==> r.value.itemId == JNull)
      && (r == Success(Upsert(JNull, None)) <==>
         if Truthy(existing) then ItemId(existing).Success? && api.patch(ItemId(existing).value, data).Answered?
           && !Accepted(api.patch(ItemId(existing).value, data).answer.status)
         else api.post(data).Answered? && !Accepted(api.post(data).answer.status))
      && (r == Failure(Transport) <==>
         if Truthy(existing) then ItemId(existing).Success? && api.patch(ItemId(existing).value, data).TransportFailed?
         else api.post(data).TransportFailed?)
  {
  }

  /** A transport error of the search raises before any item is written. */
  lemma SearchUnreachable(uri: string, fields: Dict<string, string>, apiUrl: string, api: Api)
    requires api.search(uri).TransportFailed?
    ensures UpsertItem(uri, fields, apiUrl, api) == Failure(Transport)
  {
  }
}
