/**
 The `POST /data` handler of the server (Server/Controller/Data.js): it reads
 `document_type` and `data` from the parsed request body, rejects the request
 when either is falsy, and otherwise saves one document and reports it. The
 document store is a sequence of records; whether its write fails is an input.
 */
module DataController {
  import opened JsRuntime

  /** A saved document: the shape `(document_type, data)` of the schema,
      without the timestamps and id the store adds. */
  datatype Record = Record(documentType: JsValue, data: JsValue)

  /** The status code and the JSON body `{ message, document? }` sent back. */
  datatype Response = Response(status: nat, message: string, document: Option<Record>)

  const RequiredMessage: string := "document_type and data are required"
  const SavedMessage: string := "Document saved successfully"
  const ServerErrorMessage: string := "Server error"

  /** `v[key]` as read by object destructuring of a value that is not nullish:
      an own property of a plain object, and `undefined` for everything else
      (no prototype in play defines `document_type` or `data`). */
  function Property(v: JsValue, key: string): (r: JsValue)
    requires v != Undefined && v != Null
    ensures v.Object? && key in v.props ==> r == v.props[key]
    ensures !(v.Object? && key in v.props) ==> r == Undefined
    ensures !v.Object? ==> !Truthy(r)
  {
    if v.Object? && key in v.props then v.props[key] else Undefined
  }

  /** Both fields of a record are truthy: what the handler lets through. */
  predicate Complete(r: Record)
  {
    Truthy(r.documentType) && Truthy(r.data)
  }

  /** How far the handler gets with the body (lines 8-10). */
  datatype BodyRead =
      /** Destructuring `undefined` or `null` throws before any check. */
    | Unreadable
      /** One of the two fields is missing or falsy. */
    | MissingFields
      /** Both fields are truthy; the record to save. */
    | Fields(record: Record)

  function ReadBody(body: JsValue): (r: BodyRead)
    ensures r.Unreadable? <==> body == Undefined || body == Null
    ensures r.MissingFields? <==>
              body != Undefined && body != Null
              && !(Truthy(Property(body, "document_type")) && Truthy(Property(body, "data")))
    ensures r.Fields? ==>
              Complete(r.record)
              && r.record == Record(Property(body, "document_type"), Property(body, "data"))
    ensures r.Fields? ==> body.Object?
  {
    if body == Undefined || body == Null then Unreadable
    else
      var documentType := Property(body, "document_type");
      var data := Property(body, "data");
      if !Truthy(documentType) || !Truthy(data) then MissingFields
      else Fields(Record(documentType, data))
  }

  /** Each falsy value in place of `document_type` gets the request rejected,
      whatever `data` holds: the empty string, zero, `false`, `null`, or the
      field left out. */
  lemma FalsyDocumentTypeRejected(data: JsValue, documentType: JsValue)
    requires documentType in {Str([]), Number(0.0), Bool(false), Null}
    ensures ReadBody(Object(map["document_type" := documentType, "data" := data])) == MissingFields
    ensures ReadBody(Object(map["data" := data])) == MissingFields
  {
    var m := map["document_type" := documentType, "data" := data];
    assert "document_type" in m && m["document_type"] == documentType;
    assert "document_type" !in map["data" := data];
  }

  /** The same for `data`. */
  lemma FalsyDataRejected(documentType: JsValue, data: JsValue)
    requires data in {Str([]), Number(0.0), Bool(false), Null}
    ensures ReadBody(Object(map["document_type" := documentType, "data" := data])) == MissingFields
    ensures ReadBody(Object(map["document_type" := documentType])) == MissingFields
  {
    var m := map["document_type" := documentType, "data" := data];
    assert "data" in m && m["data"] == data;
    assert "data" !in map["document_type" := documentType];
  }

  /** A body with both fields truthy is accepted with exactly those two values,
      whatever other properties it carries. */
  lemma CompleteBodyAccepted(props: map<string, JsValue>, documentType: JsValue, data: JsValue)
    requires Truthy(documentType) && Truthy(data)
    ensures ReadBody(Object(props["document_type" := documentType]["data" := data]))
            == Fields(Record(documentType, data))
  {
    var m := props["document_type" := documentType]["data" := data];
    assert m["document_type"] == documentType && m["data"] == data;
  }

  /** The response to one request and the store afterwards. */
  datatype Outcome = Outcome(response: Response, records: seq<Record>)

  /** The handler on values (lines 6-19): 400 for a missing field, 201 with
      the new record when the save succeeds, and 500 when destructuring
      throws or the save fails. Exactly one status is sent; the store gains a
      record only with 201, and then exactly that record. */
  function Handle(records: seq<Record>, body: JsValue, saveFails: bool): (o: Outcome)
    ensures o.response.status == 400 || o.response.status == 201 || o.response.status == 500
    ensures o.response.status == 400 <==> ReadBody(body).MissingFields?
    ensures o.response.status == 201 <==> ReadBody(body).Fields? && !saveFails
    ensures o.response.status == 400 ==> o.response.message == RequiredMessage
    ensures o.response.status == 500 ==> o.response.message == ServerErrorMessage
    ensures o.response.status == 201 ==>
              o.response.message == SavedMessage
              && o.response.document == Some(ReadBody(body).record)
              && o.records == records + [ReadBody(body).record]
    ensures o.response.status != 201 ==> o.records == records && o.response.document == None
  {
    match ReadBody(body)
    case Unreadable => Outcome(Response(500, ServerErrorMessage, None), records)
    case MissingFields => Outcome(Response(400, RequiredMessage, None), records)
    case Fields(record) =>
      if saveFails then Outcome(Response(500, ServerErrorMessage, None), records)
      else Outcome(Response(201, SavedMessage, Some(record)), records + [record])
  }

  /** A request as it reaches the handler: the parsed body, and whether the
      store write will fail. */
  datatype Request = Request(body: JsValue, saveFails: bool)

  /** The store after serving `requests` one after another. */
  function Serve(records: seq<Record>, requests: seq<Request>): seq<Record>
    decreases |requests|
  {
    if requests == [] then records
    else Serve(Handle(records, requests[0].body, requests[0].saveFails).records, requests[1..])
  }

  /** How many of `requests`, served one after another from `records`, are
      answered 201. */
  function Created(records: seq<Record>, requests: seq<Request>): nat
    decreases |requests|
  {
    if requests == [] then 0
    else
      var o := Handle(records, requests[0].body, requests[0].saveFails);
      (if o.response.status == 201 then 1 else 0) + Created(o.records, requests[1..])
  }

  /** Over any run of requests the store only grows, by one record per 201
      response, and every record it gains has both fields truthy. */
  lemma {:induction false} ServeGrowsByCreated(records: seq<Record>, requests: seq<Request>)
    ensures |Serve(records, requests)| == |records| + Created(records, requests)
    ensures Serve(records, requests)[..|records|] == records
    ensures forall i :: |records| <= i < |Serve(records, requests)| ==>
              Complete(Serve(records, requests)[i])
    decreases |requests|
  {
    if requests != [] {
      var o := Handle(records, requests[0].body, requests[0].saveFails);
      ServeGrowsByCreated(o.records, requests[1..]);
      var final := Serve(records, requests);
      assert final == Serve(o.records, requests[1..]);
      assert final[..|o.records|] == o.records;
      assert o.records[..|records|] == records;
      assert final[..|records|] == final[..|o.records|][..|records|];
      forall i | |records| <= i < |final| ensures Complete(final[i]) {
        if i < |o.records| {
          assert final[i] == o.records[i];
          assert o.records[i] == ReadBody(requests[0].body).record;
        }
      }
    }
  }

  /** The collection of saved documents. */
  class DocumentStore {
    var records: seq<Record>

    /** Only records that passed validation are ever stored. */
    ghost predicate Valid()
      reads this
    {
      forall i :: 0 <= i < |records| ==> Complete(records[i])
    }

    constructor ()
      ensures Valid() && records == []
    {
      records := [];
    }

    /** `router.post("/data", …)`: at most one record is appended, and the
        response and the new store are those `Handle` describes. */
    method PostData(body: JsValue, saveFails: bool) returns (resp: Response)
      requires Valid()
      modifies this
      ensures Valid()
      ensures resp == Handle(old(records), body, saveFails).response
      ensures records == Handle(old(records), body, saveFails).records
    {
      var read := ReadBody(body);
      if read.Unreadable? {
        return Response(500, ServerErrorMessage, None);
      }
      if read.MissingFields? {
        return Response(400, RequiredMessage, None);
      }
      var record := read.record;
      if saveFails {
        return Response(500, ServerErrorMessage, None);
      }
      records := records + [record];
      resp := Response(201, SavedMessage, Some(record));
    }
  }
}
