/**
  The request-body gate that runs before a JSON body is decoded
  (pkg/json-http-validator): content type, then reading the body, then the
  duplicate pre-pass on a copy of the bytes, then putting the bytes back.
 */
module JsonHttpValidator {
  import opened Errors
  import DuplicateCheck
  import JsonDocument
  import DuplicateCheckFindings

  newtype Byte = x: int | 0 <= x < 256

  /** A request body: bytes that can be read in full, or a reader that fails. */
  datatype Body = Readable(bytes: seq<Byte>) | Broken(readError: Error)

  datatype Request = Request(contentType: string, body: Body)

  /** What `httperrorwriter.WriteError` puts on the wire. */
  datatype Reply = Reply(status: int, message: Error)

  const BadRequest := 400

  datatype Validation =
      /** `nil` returned; the request carries its body again */
    | Accepted(request: Request)
      /** a reply was written and an error returned; `bodyRead` says whether the body was consumed */
    | Rejected(reply: Reply, returned: Error, bodyRead: bool)
      /** the pre-pass hit its `t.(string)` assertion; the panic leaves the handler */
    | Crashed(offending: DuplicateCheck.Token)

  /** The error value the pre-pass returns for a failed check. */
  function CheckFailure(e: DuplicateCheck.CheckError): (err: Error)
    ensures IsKind(err, DuplicateInJSON) <==> e.IsDuplicate()
  {
    match e
    case Eof => Io("EOF")
    case DuplicateKey(_) => Wrapped("duplicate key", Sentinel(DuplicateInJSON))
    case DuplicateValue(_, _, _) => Wrapped("duplicate value", Sentinel(DuplicateInJSON))
  }

  /**
    `ValidateJSONRequest`. The content-type test (a package that is not part
    of this model) and the decoder's lexer are parameters.
   */
  function ValidateJSONRequest(
    r: Request,
    isJsonContentType: string -> bool,
    lex: seq<Byte> -> seq<DuplicateCheck.Token>
  ): (v: Validation)
    // the content type is checked first, and a wrong one leaves the body unread
    ensures !isJsonContentType(r.contentType) ==>
      v == Rejected(Reply(BadRequest, Sentinel(WrongMIME)), Sentinel(WrongRequestWithJSON), false)
    // a body that cannot be read is rejected with the reader's own error on the wire
    ensures isJsonContentType(r.contentType) && r.body.Broken? ==>
      v == Rejected(Reply(BadRequest, r.body.readError), Sentinel(WrongRequestWithJSON), true)
    // every rejection returns the same sentinel with status 400
    ensures v.Rejected? ==> v.returned == Sentinel(WrongRequestWithJSON) && v.reply.status == BadRequest
    // acceptance needs all three steps to pass, and hands the original bytes on
    ensures v.Accepted? <==>
      isJsonContentType(r.contentType) && r.body.Readable?
      && DuplicateCheck.CheckDuplicatesInJSON(lex(r.body.bytes), []).Done?
    ensures v.Accepted? ==> v.request == r
    // a failed check is a rejection whose reply names a duplicate exactly when one was found
    ensures (isJsonContentType(r.contentType) && r.body.Readable?
             && DuplicateCheck.CheckDuplicatesInJSON(lex(r.body.bytes), []).Failed?) ==>
      v.Rejected? && v.bodyRead
      && (IsKind(v.reply.message, DuplicateInJSON) <==> DuplicateCheck.CheckDuplicatesInJSON(lex(r.body.bytes), []).error.IsDuplicate())
    // a panic comes only from the pre-pass, on a readable body of the right type
    ensures v.Crashed? ==> (isJsonContentType(r.contentType) && r.body.Readable?
      && DuplicateCheck.CheckDuplicatesInJSON(lex(r.body.bytes), []) == DuplicateCheck.Panicked(v.offending))
  {
    if !isJsonContentType(r.contentType) then
      Rejected(Reply(BadRequest, Sentinel(WrongMIME)), Sentinel(WrongRequestWithJSON), false)
    else
      match r.body
      case Broken(e) => Rejected(Reply(BadRequest, e), Sentinel(WrongRequestWithJSON), true)
      case Readable(bytes) =>
        // the check reads a copy; the original bytes become the new body
        var copy := bytes;
        var step := DuplicateCheck.CheckDuplicatesInJSON(lex(copy), []);
        match step
        case Done(_) => Accepted(r.(body := Readable(bytes)))
        case Failed(e) => Rejected(Reply(BadRequest, CheckFailure(e)), Sentinel(WrongRequestWithJSON), true)
        case Panicked(t) => Crashed(t)
  }

  /**
    On a well-typed, readable body holding one document whose arrays hold
    scalars only, the gate lets the request through exactly when the
    document repeats no key and no array element, and otherwise answers 400
    naming `ErrDuplicateInJSON`.
   */
  lemma GateIsExactOnFlatDocuments(
    r: Request,
    isJsonContentType: string -> bool,
    lex: seq<Byte> -> seq<DuplicateCheck.Token>,
    j: JsonDocument.Json
  )
    requires isJsonContentType(r.contentType) && r.body.Readable?
    requires lex(r.body.bytes) == JsonDocument.Tokens(j) && JsonDocument.FlatArrays(j)
    ensures var v := ValidateJSONRequest(r, isJsonContentType, lex);
      && (v.Accepted? <==> !JsonDocument.HasDuplicate(j))
      && (!v.Accepted? ==> v.Rejected? && IsKind(v.reply.message, DuplicateInJSON))
  {
    assert JsonDocument.Tokens(j) + [] == JsonDocument.Tokens(j);
    DuplicateCheckFindings.AgreesOnFlatArrays(j, [], []);
  }
}
