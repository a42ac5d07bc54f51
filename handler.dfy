/**
 * The two entry layers around the resolver: the help-and-support service,
 * which checks the ticket fields and turns the chosen category into a
 * response, and the entry point, which unwraps the event and dispatches on
 * the request type. A response is modelled as the record that is serialised
 * into the HTTP body: status code, success flag, message and data.
 */
module Handler {
  import opened Text
  import opened Classifier

  /** What the language-model call gives back: the reply text, or the text of
      the error it raised. */
  datatype ModelReply = Reply(text: string) | CallFailed(error: string)

  /** One recommended option of a successful response: the category's id and label. */
  datatype OptionEntry = OptionEntry(id: string, value: string)

  /** The `data` part of a response: empty, or the list of recommended options. */
  datatype Data = NoData | Recommended(option: seq<OptionEntry>)

  datatype Response = Response(statusCode: int, success: bool, message: string, data: Data)

  /** The ticket fields of a request; a field that is absent is read as empty. */
  datatype TicketData = TicketData(membershipType: string, options: seq<Category>, description: string)

  /** A decoded JSON value where an object with the fields `T` is expected:
      such an object, or any other value, which fails at its first field
      lookup with the error text `error`. */
  datatype Json<T> = Object(fields: T) | NotAnObject(error: string)

  /** A request; an absent or empty type is read as "". */
  datatype Request = Request(requestType: string, data: Json<TicketData>)

  /** The invocation event: the request itself (a direct call), or an HTTP
      event whose body text decodes to a value, or fails to decode (None). */
  datatype Event = Direct(payload: Json<Request>) | WithBody(body: Option<Json<Request>>)

  const HelpAndSupport := "HELP_AND_SUPPORT"
  const MissingFieldsMessage := "Missing required fields: description or options"
  const RecommendedMessage := "Ticket Category Recommended Successfully"
  const FailedPrefix := "Failed to classify ticket: "
  const InvalidJsonMessage := "Invalid JSON in request body"
  const MissingTypeMessage := "Missing request type"
  const UnsupportedPrefix := "Unsupported request type: "
  const UnexpectedPrefix := "Unexpected error: "

  /** A failure response: the status code, the message, no data. */
  function Failure(statusCode: int, message: string): Response
  {
    Response(statusCode, false, message, NoData)
  }

  /** The option list of a successful response for the chosen category. */
  function Recommendation(c: Category): Data
  {
    Recommended([OptionEntry(c.id, c.name)])
  }

  // ---------------------------------------------------------------------------
  // Help-and-support service

  /**
   * The help-and-support service: a request without a description or without
   * options is refused (400) before the model is consulted; otherwise a
   * failure of the classification becomes a 500 carrying the error text, and
   * a reply becomes a 200 recommending the category it resolves to.
   */
  function HandleHelpAndSupport(data: Json<TicketData>, reply: ModelReply): (r: Response)
    ensures r.success <==> r.statusCode == 200
    ensures r.statusCode == 200 || r.statusCode == 400 || r.statusCode == 500
    ensures r.statusCode != 200 ==> r.data == NoData
  {
    match data
    case NotAnObject(error) => Failure(500, FailedPrefix + error)
    case Object(ticket) =>
      if ticket.description == [] || ticket.options == [] then
        Failure(400, MissingFieldsMessage)
      else
        match reply
        case CallFailed(error) => Failure(500, FailedPrefix + error)
        case Reply(text) =>
          Response(200, true, RecommendedMessage, Recommendation(Classify(ticket.options, text)))
  }

  /** Ticket fields that pass the service's presence check. */
  predicate Complete(ticket: TicketData)
  {
    ticket.description != [] && ticket.options != []
  }

  /** The service refuses a ticket with 400 exactly when a field is missing,
      and then whatever the model would have said does not matter. */
  lemma MissingFieldsRefused(ticket: TicketData, reply: ModelReply)
    ensures var r := HandleHelpAndSupport(Object(ticket), reply);
      (r.statusCode == 400 <==> !Complete(ticket))
      && (!Complete(ticket) ==> r == Failure(400, MissingFieldsMessage))
  {
  }

  /** A successful response recommends exactly one category, the one the
      resolver picks for the reply, and it is one of the ticket's options;
      it happens exactly when the fields are complete and the model replied. */
  lemma ServiceRecommendsClassified(data: Json<TicketData>, reply: ModelReply)
    ensures var r := HandleHelpAndSupport(data, reply);
      (r.statusCode == 200 <==> data.Object? && Complete(data.fields) && reply.Reply?)
      && (r.statusCode == 200 ==>
            r.message == RecommendedMessage
            && exists c :: c in data.fields.options && c == Classify(data.fields.options, reply.text)
                 && r.data == Recommendation(c))
  {
    var r := HandleHelpAndSupport(data, reply);
    if r.statusCode == 200 {
      var c := Classify(data.fields.options, reply.text);
      assert c in data.fields.options && r.data == Recommendation(c);
    }
  }

  /** A 500 from the service carries the text of the error that stopped the
      classification: a failed model call, or data that is not an object. */
  lemma ServiceFailureCarriesError(data: Json<TicketData>, reply: ModelReply)
    ensures var r := HandleHelpAndSupport(data, reply);
      r.statusCode == 500 <==> data.NotAnObject? || (Complete(data.fields) && reply.CallFailed?)
    ensures var r := HandleHelpAndSupport(data, reply);
      && (data.NotAnObject? ==> r.message == FailedPrefix + data.error)
      && (data.Object? && Complete(data.fields) && reply.CallFailed? ==> r.message == FailedPrefix + reply.error)
  {
  }

  // ---------------------------------------------------------------------------
  // Entry point

  /** The services of the dispatcher, by request type. */
  function Dispatch(requestType: string): (service: Option<string>)
    ensures service.Some? <==> requestType == HelpAndSupport
  {
    if requestType == HelpAndSupport then Some(HelpAndSupport) else None
  }

  /** The request carried by the event, or the response that ends the call
      before dispatch (a body that is not JSON). */
  function Unwrap(event: Event): Option<Json<Request>>
  {
    match event
    case Direct(payload) => Some(payload)
    case WithBody(body) => body
  }

  /**
   * The entry point: an HTTP body that is not JSON is refused (400), a
   * request that is not an object fails (500), a request without a type and
   * one of a type no service handles are refused (400), and a help-and-support
   * request goes to its service.
   */
  function LambdaHandler(event: Event, reply: ModelReply): (r: Response)
    ensures r.success <==> r.statusCode == 200
    ensures r.statusCode == 200 || r.statusCode == 400 || r.statusCode == 500
  {
    match Unwrap(event)
    case None => Failure(400, InvalidJsonMessage)
    case Some(NotAnObject(error)) => Failure(500, UnexpectedPrefix + error)
    case Some(Object(request)) =>
      if request.requestType == [] then Failure(400, MissingTypeMessage)
      else match Dispatch(request.requestType)
        case Some(_) => HandleHelpAndSupport(request.data, reply)
        case None => Failure(400, UnsupportedPrefix + request.requestType)
  }

  /** The request the event carries, when it carries one. */
  predicate Carries(event: Event, request: Request)
  {
    Unwrap(event) == Some(Object(request))
  }

  /** The refusals of the entry point, each with its own message. */
  lemma HandlerRefusals(event: Event, reply: ModelReply)
    ensures event.WithBody? && event.body.None? ==>
      LambdaHandler(event, reply) == Failure(400, InvalidJsonMessage)
    ensures forall request :: Carries(event, request) && request.requestType == [] ==>
      LambdaHandler(event, reply) == Failure(400, MissingTypeMessage)
    ensures forall request :: Carries(event, request) && request.requestType !in {[], HelpAndSupport} ==>
      LambdaHandler(event, reply) == Failure(400, UnsupportedPrefix + request.requestType)
    ensures forall error :: Unwrap(event) == Some(NotAnObject(error)) ==>
      LambdaHandler(event, reply) == Failure(500, UnexpectedPrefix + error)
  {
  }

  /** A help-and-support request is answered by its service, whether it came
      directly or as an HTTP body: the two ways of calling agree. */
  lemma HandlerDispatches(request: Request, reply: ModelReply)
    requires request.requestType == HelpAndSupport
    ensures LambdaHandler(Direct(Object(request)), reply) == HandleHelpAndSupport(request.data, reply)
    ensures LambdaHandler(WithBody(Some(Object(request))), reply) == LambdaHandler(Direct(Object(request)), reply)
  {
  }

  /** Every successful response of the entry point answers a help-and-support
      request with complete fields, and recommends the category the resolver
      picks among that request's options. */
  lemma HandlerSuccess(event: Event, reply: ModelReply)
    requires LambdaHandler(event, reply).success
    ensures exists request ::
      && Carries(event, request)
      && request.requestType == HelpAndSupport
      && request.data.Object? && Complete(request.data.fields)
      && reply.Reply?
      && LambdaHandler(event, reply).data == Recommendation(Classify(request.data.fields.options, reply.text))
  {
    var request := Unwrap(event).value.fields;
    ServiceRecommendsClassified(request.data, reply);
    assert Carries(event, request);
  }
}
