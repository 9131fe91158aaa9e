/**
  Shapes shared by the three controllers: the request pieces a handler reads,
  the JSON responses it sends, and the external collaborators it calls
  (schema validation, image validation, password hashing, token signing),
  which are passed in explicitly instead of being ambient libraries.
 */
module Http {

  datatype Option<+T> = None | Some(value: T)

  /** A request body as parsed by the JSON / urlencoded / multipart middleware. */
  type Body = map<string, string>

  /** One entry of the validator's error list (`error.messages`). */
  datatype FieldMessage = FieldMessage(field: string, message: string)

  /** Outcome of a schema's `validate(body)`: the cleaned payload, or the thrown validation error. */
  datatype Validation<+T> = Valid(payload: T) | Invalid(messages: seq<FieldMessage>)

  /** An uploaded file as attached by the upload middleware under `req.files[key]`. */
  datatype Upload = Upload(name: string, size: int, mimetype: string)

  /** The identity the auth middleware attaches as `req.user`: the token's claims. */
  datatype Claims = Claims(id: int, name: string, email: string, profile: Option<string>)

  /** Validated payloads of the three schemas. */
  datatype RegisterPayload = RegisterPayload(name: string, email: string, password: string)
  datatype LoginPayload = LoginPayload(email: string, password: string)
  datatype NewsPayload = NewsPayload(title: string, description: string)

  /**
    The collaborators the controllers call but do not define: the schema
    validators, `imageValidator(size, mimetype)` (null or a message; the
    arguments are `undefined` when no file came under the expected key),
    the password hash and its comparison, and the token signer.
   */
  datatype Services = Services(
    registerSchema: Body -> Validation<RegisterPayload>,
    loginSchema: Body -> Validation<LoginPayload>,
    newsSchema: Body -> Validation<NewsPayload>,
    imageCheck: (Option<int>, Option<string>) -> Option<string>,
    hash: string -> string,
    verify: (string, string) -> bool,
    sign: Claims -> string)

  /** `req.files?.[key]`: the upload under a form field, if one was sent. */
  function FileUnder(files: map<string, Upload>, key: string): Option<Upload>
  {
    if key in files then Some(files[key]) else None
  }

  /** The image validator applied to the size and type of a file that may be absent. */
  function CheckImage(svc: Services, file: Option<Upload>): Option<string>
  {
    match file
    case Some(f) => svc.imageCheck(Some(f.size), Some(f.mimetype))
    case None => svc.imageCheck(None, None)
  }

  /** A stored user as it appears in a response (the row, hash included). */
  datatype UserRecord = UserRecord(id: int, name: string, email: string, password: string, profile: Option<string>)

  /** A stored news row as it appears in a response. */
  datatype NewsRecord = NewsRecord(id: int, title: string, description: string, image: string, userId: int)

  /** The `user: {id, name, profile}` projection joined onto each news item. */
  datatype Author = Author(id: int, name: string, profile: Option<string>)

  /** A news row joined with its author, as handed to the response transform. */
  datatype NewsItem = NewsItem(news: NewsRecord, author: Option<Author>)

  datatype PageMeta = PageMeta(totalPages: int, currentPage: int, currentLimit: int)

  /** The JSON bodies the controllers send. */
  datatype Payload =
    | Message(message: string)                                  // { message }
    | StatusMessage(status: int, message: string)               // { status, message }
    | Errors(errors: map<string, string>)                       // { errors: { field: message } }
    | ValidationErrors(messages: seq<FieldMessage>)             // { errors: error.messages }
    | UserCreated(status: int, message: string, user: UserRecord)
    | LoggedIn(message: string, accessToken: string)
    | NewsPage(status: int, items: seq<NewsItem>, metadata: PageMeta)
    | NewsCreated(status: int, message: string, created: NewsRecord)
    | NewsFound(status: int, found: Option<NewsItem>)
    | CurrentUser(status: int, current: Claims)

  datatype Response = Response(code: int, payload: Payload)

  /** The generic failure of the news and auth controllers' catch blocks. */
  const ServerErrorMessage := "Something Went Wrong! Please Try Again..."

  function ServerError(): Response
  {
    Response(500, StatusMessage(500, ServerErrorMessage))
  }

  /** A 400 carrying one hand-built field error. */
  function FieldError(field: string, message: string): Response
  {
    Response(400, Errors(map[field := message]))
  }
}
