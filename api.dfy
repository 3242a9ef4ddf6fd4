/**
 * The REST client of the widget: the multipart body `addComment` posts, and how
 * `getAttachment`, `validateComment`, `verifyCaptcha` and `getCaptcha` turn what the
 * network or the server did into a returned value or a thrown error.
 *
 * The transports (axios, `fetch`, `FormData`, `Blob`, `URL.createObjectURL`) are not
 * modelled: every operation takes the outcome of its request as a parameter.
 */
module Api {
  import opened Wrappers
  import opened Types
  import Strings

  // ---------------------------------------------------------------------------
  // addComment: the multipart body

  /** A value passed to `formData.append`: a string or a file. */
  datatype FormValue = Text(text: string) | Upload(file: File)

  /** The field names `addComment` uses; `Name` gives each one's text on the wire. */
  datatype Key = Username | Email | Content | ParentId | Homepage | FileKey

  function Name(k: Key): string {
    match k
    case Username => "username"
    case Email => "email"
    case Content => "content"
    case ParentId => "parentId"
    case Homepage => "homepage"
    case FileKey => "file"
  }

  datatype Field = Field(key: Key, value: FormValue)

  /** The arguments of `addComment`; an absent optional argument is `None`. */
  datatype Submission = Submission(
    username: string,
    email: string,
    content: string,
    parentId: Option<int>,
    homepage: Option<string>,
    file: Option<File>)

  /** The keys of a multipart body, in order. */
  function Keys(form: seq<Field>): seq<Key> {
    seq(|form|, i requires 0 <= i < |form| => form[i].key)
  }

  /** The first value stored under `key`, as a server reads a multipart body. */
  function Lookup(form: seq<Field>, key: Key): Option<FormValue> {
    if form == [] then None
    else if form[0].key == key then Some(form[0].value)
    else Lookup(form[1..], key)
  }

  /** Appending a field changes no lookup of a key that was already present, and finds the new key otherwise. */
  lemma LookupAppend(form: seq<Field>, f: Field, key: Key)
    ensures key !in Keys(form) ==> Lookup(form, key) == None
    ensures key in Keys(form) ==> Lookup(form + [f], key) == Lookup(form, key)
    ensures key !in Keys(form) && key == f.key ==> Lookup(form + [f], key) == Some(f.value)
    ensures key !in Keys(form) && key != f.key ==> Lookup(form + [f], key) == None
    decreases |form|
  {
    if form != [] {
      assert (form + [f])[1..] == form[1..] + [f];
      assert Keys(form) == [form[0].key] + Keys(form[1..]);
      LookupAppend(form[1..], f, key);
    }
  }

  /** The text stored under `key`, if the key is present with a text value. */
  function TextOf(form: seq<Field>, key: Key): Option<string> {
    match Lookup(form, key)
    case Some(Text(t)) => Some(t)
    case _ => None
  }

  /**
   * What a server reads back from an `addComment` body: the three mandatory text
   * fields, and each optional field when its key is present. A body with a missing
   * mandatory field, a field of the wrong kind or an unreadable `parentId` is refused.
   */
  function ReadSubmission(form: seq<Field>): Option<Submission> {
    var username, email, content := TextOf(form, Username), TextOf(form, Email), TextOf(form, Content);
    var parentId, homepage, file := Lookup(form, ParentId), Lookup(form, Homepage), Lookup(form, FileKey);
    if && username.Some? && email.Some? && content.Some?
       && (parentId.None? || (parentId.value.Text? && Strings.ParseInt(parentId.value.text).Some?))
       && (homepage.None? || homepage.value.Text?)
       && (file.None? || file.value.Upload?)
    then
      Some(Submission(
        username.value, email.value, content.value,
        if parentId.None? then None else Strings.ParseInt(parentId.value.text),
        if homepage.None? then None else Some(homepage.value.text),
        if file.None? then None else Some(file.value.file)))
    else None
  }

  /**
   * `addComment`'s body: `username`, `email` and `content` always, in that order; then
   * `parentId` as its decimal text when given, `homepage` when given, and `file` when
   * one is attached.
   */
  method AddCommentForm(username: string, email: string, content: string,
                        parentId: Option<int>, homepage: Option<string>, file: Option<File>)
    returns (form: seq<Field>)
    ensures Keys(form) == [Username, Email, Content]
                        + (if parentId.Some? then [ParentId] else [])
                        + (if homepage.Some? then [Homepage] else [])
                        + (if file.Some? then [FileKey] else [])
    ensures ReadSubmission(form) == Some(Submission(username, email, content, parentId, homepage, file))
  {
    form := MandatoryFields(username, email, content);
    var parentText := if parentId.Some? then Some(Text(Strings.IntToDecimal(parentId.value))) else None;
    form := AppendIfPresent(form, ParentId, parentText);
    form := AppendIfPresent(form, Homepage, if homepage.Some? then Some(Text(homepage.value)) else None);
    form := AppendIfPresent(form, FileKey, if file.Some? then Some(Upload(file.value)) else None);
    if parentId.Some? {
      Strings.IntToDecimalRoundTrip(parentId.value);
    }
    ReadBack(form, Submission(username, email, content, parentId, homepage, file));
  }

  /** The three appends every body starts with. */
  method MandatoryFields(username: string, email: string, content: string) returns (form: seq<Field>)
    ensures Keys(form) == [Username, Email, Content]
    ensures Lookup(form, Username) == Some(Text(username))
    ensures Lookup(form, Email) == Some(Text(email))
    ensures Lookup(form, Content) == Some(Text(content))
    ensures forall k :: k !in {Username, Email, Content} ==> Lookup(form, k) == None
  {
    form := [];
    form := Append(form, Field(Username, Text(username)));
    form := Append(form, Field(Email, Text(email)));
    form := Append(form, Field(Content, Text(content)));
  }

  /** `if (value !== undefined) formData.append(key, value)`. */
  method AppendIfPresent(form: seq<Field>, key: Key, value: Option<FormValue>) returns (r: seq<Field>)
    requires key !in Keys(form)
    ensures Keys(r) == Keys(form) + (if value.Some? then [key] else [])
    ensures forall k :: Lookup(r, k) == (if k == key then value else Lookup(form, k))
  {
    r := form;
    if value.Some? {
      r := Append(form, Field(key, value.value));
    } else {
      forall k ensures Lookup(r, k) == (if k == key then value else Lookup(form, k)) {
        LookupAppend(form, Field(key, Text("")), k);
      }
    }
  }

  /** A body whose lookups give back every argument is read back as those arguments. */
  lemma ReadBack(form: seq<Field>, sub: Submission)
    requires Lookup(form, Username) == Some(Text(sub.username))
    requires Lookup(form, Email) == Some(Text(sub.email))
    requires Lookup(form, Content) == Some(Text(sub.content))
    requires sub.parentId.None? ==> Lookup(form, ParentId).None?
    requires sub.parentId.Some? ==>
               Lookup(form, ParentId).Some? && Lookup(form, ParentId).value.Text?
               && Strings.ParseInt(Lookup(form, ParentId).value.text) == sub.parentId
    requires Lookup(form, Homepage) == if sub.homepage.Some? then Some(Text(sub.homepage.value)) else None
    requires Lookup(form, FileKey) == if sub.file.Some? then Some(Upload(sub.file.value)) else None
    ensures ReadSubmission(form) == Some(sub)
  {
  }

  /** `formData.append(key, value)` with a key not yet in the body. */
  method Append(form: seq<Field>, f: Field) returns (r: seq<Field>)
    requires f.key !in Keys(form)
    ensures Keys(r) == Keys(form) + [f.key]
    ensures forall key :: Lookup(r, key) == (if key == f.key then Some(f.value) else Lookup(form, key))
  {
    r := form + [f];
    forall key ensures Lookup(r, key) == (if key == f.key then Some(f.value) else Lookup(form, key)) {
      LookupAppend(form, f, key);
    }
  }

  // ---------------------------------------------------------------------------
  // getAttachment

  /**
   * What `fetch` produced: a rejected promise, or a response with its `ok` flag, its
   * `content-type` header if present, and its body if reading it succeeded.
   */
  datatype FetchOutcome =
    | NetworkError
    | Response(ok: bool, contentType: Option<string>, body: Option<string>)

  /** An object URL, identified by the blob it points at. */
  datatype ObjectUrl = BlobUrl(mime: string, data: string)

  /** `contentType && contentType.startsWith('image/')`. */
  predicate IsImageType(contentType: Option<string>) {
    contentType.Some? && "image/" <= contentType.value
  }

  /** `contentType && contentType.includes('text/')`. */
  predicate IsTextType(contentType: Option<string>) {
    contentType.Some? && Strings.Includes(contentType.value, "text/")
  }

  /**
   * `getAttachment`: a URL for an image body, a `text/plain` URL for a non-empty text
   * body, and `null` for everything else; it never throws.
   */
  function GetAttachment(o: FetchOutcome): (r: Option<ObjectUrl>)
    ensures r.Some? ==> o.Response? && o.ok && o.body.Some?
    ensures r.Some? && IsImageType(o.contentType) ==> r.value == BlobUrl(o.contentType.value, o.body.value)
    ensures r.Some? && !IsImageType(o.contentType) ==>
              IsTextType(o.contentType) && o.body.value != "" && r.value == BlobUrl("text/plain", o.body.value)
    ensures o.Response? && o.ok && o.body.Some? && IsImageType(o.contentType) ==> r.Some?
    ensures o.Response? && o.ok && o.body.Some? && IsTextType(o.contentType) && o.body.value != "" ==> r.Some?
  {
    match o
    case NetworkError => None
    case Response(ok, contentType, body) =>
      if !ok then None
      else if IsImageType(contentType) then
        if body.Some? then Some(BlobUrl(contentType.value, body.value)) else None
      else if IsTextType(contentType) then
        if body.Some? && body.value != "" then Some(BlobUrl("text/plain", body.value)) else None
      else None
  }

  // ---------------------------------------------------------------------------
  // validateComment, verifyCaptcha, getCaptcha

  /**
   * How an axios request settled: a 2xx response; an error carrying the server's
   * response (its status, `data.message` and `data.verified` when present); or an
   * error without a response (network failure, cancelled request).
   */
  datatype PostOutcome =
    | Ok
    | Rejected(status: int, message: Option<string>, verified: Option<bool>)
    | NoResponse

  /** A thrown value: an `Error` with its `message`, or anything else. */
  datatype Thrown = ErrorValue(message: string) | NonError

  /** How an `async` function settles: it returns a value or throws. */
  datatype Completion<+T> = Returned(value: T) | Threw(thrown: Thrown)

  /** `new Error(m)`: an absent message gives the empty `message`. */
  function ErrorOf(message: Option<string>): (e: Thrown)
    ensures e.ErrorValue?
    ensures message.Some? ==> e.message == message.value
    ensures message.None? ==> e.message == ""
  {
    ErrorValue(if message.Some? then message.value else "")
  }

  const CaptchaCheckFailed := "Ошибка при проверке CAPTCHA. Попробуйте позже."

  /**
   * `validateComment`: `true` when the server accepts, an `Error` with the server's
   * message when it answers with an error, and `false` when there is no answer.
   */
  function ValidateComment(o: PostOutcome): (r: Completion<bool>)
    ensures r == Returned(true) <==> o.Ok?
    ensures r == Returned(false) <==> o.NoResponse?
    ensures r.Threw? <==> o.Rejected?
    ensures o.Rejected? ==> r.thrown == ErrorOf(o.message)
  {
    match o
    case Ok => Returned(true)
    case Rejected(_, message, _) => Threw(ErrorOf(message))
    case NoResponse => Returned(false)
  }

  /**
   * `verifyCaptcha`: a 400 answer with `verified === false` throws the server's message,
   * any other error answer throws the generic message, and a missing answer is ignored.
   */
  function VerifyCaptcha(o: PostOutcome): (r: Completion<()>)
    ensures r.Returned? <==> !o.Rejected?
    ensures o.Rejected? && o.status == 400 && o.verified == Some(false) ==> r == Threw(ErrorOf(o.message))
    ensures o.Rejected? && !(o.status == 400 && o.verified == Some(false)) ==> r == Threw(ErrorValue(CaptchaCheckFailed))
  {
    match o
    case Ok => Returned(())
    case Rejected(status, message, verified) =>
      if status == 400 && verified == Some(false) then Threw(ErrorOf(message))
      else Threw(ErrorValue(CaptchaCheckFailed))
    case NoResponse => Returned(())
  }

  /** What the captcha request produced: the SVG text, or a failure. */
  datatype TextFetch = Fetched(text: string) | FetchFailed

  /** `getCaptcha`: the SVG text, or the empty string when the request fails. */
  function GetCaptcha(o: TextFetch): (r: string)
    ensures o.Fetched? ==> r == o.text
    ensures o.FetchFailed? ==> r == ""
  {
    if o.Fetched? then o.text else ""
  }
}
