/**
 * `CommentForm`: the draft comment, the formatting toolbar, the preview and the
 * submission pipeline `handleSubmit`.
 *
 * The component's React state is the mutable fields of `CommentForm`; the `parentId`
 * prop is a constant. The calls the form makes (to the API layer, to the image
 * processor and to its parent's `onCommentAdded`) are appended to `calls`, and what
 * those calls answer is a `World` parameter. `DOMPurify.sanitize` is the `World`'s
 * uninterpreted `sanitize` function.
 */
module Form {
  import opened Wrappers
  import opened Types
  import Markup
  import Api
  import ImageProcessing

  const UnknownError := "Произошла неизвестная ошибка. Попробуйте еще раз позже"
  const ImageError := "Произошла ошибка. Попробуйте еще раз позже."
  const FileTooLarge := "Размер файла превышает допустимые 100 кб."
  const UnclosedTags := "Комментарий содержит не закрытые HTML теги."

  /** The largest text attachment accepted, in bytes. */
  const MaxTextSize := 102400

  /** The box pictures are shrunk into before upload. */
  const BoxWidth := 320
  const BoxHeight := 240

  /** What the outside world answers during one call of a handler. */
  datatype World = World(
    captcha: Api.PostOutcome,          // the `verifyCaptcha` request
    validation: Api.PostOutcome,       // the `validateComment` request
    browser: ImageProcessing.Browser,  // canvas, image decoding and file reading
    added: bool,                       // whether the `addComment` request resolves
    nextCaptcha: Api.TextFetch,        // the `getCaptcha` request that reloads the captcha
    sanitize: string -> string)        // `DOMPurify.sanitize` with the form's allow-list

  /** A call the form makes, logged in the order it is made. */
  datatype Call =
    | VerifyCaptchaCall(captchaInput: string)
    | ValidateCall(username: string, email: string, content: string, parentId: Option<int>, homepage: string)
    | ResizeCall(file: File)
    | AddCommentCall(submission: Api.Submission)
    | LoadCaptchaCall
    | CommentAddedCall

  /** The form's state. */
  datatype Draft = Draft(
    username: string,
    email: string,
    homepage: string,
    content: string,
    file: Option<File>,
    preview: string,
    captchaInput: string,
    captchaSvg: string,
    alertMessage: string)

  /** The alert shown for a caught value: an `Error`'s message, or the fallback text. */
  function AlertFor(t: Api.Thrown): (r: string)
    ensures t.ErrorValue? ==> r == t.message
    ensures t.NonError? ==> r == UnknownError
  {
    match t
    case ErrorValue(message) => message
    case NonError => UnknownError
  }

  predicate IsImage(f: File) {
    "image/" <= f.mime
  }

  predicate IsText(f: File) {
    "text/" <= f.mime
  }

  // ---------------------------------------------------------------------------
  // What one submission does, stated by where it stops

  /** What the `try` around `verifyCaptcha` and `validateComment` catches, if anything. */
  function Gate(w: World): Option<Api.Thrown> {
    match Api.VerifyCaptcha(w.captcha)
    case Threw(t) => Some(t)
    case Returned(_) =>
      match Api.ValidateComment(w.validation)
      case Threw(t) => Some(t)
      case Returned(_) => None
  }

  /** The attached file is a text file above the size limit. */
  predicate TextTooLarge(d: Draft) {
    d.file.Some? && !IsImage(d.file.value) && IsText(d.file.value) && d.file.value.size > MaxTextSize
  }

  /** Where a submission stops. */
  datatype Stop =
    | Refused(thrown: Api.Thrown)  // the captcha or the validation threw
    | TooLarge                     // a text attachment above the limit
    | Unclosed                     // the markup is not balanced
    | Unsent                       // `addComment` rejected
    | Sent                         // `addComment` resolved

  function StopOf(d: Draft, w: World): Stop {
    if Gate(w).Some? then Refused(Gate(w).value)
    else if TextTooLarge(d) then TooLarge
    else if !Markup.Balanced(d.content) then Unclosed
    else if w.added then Sent
    else Unsent
  }

  /** The resizing of an attached picture, when there is one. */
  function Resizing(d: Draft, w: World): (r: Option<Result<ImageProcessing.Blob>>)
    ensures r.Some? <==> d.file.Some? && IsImage(d.file.value)
    ensures r.Some? ==> r.value == ImageProcessing.Resize(d.file.value, w.browser, BoxWidth, BoxHeight)
  {
    if d.file.Some? && IsImage(d.file.value) then
      Some(ImageProcessing.Resize(d.file.value, w.browser, BoxWidth, BoxHeight))
    else None
  }

  /** `new File([blob], file.name, { type: file.type })`. */
  function Resized(f: File, blob: ImageProcessing.Blob): File {
    File(f.name, f.mime, blob.size)
  }

  /** The arguments `addComment` receives: the values captured when the handler started, with the content sanitized. */
  function SubmissionOf(d: Draft, parentId: Option<int>, w: World): Api.Submission {
    Api.Submission(d.username, d.email, w.sanitize(d.content), parentId, Some(d.homepage), d.file)
  }

  /** The calls of the `try` block: `verifyCaptcha`, then `validateComment` unless the first threw. */
  function CheckCalls(d: Draft, parentId: Option<int>, w: World): (r: seq<Call>)
    ensures |r| > 0 && r[0] == VerifyCaptchaCall(d.captchaInput)
    ensures (exists i :: 0 <= i < |r| && r[i].ValidateCall?) <==> Api.VerifyCaptcha(w.captcha).Returned?
  {
    var validation := if Api.VerifyCaptcha(w.captcha).Returned? then [ValidateCall(d.username, d.email, d.content, parentId, d.homepage)] else [];
    var r := [VerifyCaptchaCall(d.captchaInput)] + validation;
    assert Api.VerifyCaptcha(w.captcha).Returned? ==> r[1].ValidateCall?;
    r
  }

  /** The file step: a picture is resized into the `file` field, or a failure sets the alert. */
  function Processed(d: Draft, w: World): Draft {
    var resizing := Resizing(d, w);
    d.(alertMessage := if resizing.Some? && resizing.value.Failure? then ImageError else d.alertMessage,
       file := if resizing.Some? && resizing.value.Success? then Some(Resized(d.file.value, resizing.value.value)) else d.file)
  }

  function ResizeCalls(d: Draft, w: World): seq<Call> {
    if Resizing(d, w).Some? then [ResizeCall(d.file.value)] else []
  }

  /**
   * One call of `handleSubmit` on the draft `d`: the new draft and the calls made.
   * A refusal reloads the captcha and keeps the draft; past the checks, a picture is
   * resized into the form's `file` field, a failure of that only setting the alert;
   * an oversized text file or unbalanced markup stops before `addComment`; once
   * `addComment` resolves, the draft is cleared, the captcha reloaded and the parent
   * told.
   */
  function Submit(d: Draft, parentId: Option<int>, w: World): (r: (Draft, seq<Call>))
    ensures |r.1| > 0 && r.1[0] == VerifyCaptchaCall(d.captchaInput)
  {
    var checks := CheckCalls(d, parentId, w);
    if Gate(w).Some? then
      (d.(alertMessage := AlertFor(Gate(w).value), captchaInput := "", captchaSvg := Api.GetCaptcha(w.nextCaptcha)),
       checks + [LoadCaptchaCall])
    else
      var (r, rest) := Complete(d, Processed(d.(alertMessage := ""), w), parentId, w);
      (r, checks + ResizeCalls(d, w) + rest)
  }

  /**
   * The rest of a submission once the checks passed and the file step turned the
   * form into `processed`: the size limit, the markup check, `addComment` with the
   * captured draft `d`, and the clearing after it resolves.
   */
  function Complete(d: Draft, processed: Draft, parentId: Option<int>, w: World): (r: (Draft, seq<Call>)) {
    if TextTooLarge(d) then (processed.(alertMessage := FileTooLarge), [])
    else if !Markup.Balanced(d.content) then (processed.(alertMessage := UnclosedTags), [])
    else Delivery(d, processed, parentId, w)
  }

  /** `addComment` with the captured draft `d`, and the clearing of the form once it resolves. */
  function Delivery(d: Draft, processed: Draft, parentId: Option<int>, w: World): (r: (Draft, seq<Call>)) {
    var sent := [AddCommentCall(SubmissionOf(d, parentId, w))];
    if !w.added then (processed, sent)
    else
      (Draft("", "", "", "", None, "", "", Api.GetCaptcha(w.nextCaptcha), processed.alertMessage),
       sent + [LoadCaptchaCall, CommentAddedCall])
  }

  // ---------------------------------------------------------------------------
  // The component

  class CommentForm {
    const parentId: Option<int>
    var username: string
    var email: string
    var homepage: string
    var content: string
    var file: Option<File>
    var preview: string
    var captchaInput: string
    var captchaSvg: string
    var alertMessage: string
    var calls: seq<Call>

    function Snapshot(): Draft
      reads this
    {
      Draft(username, email, homepage, content, file, preview, captchaInput, captchaSvg, alertMessage)
    }

    /** Mounting: every field empty, then the first captcha is loaded. */
    constructor(parentId: Option<int>, firstCaptcha: Api.TextFetch)
      ensures this.parentId == parentId
      ensures Snapshot() == Draft("", "", "", "", None, "", "", Api.GetCaptcha(firstCaptcha), "")
      ensures calls == [LoadCaptchaCall]
    {
      this.parentId := parentId;
      username, email, homepage, content := "", "", "", "";
      file := None;
      preview, captchaInput, captchaSvg, alertMessage := "", "", "", "";
      calls := [];
      new;
      LoadCaptcha(firstCaptcha);
    }

    /** `loadCaptcha`: the captcha image becomes the fetched SVG, or empty on failure. */
    method LoadCaptcha(fetch: Api.TextFetch)
      modifies this
      ensures Snapshot() == old(Snapshot()).(captchaSvg := Api.GetCaptcha(fetch))
      ensures calls == old(calls) + [LoadCaptchaCall]
    {
      calls := calls + [LoadCaptchaCall];
      captchaSvg := Api.GetCaptcha(fetch);
    }

    /** A toolbar button: wraps the textarea's selection in a tag; without a textarea nothing changes. */
    method InsertTag(selection: Option<Markup.Selection>, tag: string, attribute: string)
      modifies this
      ensures Snapshot() == old(Snapshot()).(content := Markup.InsertTag(old(content), selection, tag, attribute))
      ensures calls == old(calls)
    {
      if selection.None? {
        return;
      }
      content := Markup.InsertTag(content, selection, tag, attribute);
    }

    /** The file input's `onChange`: the first chosen file, if any, becomes the attachment. */
    method ChooseFile(files: seq<File>)
      modifies this
      ensures Snapshot() == old(Snapshot()).(file := if |files| > 0 then Some(files[0]) else old(file))
      ensures calls == old(calls)
    {
      if |files| > 0 {
        file := Some(files[0]);
      }
    }

    /**
     * `handleSubmit`. Every read of a field sees the value captured when the handler
     * started, as the closure of a React render does; the setters only change the
     * fields.
     */
    method HandleSubmit(w: World)
      modifies this
      ensures Snapshot() == Submit(old(Snapshot()), parentId, w).0
      ensures calls == old(calls) + Submit(old(Snapshot()), parentId, w).1
    {
      var d := Snapshot();
      alertMessage := "";

      var thrown := RunChecks(w);
      if thrown.Some? {
        alertMessage := AlertFor(thrown.value);
        this.captchaInput := "";
        LoadCaptcha(w.nextCaptcha);
        return;
      }
      var tooLarge := ProcessFile(w);
      assert Snapshot() == Processed(d.(alertMessage := ""), w);
      ghost var handled := calls;
      Finish(tooLarge, d, w);
      assert calls == handled + Complete(d, Processed(d.(alertMessage := ""), w), parentId, w).1;
    }

    /** `handleSubmit` after the file step, for the draft `d` captured when it started. */
    method Finish(tooLarge: bool, d: Draft, w: World)
      requires tooLarge == TextTooLarge(d)
      modifies this
      ensures Snapshot() == Complete(d, old(Snapshot()), parentId, w).0
      ensures calls == old(calls) + Complete(d, old(Snapshot()), parentId, w).1
    {
      if tooLarge {
        alertMessage := FileTooLarge;
        return;
      }
      var balanced := Markup.ValidateHtml(d.content);
      if !balanced {
        alertMessage := UnclosedTags;
        return;
      }
      Deliver(d, w);
    }

    /** The call of `addComment` and, once it resolves, the clearing of the form. */
    method Deliver(d: Draft, w: World)
      modifies this
      ensures Snapshot() == Delivery(d, old(Snapshot()), parentId, w).0
      ensures calls == old(calls) + Delivery(d, old(Snapshot()), parentId, w).1
    {
      var sanitized := w.sanitize(d.content);
      calls := calls + [AddCommentCall(Api.Submission(d.username, d.email, sanitized, parentId, Some(d.homepage), d.file))];
      if !w.added {
        return;
      }
      username, email, homepage, content := "", "", "", "";
      file := None;
      preview := "";
      captchaInput := "";
      LoadCaptcha(w.nextCaptcha);
      calls := calls + [CommentAddedCall];
    }

    /** The `try` block: `verifyCaptcha`, then `validateComment`; what either throws is returned. */
    method RunChecks(w: World) returns (thrown: Option<Api.Thrown>)
      modifies this
      ensures thrown == Gate(w)
      ensures Snapshot() == old(Snapshot())
      ensures calls == old(calls) + CheckCalls(old(Snapshot()), parentId, w)
    {
      thrown := None;
      calls := calls + [VerifyCaptchaCall(captchaInput)];
      var verified := Api.VerifyCaptcha(w.captcha);
      if verified.Threw? {
        thrown := Some(verified.thrown);
      } else {
        calls := calls + [ValidateCall(username, email, content, parentId, homepage)];
        var validated := Api.ValidateComment(w.validation);
        if validated.Threw? {
          thrown := Some(validated.thrown);
        }
      }
    }

    /**
     * The file step: a picture is resized by an `ImageProcessor` for the 320×240 box;
     * a text file reports whether it is above the size limit.
     */
    method ProcessFile(w: World) returns (tooLarge: bool)
      modifies this
      ensures tooLarge == TextTooLarge(old(Snapshot()))
      ensures Snapshot() == Processed(old(Snapshot()), w)
      ensures calls == old(calls) + ResizeCalls(old(Snapshot()), w)
    {
      tooLarge := false;
      var file := this.file;
      if file.Some? {
        if IsImage(file.value) {
          var processor := new ImageProcessing.ImageProcessor(BoxWidth, BoxHeight);
          calls := calls + [ResizeCall(file.value)];
          var resized := processor.ResizeImage(file.value, w.browser);
          if resized.Success? {
            this.file := Some(Resized(file.value, resized.value));
          } else {
            alertMessage := ImageError;
          }
        } else if IsText(file.value) {
          tooLarge := file.value.size > MaxTextSize;
        }
      }
    }

    /**
     * `showPreview`: validates without checking the captcha; a throw only sets the
     * alert, and the preview is set to the sanitized content either way.
     */
    method ShowPreview(w: World)
      modifies this
      ensures var thrown := Api.ValidateComment(w.validation);
              Snapshot() == old(Snapshot()).(
                preview := w.sanitize(old(content)),
                alertMessage := if thrown.Threw? then AlertFor(thrown.thrown) else old(alertMessage))
      ensures calls == old(calls) + [ValidateCall(old(username), old(email), old(content), parentId, old(homepage))]
    {
      calls := calls + [ValidateCall(username, email, content, parentId, homepage)];
      var validated := Api.ValidateComment(w.validation);
      if validated.Threw? {
        alertMessage := AlertFor(validated.thrown);
      }
      preview := w.sanitize(content);
    }
  }

  // ---------------------------------------------------------------------------
  // Properties of a submission

  /**
   * When the captcha or the validation throws, the alert shows the error, the captcha
   * input is cleared and a new captcha loaded; the draft itself is untouched and no
   * file handling, `addComment` or `onCommentAdded` happens.
   */
  lemma RefusalKeepsDraft(d: Draft, parentId: Option<int>, w: World)
    requires Gate(w).Some?
    ensures var (r, calls) := Submit(d, parentId, w);
            && r == d.(alertMessage := AlertFor(Gate(w).value), captchaInput := "", captchaSvg := Api.GetCaptcha(w.nextCaptcha))
            && calls[|calls| - 1] == LoadCaptchaCall
            && forall i :: 0 <= i < |calls| ==> !calls[i].ResizeCall? && !calls[i].AddCommentCall? && !calls[i].CommentAddedCall?
  {
  }

  /**
   * `addComment` is reached only when both checks passed, no text attachment is too
   * large and the markup is balanced; it receives the sanitized content and the file
   * captured when the handler started, even when a resized picture has replaced the
   * form's field.
   */
  lemma AddCommentOnlyAfterChecks(d: Draft, parentId: Option<int>, w: World, s: Api.Submission)
    requires AddCommentCall(s) in Submit(d, parentId, w).1
    ensures Gate(w).None? && !TextTooLarge(d) && Markup.Balanced(d.content)
    ensures s == Api.Submission(d.username, d.email, w.sanitize(d.content), parentId, Some(d.homepage), d.file)
  {
  }

  /** A `false` from `validateComment` (the request got no response) does not stop the submission. */
  lemma UnansweredValidationIgnored(w: World)
    requires w.captcha.Ok? && w.validation.NoResponse?
    ensures Api.ValidateComment(w.validation) == Api.Returned(false)
    ensures Gate(w).None?
  {
  }

  /** A text attachment stops the submission exactly when it is larger than 102400 bytes. */
  lemma TextLimit(d: Draft, w: World, f: File)
    requires Gate(w).None? && d.file == Some(f) && IsText(f) && !IsImage(f)
    ensures StopOf(d, w) == TooLarge <==> f.size > 102400
  {
  }

  lemma TextLimitBoundary(d: Draft, w: World, name: string)
    requires Gate(w).None?
    ensures StopOf(d.(file := Some(File(name, "text/plain", 102400))), w) != TooLarge
    ensures StopOf(d.(file := Some(File(name, "text/plain", 102401))), w) == TooLarge
  {
    assert "text/plain"[..5] == "text/";
    assert "text/plain"[0] != "image/"[0];
    TextLimit(d.(file := Some(File(name, "text/plain", 102400))), w, File(name, "text/plain", 102400));
    TextLimit(d.(file := Some(File(name, "text/plain", 102401))), w, File(name, "text/plain", 102401));
  }

  /**
   * A picture that cannot be resized only sets the alert: the submission goes on, and
   * the alert is still showing after the comment has been added.
   */
  lemma ImageFailureDoesNotAbort(d: Draft, parentId: Option<int>, w: World)
    requires Gate(w).None? && Markup.Balanced(d.content) && w.added
    requires d.file.Some? && IsImage(d.file.value)
    requires ImageProcessing.Resize(d.file.value, w.browser, BoxWidth, BoxHeight).Failure?
    ensures StopOf(d, w) == Sent
    ensures Submit(d, parentId, w).0.alertMessage == ImageError
    ensures AddCommentCall(SubmissionOf(d, parentId, w)) in Submit(d, parentId, w).1
  {
  }

  /**
   * Only a resolved `addComment` clears the draft: every field is emptied, the captcha
   * reloaded, and `onCommentAdded` called once, as the last call.
   */
  lemma SuccessClearsDraft(d: Draft, parentId: Option<int>, w: World)
    ensures var (r, calls) := Submit(d, parentId, w);
            StopOf(d, w) == Sent <==> (calls[|calls| - 1] == CommentAddedCall)
    ensures var (r, calls) := Submit(d, parentId, w);
            StopOf(d, w) == Sent ==>
              && r.username == "" && r.email == "" && r.homepage == "" && r.content == ""
              && r.file.None? && r.preview == "" && r.captchaInput == ""
              && r.captchaSvg == Api.GetCaptcha(w.nextCaptcha)
              && forall i :: 0 <= i < |calls| - 1 ==> calls[i] != CommentAddedCall
    ensures var (r, calls) := Submit(d, parentId, w);
            StopOf(d, w) != Sent ==>
              r.username == d.username && r.email == d.email && r.homepage == d.homepage && r.content == d.content
  {
    var (r, calls) := Submit(d, parentId, w);
    if Gate(w).None? {
      var before := CheckCalls(d, parentId, w) + ResizeCalls(d, w);
      var rest := Complete(d, Processed(d.(alertMessage := ""), w), parentId, w).1;
      assert calls == before + rest;
      assert forall i :: 0 <= i < |before| ==> before[i] != CommentAddedCall;
      if StopOf(d, w) == Sent {
        assert rest == [AddCommentCall(SubmissionOf(d, parentId, w)), LoadCaptchaCall, CommentAddedCall];
        assert calls[|calls| - 1] == CommentAddedCall;
        forall i | 0 <= i < |calls| - 1
          ensures calls[i] != CommentAddedCall
        {
          if i >= |before| {
            assert calls[i] == rest[i - |before|];
          }
        }
      } else {
        assert |rest| <= 1 && forall i :: 0 <= i < |rest| ==> rest[i].AddCommentCall?;
        assert calls[|calls| - 1] != CommentAddedCall;
      }
    }
  }

  /**
   * A picture resized successfully replaces the form's `file` field, but `addComment`
   * still receives the original file.
   */
  lemma ResizedPictureNotUploaded(d: Draft, parentId: Option<int>, w: World)
    requires Gate(w).None? && Markup.Balanced(d.content) && !w.added
    requires d.file.Some? && IsImage(d.file.value)
    requires ImageProcessing.Resize(d.file.value, w.browser, BoxWidth, BoxHeight).Success?
    ensures var (r, calls) := Submit(d, parentId, w);
            && r.file == Some(Resized(d.file.value, ImageProcessing.Resize(d.file.value, w.browser, BoxWidth, BoxHeight).value))
            && calls[|calls| - 1] == AddCommentCall(SubmissionOf(d, parentId, w))
            && calls[|calls| - 1].submission.file == d.file
  {
  }

  /** The calls a submission makes after `verifyCaptcha` and `validateComment`. */
  function AfterChecks(d: Draft, parentId: Option<int>, w: World): seq<Call> {
    if Gate(w).Some? then [LoadCaptchaCall]
    else ResizeCalls(d, w) + Complete(d, Processed(d.(alertMessage := ""), w), parentId, w).1
  }

  /** After the checks come only resizing, `addComment`, captcha reloads and the parent's callback. */
  lemma AfterChecksCalls(d: Draft, parentId: Option<int>, w: World)
    ensures Submit(d, parentId, w).1 == CheckCalls(d, parentId, w) + AfterChecks(d, parentId, w)
    ensures var after := AfterChecks(d, parentId, w);
            forall i :: 0 <= i < |after| ==> !after[i].VerifyCaptchaCall? && !after[i].ValidateCall?
  {
    if Gate(w).None? {
      var rest := Complete(d, Processed(d.(alertMessage := ""), w), parentId, w).1;
      assert forall i :: 0 <= i < |rest| ==> rest[i].AddCommentCall? || rest[i].LoadCaptchaCall? || rest[i].CommentAddedCall?;
    }
  }

  /**
   * A captcha that fails keeps the comment from remote validation: `validateComment`
   * is called in a submission exactly when `verifyCaptcha` returned, and then right
   * after it, with the captured draft.
   */
  lemma ValidationOnlyAfterCaptcha(d: Draft, parentId: Option<int>, w: World)
    ensures var calls := Submit(d, parentId, w).1;
            (exists i :: 0 <= i < |calls| && calls[i].ValidateCall?) <==> Api.VerifyCaptcha(w.captcha).Returned?
    ensures Api.VerifyCaptcha(w.captcha).Returned? ==>
              Submit(d, parentId, w).1[1] == ValidateCall(d.username, d.email, d.content, parentId, d.homepage)
  {
    var calls := Submit(d, parentId, w).1;
    var checks := CheckCalls(d, parentId, w);
    var after := AfterChecks(d, parentId, w);
    AfterChecksCalls(d, parentId, w);
    forall i | |checks| <= i < |calls|
      ensures !calls[i].ValidateCall?
    {
      assert calls[i] == after[i - |checks|];
    }
    if Api.VerifyCaptcha(w.captcha).Returned? {
      assert calls[1] == checks[1];
    }
  }

  /**
   * A text attachment above the limit stops the submission with the size message: the
   * draft is kept and neither `addComment` nor `onCommentAdded` is called.
   */
  lemma OversizedTextStops(d: Draft, parentId: Option<int>, w: World)
    requires StopOf(d, w) == TooLarge
    ensures var (r, calls) := Submit(d, parentId, w);
            && r.alertMessage == FileTooLarge
            && r.username == d.username && r.email == d.email && r.homepage == d.homepage
            && r.content == d.content && r.file == d.file && r.captchaInput == d.captchaInput
            && forall i :: 0 <= i < |calls| ==> !calls[i].AddCommentCall? && !calls[i].CommentAddedCall?
  {
  }

  /**
   * Unbalanced markup stops the submission with the unclosed-tags message: the draft
   * is kept and neither `addComment` nor `onCommentAdded` is called.
   */
  lemma UnclosedMarkupStops(d: Draft, parentId: Option<int>, w: World)
    requires StopOf(d, w) == Unclosed
    ensures var (r, calls) := Submit(d, parentId, w);
            && r.alertMessage == UnclosedTags
            && r.username == d.username && r.email == d.email && r.homepage == d.homepage
            && r.content == d.content && r.captchaInput == d.captchaInput
            && forall i :: 0 <= i < |calls| ==> !calls[i].AddCommentCall? && !calls[i].CommentAddedCall?
  {
  }

  /**
   * Once both checks pass, an attached picture is resized exactly once, before
   * anything is sent; nothing else is ever resized.
   */
  lemma PictureResizedAfterChecks(d: Draft, parentId: Option<int>, w: World)
    ensures var calls := Submit(d, parentId, w).1;
            (exists i :: 0 <= i < |calls| && calls[i].ResizeCall?) <==> Gate(w).None? && d.file.Some? && IsImage(d.file.value)
    ensures var calls := Submit(d, parentId, w).1;
            forall i :: 0 <= i < |calls| && calls[i].ResizeCall? ==>
              calls[i] == ResizeCall(d.file.value) && i == |CheckCalls(d, parentId, w)|
  {
    var calls := Submit(d, parentId, w).1;
    var checks := CheckCalls(d, parentId, w);
    assert forall i :: 0 <= i < |checks| ==> !checks[i].ResizeCall?;
    if Gate(w).None? {
      var resize := ResizeCalls(d, w);
      var rest := Complete(d, Processed(d.(alertMessage := ""), w), parentId, w).1;
      assert calls == checks + resize + rest;
      assert forall i :: 0 <= i < |rest| ==> !rest[i].ResizeCall?;
      forall i | |checks| + |resize| <= i < |calls|
        ensures !calls[i].ResizeCall?
      {
        assert calls[i] == rest[i - |checks| - |resize|];
      }
      if d.file.Some? && IsImage(d.file.value) {
        assert calls[|checks|] == ResizeCall(d.file.value);
      }
    } else {
      assert calls == checks + [LoadCaptchaCall];
      forall i | 0 <= i < |calls|
        ensures !calls[i].ResizeCall?
      {
        if i >= |checks| {
          assert calls[i] == LoadCaptchaCall;
        }
      }
    }
  }
}
