# Comment widget client, modelled in Dafny

This project models the client side of a threaded-comment widget written in React and
TypeScript:

- the comment form: draft state, formatting toolbar, markup-balance check, preview and
  the submission pipeline;
- the image processor that shrinks an attached picture into a bounding box;
- the comment table, sortable by column;
- the recursive comment item, whose replies are shown newest first;
- the attachment viewer;
- the REST client, shown as the values it returns or throws.

Every network, DOM, canvas and library call is an input. What `verifyCaptcha`,
`validateComment`, `addComment`, `fetch`, `getCaptcha`, the canvas and the HTML
sanitiser answer is passed in as a parameter. What the form calls is appended to a log
(`calls`), so properties about ordering ("`addComment` is never reached if the captcha
failed") can be stated over that log.

Modules, one per source file, plus three helpers:

- `Types`: the `Comment` record. Its optional `replies` list is a datatype of its own,
  either absent or a list.
- `Wrappers`: `Option` and `Result`.
- `Strings`:
  - JavaScript's `<` on strings, which compares UTF-16 code units, with a proof that
    it is a strict total order;
  - the conversion between character positions and UTF-16 code-unit offsets;
  - ASCII lower-casing;
  - decimal printing and parsing of integers.
- `StableSort`: a reference stable sort, insertion sort over a JavaScript-style
  comparator.
  - It is proved to be a permutation, sorted and stable.
  - The in-place array version `SortInPlace` is proved equal to it.
- `Markup`:
  - `validateHTML` as a scanner for the pattern `<\/?([a-z]+)[^>]*>` (flags `gi`) and a
    stack discipline;
  - a forest-of-elements reference that the stack discipline is proved to accept
    exactly;
  - `insertTag`, whose selection counts UTF-16 code units, with its inverse.
- `Api`: the fields `addComment` appends and how a server reads them back, plus the
  outcome mappings of `getAttachment`, `validateComment`, `verifyCaptcha` and
  `getCaptcha`.
- `ImageProcessing`: the `ImageProcessor` class, its bounding-box rule and its reject
  paths.
- `Form`: the `CommentForm` component as a class whose fields are its React state.
  - `handleSubmit` is a method proved equal to the function `Submit`.
  - The pipeline's properties are lemmas about `Submit`.
- `Table`: the `CommentTable` component with its comparator, its sort effect and the
  `handleSort` toggle.
- `Item`: the `CommentItem` component.
  - The recursive render sorts replies newest first at every depth.
  - `handleReplyClick` toggles the reply form.
- `Attachment`: the `CommentAttachment` component.
  - Its fetch effect re-runs when `filename` changes. Each run has its own `isMounted` flag, cleared by the run's cleanup at a rename or at unmount. A fetch stores what it loaded only while its own run's flag is set.
  - The lightbox flags and the render choice are modelled too.

Where the code and its description differ, the model follows the code:

- `verifyCaptcha` ignores an error that has no response, so a submission goes on when
  the captcha request got no answer.
- The table's date column compares the `createdAt` strings, not the dates they denote.
- The `attachmentType` state the attachment component computes is never used by its
  render.
- After a picture fails to resize, the alert is set and the submission continues. That
  alert is not cleared when the comment is then added.
- A picture resized during `handleSubmit` is stored in the form's `file` state. The
  `addComment` call of the same run still receives the original file, the one captured
  when the handler started (`Form.ResizedPictureNotUploaded`).
- The attachment component sets `attachmentType` to `"text"` for a `.txt` name, and nothing sets it back to `"image"` when the name changes again (`Attachment.RenameBeforeFetch`).
- The attachment component offers an empty text body for download; `getAttachment`
  returns `null` for it (`Attachment.LoadAgreesWithGetAttachment`).
- `validateComment` answers `false` when no response arrives, and `handleSubmit`
  ignores that value. Only a thrown error stops it (`Form.UnansweredValidationIgnored`).

## Model

| member | source | states |
|---|---|---|
| Strings.Units | src/components/CommentTable.tsx:19-20 | a character is one code unit below U+10000, else a high and a low surrogate that encode it |
| Strings.Utf16Injective | src/components/CommentTable.tsx:19-20 | distinct strings have distinct UTF-16 encodings |
| Strings.LessTotal | src/components/CommentTable.tsx:19-20 | distinct strings compare one way or the other |
| Strings.PrefixLess | src/components/CommentTable.tsx:19-20 | a proper prefix compares less |
| Strings.LowCharacters | src/components/CommentTable.tsx:19-20 | for characters below U+D800 the order is the character order |
| Strings.AstralBeforeHalfwidth | src/components/CommentTable.tsx:19-20 | U+1F600 compares below U+FF61, as its first code unit is a surrogate |
| Strings.Trichotomy | src/components/CommentTable.tsx:19-20 | two strings are ordered one way, the other, or equal, and never both ways |
| Strings.NotLessTransitive | src/components/CommentTable.tsx:19-20 | "not less than" on strings is transitive, so the comparator is a strict weak order |
| Strings.LowerAscii | src/components/CommentAttachment.tsx:17 | lower-casing keeps the length, keeps every character that is not an upper-case ASCII letter, and turns each upper-case one into its lower-case letter |
| Strings.LowerAsciiIgnoresCase | src/components/CommentAttachment.tsx:17 | each lower-cased character is the original one up to ASCII case |
| Strings.UnitOffsetWhole | src/components/CommentForm.tsx:61-62 | the offset past the last character is the length of the UTF-16 encoding |
| Strings.UnitOffsetBasic | src/components/CommentForm.tsx:61-62 | without characters above U+FFFF, code-unit offsets are character positions |
| Strings.CharOffsetIsLastBoundary | src/components/CommentForm.tsx:61-63 | `CharOffset` gives the last character boundary at or before a code-unit offset; offsets past the encoding give the length |
| Strings.CharOffsetAtBoundary | src/components/CommentForm.tsx:61-63 | at a character boundary, code-unit offset and character position convert into each other exactly |
| Strings.IntToDecimalRoundTrip | src/services/api.ts:38-40 | parsing `parentId.toString()` gives `parentId` back, negative ids included |
| StableSort.SortPermutation | src/components/CommentTable.tsx:17 | the sort result is a permutation of its input |
| StableSort.SortSorted | src/components/CommentTable.tsx:17-22 | under a strict weak order, no element of the result is placed after a later one |
| StableSort.SortIsStable | src/components/CommentTable.tsx:18-21 | elements the comparator calls equal keep their input order |
| StableSort.SortInPlace | src/components/CommentTable.tsx:17 | sorting an array in place leaves exactly the reference sort of its old contents |
| StableSort.SortMap | src/components/CommentItem.tsx:36-39 | sorting then mapping equals mapping then sorting under the corresponding comparator |
| Table.Compare | src/components/CommentTable.tsx:17-22 | the comparator is -1, 0 or 1; it is 0 iff the keys are equal; it is positive iff `a`'s key is greater (ascending) or smaller (descending) |
| Table.AfterIsStrictWeakOrder | src/components/CommentTable.tsx:18-21 | for every column and direction, "comparator positive" is a strict weak order |
| Table.SortComments | src/components/CommentTable.tsx:16-24 | the copy is sorted into a permutation of the comments, non-decreasing (asc) or non-increasing (desc) by the column's string, stable on equal keys |
| Table.NextOrder | src/components/CommentTable.tsx:27 | a click gives descending iff it hits the current column while ascending |
| Table.RepeatedClicksAlternate | src/components/CommentTable.tsx:26-30 | n clicks on the sorted column give the old order when n is even, the other one when odd |
| Table.CommentTable.constructor | src/components/CommentTable.tsx:11-13 | the initial state is column `createdAt`, ascending, no rows |
| Table.CommentTable.Refresh | src/components/CommentTable.tsx:16-24 | the effect sets the rows to the stable sort of `comments` by the current column and order |
| Table.CommentTable.ReceiveComments | src/components/CommentTable.tsx:16-24 | new comments are stored and re-sorted with the column and order unchanged |
| Table.CommentTable.HandleSort | src/components/CommentTable.tsx:26-30 | the column becomes the clicked one, the order follows `NextOrder`, and the rows are re-sorted |
| Table.CommentTable.Rows | src/components/CommentTable.tsx:42-50 | one rendered `CommentItem` per sorted comment, in order, with the table's callback |
| Item.NewestFirstIsStrictWeakOrder | src/components/CommentItem.tsx:37 | the newest-first comparator is a strict weak order |
| Item.ShownReplies | src/components/CommentItem.tsx:34 | an absent reply list shows nothing; a present one shows all its replies |
| Item.Render | src/components/CommentItem.tsx:19-45 | a card carries the comment's fields, has a reply form iff it is open, and has one reply card per shown reply |
| Item.SortedReplyIn | src/components/CommentItem.tsx:36-37 | every sorted reply is one of the comment's replies |
| Item.RepliesNewestFirst | src/components/CommentItem.tsx:37 | the reply cards under one card run from newest to oldest |
| Item.ReplyCard | src/components/CommentItem.tsx:38-39 | each reply card is the rendering of one of the comment's replies |
| Item.RenderNewestFirst | src/components/CommentItem.tsx:36-39 | replies at every depth run from newest to oldest |
| Item.RenderedRepliesArePermutation | src/components/CommentItem.tsx:36-39 | the reply cards are the rendered replies, sorted, hence a permutation of them |
| Item.EqualTimesKeepOrder | src/components/CommentItem.tsx:37 | replies with equal times keep their order in `replies` |
| Item.RenderFormsAnswerTheirCard | src/components/CommentItem.tsx:33-39 | every open reply form at every depth has `parentId` equal to its card's id and the same `onReplyAdded` |
| Item.CommentItem.constructor | src/components/CommentItem.tsx:12 | the reply form starts hidden |
| Item.CommentItem.HandleReplyClick | src/components/CommentItem.tsx:15-17 | a click negates `showReplyForm` |
| Item.CommentItem.View | src/components/CommentItem.tsx:32-33 | the card shows the reply form iff `showReplyForm`, answering this comment with the item's callback |
| Api.LookupAppend | src/services/api.ts:33-48 | appending a new key to a body leaves every earlier lookup unchanged and finds the new value |
| Api.Append | src/services/api.ts:34-36 | one `formData.append` adds the key at the end and only that lookup changes |
| Api.MandatoryFields | src/services/api.ts:33-36 | the body starts with `username`, `email`, `content`, holding the given texts, and nothing else |
| Api.AppendIfPresent | src/services/api.ts:38-48 | an optional field is appended exactly when it is present |
| Api.ReadBack | src/services/api.ts:33-48 | a body whose lookups give every argument reads back as those arguments |
| Api.AddCommentForm | src/services/api.ts:33-48 | key order is `username`, `email`, `content`, then `parentId`, `homepage`, `file` each only when given; the server reads back exactly the arguments |
| Api.GetAttachment | src/services/api.ts:69-107 | an ok image response gives its blob's URL; an ok non-image response whose type contains `text/` gives a `text/plain` URL iff the text is non-empty; all else gives `null` |
| Api.ErrorOf | src/services/api.ts:131 | `new Error(m)` carries `m`, or the empty message when `m` is absent |
| Api.ValidateComment | src/services/api.ts:110-139 | `true` iff accepted, a thrown server message iff an error response, `false` iff no response |
| Api.VerifyCaptcha | src/services/api.ts:154-171 | returns iff there was no error response; 400 with `verified === false` throws the server message, other error responses throw the generic message |
| Api.GetCaptcha | src/services/api.ts:141-152 | the SVG text, or `''` on failure |
| Attachment.LastSegment | src/components/CommentAttachment.tsx:17 | the result is a dot-free suffix of the name, preceded by a dot unless it is the whole name |
| Attachment.Extension | src/components/CommentAttachment.tsx:17 | the last segment, of the same length, each character equal up to ASCII case and none an upper-case letter |
| Attachment.ExtensionIsTxt | src/components/CommentAttachment.tsx:17-19 | the extension is `txt` iff the last segment is `txt` in any mix of cases |
| Attachment.TypeOf | src/components/CommentAttachment.tsx:13-21 | the attachment type is `"text"` or the initial `"image"`, and `"text"` exactly when the last segment is `txt` in any case |
| Attachment.SegmentAfterLastDot | src/components/CommentAttachment.tsx:17 | the text after the last dot is the extension, whatever precedes it |
| Attachment.NoDotIsOwnSegment | src/components/CommentAttachment.tsx:17 | a name without a dot is its own extension |
| Attachment.ExtensionExamples | src/components/CommentAttachment.tsx:17-21 | `.TXT` is text, `.png` is an image even after `notes.txt`, a trailing dot is an image, `txt` alone is text |
| Attachment.Load | src/components/CommentAttachment.tsx:28-59 | an ok response with an `image/` type sets the picture; otherwise a type containing `text/` sets a `text/plain` file; anything else sets nothing |
| Attachment.LoadAgreesWithGetAttachment | src/components/CommentAttachment.tsx:33-49 | the component and `getAttachment` agree, except that an empty text is a file for the component and `null` for `getAttachment` |
| Attachment.CommentAttachment.constructor | src/components/CommentAttachment.tsx:10-25 | nothing loaded, lightbox closed, one live effect run, type from the name's extension |
| Attachment.CommentAttachment.OnlyLatestLive | src/components/CommentAttachment.tsx:25-66 | in a valid state only the latest effect run can be live, and then the component is mounted |
| Attachment.CommentAttachment.ChangeFilename | src/components/CommentAttachment.tsx:15-66 | an equal name changes nothing; a new name cleans up the latest run and starts a live one, sets the type to `"text"` for `.txt` and otherwise keeps it, and keeps what is loaded and the lightbox |
| Attachment.RenameBeforeFetch | src/components/CommentAttachment.tsx:15-66 | after `a.png` is renamed to `b.txt`, the first run's picture is dropped, and renaming back leaves the type `"text"` |
| Attachment.CommentAttachment.Resolve | src/components/CommentAttachment.tsx:28-59 | a settled fetch stores what it loaded only while its own run is live; a fetch of any run but the latest stores nothing; nothing else changes |
| Attachment.CommentAttachment.Unmount | src/components/CommentAttachment.tsx:63-65 | cleanup clears the latest run's flag only, keeping the lightbox over a loaded picture |
| Attachment.CommentAttachment.HandleOpen | src/components/CommentAttachment.tsx:68-72 | the lightbox opens iff a picture is loaded; it stays open once open |
| Attachment.CommentAttachment.HandleClose | src/components/CommentAttachment.tsx:74-76 | the lightbox is closed and nothing else changes |
| Attachment.CommentAttachment.Render | src/components/CommentAttachment.tsx:78-104 | a thumbnail iff a picture is loaded, with the lightbox iff open; else a download link named after the file iff a file is loaded; else nothing; in a valid state an open lightbox is always shown |
| ImageProcessing.RoundDiv | src/utils/ImageProcessor.tsx:40 | the quotient rounded to nearest, halves up, as `Math.round` does |
| ImageProcessing.RoundDivShrinks | src/utils/ImageProcessor.tsx:38-48 | scaling a side by a factor below one never makes it longer or negative |
| ImageProcessing.Fit | src/utils/ImageProcessor.tsx:33-48 | landscape above the width goes to `(maxWidth, round)`; other shapes above the height go to `(round, maxHeight)`; else unchanged; neither side grows |
| ImageProcessing.FitExamples | src/utils/ImageProcessor.tsx:38-48 | in 320×240: 1000×500 gives 320×160, 500×1000 gives 120×240, 300×250 is unchanged, 500×500 gives 240×240 |
| ImageProcessing.OnlyDominantSideBounded | src/utils/ImageProcessor.tsx:38-42 | a landscape 1000×900 ends 320×288, taller than the box |
| ImageProcessing.Resize | src/utils/ImageProcessor.tsx:20-80 | resolves iff context, read, decode and encode all succeed, with a blob of the file's type at the fitted size; otherwise rejects with the first failure |
| ImageProcessing.ImageProcessor.constructor | src/utils/ImageProcessor.tsx:10-13 | stores the box exactly as given |
| ImageProcessing.ImageProcessor.NewDimensions | src/utils/ImageProcessor.tsx:33-48 | the step-by-step reassignment of `width` and `height` computes `Fit` |
| ImageProcessing.ImageProcessor.ResizeImage | src/utils/ImageProcessor.tsx:20-80 | the promise settles as `Resize` says |
| Form.AlertFor | src/components/CommentForm.tsx:103-108 | an `Error` shows its message; any other value shows the fallback text |
| Form.Resizing | src/components/CommentForm.tsx:115-119 | a resize happens iff an `image/` file is attached, and it settles as the image processor's `Resize` in the 320×240 box |
| Form.CheckCalls | src/components/CommentForm.tsx:100-102 | `verifyCaptcha` is always the first call, and `validateComment` is called iff it returned |
| Form.Submit | src/components/CommentForm.tsx:94-161 | every submission starts by verifying the captcha input |
| Form.CommentForm.constructor | src/components/CommentForm.tsx:26-42 | all fields empty, then the first captcha loaded |
| Form.CommentForm.LoadCaptcha | src/components/CommentForm.tsx:52-54 | only the captcha image changes, to the fetched SVG or `''` |
| Form.CommentForm.InsertTag | src/components/CommentForm.tsx:57-70 | only the content changes, as `Markup.InsertTag` says; without a textarea nothing changes |
| Form.CommentForm.ChooseFile | src/components/CommentForm.tsx:292-296 | the first chosen file, if any, becomes the attachment |
| Form.CommentForm.HandleSubmit | src/components/CommentForm.tsx:94-161 | the new state and the calls made are those of `Submit` on the state when the handler started |
| Form.CommentForm.RunChecks | src/components/CommentForm.tsx:100-112 | `verifyCaptcha`, then `validateComment` unless the first threw; returns what was thrown |
| Form.CommentForm.ProcessFile | src/components/CommentForm.tsx:115-134 | a picture is resized into `file` or sets the image alert; reports a text file above the limit |
| Form.CommentForm.Finish | src/components/CommentForm.tsx:128-155 | size limit, then markup check, then delivery, as `Complete` says |
| Form.CommentForm.Deliver | src/components/CommentForm.tsx:143-155 | `addComment` with the captured values and sanitized content; once it resolves every field is cleared, the captcha reloaded and the parent told |
| Form.CommentForm.ShowPreview | src/components/CommentForm.tsx:164-179 | only `validateComment` is called; a throw only sets the alert; the preview is the sanitized content either way |
| Form.RefusalKeepsDraft | src/components/CommentForm.tsx:100-111 | a throw sets the alert, clears the captcha input and reloads it; the draft is kept; no resize, `addComment` or callback follows |
| Form.AddCommentOnlyAfterChecks | src/components/CommentForm.tsx:137-146 | `addComment` is called only after both checks, the size limit and the markup check pass, with the sanitized content and the captured file |
| Form.UnansweredValidationIgnored | src/components/CommentForm.tsx:102 | a `false` from `validateComment` does not stop the submission |
| Form.TextLimit | src/components/CommentForm.tsx:128-132 | a text attachment stops the submission iff it exceeds 102400 bytes |
| Form.TextLimitBoundary | src/components/CommentForm.tsx:129 | 102400 bytes passes, 102401 stops |
| Form.ImageFailureDoesNotAbort | src/components/CommentForm.tsx:124-127 | a failed resize only sets the alert; the comment is still added and the alert remains |
| Form.AfterChecksCalls | src/components/CommentForm.tsx:100-161 | a submission's calls are the check calls followed by calls that are neither `verifyCaptcha` nor `validateComment` |
| Form.ValidationOnlyAfterCaptcha | src/components/CommentForm.tsx:100-102 | `validateComment` is called iff `verifyCaptcha` returned, and then as the second call, with the captured draft |
| Form.OversizedTextStops | src/components/CommentForm.tsx:128-132 | a text file above the limit sets the size message, keeps the draft, and calls neither `addComment` nor `onCommentAdded` |
| Form.UnclosedMarkupStops | src/components/CommentForm.tsx:137-140 | unbalanced markup sets the unclosed-tags message, keeps the draft, and calls neither `addComment` nor `onCommentAdded` |
| Form.PictureResizedAfterChecks | src/components/CommentForm.tsx:115-123 | a resize call is made iff the checks passed and a picture is attached; it is the first call after the checks, on the attached file |
| Form.SuccessClearsDraft | src/components/CommentForm.tsx:146-155 | `onCommentAdded` is the last call iff `addComment` resolved, and then it is called once and every field is cleared; otherwise the draft is kept |
| Form.ResizedPictureNotUploaded | src/components/CommentForm.tsx:119-146 | a resized picture replaces the `file` state but `addComment` receives the original file |
| Markup.LetterRunEnd | src/components/CommentForm.tsx:75 | the name run stops at the first non-letter or at the end |
| Markup.LetterRunEndLetters | src/components/CommentForm.tsx:75 | every character of the name run is an ASCII letter, either case |
| Markup.FindClose | src/components/CommentForm.tsx:75 | finds a `>` at or after the position |
| Markup.FindCloseFirst | src/components/CommentForm.tsx:75 | no `>` comes before the one found, and none exists when none is found |
| Markup.MatchAt | src/components/CommentForm.tsx:75 | a match starts with `<` at the position, ends with `>` and spans at least three characters |
| Markup.NextMatch | src/components/CommentForm.tsx:78 | `exec` finds a match at or after `lastIndex` |
| Markup.NextMatchLeftmost | src/components/CommentForm.tsx:75-78 | the match found is a pattern match, and no match starts before it |
| Markup.TagOfTests | src/components/CommentForm.tsx:80-85 | the closing and self-closing flags are exactly `startsWith('</')` and `endsWith('/>')` on the full match |
| Markup.ValidateHtml | src/components/CommentForm.tsx:73-91 | the loop's push/pop over successive matches returns `Balanced(input)` |
| Markup.Parse | src/components/CommentForm.tsx:78-90 | a parsed forest flattens back to the consumed tags; parsing stops only at the end or at a closing tag |
| Markup.CheckParse | src/components/CommentForm.tsx:78-90 | the stack check of a parsed prefix is its nesting check, then the same stack on the rest |
| Markup.CheckFlatten | src/components/CommentForm.tsx:78-90 | a well-nested forest leaves the stack as it found it |
| Markup.BalancedIffWellNested | src/components/CommentForm.tsx:73-91 | the check accepts iff the scanned tags flatten a well-nested forest |
| Markup.Slice | src/components/CommentForm.tsx:63 | within bounds, `slice` is the substring |
| Markup.InsertTag | src/components/CommentForm.tsx:57-70 | without a textarea the content is unchanged; otherwise both tags are added to the whole content |
| Markup.InsertTagClamped | src/components/CommentForm.tsx:61-68 | for any selection, in range or not, in UTF-16 offsets: the text up to the clamped start, the opening tag, the text up to the clamped end (none if the end comes first), the closing tag, the rest |
| Markup.InsertTagChars | src/components/CommentForm.tsx:61-68 | a selection given at character boundaries wraps exactly those characters |
| Markup.SelectionAfterAstral | src/components/CommentForm.tsx:61-68 | selection 2 to 4 of "😀ab" wraps "ab", since the emoji takes two code units |
| Markup.InsertTagLayout | src/components/CommentForm.tsx:61-68 | for a selection at character boundaries, the text before, inside and after it stays in place, between the opening and closing tags |
| Markup.InsertTagInverse | src/components/CommentForm.tsx:63-68 | removing the two inserted tags gives the content back |
| Markup.InsertTagKeepsBalance | src/components/CommentForm.tsx:57-91 | wrapping a selection with no `<` before its end in a simple tag pair keeps the balance verdict |
| Markup.ButtonTag | src/components/CommentForm.tsx:232-256 | each toolbar button inserts a simple tag |
| Markup.ToolbarInsertBalanced | src/components/CommentForm.tsx:232-256 | on text without `<`, every toolbar button produces balanced markup |
| Markup.NestedAccepted | src/components/CommentForm.tsx:78-90 | properly nested elements are accepted |
| Markup.CrossedRejected | src/components/CommentForm.tsx:81-83 | crossed elements are rejected |
| Markup.UnclosedExample | src/components/CommentForm.tsx:90 | an element left open is rejected |
| Markup.UnopenedExample | src/components/CommentForm.tsx:81-83 | a closing tag with an empty stack is rejected |
| Markup.CaseSensitiveNames | src/components/CommentForm.tsx:75-82 | names match in any case but compare as written, so `<B>x</b>` is rejected |
| Markup.SelfClosingExample | src/components/CommentForm.tsx:85-86 | a self-closing tag is never pushed |
| Markup.ClosingBeforeSelfClosing | src/components/CommentForm.tsx:80-86 | `</b/>` is a closing tag and pops an empty stack |

## Left out

- The transports (axios, `fetch`, `FormData`, `Blob`, `URL.createObjectURL`) are not modelled. Each request's outcome is a parameter, and an object URL is identified by the blob it points at, so two URLs of the same blob are equal here.
- `DOMPurify.sanitize` is a foreign library. It is the uninterpreted `sanitize` parameter, so nothing is proved about what it removes.
- Canvas, `Image` and `FileReader` are not modelled. Their success or failure and the decoded size are a `Browser` parameter; only the dimension rule and the reject paths are modelled.
- `ImageProcessing.RoundDiv`: `Math.round(h * (mw / w))` is computed in floating point; the model rounds the exact quotient, halves up. Half-way cases that floating point misrounds may differ.
- `Item.Render`: `new Date(s).getTime()` is a total `time` parameter. Invalid dates (NaN) and the comparator they produce are not modelled.
- `Item.Render`: `replies.sort` reorders the comment's own array in place. The model sorts a value, so aliasing of a reply array shared between renders is not captured.
- `StableSort.Sort`: the engine's sort algorithm is not modelled. Insertion sort is used as the reference, and any stable sort under a strict weak order gives the same result.
- `Attachment.Extension`: `toLowerCase` is full Unicode; the model lowers ASCII letters only.
- `Markup.InsertTag`: a selection offset that falls between the two surrogates of one character is moved back to that character's start. JavaScript would split the pair, and a Dafny string cannot hold a lone surrogate.
- Asynchrony is not modelled. Handler runs are atomic, React's state batching beyond the captured values is not modelled, and the un-awaited `loadCaptcha` after a successful submission is treated as completed.
- The scroll-to-alert effect, the file input reset, `document.querySelector('textarea')` (its selection is a parameter), JSX layout and console logging are not modelled.
- The controlled inputs' `onChange` handlers for username, email, homepage, content and captcha are not modelled; they only set a field.
- Strings.IntToDecimal: `parentId` is an unbounded integer and its rendering is plain decimal. JavaScript numbers are exact only up to 2^53 and print in exponent notation from 10^21 on, so `Strings.IntToDecimalRoundTrip` matches `parentId.toString()` for safe integers only.
- `getComments`, the online-users hook, `CommentPreview`, `App` and the entry point are not part of this model.
