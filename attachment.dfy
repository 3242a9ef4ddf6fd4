/**
 * `CommentAttachment`: fetches a comment's attached file and shows it as a
 * thumbnail with a lightbox (a picture) or as a download link (a text file).
 *
 * The fetch is an `Api.FetchOutcome` delivered to `Resolve`; an object URL is
 * modelled by the blob it points at. Each run of the fetch effect has its own `isMounted`
 * flag, kept in `runs` and cleared by the cleanup when the name changes or the
 * component unmounts.
 */
module Attachment {
  import opened Wrappers
  import Strings
  import Api

  /** The text after the last `.` of `name`, or all of `name` when it has no `.`. */
  function LastSegment(name: string): (r: string)
    ensures |r| <= |name| && r == name[|name| - |r|..]
    ensures '.' !in r
    ensures |r| < |name| ==> name[|name| - |r| - 1] == '.'
  {
    if name == [] then []
    else if name[|name| - 1] == '.' then []
    else LastSegment(name[..|name| - 1]) + [name[|name| - 1]]
  }

  /** `filename.split('.').pop().toLowerCase()`. */
  function Extension(filename: string): (r: string)
    ensures |r| == |LastSegment(filename)|
    ensures forall i :: 0 <= i < |r| ==>
              Strings.SameIgnoringAsciiCase(r[i], LastSegment(filename)[i]) && !('A' <= r[i] <= 'Z')
  {
    var segment := LastSegment(filename);
    Strings.LowerAsciiIgnoresCase(segment);
    Strings.LowerAscii(segment)
  }

  /** The extension is `txt` exactly when the last segment is `txt` in any mix of cases. */
  lemma ExtensionIsTxt(filename: string)
    ensures Extension(filename) == "txt" <==>
              var segment := LastSegment(filename);
              |segment| == 3 && segment[0] in "tT" && segment[1] in "xX" && segment[2] in "tT"
  {
    LowerIsTxt(Extension(filename), LastSegment(filename));
  }

  /** The same, for any text lowered character by character from `segment`. */
  lemma LowerIsTxt(e: string, segment: string)
    requires |e| == |segment|
    requires forall i :: 0 <= i < |e| ==> Strings.SameIgnoringAsciiCase(e[i], segment[i]) && !('A' <= e[i] <= 'Z')
    ensures e == "txt" <==> |segment| == 3 && segment[0] in "tT" && segment[1] in "xX" && segment[2] in "tT"
  {
    if |segment| == 3 {
      LowerIs(e[0], segment[0], 't');
      LowerIs(e[1], segment[1], 'x');
      LowerIs(e[2], segment[2], 't');
      assert e == [e[0], e[1], e[2]];
    }
  }

  /** A lower-cased character is the lower-case letter `l` exactly when the original is `l` or its capital. */
  lemma LowerIs(c: char, original: char, l: char)
    requires Strings.SameIgnoringAsciiCase(c, original) && !('A' <= c <= 'Z')
    requires 'a' <= l <= 'z'
    ensures c == l <==> original == l || original as int == l as int - 32
  {
  }

  /** The type the effect records: `"text"` for a `.txt` name, whatever its case, else the initial `"image"`. */
  function TypeOf(filename: string): (r: string)
    ensures r == "text" || r == "image"
    ensures r == "text" <==>
              var segment := LastSegment(filename);
              |segment| == 3 && segment[0] in "tT" && segment[1] in "xX" && segment[2] in "tT"
  {
    ExtensionIsTxt(filename);
    if Extension(filename) == "txt" then "text" else "image"
  }

  /** What one fetch sets: the picture's URL, or the text file's URL, or neither. */
  datatype Loaded = SetImage(image: Api.ObjectUrl) | SetFile(file: Api.ObjectUrl) | Nothing

  /**
   * The outcome of `fetchData`: a successful response whose content type starts with
   * `image/` gives its blob as the picture; one whose type contains `text/` gives its
   * text, re-wrapped as `text/plain`, as the file; a failed request, an unsuccessful
   * status, another type or a body that cannot be read sets nothing.
   */
  function Load(o: Api.FetchOutcome): (r: Loaded)
    ensures r.SetImage? <==> o.Response? && o.ok && o.body.Some? && Api.IsImageType(o.contentType)
    ensures r.SetFile? <==> o.Response? && o.ok && o.body.Some? && !Api.IsImageType(o.contentType) && Api.IsTextType(o.contentType)
    ensures r.SetImage? ==> r.image == Api.BlobUrl(o.contentType.value, o.body.value)
    ensures r.SetFile? ==> r.file == Api.BlobUrl("text/plain", o.body.value)
  {
    match o
    case NetworkError => Nothing
    case Response(ok, contentType, body) =>
      if !ok then Nothing
      else if Api.IsImageType(contentType) then
        if body.Some? then SetImage(Api.BlobUrl(contentType.value, body.value)) else Nothing
      else if Api.IsTextType(contentType) then
        if body.Some? then SetFile(Api.BlobUrl("text/plain", body.value)) else Nothing
      else Nothing
  }

  /**
   * The component and `api.getAttachment` read a response alike, except for an empty
   * text body: the component still offers it for download, `getAttachment` gives
   * nothing.
   */
  lemma LoadAgreesWithGetAttachment(o: Api.FetchOutcome)
    ensures Load(o).SetImage? ==> Api.GetAttachment(o) == Some(Load(o).image)
    ensures Load(o).SetFile? && Load(o).file.data != "" ==> Api.GetAttachment(o) == Some(Load(o).file)
    ensures Load(o).SetFile? && Load(o).file.data == "" ==> Api.GetAttachment(o).None?
    ensures Load(o).Nothing? ==> Api.GetAttachment(o).None?
  {
  }

  /** What the component renders. */
  datatype View =
    | Thumbnail(image: Api.ObjectUrl, lightbox: bool)  // the picture, and the lightbox over it when open
    | DownloadLink(file: Api.ObjectUrl, name: string)   // "Скачать файл", downloading as `filename`
    | Empty

  class CommentAttachment {
    var filename: string
    var image: Option<Api.ObjectUrl>
    var file: Option<Api.ObjectUrl>
    var isOpen: bool
    var attachmentType: string
    /** The `isMounted` flag of each run of the fetch effect, oldest run first. */
    var runs: seq<bool>

    /**
     * The lightbox is open only over a loaded picture, the effect has run, and every run
     * but the latest has been cleaned up.
     */
    predicate Valid()
      reads this
    {
      && (isOpen ==> image.Some?)
      && |runs| > 0
      && forall k :: 0 <= k < |runs| - 1 ==> !runs[k]
    }

    /** Run `run` of the effect has not been cleaned up: its fetch may still store. */
    predicate Live(run: nat)
      reads this
    {
      run < |runs| && runs[run]
    }

    /** The component is mounted: its latest run has not been cleaned up. */
    predicate Mounted()
      reads this
    {
      |runs| > 0 && runs[|runs| - 1]
    }

    /** In a valid state only the latest run can be live. */
    lemma OnlyLatestLive(run: nat)
      requires Valid()
      ensures Live(run) ==> run == |runs| - 1
      ensures Live(run) ==> Mounted()
    {
    }

    /** Mounting: nothing loaded, the lightbox closed, the type read from the name, and the first fetch started. */
    constructor(filename: string)
      ensures this.filename == filename
      ensures image.None? && file.None? && !isOpen && runs == [true]
      ensures attachmentType == TypeOf(filename)
      ensures Valid() && Mounted()
    {
      this.filename := filename;
      image, file, isOpen, runs := None, None, false, [true];
      attachmentType := "image";
      if Extension(filename) == "txt" {
        attachmentType := "text";
      }
    }

    /**
     * A new `filename` prop. With an equal name the effect does not run again. Otherwise
     * the cleanup clears the latest run's flag and the effect runs again: a `.txt` name
     * sets the type to `"text"`, any other name leaves the type as it was, and a new
     * fetch starts. What is loaded and the lightbox are kept.
     */
    method ChangeFilename(name: string)
      requires Valid() && Mounted()
      modifies this
      ensures Valid() && Mounted()
      ensures filename == name
      ensures name == old(filename) ==> runs == old(runs) && attachmentType == old(attachmentType)
      ensures name != old(filename) ==> runs == old(runs[..|runs| - 1]) + [false, true]
      ensures name != old(filename) ==>
                attachmentType == (if Extension(name) == "txt" then "text" else old(attachmentType))
      ensures image == old(image) && file == old(file) && isOpen == old(isOpen)
    {
      if name == filename {
        return;
      }
      runs := runs[..|runs| - 1] + [false, true];
      filename := name;
      if Extension(name) == "txt" {
        attachmentType := "text";
      }
    }

    /**
     * The fetch started by run `run` settles: what it loaded is stored only while that
     * run has not been cleaned up, so a fetch of an earlier name or of an unmounted
     * component stores nothing.
     */
    method Resolve(run: nat, o: Api.FetchOutcome)
      requires Valid()
      modifies this
      ensures Valid()
      ensures image == (if Live(run) && Load(o).SetImage? then Some(Load(o).image) else old(image))
      ensures file == (if Live(run) && Load(o).SetFile? then Some(Load(o).file) else old(file))
      ensures run != |runs| - 1 ==> image == old(image) && file == old(file)
      ensures isOpen == old(isOpen) && attachmentType == old(attachmentType)
      ensures runs == old(runs) && filename == old(filename)
    {
      var loaded := Load(o);
      if loaded.SetImage? && Live(run) {
        image := Some(loaded.image);
      } else if loaded.SetFile? && Live(run) {
        file := Some(loaded.file);
      }
    }

    /** The effect's cleanup at unmount: the latest run's flag is cleared. */
    method Unmount()
      requires Valid()
      modifies this
      ensures Valid() && !Mounted()
      ensures runs == old(runs[..|runs| - 1]) + [false]
      ensures image == old(image) && file == old(file) && isOpen == old(isOpen)
      ensures attachmentType == old(attachmentType) && filename == old(filename)
    {
      runs := runs[..|runs| - 1] + [false];
    }

    /** `handleOpen`: a click on the thumbnail opens the lightbox. */
    method HandleOpen()
      requires Valid()
      modifies this
      ensures Valid()
      ensures isOpen == (old(isOpen) || image.Some?)
      ensures image == old(image) && file == old(file) && runs == old(runs) && attachmentType == old(attachmentType)
      ensures filename == old(filename)
    {
      if image.Some? && !isOpen {
        isOpen := true;
      }
    }

    /** `handleClose`: the lightbox's close request. */
    method HandleClose()
      requires Valid()
      modifies this
      ensures Valid()
      ensures !isOpen
      ensures image == old(image) && file == old(file) && runs == old(runs) && attachmentType == old(attachmentType)
      ensures filename == old(filename)
    {
      isOpen := false;
    }

    /**
     * A loaded picture wins over a loaded file; with neither, nothing is shown. In a
     * valid state an open lightbox is always on screen, over the thumbnail.
     */
    function Render(): (r: View)
      reads this
      ensures Valid() ==> (isOpen ==> r.Thumbnail? && r.lightbox)
      ensures r.Thumbnail? <==> image.Some?
      ensures r.Thumbnail? ==> r.image == image.value && r.lightbox == isOpen
      ensures r.DownloadLink? <==> image.None? && file.Some?
      ensures r.DownloadLink? ==> r.file == file.value && r.name == filename
    {
      if image.Some? then Thumbnail(image.value, isOpen)
      else if file.Some? then DownloadLink(file.value, filename)
      else Empty
    }
  }

  /**
   * `a.png` is renamed to `b.txt` before its fetch settles: the picture that fetch
   * loads is dropped, and renaming back to `a.png` leaves the type `"text"`.
   */
  method RenameBeforeFetch() returns (v: View, t: string)
    ensures v == Empty && t == "text"
  {
    var c := new CommentAttachment("a.png");
    ExtensionIsTxt("b.txt");
    ExtensionIsTxt("a.png");
    c.ChangeFilename("b.txt");
    c.Resolve(0, Api.Response(true, Some("image/png"), Some("px")));
    c.ChangeFilename("a.png");
    v, t := c.Render(), c.attachmentType;
  }

  /** The segment after a name's last dot is its extension, whatever precedes the dot. */
  lemma {:induction false} SegmentAfterLastDot(stem: string, ext: string)
    requires '.' !in ext
    ensures LastSegment(stem + ['.'] + ext) == ext
  {
    var name := stem + ['.'] + ext;
    if ext != [] {
      assert name[..|name| - 1] == stem + ['.'] + ext[..|ext| - 1];
      SegmentAfterLastDot(stem, ext[..|ext| - 1]);
      assert ext == ext[..|ext| - 1] + [ext[|ext| - 1]];
    }
  }

  /** A name without a dot is its own extension. */
  lemma {:induction false} NoDotIsOwnSegment(name: string)
    requires '.' !in name
    ensures LastSegment(name) == name
  {
    if name != [] {
      var init, last := name[..|name| - 1], name[|name| - 1];
      assert name == init + [last];
      NoDotIsOwnSegment(init);
      assert LastSegment(name) == LastSegment(init) + [last];
    }
  }

  /**
   * Only the last segment counts, in any case: `x.TXT` is text, `x.png` is a picture
   * even when `x` is `notes.txt`, a name ending in a dot is a picture, and the bare
   * name `txt` is text.
   */
  lemma ExtensionExamples(stem: string)
    ensures TypeOf(stem + ".TXT") == "text"
    ensures TypeOf(stem + ".png") == "image"
    ensures TypeOf(stem + ".") == "image"
    ensures TypeOf("txt") == "text"
  {
    SegmentAfterLastDot(stem, "TXT");
    assert stem + ".TXT" == stem + ['.'] + "TXT";
    assert Strings.LowerAscii("TXT") == "txt";
    SegmentAfterLastDot(stem, "png");
    assert stem + ".png" == stem + ['.'] + "png";
    assert Strings.LowerAscii("png")[0] == 'p';
    SegmentAfterLastDot(stem, "");
    assert stem + "." == stem + ['.'] + "";
    NoDotIsOwnSegment("txt");
    assert Strings.LowerAscii("txt") == "txt";
  }
}
