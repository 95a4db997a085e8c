/** The product form: its initial state from an existing product, the price field, the image
    list (upload and remove), the tag parsing, and the submit guard. */
module ProductForm {
  import opened Wrappers
  import opened Text
  import opened Seqs

  /** The fields of a product the edit page hands the form. */
  datatype InitialData = InitialData(
    name: string,
    description: string,
    price: real,
    imageUrls: seq<string>,
    category: Option<string>,
    tags: Option<seq<string>>)

  /** The form state; `tags` is the raw text of the tags input. */
  datatype FormState = FormState(
    name: string,
    description: string,
    price: real,
    category: string,
    tags: string,
    imageUrls: seq<string>,
    uploading: bool,
    loading: bool,
    error: string)

  /** The data the form hands to its `onSubmit`. */
  datatype Submission = Submission(
    name: string,
    description: string,
    price: real,
    imageUrls: seq<string>,
    category: string,
    tags: seq<string>)

  const DefaultCategory: string := "Electronics"
  const TagSeparator: string := ", "
  const NotAnImage: string := "Please upload only image files"
  const UploadFailed: string := "Failed to upload some images"
  const NoImages: string := "Please upload at least one image"

  // ---------------------------------------------------------------------------
  // Tags

  predicate NonEmpty(s: string) {
    |s| > 0
  }

  /** `.map(t => t.trim()).filter(Boolean)` over the comma-free pieces of the text. */
  function TagsOf(pieces: seq<string>): (r: seq<string>)
    requires forall k :: 0 <= k < |pieces| ==> ',' !in pieces[k]
    ensures forall i :: 0 <= i < |r| ==> |r[i]| > 0 && IsTrimmed(r[i]) && ',' !in r[i]
    ensures |r| <= |pieces|
  {
    var trimmed := MapSeq(pieces, Trim);
    assert forall t :: t in trimmed ==> IsTrimmed(t) && ',' !in t by {
      forall k | 0 <= k < |pieces| ensures ',' !in Trim(pieces[k]) {
        TrimKeepsCharacters(pieces[k]);
      }
    }
    Filter(trimmed, NonEmpty)
  }

  /** The tags of consecutive pieces are the tags of the first pieces followed by those of
      the rest. */
  lemma TagsOfAppend(p: seq<string>, q: seq<string>)
    requires forall k :: 0 <= k < |p| ==> ',' !in p[k]
    requires forall k :: 0 <= k < |q| ==> ',' !in q[k]
    ensures TagsOf(p + q) == TagsOf(p) + TagsOf(q)
  {
    assert MapSeq(p + q, Trim) == MapSeq(p, Trim) + MapSeq(q, Trim);
    FilterAppend(MapSeq(p, Trim), MapSeq(q, Trim), NonEmpty);
  }

  /** `tags.split(',').map(t => t.trim()).filter(Boolean)`. */
  function ParseTags(text: string): (r: seq<string>)
    ensures forall i :: 0 <= i < |r| ==> |r[i]| > 0 && IsTrimmed(r[i]) && ',' !in r[i]
    ensures |text| == 0 ==> r == []
  {
    TagsOf(Split(text, ','))
  }

  /** Text without a comma is one piece: its trimmed form is the only tag, or there is none
      when it is blank. */
  lemma ParseOnePiece(a: string)
    requires ',' !in a
    ensures ParseTags(a) == if Trim(a) == "" then [] else [Trim(a)]
  {
    SplitWithoutSeparator(a, ',');
    var t := Trim(a);
    assert MapSeq([a], Trim) == [t];
    assert Filter([t], NonEmpty) == if |t| > 0 then [t] else [] by {
      assert [t][1..] == [];
    }
  }

  /** Tags come out piece by piece in the order typed: the first comma-free piece's tag, if
      any, precedes the tags of the rest. */
  lemma ParseTagsAppend(a: string, b: string)
    requires ',' !in a
    ensures ParseTags(a + "," + b) == ParseTags(a) + ParseTags(b)
  {
    var rest := Split(b, ',');
    assert Split(a + "," + b, ',') == [a] + rest by {
      assert a + "," + b == a + [','] + b;
      SplitAfterPiece(a, b, ',');
    }
    SplitWithoutSeparator(a, ',');
    TagsOfAppend([a], rest);
  }

  /** One tag typed between blanks parses to that tag alone. */
  lemma OneTag(before: string, t: string, after: string)
    requires AllSpace(before) && AllSpace(after) && GoodTag(t)
    requires ',' !in before && ',' !in after
    ensures ParseTags(before + t + after) == [t]
  {
    assert ',' !in before + t + after;
    TrimAround(before, t, after);
    ParseOnePiece(before + t + after);
  }

  /** A tag list the way the form shows it: the tags joined with `", "`. */
  function ShownTags(tags: seq<string>): string {
    Join(tags, TagSeparator)
  }

  function Pad(t: string): string {
    " " + t
  }

  /** Joining with `", "` is joining with `","` after a blank is put in front of every piece. */
  lemma {:induction false} PadJoin(ts: seq<string>)
    requires |ts| >= 1
    ensures Join(MapSeq(ts, Pad), [',']) == " " + Join(ts, TagSeparator)
    decreases |ts|
  {
    if |ts| > 1 {
      PadJoin(ts[1..]);
      assert MapSeq(ts, Pad)[1..] == MapSeq(ts[1..], Pad);
    }
  }

  /** The pieces a shown tag list splits into at its commas. */
  function Pieces(tags: seq<string>): seq<string>
    requires |tags| >= 1
  {
    [tags[0]] + MapSeq(tags[1..], Pad)
  }

  lemma JoinedAtCommas(tags: seq<string>)
    requires |tags| >= 1
    ensures ShownTags(tags) == Join(Pieces(tags), [','])
  {
    if |tags| > 1 {
      PadJoin(tags[1..]);
      assert Pieces(tags)[1..] == MapSeq(tags[1..], Pad);
    }
  }

  /** A tag that could have come out of parsing. */
  predicate GoodTag(t: string) {
    |t| > 0 && IsTrimmed(t) && ',' !in t
  }

  lemma PiecesHaveNoComma(tags: seq<string>)
    requires |tags| >= 1
    requires forall i :: 0 <= i < |tags| ==> GoodTag(tags[i])
    ensures forall k :: 0 <= k < |Pieces(tags)| ==> ',' !in Pieces(tags)[k]
  {
    forall k | 0 <= k < |Pieces(tags)| ensures ',' !in Pieces(tags)[k] {
      if k > 0 {
        assert Pieces(tags)[k] == " " + tags[k];
      }
    }
  }

  lemma TrimmedPieceIsTag(tags: seq<string>, k: int)
    requires 0 <= k < |tags|
    requires GoodTag(tags[k])
    ensures Trim(Pieces(tags)[k]) == tags[k]
  {
    if k == 0 {
      TrimOfTrimmed(tags[0]);
    } else {
      assert Pieces(tags)[k] == MapSeq(tags[1..], Pad)[k - 1] == " " + tags[k];
      TrimAfterBlank(tags[k]);
    }
  }

  lemma TrimmedPiecesAreTags(tags: seq<string>)
    requires |tags| >= 1
    requires forall i :: 0 <= i < |tags| ==> GoodTag(tags[i])
    ensures MapSeq(Pieces(tags), Trim) == tags
  {
    var pieces := Pieces(tags);
    var trimmed := MapSeq(pieces, Trim);
    assert |trimmed| == |tags|;
    forall k | 0 <= k < |tags|
      ensures trimmed[k] == tags[k]
    {
      assert trimmed[k] == Trim(pieces[k]);
      TrimmedPieceIsTag(tags, k);
    }
  }

  /** Tags that are non-empty, trimmed and comma-free survive being shown and parsed back. */
  lemma ParseTagsRecoversShownTags(tags: seq<string>)
    requires forall i :: 0 <= i < |tags| ==> GoodTag(tags[i])
    ensures ParseTags(ShownTags(tags)) == tags
  {
    if |tags| == 0 {
      assert ShownTags(tags) == "";
    } else {
      JoinedAtCommas(tags);
      PiecesHaveNoComma(tags);
      SplitJoin(Pieces(tags), ',');
      TrimmedPiecesAreTags(tags);
      FilterKeepsAll(tags, NonEmpty);
    }
  }

  // ---------------------------------------------------------------------------
  // Initial state and the price field

  /** The initial state: the product's fields, the category `'Electronics'` when it has none
      (or an empty one), the tags joined with `", "`, or an empty form. */
  function InitialForm(init: Option<InitialData>): (r: FormState)
    ensures init.None? ==> r.name == "" && r.description == "" && r.price == 0.0 && r.tags == "" && r.imageUrls == []
    ensures init.Some? ==>
      && r.name == init.value.name && r.description == init.value.description
      && r.price == init.value.price && r.imageUrls == init.value.imageUrls
      && r.tags == ShownTags(init.value.tags.GetOr([]))
    ensures init.Some? && init.value.category.Some? && init.value.category.value != "" ==>
      r.category == init.value.category.value
    ensures init.None? || init.value.category.None? || init.value.category.value == "" ==>
      r.category == DefaultCategory
    ensures !r.uploading && !r.loading && r.error == ""
  {
    match init
    case None => FormState("", "", 0.0, DefaultCategory, "", [], false, false, "")
    case Some(d) =>
      var category := if d.category.Some? && d.category.value != "" then d.category.value else DefaultCategory;
      FormState(d.name, d.description, d.price, category, ShownTags(d.tags.GetOr([])), d.imageUrls, false, false, "")
  }

  /** The price input: `parseFloat` of the text, with `NaN` (here `None`) becoming 0. */
  function PriceField(form: FormState, parsed: Option<real>): (r: FormState)
    ensures parsed.None? ==> r.price == 0.0
    ensures parsed.Some? ==> r.price == parsed.value
    ensures r == form.(price := r.price)
  {
    form.(price := parsed.GetOr(0.0))
  }

  // ---------------------------------------------------------------------------
  // Images

  /** `imageUrls.filter((_, i) => i !== index)`, walking the list from the front. */
  function RemoveImage(urls: seq<string>, index: int): (r: seq<string>)
    ensures 0 <= index < |urls| ==> r == urls[..index] + urls[index + 1..]
    ensures !(0 <= index < |urls|) ==> r == urls
    decreases |urls|
  {
    if |urls| == 0 then []
    else
      var rest := RemoveImage(urls[1..], index - 1);
      if index == 0 then
        assert urls[1..] == urls[index + 1..];
        rest
      else
        assert index > 0 && index < |urls| ==> urls[1..][..index - 1] == urls[1..index];
        assert index < 0 || index >= |urls| ==> [urls[0]] + urls[1..] == urls;
        [urls[0]] + rest
  }

  /** Removing one image keeps every other image, in order. */
  lemma RemoveImageKeepsOthers(urls: seq<string>, index: int)
    requires 0 <= index < |urls|
    ensures |RemoveImage(urls, index)| == |urls| - 1
    ensures forall k :: 0 <= k < index ==> RemoveImage(urls, index)[k] == urls[k]
    ensures forall k :: index <= k < |urls| - 1 ==> RemoveImage(urls, index)[k] == urls[k + 1]
  {
  }

  /** One picked file and what its upload returned (`None` for `null`). */
  datatype FileUpload = FileUpload(mimeType: string, url: Option<string>)

  predicate IsImage(f: FileUpload) {
    StartsWith(f.mimeType, "image/")
  }

  /** A file whose URL is appended: an image whose upload gave a non-empty URL. */
  predicate Uploaded(f: FileUpload) {
    IsImage(f) && f.url.Some? && f.url.value != ""
  }

  function UrlOf(f: FileUpload): string {
    f.url.GetOr("")
  }

  /** The message a file leaves in the error field, if any. */
  function FileError(f: FileUpload): Option<string> {
    if !IsImage(f) then Some(NotAnImage)
    else if !Uploaded(f) then Some(UploadFailed)
    else None
  }

  /** The error field after the files: the last file's message, or empty when none failed. */
  function LastError(files: seq<FileUpload>): (e: string)
    ensures e == "" <==> forall i :: 0 <= i < |files| ==> Uploaded(files[i])
    ensures e == "" || e == NotAnImage || e == UploadFailed
  {
    if |files| == 0 then ""
    else
      match FileError(files[|files| - 1])
      case Some(message) => message
      case None => LastError(files[..|files| - 1])
  }

  /** One more file changes the appended URLs and the error field only by what that file
      contributes. */
  lemma UploadStep(prefix: seq<FileUpload>, file: FileUpload)
    ensures MapSeq(Filter(prefix + [file], Uploaded), UrlOf)
      == MapSeq(Filter(prefix, Uploaded), UrlOf) + (if Uploaded(file) then [file.url.value] else [])
    ensures LastError(prefix + [file]) == (if FileError(file).Some? then FileError(file).value else LastError(prefix))
  {
    var all := prefix + [file];
    assert all[..|all| - 1] == prefix;
    FilterAppend(prefix, [file], Uploaded);
    var before := Filter(prefix, Uploaded);
    var extra := Filter([file], Uploaded);
    assert extra == (if Uploaded(file) then [file] else []);
    var lhs := MapSeq(before + extra, UrlOf);
    var rhs := MapSeq(before, UrlOf) + (if Uploaded(file) then [file.url.value] else []);
    assert |lhs| == |rhs|;
    forall k | 0 <= k < |lhs| ensures lhs[k] == rhs[k] {
      if k < |before| {
        assert (before + extra)[k] == before[k];
      } else {
        assert (before + extra)[k] == file;
      }
    }
  }

  /** `handleImageUpload`: nothing without files; otherwise every file is tried in order, the
      URLs of the uploaded ones are appended after the existing images, and the error field
      holds the message of the last file that was skipped or failed. */
  method HandleImageUpload(form: FormState, files: seq<FileUpload>) returns (r: FormState)
    ensures |files| == 0 ==> r == form
    ensures |files| > 0 ==> r == form.(
      imageUrls := form.imageUrls + MapSeq(Filter(files, Uploaded), UrlOf),
      error := LastError(files),
      uploading := false)
  {
    if |files| == 0 {
      return form;
    }
    var error := "";
    var added: seq<string> := [];
    var i := 0;
    while i < |files|
      invariant 0 <= i <= |files|
      invariant added == MapSeq(Filter(files[..i], Uploaded), UrlOf)
      invariant error == LastError(files[..i])
    {
      var file := files[i];
      assert files[..i + 1] == files[..i] + [file];
      UploadStep(files[..i], file);
      if !IsImage(file) {
        error := NotAnImage;
      } else if file.url.Some? && file.url.value != "" {
        added := added + [file.url.value];
      } else {
        error := UploadFailed;
      }
      i := i + 1;
    }
    assert files[..|files|] == files;
    r := form.(imageUrls := form.imageUrls + added, error := error, uploading := false);
  }

  /** Uploads only ever append: the images already in the form stay first and in order, and
      every new URL comes from an uploaded image. */
  lemma UploadAppendsInOrder(files: seq<FileUpload>, k: int)
    requires 0 <= k < |Filter(files, Uploaded)|
    ensures Filter(files, Uploaded)[k] in files
    ensures Uploaded(Filter(files, Uploaded)[k])
    ensures MapSeq(Filter(files, Uploaded), UrlOf)[k] == Filter(files, Uploaded)[k].url.value
  {
    assert Filter(files, Uploaded)[k] in Filter(files, Uploaded);
  }

  // ---------------------------------------------------------------------------
  // Submit

  datatype Submitted = Submitted(form: FormState, sent: Option<Submission>)

  /** `handleSubmit`: with no image the error is set and nothing is submitted; otherwise the
      fields are handed over with the parsed tags, and an exception from `onSubmit` (given as
      its message) is shown and ends the loading state. */
  function HandleSubmit(form: FormState, failure: Option<string>): (r: Submitted)
    ensures |form.imageUrls| == 0 ==> r == Submitted(form.(error := NoImages, loading := false), None)
    ensures |form.imageUrls| > 0 ==>
      && r.sent.Some?
      && r.sent.value.imageUrls == form.imageUrls && |r.sent.value.imageUrls| > 0
      && r.sent.value.tags == ParseTags(form.tags)
      && r.sent.value.name == form.name && r.sent.value.description == form.description
      && r.sent.value.price == form.price && r.sent.value.category == form.category
    ensures |form.imageUrls| > 0 && failure.None? ==> r.form == form.(error := "", loading := true)
    ensures |form.imageUrls| > 0 && failure.Some? ==> r.form == form.(error := failure.value, loading := false)
  {
    if |form.imageUrls| == 0 then Submitted(form.(error := NoImages, loading := false), None)
    else
      var sent := Submission(form.name, form.description, form.price, form.imageUrls, form.category, ParseTags(form.tags));
      match failure
      case None => Submitted(form.(error := "", loading := true), Some(sent))
      case Some(message) => Submitted(form.(error := message, loading := false), Some(sent))
  }

  /** Submitting an untouched edit form hands back the product it was opened with, its missing
      category read as `'Electronics'` and missing tags as none, when its tags are non-empty,
      trimmed and comma-free and it has an image. */
  lemma UntouchedFormSubmitsInitialData(init: InitialData)
    requires |init.imageUrls| > 0
    requires init.tags.Some? ==> forall i :: 0 <= i < |init.tags.value| ==> GoodTag(init.tags.value[i])
    ensures var r := HandleSubmit(InitialForm(Some(init)), None);
            r.sent == Some(Submission(init.name, init.description, init.price, init.imageUrls,
                                      if init.category.Some? && init.category.value != "" then init.category.value else DefaultCategory,
                                      init.tags.GetOr([])))
  {
    ParseTagsRecoversShownTags(init.tags.GetOr([]));
  }
}
