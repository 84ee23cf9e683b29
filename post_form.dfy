/** The logic of the post-compose form, shared by the write page and the create page:
    the ordered validation of a submit, the duplicate-free tag list and the attachment list. */
module PostForm {
  import opened JsText
  import Seqs

  /** What a submit reports: the first failing check, or success (toast and navigation). */
  datatype SubmitOutcome = MissingTitle | MissingContent | MissingCategory | Submitted

  /** A picked file. Files are compared by identity (`!==`), so they are objects. */
  class UploadFile {
    const name: string
    const size: nat

    constructor (name: string, size: nat)
      ensures this.name == name && this.size == size
    {
      this.name := name;
      this.size := size;
    }
  }

  /** The guard chain of `handleSubmit`: title, then content, then category. */
  function Validate(title: string, content: string, category: string): SubmitOutcome
  {
    if IsBlank(title) then MissingTitle
    else if IsBlank(content) then MissingContent
    else if category == "" then MissingCategory
    else Submitted
  }

  /** The key press adds a tag (and clears the input box). */
  predicate AddsTag(key: string, tagInput: string)
  {
    key == "Enter" && !IsBlank(tagInput)
  }

  /** The tag list after Enter on `tagInput`: the trimmed value is appended if absent. */
  function TagsAfterEnter(tags: seq<string>, tagInput: string): seq<string>
  {
    if Trim(tagInput) in tags then tags else tags + [Trim(tagInput)]
  }

  /** `handleRemoveTag`: every entry equal to `tag` is dropped. */
  function WithoutTag(tags: seq<string>, tag: string): seq<string>
  {
    Seqs.Filter(tags, (t: string) => t != tag)
  }

  /** `handleRemoveFile`: every entry identical to `file` is dropped. */
  function WithoutFile(files: seq<UploadFile>, file: UploadFile): seq<UploadFile>
  {
    Seqs.Filter(files, (f: UploadFile) => f != file)
  }

  /** `handleFileChange`: the picked files, if any, go after the existing ones. */
  function WithPicked(files: seq<UploadFile>, picked: Option<seq<UploadFile>>): seq<UploadFile>
  {
    match picked
    case None => files
    case Some(newFiles) => files + newFiles
  }

  /** The tag list the form maintains: distinct, trimmed, non-empty tags. */
  predicate CleanTags(tags: seq<string>)
  {
    && Seqs.Distinct(tags)
    && (forall i :: 0 <= i < |tags| ==> tags[i] != "" && Trim(tags[i]) == tags[i])
  }

  // ---- properties ----

  /** The checks run in order and the first failure alone is reported; success only when
      the title and content are non-blank and a category is chosen. */
  lemma ValidationOrder(title: string, content: string, category: string)
    ensures Validate(title, content, category) == MissingTitle <==> IsBlank(title)
    ensures Validate(title, content, category) == MissingContent <==> !IsBlank(title) && IsBlank(content)
    ensures Validate(title, content, category) == MissingCategory
        <==> !IsBlank(title) && !IsBlank(content) && category == ""
    ensures Validate(title, content, category) == Submitted
        <==> !IsBlank(title) && !IsBlank(content) && category != ""
  {
  }

  /** A title made only of whitespace is rejected, whatever the other fields hold. */
  lemma WhitespaceTitleRejected(title: string, content: string, category: string)
    requires forall k :: 0 <= k < |title| ==> IsWhitespace(title[k])
    ensures Validate(title, content, category) == MissingTitle
  {
    BlankIffAllWhitespace(title);
  }

  /** Enter on non-blank input keeps the tag list distinct, trimmed and free of empty tags. */
  lemma AddTagKeepsTagsClean(tags: seq<string>, tagInput: string)
    requires CleanTags(tags) && !IsBlank(tagInput)
    ensures CleanTags(TagsAfterEnter(tags, tagInput))
  {
    var t := Trim(tagInput);
    if t !in tags {
      var r := tags + [t];
      TrimIdempotent(tagInput);
      Seqs.AppendFreshKeepsDistinct(tags, t);
      forall i | 0 <= i < |r| ensures r[i] != "" && Trim(r[i]) == r[i] {
        if i < |tags| {
          assert r[i] == tags[i];
        }
      }
    }
  }

  /** After Enter on non-blank input the trimmed value is in the list, added at the end
      exactly when it was absent; a second Enter with the same input changes nothing. */
  lemma AddTagAppendsTrimmed(tags: seq<string>, tagInput: string)
    requires !IsBlank(tagInput)
    ensures Trim(tagInput) in TagsAfterEnter(tags, tagInput)
    ensures Trim(tagInput) in tags ==> TagsAfterEnter(tags, tagInput) == tags
    ensures Trim(tagInput) !in tags ==> TagsAfterEnter(tags, tagInput) == tags + [Trim(tagInput)]
    ensures TagsAfterEnter(TagsAfterEnter(tags, tagInput), tagInput) == TagsAfterEnter(tags, tagInput)
  {
  }

  /** Removing a tag drops exactly the equal entries and keeps the others in order. */
  lemma RemoveTagDropsEqual(tags: seq<string>, tag: string, t: string)
    ensures t in WithoutTag(tags, tag) <==> t in tags && t != tag
    ensures forall a, b :: WithoutTag(a + b, tag) == WithoutTag(a, tag) + WithoutTag(b, tag)
  {
    Seqs.FilterMembership(tags, (x: string) => x != tag, t);
    forall a, b ensures WithoutTag(a + b, tag) == WithoutTag(a, tag) + WithoutTag(b, tag) {
      Seqs.FilterAppend(a, b, (x: string) => x != tag);
    }
  }

  /** Removing a tag keeps the list clean. */
  lemma RemoveTagKeepsTagsClean(tags: seq<string>, tag: string)
    requires CleanTags(tags)
    ensures CleanTags(WithoutTag(tags, tag))
  {
    Seqs.FilterKeepsDistinct(tags, (t: string) => t != tag);
  }

  /** Adding a new tag and then removing it restores the list. */
  lemma RemoveUndoesAdd(tags: seq<string>, tagInput: string)
    requires Trim(tagInput) !in tags
    ensures WithoutTag(TagsAfterEnter(tags, tagInput), Trim(tagInput)) == tags
  {
    var t := Trim(tagInput);
    Seqs.FilterAppend(tags, [t], (x: string) => x != t);
    Seqs.FilterKeepsAll(tags, (x: string) => x != t);
    Seqs.FilterKeepsNone([t], (x: string) => x != t);
  }

  /** Picked files go after the existing ones in their order; removing a file drops only
      the entries identical to it, so removing a newly picked file restores the list. */
  lemma FilesAppendAndRemove(files: seq<UploadFile>, picked: seq<UploadFile>, file: UploadFile, g: UploadFile)
    ensures WithPicked(files, Some(picked)) == files + picked
    ensures WithPicked(files, None) == files
    ensures g in WithoutFile(files, file) <==> g in files && g != file
    ensures file !in files ==> WithoutFile(files + [file], file) == files
  {
    Seqs.FilterMembership(files, (f: UploadFile) => f != file, g);
    if file !in files {
      Seqs.FilterAppend(files, [file], (f: UploadFile) => f != file);
      Seqs.FilterKeepsAll(files, (f: UploadFile) => f != file);
      Seqs.FilterKeepsNone([file], (f: UploadFile) => f != file);
    }
  }
}
