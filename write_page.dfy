/** The post-compose page at /posts/write: its form fields and handlers. */
module WritePage {
  import opened JsText
  import opened PostForm

  class WritePostForm {
    var title: string
    var content: string
    var category: string
    var isNotice: bool
    var isPinned: bool
    var tags: seq<string>
    var tagInput: string
    var files: seq<UploadFile>

    constructor ()
      ensures title == "" && content == "" && category == "" && !isNotice && !isPinned
      ensures tags == [] && tagInput == "" && files == []
    {
      title, content, category := "", "", "";
      isNotice, isPinned := false, false;
      tags, tagInput, files := [], "", [];
    }

    /** `handleSubmit`: reports the first failing check, or success; no field changes. */
    method HandleSubmit() returns (outcome: SubmitOutcome)
      ensures outcome == Validate(title, content, category)
      ensures outcome == Submitted <==> !IsBlank(title) && !IsBlank(content) && category != ""
    {
      if IsBlank(title) {
        return MissingTitle;
      }
      if IsBlank(content) {
        return MissingContent;
      }
      if category == "" {
        return MissingCategory;
      }
      outcome := Submitted;
    }

    /** `handleAddTag`: on Enter with non-blank input, appends the trimmed input if it is
        not yet a tag, and clears the input box either way. */
    method HandleAddTag(key: string)
      modifies this
      ensures AddsTag(key, old(tagInput)) ==> tags == TagsAfterEnter(old(tags), old(tagInput)) && tagInput == ""
      ensures !AddsTag(key, old(tagInput)) ==> tags == old(tags) && tagInput == old(tagInput)
      ensures title == old(title) && content == old(content) && category == old(category)
      ensures isNotice == old(isNotice) && isPinned == old(isPinned) && files == old(files)
      ensures CleanTags(old(tags)) ==> CleanTags(tags)
    {
      var input, before := tagInput, tags;
      if key == "Enter" && !IsBlank(input) {
        var trimmed := Trim(input);
        if trimmed !in before {
          tags := before + [trimmed];
        }
        tagInput := "";
        assert tags == TagsAfterEnter(before, input);
        if CleanTags(before) {
          AddTagKeepsTagsClean(before, input);
        }
      }
    }

    /** `handleRemoveTag`. */
    method HandleRemoveTag(tag: string)
      modifies this
      ensures tags == WithoutTag(old(tags), tag)
      ensures tagInput == old(tagInput) && files == old(files)
      ensures title == old(title) && content == old(content) && category == old(category)
      ensures isNotice == old(isNotice) && isPinned == old(isPinned)
      ensures CleanTags(old(tags)) ==> CleanTags(tags)
    {
      if CleanTags(tags) {
        RemoveTagKeepsTagsClean(tags, tag);
      }
      tags := WithoutTag(tags, tag);
    }

    /** `handleFileChange`: `picked` is the input's `files`, absent when it is null. */
    method HandleFileChange(picked: Option<seq<UploadFile>>)
      modifies this
      ensures files == WithPicked(old(files), picked)
      ensures tags == old(tags) && tagInput == old(tagInput)
      ensures title == old(title) && content == old(content) && category == old(category)
      ensures isNotice == old(isNotice) && isPinned == old(isPinned)
    {
      if picked.Some? {
        files := files + picked.value;
      }
    }

    /** `handleRemoveFile`. */
    method HandleRemoveFile(file: UploadFile)
      modifies this
      ensures files == WithoutFile(old(files), file)
      ensures tags == old(tags) && tagInput == old(tagInput)
      ensures title == old(title) && content == old(content) && category == old(category)
      ensures isNotice == old(isNotice) && isPinned == old(isPinned)
    {
      files := WithoutFile(files, file);
    }
  }
}
