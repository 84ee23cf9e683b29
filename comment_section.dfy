/** The comment list under a post: submit, like, edit, delete and report comments, and
    the one-level grouping of replies under their root comment. */
module CommentSection {
  import opened JsText
  import Seqs

  datatype Author = Author(id: string, name: string, avatar: string)

  datatype Comment = Comment(
    id: string,
    content: string,
    author: Author,
    createdAt: string,
    likeCount: int,
    isLiked: bool,
    isSecret: bool,
    parentId: Option<string>)

  /** The toast a like raises, read from the comment as it was before the click. */
  datatype LikeToast = NoToast | Liked | LikeCancelled

  /** The author every new comment is attributed to. */
  const CurrentAuthor := Author("101", "\U{D64D}\U{AE38}\U{B3D9}", "/placeholder.svg?height=32&width=32")

  // ---- list functions ----

  /** The list after a successful submit of `text`. */
  function Submitted(comments: seq<Comment>, text: string, isSecret: bool, now: string): seq<Comment>
  {
    comments + [Comment(DecimalString(|comments| + 1), text, CurrentAuthor, now, 0, false, isSecret, None)]
  }

  /** One like toggle applied to a single comment. */
  function Toggled(c: Comment): Comment
  {
    c.(likeCount := if c.isLiked then c.likeCount - 1 else c.likeCount + 1, isLiked := !c.isLiked)
  }

  /** The list after liking (or unliking) the comments carrying `id`. */
  function LikeToggled(comments: seq<Comment>, id: string): seq<Comment>
  {
    seq(|comments|, k requires 0 <= k < |comments| =>
      if comments[k].id == id then Toggled(comments[k]) else comments[k])
  }

  /** `comments.find((c) => c.id === id)`, as an index. */
  function FindComment(comments: seq<Comment>, id: string): (r: Option<nat>)
    ensures r.Some? ==> r.value < |comments| && comments[r.value].id == id
    ensures r.Some? ==> forall k :: 0 <= k < r.value ==> comments[k].id != id
    ensures r.None? <==> forall k :: 0 <= k < |comments| ==> comments[k].id != id
  {
    if comments == [] then None
    else if comments[0].id == id then Some(0)
    else
      match FindComment(comments[1..], id)
      case None => None
      case Some(k) => Some(k + 1)
  }

  function LikeToastFor(comments: seq<Comment>, id: string): LikeToast
  {
    match FindComment(comments, id)
    case None => NoToast
    case Some(k) => if comments[k].isLiked then LikeCancelled else Liked
  }

  /** The list after saving `text` as the content of the comments carrying `id`. */
  function ContentEdited(comments: seq<Comment>, id: string, text: string): seq<Comment>
  {
    seq(|comments|, k requires 0 <= k < |comments| =>
      if comments[k].id == id then comments[k].(content := text) else comments[k])
  }

  /** The list after deleting the comments carrying `id`. */
  function Deleted(comments: seq<Comment>, id: string): seq<Comment>
  {
    Seqs.Filter(comments, (c: Comment) => c.id != id)
  }

  /** `rootComments`: the comments without a parent. */
  function RootComments(comments: seq<Comment>): seq<Comment>
  {
    Seqs.Filter(comments, (c: Comment) => c.parentId.None?)
  }

  /** `getChildComments(parentId)`: the replies to `parentId`. */
  function ChildComments(comments: seq<Comment>, parentId: string): seq<Comment>
  {
    Seqs.Filter(comments, (c: Comment) => c.parentId == Some(parentId))
  }

  // ---- properties ----

  /** A submit appends exactly one root comment with the next id, no likes, the draft's
      secret flag and the text as typed (not trimmed). */
  lemma SubmitAppendsOne(comments: seq<Comment>, text: string, isSecret: bool, now: string)
    ensures var r := Submitted(comments, text, isSecret, now);
      && |r| == |comments| + 1 && r[..|comments|] == comments
      && r[|comments|].id == DecimalString(|comments| + 1)
      && ParseDecimal(r[|comments|].id) == |comments| + 1
      && r[|comments|].content == text && r[|comments|].likeCount == 0
      && !r[|comments|].isLiked && r[|comments|].isSecret == isSecret
      && r[|comments|].parentId == None && r[|comments|] in RootComments(r)
  {
    var r := Submitted(comments, text, isSecret, now);
    DecimalRoundTrip(|comments| + 1);
    Seqs.FilterMembership(r, (c: Comment) => c.parentId.None?, r[|comments|]);
  }

  /** A like flips `isLiked` of the matching comments and moves their `likeCount` by one
      in the matching direction; every other field and every other comment is unchanged. */
  lemma LikeFlipsAndCounts(comments: seq<Comment>, id: string)
    ensures var r := LikeToggled(comments, id);
      && |r| == |comments|
      && (forall k :: 0 <= k < |r| && comments[k].id == id ==>
            && r[k].isLiked == !comments[k].isLiked
            && r[k].likeCount == comments[k].likeCount + (if comments[k].isLiked then -1 else 1)
            && r[k].(likeCount := 0, isLiked := false) == comments[k].(likeCount := 0, isLiked := false))
      && (forall k :: 0 <= k < |r| && comments[k].id != id ==> r[k] == comments[k])
  {
  }

  /** Liking the same comment twice restores the list exactly. */
  lemma LikeTwiceRestores(comments: seq<Comment>, id: string)
    ensures LikeToggled(LikeToggled(comments, id), id) == comments
  {
    var twice := LikeToggled(LikeToggled(comments, id), id);
    assert forall k :: 0 <= k < |comments| ==> twice[k] == comments[k];
  }

  /** The like toast reports the state before the click: "cancelled" exactly when the
      first matching comment was liked, none when no comment matches. */
  lemma LikeToastReportsOldState(comments: seq<Comment>, id: string)
    ensures LikeToastFor(comments, id) == NoToast <==> forall k :: 0 <= k < |comments| ==> comments[k].id != id
    ensures LikeToastFor(comments, id) != NoToast ==>
      exists k :: 0 <= k < |comments| && comments[k].id == id
        && (forall j :: 0 <= j < k ==> comments[j].id != id)
        && (LikeToastFor(comments, id) == LikeCancelled <==> comments[k].isLiked)
        && LikeToggled(comments, id)[k].isLiked == (LikeToastFor(comments, id) == Liked)
  {
  }

  /** Saving an edit changes only the `content` of the comments carrying the id. */
  lemma EditChangesOnlyContent(comments: seq<Comment>, id: string, text: string)
    ensures var r := ContentEdited(comments, id, text);
      && |r| == |comments|
      && (forall k :: 0 <= k < |r| && comments[k].id == id ==> r[k] == comments[k].(content := text))
      && (forall k :: 0 <= k < |r| && comments[k].id != id ==> r[k] == comments[k])
  {
  }

  /** Delete removes exactly the comments carrying the id. */
  lemma DeleteRemovesExactly(comments: seq<Comment>, id: string, c: Comment)
    ensures c in Deleted(comments, id) <==> c in comments && c.id != id
  {
    Seqs.FilterMembership(comments, (x: Comment) => x.id != id, c);
  }

  /** Delete keeps the surviving comments in list order. */
  lemma DeleteKeepsOrder(a: seq<Comment>, b: seq<Comment>, id: string)
    ensures Deleted(a + b, id) == Deleted(a, id) + Deleted(b, id)
  {
    Seqs.FilterAppend(a, b, (c: Comment) => c.id != id);
  }

  /** Deleting a comment does not delete its replies: they stay in the list, still
      pointing at the removed id, and right after the delete no root carries that id
      (a later submit can mint it again, see `SubmitCanAdoptOrphans`). */
  lemma DeleteOrphansReplies(comments: seq<Comment>, id: string, reply: Comment)
    requires reply in comments && reply.parentId == Some(id) && reply.id != id
    ensures reply in Deleted(comments, id)
    ensures reply !in RootComments(Deleted(comments, id))
    ensures reply in ChildComments(Deleted(comments, id), id)
    ensures forall k :: 0 <= k < |RootComments(Deleted(comments, id))| ==> RootComments(Deleted(comments, id))[k].id != id
  {
    var d := Deleted(comments, id);
    DeleteRemovesExactly(comments, id, reply);
    Seqs.FilterMembership(d, (c: Comment) => c.parentId.None?, reply);
    Seqs.FilterMembership(d, (c: Comment) => c.parentId == Some(id), reply);
    forall k | 0 <= k < |RootComments(d)|
      ensures RootComments(d)[k].id != id
    {
      DeleteRemovesExactly(comments, id, RootComments(d)[k]);
    }
  }

  /** Deleting comments "1" and then "2" from the list 1, 2, 3 leaves comment 3 alone. */
  lemma DeleteFirstTwo(c1: Comment, c2: Comment, c3: Comment)
    requires c1.id == "1" && c2.id == "2" && c3.id == "3"
    ensures Deleted(Deleted([c1, c2, c3], "1"), "2") == [c3]
  {
    var not1 := (c: Comment) => c.id != "1";
    var not2 := (c: Comment) => c.id != "2";
    assert Seqs.Filter([c3], not1) == [c3] by { assert [c3][1..] == []; }
    assert Seqs.Filter([c2, c3], not1) == [c2, c3] by { assert [c2, c3][1..] == [c3]; }
    assert Deleted([c1, c2, c3], "1") == [c2, c3] by { assert [c1, c2, c3][1..] == [c2, c3]; }
    assert Seqs.Filter([c3], not2) == [c3] by { assert [c3][1..] == []; }
    assert Deleted([c2, c3], "2") == [c3] by { assert [c2, c3][1..] == [c3]; }
  }

  /** Because a submit mints the id from the list length, a new root can take the id of a
      deleted comment and so adopt its orphaned replies: from comments 1, 2 and a reply 3
      to 2, delete 1 and 2 and submit; the new root gets id "2" and reply 3 is its child. */
  lemma SubmitCanAdoptOrphans(c1: Comment, c2: Comment, c3: Comment)
    requires c1.id == "1" && c2.id == "2" && c3.id == "3" && c3.parentId == Some("2")
    ensures var r := Submitted(Deleted(Deleted([c1, c2, c3], "1"), "2"), "d", false, "");
      && |r| == 2 && r[1].id == "2" && r[1] in RootComments(r)
      && c3 in ChildComments(r, r[1].id)
  {
    DeleteFirstTwo(c1, c2, c3);
    assert DecimalString(2) == "2";
    var r := Submitted([c3], "d", false, "");
    Seqs.FilterMembership(r, (c: Comment) => c.parentId.None?, r[1]);
    Seqs.FilterMembership(r, (c: Comment) => c.parentId == Some("2"), c3);
  }

  /** The grouping: a comment is a root exactly when it has no parent, and a reply of `p`
      exactly when its parent is `p`; so every comment is shown at most once. */
  lemma GroupingByParent(comments: seq<Comment>, p: string, c: Comment)
    ensures c in RootComments(comments) <==> c in comments && c.parentId == None
    ensures c in ChildComments(comments, p) <==> c in comments && c.parentId == Some(p)
    ensures !(c in RootComments(comments) && c in ChildComments(comments, p))
  {
    Seqs.FilterMembership(comments, (x: Comment) => x.parentId.None?, c);
    Seqs.FilterMembership(comments, (x: Comment) => x.parentId == Some(p), c);
  }

  /** The groups keep list order: splitting the list anywhere, roots and replies of each
      part appear in the same order. */
  lemma GroupingKeepsOrder(a: seq<Comment>, b: seq<Comment>, p: string)
    ensures RootComments(a + b) == RootComments(a) + RootComments(b)
    ensures ChildComments(a + b, p) == ChildComments(a, p) + ChildComments(b, p)
  {
    Seqs.FilterAppend(a, b, (c: Comment) => c.parentId.None?);
    Seqs.FilterAppend(a, b, (c: Comment) => c.parentId == Some(p));
  }

  // ---- the component's state and handlers ----

  class CommentBoard {
    var comments: seq<Comment>
    var commentText: string
    var isSecret: bool
    var reportReason: string
    var reportingCommentId: Option<string>
    var editingCommentId: Option<string>
    var editText: string

    constructor (initial: seq<Comment>)
      ensures comments == initial && commentText == "" && !isSecret
      ensures reportReason == "" && reportingCommentId == None
      ensures editingCommentId == None && editText == ""
    {
      comments := initial;
      commentText := "";
      isSecret := false;
      reportReason := "";
      reportingCommentId := None;
      editingCommentId := None;
      editText := "";
    }

    /** `handleSubmitComment`: blank text changes nothing; otherwise the comment is
        appended and the draft is cleared. `now` stands for `new Date().toISOString()`. */
    method HandleSubmitComment(now: string) returns (posted: bool)
      modifies this
      ensures posted <==> !IsBlank(old(commentText))
      ensures posted ==>
        && comments == Submitted(old(comments), old(commentText), old(isSecret), now)
        && commentText == "" && !isSecret
        && reportReason == old(reportReason) && reportingCommentId == old(reportingCommentId)
        && editingCommentId == old(editingCommentId) && editText == old(editText)
      ensures !posted ==> unchanged(this)
    {
      var text := commentText;
      if IsBlank(text) {
        return false;
      }
      var appended := Submitted(comments, text, isSecret, now);
      comments, commentText, isSecret := appended, "", false;
      posted := true;
    }

    /** `handleLikeComment`: toggles the matching comments; the toast is chosen from the
        list as it was before the click. */
    method HandleLikeComment(id: string) returns (toast: LikeToast)
      modifies this
      ensures comments == LikeToggled(old(comments), id)
      ensures toast == LikeToastFor(old(comments), id)
      ensures commentText == old(commentText) && isSecret == old(isSecret)
      ensures reportReason == old(reportReason) && reportingCommentId == old(reportingCommentId)
      ensures editingCommentId == old(editingCommentId) && editText == old(editText)
    {
      var before := comments;
      comments := LikeToggled(comments, id);
      toast := LikeToastFor(before, id);
    }

    /** The report menu item's `onSelect`: remembers which comment is being reported. */
    method SelectForReport(id: string)
      modifies this
      ensures reportingCommentId == Some(id)
      ensures comments == old(comments) && commentText == old(commentText) && isSecret == old(isSecret)
      ensures reportReason == old(reportReason)
      ensures editingCommentId == old(editingCommentId) && editText == old(editText)
    {
      reportingCommentId := Some(id);
    }

    /** `handleReportComment`: needs a non-blank reason and a reported comment; the list
        itself never changes, only the report form is reset. */
    method HandleReportComment() returns (accepted: bool)
      modifies this
      ensures accepted <==> !IsBlank(old(reportReason)) && !IsFalsy(old(reportingCommentId))
      ensures accepted ==> reportReason == "" && reportingCommentId == None
      ensures !accepted ==> unchanged(this)
      ensures comments == old(comments) && commentText == old(commentText) && isSecret == old(isSecret)
      ensures editingCommentId == old(editingCommentId) && editText == old(editText)
    {
      if IsBlank(reportReason) || IsFalsy(reportingCommentId) {
        return false;
      }
      reportReason := "";
      reportingCommentId := None;
      accepted := true;
    }

    /** `handleEditComment`: opens the editor on the first comment with that id, loaded
        with its content; an unknown id changes nothing. */
    method HandleEditComment(id: string)
      modifies this
      ensures comments == old(comments)
      ensures match FindComment(old(comments), id)
        case Some(k) => editingCommentId == Some(id) && editText == old(comments)[k].content
          && commentText == old(commentText) && isSecret == old(isSecret)
          && reportReason == old(reportReason) && reportingCommentId == old(reportingCommentId)
        case None => unchanged(this)
    {
      var found := FindComment(comments, id);
      if found.Some? {
        editingCommentId := Some(id);
        editText := comments[found.value].content;
      }
    }

    /** The editor's cancel button: closes the editor, leaving the edit text as it is. */
    method CancelEdit()
      modifies this
      ensures editingCommentId == None
      ensures comments == old(comments) && editText == old(editText)
      ensures commentText == old(commentText) && isSecret == old(isSecret)
      ensures reportReason == old(reportReason) && reportingCommentId == old(reportingCommentId)
    {
      editingCommentId := None;
    }

    /** `handleSaveEdit`: blank text or no comment under edit changes nothing; otherwise
        the content is replaced (untrimmed) and the editor is closed. */
    method HandleSaveEdit() returns (saved: bool)
      modifies this
      ensures saved <==> !IsBlank(old(editText)) && !IsFalsy(old(editingCommentId))
      ensures saved ==>
        && comments == ContentEdited(old(comments), old(editingCommentId).value, old(editText))
        && editingCommentId == None && editText == ""
        && commentText == old(commentText) && isSecret == old(isSecret)
        && reportReason == old(reportReason) && reportingCommentId == old(reportingCommentId)
      ensures !saved ==> unchanged(this)
    {
      if IsBlank(editText) || IsFalsy(editingCommentId) {
        return false;
      }
      comments := ContentEdited(comments, editingCommentId.value, editText);
      editingCommentId := None;
      editText := "";
      saved := true;
    }

    /** `handleDeleteComment`: removes the comments carrying the id, replies included only
        if they carry it themselves. */
    method HandleDeleteComment(id: string)
      modifies this
      ensures comments == Deleted(old(comments), id)
      ensures commentText == old(commentText) && isSecret == old(isSecret)
      ensures reportReason == old(reportReason) && reportingCommentId == old(reportingCommentId)
      ensures editingCommentId == old(editingCommentId) && editText == old(editText)
    {
      comments := Deleted(comments, id);
    }
  }
}
