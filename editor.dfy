/** The post editor of pages/Editor.tsx: a form primed from the post being
    edited, an image picked from a file or dropped on the form, and the
    save action that turns the form into a post. Ids are numbers here, 0
    meaning "not saved yet" so that the store hands out a new id. */
module Editor {
  import opened Types
  import Text
  import Detail

  const Author: string := "Admin"

  /** The placeholder cover for a post saved without an image; `seed` is the
      text of a random number. */
  function PlaceholderImage(seed: string): string {
    "https://picsum.photos/seed/" + seed + "/1200/600"
  }

  /** What a content change or file pick can be: the MIME type gate of
      `processFile`. */
  predicate IsImageType(fileType: string) {
    Text.StartsWith(fileType, "image/")
  }

  class Form {
    const initialPost: Option<Post<int>>
    var title: string
    var content: string
    var isFeatured: bool
    var imageUrl: string

    /** Each field starts from the post being edited, or empty. */
    constructor(initial: Option<Post<int>>)
      ensures initialPost == initial
      ensures initial.Some? ==>
        (title == initial.value.title && content == initial.value.content
         && isFeatured == initial.value.isFeatured && imageUrl == initial.value.imageUrl)
      ensures initial.None? ==> title == "" && content == "" && !isFeatured && imageUrl == ""
    {
      initialPost := initial;
      title := if initial.Some? then initial.value.title else "";
      content := if initial.Some? then initial.value.content else "";
      isFeatured := initial.Some? && initial.value.isFeatured;
      imageUrl := if initial.Some? then initial.value.imageUrl else "";
    }

    /** `handleSave`: nothing (after an alert) when the title is blank, else
        the post handed to `onSave`. `seed` stands for `Math.random()` and
        `today` for the formatted current date. */
    function HandleSave(seed: string, today: string): (saved: Option<Post<int>>)
      reads this
      ensures saved.None? <==> Text.IsBlank(title)
      ensures saved.Some? ==>
        var p := saved.value;
        && p.id == (if initialPost.Some? then initialPost.value.id else 0)
        && p.title == title && p.content == content && p.isFeatured == isFeatured
        && p.imageUrl == (if imageUrl != "" then imageUrl else PlaceholderImage(seed))
        && p.imageUrl != ""
        && p.excerpt == Text.Excerpt(content)
        && p.author == Author
        && p.date == (if initialPost.Some? && initialPost.value.date != "" then initialPost.value.date else today)
    {
      Text.TrimEmptyIffBlank(title);
      if Text.Trim(title) == "" then None
      else
        Some(Post(
          if initialPost.Some? then initialPost.value.id else 0,
          title,
          Text.Excerpt(content),
          content,
          Author,
          if initialPost.Some? && initialPost.value.date != "" then initialPost.value.date else today,
          if imageUrl != "" then imageUrl else PlaceholderImage(seed),
          isFeatured))
    }

    /** `processFile`: an image file's data URL becomes the cover; any other
        file is refused and the cover stays. */
    method ProcessFile(fileType: string, dataUrl: string) returns (accepted: bool)
      modifies this
      ensures accepted <==> IsImageType(fileType)
      ensures imageUrl == if accepted then dataUrl else old(imageUrl)
      ensures title == old(title) && content == old(content) && isFeatured == old(isFeatured)
    {
      if !Text.StartsWith(fileType, "image/") {
        return false;
      }
      imageUrl := dataUrl;
      accepted := true;
    }

    /** `removeImage`: the next save falls back to a placeholder. */
    method RemoveImage()
      modifies this
      ensures imageUrl == ""
      ensures title == old(title) && content == old(content) && isFeatured == old(isFeatured)
    {
      imageUrl := "";
    }

    /** The live preview: the content's lines, rendered by the article page's
        rules. */
    function Preview(): (blocks: seq<Detail.Block>)
      reads this
      ensures |blocks| == Text.Count(content, '\n') + 1 == |Text.Split(content, '\n')|
      ensures forall i :: 0 <= i < |blocks| ==>
        blocks[i] == Detail.ClassifyLine(Text.Split(content, '\n')[i])
    {
      Detail.BodyCount(content);
      Detail.Body(content)
    }
  }

  /** The saved excerpt is at most 153 characters, ends in "..." and holds no
      markup character. */
  lemma SavedExcerpt(form: Form, seed: string, today: string)
    requires form.HandleSave(seed, today).Some?
    ensures var e := form.HandleSave(seed, today).value.excerpt;
      |e| <= 153 && Text.EndsWith(e, "...") && Text.NoMarkup(e)
  {
    var e := form.HandleSave(seed, today).value.excerpt;
    Text.ExcerptShape(form.content);
    assert e == e[..|e| - 3] + "...";
    forall i | 0 <= i < |e| ensures !Text.IsMarkup(e[i]) {
      if i < |e| - 3 {
        assert e[i] == e[..|e| - 3][i];
      }
    }
  }
}
