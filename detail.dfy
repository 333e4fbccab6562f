/** The article page of pages/Detail.tsx: a header with the title, author,
    date and (when there is one) the cover image, then the content rendered
    line by line with a small Markdown subset. The editor's live preview
    (pages/Editor.tsx) renders with the same rules in the same order. */
module Detail {
  import opened Types
  import Text

  /** What one content line becomes. */
  datatype Block =
    | Heading2(text: string)
    | Heading3(text: string)
    | Quote(text: string)
    | Item(text: string)
    | Spacer
    | Para(text: string)

  /** The prefixes are tried in this order; the first match wins and its
      first occurrence, which is the leading one, is removed. */
  function ClassifyLine(line: string): (b: Block)
    ensures b.Heading2? <==> Text.StartsWith(line, "## ")
    ensures b.Heading2? ==> line == "## " + b.text
    ensures b.Heading3? <==> Text.StartsWith(line, "### ")
    ensures b.Heading3? ==> line == "### " + b.text
    ensures b.Quote? <==> Text.StartsWith(line, "> ")
    ensures b.Quote? ==> line == "> " + b.text
    ensures b.Item? <==> Text.StartsWith(line, "* ")
    ensures b.Item? ==> line == "* " + b.text
    ensures b.Spacer? <==> !HasPrefix(line) && Text.IsBlank(line)
    ensures b.Para? ==> b.text == line && !HasPrefix(line)
  {
    Text.TrimEmptyIffBlank(line);
    if Text.StartsWith(line, "## ") then
      assert line[2] == "## "[2] != "### "[2];
      Text.RemoveFirstPrefix(line, "## ");
      Heading2(Text.RemoveFirst(line, "## "))
    else if Text.StartsWith(line, "### ") then
      Text.RemoveFirstPrefix(line, "### ");
      Heading3(Text.RemoveFirst(line, "### "))
    else if Text.StartsWith(line, "> ") then
      Text.RemoveFirstPrefix(line, "> ");
      Quote(Text.RemoveFirst(line, "> "))
    else if Text.StartsWith(line, "* ") then
      Text.RemoveFirstPrefix(line, "* ");
      Item(Text.RemoveFirst(line, "* "))
    else if Text.Trim(line) == "" then Spacer
    else Para(line)
  }

  /** The line starts with one of the four block prefixes. */
  predicate HasPrefix(line: string) {
    Text.StartsWith(line, "## ") || Text.StartsWith(line, "### ")
    || Text.StartsWith(line, "> ") || Text.StartsWith(line, "* ")
  }

  /** The source line a block was made from; a spacer stands for any blank
      line, so it gives back the empty one. */
  function Source(b: Block): string {
    match b
    case Heading2(t) => "## " + t
    case Heading3(t) => "### " + t
    case Quote(t) => "> " + t
    case Item(t) => "* " + t
    case Spacer => ""
    case Para(t) => t
  }

  /** Rendering loses nothing but the white space of blank lines. */
  lemma ClassifyKeepsText(line: string)
    ensures !ClassifyLine(line).Spacer? ==> Source(ClassifyLine(line)) == line
    ensures ClassifyLine(line).Spacer? ==> Text.IsBlank(line)
  {
  }

  /** Blocks are made from the content split at each newline, one per line. */
  function Body(content: string): (blocks: seq<Block>)
    ensures |blocks| == |Text.Split(content, '\n')|
    ensures forall i :: 0 <= i < |blocks| ==> blocks[i] == ClassifyLine(Text.Split(content, '\n')[i])
  {
    var lines := Text.Split(content, '\n');
    seq(|lines|, i requires 0 <= i < |lines| => ClassifyLine(lines[i]))
  }

  /** One block more than there are newlines. */
  lemma BodyCount(content: string)
    ensures |Body(content)| == Text.Count(content, '\n') + 1
  {
    Text.SplitCount(content, '\n');
  }

  /** The blocks of two pieces joined by a newline are the blocks of each
      piece, in order. */
  lemma BodyConcat(a: string, b: string)
    ensures Body(a + "\n" + b) == Body(a) + Body(b)
  {
    var s := a + "\n" + b;
    assert s == a + ['\n'] + b;
    Text.SplitAtSep(a, b, '\n');
    var la, lb := Text.Split(a, '\n'), Text.Split(b, '\n');
    assert Text.Split(s, '\n') == la + lb;
    var left, right := Body(a), Body(b);
    forall i | 0 <= i < |Body(s)| ensures Body(s)[i] == (left + right)[i] {
      if i < |la| {
        assert (la + lb)[i] == la[i];
      } else {
        assert (la + lb)[i] == lb[i - |la|];
      }
    }
  }

  /** The parts of the page that depend on the post. */
  datatype ArticleView = ArticleView(
    title: string,
    author: string,
    date: string,
    cover: Option<string>,
    body: seq<Block>)

  function Render<Id>(post: Post<Id>): (page: ArticleView)
    ensures page.cover.Some? <==> post.imageUrl != ""
    ensures page.cover.Some? ==> page.cover.value == post.imageUrl
    ensures page.body == Body(post.content)
    ensures page.title == post.title && page.author == post.author && page.date == post.date
  {
    ArticleView(post.title, post.author, post.date,
         if post.imageUrl != "" then Some(post.imageUrl) else None,
         Body(post.content))
  }
}
