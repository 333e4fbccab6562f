/** Shared vocabulary of the blog front-ends: the post record, the page enum
    and an optional value for JavaScript's `undefined`/`null`. */
module Types {

  datatype Option<+T> = None | Some(value: T)

  /** A value, or the exception that would have been thrown instead. */
  datatype Result<+T, +E> = Ok(value: T) | Err(error: E)

  /** A blog post. The id type is a parameter because the iterations differ:
      the SQLite store and the editor use numbers (0 meaning "not yet saved"),
      the in-memory list of the early iteration uses strings. An absent or
      null `imageUrl` is represented by the empty string: both are falsy and
      every reader treats them alike. */
  datatype Post<Id> = Post(
    id: Id,
    title: string,
    excerpt: string,
    content: string,
    author: string,
    date: string,
    imageUrl: string,
    isFeatured: bool)

  /** The pages of the hash router. */
  datatype Page = Home | Detail | Login | NewPost | Manage

  /** The string value of each enum member. */
  function PageName(p: Page): (name: string)
    ensures |name| > 0 && '/' !in name
  {
    match p
    case Home => "home"
    case Detail => "detail"
    case Login => "login"
    case NewPost => "post"
    case Manage => "manage"
  }

  lemma PageNameInjective(p: Page, q: Page)
    ensures PageName(p) == PageName(q) <==> p == q
  {
  }
}
