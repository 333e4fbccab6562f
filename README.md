# binsSpace blog core, modelled in Dafny

binsSpace is a set of prototype blog front-ends. This project models their
logic, which is deterministic list, map and string manipulation, and proves
what each piece promises.

- **The SQLite post store** (`lib/db.ts`, module `Db`).
  - The `posts` table is a map from integer id to row, plus an
    AUTOINCREMENT counter.
  - The class `Db.Store` holds the open flag, the table and the snapshot
    kept in browser storage.
  - `initDB`, `seedData`, `persist`, `getAllPosts`, `savePost` and
    `deletePost` are methods and functions of that class.
  - The two codec loops that turn the exported database into a base64
    string and back are methods over arrays (module `Base64`).
  - `btoa`/`atob` are modelled as base64 per section 4 of RFC 4648, with
    the forgiving decoding of the WHATWG HTML standard.
- **The early single-page shell** (`App.tsx`, module `App`).
  - The seed list and the replace-or-prepend save and the filter delete
    on the post list.
  - The hash router, with its guard on `/post` and `/manage`, and its
    inverse `navigate`.
  - The page chosen for each route.
  - Post ids are strings in this shell.
- **The Markdown-driven site** (`index.tsx`, module `Site`; `lib/posts.ts`,
  module `MarkdownPosts`).
  - Each Markdown file becomes a post, with defaults for missing front
    matter.
  - Lookup by slug.
  - The slug router.
  - The featured/others feed split.
  - The article-body renderer.
- **The pages.**
  - The home feed (`pages/Home.tsx`, module `Home`).
  - The article page's line classifier (`pages/Detail.tsx`, module
    `Detail`).
  - The post editor's form, save action, file gate and live preview
    (`pages/Editor.tsx`, module `Editor`).

Shared vocabulary:
- `Types` holds the `Post` record, generic in its id type, and the `Page`
  enum.
- `Text` holds the JavaScript string operations the code relies on, written
  out on `seq<char>`:
  - `startsWith`;
  - `replace` with a string pattern, which removes the first occurrence
    only;
  - `split` on one character;
  - `trim`;
  - `substring(0, n)`;
  - the markup-stripping regular expression;
  - `toString` on naturals.
- `PostList` holds `findIndex`/`find`/`filter` by id.

## Model

| member | source | states |
|---|---|---|
| Types.PageName | types.ts:13-19 | every page name is non-empty and free of '/' |
| Types.PageNameInjective | types.ts:13-19 | two pages have the same name exactly when they are the same page |
| Text.RemoveFirst | pages/Detail.tsx:41 | `replace(pat, '')` never lengthens the string |
| Text.RemoveFirstPrefix | pages/Detail.tsx:40-41 | on a string that starts with the pattern, `replace` removes exactly that leading occurrence |
| Text.RemoveFirstAt | pages/Detail.tsx:41 | only the first occurrence is removed; the text before and after it is kept |
| Text.RemoveFirstAbsent | App.tsx:127 | without an occurrence, `replace` returns the string unchanged |
| Text.Split | pages/Detail.tsx:39 | `split` always yields at least one piece |
| Text.SplitCount | pages/Detail.tsx:39 | `split` yields one piece more than there are separators |
| Text.SplitPiecesFree | pages/Detail.tsx:39 | no piece of a split contains the separator |
| Text.SplitJoin | pages/Detail.tsx:39 | joining the pieces with the separator gives the string back |
| Text.JoinSplit | pages/Detail.tsx:39 | splitting a join of separator-free pieces gives the pieces back |
| Text.SplitAtSep | App.tsx:131 | splitting at one separator concatenates the splits of the two sides |
| Text.SplitWithoutSep | App.tsx:131 | a string without the separator is a single piece |
| Text.TrimStartBlank | pages/Detail.tsx:56 | trimming the start empties exactly the all-white-space strings, else stops at a non-space |
| Text.TrimEmptyIffBlank | pages/Detail.tsx:56 | `trim() === ''` holds exactly when every character is ECMAScript white space |
| Text.Take | pages/Editor.tsx:30 | `substring(0, n)` is the prefix of length n, or the whole string when it is shorter |
| Text.StripMarkupSound | pages/Editor.tsx:30 | stripping `/[#*`>]/g` leaves no markup character and removes exactly the markup characters |
| Text.StripMarkupIdentity | pages/Editor.tsx:30 | text without markup passes through the strip unchanged |
| Text.StripMarkupConcat | pages/Editor.tsx:30 | the strip works character by character, so kept characters stay in order |
| Text.ExcerptShape | pages/Editor.tsx:30 | the excerpt is at most 153 characters, ends in "...", and before that is the first 150 characters with markup removed |
| Text.ExcerptOfPlainText | pages/Editor.tsx:30 | a short markup-free text is kept whole, followed by "..." |
| Text.Decimal | lib/posts.ts:76 | `toString` of a natural is a non-empty string of decimal digits |
| Text.DecimalRoundTrip | lib/posts.ts:76 | reading the digits of `n.toString()` gives n back |
| Text.DecimalInjective | lib/posts.ts:76 | distinct numbers print differently |
| PostList.FindIndex | App.tsx:168 | `findIndex` gives the first index holding the id, or -1 exactly when no post has it |
| PostList.FindById | App.tsx:193 | `find` gives the first post with that id, or nothing exactly when no post has it |
| PostList.WithoutId | App.tsx:181 | the filter keeps every post with another id and only those, dropping exactly the posts with the id |
| PostList.WithoutIdConcat | App.tsx:181 | the filter distributes over concatenation, so the kept posts keep their order |
| PostList.WithoutIdCons | App.tsx:181 | one step of the filter: a head with the id is dropped, any other head kept |
| PostList.WithoutAbsentId | App.tsx:181 | filtering out an id nobody has changes nothing |
| PostList.DistinctCountOne | pages/Home.tsx:12 | with distinct ids, a present id is carried by exactly one post |
| PostList.CountAbsent | App.tsx:181 | an absent id is carried by no post |
| PostList.WithoutIdKeepsDistinct | App.tsx:181 | filtering keeps ids distinct |
| PostList.DistinctTail | App.tsx:181 | the tail of a list with distinct ids has distinct ids, none equal to the head's |
| PostList.DistinctCons | App.tsx:174 | a post in front of distinct-id posts with other ids keeps the ids distinct |
| Base64.ValueOfCharOf | lib/db.ts:15 | every sextet's alphabet character is in the alphabet and decodes back to the sextet |
| Base64.Chars | lib/db.ts:15 | the characters of sextets are alphabet characters, one per sextet |
| Base64.Values | lib/db.ts:20 | one sextet per character |
| Base64.ValuesChars | lib/db.ts:15 | reading the characters of sextets back gives the sextets |
| Base64.SextetsLength | lib/db.ts:15 | four sextets per full group of three bytes, two or three for a final partial group |
| Base64.SextetsRemainder | lib/db.ts:15 | the sextets past the last full group of four match the byte count modulo 3 |
| Base64.PaddingFills | lib/db.ts:15 | the "=" padding fills the last group to four characters |
| Base64.Encode | lib/db.ts:15 | the base64 text's length is a multiple of four |
| Base64.RemoveAsciiWhitespace | lib/db.ts:20 | removing white space never lengthens the text |
| Base64.Latin1 | lib/db.ts:12-14 | the binary string has one character per byte, whose code is the byte and below 256 |
| Base64.Codes | lib/db.ts:22-24 | `charCodeAt` of each character of a binary string gives the bytes, one per character |
| Base64.Atob | lib/db.ts:20 | whatever `atob` returns is a binary string |
| Base64.GroupArithmetic | lib/db.ts:15 | the four sextets of three bytes recombine into those bytes |
| Base64.OneByte | lib/db.ts:15 | a final group of one byte survives encoding and decoding |
| Base64.TwoBytes | lib/db.ts:15 | a final group of two bytes survives encoding and decoding |
| Base64.BytesGroup | lib/db.ts:15 | a full group of three bytes decodes to those bytes, followed by the rest |
| Base64.BytesSextets | lib/db.ts:15 | recombining the sextets of any bytes gives the bytes back |
| Base64.DecodeEncodeCore | lib/db.ts:15 | decoding the unpadded alphabet text gives the bytes back |
| Base64.NoWhitespaceInEncoding | lib/db.ts:20 | base64 text has no white space for the decoder to remove |
| Base64.CleanPadded | lib/db.ts:20 | the decoder's clean-up of encoded text yields exactly its alphabet part |
| Base64.CleanWith | lib/db.ts:20 | the clean-up of alphabet text with "", "=" or "==" yields the alphabet text |
| Base64.PaddedHasNoWhitespace | lib/db.ts:20 | alphabet text with padding has no white space |
| Base64.PaddedNone | lib/db.ts:20 | text without padding is kept whole |
| Base64.PaddedTwice | lib/db.ts:20 | "==" after a group of two sextets is dropped |
| Base64.PaddedOnce | lib/db.ts:20 | "=" after a group of three sextets is dropped, and only it |
| Base64.DecodeEncode | lib/db.ts:15-20 | decoding the base64 of any bytes succeeds and gives the bytes back |
| Base64.AtobBtoa | lib/db.ts:15-20 | `btoa` accepts the binary string of any bytes, and `atob` of that base64 gives the binary string back |
| Base64.Uint8ArrayToBase64 | lib/db.ts:10-16 | the loop builds the binary string of the array, so the result is the base64 of its bytes |
| Base64.Base64ToUint8Array | lib/db.ts:19-26 | fails exactly when the text is not valid base64, and otherwise fills the array with the decoded bytes |
| Base64.RoundTrip | lib/db.ts:10-26 | encoding any byte array and decoding the text gives the same bytes |
| Db.ToRow | lib/db.ts:108 | the stored flag is 1 exactly when the post is featured, and 0 otherwise |
| Db.ToPost | lib/db.ts:94-99 | the post read from a row has the row's id and is featured exactly when the stored flag is 1 |
| Db.ToPostToRow | lib/db.ts:94-116 | writing a post and reading it back under its id gives the post |
| Db.ToRowToPost | lib/db.ts:94-116 | a row whose flag is 0 or 1 survives being read and written back |
| Db.ScanSound | lib/db.ts:90 | the listing holds each row in range exactly once, as its post, in strictly decreasing id order |
| Db.ScanAgree | lib/db.ts:90 | the listing depends only on the rows in its range |
| Db.InsertFirst | lib/db.ts:112-121 | an inserted post comes first in the listing, ahead of the old posts, which keep their order |
| Db.InsertFresh | lib/db.ts:45 | the id an INSERT hands out is above every id in the table |
| Db.ScanUpdate | lib/db.ts:104-111 | an UPDATE replaces the post with that id in place; every other post and the order stay |
| Db.UpdateInPlace | lib/db.ts:104-111 | saving an existing id replaces that post in place; for an id no row has, the listing is unchanged |
| Db.ScanDelete | lib/db.ts:126 | deleting an id is filtering it out of the listing |
| Db.ScanRemovedStep | lib/db.ts:126 | one step of the listing of the table without the deleted id |
| Db.DeleteRemoves | lib/db.ts:124-134 | after DELETE no post has that id and the others stay in order |
| Db.InsertAllSnoc | lib/db.ts:79-84 | inserting a list of rows, then one more, is inserting the longer list |
| Db.SeededListing | lib/db.ts:65-86 | a fresh database lists exactly the one featured welcome post, with id 1 |
| Db.Store.constructor | lib/db.ts:6-7 | a page load starts with no database open and whatever an earlier page persisted |
| Db.Store.InitDB | lib/db.ts:28-57 | changes nothing when already open; otherwise loads the persisted image, or creates the table, seeds it and persists it |
| Db.Store.Persist | lib/db.ts:59-63 | the stored snapshot becomes the current table |
| Db.Store.InsertRow | lib/db.ts:114-118 | one INSERT under the next AUTOINCREMENT id, whose id it returns |
| Db.Store.SeedData | lib/db.ts:65-86 | the seed rows are inserted in order, then the table is persisted |
| Db.Store.GetAllPosts | lib/db.ts:88-101 | every row exactly once, as its post, newest id first, with the flag read as a boolean |
| Db.Store.SavePost | lib/db.ts:103-122 | a non-zero id updates that row, or nothing if it is missing, and returns that id; id 0 inserts under a fresh id and returns it; the table is persisted either way |
| Db.Store.DeletePost | lib/db.ts:124-134 | removes the row with that id, if any, and persists |
| Db.SaveNewShowsFirst | lib/db.ts:112-121 | a new post comes first in the listing, under an id above every listed post's |
| Db.Reload | lib/db.ts:28-39 | after any write, a new page load sees the same posts |
| App.InitialPostsShape | App.tsx:13-104 | the nine seed posts have distinct ids and only the first is featured |
| App.SaveInList | App.tsx:166-175 | a post with a known id replaces the first post with that id, every other position unchanged; a post with a new id is put in front of the unchanged list; either way the id then finds the saved post |
| App.FindIndexOfUpdate | App.tsx:168-172 | after replacing the first post with an id, that id is still found at the same index |
| App.SaveKeepsOthers | App.tsx:166-175 | saving leaves every other id's post as it was |
| App.FindIndexIs | App.tsx:168 | the first index holding an id is where `findIndex` stops |
| App.SaveKeepsDistinct | App.tsx:166-175 | saving keeps ids distinct |
| App.DeleteFromList | App.tsx:179-183 | after the filter no post has the id, ids stay distinct, and exactly one post goes when the id was present |
| App.SplitPath | App.tsx:131 | a hash "/section/rest" splits into "", the section and the pieces of the rest |
| App.SplitSingle | App.tsx:131 | a hash "/name" splits into "" and the name |
| App.ArticleSplit | App.tsx:138-139 | an article hash splits into "", "article" and the pieces of what follows |
| App.Route | App.tsx:126-151 | a redirect goes only to "/login", and only for an unauthorised visitor |
| App.HashOfPath | App.tsx:127 | removing the '#' from an assigned hash gives the assigned path |
| App.RouteArticle | App.tsx:138-141 | an article hash opens the segment after "/article/", authorised or not |
| App.ArticleRoundTrip | App.tsx:138-141 | navigating to an article whose id is non-empty and has no '/' routes back to that article |
| App.RoutePlain | App.tsx:126-151 | a one-segment path is routed by the guard and the exact matches alone |
| App.NavigateRoundTrip | App.tsx:126-164 | navigating to a page routes back to it; the guarded pages redirect an unauthorised visitor to "/login"; "/detail" falls back to the home page |
| App.Unprotected | App.tsx:130 | a path whose second character is neither 'p' nor 'm' is not guarded |
| App.RedirectSettles | App.tsx:133-143 | the redirect target opens the login page, so the redirect settles |
| App.GuardCoversSubpaths | App.tsx:130-150 | every path under "/post/" or "/manage/" is guarded; an authorised visitor there gets the home page |
| App.SubpathFacts | App.tsx:130-150 | a path under a guarded section is guarded, is not an article, and matches no exact route |
| App.Shell.constructor | App.tsx:106-111 | the first render uses the saved list if there is one, else the seed posts, and starts on the home page |
| App.Shell.HandleHashChange | App.tsx:126-151 | a redirect only rewrites the hash; any other route sets the page and, for an article, the selected id |
| App.Shell.Navigate | App.tsx:158-164 | the hash becomes the navigation path and nothing else changes |
| App.Shell.HandleSavePost | App.tsx:166-177 | the list becomes the replace-or-prepend of the post, storage mirrors it, and the hash moves to "/manage" |
| App.Shell.HandleDeletePost | App.tsx:179-183 | a confirmed delete filters out the id and storage mirrors it; an unconfirmed one changes nothing |
| App.Shell.EditPost | App.tsx:204 | the edit button selects the post and moves the hash to "/post" |
| App.Shell.NewPostClicked | App.tsx:204 | the new-post button clears the selection and moves the hash to "/post" |
| App.Shell.Render | App.tsx:191-207 | home and manage show the list; detail shows the first post with the selected id, or the not-found view when none has it; login shows the login view; the editor is primed with the first post with a non-empty selected id, else empty |
| Site.InitialPage | index.tsx:12-16 | the first page is the article page exactly when the hash starts with "#/article/" |
| Site.InitialSlug | index.tsx:18-21 | the slug is present exactly when the hash starts with "#/article/", and then it is the rest of the hash |
| Site.NavigationRoundTrip | index.tsx:25-41 | `goDetail(slug)` followed by reading the hash selects that slug; `goHome` selects the home page and no slug |
| Site.Others | index.tsx:93-94 | with no featured post, every post; otherwise the slug filter of the list by the featured post's slug, which keeps exactly the posts with another slug |
| Site.WithoutSlug | index.tsx:94 | the filter keeps exactly the posts with another slug |
| Site.WithoutSlugConcat | index.tsx:94 | the filter works post by post, so the kept posts stay in their original order |
| Site.WithoutSlugSingle | index.tsx:94 | a single post is kept exactly when its slug differs |
| Site.SharedSlugHidden | index.tsx:94 | a post sharing the featured post's slug is hidden along with it |
| Site.ArticleLine | index.tsx:166-171 | the article page never renders a spacer |
| Site.ArticleLineAgrees | index.tsx:166-171 | this renderer agrees with the article page's except on blank lines, which it keeps as paragraphs |
| Site.ArticleBody | index.tsx:166 | one block per line of the content, in order |
| Site.Shell.constructor | index.tsx:10-21 | the posts are loaded from the Markdown files; the page and slug are read from the hash |
| Site.Shell.HandleHashChange | index.tsx:25-34 | a hash change gives the same page and slug as the computation at load time |
| Site.Shell.GoHome | index.tsx:40 | the hash becomes "#/" |
| Site.Shell.GoDetail | index.tsx:41 | the hash becomes the article path of the slug |
| Site.Shell.Render | index.tsx:64-71 | the article page renders only for a non-empty slug that some post has, showing the first post with that slug, as `getPostBySlug` finds it; otherwise it renders nothing |
| Home.FirstOr | pages/Home.tsx:11 | the first accepted element, else the first element, else nothing for an empty list |
| Home.FirstIndex | pages/Home.tsx:11 | the first index whose element is accepted, or the length if none is |
| Home.Render | pages/Home.tsx:11-70 | an empty list renders only the empty state; otherwise the featured slot holds the featured post, its cover shows exactly when it has an image, and there is one card per other post, in order, showing its image or the default card image |
| Home.FeedSplit | pages/Home.tsx:11-12 | the featured slot holds a featured post if any, else the first post; with distinct ids the other posts are exactly everything else, one fewer |
| Detail.ClassifyLine | pages/Detail.tsx:39-57 | each prefix gives its block with the prefix removed, exactly when the line starts with it; blank lines give a spacer; anything else is a verbatim paragraph |
| Detail.ClassifyKeepsText | pages/Detail.tsx:39-57 | rendering a line loses nothing but the white space of blank lines |
| Detail.Body | pages/Detail.tsx:39 | one block per line of the content, in order |
| Detail.BodyCount | pages/Detail.tsx:39 | there is one block more than there are newlines |
| Detail.BodyConcat | pages/Detail.tsx:39 | the blocks of two pieces joined by a newline are the blocks of each piece |
| Detail.Render | pages/Detail.tsx:31-57 | the cover shows exactly when the post has an image |
| MarkdownPosts.TextOr | lib/posts.ts:77-85 | a non-empty front-matter text is kept, anything else gives the fallback |
| MarkdownPosts.Assemble | lib/posts.ts:66-86 | the k-th file's post has id k+1 in decimal and the body as content; slug, title, author, cover and category are the front-matter text or the file name, "Untitled", "Binbin", the picsum URL of the file name and "General"; the excerpt is the description, else the excerpt, else the body's excerpt; a text date is formatted, a missing or falsy one is the unknown date; the featured flag is the truthiness of the front matter |
| MarkdownPosts.CollectSound | lib/posts.ts:66-91 | each collected post is the post of the file its id names, taken in file order |
| MarkdownPosts.AssembleOrigin | lib/posts.ts:76 | the file a post came from can be read off its id |
| MarkdownPosts.CollectComplete | lib/posts.ts:66-91 | every usable file gives its post |
| MarkdownPosts.GetAllPosts | lib/posts.ts:65-95 | at most one post per file, one for every usable file, each numbered by its file's position, so no two share an id |
| MarkdownPosts.GetPostBySlug | lib/posts.ts:97-99 | the first post with that slug, or nothing exactly when no post has it |
| MarkdownPosts.Fallbacks | lib/posts.ts:77-85 | a field whose front-matter value is missing or empty gets its default: the file name, "Untitled", the body excerpt, "Binbin", the unknown date, the picsum URL, "General"; a missing flag leaves the post unfeatured |
| MarkdownPosts.FileNameOf | lib/posts.ts:73 | the file name drops the directories and the first ".md" |
| Editor.Form.constructor | pages/Editor.tsx:11-14 | each field starts from the post being edited, or empty |
| Editor.Form.HandleSave | pages/Editor.tsx:18-35 | nothing is saved exactly when the title is blank; otherwise the post keeps the edited id or 0, takes the title, content and flag verbatim, the image or a placeholder, the excerpt rule, "Admin", and the original date or today |
| Editor.Form.ProcessFile | pages/Editor.tsx:37-48 | an image file's data becomes the cover; any other file is refused and nothing changes |
| Editor.Form.RemoveImage | pages/Editor.tsx:75-78 | the cover is cleared and nothing else changes |
| Editor.Form.Preview | pages/Editor.tsx:200-207 | one block per content line, classified by the article page's rules; one more than there are newlines |
| Editor.SavedExcerpt | pages/Editor.tsx:30 | the saved excerpt is at most 153 characters, ends in "..." and holds no markup character |

## Left out

- The sql.js engine, its loading from a CDN, and the SQL text. The table is
  a map from id to row plus the AUTOINCREMENT counter.
- `console.log`, `console.error` and `alert`. They only report.
- The SQLite file format. The stored snapshot is an abstract image of the
  table. The byte codec that carries the file through storage is modelled
  and proved lossless on its own (`Base64.RoundTrip`).
- `localStorage` and `sessionStorage` I/O, and `JSON.parse`/`JSON.stringify`.
  - The stored database is the `snapshot` field.
  - The stored post list is the `stored` field.
  - The saved list read at start-up is a parameter.
- Authorisation (`lib/auth.ts`, `middleware.ts`) is a boolean parameter of
  the router.
- The login and logout handlers, and the Login and Manage pages. So are the
  Header, Footer and ConfirmModal components. These are UI; the confirm
  answer is a boolean parameter.
- JSX, Tailwind classes and React's rendering cycle. Views are datatypes
  holding what the page shows.
- App.Shell.HandleHashChange: the source's `handleHashChange` is also
  called on mount, and the browser fires it again after a redirect. The
  model takes one routing step per call and leaves that event loop out.
- App.Shell.constructor: `localStorage` holding an empty string counts as
  nothing saved. The model's `None` stands for both cases.
- Percent-encoding of `location.hash`. A hash is read back exactly as it
  was assigned.
- `toLocaleDateString` is a parameter: `today` in the editor, and
  `formatDate` for the Markdown loader.
- Editor.Form.HandleSave: `Math.random` in the placeholder URL is the
  `seed` parameter.
- FileReader and drag-and-drop. `ProcessFile` takes the file's type and
  its data URL.
- gray-matter, `import.meta.glob` and the Buffer polyfill (lib/posts.ts:1-63).
  - Each file arrives with its parse outcome, and a failed parse is `None`.
  - The loader reads front-matter values only as text, a boolean or absent.
  - The built-in fallback file map is not part of this model.
- MarkdownPosts.Assemble: a date value that is truthy but not text, such as
  a YAML date or `true`, gets the unknown-date text here. The source would
  format it.
- MarkdownPosts.GetAllPosts: returns the posts in file order. The final
  sort by `new Date(date)` (lib/posts.ts:94) parses locale-formatted dates
  and is left out.
- Strings are sequences of Unicode scalar values, not UTF-16 code units.
  `substring(0, 150)` and `trim` are modelled per character.
- Post ids.
  - `types.ts` declares `id: number`, but App.tsx uses the string ids "1"
    to "9".
  - `Post` is therefore generic in its id.
  - The App shell uses strings, and the store and the editor use
    integers.
  - The editor's new-post id 0 and App.tsx's string ids are never
    reconciled in one program, so neither is the model.
- An absent `id` or `imageUrl`.
  - An absent or null `imageUrl` is the empty string; both are falsy
    everywhere they are read.
  - A `Post<int>` always has an id, so `savePost`'s "id missing" case is
    the id 0.
- Db.Store.GetAllPosts, Db.Store.SavePost, Db.Store.DeletePost: they require
  an open database. Called before `initDB`, the source throws a TypeError
  on the null handle (lib/db.ts:89, 104, 125); that error is not modelled.
- Db.Store.InitDB: never fails here. In the source it rejects when the
  stored text is not valid base64 or not an SQLite file (lib/db.ts:37-39).
  The model's snapshot is an already-decoded image. The base64 half of that
  failure is modelled by `Base64.Base64ToUint8Array`.
- MarkdownPosts.TextOr: a front-matter value that is truthy but not text,
  such as `true` for `title`, is kept by `data.key || fallback` in the
  source, giving a non-string field. The model gives the fallback.
- Partial posts. `savePost` accepts a `Partial<Post>` whose missing columns
  would be bound as NULL (and a missing title would break `NOT NULL`); the
  model's posts always have every field.
- 64-bit integer limits of SQLite ids. Ids are unbounded integers.

