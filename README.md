# Blog platform: comments, trending slots, posts and the admin screens

This project is a Dafny model of the logic behind an Express/MongoDB blog server and its React admin panel, with proofs about that model.

The server side covers three things:

- **Comment moderation** (`commentController.js`, `Comment.js`):
  - input sanitising and address normalisation;
  - a spam heuristic of keywords, link density, share of capitals and repeated characters;
  - a per-address limit of three comments in five minutes;
  - the public listing (paged and sorted) and the admin listing;
  - status changes, likes, replies, deletion together with the direct replies, and the counters.
- **Trending slots** (`trendingController.js`, `TrendingPost.js`): ten numbered slots under a unique `(position, isActive)` index, with create, update, delete and the two listings.
- **Blog posts** (`blogController.js`, `Blog.js`):
  - the schema validators: length limits, the category enum and the image URL pattern;
  - the pre-save hook, which picks the first free slug and computes the word-based read time;
  - create, read (the view counter), update and delete;
  - the most viewed list.

The client side covers the helper services:

- `apiService.js`: categories, a tag-stripping excerpt and the read time.
- `blogService.js`: the simulated records, a trimming excerpt and the character-based read time.

It also covers two admin screens:

- **Blog manager**:
  - the comma-separated tag field and its round trip;
  - the author label;
  - the search and filter predicate;
  - the publish toggle;
  - the local list rebuilds.
- **Comment manager**:
  - the five-button pager;
  - the fallback status and search filter;
  - the counters;
  - the local list rebuilds.

## How the model is built

Each MongoDB collection is a class holding a `seq` of records (`CommentStore`, `TrendingTable`, `BlogStore`). Each request handler is a method of that class:

- the method returns an `Http.Outcome`: `Ok`, or 400, 404, 429 or 500;
- its `ensures` states the new collection in terms of the old one;
- a ghost `Valid()` invariant captures what the database and the schema guarantee for every stored document. For `BlogStore` that is unique ids and slugs, passing field validators and the stored read times. For `TrendingTable` it is unique ids, passing field validators and the unique `(position, isActive)` index. For `CommentStore` it is only unique ids and no comment being its own parent; the comment schema is checked on each new document (`SchemaValid` in `Create` and `Reply`), not kept as part of the invariant.

Several things the model cannot compute are passed in as parameters:

- the new document's id and the clock (`now`);
- the signed-in user;
- `validator.escape`, `validator.isEmail`, the schema's e-mail regular expression and `slugify`.

A Mongoose validation failure at `save()` becomes `ServerError` with the collection unchanged, which matches the handlers' catch blocks. In request bodies, `""` stands for a missing or falsy field where the source only tests truthiness. `Option` is used where `undefined` and `""` behave differently. Examples of the latter are the update of a post and the update of a trending slot.

The pure parts (filters, pagination, the validators, the client helpers and screens) are functions. Each has lemmas that tie it to a declarative reading: a regular expression as the set of split points it can match, `split`/`join` as inverses, a filter as an if-and-only-if on membership. The slug loop of the pre-save hook is a `while` loop (`BlogModel.UniqueSlug`), proved to return the first free candidate.

## Notes on the code

- **The fourth comment is the first refused.** The per-e-mail limit counts the earlier comments with the same e-mail address from the last five minutes and refuses when there are at least three (`commentController.js:82-92`, the test `>= 3` at line 87). So the first three submissions in the window are accepted and the fourth is refused: see `CommentController.FourthSubmissionRefused`.
- **A malformed website is a server error.** The comment handler does not check the website itself. Only the schema validator checks it at `save()` (`Comment.js:26-32`), and the handler's catch block answers 500. So a malformed website gives 500, not 400.

## Model

| member | source | states |
|---|---|---|
| SpamFilter.LinkCountIsLinkStarts | server/src/controllers/commentController.js:19 | the left-to-right count of `https?://` matches equals the number of positions where a scheme starts, since matches cannot overlap |
| SpamFilter.RepeatedCharsCorrect | server/src/controllers/commentController.js:23 | the one-pass scan for `(.)\1{4,}` is true exactly when some window of five equal non-line-terminator characters exists |
| SpamFilter.IsSpamCharacterization | server/src/controllers/commentController.js:11-26 | a comment is spam iff the lowered content holds a keyword, more than three links start in it, capitals exceed half its length, or five equal characters occur in a row |
| SpamFilter.SkipInsideMatch | server/src/controllers/commentController.js:19 | no scheme match can start inside another, as only the first character of a scheme is `h` |
| CommentModel.ParseStatus | server/src/models/Comment.js:40-44 | only `pending`, `approved` and `rejected` are accepted, each naming its own status |
| CommentModel.StatusRoundTrip | server/src/models/Comment.js:40-44 | parsing a status name gives the status back |
| CommentModel.NewComment | server/src/models/Comment.js:40-69 | a new comment defaults to approved, not spam, no likes, no replies and no parent |
| CommentModel.DomainScanCorrect | server/src/models/Comment.js:29 | the backtracking scan for `[a-zA-Z0-9.-]+\.[a-zA-Z]{2,}` succeeds from a host prefix iff a later split point matches the pattern |
| CommentModel.DomainLikeCorrect | server/src/models/Comment.js:29 | the domain alternative of the website validator matches iff some split point matches |
| CommentModel.WebsiteValidCharacterization | server/src/models/Comment.js:26-32 | a website is valid iff it is empty, starts with a scheme or `www.` and one more character, or has a matching domain prefix |
| CommentController.RecentCountAppend | server/src/controllers/commentController.js:82-85 | storing a comment adds one to an address's recent count exactly when it has that address and falls in the five-minute window |
| CommentController.FourthSubmissionRefused | server/src/controllers/commentController.js:82-92 | three comments from one address at the same moment all pass the limit, and after them the count refuses a fourth |
| CommentController.LookupIff | server/src/controllers/commentController.js:355 | the lookup by id finds a comment exactly when the id is stored |
| CommentController.BuildCommentFacts | server/src/controllers/commentController.js:69-101 | a built comment is pending iff it is spam and approved iff not, with its spam flag from the classifier, its e-mail normalised, trimmed fields, no likes or replies, and the given parent, id, blog and time |
| CommentController.PageSlice | server/src/controllers/commentController.js:170-180 | a page holds `limit` items, or what remains after the skip when fewer do, item `k` being the input's item at `(page - 1) * limit + k` |
| CommentController.Paginate | server/src/controllers/commentController.js:192-203 | `totalPages` is the ceiling of total over limit; `hasNext` iff the page is below it; `hasPrev` iff the page is above 1 |
| CommentController.PageNonEmptyIff | server/src/controllers/commentController.js:170-192 | a page is non-empty iff its number is at most `totalPages` |
| CommentController.ItemOnItsPage | server/src/controllers/commentController.js:170-192 | item `i` appears on page `i / limit + 1` at offset `i % limit`, and that page exists |
| CommentController.PageSliceSorted | server/src/controllers/commentController.js:178-180 | a page of a sorted result is sorted |
| CommentController.SelectPage | server/src/controllers/commentController.js:173-183 | a page holds the sorted matches that follow the first `(page - 1) * limit` of them: `limit` of them, fewer on the last page, none past it; each is stored and passes the filter |
| CommentController.SelectPageComplete | server/src/controllers/commentController.js:170-192 | every match is shown: the one of rank `i` in the requested order is on page `i / limit + 1` at offset `i % limit` |
| CommentController.SliceMember | server/src/controllers/commentController.js:179-180 | every item of a page comes from the paged sequence |
| CommentController.PageMember | server/src/controllers/commentController.js:173-180 | every item of a page of the sorted filter result is stored and passes the filter |
| CommentController.SelectPageSorted | server/src/controllers/commentController.js:178 | under a total preorder the selected page is in sort order |
| CommentController.SortedMember | server/src/controllers/commentController.js:178 | sorting adds no item |
| CommentController.FilterMember | server/src/controllers/commentController.js:173-177 | every filtered item is stored and passes the filter |
| CommentController.SortOrderIsPreorder | server/src/controllers/commentController.js:155-165 | each of the `oldest`, `likes` and `newest` orders is a total preorder |
| CommentController.Views | server/src/controllers/commentController.js:182 | the public projection keeps every comment, in order, without its e-mail |
| CommentController.ViewsKeepOrder | server/src/controllers/commentController.js:178-182 | projecting a sorted listing keeps it in sort order |
| CommentController.StatusPartition | server/src/models/Comment.js:40-44 | the approved, pending and rejected counts add up to the number of comments |
| CommentController.AppendWellFormed | server/src/controllers/commentController.js:95-103 | adding a comment with a fresh id that is not its own parent keeps ids unique |
| CommentController.UpdateWellFormed | server/src/controllers/commentController.js:286-290 | rewriting a comment with the same id and parent keeps the collection well formed |
| CommentController.ReplyWellFormed | server/src/controllers/commentController.js:426-438 | appending a reply and recording it in its parent keeps the collection well formed |
| CommentController.DeleteCount | server/src/controllers/commentController.js:321-331 | deleting a comment and its direct replies removes exactly one plus the number of its replies |
| CommentController.CommentStore.constructor | server/src/models/Comment.js:3-72 | an empty collection is valid |
| CommentController.CommentStore.Create | server/src/controllers/commentController.js:40-127 | 400 for a missing field or a bad e-mail, 404 for an unknown blog, 429 when three recent comments exist; it succeeds iff none of these applies and the id is fresh and the built comment passes the schema; on success the built comment is appended; otherwise nothing changes |
| CommentController.CommentStore.ListByBlog | server/src/controllers/commentController.js:132-213 | 400 for a malformed id, 404 for an unknown blog, success exactly otherwise (for a page of at least 1); the page is the public view of the selected page of that blog's approved top-level comments in the requested order, with pagination over all of them |
| CommentController.CommentStore.ListAll | server/src/controllers/commentController.js:218-269 | the page is the selected page of the stored comments passing the status, blog and search filters, newest first, with pagination over all matches |
| CommentController.CommentStore.UpdateStatus | server/src/controllers/commentController.js:274-312 | 400 for a status outside the enum, 404 for an unknown id, success for a valid status and a stored id; on success only the comments with that id change, taking the new status |
| CommentController.CommentStore.Delete | server/src/controllers/commentController.js:317-345 | 404 iff the id is unknown; on success the comment and its direct replies are gone, nothing else is, and the size drops by one plus the number of direct replies |
| CommentController.CommentStore.ToggleLike | server/src/controllers/commentController.js:350-385 | 404 iff the id is unknown; `like` adds one, `unlike` subtracts one only above zero, anything else keeps the count; only that comment's likes change |
| CommentController.CommentStore.Reply | server/src/controllers/commentController.js:390-459 | 400 for a missing field, 404 for an unknown parent; otherwise it succeeds iff the new id is fresh and the built reply passes the schema, so no e-mail format check or address limit applies; on success the reply takes the parent's blog and links to it, is appended, and its id is added to the parent's replies |
| CommentController.CommentStore.Stats | server/src/controllers/commentController.js:464-479 | `total` is the number of comments, `approved` and `pending` the number with that status, `spam` the number flagged; the rejected ones make up the rest of the total |
| TrendingModel.NewPost | server/src/models/TrendingPost.js:5-34 | a new slot keeps the given id, position, reference, creator and time, is active by default, and has its title and author trimmed |
| TrendingModel.RangeSet | server/src/models/TrendingPost.js:15-20 | the set of positions from `lo` to `hi` has `hi - lo` members |
| TrendingModel.PositionsBounded | server/src/models/TrendingPost.js:15-20 | positions of documents within bounds stay within those bounds |
| TrendingModel.PositionAbsent | server/src/models/TrendingPost.js:40 | a position no document holds is not among the positions |
| TrendingModel.DistinctPositionsCard | server/src/models/TrendingPost.js:40 | documents with distinct positions have as many positions as documents |
| TrendingModel.SlotPigeonhole | server/src/models/TrendingPost.js:15-20 | at most ten documents can hold distinct positions between 1 and 10 |
| TrendingModel.SubsetCard | server/src/models/TrendingPost.js:15-20 | a subset is no larger than its superset |
| TrendingModel.FlagPositionsDistinct | server/src/models/TrendingPost.js:40 | under the unique index, the active documents have distinct positions, and so do the inactive ones |
| TrendingModel.TableBounded | server/src/models/TrendingPost.js:15-40 | a valid table holds at most ten active and ten inactive slots, so at most twenty documents |
| TrendingController.BlogRefOrNull | server/src/controllers/trendingController.js:50 | an empty reference is stored as no reference, any other is kept as sent |
| TrendingController.LookupIff | server/src/controllers/trendingController.js:82 | the lookup by id finds a slot exactly when the id is stored |
| TrendingController.Merge | server/src/controllers/trendingController.js:105-111 | a falsy title, author or position keeps the old value, an undefined link or flag keeps the old one, everything else takes the request's, trimmed where the schema trims |
| TrendingController.EmptyUpdateKeeps | server/src/controllers/trendingController.js:105-111 | an update that gives no field leaves a valid slot as it is |
| TrendingController.ByPositionIsPreorder | server/src/controllers/trendingController.js:8 | ordering by position is a total preorder |
| TrendingController.ActiveByPosition | server/src/controllers/trendingController.js:7-8 | the active slots, rearranged into ascending position order |
| TrendingController.PublicList | server/src/controllers/trendingController.js:5-30 | the public list has one entry per active slot, the slot's position as its number |
| TrendingController.SortedMember | server/src/controllers/trendingController.js:7-8 | every listed slot is stored and active |
| TrendingController.ActiveListed | server/src/controllers/trendingController.js:7 | every active slot is listed |
| TrendingController.PublicListComplete | server/src/controllers/trendingController.js:5-21 | every active slot's entry is in the public list |
| TrendingController.PublicEntrySound | server/src/controllers/trendingController.js:5-21 | each single entry of the public list comes from an active slot and carries its position |
| TrendingController.PublicListSound | server/src/controllers/trendingController.js:5-21 | every entry of the public list comes from an active slot and carries its position |
| TrendingController.PublicListAscending | server/src/controllers/trendingController.js:7-21 | on a valid table the public numbers strictly increase and there are at most ten |
| TrendingController.DistinctActiveEntries | server/src/controllers/trendingController.js:7-8 | two listed active slots never share a position |
| TrendingController.HoldsTwice | server/src/controllers/trendingController.js:8 | a rearrangement of documents with distinct positions keeps them distinct |
| TrendingController.SingleOccurrence | server/src/controllers/trendingController.js:8 | with distinct positions each document occurs once |
| TrendingController.AllByPosition | server/src/controllers/trendingController.js:166-167 | every slot, active or not, rearranged into position order |
| TrendingController.AdminList | server/src/controllers/trendingController.js:164-192 | the admin list has one entry per slot, in non-decreasing position order |
| TrendingController.TrendingTable.constructor | server/src/models/TrendingPost.js:3-43 | an empty table is valid |
| TrendingController.TrendingTable.Create | server/src/controllers/trendingController.js:33-75 | 400 when an active slot holds the position; it succeeds iff the position is free, the id is fresh and the new slot passes the schema; on success the new slot is appended and returned, numbered with the requested position and carrying the trimmed title and author, the reference or `null`, the new id and the time |
| TrendingController.TrendingTable.Update | server/src/controllers/trendingController.js:78-135 | 404 iff the id is unknown; 400 when a changed position is held by another active slot; it succeeds iff the merged slot passes the schema and the index; on success only that slot is replaced by the merge |
| TrendingController.TrendingTable.Delete | server/src/controllers/trendingController.js:138-161 | 404 iff the id is unknown; on success exactly that slot is removed |
| TrendingController.AppendValid | server/src/controllers/trendingController.js:38-52 | adding an active slot at a free position with a fresh id keeps the table valid |
| TrendingController.ClashIff | server/src/controllers/trendingController.js:91-113 | the index query finds another slot with the same key exactly when writing would break the index |
| TrendingController.ReplaceValid | server/src/controllers/trendingController.js:105-113 | replacing a slot by a valid one without an index clash keeps the table valid |
| TrendingController.RemoveValid | server/src/controllers/trendingController.js:148 | removing a slot keeps the table valid |
| BlogModel.SchemeLength | server/src/models/Blog.js:60 | the case-insensitive `https?://` prefix is 7 or 8 characters, or absent |
| BlogModel.ExtensionLength | server/src/models/Blog.js:60 | an image extension has three or four letters |
| BlogModel.ExtensionEndsAtIff | server/src/models/Blog.js:60 | checking the two possible extension lengths after a dot covers every extension the pattern accepts there |
| BlogModel.NoMatchAt | server/src/models/Blog.js:60 | where the scan moves on, no match has its dot at that position |
| BlogModel.NoMatchFrom | server/src/models/Blog.js:60 | past the end or a line terminator, no match of the image pattern can place its dot |
| BlogModel.ImageScanCorrect | server/src/models/Blog.js:60 | the scan over dot positions succeeds iff some later split point matches the image pattern |
| BlogModel.ImageUrlMatchesCorrect | server/src/models/Blog.js:58-61 | the matcher accepts a URL iff the image pattern can match it |
| BlogModel.ReadMinutes | server/src/models/Blog.js:102-107 | at least one minute, and the ceiling of the word count over 200 |
| BlogModel.ReadTimeLabelParses | server/src/models/Blog.js:106 | the read-time label is a decimal minute count (at least 1) followed by ` min read` |
| BlogModel.DefaultExcerpt | server/src/controllers/blogController.js:98 | the default excerpt is the first 150 characters of the content (all of it when shorter) plus `...`, within the 300-character limit |
| BlogModel.CandidateInjective | server/src/models/Blog.js:89-96 | different counters give different slug candidates |
| BlogModel.TriedCard | server/src/models/Blog.js:94-96 | the first `n` candidates are `n` different slugs |
| BlogModel.TakenBound | server/src/models/Blog.js:94-96 | if the first `n` candidates are all taken, at least `n` slugs exist |
| BlogModel.FirstFreeUnique | server/src/models/Blog.js:88-99 | only one candidate is the first free one |
| BlogModel.UniqueSlug | server/src/models/Blog.js:88-99 | the loop returns the first untaken candidate: the raw slug when free, and a slug no post has |
| BlogModel.TrimAll | server/src/models/Blog.js:66-69 | the setter keeps one tag per tag, each trimmed and with only its surrounding white space removed |
| BlogModel.TrimAllIdempotent | server/src/models/Blog.js:66-69 | applying the setter to already trimmed tags changes nothing |
| BlogController.LookupIff | server/src/controllers/blogController.js:279 | the lookup by id finds a post exactly when the id is stored |
| BlogController.NewBlog | server/src/controllers/blogController.js:95-106 | a new post has the given id and creator, no slug yet, no views, the trimmed title and author, the sent content, category and image, `draft` as its default status, the default excerpt when none is given, and trimmed tags when an array is given |
| BlogController.Assign | server/src/controllers/blogController.js:288-297 | an update keeps id, slug, views, read time and creator, trims title and author, and overwrites content, status, category, image, the excerpt or its default, and the tags (trimmed, or none when not an array) |
| BlogController.ByViews | server/src/controllers/blogController.js:359-361 | the published posts, in non-increasing view order |
| BlogController.MostViewed | server/src/controllers/blogController.js:357-376 | at most ten posts, in non-increasing view order, the first ones of the ordering |
| BlogController.ByViewsMember | server/src/controllers/blogController.js:359-361 | every ranked post is stored and published |
| BlogController.MostViewedIsTop | server/src/controllers/blogController.js:359-362 | every listed post is published, and none left out has more views than a listed one |
| BlogController.MostViewedFull | server/src/controllers/blogController.js:359-362 | the list holds all published posts, or ten when there are more |
| BlogController.AppendStoreValid | server/src/controllers/blogController.js:95-108 | adding a valid post with a fresh id and slug keeps the collection valid |
| BlogController.ReplaceStoreValid | server/src/controllers/blogController.js:288-299 | replacing a post by a valid one with its own or a free slug keeps the collection valid |
| BlogController.RemoveStoreValid | server/src/controllers/blogController.js:334 | removing a post keeps the collection valid |
| BlogController.BlogStore.constructor | server/src/models/Blog.js:3-83 | an empty collection is valid |
| BlogController.BlogStore.Create | server/src/controllers/blogController.js:81-123 | 400 for a missing field; it succeeds iff the id is fresh and the new post passes the schema; on success it is appended with the first free slug and the word-based read time |
| BlogController.BlogStore.GetById | server/src/controllers/blogController.js:229-272 | 404 for an unknown id or an unpublished post seen by a non-admin; a published post's views go up by one; an unpublished one is returned as stored |
| BlogController.BlogStore.Update | server/src/controllers/blogController.js:275-320 | 404 for an unknown id, 500 when title, content or author is undefined; on success only that post changes, keeping its slug unless the title changed, and its read time unless the content changed |
| BlogController.BlogStore.Delete | server/src/controllers/blogController.js:323-354 | 404 iff the id is unknown; on success exactly that post is removed |
| ApiService.GetCategories | frontend/src/services/apiService.js:178-195 | fourteen categories |
| ApiService.CategoriesMatchServer | frontend/src/services/apiService.js:178-195 | the client's categories are the schema's enum, in order |
| ApiService.StripTags | frontend/src/services/apiService.js:199 | removing `<...>` runs never lengthens the text |
| ApiService.StripTagsChars | frontend/src/services/apiService.js:199 | stripping adds no character |
| ApiService.StripTagsTagFree | frontend/src/services/apiService.js:199 | after stripping, no `<` is followed by a `>` |
| ApiService.StripTagsNoAngle | frontend/src/services/apiService.js:199 | text without `<` is left as it is |
| ApiService.GenerateExcerpt | frontend/src/services/apiService.js:197-201 | empty for empty content; the stripped text when it has at most 150 characters; otherwise its first 150 characters plus `...`; never a tag left in the kept part |
| ApiService.ReadTimeMatchesServer | frontend/src/services/apiService.js:203-209 | the client's estimate is the label the server stores, for empty content too |
| BlogService.CharReadTime | frontend/src/services/blogService.js:18 | the label is a decimal number followed by ` min read`, the number being the fewest 200-character minutes that cover the content |
| BlogService.CharReadTimeMinutes | frontend/src/services/blogService.js:18 | the label parses back to its minute count, which is 0 exactly for empty content |
| BlogService.CreateBlog | frontend/src/services/blogService.js:8-22 | the sent fields kept, the time as id, today's date as both dates, no views, the character-based read time |
| BlogService.UpdateBlog | frontend/src/services/blogService.js:24-36 | the sent fields kept with the given id, today's update date, no creation date or views, the character-based read time |
| BlogService.UpdateAfterCreate | frontend/src/services/blogService.js:8-36 | re-saving a created record keeps its fields, id and read time |
| BlogService.GenerateExcerpt | frontend/src/services/blogService.js:83-86 | short content is unchanged; long content gives at most `maxLength` trimmed characters plus `...` |
| BlogService.ExcerptHead | frontend/src/services/blogService.js:85 | before the `...` of a long excerpt stands the trimmed first `maxLength` characters |
| BlogService.ExcerptFromPrefix | frontend/src/services/blogService.js:85 | the kept part of a long excerpt is a piece of the first `maxLength` characters |
| BlogService.CalculateReadTime | frontend/src/services/blogService.js:97-102 | the word-based estimate is the server's label |
| CommentManager.PagerWindow | frontend/src/components/AdminPannel/CommentManager.jsx:715-725 | `min(5, totalPages)` consecutive buttons, each naming a page between 1 and `totalPages` |
| CommentManager.PagerWindowShowsCurrent | frontend/src/components/AdminPannel/CommentManager.jsx:716-725 | on a real page the window shows that page, and with five pages or fewer it shows exactly 1 to `totalPages` |
| CommentManager.MockFilterIff | frontend/src/components/AdminPannel/CommentManager.jsx:151-161 | a comment is kept iff its status fits the filter (or the filter is `all`) and the term occurs, ignoring case, in its name, content or e-mail |
| CommentManager.MockListingOf | frontend/src/components/AdminPannel/CommentManager.jsx:151-165 | the total is the number kept, and the pages are its ceiling over ten, none exactly when nothing is kept |
| CommentManager.StatsFromComments | frontend/src/components/AdminPannel/CommentManager.jsx:168-179 | each count is what that status tab lists; together they never exceed the list; the total is the server's figure unless it is 0 |
| CommentManager.LocalStatusChange | frontend/src/components/AdminPannel/CommentManager.jsx:198-204 | only the comments with that id change, and only in their status |
| CommentManager.StatusChangeIdempotent | frontend/src/components/AdminPannel/CommentManager.jsx:198-204 | applying the same change twice is applying it once |
| CommentManager.StatusChangeListed | frontend/src/components/AdminPannel/CommentManager.jsx:198-204 | a changed comment is listed under its new status |
| CommentManager.LocalDelete | frontend/src/components/AdminPannel/CommentManager.jsx:241-243 | exactly the comments with that id are removed |
| CommentManager.DeleteKeepsOrder | frontend/src/components/AdminPannel/CommentManager.jsx:241-243 | deleting works piece by piece, so the rest keeps its order |
| CommentManager.DeleteAbsent | frontend/src/components/AdminPannel/CommentManager.jsx:241-243 | deleting an id nobody has changes nothing |
| BlogManager.ParseTags | frontend/src/components/AdminPannel/BlogManager.jsx:80 | parsed tags are never empty, never have surrounding white space and hold no comma |
| BlogManager.TrimKeepsOut | frontend/src/components/AdminPannel/BlogManager.jsx:80 | trimming a piece without a comma gives a piece without a comma |
| BlogManager.TrimAfterSpace | frontend/src/components/AdminPannel/BlogManager.jsx:80 | the space after each comma of the formatted field is trimmed away |
| BlogManager.TagsRoundTrip | frontend/src/components/AdminPannel/BlogManager.jsx:80-113 | formatting with `", "` and parsing gives every list of non-empty, trimmed, comma-free tags back |
| BlogManager.ParseTagsNormalizes | frontend/src/components/AdminPannel/BlogManager.jsx:80 | a parsed list survives another format and parse unchanged |
| BlogManager.GetAuthorName | frontend/src/components/AdminPannel/BlogManager.jsx:156-162 | never blank: a non-empty string author gives itself, an object its name, else its e-mail, anything else `Unknown` |
| BlogManager.FilteredBlogsIff | frontend/src/components/AdminPannel/BlogManager.jsx:165-183 | a blog is listed iff it is an object, the lowered term occurs in its title, content, author label or a tag, and its status and category pass their filters |
| BlogManager.EmptySearchKeepsAll | frontend/src/components/AdminPannel/BlogManager.jsx:172-177 | with no search and both filters on `all`, every object is listed and nothing else |
| BlogManager.SearchIgnoresCase | frontend/src/components/AdminPannel/BlogManager.jsx:172-177 | a term and its lower-cased form list the same blogs |
| BlogManager.ToggleStatus | frontend/src/components/AdminPannel/BlogManager.jsx:394-397 | `draft` iff the blog is published, `published` otherwise |
| BlogManager.ToggleTwice | frontend/src/components/AdminPannel/BlogManager.jsx:394-397 | toggling twice returns a draft or published status to itself |
| BlogManager.EditForm | frontend/src/components/AdminPannel/BlogManager.jsx:103-114 | the form shows the blog's title, content, excerpt and image, its category or blank, the author's label, its status or `draft`, and its tags joined with `", "` (blank without a tag array) |
| BlogManager.SubmitData | frontend/src/components/AdminPannel/BlogManager.jsx:71-80 | a blank excerpt is generated from the content, the tag field is parsed, and title, content, author, category, status and image are sent as typed |
| BlogManager.EditUnchangedRoundTrip | frontend/src/components/AdminPannel/BlogManager.jsx:71-114 | opening a blog and saving it unchanged sends back its title, content, excerpt and tags, its status (`draft` when it had none) and its author's label |
| BlogManager.LocalEdit | frontend/src/components/AdminPannel/BlogManager.jsx:85-87 | the entries with the edited id become the server's answer, and the others stay |
| BlogManager.EditShowsUpdate | frontend/src/components/AdminPannel/BlogManager.jsx:85-87 | after editing a listed id the server's answer is in the list |
| BlogManager.LocalCreate | frontend/src/components/AdminPannel/BlogManager.jsx:90 | the new blog heads the list, followed by the old list |
| BlogManager.LocalDelete | frontend/src/components/AdminPannel/BlogManager.jsx:123 | exactly the entries with that id are removed, and the size drops by their number |
| BlogManager.DeleteUndoesCreate | frontend/src/components/AdminPannel/BlogManager.jsx:90-123 | deleting a blog just created gives what deleting it beforehand would |
| BlogManager.DeleteAbsent | frontend/src/components/AdminPannel/BlogManager.jsx:123 | deleting an id nobody has changes nothing |
| Strings.WordCount | server/src/models/Blog.js:104 | `split(/\s+/).length` is one more than the number of maximal white-space runs, so at least 1 |
| Strings.SplitOnSpaceRuns | server/src/models/Blog.js:104 | splitting on white-space runs gives one piece more than there are runs, counted independently in one pass |
| Strings.SplitJoin | frontend/src/components/AdminPannel/BlogManager.jsx:80-113 | splitting a join on its separator character gives the parts back |
| Strings.CeilDiv | server/src/controllers/commentController.js:192 | `Math.ceil(a / b)`: the least multiple count covering `a` |
| Strings.TrimIdempotent | server/src/controllers/commentController.js:7 | trimming twice gives what trimming once gives |
| Strings.TrimOfPrefix | frontend/src/services/blogService.js:85 | trimming the first `m` characters keeps a piece of them |
| Strings.TrimSpec | server/src/controllers/commentController.js:7 | `trim` gives a middle piece with only white space cut on either side, itself trimmed |
| Strings.DecimalRoundTrip | server/src/models/Blog.js:106 | a minute count printed in decimal parses back |
| Seqs.SortBySorted | server/src/controllers/commentController.js:178 | the stable insertion sort standing for the database sort gives a sequence ordered by any total preorder |

## Left out

- I/O, the network and the database engine are not modelled. Each collection is a sequence held in memory, and the handlers run one after another; concurrent requests and the race between the rate-limit count and the insert are not modelled.
- The routes, the authentication and role middleware, bcrypt, JWT and the user and auth controllers are not part of this model. Whether the caller is an admin is a parameter.
- The per-IP request limiters on the comment routes (`server/src/routes/comment.js:19-38`) are external configuration and are not modelled.
- The IP address and user agent recorded with a comment are not modelled, because they come from the transport.
- `validator.escape`, `validator.isEmail`, the schema's e-mail regular expression and `slugify` are function parameters, because their code is not available. Their outputs are taken as given, so the model does not re-check that `slugify` output is lower case.
- Malformed ObjectIds are taken to name no document. This matches the CastError handling that gives 404 in `getBlogById`. Elsewhere a cast error would give 500.
- CommentController.CommentStore.ListByBlog and CommentController.CommentStore.ListAll: the query defaults (`page = 1`, `limit = 10`, `sort = 'newest'` for the public listing, `limit = 20` for the admin one; `commentController.js:135` and `:220`) are not modelled: the page, limit and sort are always given.
- BlogService.GenerateExcerpt: the default `maxLength = 150` is not modelled; the length is always given, and no modelled caller omits it.
- CommentController.SelectPageComplete, CommentController.CommentStore.ListByBlog and CommentController.CommentStore.ListAll: comments with equal sort keys (the same `createdAt`, or the same `likes` and `createdAt`) are taken in their stored order, by the stable `Seqs.SortBy`. The database promises no order among equal keys, and it may differ between two skip-and-limit queries, so in the source one such comment can show on two pages and another on none. The exact page and "every match is shown" hold for the stored tie order only.
- A page size of zero or less (`Infinity` or `NaN` after `parseInt`) is excluded by requiring `limit >= 1`. A page number below 1, which makes the database reject the negative skip, gives `ServerError`.
- The admin listing's `$regex` search is read as case-insensitive substring matching, because any other user-supplied pattern cannot be interpreted here.
- `populate` and `select` projections are not modelled beyond dropping the hidden fields in `CommentController.PublicView`.
- The aggregation in `getBlogStats` and the index setup script are not modelled.
- The database timestamps other than `createdAt`, including every stored `updatedAt`, are not modelled, because nothing in the core reads them. The client service's simulated records do carry their dates.
- `toLowerCase` is modelled on ASCII letters only. JavaScript counts string length in UTF-16 code units; the model counts Unicode scalar values. The two differ only outside the Basic Multilingual Plane.
- CommentController.CommentStore.Delete: the ids of deleted replies are left in the parent's `replies` array, exactly as the source leaves them; no lemma claims references stay valid.
- SpamFilter.IsSpamComment: the e-mail address and the name passed to `isSpamComment` are never read by it, so they are not parameters.
- TrendingController.TrendingTable.Create: a request body without a position is not modelled; the position is always an integer. With `position` undefined the source's occupancy query loses its position condition.
- TrendingModel.SlotPigeonhole: the position is modelled as an integer. The schema declares it a `Number` between 1 and 10 and does not require a whole number, so positions such as 1.5 are not modelled, and with them the source can hold more than ten active slots.
- TrendingModel.TableBounded: the bound of ten active and ten inactive slots rests on whole-number positions, as for `SlotPigeonhole`.
- TrendingController.PublicListAscending: the bound of at most ten public entries rests on whole-number positions, as for `SlotPigeonhole`.
- The trending `addedBy` field is kept as the user id. That is how the document stores it; the populated user name is not modelled.
- BlogManager.LocalEdit: an entry that is `null` would make the source's `map` throw. The model's `HasId` simply does not match it.
- BlogManager.LocalDelete: likewise, a `null` entry would make the source's `filter` throw; the model keeps it.
- The React state setters, the notifications, the confirmation dialogs and the rendering of the two admin screens are not modelled. Neither are the hero slider, the trending section and the public pages.
