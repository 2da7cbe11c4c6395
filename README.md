# Static blog builder and responsive image embedder: a Dafny model

This project models the two build tools of a static website template.

- **The blog builder** (`build/scripts/build-blog.js`, class `BlogBuilder`) works in these steps:
  - It reads the Markdown files of the blog content directory. A file becomes a post when its name has the form `YYYY-MM-DD-slug.md`.
  - Missing metadata gets a default: the title comes from the slug, the description from the first line of the body that, trimmed, is not empty and does not start with `#` (a list item, an image or a code fence line qualifies), the author is `Author`, and the tags are `cybersecurity`.
  - The posts are sorted newest first.
  - Each post gets a page at `blog/YYYY/MM/DD/slug/index.html`, filled from a template. The page carries a breadcrumb trail and a schema.org `BlogPosting` record.
  - A blog index page gets one preview per post.
  - `sitemap.xml` lists the four static routes and every post.
- **The image embedder** (`build/tools/responsive_blog_image_embedder.py`) works in these steps:
  - It stops when no file is chosen. It maps the chosen image's file extension to a MIME type. Unsupported types are rejected.
  - The user picks one of six CSS sizing styles. Any unknown name falls back to the plain responsive style.
  - It writes an `<img>` tag whose source is a base64 data URI. The alt text defaults to `Blog image`.

## Modules

| module | file | contents |
|---|---|---|
| `Wrappers` | wrappers.dfy | `Option` and `Result` |
| `Text` | text.dfy | the JavaScript string operations the builder uses, written out with their laws: `split`, `join` and `trim` (ECMAScript white space and line terminators), global literal `replace`, and the ASCII `toUpperCase`/`lower()`, plus decimal digits and the ordering of digit strings |
| `BlogPosts` | blog_posts.dfy | the file-name pattern, `generatePostUrl`, `formatTitle`, `extractDescription`, the post record with its defaults, the posts the loading loop pushes, and the stable newest-first sort |
| `Templates` | templates.dfy | `replacePlaceholders` and `generateBreadcrumbs` |
| `SiteOutput` | site_output.dfy | the sitemap entries and XML, the index previews and replacements, `generateStructuredData`, and the replacements and directory of a post page |
| `Builder` | builder.dfy | class `BlogBuilder`: a `posts: seq<Post>` field that `LoadPosts` fills and sorts in place, the page, index and sitemap generators, and `Build` |
| `ImageEmbedder` | image_embedder.dfy | the sizing styles, `create_responsive_img_tag` and a parser that reads the tag back, the extension-to-MIME lookup with `os.path.splitext`, the alt-text default, and the path of `main` from the chosen file to the tag |

File system access is modelled by values:
- a directory entry is a `SourceFile`, which holds the file name, the parsed front matter and the body;
- templates are strings;
- `Build` returns the files it would write, as `OutputFile` values holding a path and a text.

Three services are parameters, bundled in `Builder.Collaborators`:
- Markdown rendering (`marked`);
- display dates (`formatDate`, which is `toLocaleDateString`);
- JSON serialisation.

The front matter is a record of optional fields. Gray-matter parsing is not part of this model.

Where the JavaScript relies on truthiness, the model spells it out:
- `value || default` takes the value when it is present and, for a string, not empty;
- a tag list, even an empty one, counts as present;
- the post count 0 substitutes as the empty string.

## Model

| member | source | states |
|---|---|---|
| BlogPosts.MatchFilename | build/scripts/build-blog.js:39-42 | a match yields a well-formed date and slug that, joined by a hyphen and followed by `.md`, give back the name; every match ends in `.md` |
| BlogPosts.MatchFilenameComplete | build/scripts/build-blog.js:39-42 | conversely, every `date-slug.md` name with a well-formed date and slug matches, with exactly that date and slug |
| BlogPosts.GeneratePostUrl | build/scripts/build-blog.js:67-70 | the URL starts with `/blog/` and ends with the slug and a slash |
| BlogPosts.PostUrlOfDate | build/scripts/build-blog.js:67-70 | for a `YYYY-MM-DD` date the URL is exactly `/blog/YYYY/MM/DD/<slug>/` |
| BlogPosts.CapitalizeWordsAt | build/scripts/build-blog.js:76 | the `\b\w` replacement upper-cases a character exactly when it is a word character that follows a non-word character or starts the text, and keeps every other character |
| BlogPosts.CapitalizeWords | build/scripts/build-blog.js:76 | the `\b\w` replacement, left to right, keeping the length; a character is upper-cased when it is a word character and the one before is not |
| BlogPosts.FormatTitle | build/scripts/build-blog.js:73-77 | the title is the slug with hyphens made spaces, then each word's first character upper-cased |
| BlogPosts.FormatTitleAt | build/scripts/build-blog.js:73-77 | the title is as long as the slug; at each position a hyphen becomes a space, a word character that starts a word is upper-cased, and everything else stays as it was |
| BlogPosts.FormatTitleExample | build/scripts/build-blog.js:73-77 | `my-first-post` becomes `My First Post` |
| BlogPosts.Truncate | build/scripts/build-blog.js:85 | the result has at most 160 characters; a line of at most 160 is kept whole; a longer one keeps its first 157 characters, followed by `...`; a non-empty line stays non-empty |
| BlogPosts.FirstUsableLine | build/scripts/build-blog.js:82-84 | any line it returns is non-empty and does not start with `#` |
| BlogPosts.DescriptionOf | build/scripts/build-blog.js:80-89 | a description is never empty and never longer than 160 characters |
| BlogPosts.FirstUsableLineAt | build/scripts/build-blog.js:82-86 | when line k, trimmed, is the first usable one, the search returns that trimmed line |
| BlogPosts.NoUsableLine | build/scripts/build-blog.js:82-88 | when no line is usable, the search finds nothing |
| BlogPosts.DescriptionFromLine | build/scripts/build-blog.js:81-86 | the description is the truncated first usable line of the body |
| BlogPosts.DescriptionWithoutLine | build/scripts/build-blog.js:88 | a body without a usable line gets the fixed fallback sentence |
| BlogPosts.ExtractDescription | build/scripts/build-blog.js:80-89 | the loop over the lines computes the description the two lemmas above characterise |
| BlogPosts.PostRecord | build/scripts/build-blog.js:43-55 | the post object: name, slug and date from the match; title, author and tags defaulted unless present; an empty image becomes none; the body and metadata kept; the URL from date and slug |
| BlogPosts.MakePost | build/scripts/build-blog.js:43-55 | the post object with the metadata's description, or, when it has none, the one extracted from the body |
| BlogPosts.PostRecordValid | build/scripts/build-blog.js:43-55 | the post object for a matched name with a non-empty description is well formed |
| BlogPosts.BuildPost | build/scripts/build-blog.js:39-55 | a post is built exactly when the name matches the dated pattern |
| BlogPosts.BuildPostValid | build/scripts/build-blog.js:43-55 | a built post is well formed, with a valid date and slug, the file name they came from, the URL of both, and title, author and description non-empty; it keeps the file's name, body and metadata |
| BlogPosts.BuildPostDefaults | build/scripts/build-blog.js:47-51 | without metadata, the defaults apply: the title from the slug, the description from the body, author `Author`, tags `["cybersecurity"]`, no image |
| BlogPosts.BuildPostUsesMetadata | build/scripts/build-blog.js:47-51 | a present (for strings, non-empty) metadata value wins over its default; an empty image becomes no image |
| BlogPosts.BuildPostFromName | build/scripts/build-blog.js:39-54 | the date and slug come from the file name, and the URL is built from both |
| BlogPosts.ParseSourceFile | build/scripts/build-blog.js:31-58 | a directory entry is considered only when its name ends in `.md`, and then yields the post built from it |
| BlogPosts.ParseSourceFileSpec | build/scripts/build-blog.js:31-58 | a directory entry yields a post exactly when the entry is a `.md` file with a dated name; that post is well formed and keeps the entry's name and body |
| BlogPosts.LoadedPosts | build/scripts/build-blog.js:33-59 | the loop pushes at most one post per directory entry |
| BlogPosts.LoadedPostsValid | build/scripts/build-blog.js:33-59 | every pushed post is well formed |
| BlogPosts.LoadedPostsStep | build/scripts/build-blog.js:33-58 | each further entry appends its post, if it has one, and changes nothing else |
| BlogPosts.LoadedPostsSkip | build/scripts/build-blog.js:41 | an entry whose name does not match adds nothing |
| BlogPosts.LoadedPostsNone | build/scripts/build-blog.js:41 | a directory without matching names yields no posts |
| BlogPosts.InsertByDate | build/scripts/build-blog.js:62 | inserting one post keeps every post, as a multiset |
| BlogPosts.SortNewestFirst | build/scripts/build-blog.js:62 | the sorted list is a permutation of its input |
| BlogPosts.InsertByDateSorted | build/scripts/build-blog.js:62 | inserting into a newest-first list keeps it newest first |
| BlogPosts.SortNewestFirstSorted | build/scripts/build-blog.js:62 | the sorted list is newest first and a permutation of the input |
| BlogPosts.InsertByDateSameKey | build/scripts/build-blog.js:62 | the posts of one date keep their relative order when a post is inserted |
| BlogPosts.SortKeepsOrderOfEqualDates | build/scripts/build-blog.js:62 | the sort is stable: posts with the same date keep their loading order |
| BlogPosts.DateKeyOrder | build/scripts/build-blog.js:62 | for well-formed dates, the numeric key orders dates as their `YYYY-MM-DD` strings do, and equal keys mean equal dates |
| BlogPosts.NewestFirstByDateString | build/scripts/build-blog.js:62 | in a newest-first list of well-formed dates, no date string precedes a later one |
| Templates.ValueText | build/scripts/build-blog.js:210 | `value \|\| ''`: a string is kept, a missing value and 0 become empty, and a positive count becomes its decimal digits without a leading zero |
| Templates.Substitute | build/scripts/build-blog.js:206-213 | the result of replacing each key's token with its value's text, one key after the other, in entry order |
| Templates.ReplacePlaceholders | build/scripts/build-blog.js:206-213 | the loop replaces every `{{KEY}}` token, key by key in entry order, over the result of the keys before |
| Templates.SubstituteUntouched | build/scripts/build-blog.js:206-213 | a template holding none of the tokens comes back unchanged |
| Templates.EveryOccurrenceReplaced | build/scripts/build-blog.js:209-210 | the `g` flag: for a placeholder key, any text pieces that hold no copy of the key's token, separated by the token, become the same pieces separated by the value's text; every occurrence is replaced and the text between them is untouched |
| Templates.TokenUsedTwice | build/scripts/build-blog.js:209-210 | for a placeholder key, a token that occurs twice in text holding no other copy of it is replaced twice, whatever else (other keys' tokens, braces) the text holds |
| Templates.AbsentValueLeavesNothing | build/scripts/build-blog.js:210 | for a placeholder key, a missing value removes the token and leaves nothing in its place, whatever text surrounds it |
| Templates.OtherTokenKept | build/scripts/build-blog.js:209-210 | replacing one placeholder key leaves another key's token next to it intact |
| Templates.TokenBorderless | build/scripts/build-blog.js:209 | no proper prefix of a placeholder key's `{{KEY}}` token is also its suffix, so two occurrences never overlap |
| Templates.TokenNotInToken | build/scripts/build-blog.js:209 | the token of one placeholder key never occurs inside the token of a different one |
| Templates.LaterKeySubstituted | build/scripts/build-blog.js:208-211 | keys are taken in entry order: for any two keys, a value of the first that is the second key's token is itself replaced by the second key's value |
| Templates.EarlierKeyKept | build/scripts/build-blog.js:208-211 | for two different placeholder keys, a value of the second that is the first key's token survives, because each key is replaced once, in order |
| Templates.GenerateBreadcrumbs | build/scripts/build-blog.js:227-234 | the crumbs rendered in order, the last as the current item and the others as links, joined by the separator |
| Templates.BreadcrumbsShape | build/scripts/build-blog.js:227-234 | n crumbs render as n-1 links, in order, each followed by one separator, then the last crumb as the current item |
| Templates.BreadcrumbsEmpty | build/scripts/build-blog.js:227-234 | no crumbs render as nothing |
| Templates.ThreeCrumbs | build/scripts/build-blog.js:227-234 | three crumbs render as two separated links, then the current item |
| Templates.PostBreadcrumbsText | build/scripts/build-blog.js:104-108 | a post page's trail links Home and Blog and ends in the post title as the current item |
| SiteOutput.SitemapEntries | build/scripts/build-blog.js:170-184 | the four static routes, then one dated entry per post at priority 0.7 |
| SiteOutput.SitemapXml | build/scripts/build-blog.js:186-193 | the XML declaration, the `urlset` opening, the `<url>` elements joined by line breaks, and the closing tag |
| SiteOutput.GenerateSitemap | build/scripts/build-blog.js:169-193 | the sitemap text of the site URL and the post list's entries |
| SiteOutput.CollectSitemapEntries | build/scripts/build-blog.js:170-184 | the `urls` list, built by pushing one entry per post after the static routes |
| SiteOutput.SitemapEntriesShape | build/scripts/build-blog.js:170-184 | there are 4 + n entries: `/`, `/services/`, `/blog/` and `/contact/` without a date, at priorities other than the posts' 0.7, then each post's URL with its date at priority 0.7, in post order |
| SiteOutput.ElementLinesSingle | build/scripts/build-blog.js:188-192 | an element whose fields hold no line break is five lines with no break inside; exactly one of them is the `<url>` opening |
| SiteOutput.EntryLinesSingle | build/scripts/build-blog.js:188-192 | the elements make five lines each, none breaking, with one `<url>` opening per entry |
| SiteOutput.SitemapLines | build/scripts/build-blog.js:186-193 | read line by line, the sitemap is the XML declaration, the `<urlset>` opening, the element lines in order and the closing tag, with exactly one `<url>` line per entry |
| SiteOutput.SitemapUrlCount | build/scripts/build-blog.js:169-193 | the sitemap of n posts has 4 + n `<url>` elements |
| SiteOutput.PreviewFragment | build/scripts/build-blog.js:137-153 | one post's preview: its link and title, displayed date, author, description and read-more link |
| SiteOutput.PostPreviews | build/scripts/build-blog.js:136-154 | the previews of the posts, concatenated in list order |
| SiteOutput.PreviewsAppend | build/scripts/build-blog.js:136-154 | previews are concatenated in list order with nothing between them |
| SiteOutput.PreviewsEmpty | build/scripts/build-blog.js:136-154 | no posts give no previews |
| SiteOutput.IndexReplacements | build/scripts/build-blog.js:156-162 | the five index keys in order: site name, site URL, site description, previews and post count |
| SiteOutput.BlogIndexPage | build/scripts/build-blog.js:156-162 | the index template with the five index keys substituted |
| SiteOutput.PostPageReplacements | build/scripts/build-blog.js:111-124 | the twelve post page keys in order, with the tags joined by `, ` and the post's breadcrumb trail |
| SiteOutput.PostPage | build/scripts/build-blog.js:101-124 | the post template with the twelve keys substituted, using the rendered Markdown, the displayed date and the serialised structured data |
| SiteOutput.PostDirectory | build/scripts/build-blog.js:96-97 | the page directory: year, month and day from the date, then the slug |
| SiteOutput.GenerateStructuredData | build/scripts/build-blog.js:237-266 | published and modified dates are both the post's date; the record's URL and the page's `@id` are both the absolute post URL; the publisher carries the site URL and the author none; an image appears exactly when the post has one |
| SiteOutput.PostDirectoryMatchesUrl | build/scripts/build-blog.js:96-97 | a post's page directory, joined under `/blog/`, is the post's URL |
| SiteOutput.PostPageKeysValid | build/scripts/build-blog.js:111-124 | all twelve post page keys are placeholder keys |
| SiteOutput.IndexKeysValid | build/scripts/build-blog.js:156-162 | all five index keys are placeholder keys |
| Builder.ParsePost | build/scripts/build-blog.js:31-58 | one turn of the loading loop, which yields the post of that directory entry (only when the metadata has none does it extract the description) |
| Builder.PostPageFile | build/scripts/build-blog.js:96-126 | the file `blog/<year>/<month>/<day>/<slug>/index.html` holding the post's page |
| Builder.PostPageFiles | build/scripts/build-blog.js:95-128 | one page file per post, in list order |
| Builder.SiteFiles | build/scripts/build-blog.js:276-283 | no files for no posts; otherwise the post pages, then the index, then the sitemap |
| Builder.PostPageWhereUrlPoints | build/scripts/build-blog.js:96-97 | a post page lies at `blog/Y/M/D/slug/index.html`, where the post's URL points |
| Builder.SitemapOfValidPosts | build/scripts/build-blog.js:169-193 | for well-formed posts and a one-line site URL, the sitemap has 4 + n `<url>` elements |
| Builder.SiteFilesShape | build/scripts/build-blog.js:276-283 | a non-empty build writes n post pages, in order, each where its post's URL points, then the blog index, then the sitemap with 4 + n elements |
| Builder.NothingToBuild | build/scripts/build-blog.js:276-279 | a directory without matching names leaves a fresh builder with no posts |
| Builder.BlogBuilder.constructor | build/scripts/build-blog.js:9-20 | the default site settings and an empty post list |
| Builder.BlogBuilder.LoadPosts | build/scripts/build-blog.js:29-64 | the new post list holds the old posts and the loaded ones, as a multiset, sorted newest first (stably) |
| Builder.BlogBuilder.PushPosts | build/scripts/build-blog.js:33-59 | the loop appends the loaded posts in directory order and changes nothing else |
| Builder.BlogBuilder.SortPosts | build/scripts/build-blog.js:62 | the in-place sort leaves a newest-first permutation of the list |
| Builder.BlogBuilder.GeneratePostPages | build/scripts/build-blog.js:92-129 | one page per post, in list order, each rendered from the post template |
| Builder.BlogBuilder.RenderPostPage | build/scripts/build-blog.js:96-126 | the page sits in the directory named by the date and slug, and its text is the template with the twelve keys filled |
| Builder.BlogBuilder.GenerateBlogIndex | build/scripts/build-blog.js:132-166 | `blog/index.html` is the index template filled with the site fields, the previews and the post count |
| Builder.BlogBuilder.GenerateSitemapFile | build/scripts/build-blog.js:169-197 | `sitemap.xml` is the XML of the collected entries |
| Builder.BlogBuilder.Build | build/scripts/build-blog.js:269-293 | loads and sorts the posts; nothing is written exactly when no post was found; otherwise the post pages, the index and the sitemap are written, in that order |
| ImageEmbedder.StyleFor | build/tools/responsive_blog_image_embedder.py:51 | a known option gets its own style, any other name gets the responsive one, and every style starts with the base styles |
| ImageEmbedder.StylesExtendBase | build/tools/responsive_blog_image_embedder.py:22-49 | there are exactly six options; each extends the base styles, and `responsive` is exactly the base |
| ImageEmbedder.ImgTag | build/tools/responsive_blog_image_embedder.py:53 | the tag format: a data URI of the MIME type and the base64 text, the alt text and the inline style |
| ImageEmbedder.CreateResponsiveImgTag | build/tools/responsive_blog_image_embedder.py:19-53 | the tag with the style of the chosen option, the option defaulting to `responsive` and the alt text to `Blog image` |
| ImageEmbedder.TagRoundTrip | build/tools/responsive_blog_image_embedder.py:19-53 | the tag gives back its MIME type, data, alt text and chosen style, as long as the MIME type, data and alt text hold no quote and the first two no semicolon |
| ImageEmbedder.ImgTagRoundTrip | build/tools/responsive_blog_image_embedder.py:53 | the tag format reads back into the four fields it was made from |
| ImageEmbedder.Extension | build/tools/responsive_blog_image_embedder.py:165 | the extension is empty, or a dot followed by a dot-free, slash-free suffix of the path |
| ImageEmbedder.ExtensionOfSuffix | build/tools/responsive_blog_image_embedder.py:165 | a name ending in `.ext` (after a proper stem) has the extension `.ext` |
| ImageEmbedder.MimeForPath | build/tools/responsive_blog_image_embedder.py:157-172 | the lowercased path is accepted exactly when its extension is one of .jpg, .jpeg, .png, .gif or .webp; it then gets one of four MIME subtypes; otherwise it is rejected with that extension |
| ImageEmbedder.ExtensionLookup | build/tools/responsive_blog_image_embedder.py:157-163 | the table's keys are exactly the five extensions; both `.jpg` and `.jpeg` map to `jpeg` |
| ImageEmbedder.MimeForNamedPath | build/tools/responsive_blog_image_embedder.py:157-172 | for `stem.ext`, the MIME type is looked up case-insensitively by `ext` |
| ImageEmbedder.UnsupportedMessage | build/tools/responsive_blog_image_embedder.py:167-170 | an unsupported `stem.ext` is rejected with the message `Unsupported image type: .ext`, with `ext` in lower case |
| ImageEmbedder.NoExtensionRejected | build/tools/responsive_blog_image_embedder.py:165-170 | a path without a dot is rejected with the empty extension |
| ImageEmbedder.AltTextOrDefault | build/tools/responsive_blog_image_embedder.py:114 | the alt text is never empty, and a non-empty entry is kept as written |
| ImageEmbedder.EmbedImage | build/tools/responsive_blog_image_embedder.py:152-204 | a tag is produced exactly for a chosen file of a supported type with a chosen option; no file gives `No file selected`, checked first; an unsupported type reports its extension; a dismissed dialog cancels; the tag uses the looked-up MIME type, the option and the defaulted alt text |
| ImageEmbedder.EmptyAltGetsDefault | build/tools/responsive_blog_image_embedder.py:114 | a tag made with an empty alt entry reads back with the alt text `Blog image` |
| Text.Split | build/scripts/build-blog.js:68 | `split` always gives at least one part, and no part holds the separator |
| Text.JoinSplit | build/scripts/build-blog.js:68 | joining the parts with the separator gives back the string |
| Text.SplitJoin | build/scripts/build-blog.js:188-192 | splitting a join of separator-free parts gives back the parts |
| Text.TrimShape | build/scripts/build-blog.js:83 | the trimmed line neither starts nor ends with white space, and it is empty exactly when the line is all white space |
| Text.TrimMiddle | build/scripts/build-blog.js:83 | the trimmed line is a middle part of the line with only white space before and after it |
| Text.TrimStart | build/scripts/build-blog.js:83 | the result is a suffix of the text, everything cut off is white space, and it does not start with white space |
| Text.TrimEnd | build/scripts/build-blog.js:83 | the result is a prefix of the text, everything cut off is white space, and it does not end with white space |
| Text.Trim | build/scripts/build-blog.js:83 | `trim()` is `trimStart` followed by `trimEnd` |
| Text.Join | build/scripts/build-blog.js:121 | `join(sep)`: the parts in order with one separator between neighbours, and the empty text for no parts |
| Text.ReplaceAllJoin | build/scripts/build-blog.js:209-210 | for a pattern with no border (no proper prefix that is also a suffix), a global replace turns pieces in which the pattern does not occur, separated by it, into the same pieces separated by the replacement |
| Text.ReplaceAllPass | build/scripts/build-blog.js:209-210 | text at none of whose positions an occurrence starts is copied through unchanged, and the replacement goes on after it |
| Text.ReplaceAll | build/scripts/build-blog.js:75 | a global replace of a literal pattern: matches found left to right, not overlapping, each replaced by the literal replacement text |
| Text.ReplaceAllChar | build/scripts/build-blog.js:75 | replacing one character by another keeps the length and changes exactly the occurrences |
| Text.LowerAscii | build/tools/responsive_blog_image_embedder.py:165 | `lower()` keeps the length and lowercases each ASCII letter |

## Left out

- File I/O is not modelled: reading the directory, reading and writing files, `setupDirectories` and `loadTemplate`. Directory entries and templates are inputs, and the written files are outputs.
- Console output is not modelled, and neither is the `try`/`catch` with `process.exit(1)` in `build`. The model has no I/O that could fail.
- `async`/`await` is not modelled. The steps run in program order.
- Gray-matter front matter parsing is not part of this model. The parsed metadata and body come in as a `SourceFile`.
- `marked`, `formatDate` (`toLocaleDateString`) and `JSON.stringify` are not modelled. They are parameters (`Builder.Collaborators`). The structured-data record is modelled before serialisation.
- BlogPosts.DateKey: the comparator `new Date(b.date) - new Date(a.date)` is modelled by the key year·10000 + month·100 + day. For real calendar dates this orders them the way `Date` does. Impossible dates such as `2024-13-45` give `NaN` in JavaScript, and that comparator behaviour is not modelled.
- BlogPosts.SortNewestFirst: `Array.prototype.sort` is a library routine, modelled as a stable insertion sort. The model proves the order `sort` guarantees (newest first, equal dates stable), not the engine's algorithm.
- Templates.ReplacePlaceholders: it requires keys made of `A`–`Z` and `_`, which is every key the builder passes. For such keys, `new RegExp('{{KEY}}', 'g')` matches exactly the literal token. The `$&` and `$1` patterns of `String.prototype.replace` in replacement values are not modelled: a value is inserted literally.
- Text: string length counts characters, not UTF-16 code units. This affects the 160-character limit in `extractDescription` only for text outside the Basic Multilingual Plane.
- Text.LowerAscii: Python's `lower()` (and JavaScript's `toUpperCase` in `formatTitle`) are modelled on ASCII letters only. Other characters pass through unchanged.
- BlogPosts.MatchFilename: `\d` stands for ASCII digits. The slug `(.+)` is any non-empty text without a line terminator.
- Tags are taken as a present list of strings. Front matter `tags` holding a non-list value is not modelled.
- In the image embedder, these are not modelled: the Tk dialogs, the clipboard, the progress messages, the file-size warning (a floating-point size with a yes/no question), and the base64 encoding (the encoded text is an input). The dialog's result is an input to `EmbedImage`.
- The `description` strings of the size options are not modelled. They are only shown in the dialog.
- ImageEmbedder.ParseImgTag is a reading of the tag written for the round-trip lemmas. The original has no parser. The round trip needs quote-free alt text, because the tool inserts the alt text unescaped.
- ImageEmbedder.Extension follows POSIX `os.path.splitext`. The Windows separator rules are not modelled.
- `build/tools/simple_responsive_embedder.py` is not part of this model.
