/**
 * What the blog builder renders from the sorted post list: the sitemap
 * (`generateSitemap`), the index previews and index replacements
 * (`generateBlogIndex`), the schema.org BlogPosting record
 * (`generateStructuredData`) and the replacements and output directory of
 * each post page (`generatePostPages`).
 */
module SiteOutput {
  import opened Wrappers
  import opened Text
  import opened BlogPosts
  import opened Templates

  /** The site-wide settings the builder fixes in its constructor. */
  datatype Site = Site(url: string, name: string, description: string)

  const DefaultSite := Site("https://example.com", "My Blog", "Cybersecurity Insights and Updates")

  // ---------------------------------------------------------------------
  // Sitemap entries

  datatype SitemapEntry = SitemapEntry(path: string, lastmod: Option<string>, priority: string)

  const StaticEntries: seq<SitemapEntry> := [
    SitemapEntry("/", None, "1.0"),
    SitemapEntry("/services/", None, "0.8"),
    SitemapEntry("/blog/", None, "0.8"),
    SitemapEntry("/contact/", None, "0.6")
  ]

  const PostPriority := "0.7"

  function PostEntry(p: Post): SitemapEntry {
    SitemapEntry(p.url, Some(p.date), PostPriority)
  }

  function PostEntries(posts: seq<Post>): (entries: seq<SitemapEntry>)
    ensures |entries| == |posts|
  {
    seq(|posts|, i requires 0 <= i < |posts| => PostEntry(posts[i]))
  }

  /** The `urls` list of `generateSitemap`: the static routes, then one entry per post. */
  function SitemapEntries(posts: seq<Post>): seq<SitemapEntry> {
    StaticEntries + PostEntries(posts)
  }

  /** Building `urls` with `forEach` and `push`. */
  method CollectSitemapEntries(posts: seq<Post>) returns (urls: seq<SitemapEntry>)
    ensures urls == SitemapEntries(posts)
  {
    urls := StaticEntries;
    var i := 0;
    while i < |posts|
      invariant 0 <= i <= |posts|
      invariant urls == StaticEntries + PostEntries(posts[..i])
    {
      assert PostEntries(posts[..i + 1]) == PostEntries(posts[..i]) + [PostEntry(posts[i])];
      urls := urls + [SitemapEntry(posts[i].url, Some(posts[i].date), "0.7")];
      i := i + 1;
    }
    assert posts[..i] == posts;
  }

  /**
   * Four static entries without a date, then one entry per post in post
   * order, dated by the post; the post priority differs from every static one.
   */
  lemma SitemapEntriesShape(posts: seq<Post>)
    ensures |SitemapEntries(posts)| == 4 + |posts|
    ensures forall i :: 0 <= i < 4 ==>
      SitemapEntries(posts)[i].lastmod == None && SitemapEntries(posts)[i].priority != PostPriority
    ensures SitemapEntries(posts)[0].path == "/" && SitemapEntries(posts)[1].path == "/services/"
      && SitemapEntries(posts)[2].path == "/blog/" && SitemapEntries(posts)[3].path == "/contact/"
    ensures forall i :: 0 <= i < |posts| ==>
      SitemapEntries(posts)[4 + i] == SitemapEntry(posts[i].url, Some(posts[i].date), "0.7")
  {
    var e := SitemapEntries(posts);
    assert e[..4] == StaticEntries;
    assert "1.0" != PostPriority && "0.8" != PostPriority && "0.6" != PostPriority by {
      assert "1.0"[0] != PostPriority[0];
      assert "0.8"[2] != PostPriority[2];
      assert "0.6"[2] != PostPriority[2];
    }
  }

  // ---------------------------------------------------------------------
  // Sitemap XML

  function LastmodText(lastmod: Option<string>): string {
    if Truthy(lastmod) then "<lastmod>" + lastmod.value + "</lastmod>" else ""
  }

  /**
   * One `<url>` element of the template literal: five lines, the third
   * holding the `<lastmod>` element or nothing.
   */
  function ElementLines(siteUrl: string, e: SitemapEntry): seq<string> {
    [ "  <url>",
      "    <loc>" + siteUrl + e.path + "</loc>",
      "    " + LastmodText(e.lastmod),
      "    <priority>" + e.priority + "</priority>",
      "  </url>" ]
  }

  function UrlElement(siteUrl: string, e: SitemapEntry): string {
    Join(ElementLines(siteUrl, e), "\n")
  }

  const XmlDeclaration := "<?xml version=\"1.0\" encoding=\"UTF-8\"?>"
  // Written in short pieces so that the verifier can see the characters of the text.
  const UrlsetOpen := "<urlset xmlns=" + "\"http://www.sitemaps.org" + "/schemas/sitemap/0.9\">"
  const UrlsetClose := "</urlset>"

  /** The sitemap document for a list of entries (sitemaps.org protocol 0.9). */
  function SitemapXml(siteUrl: string, entries: seq<SitemapEntry>): string {
    XmlDeclaration + "\n" + UrlsetOpen + "\n"
    + Join(seq(|entries|, i requires 0 <= i < |entries| => UrlElement(siteUrl, entries[i])), "\n")
    + "\n" + UrlsetClose
  }

  /** The text `generateSitemap` writes. */
  function GenerateSitemap(site: Site, posts: seq<Post>): string {
    SitemapXml(site.url, SitemapEntries(posts))
  }

  function EntryLines(siteUrl: string, entries: seq<SitemapEntry>): (lines: seq<string>)
    ensures |lines| == 5 * |entries|
  {
    if entries == [] then [] else ElementLines(siteUrl, entries[0]) + EntryLines(siteUrl, entries[1..])
  }

  lemma {:induction false} ElementsJoin(siteUrl: string, entries: seq<SitemapEntry>)
    requires entries != []
    ensures Join(seq(|entries|, i requires 0 <= i < |entries| => UrlElement(siteUrl, entries[i])), "\n")
         == Join(EntryLines(siteUrl, entries), "\n")
    decreases |entries|
  {
    var elems := seq(|entries|, i requires 0 <= i < |entries| => UrlElement(siteUrl, entries[i]));
    var rest := entries[1..];
    if rest == [] {
      assert EntryLines(siteUrl, entries) == ElementLines(siteUrl, entries[0]) + [];
      assert ElementLines(siteUrl, entries[0]) + [] == ElementLines(siteUrl, entries[0]);
    } else {
      ElementsJoin(siteUrl, rest);
      assert elems[1..] == seq(|rest|, i requires 0 <= i < |rest| => UrlElement(siteUrl, rest[i]));
      JoinAppend(ElementLines(siteUrl, entries[0]), EntryLines(siteUrl, rest), "\n");
    }
  }

  /** No line break inside any field, so each field stays on its line. */
  predicate SingleLineEntries(siteUrl: string, entries: seq<SitemapEntry>) {
    && '\n' !in siteUrl
    && forall i :: 0 <= i < |entries| ==>
      '\n' !in entries[i].path && '\n' !in entries[i].priority
      && (entries[i].lastmod.Some? ==> '\n' !in entries[i].lastmod.value)
  }

  /** The lines of one element: none breaks, and exactly one is the `<url>` opening. */
  lemma ElementLinesSingle(siteUrl: string, e: SitemapEntry)
    requires '\n' !in siteUrl && '\n' !in e.path && '\n' !in e.priority
    requires e.lastmod.Some? ==> '\n' !in e.lastmod.value
    ensures forall k :: 0 <= k < 5 ==> '\n' !in ElementLines(siteUrl, e)[k]
    ensures multiset(ElementLines(siteUrl, e))["  <url>"] == 1
  {
    LastmodSingleLine(e.lastmod);
    ElementLinesNoBreak(siteUrl, e);
    ElementLinesOneOpen(siteUrl, e);
  }

  lemma LastmodSingleLine(lastmod: Option<string>)
    requires lastmod.Some? ==> '\n' !in lastmod.value
    ensures '\n' !in LastmodText(lastmod)
  {
    if Truthy(lastmod) {
      assert '\n' !in "<lastmod>" && '\n' !in "</lastmod>";
    }
  }

  lemma ElementLinesNoBreak(siteUrl: string, e: SitemapEntry)
    requires '\n' !in siteUrl && '\n' !in e.path && '\n' !in e.priority && '\n' !in LastmodText(e.lastmod)
    ensures forall k :: 0 <= k < 5 ==> '\n' !in ElementLines(siteUrl, e)[k]
  {
    var l := ElementLines(siteUrl, e);
    assert '\n' !in "  <url>" && '\n' !in "  </url>" && '\n' !in "    ";
    assert '\n' !in "    <loc>" && '\n' !in "</loc>";
    assert '\n' !in "    <priority>" && '\n' !in "</priority>";
    assert '\n' !in l[0] && '\n' !in l[1] && '\n' !in l[2] && '\n' !in l[3] && '\n' !in l[4];
  }

  lemma ElementLinesOneOpen(siteUrl: string, e: SitemapEntry)
    ensures multiset(ElementLines(siteUrl, e))["  <url>"] == 1
  {
    var l := ElementLines(siteUrl, e);
    assert "  <url>"[2] == '<';
    assert l[1][2] == ' ' && l[2][2] == ' ' && l[3][2] == ' ';
    assert "  <url>"[3] == 'u' && l[4][3] == '/';
  }

  lemma {:induction false} EntryLinesSingle(siteUrl: string, entries: seq<SitemapEntry>)
    requires SingleLineEntries(siteUrl, entries)
    ensures forall k :: 0 <= k < |EntryLines(siteUrl, entries)| ==> '\n' !in EntryLines(siteUrl, entries)[k]
    ensures multiset(EntryLines(siteUrl, entries))["  <url>"] == |entries|
    decreases |entries|
  {
    if entries != [] {
      var e := entries[0];
      assert e.lastmod.Some? ==> '\n' !in e.lastmod.value;
      ElementLinesSingle(siteUrl, e);
      EntryLinesSingle(siteUrl, entries[1..]);
      var l := ElementLines(siteUrl, e);
      var r := EntryLines(siteUrl, entries[1..]);
      assert EntryLines(siteUrl, entries) == l + r;
      NoBreakAppend(l, r);
    }
  }

  lemma NoBreakAppend(l: seq<string>, r: seq<string>)
    requires forall k :: 0 <= k < |l| ==> '\n' !in l[k]
    requires forall k :: 0 <= k < |r| ==> '\n' !in r[k]
    ensures forall k :: 0 <= k < |l + r| ==> '\n' !in (l + r)[k]
  {
    forall k | 0 <= k < |l + r| ensures '\n' !in (l + r)[k] {
      if k >= |l| { assert (l + r)[k] == r[k - |l|]; } else { assert (l + r)[k] == l[k]; }
    }
  }

  /** Lines framed by two header lines and a footer line split back into those lines. */
  lemma FramedLines(h1: string, h2: string, body: seq<string>, footer: string)
    requires '\n' !in h1 && '\n' !in h2 && '\n' !in footer
    requires body != [] && forall k :: 0 <= k < |body| ==> '\n' !in body[k]
    ensures Split(h1 + "\n" + h2 + "\n" + Join(body, "\n") + "\n" + footer, '\n')
         == [h1, h2] + body + [footer]
  {
    var head := [h1, h2] + body;
    var lines := head + [footer];
    JoinAppend([h1, h2], body, "\n");
    JoinAppend(head, [footer], "\n");
    assert [h1, h2][1..] == [h2];
    assert Join([h1, h2], "\n") == h1 + "\n" + h2;
    assert Join([footer], "\n") == footer;
    assert Join(lines, "\n") == h1 + "\n" + h2 + "\n" + Join(body, "\n") + "\n" + footer;
    forall k | 0 <= k < |lines| ensures '\n' !in lines[k] {
      if 2 <= k < 2 + |body| {
        assert lines[k] == body[k - 2];
      }
    }
    SplitJoin(lines, '\n');
  }

  /**
   * Read line by line, the sitemap is the XML declaration, the `<urlset>`
   * opening, five lines per entry in order, and the closing tag: it holds
   * exactly one `<url>` line per entry.
   */
  lemma SitemapLines(siteUrl: string, entries: seq<SitemapEntry>)
    requires entries != []
    requires SingleLineEntries(siteUrl, entries)
    ensures Split(SitemapXml(siteUrl, entries), '\n')
         == [XmlDeclaration, UrlsetOpen] + EntryLines(siteUrl, entries) + [UrlsetClose]
    ensures multiset(Split(SitemapXml(siteUrl, entries), '\n'))["  <url>"] == |entries|
  {
    var body := EntryLines(siteUrl, entries);
    ElementsJoin(siteUrl, entries);
    EntryLinesSingle(siteUrl, entries);
    FrameFacts();
    FramedLines(XmlDeclaration, UrlsetOpen, body, UrlsetClose);
    FramedCount(XmlDeclaration, UrlsetOpen, body, UrlsetClose, "  <url>");
  }

  /** The fixed lines of the sitemap hold no line break and are not `<url>` lines. */
  lemma FrameFacts()
    ensures '\n' !in XmlDeclaration && '\n' !in UrlsetOpen && '\n' !in UrlsetClose
    ensures XmlDeclaration != "  <url>" && UrlsetOpen != "  <url>" && UrlsetClose != "  <url>"
  {
    DeclarationSingleLine();
    UrlsetOpenSingleLine();
    assert "  <url>"[0] == ' ';
    assert XmlDeclaration[0] == '<' && UrlsetOpen[0] == '<' && UrlsetClose[0] == '<';
  }

  lemma DeclarationSingleLine()
    ensures '\n' !in XmlDeclaration
  {
  }

  lemma UrlsetOpenSingleLine()
    ensures '\n' !in UrlsetOpen
  {
  }

  lemma FramedCount(h1: string, h2: string, body: seq<string>, footer: string, x: string)
    requires h1 != x && h2 != x && footer != x
    ensures multiset([h1, h2] + body + [footer])[x] == multiset(body)[x]
  {
    assert multiset([h1, h2] + body + [footer]) == multiset([h1, h2]) + multiset(body) + multiset([footer]);
  }

  /**
   * The built sitemap is the declaration, the `<urlset>` opening, five
   * lines per entry (static routes first, then the posts) and the closing
   * tag, so it has 4 + |posts| `<url>` elements.
   */
  lemma SitemapUrlCount(site: Site, posts: seq<Post>)
    requires '\n' !in site.url
    requires forall i :: 0 <= i < |posts| ==> '\n' !in posts[i].url && '\n' !in posts[i].date
    ensures Split(GenerateSitemap(site, posts), '\n')
         == [XmlDeclaration, UrlsetOpen] + EntryLines(site.url, SitemapEntries(posts)) + [UrlsetClose]
    ensures multiset(Split(GenerateSitemap(site, posts), '\n'))["  <url>"] == 4 + |posts|
  {
    SitemapEntriesShape(posts);
    var entries := SitemapEntries(posts);
    forall i | 0 <= i < |entries|
      ensures '\n' !in entries[i].path && '\n' !in entries[i].priority
      ensures entries[i].lastmod.Some? ==> '\n' !in entries[i].lastmod.value
    {
      if i >= 4 {
        assert entries[i] == PostEntry(posts[i - 4]);
      } else {
        assert entries[i] == StaticEntries[i];
      }
    }
    SitemapLines(site.url, entries);
  }

  // ---------------------------------------------------------------------
  // Index page

  /** The preview fragment of one post (the template literal in `generateBlogIndex`). */
  function PreviewFragment(p: Post, formatDate: string -> string): string {
    "\n                <article class=\"blog-post-preview\">"
    + "\n                    <h3 class=\"post-title\">"
    + "\n                        <a href=\"" + p.url + "\">" + p.title + "</a>"
    + "\n                    </h3>"
    + "\n                    <div class=\"post-meta\">"
    + "\n                        <span class=\"post-date\">" + formatDate(p.date) + "</span>"
    + "\n                        <span class=\"post-author\">by " + p.author + "</span>"
    + "\n                    </div>"
    + "\n                    <div class=\"post-preview\">"
    + "\n                        <p>" + p.description + "</p>"
    + "\n                    </div>"
    + "\n                    <div class=\"post-actions\">"
    + "\n                        <a href=\"" + p.url + "\" class=\"read-more-btn\">Read More \U{2192}</a>"
    + "\n                    </div>"
    + "\n                </article>"
    + "\n            "
  }

  /** `posts.map(...).join('')`. */
  function PostPreviews(posts: seq<Post>, formatDate: string -> string): string {
    Concat(seq(|posts|, i requires 0 <= i < |posts| => PreviewFragment(posts[i], formatDate)))
  }

  /** Previews are concatenated in list order, with nothing between them. */
  lemma PreviewsAppend(posts: seq<Post>, p: Post, formatDate: string -> string)
    ensures PostPreviews(posts + [p], formatDate) == PostPreviews(posts, formatDate) + PreviewFragment(p, formatDate)
  {
    var all := posts + [p];
    var fragments := seq(|posts|, i requires 0 <= i < |posts| => PreviewFragment(posts[i], formatDate));
    assert seq(|all|, i requires 0 <= i < |all| => PreviewFragment(all[i], formatDate))
        == fragments + [PreviewFragment(p, formatDate)];
    ConcatAppend(fragments, PreviewFragment(p, formatDate));
  }

  /** No posts, no previews. */
  lemma PreviewsEmpty(formatDate: string -> string)
    ensures PostPreviews([], formatDate) == ""
  {
  }

  /** The replacements `generateBlogIndex` passes, in order. */
  function IndexReplacements(site: Site, previews: string, count: nat): seq<(string, Value)> {
    [ ("SITE_NAME", Str(site.name)),
      ("SITE_URL", Str(site.url)),
      ("SITE_DESCRIPTION", Str(site.description)),
      ("POST_PREVIEWS", Str(previews)),
      ("POSTS_COUNT", Number(count)) ]
  }

  /** The index page text, for the index template. */
  function BlogIndexPage(template: string, site: Site, posts: seq<Post>, formatDate: string -> string): string {
    Substitute(template, IndexReplacements(site, PostPreviews(posts, formatDate), |posts|))
  }

  // ---------------------------------------------------------------------
  // Structured data

  datatype Organization = Organization(kind: string, name: string, url: Option<string>)

  datatype WebPage = WebPage(kind: string, id: string)

  /** The schema.org BlogPosting object of a post page, before serialisation. */
  datatype BlogPosting = BlogPosting(
    context: string,
    kind: string,
    headline: string,
    description: string,
    author: Organization,
    publisher: Organization,
    datePublished: string,
    dateModified: string,
    url: string,
    mainEntityOfPage: WebPage,
    image: Option<string>)

  /**
   * `generateStructuredData(post)`: published and modified are both the
   * post's date, the page refers to itself by its absolute URL, and an image
   * is included exactly when the post has one.
   */
  function GenerateStructuredData(site: Site, post: Post): (d: BlogPosting)
    ensures d.datePublished == d.dateModified == post.date
    ensures d.url == d.mainEntityOfPage.id == site.url + post.url
    ensures d.publisher.url == Some(site.url) && d.author.url == None
    ensures d.image.Some? <==> Truthy(post.image)
    ensures d.image.Some? ==> d.image == post.image
  {
    BlogPosting(
      "https://schema.org", "BlogPosting",
      post.title, post.description,
      Organization("Organization", post.author, None),
      Organization("Organization", site.name, Some(site.url)),
      post.date, post.date,
      site.url + post.url,
      WebPage("WebPage", site.url + post.url),
      if Truthy(post.image) then post.image else None)
  }

  // ---------------------------------------------------------------------
  // Post pages

  /** The replacements `generatePostPages` passes for one post, in order. */
  function PostPageReplacements(
    site: Site, post: Post, contentHtml: string, displayDate: string, structuredData: string)
    : seq<(string, Value)>
  {
    [ ("SITE_NAME", Str(site.name)),
      ("SITE_URL", Str(site.url)),
      ("POST_TITLE", Str(post.title)),
      ("POST_DESCRIPTION", Str(post.description)),
      ("POST_AUTHOR", Str(post.author)),
      ("POST_DATE", Str(displayDate)),
      ("POST_DATE_ISO", Str(post.date)),
      ("POST_URL", Str(site.url + post.url)),
      ("POST_CONTENT", Str(contentHtml)),
      ("POST_TAGS", Str(Join(post.tags, ", "))),
      ("BREADCRUMBS", Str(GenerateBreadcrumbs(PostBreadcrumbs(post.title, post.url)))),
      ("STRUCTURED_DATA", Str(structuredData)) ]
  }

  /**
   * The text of one post page. Markdown rendering, date display and JSON
   * serialisation are collaborators passed in as functions.
   */
  function PostPage(
    template: string, site: Site, post: Post,
    renderMarkdown: string -> string, formatDate: string -> string, serialize: BlogPosting -> string)
    : string
  {
    Substitute(template, PostPageReplacements(
      site, post, renderMarkdown(post.content), formatDate(post.date),
      serialize(GenerateStructuredData(site, post))))
  }

  /** The directory of a post page below the blog output directory: year, month, day, slug. */
  function PostDirectory(post: Post): seq<string> {
    var parts := Split(post.date, '-');
    [Part(parts, 0), Part(parts, 1), Part(parts, 2), post.slug]
  }

  /** A post's page lives where its URL points: `/blog/` followed by its directory. */
  lemma PostDirectoryMatchesUrl(post: Post)
    requires ValidPost(post)
    ensures post.url == "/blog/" + Join(PostDirectory(post), "/") + "/"
  {
    var d := PostDirectory(post);
    assert d[1..][1..][1..] == [post.slug];
    assert Join(d[1..][1..], "/") == d[2] + "/" + post.slug;
    assert Join(d[1..], "/") == d[1] + "/" + (d[2] + "/" + post.slug);
    assert Join(d, "/") == d[0] + "/" + (d[1] + "/" + (d[2] + "/" + post.slug));
  }

  /** The keys of the index page. */
  lemma SiteKeysValid()
    ensures IsPlaceholderKey("SITE_NAME")
    ensures IsPlaceholderKey("SITE_URL")
    ensures IsPlaceholderKey("SITE_DESCRIPTION")
    ensures IsPlaceholderKey("POST_PREVIEWS")
    ensures IsPlaceholderKey("POSTS_COUNT")
  {
    assert IsPlaceholderKey("SITE_NAME");
    assert IsPlaceholderKey("SITE_URL");
    assert IsPlaceholderKey("SITE_DESCRIPTION");
    assert IsPlaceholderKey("POST_PREVIEWS");
    assert IsPlaceholderKey("POSTS_COUNT");
  }

  /** The keys of a post page that describe the post. */
  lemma PostKeysValid()
    ensures IsPlaceholderKey("POST_TITLE")
    ensures IsPlaceholderKey("POST_DESCRIPTION")
    ensures IsPlaceholderKey("POST_AUTHOR")
    ensures IsPlaceholderKey("POST_DATE")
    ensures IsPlaceholderKey("POST_DATE_ISO")
  {
    assert IsPlaceholderKey("POST_TITLE");
    assert IsPlaceholderKey("POST_DESCRIPTION");
    assert IsPlaceholderKey("POST_AUTHOR");
    assert IsPlaceholderKey("POST_DATE");
    assert IsPlaceholderKey("POST_DATE_ISO");
  }

  /** The keys of a post page that carry its rendered parts. */
  lemma PageKeysValid()
    ensures IsPlaceholderKey("POST_URL")
    ensures IsPlaceholderKey("POST_CONTENT")
    ensures IsPlaceholderKey("POST_TAGS")
    ensures IsPlaceholderKey("BREADCRUMBS")
    ensures IsPlaceholderKey("STRUCTURED_DATA")
  {
    assert IsPlaceholderKey("POST_URL");
    assert IsPlaceholderKey("POST_CONTENT");
    assert IsPlaceholderKey("POST_TAGS");
    assert IsPlaceholderKey("BREADCRUMBS");
    assert IsPlaceholderKey("STRUCTURED_DATA");
  }

  /** The post page replacements use placeholder keys only. */
  lemma PostPageKeysValid(
    site: Site, post: Post, contentHtml: string, displayDate: string, structuredData: string)
    ensures forall i :: 0 <= i < 12 ==>
      IsPlaceholderKey(PostPageReplacements(site, post, contentHtml, displayDate, structuredData)[i].0)
  {
    SiteKeysValid();
    PostKeysValid();
    PageKeysValid();
  }

  /** The index replacements use placeholder keys only. */
  lemma IndexKeysValid(site: Site, previews: string, count: nat)
    ensures forall i :: 0 <= i < 5 ==> IsPlaceholderKey(IndexReplacements(site, previews, count)[i].0)
  {
    SiteKeysValid();
  }
}
