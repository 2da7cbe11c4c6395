/**
 * The `BlogBuilder` object: it owns the site settings and the list of
 * loaded posts, fills the list in `loadPosts` and, in `build`, writes a page
 * per post, the blog index and the sitemap. File system access is modelled
 * by values: the directory listing comes in as source files, templates as
 * strings, and the pages written come out as output files.
 */
module Builder {
  import opened Wrappers
  import opened Text
  import opened BlogPosts
  import opened Templates
  import opened SiteOutput

  /** A file the build writes: its path below the public site directory and its text. */
  datatype OutputFile = OutputFile(path: seq<string>, text: string)

  /** Markdown rendering, date display and JSON serialisation, supplied by the caller. */
  datatype Collaborators = Collaborators(
    renderMarkdown: string -> string,
    formatDate: string -> string,
    serialize: BlogPosting -> string)

  /** The page of one post, at `blog/<year>/<month>/<day>/<slug>/index.html`. */
  function PostPageFile(site: Site, post: Post, template: string, c: Collaborators): OutputFile {
    OutputFile(["blog"] + PostDirectory(post) + ["index.html"],
      PostPage(template, site, post, c.renderMarkdown, c.formatDate, c.serialize))
  }

  function PostPageFiles(site: Site, posts: seq<Post>, template: string, c: Collaborators): (files: seq<OutputFile>)
    ensures |files| == |posts|
  {
    seq(|posts|, i requires 0 <= i < |posts| => PostPageFile(site, posts[i], template, c))
  }

  function IndexFile(site: Site, posts: seq<Post>, template: string, c: Collaborators): OutputFile {
    OutputFile(["blog", "index.html"], BlogIndexPage(template, site, posts, c.formatDate))
  }

  function SitemapFile(site: Site, posts: seq<Post>): OutputFile {
    OutputFile(["sitemap.xml"], GenerateSitemap(site, posts))
  }

  /** What `build` writes for a loaded post list: nothing at all when it is empty. */
  function SiteFiles(site: Site, posts: seq<Post>, postTemplate: string, indexTemplate: string, c: Collaborators)
    : seq<OutputFile>
  {
    if posts == [] then []
    else PostPageFiles(site, posts, postTemplate, c) + [IndexFile(site, posts, indexTemplate, c), SitemapFile(site, posts)]
  }

  /**
   * A non-empty build writes one page per post, in newest-first order, each
   * where the post's URL points, then the index and the sitemap; the
   * sitemap lists the four static routes and every post.
   */
  lemma SiteFilesShape(site: Site, posts: seq<Post>, postTemplate: string, indexTemplate: string, c: Collaborators)
    requires posts != []
    requires '\n' !in site.url
    requires forall i :: 0 <= i < |posts| ==> ValidPost(posts[i])
    ensures var files := SiteFiles(site, posts, postTemplate, indexTemplate, c);
      && |files| == |posts| + 2
      && (forall i :: 0 <= i < |posts| ==>
            files[i].path[0] == "blog" && files[i].path[5] == "index.html"
            && posts[i].url == "/blog/" + Join(files[i].path[1..5], "/") + "/")
      && files[|posts|].path == ["blog", "index.html"]
      && files[|posts| + 1].path == ["sitemap.xml"]
      && multiset(Split(files[|posts| + 1].text, '\n'))["  <url>"] == 4 + |posts|
  {
    var files := SiteFiles(site, posts, postTemplate, indexTemplate, c);
    forall i | 0 <= i < |posts|
      ensures files[i].path[0] == "blog" && files[i].path[5] == "index.html"
      ensures posts[i].url == "/blog/" + Join(files[i].path[1..5], "/") + "/"
    {
      assert files[i] == PostPageFile(site, posts[i], postTemplate, c);
      PostPageWhereUrlPoints(site, posts[i], postTemplate, c);
    }
    SitemapOfValidPosts(site, posts);
  }

  lemma SitemapOfValidPosts(site: Site, posts: seq<Post>)
    requires '\n' !in site.url
    requires forall i :: 0 <= i < |posts| ==> ValidPost(posts[i])
    ensures multiset(Split(GenerateSitemap(site, posts), '\n'))["  <url>"] == 4 + |posts|
  {
    forall i | 0 <= i < |posts| ensures '\n' !in posts[i].url && '\n' !in posts[i].date {
      ValidPostSingleLine(posts[i]);
    }
    SitemapUrlCount(site, posts);
  }

  /** A well-formed post's date and URL hold no line break. */
  lemma ValidPostSingleLine(p: Post)
    requires ValidPost(p)
    ensures '\n' !in p.url && '\n' !in p.date
  {
    DateSingleLine(p.date);
    SlugSingleLine(p.slug);
    PostUrlOfDate(p.date, p.slug);
  }

  lemma DateSingleLine(d: string)
    requires IsDateString(d)
    ensures '\n' !in d && '\n' !in d[..4] && '\n' !in d[5..7] && '\n' !in d[8..]
  {
    assert forall k :: 0 <= k < |d| ==> d[k] != '\n';
  }

  lemma SlugSingleLine(s: string)
    requires IsSlug(s)
    ensures '\n' !in s
  {
    assert IsLineTerminator('\n');
  }

  /** One post's page lies in `blog/`, in the directory its URL names. */
  lemma PostPageWhereUrlPoints(site: Site, post: Post, template: string, c: Collaborators)
    requires ValidPost(post)
    ensures var path := PostPageFile(site, post, template, c).path;
      && |path| == 6 && path[0] == "blog" && path[5] == "index.html"
      && post.url == "/blog/" + Join(path[1..5], "/") + "/"
  {
    var path := PostPageFile(site, post, template, c).path;
    assert path[1..5] == PostDirectory(post);
    PostDirectoryMatchesUrl(post);
  }

  /**
   * The body of the loop in `loadPosts` for one directory entry: a post
   * exactly for a `.md` file with a dated name. The description is only
   * extracted from the body when the metadata has none.
   */
  method ParsePost(f: SourceFile) returns (post: Option<Post>)
    ensures post == ParseSourceFile(f)
  {
    post := None;
    if EndsWith(f.name, ".md") {
      var m := MatchFilename(f.name);
      if m.Some? {
        var description;
        if Truthy(f.data.description) {
          description := f.data.description.value;
        } else {
          description := ExtractDescription(f.body);
        }
        post := Some(PostRecord(f.name, m.value, f.data, f.body, description));
      }
    }
  }

  /** The list after one more turn of the loading loop. */
  lemma PushStep(prev: seq<Post>, files: seq<SourceFile>, i: nat, post: Option<Post>)
    requires i < |files| && post == ParseSourceFile(files[i])
    ensures post.Some? ==> prev + LoadedPosts(files[..i]) + [post.value] == prev + LoadedPosts(files[..i + 1])
    ensures post.None? ==> prev + LoadedPosts(files[..i]) == prev + LoadedPosts(files[..i + 1])
  {
    LoadedPostsStep(files, i);
    if post.Some? {
      AppendAssoc(prev, LoadedPosts(files[..i]), [post.value]);
    } else {
      assert LoadedPosts(files[..i + 1]) == LoadedPosts(files[..i]) + [];
    }
  }

  class BlogBuilder {
    const site: Site
    var posts: seq<Post>

    /** A builder for the default site with no posts loaded. */
    constructor()
      ensures site == DefaultSite && posts == []
    {
      site := DefaultSite;
      posts := [];
    }

    /**
     * `loadPosts()`: pushes a post for every `.md` file whose name matches
     * the dated pattern, then sorts the whole list newest first.
     */
    method LoadPosts(files: seq<SourceFile>)
      modifies this
      ensures posts == SortNewestFirst(old(posts) + LoadedPosts(files))
      ensures NewestFirst(posts)
      ensures multiset(posts) == multiset(old(posts)) + multiset(LoadedPosts(files))
    {
      PushPosts(files);
      SortPosts();
    }

    /** The loop of `loadPosts()`: a push for every post-shaped directory entry, in directory order. */
    method PushPosts(files: seq<SourceFile>)
      modifies this
      ensures posts == old(posts) + LoadedPosts(files)
    {
      var i := 0;
      while i < |files|
        invariant 0 <= i <= |files|
        invariant posts == old(posts) + LoadedPosts(files[..i])
      {
        var post := ParsePost(files[i]);
        PushStep(old(posts), files, i, post);
        if post.Some? {
          posts := posts + [post.value];
        }
        i := i + 1;
      }
      assert files[..i] == files;
    }

    /** `this.posts.sort(...)`: newest first, equal dates in their loading order. */
    method SortPosts()
      modifies this
      ensures posts == SortNewestFirst(old(posts))
      ensures NewestFirst(posts)
      ensures multiset(posts) == multiset(old(posts))
    {
      SortNewestFirstSorted(posts);
      posts := SortNewestFirst(posts);
    }

    /** `generatePostPages()`: one page per loaded post, in list order. */
    method GeneratePostPages(template: string, c: Collaborators) returns (pages: seq<OutputFile>)
      ensures pages == PostPageFiles(site, posts, template, c)
    {
      pages := [];
      var i := 0;
      while i < |posts|
        invariant 0 <= i <= |posts|
        invariant pages == PostPageFiles(site, posts[..i], template, c)
      {
        var page := RenderPostPage(posts[i], template, c);
        assert PostPageFiles(site, posts[..i + 1], template, c)
            == PostPageFiles(site, posts[..i], template, c) + [page];
        pages := pages + [page];
        i := i + 1;
      }
      assert posts[..i] == posts;
    }

    /** One iteration of `generatePostPages`: the directory from the date and slug, the page from the template. */
    method RenderPostPage(post: Post, template: string, c: Collaborators) returns (page: OutputFile)
      ensures page == PostPageFile(site, post, template, c)
    {
      var parts := Split(post.date, '-');
      var dir := ["blog", Part(parts, 0), Part(parts, 1), Part(parts, 2), post.slug];
      var contentHtml := c.renderMarkdown(post.content);
      var structuredData := c.serialize(GenerateStructuredData(site, post));
      PostPageKeysValid(site, post, contentHtml, c.formatDate(post.date), structuredData);
      var html := ReplacePlaceholders(template,
        PostPageReplacements(site, post, contentHtml, c.formatDate(post.date), structuredData));
      page := OutputFile(dir + ["index.html"], html);
    }

    /** `generateBlogIndex()`: the index template filled with the previews and the post count. */
    method GenerateBlogIndex(template: string, c: Collaborators) returns (index: OutputFile)
      ensures index == IndexFile(site, posts, template, c)
    {
      var previews := PostPreviews(posts, c.formatDate);
      IndexKeysValid(site, previews, |posts|);
      var html := ReplacePlaceholders(template, IndexReplacements(site, previews, |posts|));
      index := OutputFile(["blog", "index.html"], html);
    }

    /** `generateSitemap()`: the static routes and the posts as sitemap XML. */
    method GenerateSitemapFile() returns (sitemap: OutputFile)
      ensures sitemap == SitemapFile(site, posts)
    {
      var urls := CollectSitemapEntries(posts);
      sitemap := OutputFile(["sitemap.xml"], SitemapXml(site.url, urls));
    }

    /**
     * `build()`: loads the posts and, unless none were found, writes the
     * post pages, the blog index and the sitemap, in that order.
     */
    method Build(files: seq<SourceFile>, postTemplate: string, indexTemplate: string, c: Collaborators)
      returns (written: seq<OutputFile>)
      modifies this
      ensures posts == SortNewestFirst(old(posts) + LoadedPosts(files))
      ensures written == SiteFiles(site, posts, postTemplate, indexTemplate, c)
      ensures written == [] <==> posts == []
    {
      LoadPosts(files);
      if |posts| == 0 {
        written := [];
        return;
      }
      var pages := GeneratePostPages(postTemplate, c);
      var index := GenerateBlogIndex(indexTemplate, c);
      var sitemap := GenerateSitemapFile();
      written := pages + [index, sitemap];
    }
  }

  /** A fresh builder over a directory without matching posts writes nothing. */
  lemma NothingToBuild(files: seq<SourceFile>)
    requires forall i :: 0 <= i < |files| ==> MatchFilename(files[i].name).None?
    ensures SortNewestFirst([] + LoadedPosts(files)) == []
  {
    LoadedPostsNone(files);
  }
}
