/**
 * The post records of the blog builder (`BlogBuilder.loadPosts` and the
 * helpers it calls): which source file names are posts, how a post's date,
 * slug, URL, title and description are derived, how missing metadata is
 * defaulted, and the newest-first order of the post list.
 */
module BlogPosts {
  import opened Wrappers
  import opened Text

  // ---------------------------------------------------------------------
  // Source file names: /^(\d{4}-\d{2}-\d{2})-(.+)\.md$/

  /** `YYYY-MM-DD` made of decimal digits (the `\d{4}-\d{2}-\d{2}` group). */
  predicate IsDateString(d: string) {
    |d| == 10 && d[4] == '-' && d[7] == '-'
    && forall i :: 0 <= i < 10 && i != 4 && i != 7 ==> IsDigit(d[i])
  }

  /** What the `(.+)` group accepts: at least one character, none a line terminator. */
  predicate IsSlug(s: string) {
    s != [] && forall i :: 0 <= i < |s| ==> !IsLineTerminator(s[i])
  }

  datatype FilenameMatch = FilenameMatch(date: string, slug: string)

  /**
   * The match of the post file-name pattern: a name is a post exactly when
   * it is a date, a hyphen, a slug and `.md`; the slug is everything between
   * the hyphen after the date and the final `.md`.
   */
  function MatchFilename(name: string): (m: Option<FilenameMatch>)
    ensures m.Some? ==>
      && IsDateString(m.value.date)
      && IsSlug(m.value.slug)
      && name == m.value.date + "-" + m.value.slug + ".md"
    ensures m.Some? ==> EndsWith(name, ".md")
  {
    if |name| >= 15 && IsDateString(name[..10]) && name[10] == '-'
       && name[|name| - 3..] == ".md" && IsSlug(name[11..|name| - 3])
    then
      var m := FilenameMatch(name[..10], name[11..|name| - 3]);
      assert name == m.date + "-" + m.slug + ".md";
      Some(m)
    else None
  }

  /** Every date-slug-`.md` name matches, with that date and that slug. */
  lemma MatchFilenameComplete(date: string, slug: string)
    requires IsDateString(date) && IsSlug(slug)
    ensures MatchFilename(date + "-" + slug + ".md") == Some(FilenameMatch(date, slug))
  {
    var name := date + "-" + slug + ".md";
    assert name[..10] == date;
    assert name[11..|name| - 3] == slug;
    assert name[|name| - 3..] == ".md";
  }

  // ---------------------------------------------------------------------
  // Post URL

  /** Destructuring `[year, month, day] = parts`: a missing element reads as `undefined`. */
  function Part(parts: seq<string>, i: nat): string {
    if i < |parts| then parts[i] else "undefined"
  }

  /** `generatePostUrl(date, slug)`. */
  function GeneratePostUrl(date: string, slug: string): (url: string)
    ensures StartsWith(url, "/blog/") && EndsWith(url, slug + "/")
  {
    var parts := Split(date, '-');
    var url := "/blog/" + Part(parts, 0) + "/" + Part(parts, 1) + "/" + Part(parts, 2) + "/" + slug + "/";
    assert url[|url| - |slug + "/"|..] == slug + "/";
    url
  }

  /** For a well-formed date the URL is `/blog/YYYY/MM/DD/<slug>/`. */
  lemma PostUrlOfDate(date: string, slug: string)
    requires IsDateString(date)
    ensures GeneratePostUrl(date, slug)
         == "/blog/" + date[..4] + "/" + date[5..7] + "/" + date[8..] + "/" + slug + "/"
  {
    var y, m, d := date[..4], date[5..7], date[8..];
    assert '-' !in y && '-' !in m && '-' !in d by {
      assert forall i :: 0 <= i < 4 ==> y[i] == date[i];
      assert forall i :: 0 <= i < 2 ==> m[i] == date[5 + i] && d[i] == date[8 + i];
    }
    assert date == y + ['-'] + (m + ['-'] + d);
    SplitAtSeparator(y, m + ['-'] + d, '-');
    SplitAtSeparator(m, d, '-');
    SplitAfterPlain(d, "", '-');
    assert d + "" == d;
    assert Split(date, '-') == [y, m, d];
  }

  // ---------------------------------------------------------------------
  // Title from the slug

  /** `s.replace(/\b\w/g, l => l.toUpperCase())`, scanning with "the previous character was a word character". */
  function CapitalizeWords(s: string, afterWord: bool): (r: string)
    ensures |r| == |s|
  {
    if s == [] then []
    else
      [if IsWordChar(s[0]) && !afterWord then ToUpper(s[0]) else s[0]]
      + CapitalizeWords(s[1..], IsWordChar(s[0]))
  }

  /** `formatTitle(slug)`: hyphens to spaces, then the first letter of each word upper-cased. */
  function FormatTitle(slug: string): (title: string)
  {
    CapitalizeWords(ReplaceAll(slug, "-", " "), false)
  }

  /** A word character at `i` with no word character just before it: a match of `\b\w`. */
  predicate StartsWord(s: string, i: int)
    requires 0 <= i < |s|
  {
    IsWordChar(s[i]) && (i == 0 || !IsWordChar(s[i - 1]))
  }

  lemma {:induction false} CapitalizeWordsAt(s: string, afterWord: bool, i: int)
    requires 0 <= i < |s|
    ensures CapitalizeWords(s, afterWord)[i]
         == if IsWordChar(s[i]) && (if i == 0 then !afterWord else !IsWordChar(s[i - 1]))
            then ToUpper(s[i]) else s[i]
    decreases |s|
  {
    if i > 0 {
      CapitalizeWordsAt(s[1..], IsWordChar(s[0]), i - 1);
      assert s[1..][i - 1] == s[i];
      if i > 1 {
        assert s[1..][i - 2] == s[i - 1];
      }
    }
  }

  /**
   * The title has the slug's length; each `-` becomes a space, each word
   * character that starts a word is upper-cased, and nothing else changes.
   */
  lemma FormatTitleAt(slug: string)
    ensures |FormatTitle(slug)| == |slug|
    ensures forall i :: 0 <= i < |slug| ==>
      FormatTitle(slug)[i]
      == if slug[i] == '-' then ' '
         else if StartsWord(slug, i) then ToUpper(slug[i])
         else slug[i]
  {
    var spaced := ReplaceAll(slug, "-", " ");
    ReplaceAllChar(slug, "-", " ");
    forall i | 0 <= i < |slug|
      ensures FormatTitle(slug)[i]
           == if slug[i] == '-' then ' '
              else if StartsWord(slug, i) then ToUpper(slug[i])
              else slug[i]
    {
      CapitalizeWordsAt(spaced, false, i);
      if i > 0 {
        assert IsWordChar(spaced[i - 1]) == IsWordChar(slug[i - 1]);
      }
    }
  }

  /** `my-first-post` gives `My First Post`. */
  lemma FormatTitleExample(slug: string)
    requires slug == "my-first-post"
    ensures FormatTitle(slug) == "My First Post"
  {
    FormatTitleAt(slug);
    var t := FormatTitle(slug);
    assert StartsWord(slug, 0) && !StartsWord(slug, 1) && StartsWord(slug, 3);
    assert !StartsWord(slug, 4) && !StartsWord(slug, 5) && !StartsWord(slug, 6);
    assert !StartsWord(slug, 7) && StartsWord(slug, 9) && !StartsWord(slug, 10);
    assert !StartsWord(slug, 11) && !StartsWord(slug, 12);
  }

  // ---------------------------------------------------------------------
  // Description from the body

  // Written in short pieces so that the verifier can see the characters of the text.
  const DescriptionFallback := "Read more about " + "cybersecurity insights " + "and updates."

  lemma FallbackLength()
    ensures |DescriptionFallback| == 51
  {
  }

  /** A trimmed line the description may be taken from: not empty, not a heading. */
  predicate IsUsableLine(t: string) {
    t != [] && t[0] != '#'
  }

  /** Lines over 160 characters are cut to 157 and given an ellipsis. */
  function Truncate(t: string): (r: string)
    ensures |r| <= 160 && (t != [] ==> r != [])
    ensures |t| <= 160 ==> r == t
    ensures |t| > 160 ==> |r| == 160 && r[..157] == t[..157] && r[157..] == "..."
  {
    if |t| > 160 then t[..157] + "..." else t
  }

  /** The first line that is usable once trimmed, trimmed. */
  function FirstUsableLine(lines: seq<string>): (t: Option<string>)
    ensures t.Some? ==> IsUsableLine(t.value)
  {
    if lines == [] then None
    else if IsUsableLine(Trim(lines[0])) then Some(Trim(lines[0]))
    else FirstUsableLine(lines[1..])
  }

  /** What `extractDescription(content)` returns. */
  function DescriptionOf(content: string): (d: string)
    ensures |d| <= 160 && d != []
  {
    var first := FirstUsableLine(Split(content, '\n'));
    if first.Some? then Truncate(first.value)
    else
      FallbackLength();
      DescriptionFallback
  }

  /** The first usable line is found at the first index whose trimmed line is usable. */
  lemma {:induction false} FirstUsableLineAt(lines: seq<string>, k: int)
    requires 0 <= k < |lines| && IsUsableLine(Trim(lines[k]))
    requires forall j :: 0 <= j < k ==> !IsUsableLine(Trim(lines[j]))
    ensures FirstUsableLine(lines) == Some(Trim(lines[k]))
    decreases k
  {
    if k > 0 {
      assert !IsUsableLine(Trim(lines[0]));
      forall j | 0 <= j < k - 1 ensures !IsUsableLine(Trim(lines[1..][j])) {
        assert lines[1..][j] == lines[j + 1];
      }
      assert lines[1..][k - 1] == lines[k];
      FirstUsableLineAt(lines[1..], k - 1);
    }
  }

  /** Without a usable line there is none to find. */
  lemma {:induction false} NoUsableLine(lines: seq<string>)
    requires forall j :: 0 <= j < |lines| ==> !IsUsableLine(Trim(lines[j]))
    ensures FirstUsableLine(lines) == None
    decreases |lines|
  {
    if lines != [] {
      NoUsableLine(lines[1..]);
    }
  }

  /** The description is the first usable body line, trimmed and cut to 160 characters. */
  lemma DescriptionFromLine(content: string, k: int)
    requires var lines := Split(content, '\n');
      && 0 <= k < |lines| && IsUsableLine(Trim(lines[k]))
      && forall j :: 0 <= j < k ==> !IsUsableLine(Trim(lines[j]))
    ensures DescriptionOf(content) == Truncate(Trim(Split(content, '\n')[k]))
  {
    FirstUsableLineAt(Split(content, '\n'), k);
  }

  /** A body without usable lines gets the fixed sentence. */
  lemma DescriptionWithoutLine(content: string)
    requires forall j :: 0 <= j < |Split(content, '\n')| ==> !IsUsableLine(Trim(Split(content, '\n')[j]))
    ensures DescriptionOf(content) == DescriptionFallback
  {
    NoUsableLine(Split(content, '\n'));
  }

  /** `extractDescription(content)`: the line loop with its early return. */
  method ExtractDescription(content: string) returns (d: string)
    ensures d == DescriptionOf(content)
  {
    var lines := Split(content, '\n');
    var i := 0;
    while i < |lines|
      invariant 0 <= i <= |lines|
      invariant FirstUsableLine(lines) == FirstUsableLine(lines[i..])
    {
      var trimmed := Trim(lines[i]);
      if IsUsableLine(trimmed) {
        d := Truncate(trimmed);
        DescriptionFromRest(content, i);
        return;
      }
      SkipUnusableLine(lines, i);
      i := i + 1;
    }
    assert lines[i..] == [];
    d := DescriptionFallback;
  }

  /** A line that is empty or a heading once trimmed is passed over. */
  lemma SkipUnusableLine(lines: seq<string>, i: int)
    requires 0 <= i < |lines| && !IsUsableLine(Trim(lines[i]))
    ensures FirstUsableLine(lines[i..]) == FirstUsableLine(lines[i + 1..])
  {
    assert lines[i..][0] == lines[i];
    assert lines[i..][1..] == lines[i + 1..];
  }

  /** The loop of `extractDescription` stops at a usable line once all earlier lines were passed over. */
  lemma DescriptionFromRest(content: string, i: int)
    requires var lines := Split(content, '\n');
      && 0 <= i < |lines| && IsUsableLine(Trim(lines[i]))
      && FirstUsableLine(lines) == FirstUsableLine(lines[i..])
    ensures DescriptionOf(content) == Truncate(Trim(Split(content, '\n')[i]))
  {
    var lines := Split(content, '\n');
    assert lines[i..][0] == lines[i];
  }

  // ---------------------------------------------------------------------
  // Post records

  /** The metadata header of a source file as the front-matter parser yields it. */
  datatype FrontMatter = FrontMatter(
    title: Option<string>,
    description: Option<string>,
    author: Option<string>,
    tags: Option<seq<string>>,
    image: Option<string>)

  const NoFrontMatter := FrontMatter(None, None, None, None, None)

  /** A directory entry with its parsed content: name, front matter and body. */
  datatype SourceFile = SourceFile(name: string, data: FrontMatter, body: string)

  datatype Post = Post(
    filename: string,
    slug: string,
    date: string,
    title: string,
    description: string,
    author: string,
    tags: seq<string>,
    image: Option<string>,
    content: string,
    frontmatter: FrontMatter,
    url: string)

  /** A string field is truthy when present and not empty. */
  predicate Truthy(v: Option<string>) {
    v.Some? && v.value != ""
  }

  /** `value || fallback` for a string field. */
  function OrElse(v: Option<string>, fallback: string): string {
    if Truthy(v) then v.value else fallback
  }

  /** A non-empty fallback makes the chosen value non-empty. */
  lemma OrElseNonEmpty(v: Option<string>, fallback: string)
    requires fallback != []
    ensures OrElse(v, fallback) != []
  {
  }

  const DefaultAuthor := "Author"
  const DefaultTags := ["cybersecurity"]

  /** What every post built from a file satisfies. */
  predicate ValidPost(p: Post) {
    && IsDateString(p.date)
    && IsSlug(p.slug)
    && p.filename == p.date + "-" + p.slug + ".md"
    && p.url == GeneratePostUrl(p.date, p.slug)
    && p.title != [] && p.author != [] && p.description != []
    && (p.image.Some? ==> p.image.value != "")
  }

  /** The object literal in `loadPosts`, given the description already chosen. */
  function PostRecord(name: string, m: FilenameMatch, data: FrontMatter, content: string, description: string): Post {
    Post(
      name, m.slug, m.date,
      OrElse(data.title, FormatTitle(m.slug)),
      description,
      OrElse(data.author, DefaultAuthor),
      if data.tags.Some? then data.tags.value else DefaultTags,
      if Truthy(data.image) then data.image else None,
      content, data,
      GeneratePostUrl(m.date, m.slug))
  }

  /** The post record for a matched name: the metadata's description, or one taken from the body. */
  function MakePost(name: string, m: FilenameMatch, data: FrontMatter, content: string): Post {
    PostRecord(name, m, data, content, OrElse(data.description, DescriptionOf(content)))
  }

  /** A post exactly for a matching name; it is well formed and keeps the file's name, body and metadata. */
  function BuildPost(name: string, data: FrontMatter, content: string): (p: Option<Post>)
    ensures p.Some? <==> MatchFilename(name).Some?
  {
    match MatchFilename(name)
    case None => None
    case Some(m) => Some(MakePost(name, m, data, content))
  }

  /** A post built from a file is well formed and keeps the file's name, metadata and body. */
  lemma BuildPostValid(name: string, data: FrontMatter, content: string)
    ensures var p := BuildPost(name, data, content);
      p.Some? ==>
        && ValidPost(p.value)
        && p.value.filename == name
        && p.value.content == content
        && p.value.frontmatter == data
  {
    var m := MatchFilename(name);
    if m.Some? {
      assert BuildPost(name, data, content) == Some(MakePost(name, m.value, data, content));
      OrElseNonEmpty(data.description, DescriptionOf(content));
      PostRecordValid(name, m.value, data, content, OrElse(data.description, DescriptionOf(content)));
    }
  }

  /** The record for a matched name with a non-empty description is well formed. */
  lemma PostRecordValid(name: string, m: FilenameMatch, data: FrontMatter, content: string, description: string)
    requires MatchFilename(name) == Some(m) && description != []
    ensures ValidPost(PostRecord(name, m, data, content, description))
  {
    var p := PostRecord(name, m, data, content, description);
    FormatTitleAt(m.slug);
    OrElseNonEmpty(data.title, FormatTitle(m.slug));
    OrElseNonEmpty(data.author, DefaultAuthor);
    assert p.title == OrElse(data.title, FormatTitle(m.slug));
    assert p.author == OrElse(data.author, DefaultAuthor);
  }

  /** Without metadata every field takes its default. */
  lemma BuildPostDefaults(name: string, content: string)
    requires MatchFilename(name).Some?
    ensures var p := BuildPost(name, NoFrontMatter, content).value;
      && p.title == FormatTitle(p.slug)
      && p.description == DescriptionOf(content)
      && p.author == "Author"
      && p.tags == ["cybersecurity"]
      && p.image == None
      && p.url == GeneratePostUrl(p.date, p.slug)
  {
  }

  /** Metadata values that are present (and for strings not empty) win over the defaults. */
  lemma BuildPostUsesMetadata(name: string, data: FrontMatter, content: string)
    requires MatchFilename(name).Some?
    ensures var p := BuildPost(name, data, content).value;
      && (Truthy(data.title) ==> p.title == data.title.value)
      && (Truthy(data.description) ==> p.description == data.description.value)
      && (Truthy(data.author) ==> p.author == data.author.value)
      && (data.tags.Some? ==> p.tags == data.tags.value)
      && (Truthy(data.image) ==> p.image == data.image)
      && (!Truthy(data.image) ==> p.image == None)
  {
  }

  /** Date and slug come from the file name, the URL from both. */
  lemma BuildPostFromName(date: string, slug: string, data: FrontMatter, content: string)
    requires IsDateString(date) && IsSlug(slug)
    ensures var p := BuildPost(date + "-" + slug + ".md", data, content);
      && p.Some?
      && p.value.date == date && p.value.slug == slug
      && p.value.url == "/blog/" + date[..4] + "/" + date[5..7] + "/" + date[8..] + "/" + slug + "/"
  {
    MatchFilenameComplete(date, slug);
    PostUrlOfDate(date, slug);
  }

  /** One directory entry as `loadPosts` treats it: a post exactly for a `.md` file with a dated name. */
  function ParseSourceFile(f: SourceFile): Option<Post>
  {
    if EndsWith(f.name, ".md") then BuildPost(f.name, f.data, f.body) else None
  }

  /** A directory entry yields a post exactly when it is a `.md` file with a dated name, and that post is well formed. */
  lemma ParseSourceFileSpec(f: SourceFile)
    ensures var p := ParseSourceFile(f);
      && (p.Some? <==> EndsWith(f.name, ".md") && MatchFilename(f.name).Some?)
      && (p.Some? ==> ValidPost(p.value) && p.value.filename == f.name && p.value.content == f.body)
  {
    BuildPostValid(f.name, f.data, f.body);
  }

  /** The posts `loadPosts` pushes, in directory order: one per `.md` file whose name matches. */
  function LoadedPosts(files: seq<SourceFile>): (posts: seq<Post>)
    ensures |posts| <= |files|
  {
    if files == [] then []
    else
      var post := ParseSourceFile(files[|files| - 1]);
      var earlier := LoadedPosts(files[..|files| - 1]);
      if post.Some? then earlier + [post.value] else earlier
  }

  lemma ValidAppend(posts: seq<Post>, p: Post)
    requires forall i :: 0 <= i < |posts| ==> ValidPost(posts[i])
    requires ValidPost(p)
    ensures forall i :: 0 <= i < |posts + [p]| ==> ValidPost((posts + [p])[i])
  {
    forall i | 0 <= i < |posts + [p]| ensures ValidPost((posts + [p])[i]) {
      if i < |posts| {
        assert (posts + [p])[i] == posts[i];
      } else {
        assert (posts + [p])[i] == p;
      }
    }
  }

  /** Every loaded post is well formed. */
  lemma {:induction false} LoadedPostsValid(files: seq<SourceFile>)
    ensures forall i :: 0 <= i < |LoadedPosts(files)| ==> ValidPost(LoadedPosts(files)[i])
    decreases |files|
  {
    if files != [] {
      var n := |files| - 1;
      var earlier := LoadedPosts(files[..n]);
      var p := ParseSourceFile(files[n]);
      LoadedPostsValid(files[..n]);
      ParseSourceFileSpec(files[n]);
      if p.Some? {
        assert LoadedPosts(files) == earlier + [p.value];
        ValidAppend(earlier, p.value);
      } else {
        assert LoadedPosts(files) == earlier;
      }
    }
  }

  /** One more directory entry adds at most its own post, at the end. */
  lemma LoadedPostsStep(files: seq<SourceFile>, i: nat)
    requires i < |files|
    ensures var post := ParseSourceFile(files[i]);
      LoadedPosts(files[..i + 1]) == LoadedPosts(files[..i]) + (if post.Some? then [post.value] else [])
  {
    assert files[..i + 1][..i] == files[..i];
    assert files[..i + 1][i] == files[i];
  }

  /** A file whose name does not match adds nothing and causes no error. */
  lemma LoadedPostsSkip(files: seq<SourceFile>, f: SourceFile)
    requires MatchFilename(f.name).None?
    ensures LoadedPosts(files + [f]) == LoadedPosts(files)
  {
    assert (files + [f])[..|files|] == files;
  }

  /** A list without matching names loads no post at all. */
  lemma {:induction false} LoadedPostsNone(files: seq<SourceFile>)
    requires forall i :: 0 <= i < |files| ==> MatchFilename(files[i].name).None?
    ensures LoadedPosts(files) == []
  {
    if files != [] {
      LoadedPostsNone(files[..|files| - 1]);
    }
  }

  // ---------------------------------------------------------------------
  // Newest-first order

  /**
   * The position of a date on the time line: for a valid calendar date
   * `YYYY-MM-DD`, `new Date(a) < new Date(b)` exactly when the key of `a`
   * is smaller than the key of `b`.
   */
  function DateKey(date: string): int {
    if |date| < 10 then 0
    else DigitsValue(date[..4]) * 10000 + DigitsValue(date[5..7]) * 100 + DigitsValue(date[8..10])
  }

  predicate NewestFirst(posts: seq<Post>) {
    forall i, j :: 0 <= i < j < |posts| ==> DateKey(posts[i].date) >= DateKey(posts[j].date)
  }

  /** The posts with one date key, in list order. */
  function WithDateKey(posts: seq<Post>, key: int): seq<Post>
  {
    if posts == [] then []
    else (if DateKey(posts[0].date) == key then [posts[0]] else []) + WithDateKey(posts[1..], key)
  }

  /** Puts `p` before the first post that is not newer than it. */
  function InsertByDate(p: Post, sorted: seq<Post>): (r: seq<Post>)
    ensures multiset(r) == multiset([p] + sorted)
  {
    if sorted == [] || DateKey(p.date) >= DateKey(sorted[0].date) then [p] + sorted
    else
      var r := [sorted[0]] + InsertByDate(p, sorted[1..]);
      assert sorted == [sorted[0]] + sorted[1..];
      assert multiset(r) == multiset([sorted[0]]) + multiset([p] + sorted[1..]);
      r
  }

  /** `posts.sort((a, b) => new Date(b.date) - new Date(a.date))`, a stable sort. */
  function SortNewestFirst(posts: seq<Post>): (r: seq<Post>)
    ensures multiset(r) == multiset(posts)
  {
    if posts == [] then []
    else
      assert posts == [posts[0]] + posts[1..];
      InsertByDate(posts[0], SortNewestFirst(posts[1..]))
  }

  lemma {:induction false} InsertByDateSorted(p: Post, sorted: seq<Post>)
    requires NewestFirst(sorted)
    ensures NewestFirst(InsertByDate(p, sorted))
    decreases |sorted|
  {
    if sorted != [] && DateKey(p.date) < DateKey(sorted[0].date) {
      var rest := InsertByDate(p, sorted[1..]);
      InsertByDateSorted(p, sorted[1..]);
      InsertByDateBelow(p, sorted[1..], DateKey(sorted[0].date));
      assert InsertByDate(p, sorted) == [sorted[0]] + rest;
    }
  }

  /** Inserting a post no newer than a bound into posts no newer than it keeps them all below the bound. */
  lemma InsertByDateBelow(p: Post, sorted: seq<Post>, bound: int)
    requires DateKey(p.date) <= bound
    requires forall j :: 0 <= j < |sorted| ==> DateKey(sorted[j].date) <= bound
    ensures forall j :: 0 <= j < |InsertByDate(p, sorted)| ==> DateKey(InsertByDate(p, sorted)[j].date) <= bound
  {
    var r := InsertByDate(p, sorted);
    forall j | 0 <= j < |r| ensures DateKey(r[j].date) <= bound {
      assert r[j] in multiset([p] + sorted);
      assert r[j] == p || r[j] in sorted;
    }
  }

  /** After sorting, no post is older than one after it, and the posts are the same. */
  lemma {:induction false} SortNewestFirstSorted(posts: seq<Post>)
    ensures NewestFirst(SortNewestFirst(posts))
    ensures multiset(SortNewestFirst(posts)) == multiset(posts)
    decreases |posts|
  {
    if posts != [] {
      SortNewestFirstSorted(posts[1..]);
      InsertByDateSorted(posts[0], SortNewestFirst(posts[1..]));
    }
  }

  lemma {:induction false} InsertByDateSameKey(p: Post, sorted: seq<Post>, key: int)
    ensures WithDateKey(InsertByDate(p, sorted), key) == WithDateKey([p] + sorted, key)
    decreases |sorted|
  {
    if sorted != [] && DateKey(p.date) < DateKey(sorted[0].date) {
      var s0 := sorted[0];
      InsertByDateSameKey(p, sorted[1..], key);
      assert ([s0] + InsertByDate(p, sorted[1..]))[1..] == InsertByDate(p, sorted[1..]);
      assert ([p] + sorted)[1..] == sorted;
      assert ([p] + sorted[1..])[1..] == sorted[1..];
      assert sorted == [s0] + sorted[1..];
      if DateKey(p.date) == key {
        // s0 is newer than p, so it carries another key
        assert WithDateKey(sorted, key) == WithDateKey(sorted[1..], key);
      } else if DateKey(s0.date) == key {
        assert WithDateKey([p] + sorted[1..], key) == WithDateKey(sorted[1..], key);
      }
    }
  }

  /** Stability: the posts that share a date keep their read order. */
  lemma {:induction false} SortKeepsOrderOfEqualDates(posts: seq<Post>, key: int)
    ensures WithDateKey(SortNewestFirst(posts), key) == WithDateKey(posts, key)
    decreases |posts|
  {
    if posts != [] {
      SortKeepsOrderOfEqualDates(posts[1..], key);
      InsertByDateSameKey(posts[0], SortNewestFirst(posts[1..]), key);
      assert ([posts[0]] + SortNewestFirst(posts[1..]))[1..] == SortNewestFirst(posts[1..]);
    }
  }

  // ---------------------------------------------------------------------
  // Dates as strings

  /** The eight digits of a date, without its hyphens. */
  function DateDigits(d: string): string
    requires IsDateString(d)
  {
    d[..4] + d[5..7] + d[8..]
  }

  lemma DateParts(d: string)
    requires IsDateString(d)
    ensures d == d[..4] + ("-" + (d[5..7] + ("-" + d[8..])))
    ensures AllDigits(d[..4]) && AllDigits(d[5..7]) && AllDigits(d[8..])
    ensures AllDigits(DateDigits(d)) && |DateDigits(d)| == 8
  {
    var x := DateDigits(d);
    assert forall i :: 0 <= i < 8 ==> x[i] == (if i < 4 then d[i] else if i < 6 then d[i + 1] else d[i + 2]);
  }

  /** The key of a date is the number its eight digits spell. */
  lemma DateKeyDigits(d: string)
    requires IsDateString(d)
    ensures DateKey(d) == DigitsValue(DateDigits(d))
  {
    var y, m, dd := d[..4], d[5..7], d[8..];
    assert d[8..10] == dd;
    DigitsValueAppend(y + m, dd);
    DigitsValueAppend(y, m);
    assert Pow10(2) == 100;
    assert (DigitsValue(y) * 100 + DigitsValue(m)) * 100 == DigitsValue(y) * 10000 + DigitsValue(m) * 100;
  }

  /** Two dates compare as strings as their digits do. */
  lemma DateLexDigits(a: string, b: string)
    requires IsDateString(a) && IsDateString(b)
    ensures LexLess(a, b) <==> LexLess(DateDigits(a), DateDigits(b))
  {
    DateParts(a);
    DateParts(b);
    var ya, ma, da := a[..4], a[5..7], a[8..];
    var yb, mb, db := b[..4], b[5..7], b[8..];
    assert !LexLess("-", "-");
    LexLessAppend(ya, "-" + (ma + ("-" + da)), yb, "-" + (mb + ("-" + db)));
    LexLessAppend("-", ma + ("-" + da), "-", mb + ("-" + db));
    LexLessAppend(ma, "-" + da, mb, "-" + db);
    LexLessAppend("-", da, "-", db);
    LexLessAppend(ya + ma, da, yb + mb, db);
    LexLessAppend(ya, ma, yb, mb);
    assert ya + ma == yb + mb <==> ya == yb && ma == mb by {
      if ya + ma == yb + mb {
        assert (ya + ma)[..4] == ya && (yb + mb)[..4] == yb;
        assert (ya + ma)[4..] == ma && (yb + mb)[4..] == mb;
      }
    }
  }

  /** Different dates spell different digits. */
  lemma DateDigitsInjective(a: string, b: string)
    requires IsDateString(a) && IsDateString(b)
    ensures DateDigits(a) == DateDigits(b) <==> a == b
  {
    DateParts(a);
    DateParts(b);
    if DateDigits(a) == DateDigits(b) {
      var x := DateDigits(a);
      assert a[..4] == x[..4] == b[..4];
      assert a[5..7] == x[4..6] == b[5..7];
      assert a[8..] == x[6..] == b[8..];
    }
  }

  /**
   * For well-formed dates the key orders exactly as the `YYYY-MM-DD`
   * strings do, and only the same date has the same key.
   */
  lemma DateKeyOrder(a: string, b: string)
    requires IsDateString(a) && IsDateString(b)
    ensures DateKey(a) < DateKey(b) <==> LexLess(a, b)
    ensures DateKey(a) == DateKey(b) <==> a == b
  {
    DateParts(a);
    DateParts(b);
    DateKeyDigits(a);
    DateKeyDigits(b);
    DigitsOrder(DateDigits(a), DateDigits(b));
    DateLexDigits(a, b);
    DateDigitsInjective(a, b);
  }

  /** Newest first means that no date is smaller, as a string, than the date of a later post. */
  lemma NewestFirstByDateString(posts: seq<Post>)
    requires forall i :: 0 <= i < |posts| ==> IsDateString(posts[i].date)
    requires NewestFirst(posts)
    ensures forall i, j :: 0 <= i < j < |posts| ==> !LexLess(posts[i].date, posts[j].date)
  {
    forall i, j | 0 <= i < j < |posts| ensures !LexLess(posts[i].date, posts[j].date) {
      DateKeyOrder(posts[i].date, posts[j].date);
    }
  }
}
