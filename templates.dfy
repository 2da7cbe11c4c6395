/**
 * Template rendering of the blog builder: `replacePlaceholders`, which
 * substitutes `{{KEY}}` tokens key by key, and `generateBreadcrumbs`,
 * which renders the navigation trail of a post page.
 */
module Templates {
  import opened Text

  // ---------------------------------------------------------------------
  // Placeholder substitution

  /** A replacement value as the builder supplies it: a string, a count, or nothing. */
  datatype Value = Str(s: string) | Number(n: nat) | Missing

  /** `value || ''` turned into text: every falsy value (empty string, 0, nothing) becomes empty. */
  function ValueText(v: Value): (t: string)
    ensures v.Str? ==> t == v.s
    ensures v.Missing? || v == Number(0) ==> t == ""
    ensures v.Number? && v.n > 0 ==> t != [] && t[0] != '0' && DigitsValue(t) == v.n
  {
    match v
    case Str(s) => s
    case Number(n) =>
      if n == 0 then ""
      else
        NatToStringValue(n);
        NatToString(n)
    case Missing => ""
  }

  /**
   * The keys the builder uses: upper-case letters and underscores. For
   * these the regular expression built from `{{KEY}}` matches exactly the
   * literal token.
   */
  predicate IsPlaceholderKey(key: string) {
    key != [] && forall i :: 0 <= i < |key| ==> ('A' <= key[i] <= 'Z' || key[i] == '_')
  }

  function Token(key: string): (t: string)
    ensures t != [] && t[0] == '{'
  {
    "{{" + key + "}}"
  }

  /** The text after substituting the first entries of `replacements`, one key after the other. */
  function Substitute(template: string, replacements: seq<(string, Value)>): string
  {
    if replacements == [] then template
    else
      var (key, value) := replacements[|replacements| - 1];
      ReplaceAll(Substitute(template, replacements[..|replacements| - 1]), Token(key), ValueText(value))
  }

  /** `replacePlaceholders(template, replacements)`: the loop over the entries in insertion order. */
  method ReplacePlaceholders(template: string, replacements: seq<(string, Value)>) returns (result: string)
    requires forall i :: 0 <= i < |replacements| ==> IsPlaceholderKey(replacements[i].0)
    ensures result == Substitute(template, replacements)
  {
    result := template;
    var i := 0;
    while i < |replacements|
      invariant 0 <= i <= |replacements|
      invariant result == Substitute(template, replacements[..i])
    {
      var (key, value) := replacements[i];
      assert replacements[..i + 1][..i] == replacements[..i];
      result := ReplaceAll(result, "{{" + key + "}}", ValueText(value));
      i := i + 1;
    }
    assert replacements[..i] == replacements;
  }

  /** A template holding no token of any key is returned unchanged; so is any template for no keys. */
  lemma {:induction false} SubstituteUntouched(template: string, replacements: seq<(string, Value)>)
    requires forall i :: 0 <= i < |replacements| ==> !Occurs(Token(replacements[i].0), template)
    ensures Substitute(template, replacements) == template
    decreases |replacements|
  {
    if replacements != [] {
      var n := |replacements| - 1;
      SubstituteUntouched(template, replacements[..n]);
      ReplaceAllAbsent(template, Token(replacements[n].0), ValueText(replacements[n].1));
    }
  }

  /** The characters of a token: two opening braces, the key, two closing braces. */
  lemma TokenChars(key: string)
    ensures var t := Token(key);
      && |t| == |key| + 4 && t[0] == '{' && t[1] == '{'
      && (forall i :: 0 <= i < |key| ==> t[i + 2] == key[i])
      && t[|key| + 2] == '}' && t[|key| + 3] == '}'
  {
  }

  /** No proper prefix of a placeholder's token is also its suffix. */
  lemma TokenBorderless(key: string)
    requires IsPlaceholderKey(key)
    ensures Borderless(Token(key))
  {
    var t := Token(key);
    TokenChars(key);
    forall n | 0 < n < |t| ensures t[..n] != t[|t| - n..] {
      var j := |t| - n;
      if j == 1 {
        assert t[..n][1] == '{' != key[0] == t[j..][1];
      } else if j < |key| + 2 {
        assert t[..n][0] == '{' != key[j - 2] == t[j..][0];
      } else {
        assert t[..n][0] == '{' != '}' == t[j..][0];
      }
    }
  }

  /** The token of one placeholder key does not occur in the token of another. */
  lemma TokenNotInToken(kA: string, kB: string)
    requires IsPlaceholderKey(kA) && IsPlaceholderKey(kB) && kA != kB
    ensures !Occurs(Token(kB), Token(kA))
  {
    var tA, tB := Token(kA), Token(kB);
    TokenChars(kA);
    TokenChars(kB);
    forall k | 0 <= k <= |tA| ensures !StartsWith(tA[k..], tB) {
      if k + |tB| <= |tA| {
        var w := tA[k..][..|tB|];
        if k == 1 {
          assert w[1] == kA[0] != '{' == tB[1];
        } else if k >= 2 {
          assert w[0] == kA[k - 2] != '{' == tB[0];
        } else if |kB| < |kA| {
          assert w[|kB| + 2] == kA[|kB|] != '}' == tB[|kB| + 2];
        } else {
          assert exists i :: 0 <= i < |kA| && kA[i] != kB[i];
          var i :| 0 <= i < |kA| && kA[i] != kB[i];
          assert w[i + 2] == kA[i] != kB[i] == tB[i + 2];
        }
      }
    }
    NotOccurs(tB, tA);
  }

  /**
   * Every occurrence of a key's token is replaced: a template made of text
   * pieces that hold no such token, separated by the token, becomes the
   * pieces separated by the value's text.
   */
  lemma EveryOccurrenceReplaced(pieces: seq<string>, key: string, value: Value)
    requires IsPlaceholderKey(key)
    requires forall i :: 0 <= i < |pieces| ==> !Occurs(Token(key), pieces[i])
    ensures Substitute(Join(pieces, Token(key)), [(key, value)]) == Join(pieces, ValueText(value))
  {
    TokenBorderless(key);
    ReplaceAllJoin(pieces, Token(key), ValueText(value));
  }

  lemma Join3(a: string, b: string, c: string, sep: string)
    ensures Join([a, b, c], sep) == a + sep + b + sep + c
  {
    assert [a, b, c][1..] == [b, c] && [b, c][1..] == [c];
    assert Join([b, c], sep) == b + sep + c;
  }

  /** A token used twice is replaced twice. */
  lemma TokenUsedTwice(a: string, b: string, c: string, key: string, value: Value)
    requires IsPlaceholderKey(key)
    requires !Occurs(Token(key), a) && !Occurs(Token(key), b) && !Occurs(Token(key), c)
    ensures Substitute(a + Token(key) + b + Token(key) + c, [(key, value)])
         == a + ValueText(value) + b + ValueText(value) + c
  {
    Join3(a, b, c, Token(key));
    Join3(a, b, c, ValueText(value));
    EveryOccurrenceReplaced([a, b, c], key, value);
  }

  /** An absent value substitutes as nothing, never as the token text. */
  lemma AbsentValueLeavesNothing(a: string, b: string, key: string)
    requires IsPlaceholderKey(key)
    requires !Occurs(Token(key), a) && !Occurs(Token(key), b)
    ensures Substitute(a + Token(key) + b, [(key, Missing)]) == a + b
  {
    assert [a, b][1..] == [b];
    assert Join([a, b], Token(key)) == a + Token(key) + b;
    assert Join([a, b], "") == a + "" + b == a + b;
    EveryOccurrenceReplaced([a, b], key, Missing);
  }

  /** Another key's token next to the replaced one is kept as it is. */
  lemma OtherTokenKept(kA: string, kB: string, value: Value, c: string)
    requires IsPlaceholderKey(kA) && IsPlaceholderKey(kB) && kA != kB
    requires !Occurs(Token(kA), c)
    ensures Substitute(Token(kB) + Token(kA) + c, [(kA, value)]) == Token(kB) + ValueText(value) + c
  {
    TokenNotInToken(kB, kA);
    assert [Token(kB), c][1..] == [c];
    assert Join([Token(kB), c], Token(kA)) == Token(kB) + Token(kA) + c;
    assert Join([Token(kB), c], ValueText(value)) == Token(kB) + ValueText(value) + c;
    EveryOccurrenceReplaced([Token(kB), c], kA, value);
  }

  /** Keys are taken in order: a value that holds a later key's token is itself substituted. */
  lemma LaterKeySubstituted(kA: string, kB: string, x: string)
    ensures Substitute(Token(kA), [(kA, Str(Token(kB))), (kB, Str(x))]) == x
  {
    var ra: seq<(string, Value)> := [(kA, Str(Token(kB))), (kB, Str(x))];
    assert ra[..1] == [(kA, Str(Token(kB)))] && ra[..1][..0] == [];
    ReplaceAllHead("", Token(kA), Token(kB));
    assert Token(kA) + "" == Token(kA) && Token(kB) + "" == Token(kB);
    assert Substitute(Token(kA), ra[..1]) == ReplaceAll(Token(kA), Token(kA), Token(kB)) == Token(kB);
    ReplaceAllHead("", Token(kB), x);
    assert x + "" == x;
    assert Substitute(Token(kA), ra) == ReplaceAll(Token(kB), Token(kB), x);
  }

  /** A value that holds an earlier key's token keeps it: each key is replaced once, in order. */
  lemma EarlierKeyKept(kA: string, kB: string, x: string)
    requires IsPlaceholderKey(kA) && IsPlaceholderKey(kB) && kA != kB
    ensures Substitute(Token(kA), [(kB, Str(x)), (kA, Str(Token(kB)))]) == Token(kB)
  {
    var rb: seq<(string, Value)> := [(kB, Str(x)), (kA, Str(Token(kB)))];
    assert rb[..1] == [(kB, Str(x))] && rb[..1][..0] == [];
    TokenNotInToken(kA, kB);
    ReplaceAllAbsent(Token(kA), Token(kB), x);
    assert Substitute(Token(kA), rb[..1]) == ReplaceAll(Token(kA), Token(kB), x) == Token(kA);
    ReplaceAllHead("", Token(kA), Token(kB));
    assert Token(kA) + "" == Token(kA) && Token(kB) + "" == Token(kB);
    assert Substitute(Token(kA), rb) == ReplaceAll(Token(kA), Token(kA), Token(kB));
  }

  // ---------------------------------------------------------------------
  // Breadcrumbs

  datatype Crumb = Crumb(name: string, url: string)

  const BreadcrumbSeparator := " <span class=\"breadcrumb-separator\">\U{203A}</span> "

  function CrumbLink(c: Crumb): string {
    "<a href=\"" + c.url + "\" class=\"breadcrumb-link\">" + c.name + "</a>"
  }

  function CrumbCurrent(c: Crumb): string {
    "<span class=\"breadcrumb-current\">" + c.name + "</span>"
  }

  /** The rendered items: the last crumb as plain text, the others as links. */
  function CrumbItems(crumbs: seq<Crumb>): (items: seq<string>)
    ensures |items| == |crumbs|
  {
    seq(|crumbs|, i requires 0 <= i < |crumbs| =>
      if i == |crumbs| - 1 then CrumbCurrent(crumbs[i]) else CrumbLink(crumbs[i]))
  }

  /** `generateBreadcrumbs(crumbs)`. */
  function GenerateBreadcrumbs(crumbs: seq<Crumb>): string {
    Join(CrumbItems(crumbs), BreadcrumbSeparator)
  }

  /** Each crumb as a link followed by one separator, in order. */
  function LinkTrail(crumbs: seq<Crumb>): string {
    if crumbs == [] then "" else CrumbLink(crumbs[0]) + BreadcrumbSeparator + LinkTrail(crumbs[1..])
  }

  /**
   * A trail of n crumbs is n-1 links, each followed by exactly one
   * separator, in input order, then the last crumb as the current item.
   */
  lemma {:induction false} BreadcrumbsShape(links: seq<Crumb>, current: Crumb)
    ensures GenerateBreadcrumbs(links + [current]) == LinkTrail(links) + CrumbCurrent(current)
    decreases |links|
  {
    if links == [] {
      assert links + [current] == [current];
      assert CrumbItems([current]) == [CrumbCurrent(current)];
    } else {
      var rest := links[1..];
      BreadcrumbsShape(rest, current);
      assert links + [current] == [links[0]] + (rest + [current]);
      CrumbItemsCons(links[0], rest + [current]);
      var items := CrumbItems(links + [current]);
      assert items[1..] == CrumbItems(rest + [current]);
      assert GenerateBreadcrumbs(links + [current])
          == CrumbLink(links[0]) + BreadcrumbSeparator + GenerateBreadcrumbs(rest + [current]);
      assert LinkTrail(links) == CrumbLink(links[0]) + BreadcrumbSeparator + LinkTrail(rest);
      AppendAssoc(CrumbLink(links[0]) + BreadcrumbSeparator, LinkTrail(rest), CrumbCurrent(current));
    }
  }

  /** A crumb ahead of others renders as a link. */
  lemma CrumbItemsCons(c: Crumb, cs: seq<Crumb>)
    requires cs != []
    ensures CrumbItems([c] + cs) == [CrumbLink(c)] + CrumbItems(cs)
  {
    var items := CrumbItems([c] + cs);
    forall k | 0 <= k < |cs| ensures items[k + 1] == CrumbItems(cs)[k] {
      assert ([c] + cs)[k + 1] == cs[k];
    }
  }

  /** No crumbs render as nothing. */
  lemma BreadcrumbsEmpty()
    ensures GenerateBreadcrumbs([]) == ""
  {
  }

  /** The trail of a post page: Home and Blog as links, the post title as the current item. */
  function PostBreadcrumbs(title: string, url: string): seq<Crumb> {
    [Crumb("Home", "/index.html"), Crumb("Blog", "/blog/"), Crumb(title, url)]
  }

  /** Three crumbs: two links, each followed by the separator, then the current item. */
  lemma ThreeCrumbs(a: Crumb, b: Crumb, c: Crumb)
    ensures GenerateBreadcrumbs([a, b, c]) == CrumbLink(a) + BreadcrumbSeparator + CrumbLink(b) + BreadcrumbSeparator + CrumbCurrent(c)
  {
    var items := CrumbItems([a, b, c]);
    assert items == [CrumbLink(a), CrumbLink(b), CrumbCurrent(c)];
    Join3(CrumbLink(a), CrumbLink(b), CrumbCurrent(c), BreadcrumbSeparator);
  }

  /** Home and Blog render as links, each followed by the separator; the title is the current item. */
  lemma PostBreadcrumbsText(title: string, url: string)
    ensures GenerateBreadcrumbs(PostBreadcrumbs(title, url))
         == CrumbLink(Crumb("Home", "/index.html")) + BreadcrumbSeparator
          + CrumbLink(Crumb("Blog", "/blog/")) + BreadcrumbSeparator
          + CrumbCurrent(Crumb(title, url))
  {
    ThreeCrumbs(Crumb("Home", "/index.html"), Crumb("Blog", "/blog/"), Crumb(title, url));
  }
}
