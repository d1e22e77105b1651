/**
 * The request side: language resolution and the data each page handler
 * hands to its template. The registry is passed in explicitly where the
 * source reads a global filled once at startup.
 */
module Handlers {
  import opened Wrappers
  import opened Registry

  /** The language served when the request names none. */
  const DefaultLang: string := "pl"

  /** The data a page template receives: the navigation list and the head. */
  datatype PageData = PageData(categories: seq<Category>, head: Head)

  /** A rendered page: the content template and its data. */
  datatype View = View(template: string, data: PageData)

  /** getLangFromRequest: the raw Accept-Language value, or "pl" when it is empty. */
  function ResolveLang(acceptLanguage: string): (lang: string)
    ensures lang != ""
    ensures acceptLanguage != "" ==> lang == acceptLanguage
    ensures acceptLanguage == "" ==> lang == DefaultLang
  {
    if acceptLanguage == "" then DefaultLang else acceptLanguage
  }

  /** The page data the plain handlers fill: the language's list and Lang, nothing else. */
  function NavigationData(reg: Categories, lang: string): (d: PageData)
    ensures d.head.lang == lang
    ensures lang in reg ==> d.categories == reg[lang]
    ensures lang !in reg ==> d.categories == []
    ensures d.head.title == "" && d.head.description == "" && d.head.keywords == ""
  {
    PageData(Lookup(reg, lang), Head("", "", "", lang))
  }

  /** homePageHandler. */
  function HomePage(reg: Categories, acceptLanguage: string): (v: View)
    ensures v.template == "homepage.gohtml"
    ensures v.data == NavigationData(reg, ResolveLang(acceptLanguage))
  {
    View("homepage.gohtml", NavigationData(reg, ResolveLang(acceptLanguage)))
  }

  /** articleHandler: the article slug selects nothing; only the template differs. */
  function ArticlePage(reg: Categories, acceptLanguage: string): (v: View)
    ensures v.template == "article.gohtml"
    ensures v.data == NavigationData(reg, ResolveLang(acceptLanguage))
  {
    View("article.gohtml", NavigationData(reg, ResolveLang(acceptLanguage)))
  }

  /** notFoundHandler (the 404 status it writes is not modelled). */
  function NotFoundPage(reg: Categories, acceptLanguage: string): (v: View)
    ensures v.template == "404.gohtml"
    ensures v.data == NavigationData(reg, ResolveLang(acceptLanguage))
  {
    View("404.gohtml", NavigationData(reg, ResolveLang(acceptLanguage)))
  }

  /** The first category, in list order, whose slug is the one asked for. */
  function FirstWithSlug(cs: seq<Category>, slug: string): (r: Option<Category>)
    ensures r.None? <==> forall i :: 0 <= i < |cs| ==> cs[i].slug != slug
    ensures r.Some? ==>
      exists k :: 0 <= k < |cs| && cs[k] == r.value && cs[k].slug == slug &&
        (forall i :: 0 <= i < k ==> cs[i].slug != slug)
  {
    if cs == [] then None
    else if cs[0].slug == slug then Some(cs[0])
    else FirstWithSlug(cs[1..], slug)
  }

  /**
   * articleListHandler: scan the language's list for the slug and stop at
   * the first match; without one, fall through to the not-found page;
   * with one, the head carries that category's title, description and
   * keywords and the resolved language.
   */
  method ArticleListPage(reg: Categories, acceptLanguage: string, slug: string) returns (v: View)
    ensures FirstWithSlug(Lookup(reg, ResolveLang(acceptLanguage)), slug).None? ==>
      v == NotFoundPage(reg, acceptLanguage)
    ensures FirstWithSlug(Lookup(reg, ResolveLang(acceptLanguage)), slug).Some? ==>
      var cat := FirstWithSlug(Lookup(reg, ResolveLang(acceptLanguage)), slug).value;
      && v.template == "article-list.gohtml"
      && v.data.categories == Lookup(reg, ResolveLang(acceptLanguage))
      && v.data.head == Head(cat.head.title, cat.head.description, cat.head.keywords, ResolveLang(acceptLanguage))
  {
    var lang := ResolveLang(acceptLanguage);
    var categories := Lookup(reg, lang);
    var cat: Option<Category> := None;
    var i := 0;
    while i < |categories|
      invariant 0 <= i <= |categories|
      invariant forall k :: 0 <= k < i ==> categories[k].slug != slug
      invariant cat.None?
    {
      if categories[i].slug == slug {
        cat := Some(categories[i]);
        break;
      }
      i := i + 1;
    }
    assert cat == FirstWithSlug(categories, slug);
    if cat.None? {
      v := NotFoundPage(reg, acceptLanguage);
    } else {
      var data := PageData(categories, Head("", "", "", lang));
      data := data.(head := data.head.(description := cat.value.head.description));
      data := data.(head := data.head.(keywords := cat.value.head.keywords));
      data := data.(head := data.head.(title := cat.value.head.title));
      v := View("article-list.gohtml", data);
    }
  }

  /** With slugs unique in a list, the lookup finds exactly the entry carrying the slug. */
  lemma UniqueSlugIsFound(cs: seq<Category>, k: nat, slug: string)
    requires k < |cs| && cs[k].slug == slug
    requires forall i, j :: 0 <= i < j < |cs| ==> cs[i].slug != cs[j].slug
    ensures FirstWithSlug(cs, slug) == Some(cs[k])
  {
  }

  /**
   * In a registry of loaded records, the category found for a language is
   * one of the loaded records, of that language and with that slug.
   */
  lemma FoundCategoryBelongs(reg: Categories, recs: seq<Category>, lang: string, slug: string)
    requires IsRegistryOf(reg, recs)
    requires FirstWithSlug(Lookup(reg, lang), slug).Some?
    ensures var c := FirstWithSlug(Lookup(reg, lang), slug).value;
      c.lang == lang && c.slug == slug && c in recs
  {
    var c := FirstWithSlug(Lookup(reg, lang), slug).value;
    assert c in multiset(reg[lang]);
    ForLangCounts(recs, lang, c);
    assert c in multiset(recs);
  }

  /** A language with no descriptors has no categories, so every slug is not found. */
  lemma UnknownLanguageNotFound(reg: Categories, recs: seq<Category>, acceptLanguage: string, slug: string)
    requires IsRegistryOf(reg, recs)
    requires forall i :: 0 <= i < |recs| ==> recs[i].lang != ResolveLang(acceptLanguage)
    ensures FirstWithSlug(Lookup(reg, ResolveLang(acceptLanguage)), slug).None?
    ensures NotFoundPage(reg, acceptLanguage).data.categories == []
  {
  }
}
