/** From a show name to the address of the show's page: the search query,
    the search address, and the first result's link made absolute. */
module ShowUrl {
  import opened Common
  import opened PyStr

  /** The search address up to the query. */
  const SearchPrefix: string := "https://imdb.com/find?q="

  /** The origin prefixed to every site-relative link. */
  const SiteRoot: string := "https://www.imdb.com"

  /** The search query: the name with every space replaced by '+'. */
  function SearchQuery(name: string): (q: string)
    ensures |q| == |name|
    ensures ' ' !in q
    ensures forall i :: 0 <= i < |name| ==> q[i] == if name[i] == ' ' then '+' else name[i]
  {
    ReplaceChar(name, ' ', '+')
  }

  /** The address of the search page for a name. */
  function SearchUrl(name: string): string {
    SearchPrefix + SearchQuery(name)
  }

  /** A link as the script uses it: the site root followed by the link text. */
  function Absolute(rel: string): string {
    SiteRoot + rel
  }

  /** The inverse of Absolute: the text after the site root, if present. */
  function Relative(url: string): Option<string> {
    if |SiteRoot| <= |url| && url[..|SiteRoot|] == SiteRoot then Some(url[|SiteRoot|..]) else None
  }

  /** get_show_url, with the fetched and parsed search page given as the
      function from a search address to the result links it lists. */
  function GetShowUrl(name: string, search: string -> seq<string>): (r: Result<string>)
    ensures r.Err? <==> search(SearchUrl(name)) == []
    ensures r.Err? ==> r.error == NoSearchResult
    ensures r.Ok? ==> Relative(r.value) == Some(search(SearchUrl(name))[0])
  {
    var hrefs := search(SearchUrl(name));
    if hrefs == [] then Err(NoSearchResult)
    else AbsoluteRoundTrip(hrefs[0]); Ok(Absolute(hrefs[0]))
  }

  /** The search address is the fixed prefix followed by a space-free query
      as long as the name; replacing '+' back by ' ' recovers a name that
      held no '+'. */
  lemma SearchUrlShape(name: string)
    ensures |SearchUrl(name)| == |SearchPrefix| + |name|
    ensures SearchUrl(name)[..|SearchPrefix|] == SearchPrefix
    ensures ' ' !in SearchUrl(name)
    ensures '+' !in name ==> ReplaceChar(SearchUrl(name)[|SearchPrefix|..], '+', ' ') == name
  {
    var u := SearchUrl(name);
    assert u[|SearchPrefix|..] == SearchQuery(name);
    forall i | 0 <= i < |u| ensures u[i] != ' ' {
      if i >= |SearchPrefix| { assert u[i] == SearchQuery(name)[i - |SearchPrefix|]; }
    }
  }

  /** Absolute adds the site root and changes nothing else. */
  lemma AbsoluteRoundTrip(rel: string)
    ensures Relative(Absolute(rel)) == Some(rel)
  {
    assert Absolute(rel)[..|SiteRoot|] == SiteRoot;
  }

  /** Distinct links give distinct addresses. */
  lemma AbsoluteInjective(a: string, b: string)
    requires Absolute(a) == Absolute(b)
    ensures a == b
  {
    AbsoluteRoundTrip(a);
    AbsoluteRoundTrip(b);
  }
}
