/** get_show_status: from a show's page, and the latest season's page
    reached through it, to the show's airing status. */
module Status {
  import opened Common
  import opened PyStr
  import opened ShowUrl
  import opened Runtime
  import opened Airdate

  /** What the script reads from a show page: the texts of the anchors in
      the subtext region, in document order, and the links of the
      latest-season control. */
  datatype ShowPage = ShowPage(runtimeTexts: seq<string>, seasonHrefs: seq<string>)

  /** One episode row of a season page: whether it carries the
      "add-image-container" placeholder that marks it unaired, and the texts
      of its airdate element. */
  datatype Episode = Episode(unaired: bool, airdateTexts: seq<string>)

  /** The four outcomes of get_show_status. */
  datatype ShowStatus =
    | Finished
    | NextSeason(airdate: string)
    | NextEpisode(date: Date)
    | Unknown

  /** A status that can be shown: a next episode's date is a real date. */
  predicate Renderable(st: ShowStatus) {
    st.NextEpisode? ==> ValidDate(st.date)
  }

  /** Written in two pieces: the verifier reads the characters of a literal
      this long only through a concatenation of shorter ones. */
  const FinishedText: string := "The show has finished " + "streaming all its episodes."
  const NextSeasonPrefix: string := "The next season begins in "
  const NextEpisodePrefix: string := "Next episode airs on "

  /** The value get_show_status returns for a status: its sentence, or None
      when the function falls off its end. */
  function Render(st: ShowStatus): (r: Option<string>)
    requires Renderable(st)
    ensures r.None? <==> st.Unknown?
  {
    match st
    case Finished => Some(FinishedText)
    case NextSeason(a) => Some(NextSeasonPrefix + a)
    case NextEpisode(d) => Some(NextEpisodePrefix + IsoDate(d))
    case Unknown => None
  }

  /** The index of the first unaired episode at or after from. */
  function FirstUnaired(episodes: seq<Episode>, from: nat): (r: Option<nat>)
    requires from <= |episodes|
    ensures r.Some? ==> from <= r.value < |episodes| && episodes[r.value].unaired
    ensures r.Some? ==> forall j :: from <= j < r.value ==> !episodes[j].unaired
    ensures r.None? ==> forall j :: from <= j < |episodes| ==> !episodes[j].unaired
    decreases |episodes| - from
  {
    if from == |episodes| then None
    else if episodes[from].unaired then Some(from)
    else FirstUnaired(episodes, from + 1)
  }

  /** An unaired episode that is not the first: its stripped airdate text
      read as '%d %b. %Y'. */
  function NextEpisodeOf(episode: Episode): (r: Result<ShowStatus>)
    ensures r.Ok? ==> r.value.NextEpisode? && Renderable(r.value)
    ensures episode.airdateTexts == [] ==> r == Err(NoAirdateText)
    ensures episode.airdateTexts != [] && ParseAirdate(Strip(episode.airdateTexts[0])).Err? ==>
      r == Err(BadAirdate(Strip(episode.airdateTexts[0])))
  {
    if episode.airdateTexts == [] then Err(NoAirdateText)
    else match ParseAirdate(Strip(episode.airdateTexts[0]))
      case Err(e) => Err(e)
      case Ok(d) => Ok(NextEpisode(d))
  }

  /** The decision over a season page: the first episode unaired means the
      next season and its stripped airdate text; otherwise the first unaired
      one after it gives the next episode; none unaired gives no status. */
  function SeasonStatus(episodes: seq<Episode>): (r: Result<ShowStatus>)
    ensures r.Ok? ==> Renderable(r.value) && !r.value.Finished?
    ensures episodes == [] ==> r == Err(NoEpisodes)
    ensures episodes != [] && episodes[0].unaired && episodes[0].airdateTexts == [] ==> r == Err(NoAirdateText)
  {
    if episodes == [] then Err(NoEpisodes)
    else if episodes[0].unaired then
      if episodes[0].airdateTexts == [] then Err(NoAirdateText)
      else Ok(NextSeason(Strip(episodes[0].airdateTexts[0])))
    else match FirstUnaired(episodes, 1)
      case None => Ok(Unknown)
      case Some(k) => NextEpisodeOf(episodes[k])
  }

  /** The address of the latest season's page, when the page links one. */
  function SeasonUrl(page: ShowPage): Option<string> {
    if page.seasonHrefs == [] then None else Some(Absolute(page.seasonHrefs[0]))
  }

  /** get_show_status as a function of the show page and of the fetching
      and parsing of a season page (an address to its episode rows). */
  function StatusOf(page: ShowPage, seasonPage: string -> seq<Episode>): (r: Result<ShowStatus>)
    ensures r.Ok? ==> Renderable(r.value)
    ensures page.runtimeTexts == [] ==> r == Err(NoRuntimeText)
    ensures page.runtimeTexts != [] && EnDash !in page.runtimeTexts[|page.runtimeTexts| - 1] ==>
      r == Err(NoEnDash(page.runtimeTexts[|page.runtimeTexts| - 1]))
    ensures (page.runtimeTexts != [] && IsFinished(page.runtimeTexts[|page.runtimeTexts| - 1]) == Ok(false) &&
             page.seasonHrefs == []) ==> r == Err(NoSeasonLink)
  {
    if page.runtimeTexts == [] then Err(NoRuntimeText)
    else match IsFinished(page.runtimeTexts[|page.runtimeTexts| - 1])
      case Err(e) => Err(e)
      case Ok(finished) =>
        if finished then Ok(Finished)
        else match SeasonUrl(page)
          case None => Err(NoSeasonLink)
          case Some(url) => SeasonStatus(seasonPage(url))
  }

  /** get_show_status up to the fetch of the latest season's page. It is a
      method, beside the function StatusOf that specifies it, because it
      calls ScanSeason, the method holding the episode loop; main's loop
      reaches it through Report.FetchStatus. */
  method GetShowStatus(page: ShowPage, seasonPage: string -> seq<Episode>) returns (r: Result<ShowStatus>)
    ensures r == StatusOf(page, seasonPage)
  {
    if page.runtimeTexts == [] {
      return Err(NoRuntimeText);
    }
    var runtime := page.runtimeTexts[|page.runtimeTexts| - 1];
    var finished := IsFinished(runtime);
    if finished.Err? {
      return Err(finished.error);
    }
    if finished.value {
      return Ok(Finished);
    }
    if page.seasonHrefs == [] {
      return Err(NoSeasonLink);
    }
    OngoingUsesLatestSeason(page, seasonPage);
    r := ScanSeason(seasonPage(Absolute(page.seasonHrefs[0])));
  }

  /** The rest of get_show_status: the first episode, then the scan of the
      episodes after it for the first unaired one. */
  method ScanSeason(episodes: seq<Episode>) returns (r: Result<ShowStatus>)
    ensures r == SeasonStatus(episodes)
  {
    if episodes == [] {
      return Err(NoEpisodes);
    }
    if episodes[0].unaired {
      if episodes[0].airdateTexts == [] {
        return Err(NoAirdateText);
      }
      return Ok(NextSeason(Strip(episodes[0].airdateTexts[0])));
    }
    var i := 1;
    while i < |episodes|
      invariant 1 <= i <= |episodes|
      invariant forall j :: 1 <= j < i ==> !episodes[j].unaired
    {
      if episodes[i].unaired {
        EarliestUnairedDecides(episodes, i);
        return NextEpisodeOf(episodes[i]);
      }
      i := i + 1;
    }
    return Ok(Unknown);
  }

  /** A finished show's status is the fixed sentence, and neither the
      season link nor the season page is consulted. */
  lemma FinishedIgnoresSeason(page: ShowPage, hrefs: seq<string>, f: string -> seq<Episode>, g: string -> seq<Episode>)
    requires page.runtimeTexts != []
    requires IsFinished(page.runtimeTexts[|page.runtimeTexts| - 1]) == Ok(true)
    ensures StatusOf(page, f) == Ok(Finished)
    ensures StatusOf(page.(seasonHrefs := hrefs), g) == Ok(Finished)
    ensures Render(Finished) == Some(FinishedText)
  {
  }

  /** An ongoing show's status depends on the season page at the latest
      season's address and on no other page. */
  lemma OnlyLatestSeasonConsulted(page: ShowPage, f: string -> seq<Episode>, g: string -> seq<Episode>)
    requires SeasonUrl(page).Some? ==> f(SeasonUrl(page).value) == g(SeasonUrl(page).value)
    ensures StatusOf(page, f) == StatusOf(page, g)
  {
  }

  /** Whether the show is finished is decided by the last subtext anchor's
      text alone; an ongoing show with a season link gets the status of its
      latest season. */
  lemma OngoingUsesLatestSeason(page: ShowPage, f: string -> seq<Episode>)
    requires page.runtimeTexts != [] && page.seasonHrefs != []
    requires IsFinished(page.runtimeTexts[|page.runtimeTexts| - 1]) == Ok(false)
    ensures StatusOf(page, f) == SeasonStatus(f(Absolute(page.seasonHrefs[0])))
  {
  }

  /** A first episode that is unaired announces the next season with its
      stripped airdate text, whatever follows it. */
  lemma FirstUnairedIsNextSeason(first: Episode, rest: seq<Episode>)
    requires first.unaired && first.airdateTexts != []
    ensures SeasonStatus([first] + rest) == Ok(NextSeason(Strip(first.airdateTexts[0])))
    ensures Render(NextSeason(Strip(first.airdateTexts[0]))) ==
      Some(NextSeasonPrefix + Strip(first.airdateTexts[0]))
  {
  }

  /** With the first episode aired, the earliest unaired episode after it
      decides the status, and the episodes after that one do not matter. */
  lemma EarliestUnairedDecides(episodes: seq<Episode>, k: nat)
    requires 1 <= k < |episodes| && !episodes[0].unaired && episodes[k].unaired
    requires forall j :: 1 <= j < k ==> !episodes[j].unaired
    ensures SeasonStatus(episodes) == NextEpisodeOf(episodes[k])
  {
    assert FirstUnaired(episodes, 1) == Some(k);
  }

  /** With no unaired episode there is no status. */
  lemma NoUnairedIsUnknown(episodes: seq<Episode>)
    requires episodes != []
    requires forall j :: 0 <= j < |episodes| ==> !episodes[j].unaired
    ensures SeasonStatus(episodes) == Ok(Unknown)
    ensures Render(Unknown) == None
  {
  }

  /** An unaired episode whose airdate text parses is the next episode on
      that date. */
  lemma ParsedIsNextEpisode(episode: Episode, d: Date)
    requires episode.airdateTexts != [] && ParseAirdate(Strip(episode.airdateTexts[0])) == Ok(d)
    ensures NextEpisodeOf(episode) == Ok(NextEpisode(d)) && ValidDate(d)
  {
  }

  /** The next episode's sentence carries its date in ISO form. */
  lemma NextEpisodeSentence(episode: Episode, d: Date)
    requires episode.airdateTexts != [] && ParseAirdate(Strip(episode.airdateTexts[0])) == Ok(d)
    ensures NextEpisodeOf(episode) == Ok(NextEpisode(d))
    ensures Render(NextEpisode(d)) == Some(NextEpisodePrefix + IsoDate(d))
  {
    ParsedIsNextEpisode(episode, d);
    RenderedDate(d);
  }

  lemma RenderedDate(d: Date)
    requires ValidDate(d)
    ensures Render(NextEpisode(d)) == Some(NextEpisodePrefix + IsoDate(d))
  {
  }

  /** The three sentences get_show_status can return. */
  datatype Sentence = FinishedSentence | SeasonSentence | EpisodeSentence

  /** Which sentence a text is, read from where the three differ: "Next
      episode" begins with 'N', and of the two that begin with "The ", "The
      show" has 's' as its fifth character and "The next" has 'n'. */
  function SentenceKind(text: string): Sentence {
    if text != [] && text[0] == 'N' then EpisodeSentence
    else if |text| > 4 && text[4] == 's' then FinishedSentence
    else SeasonSentence
  }

  /** Each status that has a sentence is rendered as the sentence of its
      own kind. */
  lemma SentenceKindOfRender(st: ShowStatus)
    requires Renderable(st) && !st.Unknown?
    ensures SentenceKind(Render(st).value) == match st
      case Finished => FinishedSentence
      case NextSeason(_) => SeasonSentence
      case _ => EpisodeSentence
  {
    var text := Render(st).value;
    match st
    case Finished =>
      assert text[0] == 'T' && text[4] == 's';
    case NextSeason(_) =>
      assert text[0] == 'T' && text[4] == 'n';
    case NextEpisode(_) =>
      assert text[0] == 'N';
  }

  /** Distinct statuses are rendered as distinct values. */
  lemma RenderInjective(a: ShowStatus, b: ShowStatus)
    requires Renderable(a) && Renderable(b)
    ensures Render(a) == Render(b) ==> a == b
  {
    if !a.Unknown? && !b.Unknown? {
      SentenceKindOfRender(a);
      SentenceKindOfRender(b);
      if a.NextSeason? && b.NextSeason? {
        assert a.airdate == Render(a).value[|NextSeasonPrefix|..];
        assert b.airdate == Render(b).value[|NextSeasonPrefix|..];
      } else if a.NextEpisode? && b.NextEpisode? {
        assert IsoDate(a.date) == Render(a).value[|NextEpisodePrefix|..];
        assert IsoDate(b.date) == Render(b).value[|NextEpisodePrefix|..];
      }
    }
  }
}
