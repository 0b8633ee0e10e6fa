/** The driver: the show list taken from the command-line arguments, one
    status per show in order, and the message that is mailed. */
module Report {
  import opened Common
  import opened PyStr
  import opened ShowUrl
  import opened Airdate
  import opened Status

  /** The site as the script sees it: every page it fetches, already
      parsed, as a function of the page's address. */
  datatype Site = Site(
    searchResults: string -> seq<string>,
    showPage: string -> ShowPage,
    seasonPage: string -> seq<Episode>)

  /** ' '.join(args).split(','): the pieces between commas, which joined
      back with ',' give the space-joined arguments. */
  function ShowList(args: seq<string>): (shows: seq<string>)
    ensures |shows| >= 1
    ensures forall i :: 0 <= i < |shows| ==> ',' !in shows[i]
    ensures Join(shows, ",") == Join(args, " ")
  {
    JoinSplit(Join(args, " "), ',');
    Split(Join(args, " "), ',')
  }

  /** get_show_status(get_show_url(show)): a search with no result is an
      error; otherwise the status is read from the page of the first
      result, made absolute. */
  function ShowStatusOf(show: string, site: Site): (r: Result<ShowStatus>)
    ensures r.Ok? ==> Renderable(r.value)
    ensures site.searchResults(SearchUrl(show)) == [] ==> r == Err(NoSearchResult)
    ensures site.searchResults(SearchUrl(show)) != [] ==>
      r == StatusOf(site.showPage(Absolute(site.searchResults(SearchUrl(show))[0])), site.seasonPage)
  {
    match GetShowUrl(show, site.searchResults)
    case Err(e) => Err(e)
    case Ok(url) => StatusOf(site.showPage(url), site.seasonPage)
  }

  /** The status lookup main applies to each show on a site. */
  function StatusOn(site: Site): string -> Result<ShowStatus> {
    show => ShowStatusOf(show, site)
  }

  /** The statuses of all shows in order, each found by statusOf, or the
      error of the first show whose status cannot be found (an exception
      ends the run). */
  function StatusesOf(shows: seq<string>, statusOf: string -> Result<ShowStatus>): (r: Result<seq<ShowStatus>>)
    ensures r.Ok? ==> |r.value| == |shows|
    ensures r.Ok? ==> forall i :: 0 <= i < |shows| ==> statusOf(shows[i]) == Ok(r.value[i])
  {
    if shows == [] then Ok([])
    else match statusOf(shows[0])
      case Err(e) => Err(e)
      case Ok(st) =>
        match StatusesOf(shows[1..], statusOf)
        case Err(e) => Err(e)
        case Ok(rest) => Ok([st] + rest)
  }

  /** One pass of the loop body: the show's link, then its status. It is a
      method because it calls Status.GetShowStatus, the method that leads to
      the episode loop of Status.ScanSeason; CollectStatuses calls it. */
  method FetchStatus(show: string, site: Site) returns (r: Result<ShowStatus>)
    ensures r == ShowStatusOf(show, site)
  {
    var url := GetShowUrl(show, site.searchResults);
    if url.Err? {
      return Err(url.error);
    }
    r := GetShowStatus(site.showPage(url.value), site.seasonPage);
  }

  /** The main loop collecting statuses: each show's link is resolved and
      its status appended, and the first exception stops the loop. */
  method CollectStatuses(shows: seq<string>, site: Site) returns (r: Result<seq<ShowStatus>>)
    ensures r == StatusesOf(shows, StatusOn(site))
  {
    var statuses: seq<ShowStatus> := [];
    var i := 0;
    while i < |shows|
      invariant 0 <= i <= |shows|
      invariant StatusesOf(shows[..i], StatusOn(site)) == Ok(statuses)
    {
      var status := FetchStatus(shows[i], site);
      assert status == StatusOn(site)(shows[i]);
      if status.Err? {
        PrefixFails(shows, StatusOn(site), i);
        return Err(status.error);
      }
      PrefixGrows(shows, StatusOn(site), i);
      statuses := statuses + [status.value];
      i := i + 1;
    }
    assert shows[..i] == shows;
    return Ok(statuses);
  }

  /** One more show with a status extends the statuses of the shows before it. */
  lemma PrefixGrows(shows: seq<string>, statusOf: string -> Result<ShowStatus>, i: nat)
    requires i < |shows| && StatusesOf(shows[..i], statusOf).Ok? && statusOf(shows[i]).Ok?
    ensures StatusesOf(shows[..i + 1], statusOf) ==
      Ok(StatusesOf(shows[..i], statusOf).value + [statusOf(shows[i]).value])
  {
    var before := StatusesOf(shows[..i], statusOf).value;
    var after := before + [statusOf(shows[i]).value];
    forall j | 0 <= j < i + 1 ensures statusOf(shows[..i + 1][j]) == Ok(after[j]) {
      if j < i { assert shows[..i + 1][j] == shows[..i][j]; }
    }
    AllStatusesFound(shows[..i + 1], statusOf, after);
  }

  /** A show without a status after shows that all have one ends the run
      with its error. */
  lemma PrefixFails(shows: seq<string>, statusOf: string -> Result<ShowStatus>, i: nat)
    requires i < |shows| && StatusesOf(shows[..i], statusOf).Ok? && statusOf(shows[i]).Err?
    ensures StatusesOf(shows, statusOf) == Err(statusOf(shows[i]).error)
  {
    var before := StatusesOf(shows[..i], statusOf).value;
    forall j | 0 <= j < i ensures statusOf(shows[j]) == Ok(before[j]) {
      assert shows[..i][j] == shows[j];
    }
    FirstFailureWins(shows, statusOf, before, statusOf(shows[i]).error);
  }

  /** When every show has a status, they are the statuses of the run. */
  lemma {:induction false} AllStatusesFound(shows: seq<string>, statusOf: string -> Result<ShowStatus>, statuses: seq<ShowStatus>)
    requires |statuses| == |shows|
    requires forall j :: 0 <= j < |shows| ==> statusOf(shows[j]) == Ok(statuses[j])
    ensures StatusesOf(shows, statusOf) == Ok(statuses)
    decreases |shows|
  {
    if shows != [] {
      forall j | 0 <= j < |shows| - 1 ensures statusOf(shows[1..][j]) == Ok(statuses[1..][j]) {
        assert shows[1..][j] == shows[j + 1];
      }
      AllStatusesFound(shows[1..], statusOf, statuses[1..]);
      assert statusOf(shows[0]) == Ok(statuses[0]);
      assert statuses == [statuses[0]] + statuses[1..];
    }
  }

  /** The first show whose status fails decides the run's error, whatever
      the shows after it. */
  lemma {:induction false} FirstFailureWins(shows: seq<string>, statusOf: string -> Result<ShowStatus>, statuses: seq<ShowStatus>, e: Error)
    requires |statuses| < |shows|
    requires forall j :: 0 <= j < |statuses| ==> statusOf(shows[j]) == Ok(statuses[j])
    requires statusOf(shows[|statuses|]) == Err(e)
    ensures StatusesOf(shows, statusOf) == Err(e)
    decreases |statuses|
  {
    if statuses != [] {
      forall j | 0 <= j < |statuses| - 1 ensures statusOf(shows[1..][j]) == Ok(statuses[1..][j]) {
        assert shows[1..][j] == shows[j + 1];
      }
      assert shows[1..][|statuses| - 1] == shows[|statuses|];
      FirstFailureWins(shows[1..], statusOf, statuses[1..], e);
      assert statusOf(shows[0]) == Ok(statuses[0]);
    }
  }

  /** How str.format writes a returned status: its sentence, or "None". */
  function StatusText(st: ShowStatus): (text: string)
    requires Renderable(st)
    ensures text == "None" <==> st.Unknown?
    ensures !st.Unknown? ==> Render(st) == Some(text)
  {
    match Render(st)
    case None => "None"
    case Some(text) => text
  }

  function Texts(statuses: seq<ShowStatus>): (texts: seq<string>)
    requires forall i :: 0 <= i < |statuses| ==> Renderable(statuses[i])
    ensures |texts| == |statuses|
    ensures forall i :: 0 <= i < |statuses| ==> texts[i] == StatusText(statuses[i])
  {
    seq(|statuses|, i requires 0 <= i < |statuses| => StatusText(statuses[i]))
  }

  /** The two lines of one show, followed by a blank line. */
  function Block(show: string, status: string): string {
    "TV Series Name: " + Title(show) + "\n" + "Status: " + status + "\n\n"
  }

  /** A block names the show title-cased on its first line and gives the
      status on its second, and ends with a blank line. */
  lemma BlockLines(show: string, status: string)
    ensures var b := Block(show, status);
      |b| == 27 + |show| + |status| &&
      b[..16] == "TV Series Name: " && b[16..16 + |show|] == Title(show) &&
      b[16 + |show|..25 + |show|] == "\nStatus: " && b[25 + |show|..25 + |show| + |status|] == status &&
      b[|b| - 2..] == "\n\n"
  {
  }

  /** The blocks of the pairs of zip(shows, statuses), in order: zip stops
      at the shorter list. */
  function Blocks(shows: seq<string>, statuses: seq<string>): (blocks: seq<string>)
    ensures |blocks| == if |shows| < |statuses| then |shows| else |statuses|
    ensures forall i :: 0 <= i < |blocks| ==> blocks[i] == Block(shows[i], statuses[i])
  {
    var n := if |shows| < |statuses| then |shows| else |statuses|;
    seq(n, i requires 0 <= i < n => Block(shows[i], statuses[i]))
  }

  /** The strings of parts one after the other. */
  function Concat(parts: seq<string>): string {
    if parts == [] then [] else Concat(parts[..|parts| - 1]) + parts[|parts| - 1]
  }

  /** The message: the blocks of all pairs, one after the other. */
  function Message(shows: seq<string>, statuses: seq<string>): string {
    Concat(Blocks(shows, statuses))
  }

  /** The loop that grows the message one block at a time. */
  method BuildMessage(shows: seq<string>, statuses: seq<string>) returns (msg: string)
    ensures msg == Message(shows, statuses)
  {
    ghost var blocks := Blocks(shows, statuses);
    msg := "";
    var i := 0;
    while i < |shows| && i < |statuses|
      invariant 0 <= i <= |blocks|
      invariant msg == Concat(blocks[..i])
    {
      assert blocks[..i + 1][..i] == blocks[..i];
      msg := msg + Block(shows[i], statuses[i]);
      i := i + 1;
    }
    assert blocks[..i] == blocks;
  }

  /** main without its printing, logging and sending: the message it mails,
      or the exception that ends it first. */
  method Run(args: seq<string>, site: Site) returns (r: Result<string>)
    ensures StatusesOf(ShowList(args), StatusOn(site)).Err? ==>
      r == Err(StatusesOf(ShowList(args), StatusOn(site)).error)
    ensures StatusesOf(ShowList(args), StatusOn(site)).Ok? ==>
      r == Ok(Message(ShowList(args), Texts(StatusesOf(ShowList(args), StatusOn(site)).value)))
  {
    var shows := ShowList(args);
    var statuses := CollectStatuses(shows, site);
    if statuses.Err? {
      return Err(statuses.error);
    }
    AllRenderable(shows, site, statuses.value);
    var msg := BuildMessage(shows, Texts(statuses.value));
    return Ok(msg);
  }

  /** Every status found on a site can be written out. */
  lemma AllRenderable(shows: seq<string>, site: Site, statuses: seq<ShowStatus>)
    requires StatusesOf(shows, StatusOn(site)) == Ok(statuses)
    ensures forall i :: 0 <= i < |statuses| ==> Renderable(statuses[i])
  {
    forall i | 0 <= i < |statuses| ensures Renderable(statuses[i]) {
      assert ShowStatusOf(shows[i], site) == Ok(statuses[i]);
    }
  }

  /** zip stops at the shorter list: only the first min(|shows|, |statuses|)
      pairs give blocks. */
  lemma MessageTruncates(shows: seq<string>, statuses: seq<string>, n: nat)
    requires n == if |shows| < |statuses| then |shows| else |statuses|
    ensures Message(shows, statuses) == Message(shows[..n], statuses[..n])
  {
    assert Blocks(shows, statuses) == Blocks(shows[..n], statuses[..n]);
  }

  /** Appending a pair appends its block: the message is the blocks of the
      pairs in input order. */
  lemma MessageAppend(shows: seq<string>, statuses: seq<string>, show: string, status: string)
    requires |shows| == |statuses|
    ensures Message(shows + [show], statuses + [status]) == Message(shows, statuses) + Block(show, status)
  {
    var blocks := Blocks(shows + [show], statuses + [status]);
    assert blocks[..|shows|] == Blocks(shows, statuses);
  }

  /** A site on which "breaking bad" is an ongoing show whose latest season
      has one aired episode and then one unaired on 12 Mar. 2024. */
  const ExamplePage: ShowPage := ShowPage(["TV Series (2008" + [Runtime.EnDash] + " )\n"], ["/title/tt0903747/episodes"])
  const ExampleEpisodes: seq<Episode> := [Episode(false, ["10 Mar. 2024"]), Episode(true, ["12 Mar. 2024"])]
  const ExampleSite: Site := Site(_ => ["/title/tt0903747/"], _ => ExamplePage, _ => ExampleEpisodes)

  /** The example's latest season: its second episode is the next one. */
  lemma ExampleSeason()
    ensures SeasonStatus(ExampleEpisodes) == Ok(NextEpisode(Date(2024, 3, 12)))
  {
    var next := ExampleEpisodes[1];
    assert next.airdateTexts[0] == "12 Mar. 2024";
    StripUnchanged("12 Mar. 2024");
    SecondExample();
    ParsedIsNextEpisode(next, Date(2024, 3, 12));
    EarliestUnairedDecides(ExampleEpisodes, 1);
  }

  /** Every show searched on the example site gets the status of that next
      episode. */
  lemma ExampleStatus(name: string)
    ensures ShowStatusOf(name, ExampleSite) == Ok(NextEpisode(Date(2024, 3, 12)))
  {
    var url := Absolute("/title/tt0903747/");
    assert GetShowUrl(name, ExampleSite.searchResults) == Ok(url);
    var page := ExampleSite.showPage(url);
    assert page == ExamplePage;
    Runtime.OngoingExample();
    OngoingUsesLatestSeason(page, ExampleSite.seasonPage);
    ExampleSeason();
  }

  /** Every list of shows searched on the example site gets that status for
      each show. */
  lemma ExampleStatuses(shows: seq<string>)
    ensures StatusesOf(shows, StatusOn(ExampleSite)) ==
      Ok(seq(|shows|, _ => NextEpisode(Date(2024, 3, 12))))
  {
    var statuses := seq(|shows|, _ => NextEpisode(Date(2024, 3, 12)));
    forall j | 0 <= j < |shows| ensures StatusOn(ExampleSite)(shows[j]) == Ok(statuses[j]) {
      ExampleStatus(shows[j]);
    }
    AllStatusesFound(shows, StatusOn(ExampleSite), statuses);
  }

  /** The name line of the example capitalises each word. */
  lemma TitleExample()
    ensures Title("breaking bad") == "Breaking Bad"
  {
    var s := "breaking bad";
    var t := Title(s);
    assert s[8] == ' ' && s[9] == 'b';
    assert forall j :: 0 <= j < 12 && j != 8 ==> 'a' <= s[j] <= 'z';
    assert t[0] == 'B' && t[9] == 'B';
    forall i | 0 < i < 12 && i != 9 ensures t[i] == s[i] {
      assert i - 1 != 8;
      assert IsLetter(s[i - 1]);
      assert t[i] == Lower(s[i]);
    }
  }

  /** The example's arguments name one show. */
  lemma ExampleShowList()
    ensures ShowList(["breaking bad"]) == ["breaking bad"]
  {
    var name := "breaking bad";
    assert Join([name], " ") == name;
    SplitJoin([name], ',');
    assert Join([name], [',']) == name;
  }

  /** A single pair gives a single block. */
  lemma MessageOfOne(show: string, status: string)
    ensures Message([show], [status]) == Block(show, status)
  {
    var blocks := Blocks([show], [status]);
    assert blocks == [Block(show, status)];
    assert blocks[..0] == [];
    assert Concat(blocks) == [] + Block(show, status);
  }

  /** Any one show on the example site gets the next episode on 12 March
      2024, and the message is that show's single block. */
  lemma ExampleOneShow(name: string)
    ensures StatusesOf([name], StatusOn(ExampleSite)) == Ok([NextEpisode(Date(2024, 3, 12))])
    ensures Message([name], Texts([NextEpisode(Date(2024, 3, 12))])) == Block(name, NextEpisodePrefix + "2024-03-12")
  {
    var next := NextEpisode(Date(2024, 3, 12));
    ExampleStatuses([name]);
    assert seq(1, _ => next) == [next];
    ExampleText();
    assert Texts([next]) == [NextEpisodePrefix + "2024-03-12"];
    MessageOfOne(name, NextEpisodePrefix + "2024-03-12");
  }

  /** The whole example: the argument "breaking bad" on the example site
      gives one status, the next episode on 12 March 2024, and a message of
      one block for that show and "Next episode airs on 2024-03-12". */
  lemma ExampleMessage()
    ensures StatusesOf(ShowList(["breaking bad"]), StatusOn(ExampleSite)) == Ok([NextEpisode(Date(2024, 3, 12))])
    ensures Message(ShowList(["breaking bad"]), Texts([NextEpisode(Date(2024, 3, 12))])) ==
      Block("breaking bad", NextEpisodePrefix + "2024-03-12")
  {
    ExampleShowList();
    ExampleOneShow("breaking bad");
  }

  /** The example's status is written as the next-episode sentence. */
  lemma ExampleText()
    ensures StatusText(NextEpisode(Date(2024, 3, 12))) == NextEpisodePrefix + "2024-03-12"
  {
    RenderedDate(Date(2024, 3, 12));
    IsoOfSecondExample();
  }
}
