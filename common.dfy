/** Values shared by every part of the model: optional values, the
    exceptions the script can raise, and a result that carries either. */
module Common {

  datatype Option<T> = None | Some(value: T)

  /** Each exception the script can raise on its way from a show name to a
      status, named after the place it arises. */
  datatype Error =
    | NoSearchResult            // IndexError: the search page lists no result link
    | NoRuntimeText             // IndexError: the show page's subtext holds no anchor text
    | NoEnDash(runtime: string) // ValueError: the runtime text holds no en dash
    | NoSeasonLink              // IndexError: the show page has no latest-season link
    | NoEpisodes                // IndexError: the season page lists no episode
    | NoAirdateText             // IndexError: an unaired episode shows no airdate text
    | BadAirdate(text: string)  // ValueError: the airdate does not match '%d %b. %Y'

  datatype Result<T> = Ok(value: T) | Err(error: Error)
}
