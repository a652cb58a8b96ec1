/** The friend Details page: showing one friend, and deleting one of the
    friend's pets or quotes and coming back to the same page. */
module Details {
  import opened Nullable
  import opened Text
  import opened Model

  /** The page model: the friend shown. */
  datatype DetailsPage = DetailsPage(friend: Option<Friend>)

  /** `string.IsNullOrEmpty(id) || !Guid.TryParse(id, out g)`, inverted: the
      identifier the handler goes on with, if any. */
  function ParseId(id: Option<string>, tryParse: string -> Option<Guid>): (g: Option<Guid>)
    ensures g.Some? <==> !IsNullOrEmpty(id) && tryParse(id.value).Some?
    ensures g.Some? ==> g == tryParse(id.value)
  {
    if IsNullOrEmpty(id) then None else tryParse(id.value)
  }

  /** `OnGet(id)`: a found friend is shown; every other case, an exception
      included, goes back to the overview. */
  function OnGet(p: DetailsPage, id: Option<string>, tryParse: string -> Option<Guid>, read: Reply<Friend>)
    : (h: Handled<DetailsPage>)
    ensures h.outcome.Page? <==> ParseId(id, tryParse).Some? && read.Found?
    ensures h.outcome.Page? ==> h.outcome.state.friend == Some(read.item)
    ensures h.outcome.Redirect? ==> h.outcome.target == Overview
    ensures h.calls == if ParseId(id, tryParse).Some? then [ReadFriend(ParseId(id, tryParse).value)] else []
  {
    match ParseId(id, tryParse)
    case None => Handled(Redirect(Overview), [])
    case Some(g) =>
      var calls := [ReadFriend(g)];
      match read
      case Found(fr) => Handled(Page(p.(friend := Some(fr))), calls)
      case NotFound => Handled(Redirect(Overview), calls)
      case Failed(_) => Handled(Redirect(Overview), calls)
  }

  /** `OnPostDeletePetAsync(petId, friendId)`: every path, a bad id, a pet not
      found, a deletion or an exception, ends on this page for `friendId`,
      passed through unparsed; the pet service is called only with a parsed id.
      The service's reply only chooses a log line, so it is not an input. */
  function OnPostDeletePet(petId: Option<string>, friendId: Option<string>, tryParse: string -> Option<Guid>)
    : (h: Handled<DetailsPage>)
    ensures h.outcome == Redirect(DetailsRoute(friendId))
    ensures h.calls == if ParseId(petId, tryParse).Some? then [DeletePet(ParseId(petId, tryParse).value)] else []
  {
    match ParseId(petId, tryParse)
    case None => Handled(Redirect(DetailsRoute(friendId)), [])
    case Some(g) => Handled(Redirect(DetailsRoute(friendId)), [DeletePet(g)])
  }

  /** `OnPostDeleteQuoteAsync(quoteId, friendId)`: the same guarantees as for
      pets, with the quote service. */
  function OnPostDeleteQuote(quoteId: Option<string>, friendId: Option<string>, tryParse: string -> Option<Guid>)
    : (h: Handled<DetailsPage>)
    ensures h.outcome == Redirect(DetailsRoute(friendId))
    ensures h.calls == if ParseId(quoteId, tryParse).Some? then [DeleteQuote(ParseId(quoteId, tryParse).value)] else []
  {
    match ParseId(quoteId, tryParse)
    case None => Handled(Redirect(DetailsRoute(friendId)), [])
    case Some(g) => Handled(Redirect(DetailsRoute(friendId)), [DeleteQuote(g)])
  }

  /** Deleting a pet or a quote with an empty or unparsable id issues no call at
      all. */
  lemma BadIdDeletesNothing(rawId: Option<string>, friendId: Option<string>, tryParse: string -> Option<Guid>)
    requires IsNullOrEmpty(rawId) || tryParse(rawId.value).None?
    ensures OnPostDeletePet(rawId, friendId, tryParse).calls == []
    ensures OnPostDeleteQuote(rawId, friendId, tryParse).calls == []
  {
  }
}
