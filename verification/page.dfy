/** The home page: which of its four faces it shows (spinner, error
    message, "no characters match", card grid) for a given query state and
    pair of selections, and what each card holds. */
module HomePage {
  import opened Ascii
  import opened Characters
  import opened CharacterFilter
  import opened Badges

  /** A value thrown by the query function: an `Error` object carrying its
      message, or any other value. */
  datatype Thrown = ErrorObject(message: string) | OtherValue

  datatype Result<+T> = Success(value: T) | Failure(error: Thrown)

  /** The message `fetchCharacters` throws on a response that is not ok. */
  const FetchFailedMessage: string := "Data could not be retrieved from the API"

  /** `fetchCharacters` once the response has arrived: a response whose `ok`
      flag is false throws an `Error`; otherwise the parsed body is the
      query's data. */
  function CheckResponse(ok: bool, body: Option<Envelope>): (r: Result<Option<Envelope>>)
    ensures r.Failure? <==> !ok
    ensures r.Failure? ==> r.error == ErrorObject(FetchFailedMessage)
    ensures r.Success? ==> r.value == body
  {
    if !ok then Failure(ErrorObject(FetchFailedMessage)) else Success(body)
  }

  /** What the query hook hands the page: `isLoading`, `error` and `data`. */
  datatype QueryState = QueryState(isLoading: bool, error: Option<Thrown>, data: Option<Envelope>)

  /** The query state while the one request is in flight. */
  const Pending: QueryState := QueryState(true, None, None)

  /** The query state once the query has finally settled with `outcome`
      (after whatever retries the query hook makes). */
  function Settled(outcome: Result<Option<Envelope>>): (q: QueryState)
    ensures !q.isLoading
    ensures outcome.Failure? ==> q.error == Some(outcome.error) && q.data == None
    ensures outcome.Success? ==> q.error == None && q.data == outcome.value
  {
    match outcome
    case Success(data) => QueryState(false, None, data)
    case Failure(e) => QueryState(false, Some(e), None)
  }

  /** One card of the grid. `key` is the React key, the character's id. */
  datatype Card = Card(key: int, name: string, image: Image, status: Badge, gender: Badge)

  /** The card of one character: keyed by its id, its name and image as
      stored, and two badges labelled with its capitalised status and
      gender, which read as the stored values up to case. */
  function CardOf(c: Character): (card: Card)
    ensures card.key == c.id && card.name == c.name && card.image == c.image
    ensures card.status.text == Capitalize(c.status) && card.gender.text == Capitalize(c.gender)
    ensures ToLower(card.status.text) == ToLower(c.status)
    ensures ToLower(card.gender.text) == ToLower(c.gender)
    ensures card.status.className == ColourClass(StatusColour(c.status))
    ensures card.gender.className == ColourClass(GenderColour(c.gender))
  {
    Card(c.id, c.name, c.image, StatusBadge(c.status), GenderBadge(c.gender))
  }

  /** What the page shows. */
  datatype View = Spinner | ErrorText(text: string) | NoMatches | Grid(cards: seq<Card>)

  /** The query failed with an `Error` object (`error instanceof Error`). */
  function FailedWithError(q: QueryState): (r: bool)
    ensures r <==> q.error.Some? && q.error.value != OtherValue
  {
    q.error.Some? && q.error.value.ErrorObject?
  }

  /** The characters the page lists once it gets past loading and error:
      the loaded characters (none when `results` is missing) filtered by
      the two selections. */
  function Shown(q: QueryState, statusFilter: string, genderFilter: string): (r: seq<Character>)
    ensures forall c :: c in r <==> c in LoadedCharacters(q.data) && Matches(c, statusFilter, genderFilter)
  {
    Filter(LoadedCharacters(q.data), statusFilter, genderFilter)
  }

  /** The page for query state `q` under the two selections. Loading wins
      over an error, an error over the data; an empty filtered list shows
      the "no characters match" message instead of an empty grid. */
  function Render(q: QueryState, statusFilter: string, genderFilter: string): (v: View)
    ensures v.Spinner? <==> q.isLoading
    ensures v.ErrorText? <==> !q.isLoading && FailedWithError(q)
    ensures v.ErrorText? ==> v.text == "Error: " + q.error.value.message
    ensures v.NoMatches? <==> !q.isLoading && !FailedWithError(q) && |Shown(q, statusFilter, genderFilter)| == 0
    ensures v.Grid? <==> !q.isLoading && !FailedWithError(q) && |Shown(q, statusFilter, genderFilter)| > 0
    ensures v.Grid? ==>
      var shown := Shown(q, statusFilter, genderFilter);
      && |v.cards| == |shown|
      && forall i :: 0 <= i < |shown| ==> v.cards[i] == CardOf(shown[i])
  {
    if q.isLoading then Spinner
    else if FailedWithError(q) then ErrorText("Error: " + q.error.value.message)
    else
      var shown := Shown(q, statusFilter, genderFilter);
      if |shown| == 0 then NoMatches
      else Grid(seq(|shown|, i requires 0 <= i < |shown| => CardOf(shown[i])))
  }

  /** While the request is in flight the page shows only the spinner,
      whatever the selections. */
  lemma PendingShowsSpinner(statusFilter: string, genderFilter: string)
    ensures Render(Pending, statusFilter, genderFilter) == Spinner
  {
  }

  /** What a final failure shows depends on what was thrown: an `Error`
      object shows its message; any other thrown value skips the error
      branch, leaves no data, and so shows "no characters match". */
  lemma ThrownValueDecides(message: string, statusFilter: string, genderFilter: string)
    ensures Render(Settled(Failure(ErrorObject(message))), statusFilter, genderFilter)
            == ErrorText("Error: " + message)
    ensures Render(Settled(Failure(OtherValue)), statusFilter, genderFilter) == NoMatches
  {
  }

  /** When the query finally fails on a response that is not ok, the page
      ends on the error message and no cards, whatever the selections. */
  lemma FailedFetchShowsMessage(body: Option<Envelope>, statusFilter: string, genderFilter: string)
    ensures Render(Settled(CheckResponse(false, body)), statusFilter, genderFilter)
            == ErrorText("Error: " + FetchFailedMessage)
  {
  }

  /** A body without `results` is not an error: it is an empty list, so the
      page shows "no characters match". */
  lemma AbsentResultsShowNoMatches(data: Option<Envelope>, statusFilter: string, genderFilter: string)
    requires data.None? || data.value.results.None?
    ensures Render(Settled(CheckResponse(true, data)), statusFilter, genderFilter) == NoMatches
  {
  }

  /** Under the default selections every loaded character gets a card, in
      the order loaded; only an empty load shows "no characters match". */
  lemma {:induction false} DefaultSelectionShowsAll(cs: seq<Character>)
    ensures var v := Render(Settled(CheckResponse(true, Some(Envelope(Some(cs))))), All, All);
      && (v.NoMatches? <==> |cs| == 0)
      && (v.Grid? ==>
            && |v.cards| == |cs|
            && forall i :: 0 <= i < |cs| ==> v.cards[i].key == cs[i].id && v.cards[i].name == cs[i].name)
  {
    var q := Settled(CheckResponse(true, Some(Envelope(Some(cs)))));
    assert LoadedCharacters(q.data) == cs;
    DefaultSelectionKeepsAll(cs);
    assert Shown(q, All, All) == cs;
  }

  /** Every badge on the grid agrees with the active selections: under a
      status selection other than "all" each status badge reads, up to
      case, as that selection and carries the class of the colour that
      selection names; the
      same holds for gender. */
  lemma {:induction false} GridAgreesWithSelection(q: QueryState, statusFilter: string, genderFilter: string, i: nat)
    requires Render(q, statusFilter, genderFilter).Grid?
    requires i < |Render(q, statusFilter, genderFilter).cards|
    ensures var card := Render(q, statusFilter, genderFilter).cards[i];
      && (statusFilter != All ==>
            ToLower(card.status.text) == statusFilter
            && card.status.className == ColourClass(StatusColour(statusFilter)))
      && (genderFilter != All ==>
            ToLower(card.gender.text) == genderFilter
            && card.gender.className == ColourClass(GenderColour(genderFilter)))
  {
    var shown := Shown(q, statusFilter, genderFilter);
    var c := shown[i];
    assert c in shown;
    if statusFilter != All {
      KeptStatusColour(LoadedCharacters(q.data), statusFilter, genderFilter, c);
    }
    if genderFilter != All {
      KeptGenderColour(LoadedCharacters(q.data), statusFilter, genderFilter, c);
    }
  }
}
