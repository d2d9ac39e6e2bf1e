/** The entity shape (`lib/type/character.ts`) and the response envelope
    whose `results` field carries the loaded characters. */
module Characters {

  datatype Option<+T> = None | Some(value: T)

  /** `string | StaticImageData`: a plain URL or a bundled image descriptor.
      Which one a character carries never influences filtering or badges. */
  datatype Image = Url(url: string) | StaticImage(src: string)

  /** One character record. `status` and `gender` are free text: the values
      the API returns ("Alive", "Dead", "unknown", "Male", ...) are not
      enforced. */
  datatype Character = Character(
    id: int,
    name: string,
    gender: string,
    status: string,
    image: Image
  )

  /** The parsed JSON body. Only `results` is read; it may be missing. */
  datatype Envelope = Envelope(results: Option<seq<Character>>)

  /** `charactersData?.results || []`: the characters of the loaded body, or
      none when the body or its `results` is missing. */
  function LoadedCharacters(data: Option<Envelope>): (cs: seq<Character>)
    ensures data.None? ==> cs == []
    ensures data.Some? && data.value.results.None? ==> cs == []
    ensures data.Some? && data.value.results.Some? ==> cs == data.value.results.value
  {
    match data
    case None => []
    case Some(envelope) =>
      match envelope.results
      case None => []
      case Some(results) => results
  }
}
