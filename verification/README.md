# Character browser filter — a Dafny model

The application is a single page that loads Rick and Morty characters from a
public REST endpoint and shows them as cards. The user narrows the list with
two drop-downs: status and gender. Both default to `"all"`. The logic worth
modelling is small:

- the filter predicate: the lower-cased status must equal the status
  selection and the lower-cased gender must equal the gender selection, and
  `"all"` matches anything;
- the defaulting of a missing `results` to an empty list;
- the choice between a spinner, an error message, the "no characters match"
  message and the card grid;
- the two badges on each card. Each badge has a capitalised label and one of
  three colours, keyed on the lower-cased value.

Modules, one per concern:

- `Ascii` (`ascii.dfy`): `toLowerCase`, `toUpperCase` and the
  `charAt(0).toUpperCase() + slice(1)` capitalisation, restricted to ASCII.
- `Characters` (`character.dfy`): the `Character` record, the response
  envelope, and `charactersData?.results || []`.
- `CharacterFilter` (`filter.dfy`): the predicate and the recursive `Filter`.
  It also holds an index-level characterisation (`Positions`), the loop that
  `Array.prototype.filter` runs, and the lemmas: order-preserving selection,
  exact multiplicities, identity under the defaults, idempotence and
  independence of the two selections.
- `Badges` (`badges.dfy`): badge colours, the Tailwind classes the badges
  carry, and how they relate to the filter.
- `HomePage` (`page.dfy`): the `res.ok` check of `fetchCharacters`, the
  query state the page reads, and `Render`, which decides what the page
  shows.

The comparison ignores case only on the character's side. The code
lower-cases `character.status` and `character.gender` and compares the
selection as it is. So a selection such as `"Dead"` matches nothing
(`CharacterFilter.UpperCaseSelectionRejects`). The drop-downs only ever emit
lower-case values.

Everything else that is not pure is a parameter:

- The network, the JSON parser and the query cache are outside the model.
  `CheckResponse` receives the response's `ok` flag and the parsed body as
  inputs.
- `Settled` receives the query's final outcome, after any retries the query
  hook makes.
- The two selections are plain arguments. They stand in for the `useState`
  hooks.

## Model

| member | source | states |
|---|---|---|
| `Ascii.LowerChar` | app/page.tsx:36-38 | ASCII lower-casing of one character: the result is never an upper-case letter; an upper-case letter maps to its lower-case counterpart; every other character is unchanged |
| `Ascii.UpperChar` | app/page.tsx:123-124 | ASCII upper-casing of one character: the result is never a lower-case letter; a lower-case letter maps to its upper-case counterpart; every other character is unchanged |
| `Ascii.LowerOfUpper` | app/page.tsx:123-124 | upper-casing a character does not change its lower-case |
| `Ascii.ToLower` | app/page.tsx:36-38 | `toLowerCase` keeps the length, leaves no upper-case letter, and fixes strings that are already lower-case |
| `Ascii.ToLowerIdempotent` | app/page.tsx:116-118 | lower-casing twice is lower-casing once |
| `Ascii.ToLowerEqual` | app/page.tsx:36-38 | two strings lower-case to the same string exactly when they have equal length and agree position by position up to case (`SameUpToCase`) |
| `Ascii.Capitalize` | app/page.tsx:123-124 | the label keeps the input's length; its first character is the upper-case of the input's first; the rest is unchanged; the empty string stays empty |
| `Ascii.CapitalizePreservesLower` | app/page.tsx:123-124 | a capitalised label lower-cases to the same string as the stored value |
| `Ascii.CapitalizeIdempotent` | app/page.tsx:135-136 | capitalising an already capitalised label changes nothing |
| `Characters.LoadedCharacters` | app/page.tsx:32 | a missing body or a missing `results` gives the empty list; otherwise the list is `results` itself |
| `CharacterFilter.MatchesStatus` | app/page.tsx:35-36 | the status selection `"all"` accepts every character; any other selection accepts only characters whose status has the selection's length (it must equal the lower-cased status) |
| `CharacterFilter.MatchesGender` | app/page.tsx:37-38 | the gender selection `"all"` accepts every character; any other selection accepts only characters whose gender has the selection's length (it must equal the lower-cased gender) |
| `CharacterFilter.Matches` | app/page.tsx:23-39 | the default pair of selections `"all"`, `"all"` accepts every character |
| `CharacterFilter.MatchesSpelledUpToCase` | app/page.tsx:35-39 | each selection accepts a character exactly when it is `"all"` or a lower-case string that spells the stored value position by position up to case; a character is kept exactly when both accept it |
| `CharacterFilter.Filter` | app/page.tsx:34-40 | the result is no longer than the input; a character is in it exactly when it is in the input and both selections accept it |
| `CharacterFilter.Positions` | app/page.tsx:34-40 | the indices of the input that both selections accept, strictly increasing, and every accepted index is listed |
| `CharacterFilter.FilterIsOrderedSelection` | app/page.tsx:34-40 | the filtered sequence is the input read at exactly the accepted indices, in increasing order, so it is an order-preserving subsequence |
| `CharacterFilter.FilterCounts` | app/page.tsx:34-40 | every character occurs in the result as often as in the input if accepted, and never otherwise |
| `CharacterFilter.FilterKeepsMatching` | app/page.tsx:34-40 | a list whose every member is accepted passes through unchanged |
| `CharacterFilter.DefaultSelectionKeepsAll` | app/page.tsx:23-38 | under the default selections `"all"` and `"all"` the filtered list equals the loaded list |
| `CharacterFilter.FilterIdempotent` | app/page.tsx:34-40 | filtering the filtered list again with the same selections returns it unchanged |
| `CharacterFilter.FilterAppend` | app/page.tsx:34-40 | filtering a concatenation gives the concatenation of the filtered parts |
| `CharacterFilter.FilterComposes` | app/page.tsx:35-39 | filtering by status alone and then by gender alone equals filtering by both |
| `CharacterFilter.StoredCaseIgnored` | app/page.tsx:36-38 | a character stored as `"Dead"`/`"Female"` is kept under `"dead"`/`"female"`, and one stored as `"aLiVe"`/`"MALE"` under `"alive"`/`"male"` |
| `CharacterFilter.SameUpToCaseFilteredAlike` | app/page.tsx:36-38 | two characters whose status and gender agree position by position up to case are accepted or rejected together |
| `CharacterFilter.UpperCaseSelectionRejects` | app/page.tsx:36 | a status selection other than `"all"` that contains an upper-case letter accepts no character |
| `CharacterFilter.ThreeCharacterExample` | app/page.tsx:34-40 | Rick, Morty (Alive, Male) and Summer (Dead, Female): `"alive"` keeps Rick and Morty in order, `"female"` keeps Summer, `"dead"` with `"male"` keeps nobody |
| `CharacterFilter.FilterCharacters` | app/page.tsx:34-40 | the index-order loop that appends each accepted character computes exactly `Filter` |
| `Badges.ColourClass` | app/page.tsx:115-132 | every badge colour is written as a `bg-` class |
| `Badges.ColourClassInjective` | app/page.tsx:115-132 | distinct colours get distinct classes, so a badge's class names exactly one colour |
| `Badges.StatusColour` | app/page.tsx:116-120 | the status badge is green, red or gray; green exactly when the lower-cased status is `alive`; red exactly when it is `dead` |
| `Badges.GenderColour` | app/page.tsx:128-132 | the gender badge is blue, pink or gray; blue exactly when the lower-cased gender is `male`; pink exactly when it is `female` |
| `Badges.StatusBadge` | app/page.tsx:114-125 | the status badge's label is the capitalised status (first character upper-cased, the rest as stored), so it has the status's length and lower-cases to the same string; its class is the status colour's class, and reading the colour back from the label gives the same class |
| `Badges.GenderBadge` | app/page.tsx:126-137 | the gender badge's label is the capitalised gender (first character upper-cased, the rest as stored), so it has the gender's length and lower-cases to the same string; its class is the gender colour's class, and reading the colour back from the label gives the same class |
| `Badges.BadgeColourIgnoresCase` | app/page.tsx:114-137 | the badge colour ignores the stored value's case, and a badge carries a colour's class exactly when the value has that colour |
| `Badges.KeptStatusColour` | app/page.tsx:116-120 | under a status selection other than `"all"`, every kept character's status badge has the colour of that selection |
| `Badges.KeptGenderColour` | app/page.tsx:128-132 | under a gender selection other than `"all"`, every kept character's gender badge has the colour of that selection |
| `HomePage.CheckResponse` | app/page.tsx:10-13 | the fetch fails exactly when the response is not ok, with the fixed "could not be retrieved" message; otherwise it yields the parsed body |
| `HomePage.Settled` | app/page.tsx:17-21 | once finally settled the query is not loading; a failure sets the error and no data; a success sets the data and no error |
| `HomePage.ThrownValueDecides` | app/page.tsx:30-93 | a query that finally fails with an `Error` object shows `"Error: "` and its message; one that fails with any other thrown value skips the error branch, has no data, and shows "no characters match" |
| `HomePage.CardOf` | app/page.tsx:96-139 | a card is keyed by the character's id and shows its name and image; its badge labels are the capitalised status and gender, which lower-case to the stored values; its badge classes are those of the status and gender colours |
| `HomePage.Shown` | app/page.tsx:32-40 | the listed characters are exactly the loaded ones both selections accept, with no loaded list when `results` is missing |
| `HomePage.PendingShowsSpinner` | app/page.tsx:26-28 | while the request is in flight the page shows only the spinner, whatever the selections |
| `HomePage.Render` | app/page.tsx:26-102 | spinner exactly while loading; error text exactly for an `Error` and otherwise not loading; "no characters match" exactly when the filtered list is empty; otherwise a grid with one card per shown character, in order |
| `HomePage.FailedFetchShowsMessage` | app/page.tsx:10-30 | when the query finally fails on a response that is not ok, the page ends on `"Error: Data could not be retrieved from the API"` and no cards, whatever the selections |
| `HomePage.AbsentResultsShowNoMatches` | app/page.tsx:32-93 | an ok body without `results` is not an error: the page shows "no characters match" |
| `HomePage.DefaultSelectionShowsAll` | app/page.tsx:23-102 | under the default selections "no characters match" shows only for an empty load; otherwise there is one card per loaded character, in order, keyed by id |
| `HomePage.GridAgreesWithSelection` | app/page.tsx:96-136 | on the grid, under a selection other than `"all"`, each badge label lower-cases to that selection and carries the class of that selection's colour |

## Left out

- Network I/O in `fetchCharacters` (app/page.tsx:8-14): the request and the JSON parsing are left out. Only the `res.ok` check is modelled. A transport or parse failure is just some thrown value the caller passes in.
- The query hook's cache, retries and refetching (app/page.tsx:17-21) are outside the model. `Settled` describes only the final outcome of the query, after the hook's retries. A failed refetch that keeps earlier data is not modelled.
- React state and `onChange` handlers (app/page.tsx:23-24, 59, 79) are UI plumbing. The selections are plain parameters. The option lists (app/page.tsx:62-65, 82-85) only show which values the UI offers.
- The loading spinner component is markup with no logic.
- Image source resolution (app/page.tsx:104-109) is left out. The image is carried through to the card unchanged. `StaticImageData` belongs to the framework.
- Markup, layout and every Tailwind class other than the badge background class are left out.
- Full Unicode case mapping is left out. `toLowerCase` and `toUpperCase` are modelled on ASCII only. Unicode mapping can change a string's length, for example `ß` becomes `SS`.
- JavaScript strings are UTF-16, so `charAt(0)` on an astral character takes half of a surrogate pair. In the model strings are sequences of Unicode scalar values.
- CharacterFilter.MatchesStatus, CharacterFilter.MatchesGender and CharacterFilter.Matches: their own contracts state only the `"all"` wildcard and the length fact. The full characterisation is the lemma `CharacterFilter.MatchesSpelledUpToCase`. Keeping its quantifiers out of the predicates keeps every proof that mentions the filter small.
- Characters.LoadedCharacters: models `results` as present or missing. A present but falsy non-array value, which `|| []` would also replace, is not modelled.
- A character with a missing `status` or `gender` would make `toLowerCase` throw. Fields are assumed present, as the `Character` type declares.
- Uniqueness of card keys (character ids) is not modelled. Nothing in the page depends on it beyond React's reconciliation.
