/** The two badges of a character card: a capitalised label and a
    background colour chosen from the lower-cased stored value. */
module Badges {
  import opened Ascii
  import opened Characters
  import opened CharacterFilter

  /** The background colours a badge can carry. */
  datatype Colour = Green | Red | Blue | Pink | Gray

  /** The Tailwind class written into the badge's `className`. */
  function ColourClass(colour: Colour): (cls: string)
    ensures |cls| > 3 && cls[..3] == "bg-"
  {
    match colour
    case Green => "bg-green-400"
    case Red => "bg-red-400"
    case Blue => "bg-blue-400"
    case Pink => "bg-pink-400"
    case Gray => "bg-gray-300"
  }

  /** Distinct colours are written as distinct classes. */
  lemma ColourClassInjective(a: Colour, b: Colour)
    ensures ColourClass(a) == ColourClass(b) <==> a == b
  {
    if a != b {
      assert ColourClass(a)[5] != ColourClass(b)[5];
    }
  }

  /** Status badge: "alive" is green, "dead" is red, anything else gray,
      compared after lower-casing. */
  function StatusColour(status: string): (colour: Colour)
    ensures colour == Green || colour == Red || colour == Gray
    ensures colour == Green <==> ToLower(status) == "alive"
    ensures colour == Red <==> ToLower(status) == "dead"
  {
    var key := ToLower(status);
    if key == "alive" then Green
    else if key == "dead" then Red
    else Gray
  }

  /** Gender badge: "male" is blue, "female" is pink, anything else gray,
      compared after lower-casing. */
  function GenderColour(gender: string): (colour: Colour)
    ensures colour == Blue || colour == Pink || colour == Gray
    ensures colour == Blue <==> ToLower(gender) == "male"
    ensures colour == Pink <==> ToLower(gender) == "female"
  {
    var key := ToLower(gender);
    if key == "male" then Blue
    else if key == "female" then Pink
    else Gray
  }

  /** A badge as rendered: its text and its background class. */
  datatype Badge = Badge(text: string, className: string)

  /** The status badge: the capitalised status on the status colour. The
      label keeps the stored value up to case, so the class read back from
      the label is the class the badge carries. */
  function StatusBadge(status: string): (b: Badge)
    ensures b.text == Capitalize(status)
    ensures |b.text| == |status| && ToLower(b.text) == ToLower(status)
    ensures b.className == ColourClass(StatusColour(status))
    ensures b.className == ColourClass(StatusColour(b.text))
  {
    CapitalizePreservesLower(status);
    Badge(Capitalize(status), ColourClass(StatusColour(status)))
  }

  /** The gender badge: the capitalised gender on the gender colour. */
  function GenderBadge(gender: string): (b: Badge)
    ensures b.text == Capitalize(gender)
    ensures |b.text| == |gender| && ToLower(b.text) == ToLower(gender)
    ensures b.className == ColourClass(GenderColour(gender))
    ensures b.className == ColourClass(GenderColour(b.text))
  {
    CapitalizePreservesLower(gender);
    Badge(Capitalize(gender), ColourClass(GenderColour(gender)))
  }

  /** The colour of a badge ignores the case of the stored value, and the
      class a badge carries names exactly one colour. */
  lemma {:induction false} BadgeColourIgnoresCase(value: string, colour: Colour)
    ensures StatusColour(ToLower(value)) == StatusColour(value)
    ensures GenderColour(ToLower(value)) == GenderColour(value)
    ensures StatusBadge(value).className == ColourClass(colour) <==> StatusColour(value) == colour
    ensures GenderBadge(value).className == ColourClass(colour) <==> GenderColour(value) == colour
  {
    ToLowerIdempotent(value);
    ColourClassInjective(StatusColour(value), colour);
    ColourClassInjective(GenderColour(value), colour);
  }

  /** Every character kept by a status selection other than "all" shows the
      colour that selection names: all green under "alive", all red under
      "dead", all gray under "unknown". */
  lemma {:induction false} KeptStatusColour(cs: seq<Character>, statusFilter: string, genderFilter: string, c: Character)
    requires statusFilter != All
    requires c in Filter(cs, statusFilter, genderFilter)
    ensures StatusColour(c.status) == StatusColour(statusFilter)
  {
    ToLowerIdempotent(c.status);
  }

  /** Likewise for the gender selection: blue under "male", pink under
      "female", gray under "unknown". */
  lemma {:induction false} KeptGenderColour(cs: seq<Character>, statusFilter: string, genderFilter: string, c: Character)
    requires genderFilter != All
    requires c in Filter(cs, statusFilter, genderFilter)
    ensures GenderColour(c.gender) == GenderColour(genderFilter)
  {
    ToLowerIdempotent(c.gender);
  }
}
