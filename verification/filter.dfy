/** The character filter of the home page: a character is shown when its
    lower-cased status equals the status selection and its lower-cased
    gender equals the gender selection, where the selection "all" accepts
    anything. The selections themselves are compared as they are, without
    lower-casing. */
module CharacterFilter {
  import opened Ascii
  import opened Characters

  /** The selection value that accepts every character. */
  const All: string := "all"

  /** The status selection accepts the character: it is "all", or it equals
      the character's status lower-cased, so it has the status's length. */
  function MatchesStatus(c: Character, statusFilter: string): (r: bool)
    ensures statusFilter == All ==> r
    ensures r && statusFilter != All ==> |statusFilter| == |c.status|
  {
    statusFilter == All || ToLower(c.status) == statusFilter
  }

  /** The gender selection accepts the character, in the same way. */
  function MatchesGender(c: Character, genderFilter: string): (r: bool)
    ensures genderFilter == All ==> r
    ensures r && genderFilter != All ==> |genderFilter| == |c.gender|
  {
    genderFilter == All || ToLower(c.gender) == genderFilter
  }

  /** Both selections must accept the character; the default pair accepts
      everyone. */
  function Matches(c: Character, statusFilter: string, genderFilter: string): (r: bool)
    ensures statusFilter == All && genderFilter == All ==> r
  {
    MatchesStatus(c, statusFilter) && MatchesGender(c, genderFilter)
  }

  /** A selection accepts a character exactly when it is "all" or is a
      lower-case string that spells the stored value up to case; a
      character is kept exactly when both selections accept it. */
  lemma MatchesSpelledUpToCase(c: Character, statusFilter: string, genderFilter: string)
    ensures MatchesStatus(c, statusFilter) <==>
      statusFilter == All || (IsLowerCase(statusFilter) && SameUpToCase(c.status, statusFilter))
    ensures MatchesGender(c, genderFilter) <==>
      genderFilter == All || (IsLowerCase(genderFilter) && SameUpToCase(c.gender, genderFilter))
    ensures Matches(c, statusFilter, genderFilter) <==>
      && (statusFilter == All || (IsLowerCase(statusFilter) && SameUpToCase(c.status, statusFilter)))
      && (genderFilter == All || (IsLowerCase(genderFilter) && SameUpToCase(c.gender, genderFilter)))
  {
    ToLowerEqual(c.status, statusFilter);
    ToLowerEqual(c.gender, genderFilter);
  }

  /** The characters both selections accept, in their original order. */
  function Filter(cs: seq<Character>, statusFilter: string, genderFilter: string): (r: seq<Character>)
    ensures |r| <= |cs|
    ensures forall c :: c in r ==> c in cs && Matches(c, statusFilter, genderFilter)
    ensures forall c :: c in cs && Matches(c, statusFilter, genderFilter) ==> c in r
    decreases |cs|
  {
    if |cs| == 0 then []
    else
      var last := cs[|cs| - 1];
      assert cs == cs[..|cs| - 1] + [last];
      Filter(cs[..|cs| - 1], statusFilter, genderFilter)
        + (if Matches(last, statusFilter, genderFilter) then [last] else [])
  }

  /** The indices of the matching characters, in increasing order. */
  function Positions(cs: seq<Character>, statusFilter: string, genderFilter: string): (idx: seq<nat>)
    ensures forall k :: 0 <= k < |idx| ==> idx[k] < |cs| && Matches(cs[idx[k]], statusFilter, genderFilter)
    ensures forall k, l :: 0 <= k < l < |idx| ==> idx[k] < idx[l]
    ensures forall i :: 0 <= i < |cs| && Matches(cs[i], statusFilter, genderFilter) ==> i in idx
    decreases |cs|
  {
    if |cs| == 0 then []
    else
      var prefix := Positions(cs[..|cs| - 1], statusFilter, genderFilter);
      if Matches(cs[|cs| - 1], statusFilter, genderFilter) then prefix + [|cs| - 1] else prefix
  }

  /** `cs` read at the indices `idx`, in the order of `idx`. */
  function ReadAt(cs: seq<Character>, idx: seq<nat>): seq<Character>
    requires forall k :: 0 <= k < |idx| ==> idx[k] < |cs|
  {
    seq(|idx|, k requires 0 <= k < |idx| => cs[idx[k]])
  }

  /** The filtered sequence is exactly the loaded sequence read at the
      matching indices, in increasing index order: a subsequence that keeps
      every match and nothing else. */
  lemma {:induction false} FilterIsOrderedSelection(cs: seq<Character>, statusFilter: string, genderFilter: string)
    ensures ReadAt(cs, Positions(cs, statusFilter, genderFilter)) == Filter(cs, statusFilter, genderFilter)
    decreases |cs|
  {
    if |cs| > 0 {
      var init, last := cs[..|cs| - 1], cs[|cs| - 1];
      var idx0 := Positions(init, statusFilter, genderFilter);
      FilterIsOrderedSelection(init, statusFilter, genderFilter);
      ReadAtPrefix(init, cs, idx0);
      if Matches(last, statusFilter, genderFilter) {
        ReadAtSnoc(cs, idx0, |cs| - 1);
      }
    }
  }

  /** Reading indices that lie inside a prefix gives the same as reading
      them in the whole sequence. */
  lemma ReadAtPrefix(init: seq<Character>, cs: seq<Character>, idx: seq<nat>)
    requires init <= cs
    requires forall k :: 0 <= k < |idx| ==> idx[k] < |init|
    ensures ReadAt(init, idx) == ReadAt(cs, idx)
  {
  }

  /** Reading one more index appends that index's element. */
  lemma ReadAtSnoc(cs: seq<Character>, idx: seq<nat>, i: nat)
    requires forall k :: 0 <= k < |idx| ==> idx[k] < |cs|
    requires i < |cs|
    ensures ReadAt(cs, idx + [i]) == ReadAt(cs, idx) + [cs[i]]
  {
  }

  /** Each character occurs in the filtered sequence exactly as often as in
      the loaded one when it matches, and not at all otherwise: filtering
      never duplicates, drops a match, or invents a character. */
  lemma {:induction false} FilterCounts(cs: seq<Character>, statusFilter: string, genderFilter: string, c: Character)
    ensures multiset(Filter(cs, statusFilter, genderFilter))[c]
            == if Matches(c, statusFilter, genderFilter) then multiset(cs)[c] else 0
    decreases |cs|
  {
    if |cs| > 0 {
      var init, last := cs[..|cs| - 1], cs[|cs| - 1];
      FilterCounts(init, statusFilter, genderFilter, c);
      assert cs == init + [last];
      assert multiset(cs) == multiset(init) + multiset{last};
    }
  }

  /** A sequence whose every member already matches is kept whole. */
  lemma {:induction false} FilterKeepsMatching(cs: seq<Character>, statusFilter: string, genderFilter: string)
    requires forall i :: 0 <= i < |cs| ==> Matches(cs[i], statusFilter, genderFilter)
    ensures Filter(cs, statusFilter, genderFilter) == cs
    decreases |cs|
  {
    if |cs| > 0 {
      FilterKeepsMatching(cs[..|cs| - 1], statusFilter, genderFilter);
      assert cs == cs[..|cs| - 1] + [cs[|cs| - 1]];
    }
  }

  /** With both selections at their default "all", nothing is filtered out. */
  lemma DefaultSelectionKeepsAll(cs: seq<Character>)
    ensures Filter(cs, All, All) == cs
  {
    FilterKeepsMatching(cs, All, All);
  }

  /** Filtering a filtered sequence again with the same selections changes
      nothing. */
  lemma FilterIdempotent(cs: seq<Character>, statusFilter: string, genderFilter: string)
    ensures var r := Filter(cs, statusFilter, genderFilter);
      Filter(r, statusFilter, genderFilter) == r
  {
    var r := Filter(cs, statusFilter, genderFilter);
    assert forall i :: 0 <= i < |r| ==> r[i] in r;
    FilterKeepsMatching(r, statusFilter, genderFilter);
  }

  /** Filtering distributes over concatenation. */
  lemma {:induction false} FilterAppend(a: seq<Character>, b: seq<Character>, statusFilter: string, genderFilter: string)
    ensures Filter(a + b, statusFilter, genderFilter)
            == Filter(a, statusFilter, genderFilter) + Filter(b, statusFilter, genderFilter)
    decreases |b|
  {
    if |b| > 0 {
      var b' := b[..|b| - 1];
      assert (a + b)[..|a + b| - 1] == a + b';
      FilterAppend(a, b', statusFilter, genderFilter);
    } else {
      assert a + b == a;
    }
  }

  /** The two selections act independently: applying the status selection
      and then the gender selection is the same as applying both at once. */
  lemma {:induction false} FilterComposes(cs: seq<Character>, statusFilter: string, genderFilter: string)
    ensures Filter(Filter(cs, statusFilter, All), All, genderFilter) == Filter(cs, statusFilter, genderFilter)
    decreases |cs|
  {
    if |cs| > 0 {
      var init, last := cs[..|cs| - 1], cs[|cs| - 1];
      FilterComposes(init, statusFilter, genderFilter);
      FilterAppend(Filter(init, statusFilter, All),
                   if Matches(last, statusFilter, All) then [last] else [], All, genderFilter);
      assert Filter([last], All, genderFilter) == if MatchesGender(last, genderFilter) then [last] else [] by {
        assert [last][..0] == [];
      }
    }
  }

  /** The comparison ignores the case of the stored value: a character
      stored as "Dead" and "Female", or as "aLiVe" and "MALE", is accepted
      by the lower-case selections that spell those words. */
  lemma StoredCaseIgnored(id: int, name: string, image: Image)
    ensures Matches(Character(id, name, "Female", "Dead", image), "dead", "female")
    ensures Matches(Character(id, name, "MALE", "aLiVe", image), "alive", "male")
  {
    assert ToLower("Dead") == "dead";
    assert ToLower("Female") == "female";
    assert ToLower("aLiVe") == "alive";
    assert ToLower("MALE") == "male";
  }

  /** Characters whose status and gender agree position by position up to
      case are accepted or rejected together. */
  lemma SameUpToCaseFilteredAlike(c: Character, d: Character, statusFilter: string, genderFilter: string)
    requires SameUpToCase(c.status, d.status)
    requires SameUpToCase(c.gender, d.gender)
    ensures Matches(c, statusFilter, genderFilter) <==> Matches(d, statusFilter, genderFilter)
  {
    ToLowerEqual(c.status, d.status);
    ToLowerEqual(c.gender, d.gender);
  }

  /** The selection is not lower-cased: a selection other than "all" that
      holds an upper-case letter, such as "Dead", accepts no character. */
  lemma {:induction false} UpperCaseSelectionRejects(c: Character, statusFilter: string, i: nat)
    requires statusFilter != All
    requires i < |statusFilter| && IsUpperChar(statusFilter[i])
    ensures !MatchesStatus(c, statusFilter)
  {
    assert !IsLowerCase(statusFilter);
  }

  /** Three loaded characters as the API spells them: "Alive"/"Male" twice
      and "Dead"/"Female" once. "alive" keeps the first two, "female" the
      third, and "dead" with "male" keeps none. */
  lemma ThreeCharacterExample(image: Image)
    ensures var rick := Character(1, "Rick", "Male", "Alive", image);
      var morty := Character(2, "Morty", "Male", "Alive", image);
      var summer := Character(3, "Summer", "Female", "Dead", image);
      var cs := [rick, morty, summer];
      && Filter(cs, "alive", All) == [rick, morty]
      && Filter(cs, All, "female") == [summer]
      && Filter(cs, "dead", "male") == []
  {
    var rick := Character(1, "Rick", "Male", "Alive", image);
    var morty := Character(2, "Morty", "Male", "Alive", image);
    var summer := Character(3, "Summer", "Female", "Dead", image);
    var cs := [rick, morty, summer];
    assert MatchesStatus(rick, "alive") && MatchesStatus(morty, "alive") && !MatchesStatus(summer, "alive") by {
      assert ToLower("Alive") == "alive";
      assert ToLower("Dead") == "dead";
    }
    assert !MatchesGender(rick, "female") && !MatchesGender(morty, "female") && MatchesGender(summer, "female") by {
      assert ToLower("Male") == "male";
      assert ToLower("Female") == "female";
    }
    assert !MatchesStatus(rick, "dead") && !MatchesStatus(morty, "dead") && !MatchesGender(summer, "male") by {
      assert ToLower("Alive") == "alive";
      assert ToLower("Female") == "female";
    }
    FilterOfThree(rick, morty, summer, "alive", All);
    FilterOfThree(rick, morty, summer, All, "female");
    FilterOfThree(rick, morty, summer, "dead", "male");
  }

  /** Filtering three characters, one at a time. */
  lemma FilterOfThree(a: Character, b: Character, c: Character, statusFilter: string, genderFilter: string)
    ensures Filter([a, b, c], statusFilter, genderFilter)
            == (if Matches(a, statusFilter, genderFilter) then [a] else [])
             + (if Matches(b, statusFilter, genderFilter) then [b] else [])
             + (if Matches(c, statusFilter, genderFilter) then [c] else [])
  {
    FilterSnoc([], a, statusFilter, genderFilter);
    FilterSnoc([a], b, statusFilter, genderFilter);
    FilterSnoc([a, b], c, statusFilter, genderFilter);
    assert [] + [a] == [a] && [a] + [b] == [a, b] && [a, b] + [c] == [a, b, c];
  }

  /** Appending one character appends it to the filtered sequence exactly
      when it matches. */
  lemma FilterSnoc(cs: seq<Character>, c: Character, statusFilter: string, genderFilter: string)
    ensures Filter(cs + [c], statusFilter, genderFilter)
            == Filter(cs, statusFilter, genderFilter) + if Matches(c, statusFilter, genderFilter) then [c] else []
  {
    assert (cs + [c])[..|cs|] == cs;
  }

  /** The loop behind `Array.prototype.filter`: visit the characters in index
      order and append each one that matches. */
  method FilterCharacters(cs: seq<Character>, statusFilter: string, genderFilter: string)
    returns (r: seq<Character>)
    ensures r == Filter(cs, statusFilter, genderFilter)
  {
    r := [];
    var i := 0;
    while i < |cs|
      invariant 0 <= i <= |cs|
      invariant r == Filter(cs[..i], statusFilter, genderFilter)
    {
      assert cs[..i + 1] == cs[..i] + [cs[i]];
      FilterSnoc(cs[..i], cs[i], statusFilter, genderFilter);
      if Matches(cs[i], statusFilter, genderFilter) {
        r := r + [cs[i]];
      }
      i := i + 1;
    }
    assert cs[..|cs|] == cs;
  }
}
