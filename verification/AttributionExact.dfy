/** Exactly when attribution credits a target that wants the key: for one report, and for every
    report a list can meet. */
module AttributionExact {
  import opened Ascii
  import opened RegexMatch
  import opened Model
  import opened Compile
  import opened CompileMeaning
  import opened Attribution

  ghost predicate DistinctIds(active: seq<Target>) {
    forall i, j :: 0 <= i < j < |active| ==> active[i].id != active[j].id
  }

  // ---- One report ------------------------------------------------------------------------------

  /** The target wants the key on a side the report names. */
  ghost predicate WantsKey(eng: Engine, affixes: Affixes, t: Target, m: Match)
    requires affixes.Balanced()
  {
    exists side :: Reported(m, side) && TargetWants(eng, affixes, t, side, SideText(m.key, side))
  }

  /** Target `w` is the first of the list that wants the key. */
  ghost predicate FirstWanter(eng: Engine, affixes: Affixes, active: seq<Target>, m: Match, w: nat)
    requires affixes.Balanced()
  {
    && w < |active| && WantsKey(eng, affixes, active[w], m)
    && forall j :: 0 <= j < w ==> !WantsKey(eng, affixes, active[j], m)
  }

  /** Only a word target can claim a key without wanting it. */
  lemma RegexClaimIsWant(eng: Engine, affixes: Affixes, t: Target, m: Match)
    requires affixes.Balanced() && t.typ != "word" && Claims(eng, t, m)
    ensures WantsKey(eng, affixes, t, m)
  {
    var side :| ClaimsOnSide(eng, t, m, side);
    assert TargetWants(eng, affixes, t, side, SideText(m.key, side));
  }

  lemma WantKeyClaims(eng: Engine, affixes: Affixes, t: Target, m: Match)
    requires affixes.Balanced() && WantsKey(eng, affixes, t, m)
    ensures Claims(eng, t, m)
  {
    var side :| Reported(m, side) && TargetWants(eng, affixes, t, side, SideText(m.key, side));
    WantClaims(eng, affixes, t, m, side);
  }

  /** Attribution credits the first target that wants the key exactly when no word target
      listed before it merely has its word somewhere in the key. */
  lemma CreditsFirstWanterExactly(eng: Engine, affixes: Affixes, active: seq<Target>, m: Match, w: nat)
    requires affixes.Balanced() && DistinctIds(active) && FirstWanter(eng, affixes, active, m, w)
    ensures FirstClaimant(eng, active, m) == active[w].id
       <==> forall j :: 0 <= j < w && active[j].typ == "word" ==> !Claims(eng, active[j], m)
  {
    var id := FirstClaimant(eng, active, m);
    EarliestClaimantUnique(eng, active, m, id);
    WantKeyClaims(eng, affixes, active[w], m);
    var i :| 0 <= i < |active| && Claims(eng, active[i], m) && id == active[i].id
          && forall j :: 0 <= j < i ==> !Claims(eng, active[j], m);
    assert i <= w;
    if i < w && active[i].typ != "word" { RegexClaimIsWant(eng, affixes, active[i], m); }
  }

  // ---- The credited target, on the characters of the key ---------------------------------------

  /** The case modes a body or a row stands for. */
  function ModesOrDefault(t: Target): seq<string> { if t.caseModes == [] then ["insensitive"] else t.caseModes }

  /** On `side`, which the target searches and the report names, the key holds the word at `a`:
      capitals and small letters alike, as typed, or capitalised, as the mode says. */
  predicate WordInKey(t: Target, m: Match, mode: string, side: Side, a: nat) {
    && mode in ModesOrDefault(t)
    && (match side
        case Fingerprint => t.matchScope != "pubkey" && m.matchedFingerprint
        case AuthorizedKey => t.matchScope != "fingerprint" && m.matchedAuthorizedKey)
    && var s := if side.Fingerprint? then m.key.fingerprint else m.key.authorized;
       && a + |t.pattern| <= |s|
       && ((mode == "insensitive" && forall k :: 0 <= k < |t.pattern| ==> SameLetter(s[a + k], t.pattern[k]))
           || (mode == "sensitive" && s[a..a + |t.pattern|] == t.pattern)
           || (mode == "capitalized" && s[a..a + |t.pattern|] == Capitalized(t.pattern)))
  }

  /** The regular expression finds the key on `side`, which the target searches and the report names. */
  predicate RegexOnKey(eng: Engine, t: Target, m: Match, side: Side) {
    match side
    case Fingerprint => t.matchScope != "pubkey" && m.matchedFingerprint && eng.Hits(t.pattern, m.key.fingerprint)
    case AuthorizedKey =>
      t.matchScope != "fingerprint" && m.matchedAuthorizedKey && eng.Hits(t.pattern, m.key.authorized)
  }

  ghost predicate MatchesKey(eng: Engine, t: Target, m: Match) {
    if t.typ == "word" then exists mode, side, a: nat :: WordInKey(t, m, mode, side, a)
    else exists side :: RegexOnKey(eng, t, m, side)
  }

  lemma ClaimStandsInKey(eng: Engine, t: Target, m: Match, side: Side) returns (mode: string, a: nat)
    requires t.typ == "word" && ClaimsOnSide(eng, t, m, side)
    ensures WordInKey(t, m, mode, side, a)
  {
    mode :| mode in EffectiveModes(t) && ModeOccurs(t.pattern, mode, SideText(m.key, side));
    var word := if mode == "capitalized" then Capitalized(t.pattern) else t.pattern;
    assert |"sensitive"| != |"insensitive"| == |"capitalized"| && "capitalized"[0] != "insensitive"[0];
    a :| StandsAt(SideText(m.key, side), a, word, mode == "insensitive");
  }

  lemma StandingIsClaimed(eng: Engine, t: Target, m: Match, mode: string, side: Side, a: nat)
    requires t.typ == "word" && WordInKey(t, m, mode, side, a)
    ensures ClaimsOnSide(eng, t, m, side)
  {
    var s := SideText(m.key, side);
    var word := if mode == "capitalized" then Capitalized(t.pattern) else t.pattern;
    assert |"sensitive"| != |"insensitive"| == |"capitalized"|;
    assert StandsAt(s, a, word, mode == "insensitive");
    assert ModeOccurs(t.pattern, mode, s);
  }

  lemma WordClaimMeaning(eng: Engine, t: Target, m: Match)
    requires t.typ == "word"
    ensures Claims(eng, t, m) <==> exists mode, side, a: nat :: WordInKey(t, m, mode, side, a)
  {
    if side :| ClaimsOnSide(eng, t, m, side) {
      var mode, a := ClaimStandsInKey(eng, t, m, side);
    }
    if mode, side, a: nat :| WordInKey(t, m, mode, side, a) {
      StandingIsClaimed(eng, t, m, mode, side, a);
    }
  }

  lemma RegexClaimMeaning(eng: Engine, t: Target, m: Match)
    requires t.typ != "word"
    ensures Claims(eng, t, m) <==> exists side :: RegexOnKey(eng, t, m, side)
  {
    forall side
      ensures ClaimsOnSide(eng, t, m, side) <==> RegexOnKey(eng, t, m, side)
    {
    }
  }

  lemma ClaimMeaning(eng: Engine, t: Target, m: Match)
    ensures Claims(eng, t, m) <==> MatchesKey(eng, t, m)
  {
    if t.typ == "word" { WordClaimMeaning(eng, t, m); } else { RegexClaimMeaning(eng, t, m); }
  }

  /** Whatever the search answers is the ID of a target exactly when that target is the first
      of the list whose word stands in the key, or whose expression finds it. */
  lemma CreditedExactly(eng: Engine, active: seq<Target>, m: Match, id: string, i: nat)
    requires EarliestClaimant(eng, active, m, id)
    requires DistinctIds(active) && i < |active| && active[i].id != ""
    ensures id == active[i].id
       <==> MatchesKey(eng, active[i], m) && forall j :: 0 <= j < i ==> !MatchesKey(eng, active[j], m)
  {
    forall j | 0 <= j < |active|
      ensures Claims(eng, active[j], m) <==> MatchesKey(eng, active[j], m)
    {
      ClaimMeaning(eng, active[j], m);
    }
  }

  /** The search answers the empty ID exactly when no target's word or expression is in the key. */
  lemma UncreditedExactly(eng: Engine, active: seq<Target>, m: Match, id: string)
    requires EarliestClaimant(eng, active, m, id) && forall t :: t in active ==> t.id != ""
    ensures id == "" <==> forall j :: 0 <= j < |active| ==> !MatchesKey(eng, active[j], m)
  {
    forall j | 0 <= j < |active|
      ensures Claims(eng, active[j], m) <==> MatchesKey(eng, active[j], m)
    {
      ClaimMeaning(eng, active[j], m);
    }
  }

  // ---- Every report of a list ---------------------------------------------------------------------

  /** A report on one side alone. */
  predicate ReportedOnly(m: Match, side: Side) {
    forall other :: Reported(m, other) <==> other == side
  }

  ghost predicate CreditsFirstWanter(eng: Engine, active: seq<Target>, m: Match, side: Side) {
    exists w :: 0 <= w < |active| && FirstClaimant(eng, active, m) == active[w].id
                && DefaultWants(eng, active[w], side, SideText(m.key, side))
                && forall j :: 0 <= j < w ==> !DefaultWants(eng, active[j], side, SideText(m.key, side))
  }

  /** Every key that some target wants on `side` is credited to the first that does. */
  ghost predicate AlwaysCreditsFirstWanter(eng: Engine, active: seq<Target>, side: Side) {
    forall m, t :: ReportedOnly(m, side) && t in active && DefaultWants(eng, t, side, SideText(m.key, side)) ==>
                     CreditsFirstWanter(eng, active, m, side)
  }

  /** Target `f` wants every text on `side` that some target of the list wants. */
  ghost predicate WantsAll(eng: Engine, active: seq<Target>, side: Side, f: nat)
    requires f < |active|
  {
    forall t, s :: t in active && DefaultWants(eng, t, side, s) ==> DefaultWants(eng, active[f], side, s)
  }

  predicate FirstSearched(active: seq<Target>, side: Side, f: nat) {
    && f < |active| && SearchedOn(active[f], side)
    && forall j :: 0 <= j < f ==> !SearchedOn(active[j], side)
  }

  /** All targets are words, each with a known case mode. */
  ghost predicate WordList(active: seq<Target>) {
    forall t :: t in active ==> t.typ == "word" && exists mode :: mode in EffectiveModes(t) && KnownMode(mode)
  }

  function Padding(n: nat): (pad: string)
    ensures |pad| == n && forall i :: 0 <= i < n ==> pad[i] == 'A'
  {
    seq(n, _ => 'A')
  }

  /** The word, then padding longer than any match of it, then `s`. */
  function Padded(word: string, s: string): string { word + Padding(|word| + 2) + s }

  /** Text put in front does not move what stands at the end. */
  lemma EndsInFront(front: string, word: string, fold: bool, s: string, at: nat)
    requires EndsWithWord(word, fold, s, at)
    ensures EndsWithWord(word, fold, front + s, |front| + at)
  {
    var a, b := at + 1, at + 1 + |word|;
    assert (front + s)[|front| + a..|front| + b] == s[a..b];
  }

  /** A word no longer than the padding that ends the padded text ends `s` itself. */
  lemma EndsBehindPadding(word: string, w: string, fold: bool, s: string, at: nat)
    requires |w| == |word| && EndsWithWord(w, fold, Padded(word, s), at)
    ensures at >= |word| + |word| + 2 && EndsWithWord(w, fold, s, at - (|word| + |word| + 2))
  {
    var front := word + Padding(|word| + 2);
    var t := Padded(word, s);
    assert t == front + s;
    assert forall k :: |word| <= k < |front| ==> t[k] == front[k] == 'A';
    var a, b := at + 1, at + 1 + |w|;
    assert t[a..b] == s[a - |front|..b - |front|];
  }

  lemma PaddedStillWanted(eng: Engine, t: Target, side: Side, word: string, s: string)
    requires t.typ == "word" && DefaultWants(eng, t, side, s)
    ensures DefaultWants(eng, t, side, Padded(word, s))
  {
    var mode :| mode in EffectiveModes(t) && DefaultModeFinds(t.pattern, mode, s);
    var fold := mode == "insensitive";
    var w := if mode == "capitalized" then Capitalized(t.pattern) else t.pattern;
    assert |"sensitive"| != |"insensitive"| == |"capitalized"| && "capitalized"[0] != "insensitive"[0];
    var at: nat :| EndsWithWord(w, fold, s, at);
    EndsInFront(word + Padding(|word| + 2), w, fold, s, at);
    assert DefaultModeFinds(t.pattern, mode, Padded(word, s));
  }

  lemma PaddedWantIsWant(eng: Engine, t: Target, side: Side, word: string, s: string)
    requires t.typ == "word" && |word| == |t.pattern| && DefaultWants(eng, t, side, Padded(word, s))
    ensures DefaultWants(eng, t, side, s)
  {
    var mode :| mode in EffectiveModes(t) && DefaultModeFinds(t.pattern, mode, Padded(word, s));
    var fold := mode == "insensitive";
    var w := if mode == "capitalized" then Capitalized(t.pattern) else t.pattern;
    assert |"sensitive"| != |"insensitive"| == |"capitalized"| && "capitalized"[0] != "insensitive"[0];
    var at: nat :| EndsWithWord(w, fold, Padded(word, s), at);
    EndsBehindPadding(word, w, fold, s, at);
    assert DefaultModeFinds(t.pattern, mode, s);
  }

  /** A text that starts with the word in one of its spellings is claimed. */
  lemma SpelledIsClaimed(eng: Engine, t: Target, mode: string, m: Match, side: Side, rest: string)
    requires t.typ == "word" && mode in EffectiveModes(t) && KnownMode(mode)
    requires SearchedOn(t, side) && Reported(m, side)
    requires SideText(m.key, side) == ModeSpelling(t.pattern, mode) + rest
    ensures Claims(eng, t, m)
  {
    var word, s := ModeSpelling(t.pattern, mode), SideText(m.key, side);
    assert |"sensitive"| != |"insensitive"| == |"capitalized"|;
    assert s[0..|word|] == word && StandsAt(s, 0, word, false) && StandsAt(s, 0, word, true);
    assert ModeOccurs(t.pattern, mode, s);
    assert ClaimsOnSide(eng, t, m, side);
  }

  /** On a report of one side alone the credit goes no further than the first target searched
      there, if that claims the key. */
  lemma FirstSearchedIsCredited(eng: Engine, active: seq<Target>, m: Match, side: Side, f: nat)
    requires ReportedOnly(m, side) && FirstSearched(active, side, f) && Claims(eng, active[f], m)
    ensures FirstClaimant(eng, active, m) == active[f].id
  {
    forall j | 0 <= j < f
      ensures !Claims(eng, active[j], m)
    {
      assert forall other :: !ClaimsOnSide(eng, active[j], m, other);
    }
    EarliestClaimantUnique(eng, active, m, active[f].id);
  }

  /** A report of `text` on one side alone. */
  function SideReport(side: Side, text: string): (m: Match)
    ensures SideText(m.key, side) == text
  {
    Match("", "", "", "", "", 1, "", side.AuthorizedKey?, side.Fingerprint?, KeyText(text, text))
  }

  lemma SideReportOnly(side: Side, text: string)
    ensures ReportedOnly(SideReport(side, text), side)
  {
  }

  /** The target credited with a key, when credit always goes to the first that wants it, wants it. */
  lemma CreditedWants(eng: Engine, active: seq<Target>, side: Side, f: nat, m: Match)
    requires DistinctIds(active) && f < |active| && CreditsFirstWanter(eng, active, m, side)
    requires FirstClaimant(eng, active, m) == active[f].id
    ensures DefaultWants(eng, active[f], side, SideText(m.key, side))
  {
    var w :| 0 <= w < |active| && FirstClaimant(eng, active, m) == active[w].id
          && DefaultWants(eng, active[w], side, SideText(m.key, side));
    assert w == f;
  }

  lemma SpelledFirstIsCredited(eng: Engine, active: seq<Target>, side: Side, f: nat, mode: string, s: string)
    requires FirstSearched(active, side, f) && active[f].typ == "word"
    requires mode in EffectiveModes(active[f]) && KnownMode(mode)
    ensures var text := Padded(ModeSpelling(active[f].pattern, mode), s);
            FirstClaimant(eng, active, SideReport(side, text)) == active[f].id
  {
    var word := ModeSpelling(active[f].pattern, mode);
    var m := SideReport(side, Padded(word, s));
    SideReportOnly(side, Padded(word, s));
    assert Padded(word, s) == word + (Padding(|word| + 2) + s);
    SpelledIsClaimed(eng, active[f], mode, m, side, Padding(|word| + 2) + s);
    FirstSearchedIsCredited(eng, active, m, side, f);
  }

  lemma CreditNeedsWantsAll(eng: Engine, active: seq<Target>, side: Side, f: nat, t: Target, s: string)
    requires WordList(active) && DistinctIds(active) && FirstSearched(active, side, f)
    requires AlwaysCreditsFirstWanter(eng, active, side)
    requires t in active && DefaultWants(eng, t, side, s)
    ensures DefaultWants(eng, active[f], side, s)
  {
    var first := active[f];
    assert first in active;
    var mode :| mode in EffectiveModes(first) && KnownMode(mode);
    var word := ModeSpelling(first.pattern, mode);
    var m := SideReport(side, Padded(word, s));
    SideReportOnly(side, Padded(word, s));
    PaddedStillWanted(eng, t, side, word, s);
    assert CreditsFirstWanter(eng, active, m, side);
    SpelledFirstIsCredited(eng, active, side, f, mode, s);
    CreditedWants(eng, active, side, f, m);
    PaddedWantIsWant(eng, first, side, word, s);
  }

  lemma WantsAllIsCredited(eng: Engine, active: seq<Target>, side: Side, f: nat, m: Match, t: Target)
    requires FirstSearched(active, side, f) && WantsAll(eng, active, side, f)
    requires ReportedOnly(m, side) && t in active && DefaultWants(eng, t, side, SideText(m.key, side))
    ensures CreditsFirstWanter(eng, active, m, side)
  {
    DefaultAffixesParse();
    DefaultTargetMeaning(eng, active[f], side, SideText(m.key, side));
    WantClaims(eng, DEFAULT_AFFIXES, active[f], m, side);
    FirstSearchedIsCredited(eng, active, m, side, f);
  }

  /** For a list of words under the default affixes: on every key reported on one side, the
      credit goes to the first target that wants it, exactly when the first target searched on
      that side wants every text there that any target of the list wants. */
  lemma CreditAlwaysRightExactly(eng: Engine, active: seq<Target>, side: Side, f: nat)
    requires WordList(active) && DistinctIds(active) && FirstSearched(active, side, f)
    ensures AlwaysCreditsFirstWanter(eng, active, side) <==> WantsAll(eng, active, side, f)
  {
    if AlwaysCreditsFirstWanter(eng, active, side) {
      forall t, s | t in active && DefaultWants(eng, t, side, s)
        ensures DefaultWants(eng, active[f], side, s)
      {
        CreditNeedsWantsAll(eng, active, side, f, t, s);
      }
    }
    if WantsAll(eng, active, side, f) {
      forall m, t | ReportedOnly(m, side) && t in active && DefaultWants(eng, t, side, SideText(m.key, side))
        ensures CreditsFirstWanter(eng, active, m, side)
      {
        WantsAllIsCredited(eng, active, side, f, m, t);
      }
    }
  }
}
