/** Attribution of a reported match to a target, and its agreement with the compiler. */
module Attribution {
  import opened Basics
  import opened Ascii
  import opened RegexMatch
  import opened Model
  import opened Compile
  import opened CompileMeaning

  /** containsWord. */
  predicate ContainsWord(haystack: string, needle: string, caseInsensitive: bool) {
    if caseInsensitive then Contains(ToLower(haystack), ToLower(needle)) else Contains(haystack, needle)
  }

  // ---- Specification --------------------------------------------------------------------

  /** The word stands somewhere in `s` in the spelling the mode asks for. */
  ghost predicate ModeOccurs(pattern: string, mode: string, s: string) {
    || (mode == "insensitive" && exists a: nat :: StandsAt(s, a, pattern, true))
    || (mode == "sensitive" && exists a: nat :: StandsAt(s, a, pattern, false))
    || (mode == "capitalized" && exists a: nat :: StandsAt(s, a, Capitalized(pattern), false))
  }

  ghost predicate ClaimsOnSide(eng: Engine, t: Target, m: Match, side: Side) {
    && SearchedOn(t, side)
    && Reported(m, side)
    && var s := SideText(m.key, side);
       if t.typ == "word" then exists mode :: mode in EffectiveModes(t) && ModeOccurs(t.pattern, mode, s)
       else eng.Hits(t.pattern, s)
  }

  /** The target passes its own scope, flag and content test on some side. */
  ghost predicate Claims(eng: Engine, t: Target, m: Match) {
    exists side :: ClaimsOnSide(eng, t, m, side)
  }

  /** `id` names the earliest target of the list that claims the match; empty when none does. */
  ghost predicate EarliestClaimant(eng: Engine, targets: seq<Target>, m: Match, id: string) {
    || (exists i :: 0 <= i < |targets| && Claims(eng, targets[i], m) && id == targets[i].id
                    && forall j :: 0 <= j < i ==> !Claims(eng, targets[j], m))
    || (id == "" && forall i :: 0 <= i < |targets| ==> !Claims(eng, targets[i], m))
  }

  // ---- The server's search ----------------------------------------------------------------

  class Attributor {
    const eng: Engine
    var reCache: map<string, Regexp>

    constructor (eng: Engine)
      ensures Valid() && this.eng == eng && reCache == map[]
    {
      this.eng := eng;
      reCache := map[];
    }

    /** Every cached expression is what compiling its text would give. */
    ghost predicate Valid()
      reads this
    {
      forall text :: text in reCache ==> eng.Compile(text) == Some(reCache[text])
    }

    /** cachedCompile: as if compiled afresh; only successes are cached. */
    method CachedCompile(pattern: string) returns (re: Option<Regexp>)
      requires Valid()
      modifies this
      ensures Valid() && re == eng.Compile(pattern)
      ensures reCache == if re.Some? then old(reCache)[pattern := re.value] else old(reCache)
    {
      if pattern in reCache {
        return Some(reCache[pattern]);
      }
      re := eng.Compile(pattern);
      if re.Some? {
        reCache := reCache[pattern := re.value];
      }
    }

    /** One word target: try every mode, on the fingerprint first. */
    method WordClaims(t: Target, m: Match) returns (claimed: bool)
      requires t.typ == "word"
      ensures claimed <==> Claims(eng, t, m)
    {
      var scope := NormalizeScope(t.matchScope);
      ScopeMeaning(t, Fingerprint);
      ScopeMeaning(t, AuthorizedKey);
      var modes := ModesOf(t);
      for n := 0 to |modes|
        invariant forall k, side :: 0 <= k < n && SearchedOn(t, side) && Reported(m, side) ==>
                    !ModeOccurs(t.pattern, modes[k], SideText(m.key, side))
      {
        assert modes[n] in EffectiveModes(t);
        var known, word, ci := SelectWord(t, modes[n]);
        ModeOccursEntry(t.pattern, scope, modes[n], m.key.fingerprint);
        ModeOccursEntry(t.pattern, scope, modes[n], m.key.authorized);
        if !known {
          continue;
        }
        if (scope == "fingerprint" || scope == "both") && m.matchedFingerprint {
          if ContainsWord(m.key.fingerprint, word, ci) {
            assert ClaimsOnSide(eng, t, m, Fingerprint);
            return true;
          }
        }
        if (scope == "pubkey" || scope == "both") && m.matchedAuthorizedKey {
          if ContainsWord(m.key.authorized, word, ci) {
            assert ClaimsOnSide(eng, t, m, AuthorizedKey);
            return true;
          }
        }
      }
      return false;
    }

    method RegexClaims(t: Target, m: Match) returns (claimed: bool)
      requires Valid() && t.typ != "word"
      modifies this
      ensures Valid()
      ensures claimed <==> Claims(eng, t, m)
    {
      var scope := NormalizeScope(t.matchScope);
      ScopeMeaning(t, Fingerprint);
      ScopeMeaning(t, AuthorizedKey);
      var re := CachedCompile(t.pattern);
      if re.None? {
        return false;
      }
      if (scope == "fingerprint" || scope == "both") && m.matchedFingerprint {
        if eng.MatchString(re.value, m.key.fingerprint) {
          assert ClaimsOnSide(eng, t, m, Fingerprint);
          return true;
        }
      }
      if (scope == "pubkey" || scope == "both") && m.matchedAuthorizedKey {
        if eng.MatchString(re.value, m.key.authorized) {
          assert ClaimsOnSide(eng, t, m, AuthorizedKey);
          return true;
        }
      }
      return false;
    }

    /** attributeMatch over the active targets. */
    method AttributeMatch(targets: seq<Target>, m: Match) returns (id: string)
      requires Valid()
      modifies this
      ensures Valid()
      ensures EarliestClaimant(eng, targets, m, id)
    {
      for n := 0 to |targets|
        invariant Valid()
        invariant forall j :: 0 <= j < n ==> !Claims(eng, targets[j], m)
      {
        var t := targets[n];
        var claimed: bool;
        if t.typ == "word" {
          claimed := WordClaims(t, m);
        } else {
          claimed := RegexClaims(t, m);
        }
        if claimed {
          return t.id;
        }
      }
      return "";
    }
  }

  /** What containsWord computes: the word stands somewhere in the text. */
  lemma ContainsWordMeaning(s: string, word: string, anyCase: bool)
    ensures ContainsWord(s, word, anyCase) <==> exists a: nat :: StandsAt(s, a, word, anyCase)
  {
    assert |ToLower(s)| == |s| && |ToLower(word)| == |word|;
    forall a: nat | a + |word| <= |s|
      ensures StandsAt(s, a, word, anyCase)
         <==> if anyCase then OccursAt(ToLower(s), ToLower(word), a) else OccursAt(s, word, a)
    {
      ToLowerSlice(s, a, a + |word|);
      SameTextMeaning(true, s[a..a + |word|], word);
    }
  }

  lemma ModeOccursEntry(pattern: string, scope: string, mode: string, s: string)
    ensures ModeOccurs(pattern, mode, s)
       <==> match ModeEntry(pattern, scope, mode)
            case Some(e) => ContainsWord(s, e.word, e.key.caseInsensitive)
            case None => false
  {
    assert "capitalized"[0] != "insensitive"[0];
    assert |"sensitive"| != |"insensitive"| == |"capitalized"|;
    ContainsWordMeaning(s, pattern, true);
    ContainsWordMeaning(s, pattern, false);
    ContainsWordMeaning(s, Capitalized(pattern), false);
  }

  // ---- Determinacy --------------------------------------------------------------------------

  /** The answer as a function of the list. */
  ghost function FirstClaimant(eng: Engine, targets: seq<Target>, m: Match): string {
    if targets == [] then ""
    else if Claims(eng, targets[0], m) then targets[0].id
    else FirstClaimant(eng, targets[1..], m)
  }

  /** The search specification has exactly one answer. */
  lemma {:induction false} EarliestClaimantUnique(eng: Engine, targets: seq<Target>, m: Match, id: string)
    ensures EarliestClaimant(eng, targets, m, id) <==> id == FirstClaimant(eng, targets, m)
  {
    if targets != [] {
      var rest := targets[1..];
      EarliestClaimantUnique(eng, rest, m, id);
      if !Claims(eng, targets[0], m) {
        if EarliestClaimant(eng, targets, m, id) {
          if i :| 0 <= i < |targets| && Claims(eng, targets[i], m) && id == targets[i].id
                  && forall j :: 0 <= j < i ==> !Claims(eng, targets[j], m) {
            assert rest[i - 1] == targets[i];
            assert forall j :: 0 <= j < i - 1 ==> rest[j] == targets[j + 1];
          }
        }
        if EarliestClaimant(eng, rest, m, id) {
          if i :| 0 <= i < |rest| && Claims(eng, rest[i], m) && id == rest[i].id
                  && forall j :: 0 <= j < i ==> !Claims(eng, rest[j], m) {
            assert targets[i + 1] == rest[i];
            assert forall j :: 1 <= j < i + 1 ==> targets[j] == rest[j - 1];
          } else {
            assert forall j :: 1 <= j < |targets| ==> targets[j] == rest[j - 1];
          }
        }
      }
    }
  }

  // ---- Agreement with the compiler -----------------------------------------------------------

  /** What is found between affixes is contained in the text, up to the same case rule. */
  lemma HitIsContained(affixes: Affixes, word: string, fold: bool, s: string)
    requires affixes.Balanced() && WordHit(affixes, word, fold, s)
    ensures exists a: nat :: StandsAt(s, a, word, fold)
  {
    var i: nat, a: nat, b: nat, j: nat :| WordAt(affixes, word, fold, s, i, a, b, j);
    SameTextMeaning(fold, s[a..b], word);
    assert StandsAt(s, a, word, fold);
  }

  /** A target that wants the reported text claims the match. */
  lemma WantClaims(eng: Engine, affixes: Affixes, t: Target, m: Match, side: Side)
    requires affixes.Balanced() && Reported(m, side)
    requires TargetWants(eng, affixes, t, side, SideText(m.key, side))
    ensures Claims(eng, t, m)
  {
    var s := SideText(m.key, side);
    if t.typ == "word" {
      var mode :| mode in EffectiveModes(t) && ModeFinds(affixes, t.pattern, mode, s);
      if mode == "insensitive" {
        HitIsContained(affixes, t.pattern, true, s);
      } else if mode == "sensitive" {
        HitIsContained(affixes, t.pattern, false, s);
      } else {
        HitIsContained(affixes, Capitalized(t.pattern), false, s);
      }
      assert ModeOccurs(t.pattern, mode, s);
    }
    assert ClaimsOnSide(eng, t, m, side);
  }

  /** The flags of a report are the outcome of testing one pattern against the key. */
  predicate ReportOf(eng: Engine, p: CompiledPattern, m: Match) {
    && (m.matchedFingerprint <==> PatternHits(eng, p, Fingerprint, m.key.fingerprint))
    && (m.matchedAuthorizedKey <==> PatternHits(eng, p, AuthorizedKey, m.key.authorized))
    && (m.matchedFingerprint || m.matchedAuthorizedKey)
  }

  /** Every hit of a list compiled from targets that are all still active is attributed,
      and to a target no later in the list than any that really wants the key. */
  lemma AttributionComplete(eng: Engine, affixes: Affixes, compiledFrom: seq<Target>, active: seq<Target>,
                            p: CompiledPattern, m: Match, id: string)
    requires Strayless(affixes)
    requires p in Compiled(compiledFrom, affixes) && ReportOf(eng, p, m)
    requires forall t :: t in compiledFrom ==> t in active
    requires forall t :: t in active ==> t.id != ""
    requires EarliestClaimant(eng, active, m, id)
    ensures id != ""
    ensures exists i :: 0 <= i < |active| && active[i].id == id && Claims(eng, active[i], m)
  {
    var side := if m.matchedFingerprint then Fingerprint else AuthorizedKey;
    var s := SideText(m.key, side);
    var t := HitHasTarget(eng, affixes, compiledFrom, side, s, p);
    assert forall fold :: !StrayFound(affixes, fold, s);
    WantClaims(eng, affixes, t, m, side);
    var i :| 0 <= i < |active| && active[i] == t;
  }

  /** The attributed target never comes after a target that really wants the key. */
  lemma AttributedNoLater(eng: Engine, affixes: Affixes, active: seq<Target>, m: Match, side: Side, w: nat)
    returns (i: nat)
    requires affixes.Balanced() && w < |active| && Reported(m, side)
    requires TargetWants(eng, affixes, active[w], side, SideText(m.key, side))
    ensures i <= w && FirstClaimant(eng, active, m) == active[i].id && Claims(eng, active[i], m)
  {
    WantClaims(eng, affixes, active[w], m, side);
    EarliestClaimantUnique(eng, active, m, FirstClaimant(eng, active, m));
    i :| 0 <= i < |active| && Claims(eng, active[i], m) && FirstClaimant(eng, active, m) == active[i].id
         && forall j :: 0 <= j < i ==> !Claims(eng, active[j], m);
  }

  /** Attribution is not matching: a key that only the second target wants can be
      credited to the first, whose word merely occurs inside the key. */
  lemma AttributionMayNameAnother(eng: Engine)
    ensures
      var inner := Target("1", "word", "ab", "", true, ["sensitive"], "both", "");
      var outer := Target("2", "word", "abc", "", true, ["sensitive"], "both", "");
      var m := Match("", "", "", "", "", 1, "/abc", false, true, KeyText("x/abc", ""));
      && DefaultWants(eng, outer, Fingerprint, m.key.fingerprint)
      && !DefaultWants(eng, inner, Fingerprint, m.key.fingerprint)
      && FirstClaimant(eng, [inner, outer], m) == inner.id
  {
    var inner := Target("1", "word", "ab", "", true, ["sensitive"], "both", "");
    var outer := Target("2", "word", "abc", "", true, ["sensitive"], "both", "");
    var key := "x/abc";
    var m := Match("", "", "", "", "", 1, "/abc", false, true, KeyText(key, ""));
    assert |"sensitive"| != |"insensitive"| == |"capitalized"|;
    assert key[2..5] == "abc";
    assert EndsWithWord("abc", false, key, 1);
    assert "sensitive" in EffectiveModes(outer) && DefaultModeFinds("abc", "sensitive", key);
    forall at: nat
      ensures !EndsWithWord("ab", false, key, at)
    {
      if at + 3 <= |key| && at != 1 { assert key[at] != '/' && key[at] != '+'; }
    }
    assert key[2..4] == "ab" && StandsAt(key, 2, "ab", false);
    assert "sensitive" in EffectiveModes(inner) && ModeOccurs("ab", "sensitive", key);
    assert ClaimsOnSide(eng, inner, m, Fingerprint);
  }
}
