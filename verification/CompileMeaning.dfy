/** What the compiled list means: it finds a key on a side exactly when some target does. */
module CompileMeaning {
  import opened Basics
  import opened RegexMatch
  import opened Model
  import opened Compile

  // ---- Reference meaning ------------------------------------------------------------

  /** The word of a target, searched in one mode, is found in `s`. */
  ghost predicate ModeFinds(affixes: Affixes, pattern: string, mode: string, s: string)
    requires affixes.Balanced()
  {
    || (mode == "insensitive" && WordHit(affixes, pattern, true, s))
    || (mode == "sensitive" && WordHit(affixes, pattern, false, s))
    || (mode == "capitalized" && WordHit(affixes, Capitalized(pattern), false, s))
  }

  /** A target wants text `s` on `side`, by its own definition. */
  ghost predicate TargetWants(eng: Engine, affixes: Affixes, t: Target, side: Side, s: string)
    requires affixes.Balanced()
  {
    && SearchedOn(t, side)
    && if t.typ == "word" then exists mode :: mode in EffectiveModes(t) && ModeFinds(affixes, t.pattern, mode, s)
       else eng.Hits(t.pattern, s)
  }

  predicate KnownMode(mode: string) {
    mode == "insensitive" || mode == "sensitive" || mode == "capitalized"
  }

  /** A word target carries the affixes into a pattern, where a branch that a top-level bar
      cuts off from the word is found in `s` whatever the word. */
  ghost predicate CarriesStray(affixes: Affixes, t: Target, s: string)
    requires affixes.Balanced()
  {
    && t.typ == "word"
    && exists mode :: mode in EffectiveModes(t) && KnownMode(mode) && StrayFound(affixes, mode == "insensitive", s)
  }

  /** No branch of an affix is ever found without a word. */
  ghost predicate Strayless(affixes: Affixes) {
    affixes.Balanced() && forall fold, s :: !StrayFound(affixes, fold, s)
  }

  /** A compiled pattern, as a client tests it, finds `s` on `side`. */
  predicate PatternHits(eng: Engine, p: CompiledPattern, side: Side, s: string) {
    PatternFlag(p, side) && eng.Hits(p.pattern, s)
  }

  // ---- Provenance --------------------------------------------------------------------

  lemma {:induction false} InWordsOf(entries: seq<Entry>, key: WordKey, word: string)
    ensures word in WordsOf(entries, key) <==> Entry(key, word) in entries
  {
    if entries != [] {
      var init, last := entries[..|entries| - 1], entries[|entries| - 1];
      InWordsOf(init, key, word);
      assert entries == init + [last];
    }
  }

  lemma {:induction false} InModeEntries(pattern: string, scope: string, modes: seq<string>, e: Entry)
    ensures e in ModeEntries(pattern, scope, modes)
       <==> exists mode :: mode in modes && ModeEntry(pattern, scope, mode) == Some(e)
  {
    if modes != [] {
      var init, last := modes[..|modes| - 1], modes[|modes| - 1];
      InModeEntries(pattern, scope, init, e);
      assert modes == init + [last];
    }
  }

  lemma {:induction false} InEntries(targets: seq<Target>, e: Entry)
    ensures e in Entries(targets) <==> exists t :: t in targets && e in TargetEntries(t)
  {
    if targets != [] {
      var init, last := targets[..|targets| - 1], targets[|targets| - 1];
      InEntries(init, e);
      assert targets == init + [last];
    }
  }

  lemma {:induction false} InRegexPatterns(targets: seq<Target>, p: CompiledPattern)
    ensures p in RegexPatterns(targets)
       <==> exists t :: t in targets && t.typ != "word" && p == ScopedPattern(t.pattern, NormalizeScope(t.matchScope))
  {
    if targets != [] {
      var init, last := targets[..|targets| - 1], targets[|targets| - 1];
      InRegexPatterns(init, p);
      assert targets == init + [last];
    }
  }

  lemma InGroupPatterns(targets: seq<Target>, affixes: Affixes, p: CompiledPattern)
    ensures p in GroupPatterns(Entries(targets), affixes, FirstOccurrences(Keys(Entries(targets))))
       <==> exists key :: key in Keys(Entries(targets)) && p == GroupPattern(Entries(targets), affixes, key)
  {
    var entries := Entries(targets);
    var order := FirstOccurrences(Keys(entries));
    var patterns := GroupPatterns(entries, affixes, order);
    if p in patterns {
      var i :| 0 <= i < |patterns| && patterns[i] == p;
      assert order[i] in Keys(entries);
    }
    if key :| key in Keys(entries) && p == GroupPattern(entries, affixes, key) {
      var i :| 0 <= i < |order| && order[i] == key;
      assert patterns[i] == p;
    }
  }

  lemma EntryKey(entries: seq<Entry>, e: Entry)
    requires e in entries
    ensures e.key in Keys(entries)
  {
    var i :| 0 <= i < |entries| && entries[i] == e;
    assert Keys(entries)[i] == e.key;
  }

  /** A mode finds a text exactly when the entry it contributes does. */
  lemma ModeFindsEntry(affixes: Affixes, pattern: string, scope: string, mode: string, s: string)
    requires affixes.Balanced()
    ensures ModeFinds(affixes, pattern, mode, s)
       <==> match ModeEntry(pattern, scope, mode)
            case Some(e) => WordHit(affixes, e.word, e.key.caseInsensitive, s)
            case None => false
  {
    assert "capitalized"[0] != "insensitive"[0];
    assert |"sensitive"| != |"insensitive"| == |"capitalized"|;
  }

  /** The known modes contribute an entry each, folding case under one of them. */
  lemma KnownModeEntry(pattern: string, scope: string, mode: string)
    ensures ModeEntry(pattern, scope, mode).Some? <==> KnownMode(mode)
    ensures KnownMode(mode) ==>
              ModeEntry(pattern, scope, mode).value.key == WordKey(mode == "insensitive", scope)
  {
    assert "capitalized"[0] != "insensitive"[0];
    assert |"sensitive"| != |"insensitive"|;
  }

  /** One group pattern finds a text exactly when an entry filed under its key does, or a
      stray branch of an affix. */
  lemma GroupMeaning(eng: Engine, affixes: Affixes, entries: seq<Entry>, key: WordKey, s: string)
    requires affixes.Balanced() && key in Keys(entries)
    ensures eng.Hits(GroupPattern(entries, affixes, key).pattern, s)
       <==> || StrayFound(affixes, key.caseInsensitive, s)
            || exists e :: e in entries && e.key == key && WordHit(affixes, e.word, key.caseInsensitive, s)
  {
    var words := GroupWords(entries, key);
    var i :| 0 <= i < |entries| && Keys(entries)[i] == key;
    InWordsOf(entries, key, entries[i].word);
    assert entries[i].word in words;
    WordPatternMeaning(eng, key.caseInsensitive, affixes, words, s);
    if w :| w in words && WordHit(affixes, w, key.caseInsensitive, s) {
      InWordsOf(entries, key, w);
      assert Entry(key, w).word == w;
    }
    if e :| e in entries && e.key == key && WordHit(affixes, e.word, key.caseInsensitive, s) {
      InWordsOf(entries, key, e.word);
      assert e.word in words;
    }
  }

  /** Exactly the patterns of case-insensitive groups open with the flag. */
  lemma GroupFlag(affixes: Affixes, entries: seq<Entry>, key: WordKey)
    requires affixes.Balanced() && key in Keys(entries)
    ensures "(?i)" <= GroupPattern(entries, affixes, key).pattern <==> key.caseInsensitive
  {
    var words := GroupWords(entries, key);
    var i :| 0 <= i < |entries| && Keys(entries)[i] == key;
    InWordsOf(entries, key, entries[i].word);
    assert entries[i].word in words;
    var text := WordPatternText(key.caseInsensitive, affixes.prefix, QuoteAll(words), affixes.suffix);
    if key.caseInsensitive {
      assert text[..4] == "(?i)";
    } else {
      WordTextNoFlag(affixes, words);
      assert "(?i)" <= text ==> "(?" <= text;
    }
  }

  // ---- The main theorem ------------------------------------------------------------------

  /** The flags of a pattern are those of a target's scope. */
  predicate SameSides(p: CompiledPattern, t: Target) {
    forall side :: PatternFlag(p, side) <==> SearchedOn(t, side)
  }

  lemma ScopedPatternSides(pattern: string, t: Target)
    ensures SameSides(ScopedPattern(pattern, NormalizeScope(t.matchScope)), t)
  {
    forall side {
      ScopeMeaning(t, side);
    }
  }

  lemma EntryHasMode(t: Target, e: Entry) returns (mode: string)
    requires e in TargetEntries(t)
    ensures t.typ == "word" && mode in EffectiveModes(t)
    ensures ModeEntry(t.pattern, NormalizeScope(t.matchScope), mode) == Some(e)
    ensures e.key.matchScope == NormalizeScope(t.matchScope)
  {
    var scope := NormalizeScope(t.matchScope);
    InModeEntries(t.pattern, scope, EffectiveModes(t), e);
    mode :| mode in EffectiveModes(t) && ModeEntry(t.pattern, scope, mode) == Some(e);
  }

  /** What a target's share of the patterns finds: what it wants, and stray branches. */
  ghost predicate TargetCatches(eng: Engine, affixes: Affixes, t: Target, side: Side, s: string)
    requires affixes.Balanced()
  {
    TargetWants(eng, affixes, t, side, s) || (SearchedOn(t, side) && CarriesStray(affixes, t, s))
  }

  lemma GroupHitHasTarget(eng: Engine, affixes: Affixes, targets: seq<Target>, key: WordKey, s: string)
    returns (t: Target)
    requires affixes.Balanced() && key in Keys(Entries(targets))
    requires eng.Hits(GroupPattern(Entries(targets), affixes, key).pattern, s)
    ensures t in targets && t.typ == "word" && NormalizeScope(t.matchScope) == key.matchScope
    ensures || CarriesStray(affixes, t, s)
            || exists mode :: mode in EffectiveModes(t) && ModeFinds(affixes, t.pattern, mode, s)
  {
    var entries := Entries(targets);
    GroupMeaning(eng, affixes, entries, key, s);
    var e: Entry;
    if StrayFound(affixes, key.caseInsensitive, s) {
      var i :| 0 <= i < |entries| && Keys(entries)[i] == key;
      e := entries[i];
    } else {
      e :| e in entries && e.key == key && WordHit(affixes, e.word, key.caseInsensitive, s);
    }
    InEntries(targets, e);
    t :| t in targets && e in TargetEntries(t);
    var mode := EntryHasMode(t, e);
    KnownModeEntry(t.pattern, key.matchScope, mode);
    ModeFindsEntry(affixes, t.pattern, key.matchScope, mode, s);
  }

  /** A hit of the compiled list comes from a target that wants the text, or carries a stray
      branch found in it. */
  lemma HitHasTarget(eng: Engine, affixes: Affixes, targets: seq<Target>, side: Side, s: string, p: CompiledPattern)
    returns (t: Target)
    requires affixes.Balanced()
    requires p in Compiled(targets, affixes) && PatternHits(eng, p, side, s)
    ensures t in targets && SameSides(p, t) && TargetCatches(eng, affixes, t, side, s)
  {
    if p in RegexPatterns(targets) {
      InRegexPatterns(targets, p);
      t :| t in targets && t.typ != "word" && p == ScopedPattern(t.pattern, NormalizeScope(t.matchScope));
      ScopedPatternSides(t.pattern, t);
    } else {
      InGroupPatterns(targets, affixes, p);
      var key :| key in Keys(Entries(targets)) && p == GroupPattern(Entries(targets), affixes, key);
      t := GroupHitHasTarget(eng, affixes, targets, key, s);
      ScopedPatternSides(p.pattern, t);
    }
  }

  /** Each known mode of a word target has its word listed in a group of the target's sides. */
  lemma ModeHasGroup(affixes: Affixes, targets: seq<Target>, t: Target, mode: string) returns (e: Entry)
    requires t in targets && t.typ == "word" && mode in EffectiveModes(t) && KnownMode(mode)
    ensures ModeEntry(t.pattern, NormalizeScope(t.matchScope), mode) == Some(e)
    ensures e in Entries(targets) && e.key in Keys(Entries(targets))
    ensures e.key.caseInsensitive == (mode == "insensitive")
    ensures GroupPattern(Entries(targets), affixes, e.key) in Compiled(targets, affixes)
    ensures SameSides(GroupPattern(Entries(targets), affixes, e.key), t)
  {
    var scope := NormalizeScope(t.matchScope);
    KnownModeEntry(t.pattern, scope, mode);
    e := ModeEntry(t.pattern, scope, mode).value;
    InModeEntries(t.pattern, scope, EffectiveModes(t), e);
    InEntries(targets, e);
    EntryKey(Entries(targets), e);
    InGroupPatterns(targets, affixes, GroupPattern(Entries(targets), affixes, e.key));
    ScopedPatternSides(GroupPattern(Entries(targets), affixes, e.key).pattern, t);
  }

  /** A target that wants a text, or carries a stray branch found in it, is represented by a
      pattern that hits it. */
  lemma CatchHasPattern(eng: Engine, affixes: Affixes, targets: seq<Target>, side: Side, s: string, t: Target)
    returns (p: CompiledPattern)
    requires affixes.Balanced()
    requires t in targets && TargetCatches(eng, affixes, t, side, s)
    ensures p in Compiled(targets, affixes) && PatternHits(eng, p, side, s)
  {
    if t.typ == "word" {
      var mode :| && mode in EffectiveModes(t) && KnownMode(mode)
                  && (ModeFinds(affixes, t.pattern, mode, s) || StrayFound(affixes, mode == "insensitive", s));
      var e := ModeHasGroup(affixes, targets, t, mode);
      ModeFindsEntry(affixes, t.pattern, NormalizeScope(t.matchScope), mode, s);
      GroupMeaning(eng, affixes, Entries(targets), e.key, s);
      p := GroupPattern(Entries(targets), affixes, e.key);
    } else {
      p := ScopedPattern(t.pattern, NormalizeScope(t.matchScope));
      ScopedPatternSides(t.pattern, t);
      InRegexPatterns(targets, p);
    }
  }

  /** What the compiled list finds, on each side, for every target list, text and affixes
      that read as expressions: what some target wants, and the stray branches. */
  lemma CompilationMeaning(eng: Engine, affixes: Affixes, targets: seq<Target>, side: Side, s: string)
    requires affixes.Balanced()
    ensures ListHits(eng, affixes, targets, side, s)
       <==> exists t :: t in targets && TargetCatches(eng, affixes, t, side, s)
  {
    if p :| p in Compiled(targets, affixes) && PatternHits(eng, p, side, s) {
      var t := HitHasTarget(eng, affixes, targets, side, s, p);
    }
    if t :| t in targets && TargetCatches(eng, affixes, t, side, s) {
      var p := CatchHasPattern(eng, affixes, targets, side, s, t);
    }
  }

  /** Some compiled pattern finds `s` on `side`. */
  ghost predicate ListHits(eng: Engine, affixes: Affixes, targets: seq<Target>, side: Side, s: string) {
    exists p :: p in Compiled(targets, affixes) && PatternHits(eng, p, side, s)
  }

  /** Some target of the list wants `s` on `side`. */
  ghost predicate ListWants(eng: Engine, affixes: Affixes, targets: seq<Target>, side: Side, s: string)
    requires affixes.Balanced()
  {
    exists t :: t in targets && TargetWants(eng, affixes, t, side, s)
  }

  /** Without stray branches compilation preserves meaning, on each side, for every target
      list and text. */
  lemma CompilationPreservesMeaning(eng: Engine, affixes: Affixes, targets: seq<Target>, side: Side, s: string)
    requires Strayless(affixes)
    ensures ListHits(eng, affixes, targets, side, s) <==> ListWants(eng, affixes, targets, side, s)
  {
    CompilationMeaning(eng, affixes, targets, side, s);
    forall t
      ensures TargetCatches(eng, affixes, t, side, s) <==> TargetWants(eng, affixes, t, side, s)
    {
      assert forall fold :: !StrayFound(affixes, fold, s);
    }
  }

  lemma StandaloneIsStrayless(affixes: Affixes)
    requires affixes.Standalone()
    ensures Strayless(affixes)
  {
    forall fold, s
      ensures !StrayFound(affixes, fold, s)
    {
      StandaloneHasNoStrays(affixes, fold, s);
    }
  }

  // ---- The default affixes ------------------------------------------------------------------

  /** A text ends with a separator, the word in one of its modes, and an optional `=`. */
  ghost predicate DefaultModeFinds(pattern: string, mode: string, s: string) {
    || (mode == "insensitive" && exists at: nat :: EndsWithWord(pattern, true, s, at))
    || (mode == "sensitive" && exists at: nat :: EndsWithWord(pattern, false, s, at))
    || (mode == "capitalized" && exists at: nat :: EndsWithWord(Capitalized(pattern), false, s, at))
  }

  ghost predicate DefaultWants(eng: Engine, t: Target, side: Side, s: string) {
    && SearchedOn(t, side)
    && if t.typ == "word" then exists mode :: mode in EffectiveModes(t) && DefaultModeFinds(t.pattern, mode, s)
       else eng.Hits(t.pattern, s)
  }

  lemma DefaultModeMeaning(pattern: string, mode: string, s: string)
    ensures DEFAULT_AFFIXES.Balanced()
    ensures ModeFinds(DEFAULT_AFFIXES, pattern, mode, s) <==> DefaultModeFinds(pattern, mode, s)
  {
    DefaultWordHit(pattern, true, s);
    DefaultWordHit(pattern, false, s);
    DefaultWordHit(Capitalized(pattern), false, s);
  }

  lemma DefaultTargetMeaning(eng: Engine, t: Target, side: Side, s: string)
    ensures DEFAULT_AFFIXES.Balanced()
    ensures TargetWants(eng, DEFAULT_AFFIXES, t, side, s) <==> DefaultWants(eng, t, side, s)
  {
    DefaultAffixesParse();
    forall mode
      ensures ModeFinds(DEFAULT_AFFIXES, t.pattern, mode, s) <==> DefaultModeFinds(t.pattern, mode, s)
    {
      DefaultModeMeaning(t.pattern, mode, s);
    }
  }

  /** With the default affixes, the compiled list finds a text exactly when some target in
      scope has its word (in one of its modes) at the end of the text, or its regex matches. */
  lemma DefaultCompilationMeaning(eng: Engine, targets: seq<Target>, side: Side, s: string)
    ensures ListHits(eng, DEFAULT_AFFIXES, targets, side, s)
       <==> exists t :: t in targets && DefaultWants(eng, t, side, s)
  {
    DefaultAffixesParse();
    StandaloneIsStrayless(DEFAULT_AFFIXES);
    CompilationPreservesMeaning(eng, DEFAULT_AFFIXES, targets, side, s);
    forall t
      ensures TargetWants(eng, DEFAULT_AFFIXES, t, side, s) <==> DefaultWants(eng, t, side, s)
    {
      DefaultTargetMeaning(eng, t, side, s);
    }
  }

  function ModeSpelling(pattern: string, mode: string): string {
    if mode == "capitalized" then Capitalized(pattern) else pattern
  }

  /** A word target with a known mode is never dropped: on every side in its scope the
      compiled list finds the text that ends with its word. */
  lemma WordTargetNotDropped(eng: Engine, targets: seq<Target>, t: Target, mode: string, side: Side)
    requires t in targets && t.typ == "word"
    requires mode in EffectiveModes(t) && KnownMode(mode)
    requires SearchedOn(t, side)
    ensures ListHits(eng, DEFAULT_AFFIXES, targets, side, "/" + ModeSpelling(t.pattern, mode))
  {
    var word := ModeSpelling(t.pattern, mode);
    var s := "/" + word;
    assert s[1..1 + |word|] == word;
    assert EndsWithWord(word, true, s, 0) && EndsWithWord(word, false, s, 0);
    assert DefaultModeFinds(t.pattern, mode, s);
    assert DefaultWants(eng, t, side, s);
    DefaultCompilationMeaning(eng, targets, side, s);
  }

  // ---- Size and shape --------------------------------------------------------------------------

  /** The targets that are not words, in list order. */
  function RegexTargets(targets: seq<Target>): seq<Target> {
    if targets == [] then []
    else if targets[0].typ == "word" then RegexTargets(targets[1..])
    else [targets[0]] + RegexTargets(targets[1..])
  }

  function TargetPattern(t: Target): CompiledPattern {
    ScopedPattern(t.pattern, NormalizeScope(t.matchScope))
  }

  lemma {:induction false} RegexTargetsSnoc(init: seq<Target>, last: Target)
    ensures RegexTargets(init + [last]) == RegexTargets(init) + if last.typ == "word" then [] else [last]
  {
    if init != [] {
      assert (init + [last])[1..] == init[1..] + [last];
      RegexTargetsSnoc(init[1..], last);
    }
  }

  lemma {:induction false} RegexPatternsShape(targets: seq<Target>)
    ensures |RegexPatterns(targets)| == |RegexTargets(targets)|
    ensures forall i :: 0 <= i < |RegexTargets(targets)| ==>
              RegexPatterns(targets)[i] == TargetPattern(RegexTargets(targets)[i])
  {
    if targets != [] {
      var init, last := targets[..|targets| - 1], targets[|targets| - 1];
      assert targets == init + [last];
      RegexPatternsShape(init);
      RegexTargetsSnoc(init, last);
    }
  }

  lemma {:induction false} DistinctCount<T(!new)>(xs: seq<T>)
    ensures |FirstOccurrences(xs)| == |set x | x in xs|
  {
    if xs != [] {
      var init, last := xs[..|xs| - 1], xs[|xs| - 1];
      assert xs == init + [last];
      DistinctCount(init);
      FirstOccurrencesSnoc(init, last);
      var seen := set x | x in init;
      assert (set x | x in xs) == seen + {last};
    }
  }

  /** The (case-insensitivity, scope) pairs some word entry uses. */
  function KeysUsed(targets: seq<Target>): set<WordKey> {
    set e | e in Entries(targets) :: e.key
  }

  lemma SixKeys(a: WordKey, b: WordKey, c: WordKey, d: WordKey, e: WordKey, f: WordKey)
    ensures |{a, b, c, d, e, f}| <= 6
  {
    assert {a, b, c, d, e, f} == {a} + {b} + {c} + {d} + {e} + {f};
  }

  lemma AtMostSixKeys(targets: seq<Target>)
    ensures |KeysUsed(targets)| <= 6
  {
    SixKeys(WordKey(true, "fingerprint"), WordKey(true, "pubkey"), WordKey(true, "both"),
            WordKey(false, "fingerprint"), WordKey(false, "pubkey"), WordKey(false, "both"));
    var all := {WordKey(true, "fingerprint"), WordKey(true, "pubkey"), WordKey(true, "both"),
                WordKey(false, "fingerprint"), WordKey(false, "pubkey"), WordKey(false, "both")};
    forall e | e in Entries(targets)
      ensures e.key in all
    {
      InEntries(targets, e);
      var t :| t in targets && e in TargetEntries(t);
      var mode := EntryHasMode(t, e);
      assert e.key == WordKey(e.key.caseInsensitive, NormalizeScope(t.matchScope));
    }
    SubsetSize(KeysUsed(targets), all);
  }

  lemma {:induction false} SubsetSize<T>(a: set<T>, b: set<T>)
    requires a <= b
    ensures |a| <= |b|
  {
    if a != {} {
      var x :| x in a;
      SubsetSize(a - {x}, b - {x});
    }
  }

  /** One pattern per regex target, in order and first; then one group per distinct key used,
      at most six, in the order the keys are first used. */
  lemma CompiledShape(targets: seq<Target>, affixes: Affixes)
    ensures |Compiled(targets, affixes)| == |RegexTargets(targets)| + |KeysUsed(targets)|
    ensures |KeysUsed(targets)| <= 6
    ensures forall i :: 0 <= i < |RegexTargets(targets)| ==>
              Compiled(targets, affixes)[i] == TargetPattern(RegexTargets(targets)[i])
    ensures forall t :: t in targets ==>
              && TargetPattern(t).pattern == t.pattern
              && (TargetPattern(t).matchFingerprint <==> t.matchScope != "pubkey")
              && (TargetPattern(t).matchAuthorizedKey <==> t.matchScope != "fingerprint")
    ensures var used := Keys(Entries(targets));
            var keys := FirstOccurrences(used);
            && |keys| == |KeysUsed(targets)| && NoDuplicates(keys)
            && (forall g :: 0 <= g < |keys| ==>
                  Compiled(targets, affixes)[|RegexTargets(targets)| + g]
                  == GroupPattern(Entries(targets), affixes, keys[g]))
            && (forall g, h :: 0 <= g < h < |keys| ==> FirstIndex(used, keys[g]) < FirstIndex(used, keys[h]))
  {
    FirstOccurrencesOrdered(Keys(Entries(targets)));
    RegexPatternsShape(targets);
    forall t, side { ScopeMeaning(t, side); }
    AtMostSixKeys(targets);
    var entries := Entries(targets);
    DistinctCount(Keys(entries));
    forall k
      ensures k in KeysUsed(targets) <==> k in (set x | x in Keys(entries))
    {
      if k in KeysUsed(targets) {
        var e :| e in entries && e.key == k;
        EntryKey(entries, e);
      }
      if k in Keys(entries) {
        var i :| 0 <= i < |entries| && Keys(entries)[i] == k;
        assert entries[i] in entries;
      }
    }
    assert KeysUsed(targets) == set x | x in Keys(entries);
  }

  /** Within a group no word is listed twice, and words keep their first-occurrence order. */
  lemma GroupWordsShape(targets: seq<Target>, key: WordKey)
    ensures var words := WordsOf(Entries(targets), key);
            var listed := GroupWords(Entries(targets), key);
            && NoDuplicates(listed)
            && (forall w :: w in listed <==> Entry(key, w) in Entries(targets))
            && (forall i, j :: 0 <= i < j < |listed| ==> FirstIndex(words, listed[i]) < FirstIndex(words, listed[j]))
  {
    var words := WordsOf(Entries(targets), key);
    FirstOccurrencesOrdered(words);
    forall w
      ensures w in words <==> Entry(key, w) in Entries(targets)
    {
      InWordsOf(Entries(targets), key, w);
    }
  }
}
