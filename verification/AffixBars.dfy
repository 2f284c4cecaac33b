/** Affixes with a bar outside brackets and groups: exactly when compilation keeps its meaning. */
module AffixBars {
  import opened Basics
  import opened RegexSyntax
  import opened RegexMatch
  import opened Model
  import opened Compile
  import opened CompileMeaning

  // ---- Exactly when meaning is preserved ------------------------------------------------------

  /** For one list and text: exactly when every stray branch that a searched word target
      carries and that is found in the text is found in a text some target wants. */
  lemma PreservedExactly(eng: Engine, affixes: Affixes, targets: seq<Target>, side: Side, s: string)
    requires affixes.Balanced()
    ensures (ListHits(eng, affixes, targets, side, s) <==> ListWants(eng, affixes, targets, side, s))
       <==> ((exists t :: t in targets && SearchedOn(t, side) && CarriesStray(affixes, t, s)) ==>
               ListWants(eng, affixes, targets, side, s))
  {
    CompilationMeaning(eng, affixes, targets, side, s);
    if t :| t in targets && SearchedOn(t, side) && CarriesStray(affixes, t, s) {
      assert TargetCatches(eng, affixes, t, side, s);
    }
    if t :| t in targets && TargetWants(eng, affixes, t, side, s) {
      assert TargetCatches(eng, affixes, t, side, s);
    }
  }

  /** A word of any given length. */
  function LongWord(n: nat): (word: string)
    ensures |word| == n
  {
    seq(n, _ => 'a')
  }

  lemma WordHitFits(affixes: Affixes, word: string, fold: bool, s: string)
    requires affixes.Balanced() && WordHit(affixes, word, fold, s)
    ensures |word| <= |s|
  {
    var i: nat, a: nat, b: nat, j: nat :| WordAt(affixes, word, fold, s, i, a, b, j);
    SameTextLength(fold, s[a..b], word);
  }

  function OneModeTarget(word: string, mode: string): Target {
    Target("1", "word", word, "", true, [mode], "both", "")
  }

  lemma TooLongIsUnwanted(eng: Engine, affixes: Affixes, word: string, mode: string, side: Side, s: string)
    requires affixes.Balanced() && |word| > |s|
    ensures !TargetWants(eng, affixes, OneModeTarget(word, mode), side, s)
  {
    var t := OneModeTarget(word, mode);
    if TargetWants(eng, affixes, t, side, s) {
      var m :| m in EffectiveModes(t) && ModeFinds(affixes, word, m, s);
      var fold := m == "insensitive";
      var found := if WordHit(affixes, word, fold, s) then word else Capitalized(word);
      WordHitFits(affixes, found, fold, s);
    }
  }

  /** A stray branch found in some text makes a one-word list find a text its target does not
      want: the word need only be longer than the text. */
  lemma StrayBreaksMeaning(eng: Engine, affixes: Affixes, word: string, fold: bool, side: Side, s: string)
    requires affixes.Balanced() && StrayFound(affixes, fold, s) && |word| > |s|
    ensures var targets := [OneModeTarget(word, if fold then "insensitive" else "sensitive")];
            ListHits(eng, affixes, targets, side, s) && !ListWants(eng, affixes, targets, side, s)
  {
    var mode := if fold then "insensitive" else "sensitive";
    var t := OneModeTarget(word, mode);
    assert |"sensitive"| != |"insensitive"|;
    assert mode in EffectiveModes(t) && KnownMode(mode) && (mode == "insensitive") == fold;
    assert t in [t] && TargetCatches(eng, affixes, t, side, s);
    CompilationMeaning(eng, affixes, [t], side, s);
    TooLongIsUnwanted(eng, affixes, word, mode, side, s);
  }

  /** For given affixes, meaning is preserved for every target list, side and text exactly
      when no branch of an affix is ever found without a word. */
  lemma PreservingAffixesExactly(eng: Engine, affixes: Affixes)
    requires affixes.Balanced()
    ensures Strayless(affixes)
       <==> forall targets, side, s ::
              ListHits(eng, affixes, targets, side, s) <==> ListWants(eng, affixes, targets, side, s)
  {
    if Strayless(affixes) {
      forall targets, side, s
        ensures ListHits(eng, affixes, targets, side, s) <==> ListWants(eng, affixes, targets, side, s)
      {
        CompilationPreservesMeaning(eng, affixes, targets, side, s);
      }
    } else {
      var fold, s :| StrayFound(affixes, fold, s);
      StrayBreaksMeaning(eng, affixes, LongWord(|s| + 1), fold, Fingerprint, s);
    }
  }

  lemma BareBarParses()
    ensures ParseAlt("x|") == Some((Or(Literal("x"), One(Done)), "")) && IsAlternation("")
  {
    var body := Or(Literal("x"), One(Done));
    LiteralPrints("x");
    assert PrintAlt(body) == QuoteMeta("x") + "|" + "";
    assert QuoteMeta("x") == "x" + "";
    assert PrintAlt(body) == "x|" && PrintAlt(body) + "" == "x|";
    AltRoundTrip(body, "");
  }

  lemma BareBarIsStray(affixes: Affixes)
    requires affixes == Affixes("x|", "")
    ensures affixes.Balanced() && !affixes.Standalone() && StrayFound(affixes, false, "x")
  {
    BareBarParses();
    var text := "x";
    MatchLiteral(text, false, text, 0, 1);
    assert text[0..1] == text;
    assert MatchBeforeLast(affixes.PrefixAlt(), false, text, 0, 1);
    assert StrayAt(affixes, false, text, 0, 1);
  }

  /** A bare bar in the prefix: with prefix `x|` the list compiled for the word `ab` finds the
      text `x`, which its only target does not want. */
  lemma BareBarInAffix(eng: Engine, side: Side)
    ensures var affixes := Affixes("x|", "");
            var targets := [OneModeTarget("ab", "sensitive")];
            && affixes.Balanced() && !affixes.Standalone()
            && ListHits(eng, affixes, targets, side, "x") && !ListWants(eng, affixes, targets, side, "x")
  {
    var affixes := Affixes("x|", "");
    BareBarIsStray(affixes);
    StrayBreaksMeaning(eng, affixes, "ab", false, side, "x");
  }

  // ---- A condition on the affix texts alone ----------------------------------------------------

  predicate AnchorFreeAtom(a: Atom) {
    match a
    case Group(body) => AnchorFreeAlt(body)
    case BeginText => false
    case EndText => false
    case _ => true
  }

  predicate AnchorFreeCat(c: Cat) {
    c.Then? ==> AnchorFreeAtom(c.head.atom) && AnchorFreeCat(c.tail)
  }

  predicate AnchorFreeAlt(a: Alt) {
    AnchorFreeCat(a.branch) && (a.Or? ==> AnchorFreeAlt(a.rest))
  }

  /** A text that the expression matches, its anchors aside. */
  function AtomSample(a: Atom): string {
    match a
    case Lit(c) => [c]
    case Class(negated, ranges) => if negated then ['\U{80}'] else if ranges == [] then "" else [ranges[0].lo]
    case Group(body) => CatSample(body.branch)
    case AnyChar => "a"
    case BeginText => ""
    case EndText => ""
  }

  function CatSample(c: Cat): string {
    match c
    case Done => ""
    case Then(head, tail) =>
      (if head.repeat.Once? || head.repeat.Plus? then AtomSample(head.atom) else "") + CatSample(tail)
  }

  /** `t` stands in `s` from `i` to `j`. */
  predicate StandsAt(t: string, s: string, i: nat, j: nat) { i <= j <= |s| && s[i..j] == t }

  lemma {:induction false} AtomSampleMatches(a: Atom, fold: bool, s: string, i: nat, j: nat)
    requires WfAtom(a) && AnchorFreeAtom(a) && StandsAt(AtomSample(a), s, i, j)
    ensures MatchAtom(a, fold, s, i, j)
    decreases a, 0
  {
    if a.Group? {
      CatSampleMatches(a.body.branch, fold, s, i, j);
    } else {
      assert s[i] == s[i..j][0];
      if a.Class? && !a.negated { assert InRange(a.ranges[0], s[i]); }
    }
  }

  /** Where the sample of the first piece ends. */
  lemma SampleCut(c: Cat, s: string, i: nat, j: nat) returns (k: nat)
    requires c.Then? && StandsAt(CatSample(c), s, i, j)
    ensures i <= k <= j && StandsAt(CatSample(c.tail), s, k, j)
    ensures if c.head.repeat.Once? || c.head.repeat.Plus? then StandsAt(AtomSample(c.head.atom), s, i, k) else k == i
  {
    k := i + if c.head.repeat.Once? || c.head.repeat.Plus? then |AtomSample(c.head.atom)| else 0;
    assert s[i..k] == s[i..j][..k - i] && s[k..j] == s[i..j][k - i..];
  }

  lemma {:induction false} CatSampleMatches(c: Cat, fold: bool, s: string, i: nat, j: nat)
    requires WfCat(c) && AnchorFreeCat(c) && StandsAt(CatSample(c), s, i, j)
    ensures MatchCat(c, fold, s, i, j)
    decreases c, 1
  {
    if c.Then? {
      var k := SampleCut(c, s, i, j);
      if c.head.repeat.Once? || c.head.repeat.Plus? { AtomSampleMatches(c.head.atom, fold, s, i, k); }
      CatSampleMatches(c.tail, fold, s, k, j);
      PieceMatches(c, fold, s, i, k, j);
    }
  }

  /** Nothing but `$`. */
  predicate OnlyEnd(c: Cat) {
    c.Then? ==> c.head.atom.EndText? && OnlyEnd(c.tail)
  }

  /** No `^`, and `$` at the end only. */
  predicate AnchoredAtEnd(c: Cat) {
    OnlyEnd(c) || (AnchorFreeAtom(c.head.atom) && AnchoredAtEnd(c.tail))
  }

  /** `^` at the start only and `$` at the end only. */
  predicate AnchoredAtEdges(c: Cat) {
    AnchoredAtEnd(c) || (c.head.atom.BeginText? && AnchoredAtEdges(c.tail))
  }

  lemma {:induction false} OnlyEndMatches(c: Cat, fold: bool, s: string)
    requires OnlyEnd(c)
    ensures CatSample(c) == "" && MatchCat(c, fold, s, |s|, |s|)
  {
    if c.Then? {
      OnlyEndMatches(c.tail, fold, s);
      PieceMatches(c, fold, s, |s|, |s|, |s|);
    }
  }

  /** One match of the atom, or none where none is asked for, is a match of the piece. */
  lemma PieceMatches(c: Cat, fold: bool, s: string, i: nat, k: nat, j: nat)
    requires c.Then? && i <= k <= j <= |s| && MatchCat(c.tail, fold, s, k, j)
    requires if c.head.repeat.Once? || c.head.repeat.Plus? then MatchAtom(c.head.atom, fold, s, i, k) else i == k
    ensures MatchCat(c, fold, s, i, j)
  {
    assert k in Cuts(i, k) && MatchStar(c.head.atom, fold, s, k, k);
    assert k in Cuts(i, j) && MatchPiece(c.head, fold, s, i, k);
  }

  lemma {:induction false} EndSampleMatches(c: Cat, fold: bool, s: string, i: nat)
    requires WfCat(c) && AnchoredAtEnd(c) && StandsAt(CatSample(c), s, i, |s|)
    ensures MatchCat(c, fold, s, i, |s|)
  {
    if OnlyEnd(c) {
      OnlyEndMatches(c, fold, s);
    } else {
      var k := SampleCut(c, s, i, |s|);
      if c.head.repeat.Once? || c.head.repeat.Plus? { AtomSampleMatches(c.head.atom, fold, s, i, k); }
      EndSampleMatches(c.tail, fold, s, k);
      PieceMatches(c, fold, s, i, k, |s|);
    }
  }

  lemma {:induction false} EdgeSampleMatches(c: Cat, fold: bool, s: string)
    requires WfCat(c) && AnchoredAtEdges(c) && CatSample(c) == s
    ensures MatchCat(c, fold, s, 0, |s|)
  {
    if AnchoredAtEnd(c) {
      assert StandsAt(s, s, 0, |s|);
      EndSampleMatches(c, fold, s, 0);
    } else {
      EdgeSampleMatches(c.tail, fold, s);
      PieceMatches(c, fold, s, 0, 0, |s|);
    }
  }

  /** Every branch that a top-level bar cuts off from the word has `^` at its start and `$` at
      its end only. */
  predicate StraysAnchoredAtEdges(affixes: Affixes)
    requires affixes.Balanced()
  {
    && (affixes.PrefixAlt().Or? ==> AnchoredAtEdges(affixes.PrefixAlt().branch))
    && (affixes.SuffixAlt().Or? ==> AnchoredAtEdges(affixes.SuffixAlt().rest.branch))
  }

  /** Such a branch is found in some text. */
  lemma EdgeStrayIsFound(affixes: Affixes, fold: bool) returns (s: string)
    requires affixes.Balanced() && !affixes.Standalone() && StraysAnchoredAtEdges(affixes)
    ensures StrayFound(affixes, fold, s)
  {
    var stray := if affixes.PrefixAlt().Or? then affixes.PrefixAlt().branch else affixes.SuffixAlt().rest.branch;
    s := CatSample(stray);
    EdgeSampleMatches(stray, fold, s);
    assert StrayAt(affixes, fold, s, 0, |s|);
  }

  /** Unless a cut-off branch has an anchor inside, meaning is preserved for every target list,
      side and text exactly when no affix has a bar outside brackets and groups. */
  lemma BarFreeExactly(eng: Engine, affixes: Affixes)
    requires affixes.Balanced() && StraysAnchoredAtEdges(affixes)
    ensures affixes.Standalone()
       <==> forall targets, side, s ::
              ListHits(eng, affixes, targets, side, s) <==> ListWants(eng, affixes, targets, side, s)
  {
    PreservingAffixesExactly(eng, affixes);
    if affixes.Standalone() {
      StandaloneIsStrayless(affixes);
    } else {
      var s := EdgeStrayIsFound(affixes, false);
    }
  }
}
