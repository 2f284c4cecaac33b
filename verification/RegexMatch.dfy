/** What an expression of the fragment matches, the engine that compiles and runs
    expressions, and what one emitted word pattern means. */
module RegexMatch {
  import opened Basics
  import opened Ascii
  import opened RegexSyntax

  // ---- Membership ------------------------------------------------------------

  /** The positions at which a match of `s[i..j]` may be cut in two. */
  function Cuts(i: nat, j: nat): (r: set<nat>)
    ensures forall k :: k in r <==> i <= k <= j
  {
    if i > j then {} else if j == 0 then {0} else Cuts(i, j - 1) + {j}
  }

  predicate SameChar(fold: bool, c: char, d: char) {
    if fold then Lower(c) == Lower(d) else c == d
  }

  predicate InRange(r: Range, c: char) { r.lo <= c <= r.hi }

  /** Folding adds both cases of every member. */
  predicate InRanges(ranges: seq<Range>, fold: bool, c: char) {
    exists m :: 0 <= m < |ranges|
                && (InRange(ranges[m], c) || (fold && (InRange(ranges[m], Lower(c)) || InRange(ranges[m], Upper(c)))))
  }

  /** `a` matches exactly `s[i..j]`. */
  predicate MatchAtom(a: Atom, fold: bool, s: string, i: nat, j: nat)
    requires i <= j <= |s|
    decreases a, 0, 0
  {
    match a
    case Lit(c) => j == i + 1 && SameChar(fold, s[i], c)
    case Class(negated, ranges) => j == i + 1 && (InRanges(ranges, fold, s[i]) <==> !negated)
    case Group(body) => MatchAlt(body, fold, s, i, j)
    case AnyChar => j == i + 1 && s[i] != '\n'
    case BeginText => i == j == 0
    case EndText => i == j == |s|
  }

  /** `a` matches some number of times in a row, making up `s[i..j]`. */
  predicate MatchStar(a: Atom, fold: bool, s: string, i: nat, j: nat)
    requires i <= j <= |s|
    decreases a, 1, j - i
  {
    i == j || exists k :: k in Cuts(i + 1, j) && MatchAtom(a, fold, s, i, k) && MatchStar(a, fold, s, k, j)
  }

  predicate MatchPiece(p: Piece, fold: bool, s: string, i: nat, j: nat)
    requires i <= j <= |s|
    decreases p, 1
  {
    match p.repeat
    case Once => MatchAtom(p.atom, fold, s, i, j)
    case Optional => i == j || MatchAtom(p.atom, fold, s, i, j)
    case Star => MatchStar(p.atom, fold, s, i, j)
    case Plus =>
      exists k :: k in Cuts(i, j) && MatchAtom(p.atom, fold, s, i, k) && MatchStar(p.atom, fold, s, k, j)
  }

  predicate MatchCat(c: Cat, fold: bool, s: string, i: nat, j: nat)
    requires i <= j <= |s|
    decreases c, 2
  {
    match c
    case Done => i == j
    case Then(head, tail) =>
      exists k :: k in Cuts(i, j) && MatchPiece(head, fold, s, i, k) && MatchCat(tail, fold, s, k, j)
  }

  predicate MatchAlt(a: Alt, fold: bool, s: string, i: nat, j: nat)
    requires i <= j <= |s|
    decreases a, 3
  {
    match a
    case One(branch) => MatchCat(branch, fold, s, i, j)
    case Or(branch, rest) => MatchCat(branch, fold, s, i, j) || MatchAlt(rest, fold, s, i, j)
  }

  /** Regexp.MatchString: an unanchored search. */
  predicate MatchProgram(p: Program, s: string) {
    exists i: nat, j: nat :: i <= j <= |s| && MatchAlt(p.body, p.foldCase, s, i, j)
  }

  // ---- The engine -------------------------------------------------------------

  /** A compiled expression; it can only come from a text that compiles. */
  datatype Regexp = Regexp(text: string)

  /** Go's regexp package: the modelled fragment means what `MatchProgram` says; on any
      other text the engine is arbitrary. */
  datatype Engine = Engine(compilesOther: string -> bool, matchesOther: (string, string) -> bool) {
    /** regexp.Compile. */
    function Compile(text: string): Option<Regexp> {
      if Parse(text).Some? || compilesOther(text) then Some(Regexp(text)) else None
    }

    /** Regexp.MatchString. */
    predicate MatchString(re: Regexp, s: string) {
      match Parse(re.text)
      case Some(program) => MatchProgram(program, s)
      case None => matchesOther(re.text, s)
    }

    /** `text` compiles and finds a match in `s`. */
    predicate Hits(text: string, s: string) {
      match Compile(text)
      case Some(re) => MatchString(re, s)
      case None => false
    }
  }

  // ---- Words ------------------------------------------------------------------

  /** The concatenation that spells `word`. */
  function Literal(word: string): Cat {
    if word == "" then Done else Then(Piece(Lit(word[0]), Once), Literal(word[1..]))
  }

  function AltOf(words: seq<string>): Alt
    requires words != []
  {
    if |words| == 1 then One(Literal(words[0])) else Or(Literal(words[0]), AltOf(words[1..]))
  }

  function QuoteAll(words: seq<string>): (r: seq<string>)
    ensures |r| == |words|
  {
    seq(|words|, i requires 0 <= i < |words| => QuoteMeta(words[i]))
  }

  /** strings.Join. */
  function Join(parts: seq<string>, sep: string): string {
    if parts == [] then ""
    else if |parts| == 1 then parts[0]
    else parts[0] + sep + Join(parts[1..], sep)
  }

  /** The text compilePatterns emits for one group of quoted words. */
  function WordPatternText(fold: bool, prefix: string, quoted: seq<string>, suffix: string): string {
    (if fold then CASE_FLAG else "") + prefix + "(" + Join(quoted, "|") + ")" + suffix
  }

  lemma {:induction false} LiteralPrints(word: string)
    ensures WfCat(Literal(word)) && PrintCat(Literal(word)) == QuoteMeta(word)
  {
    if word != "" {
      LiteralPrints(word[1..]);
      assert PrintPiece(Piece(Lit(word[0]), Once)) == QuoteChar(word[0]) + "" == QuoteChar(word[0]);
    }
  }

  lemma {:induction false} AltOfPrints(words: seq<string>)
    requires words != []
    ensures WfAlt(AltOf(words)) && PrintAlt(AltOf(words)) == Join(QuoteAll(words), "|")
  {
    LiteralPrints(words[0]);
    if |words| > 1 {
      AltOfPrints(words[1..]);
      assert QuoteAll(words)[1..] == QuoteAll(words[1..]);
    }
  }

  /** No two words quote to the same text. */
  lemma QuoteMetaInjective(v: string, w: string)
    requires QuoteMeta(v) == QuoteMeta(w)
    ensures v == w
  {
    LiteralPrints(v);
    LiteralPrints(w);
    CatRoundTrip(Literal(v), "");
    CatRoundTrip(Literal(w), "");
    LiteralInjective(v, w);
  }

  lemma {:induction false} LiteralInjective(v: string, w: string)
    requires Literal(v) == Literal(w)
    ensures v == w
  {
    if v != "" && w != "" {
      LiteralInjective(v[1..], w[1..]);
      assert v == [v[0]] + v[1..] && w == [w[0]] + w[1..];
    }
  }

  // ---- Affixes and the structure of emitted text -------------------------------

  function LastBranch(a: Alt): Cat {
    match a
    case One(branch) => branch
    case Or(_, rest) => LastBranch(rest)
  }

  /** The prefix and suffix texts put around every word group. */
  datatype Affixes = Affixes(prefix: string, suffix: string) {
    /** Each affix reads as a complete expression of the fragment on its own. */
    predicate Balanced() {
      IsAlternation(prefix) && IsAlternation(suffix)
    }

    function PrefixAlt(): Alt
      requires Balanced()
    { ParseAlt(prefix).value.0 }

    function SuffixAlt(): Alt
      requires Balanced()
    { ParseAlt(suffix).value.0 }

    /** What stands right before a word: the last branch of the prefix. */
    function Prefix(): Cat
      requires Balanced()
    { LastBranch(PrefixAlt()) }

    /** What stands right after a word: the first branch of the suffix. */
    function Suffix(): Cat
      requires Balanced()
    { SuffixAlt().branch }

    /** No affix has a bar outside brackets and groups. */
    predicate Standalone() {
      Balanced() && PrefixAlt().One? && SuffixAlt().One?
    }
  }

  predicate IsAlternation(text: string) {
    ParseAlt(text).Some? && ParseAlt(text).value.1 == ""
  }

  const DEFAULT_AFFIXES := Affixes("[\\/\\+]", "=?$")

  function WordGroup(words: seq<string>): Alt
    requires words != []
  {
    One(Then(Piece(Group(AltOf(words)), Once), Done))
  }

  function WordProgram(fold: bool, affixes: Affixes, words: seq<string>): Program
    requires affixes.Balanced() && words != []
  {
    Program(fold, Splice(affixes.PrefixAlt(), Splice(WordGroup(words), affixes.SuffixAlt())))
  }

  /** Whatever characters the words hold, the emitted text parses to the prefix run on into
      the alternation of exactly those words, run on into the suffix. */
  lemma WordPatternParses(fold: bool, affixes: Affixes, words: seq<string>)
    requires affixes.Balanced() && words != []
    ensures Parse(WordPatternText(fold, affixes.prefix, QuoteAll(words), affixes.suffix))
         == Some(WordProgram(fold, affixes, words))
  {
    var alternation := Join(QuoteAll(words), "|");
    var group := "(" + alternation + ")" + affixes.suffix;
    GroupParses(words, affixes.suffix);
    AlternationStart(group);
    AlternationInContext(affixes.prefix, group);
    TextRegroups(if fold then CASE_FLAG else "", affixes.prefix, alternation, affixes.suffix);
    ParseFlagged(fold, affixes.prefix + group, WordProgram(fold, affixes, words).body);
  }

  lemma TextRegroups(flag: string, prefix: string, alternation: string, suffix: string)
    ensures flag + prefix + "(" + alternation + ")" + suffix == flag + (prefix + ("(" + alternation + ")" + suffix))
  {
  }

  lemma ParseFlagged(fold: bool, text: string, body: Alt)
    requires ParseAlt(text) == Some((body, ""))
    ensures Parse((if fold then CASE_FLAG else "") + text) == Some(Program(fold, body))
  {
    if fold {
      assert (CASE_FLAG + text)[4..] == text;
    } else {
      assert "" + text == text;
      if CASE_FLAG <= text {
        assert "(?" <= CASE_FLAG;
        assert "(?" <= text;
        FlagOnlyAtStart(text);
      }
    }
  }

  lemma GroupParses(words: seq<string>, suffix: string)
    requires words != [] && IsAlternation(suffix)
    ensures ParseAlt("(" + Join(QuoteAll(words), "|") + ")" + suffix)
         == Some((Splice(WordGroup(words), ParseAlt(suffix).value.0), ""))
  {
    var group := Group(AltOf(words));
    var text := "(" + Join(QuoteAll(words), "|") + ")";
    AltOfPrints(words);
    assert text == PrintAtom(group) + "";
    AtomRoundTrip(group, "");
    assert ParsePiece(text) == Some((Piece(group, Once), ""));
    assert ParseCat("") == Some((Done, ""));
    assert ParseCat(text) == Some((WordGroup(words).branch, ""));
    assert ParseAlt(text) == Some((WordGroup(words), ""));
    AlternationStart(suffix);
    AlternationInContext(text, suffix);
  }

  lemma AlternationStart(text: string)
    requires IsAlternation(text)
    ensures text == "" || !IsRepeat(text[0])
  {
    assert ParseCat(text).Some?;
    assert text != "" && text[0] != '|' && text[0] != ')' ==> ParsePiece(text).Some? && ParseAtom(text).Some?;
  }

  /** Without the case flag the emitted text opens with no flag. */
  lemma WordTextNoFlag(affixes: Affixes, words: seq<string>)
    requires affixes.Balanced() && words != []
    ensures !("(?" <= WordPatternText(false, affixes.prefix, QuoteAll(words), affixes.suffix))
  {
    var text := WordPatternText(false, affixes.prefix, QuoteAll(words), affixes.suffix);
    WordPatternParses(false, affixes, words);
    if "(?" <= text { FlagOnlyAtStart(text); }
  }

  // ---- Meaning of emitted patterns ------------------------------------------------

  /** The `i`..`j` match of prefix, word and suffix, with the word at `a`..`b`. */
  ghost predicate WordAt(affixes: Affixes, word: string, fold: bool, s: string, i: nat, a: nat, b: nat, j: nat)
    requires affixes.Balanced()
  {
    && i <= a <= b <= j <= |s|
    && MatchCat(affixes.Prefix(), fold, s, i, a)
    && SameText(fold, s[a..b], word)
    && MatchCat(affixes.Suffix(), fold, s, b, j)
  }

  /** One word in one case mode is found somewhere in `s`, between the affixes. */
  ghost predicate WordHit(affixes: Affixes, word: string, fold: bool, s: string)
    requires affixes.Balanced()
  {
    exists i: nat, a: nat, b: nat, j: nat :: WordAt(affixes, word, fold, s, i, a, b, j)
  }

  lemma {:induction false} AppendSplits(c: Cat, d: Cat, fold: bool, s: string, i: nat, j: nat)
    returns (k: nat)
    requires i <= j <= |s| && MatchCat(Append(c, d), fold, s, i, j)
    ensures k in Cuts(i, j) && MatchCat(c, fold, s, i, k) && MatchCat(d, fold, s, k, j)
  {
    match c
    case Done => k := i;
    case Then(head, tail) =>
      var m :| m in Cuts(i, j) && MatchPiece(head, fold, s, i, m) && MatchCat(Append(tail, d), fold, s, m, j);
      k := AppendSplits(tail, d, fold, s, m, j);
      assert m in Cuts(i, k);
  }

  lemma {:induction false} AppendJoins(c: Cat, d: Cat, fold: bool, s: string, i: nat, k: nat, j: nat)
    requires i <= k <= j <= |s|
    requires MatchCat(c, fold, s, i, k) && MatchCat(d, fold, s, k, j)
    ensures MatchCat(Append(c, d), fold, s, i, j)
  {
    match c
    case Done =>
    case Then(head, tail) =>
      var m :| m in Cuts(i, k) && MatchPiece(head, fold, s, i, m) && MatchCat(tail, fold, s, m, k);
      AppendJoins(tail, d, fold, s, m, k, j);
      assert m in Cuts(i, j);
  }

  lemma {:induction false} MatchLiteral(word: string, fold: bool, s: string, i: nat, j: nat)
    requires i <= j <= |s|
    ensures MatchCat(Literal(word), fold, s, i, j) <==> SameText(fold, s[i..j], word)
  {
    if word == "" {
      assert fold ==> |ToLower(s[i..j])| == |ToLower(word)| ==> i == j;
    } else {
      var head := Piece(Lit(word[0]), Once);
      if MatchCat(Literal(word), fold, s, i, j) {
        var k :| k in Cuts(i, j) && MatchPiece(head, fold, s, i, k)
              && MatchCat(Literal(word[1..]), fold, s, k, j);
        assert MatchAtom(head.atom, fold, s, i, k);
        MatchLiteral(word[1..], fold, s, i + 1, j);
        SameTextStep(fold, s[i..j], word);
        assert s[i..j][1..] == s[i + 1..j];
      }
      if SameText(fold, s[i..j], word) {
        assert |ToLower(s[i..j])| == j - i && |ToLower(word)| == |word|;
        SameTextStep(fold, s[i..j], word);
        assert s[i..j][1..] == s[i + 1..j];
        MatchLiteral(word[1..], fold, s, i + 1, j);
        assert MatchAtom(head.atom, fold, s, i, i + 1);
        assert i + 1 in Cuts(i, j) && MatchPiece(head, fold, s, i, i + 1);
      }
    }
  }

  lemma SameTextStep(fold: bool, t: string, word: string)
    requires t != "" && word != ""
    ensures SameText(fold, t, word) <==> SameChar(fold, t[0], word[0]) && SameText(fold, t[1..], word[1..])
  {
    if fold {
      ToLowerSlice(t, 1, |t|);
      ToLowerSlice(word, 1, |word|);
      assert ToLower(t) == [Lower(t[0])] + ToLower(t)[1..];
      assert ToLower(word) == [Lower(word[0])] + ToLower(word)[1..];
      assert t[1..] == t[1..|t|] && word[1..] == word[1..|word|];
    } else {
      assert t == [t[0]] + t[1..];
      assert word == [word[0]] + word[1..];
    }
  }

  lemma {:induction false} MatchAltOf(words: seq<string>, fold: bool, s: string, i: nat, j: nat)
    requires words != [] && i <= j <= |s|
    ensures MatchAlt(AltOf(words), fold, s, i, j) <==> exists w :: w in words && SameText(fold, s[i..j], w)
  {
    MatchLiteral(words[0], fold, s, i, j);
    if |words| > 1 {
      MatchAltOf(words[1..], fold, s, i, j);
      assert forall w :: w in words <==> w == words[0] || w in words[1..];
    }
  }

  /** Some branch of `a` but the last matches. */
  predicate MatchBeforeLast(a: Alt, fold: bool, s: string, i: nat, j: nat)
    requires i <= j <= |s|
  {
    a.Or? && (MatchCat(a.branch, fold, s, i, j) || MatchBeforeLast(a.rest, fold, s, i, j))
  }

  /** Some branch of `a` but the first matches. */
  predicate MatchAfterFirst(a: Alt, fold: bool, s: string, i: nat, j: nat)
    requires i <= j <= |s|
  {
    a.Or? && MatchAlt(a.rest, fold, s, i, j)
  }

  lemma {:induction false} SpliceMeaning(a: Alt, b: Alt, fold: bool, s: string, i: nat, j: nat)
    requires i <= j <= |s|
    ensures MatchAlt(Splice(a, b), fold, s, i, j)
       <==> || MatchBeforeLast(a, fold, s, i, j)
            || MatchCat(Append(LastBranch(a), b.branch), fold, s, i, j)
            || MatchAfterFirst(b, fold, s, i, j)
  {
    if a.Or? {
      SpliceMeaning(a.rest, b, fold, s, i, j);
    }
  }

  /** A branch of an affix that a top-level bar cuts off from the word matches at `i`..`j`. */
  predicate StrayAt(affixes: Affixes, fold: bool, s: string, i: nat, j: nat)
    requires affixes.Balanced() && i <= j <= |s|
  {
    MatchBeforeLast(affixes.PrefixAlt(), fold, s, i, j) || MatchAfterFirst(affixes.SuffixAlt(), fold, s, i, j)
  }

  /** Such a branch is found somewhere in `s`, word or no word. */
  ghost predicate StrayFound(affixes: Affixes, fold: bool, s: string)
    requires affixes.Balanced()
  {
    exists i: nat, j: nat :: i <= j <= |s| && StrayAt(affixes, fold, s, i, j)
  }

  /** The branch of the emitted pattern that holds the words. */
  function WordBranch(affixes: Affixes, words: seq<string>): Cat
    requires affixes.Balanced() && words != []
  {
    Append(affixes.Prefix(), Then(Piece(Group(AltOf(words)), Once), affixes.Suffix()))
  }

  lemma WordProgramBranches(fold: bool, affixes: Affixes, words: seq<string>, s: string, i: nat, j: nat)
    requires affixes.Balanced() && words != [] && i <= j <= |s|
    ensures MatchAlt(WordProgram(fold, affixes, words).body, fold, s, i, j)
       <==> StrayAt(affixes, fold, s, i, j) || MatchCat(WordBranch(affixes, words), fold, s, i, j)
  {
    var wordOn := Splice(WordGroup(words), affixes.SuffixAlt());
    SpliceMeaning(affixes.PrefixAlt(), wordOn, fold, s, i, j);
    assert Append(Done, affixes.Suffix()) == affixes.Suffix();
    assert wordOn.branch == Then(Piece(Group(AltOf(words)), Once), affixes.Suffix());
  }

  /** A group pattern matches exactly when one of its words does, or a branch of an affix
      that a top-level bar cuts off. */
  lemma WordProgramMeaning(fold: bool, affixes: Affixes, words: seq<string>, s: string)
    requires affixes.Balanced() && words != []
    ensures MatchProgram(WordProgram(fold, affixes, words), s)
       <==> StrayFound(affixes, fold, s) || exists w :: w in words && WordHit(affixes, w, fold, s)
  {
    var program := WordProgram(fold, affixes, words);
    if MatchProgram(program, s) {
      var i: nat, j: nat :| i <= j <= |s| && MatchAlt(program.body, fold, s, i, j);
      WordProgramBranches(fold, affixes, words, s, i, j);
      if !StrayAt(affixes, fold, s, i, j) { BranchFindsWord(fold, affixes, words, s, i, j); }
    }
    if StrayFound(affixes, fold, s) {
      var i: nat, j: nat :| i <= j <= |s| && StrayAt(affixes, fold, s, i, j);
      WordProgramBranches(fold, affixes, words, s, i, j);
    }
    if w :| w in words && WordHit(affixes, w, fold, s) {
      var i: nat, a: nat, b: nat, j: nat :| WordAt(affixes, w, fold, s, i, a, b, j);
      WordFoundByBranch(fold, affixes, words, w, s, i, a, b, j);
      WordProgramBranches(fold, affixes, words, s, i, j);
    }
  }

  lemma BranchFindsWord(fold: bool, affixes: Affixes, words: seq<string>, s: string, i: nat, j: nat)
    requires affixes.Balanced() && words != [] && i <= j <= |s|
    requires MatchCat(WordBranch(affixes, words), fold, s, i, j)
    ensures exists w :: w in words && WordHit(affixes, w, fold, s)
  {
    var group := Piece(Group(AltOf(words)), Once);
    var tail := Then(group, affixes.Suffix());
    var a := AppendSplits(affixes.Prefix(), tail, fold, s, i, j);
    var b :| b in Cuts(a, j) && MatchPiece(group, fold, s, a, b) && MatchCat(affixes.Suffix(), fold, s, b, j);
    assert MatchAtom(group.atom, fold, s, a, b);
    MatchAltOf(words, fold, s, a, b);
    var w :| w in words && SameText(fold, s[a..b], w);
    assert WordAt(affixes, w, fold, s, i, a, b, j);
    assert WordHit(affixes, w, fold, s);
  }

  lemma WordFoundByBranch(fold: bool, affixes: Affixes, words: seq<string>, w: string, s: string,
                          i: nat, a: nat, b: nat, j: nat)
    requires affixes.Balanced() && w in words
    requires WordAt(affixes, w, fold, s, i, a, b, j)
    ensures MatchCat(WordBranch(affixes, words), fold, s, i, j)
  {
    var group := Piece(Group(AltOf(words)), Once);
    var tail := Then(group, affixes.Suffix());
    MatchAltOf(words, fold, s, a, b);
    assert MatchAtom(group.atom, fold, s, a, b);
    assert MatchPiece(group, fold, s, a, b);
    assert b in Cuts(a, j);
    assert MatchCat(tail, fold, s, a, j);
    AppendJoins(affixes.Prefix(), tail, fold, s, i, a, j);
  }

  /** Running the emitted text is the same as looking for one of the words, or for a branch
      of an affix that a top-level bar cuts off. */
  lemma WordPatternMeaning(eng: Engine, fold: bool, affixes: Affixes, words: seq<string>, s: string)
    requires affixes.Balanced() && words != []
    ensures eng.Hits(WordPatternText(fold, affixes.prefix, QuoteAll(words), affixes.suffix), s)
       <==> StrayFound(affixes, fold, s) || exists w :: w in words && WordHit(affixes, w, fold, s)
  {
    WordPatternParses(fold, affixes, words);
    WordProgramMeaning(fold, affixes, words, s);
  }

  /** Affixes without a top-level bar have no stray branches. */
  lemma StandaloneHasNoStrays(affixes: Affixes, fold: bool, s: string)
    requires affixes.Standalone()
    ensures !StrayFound(affixes, fold, s)
  {
  }

  // ---- The default affixes -------------------------------------------------------

  /** A separator at `at`, then the word, then an optional `=`, then the end of the text. */
  predicate EndsWithWord(word: string, fold: bool, s: string, at: nat) {
    var a := at + 1;
    var b := a + |word|;
    && b <= |s|
    && (s[at] == '/' || s[at] == '+')
    && SameText(fold, s[a..b], word)
    && (b == |s| || (b + 1 == |s| && s[b] == '='))
  }

  const SEPARATORS := Class(false, [Range('/', '/'), Range('+', '+')])

  lemma DefaultPrefixParses()
    ensures ParseAlt("[\\/\\+]") == Some((One(DEFAULT_PREFIX), ""))
  {
    var prefix := Then(Piece(SEPARATORS, Once), Done);
    var plus := [Range('+', '+')];
    assert SEPARATORS.ranges[1..] == plus;
    assert PrintRange(Range('+', '+')) == "\\+" + "" && PrintRange(Range('/', '/')) == "\\/" + "";
    assert PrintRanges(plus) == "\\+" + PrintRanges(plus[1..]) == "\\+";
    assert PrintRanges(SEPARATORS.ranges) == "\\/" + PrintRanges(plus) == "\\/\\+";
    assert PrintAtom(SEPARATORS) == "[" + "" + "\\/\\+" + "]" == "[\\/\\+]";
    assert PrintCat(prefix) == "[\\/\\+]" + "" + "" == "[\\/\\+]";
    CatRoundTrip(prefix, "");
    assert PrintCat(prefix) + "" == PrintCat(prefix);
  }

  lemma DefaultSuffixParses()
    ensures ParseAlt("=?$") == Some((One(DEFAULT_SUFFIX), ""))
  {
    var end := Then(Piece(EndText, Once), Done);
    var suffix := Then(Piece(Lit('='), Optional), end);
    assert PrintCat(end) == "$" + "" + "" == "$";
    assert PrintPiece(Piece(Lit('='), Optional)) == "=" + "?" == "=?";
    assert PrintCat(suffix) == "=?" + "$" == "=?$";
    CatRoundTrip(suffix, "");
    assert PrintCat(suffix) + "" == PrintCat(suffix);
  }

  const DEFAULT_PREFIX := Then(Piece(SEPARATORS, Once), Done)
  const DEFAULT_SUFFIX := Then(Piece(Lit('='), Optional), Then(Piece(EndText, Once), Done))

  /** What stands before and after a word is what the defaults put there. */
  predicate AroundAsDefault(affixes: Affixes) {
    affixes.Balanced() && affixes.Prefix() == DEFAULT_PREFIX && affixes.Suffix() == DEFAULT_SUFFIX
  }

  lemma DefaultAffixesParse()
    ensures DEFAULT_AFFIXES.Standalone() && AroundAsDefault(DEFAULT_AFFIXES)
  {
    DefaultPrefixParses();
    DefaultSuffixParses();
  }

  /** With the default affixes a word is found exactly when the text ends with a
      separator, the word and an optional `=`. */
  lemma DefaultWordHit(word: string, fold: bool, s: string)
    ensures DEFAULT_AFFIXES.Balanced()
    ensures WordHit(DEFAULT_AFFIXES, word, fold, s) <==> exists at: nat :: EndsWithWord(word, fold, s, at)
  {
    DefaultAffixesParse();
    WordHitAtEnd(DEFAULT_AFFIXES, word, fold, s);
  }

  lemma WordHitAtEnd(affixes: Affixes, word: string, fold: bool, s: string)
    requires AroundAsDefault(affixes)
    ensures WordHit(affixes, word, fold, s) <==> exists at: nat :: EndsWithWord(word, fold, s, at)
  {
    if WordHit(affixes, word, fold, s) {
      var i: nat, a: nat, b: nat, j: nat :| WordAt(affixes, word, fold, s, i, a, b, j);
      WordAtEnd(affixes, word, fold, s, i, a, b, j);
    }
    if at: nat :| EndsWithWord(word, fold, s, at) {
      WordAtEnd(affixes, word, fold, s, at, at + 1, at + 1 + |word|, |s|);
    }
  }

  lemma WordAtEnd(affixes: Affixes, word: string, fold: bool, s: string, i: nat, a: nat, b: nat, j: nat)
    requires AroundAsDefault(affixes)
    ensures WordAt(affixes, word, fold, s, i, a, b, j)
       <==> a == i + 1 && b == a + |word| && j == |s| && EndsWithWord(word, fold, s, i)
  {
    if i <= a <= b <= j <= |s| {
      OneAtomMeaning(SEPARATORS, fold, s, i, a);
      SeparatorMeaning(fold, s, i, a);
      EqualsThenEnd(fold, s, b, j);
      SameTextLength(fold, s[a..b], word);
    }
  }

  lemma SameTextLength(fold: bool, a: string, b: string)
    ensures SameText(fold, a, b) ==> |a| == |b|
  {
    assert |ToLower(a)| == |a| && |ToLower(b)| == |b|;
  }

  lemma SeparatorMeaning(fold: bool, s: string, i: nat, j: nat)
    requires i <= j <= |s|
    ensures MatchAtom(SEPARATORS, fold, s, i, j) <==> j == i + 1 && (s[i] == '/' || s[i] == '+')
  {
    if j == i + 1 && (s[i] == '/' || s[i] == '+') {
      assert InRange(SEPARATORS.ranges[if s[i] == '/' then 0 else 1], s[i]);
    }
  }

  /** A concatenation of one plain atom matches what the atom does. */
  lemma OneAtomMeaning(a: Atom, fold: bool, s: string, i: nat, j: nat)
    requires i <= j <= |s|
    ensures MatchCat(Then(Piece(a, Once), Done), fold, s, i, j) <==> MatchAtom(a, fold, s, i, j)
  {
    var head := Piece(a, Once);
    if MatchAtom(a, fold, s, i, j) {
      assert j in Cuts(i, j) && MatchPiece(head, fold, s, i, j) && MatchCat(Done, fold, s, j, j);
    }
    if MatchCat(Then(head, Done), fold, s, i, j) {
      var k :| k in Cuts(i, j) && MatchPiece(head, fold, s, i, k) && MatchCat(Done, fold, s, k, j);
    }
  }

  lemma EqualsThenEnd(fold: bool, s: string, i: nat, j: nat)
    requires i <= j <= |s|
    ensures MatchCat(DEFAULT_SUFFIX, fold, s, i, j)
       <==> j == |s| && (i == |s| || (i + 1 == |s| && s[i] == '='))
  {
    var equals := Piece(Lit('='), Optional);
    var end := Then(Piece(EndText, Once), Done);
    forall k: nat | i <= k <= j
      ensures MatchCat(end, fold, s, k, j) <==> k == j == |s|
    {
      OneAtomMeaning(EndText, fold, s, k, j);
    }
    if j == |s| && (i == |s| || (i + 1 == |s| && s[i] == '=')) {
      assert j in Cuts(i, j) && MatchPiece(equals, fold, s, i, j) && MatchCat(end, fold, s, j, j);
    }
    if MatchCat(Then(equals, end), fold, s, i, j) {
      var k :| k in Cuts(i, j) && MatchPiece(equals, fold, s, i, k) && MatchCat(end, fold, s, k, j);
    }
  }
}
