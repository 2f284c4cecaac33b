/** What the operators of the fragment mean, checked against independent descriptions. */
module RegexSamples {
  import opened RegexSyntax
  import opened RegexMatch

  // ---- Repetition, as a list of cuts ------------------------------------------------------------

  /** `cuts` leads from `i` to `j` in steps that each match the atom. */
  ghost predicate Chain(a: Atom, fold: bool, s: string, i: nat, cuts: seq<nat>, j: nat) {
    && cuts != [] && cuts[0] == i && cuts[|cuts| - 1] == j
    && (forall n :: 0 <= n < |cuts| ==> cuts[n] <= |s|)
    && forall n :: 0 <= n < |cuts| - 1 ==> Link(a, fold, s, cuts[n], cuts[n + 1])
  }

  predicate Link(a: Atom, fold: bool, s: string, i: nat, j: nat) {
    i <= j <= |s| && MatchAtom(a, fold, s, i, j)
  }

  lemma ChainCons(a: Atom, fold: bool, s: string, i: nat, k: nat, cuts: seq<nat>, j: nat)
    requires Link(a, fold, s, i, k) && Chain(a, fold, s, k, cuts, j)
    ensures Chain(a, fold, s, i, [i] + cuts, j)
  {
    var longer := [i] + cuts;
    forall n | 0 <= n < |longer| - 1
      ensures Link(a, fold, s, longer[n], longer[n + 1])
    {
      if n > 0 { assert longer[n] == cuts[n - 1] && longer[n + 1] == cuts[n]; }
    }
  }

  lemma ChainTail(a: Atom, fold: bool, s: string, i: nat, cuts: seq<nat>, j: nat)
    requires Chain(a, fold, s, i, cuts, j) && |cuts| > 1
    ensures Link(a, fold, s, i, cuts[1]) && Chain(a, fold, s, cuts[1], cuts[1..], j)
  {
    assert Link(a, fold, s, cuts[0], cuts[0 + 1]);
    var rest := cuts[1..];
    forall n | 0 <= n < |rest| - 1
      ensures Link(a, fold, s, rest[n], rest[n + 1])
    {
      assert Link(a, fold, s, cuts[n + 1], cuts[n + 1 + 1]);
    }
  }

  lemma {:induction false} StarHasChain(a: Atom, fold: bool, s: string, i: nat, j: nat) returns (cuts: seq<nat>)
    requires i <= j <= |s| && MatchStar(a, fold, s, i, j)
    ensures Chain(a, fold, s, i, cuts, j)
    decreases j - i
  {
    if i == j {
      cuts := [i];
    } else {
      var k :| k in Cuts(i + 1, j) && MatchAtom(a, fold, s, i, k) && MatchStar(a, fold, s, k, j);
      var rest := StarHasChain(a, fold, s, k, j);
      ChainCons(a, fold, s, i, k, rest, j);
      cuts := [i] + rest;
    }
  }

  lemma {:induction false} ChainIsStar(a: Atom, fold: bool, s: string, i: nat, cuts: seq<nat>, j: nat)
    requires Chain(a, fold, s, i, cuts, j)
    ensures i <= j && MatchStar(a, fold, s, i, j)
    decreases |cuts|
  {
    if |cuts| > 1 {
      var k := cuts[1];
      ChainTail(a, fold, s, i, cuts, j);
      ChainIsStar(a, fold, s, k, cuts[1..], j);
      if i < k { assert k in Cuts(i + 1, j); }
    }
  }

  /** Starred, an atom matches what can be cut into matches of it. */
  lemma StarMeaning(a: Atom, fold: bool, s: string, i: nat, j: nat)
    requires i <= j <= |s|
    ensures MatchPiece(Piece(a, Star), fold, s, i, j) <==> exists cuts :: Chain(a, fold, s, i, cuts, j)
  {
    if MatchStar(a, fold, s, i, j) {
      var cuts := StarHasChain(a, fold, s, i, j);
    }
    if cuts :| Chain(a, fold, s, i, cuts, j) {
      ChainIsStar(a, fold, s, i, cuts, j);
    }
  }

  /** With a plus, what can be cut into at least one. */
  lemma PlusMeaning(a: Atom, fold: bool, s: string, i: nat, j: nat)
    requires i <= j <= |s|
    ensures MatchPiece(Piece(a, Plus), fold, s, i, j) <==> exists cuts :: Chain(a, fold, s, i, cuts, j) && |cuts| > 1
  {
    if MatchPiece(Piece(a, Plus), fold, s, i, j) {
      var k :| k in Cuts(i, j) && MatchAtom(a, fold, s, i, k) && MatchStar(a, fold, s, k, j);
      var rest := StarHasChain(a, fold, s, k, j);
      ChainCons(a, fold, s, i, k, rest, j);
    }
    if cuts :| Chain(a, fold, s, i, cuts, j) && |cuts| > 1 {
      ChainTail(a, fold, s, i, cuts, j);
      ChainIsStar(a, fold, s, cuts[1], cuts[1..], j);
      assert cuts[1] in Cuts(i, j);
    }
  }

  // ---- One expression that uses the other operators ------------------------------------------------

  const NOT_ABC := Class(true, [Range('a', 'c')])
  const TAIL := Then(Piece(AnyChar, Once), Then(Piece(EndText, Once), Done))
  const BODY := Then(Piece(NOT_ABC, Star), TAIL)
  const SAMPLE := Program(false, One(Then(Piece(BeginText, Once), BODY)))

  lemma SamplePrints()
    ensures Print(SAMPLE) == "^[^a-c]*.$" && WfAlt(SAMPLE.body)
  {
    assert PrintRange(Range('a', 'c')) == "a" + ("-" + "c") == "a-c";
    assert NOT_ABC.ranges[1..] == [];
    assert PrintRanges(NOT_ABC.ranges) == "a-c" + "" == "a-c";
    assert PrintAtom(NOT_ABC) == "[" + "^" + "a-c" + "]" == "[^a-c]";
    assert PrintCat(TAIL.tail) == "$" + "" + "" == "$";
    assert PrintCat(TAIL) == "." + "" + "$" == ".$";
    assert PrintCat(BODY) == "[^a-c]" + "*" + ".$" == "[^a-c]*.$";
    assert PrintCat(SAMPLE.body.branch) == "^" + "" + "[^a-c]*.$" == "^[^a-c]*.$";
  }

  lemma NotAbc(s: string, i: nat, j: nat)
    requires i <= j <= |s|
    ensures MatchAtom(NOT_ABC, false, s, i, j) <==> j == i + 1 && !('a' <= s[i] <= 'c')
  {
    if j == i + 1 { assert InRanges(NOT_ABC.ranges, false, s[i]) <==> InRange(NOT_ABC.ranges[0], s[i]); }
  }

  lemma {:induction false} NotAbcStar(s: string, i: nat, j: nat)
    requires i <= j <= |s|
    ensures MatchStar(NOT_ABC, false, s, i, j) <==> forall k :: i <= k < j ==> !('a' <= s[k] <= 'c')
    decreases j - i
  {
    if i < j {
      NotAbc(s, i, i + 1);
      NotAbcStar(s, i + 1, j);
      assert i + 1 in Cuts(i + 1, j);
      forall k | k in Cuts(i + 1, j)
        ensures MatchAtom(NOT_ABC, false, s, i, k) ==> k == i + 1
      {
        NotAbc(s, i, k);
      }
    }
  }

  lemma CatSplits(head: Piece, tail: Cat, s: string, i: nat, j: nat) returns (k: nat)
    requires i <= j <= |s| && MatchCat(Then(head, tail), false, s, i, j)
    ensures i <= k <= j && MatchPiece(head, false, s, i, k) && MatchCat(tail, false, s, k, j)
  {
    k :| k in Cuts(i, j) && MatchPiece(head, false, s, i, k) && MatchCat(tail, false, s, k, j);
  }

  lemma CatJoins(head: Piece, tail: Cat, s: string, i: nat, k: nat, j: nat)
    requires i <= k <= j <= |s| && MatchPiece(head, false, s, i, k) && MatchCat(tail, false, s, k, j)
    ensures MatchCat(Then(head, tail), false, s, i, j)
  {
    assert k in Cuts(i, j);
  }

  lemma OnePieceMeaning(a: Atom, s: string, i: nat, j: nat)
    requires i <= j <= |s|
    ensures MatchPiece(Piece(a, Once), false, s, i, j) <==> MatchAtom(a, false, s, i, j)
  {
  }

  lemma TailMeaning(s: string, i: nat, j: nat)
    requires i <= j <= |s|
    ensures MatchCat(TAIL, false, s, i, j) <==> j == |s| == i + 1 && s[i] != '\n'
  {
    var any, end := Piece(AnyChar, Once), Then(Piece(EndText, Once), Done);
    if MatchCat(TAIL, false, s, i, j) {
      var k := CatSplits(any, end, s, i, j);
      OnePieceMeaning(AnyChar, s, i, k);
      OneAtomMeaning(EndText, false, s, k, j);
    }
    if j == |s| == i + 1 && s[i] != '\n' {
      OnePieceMeaning(AnyChar, s, i, j);
      OneAtomMeaning(EndText, false, s, j, j);
      CatJoins(any, end, s, i, j, j);
    }
  }

  predicate NoAbc(s: string, n: nat)
    requires n <= |s|
  {
    forall k :: 0 <= k < n ==> !('a' <= s[k] <= 'c')
  }

  lemma StarPieceMeaning(s: string, k: nat)
    requires k <= |s|
    ensures MatchPiece(Piece(NOT_ABC, Star), false, s, 0, k) <==> NoAbc(s, k)
  {
    NotAbcStar(s, 0, k);
  }

  /** The last character of the text. */
  predicate LastAt(s: string, k: nat, j: nat) { j == |s| == k + 1 && s[k] != '\n' }

  lemma StarThen(tail: Cat, s: string, j: nat)
    requires j <= |s|
    requires forall k: nat :: k <= j ==> (MatchCat(tail, false, s, k, j) <==> LastAt(s, k, j))
    ensures MatchCat(Then(Piece(NOT_ABC, Star), tail), false, s, 0, j)
       <==> j == |s| > 0 && LastAt(s, |s| - 1, j) && NoAbc(s, |s| - 1)
  {
    var star := Piece(NOT_ABC, Star);
    if MatchCat(Then(star, tail), false, s, 0, j) {
      var k := CatSplits(star, tail, s, 0, j);
      StarPieceMeaning(s, k);
    }
    if j == |s| > 0 && LastAt(s, |s| - 1, j) && NoAbc(s, |s| - 1) {
      StarPieceMeaning(s, |s| - 1);
      CatJoins(star, tail, s, 0, |s| - 1, j);
    }
  }

  lemma BodyMeaning(s: string, j: nat)
    requires j <= |s|
    ensures MatchCat(BODY, false, s, 0, j) <==> j == |s| > 0 && s[|s| - 1] != '\n' && NoAbc(s, |s| - 1)
  {
    forall k: nat | k <= j
      ensures MatchCat(TAIL, false, s, k, j) <==> LastAt(s, k, j)
    {
      TailMeaning(s, k, j);
    }
    StarThen(TAIL, s, j);
  }

  lemma BeginThen(tail: Cat, s: string, i: nat, j: nat)
    requires i <= j <= |s|
    ensures MatchCat(Then(Piece(BeginText, Once), tail), false, s, i, j) <==> i == 0 && MatchCat(tail, false, s, 0, j)
  {
    var begin := Piece(BeginText, Once);
    if MatchCat(Then(begin, tail), false, s, i, j) {
      var k := CatSplits(begin, tail, s, i, j);
      OnePieceMeaning(BeginText, s, i, k);
    }
    if i == 0 && MatchCat(tail, false, s, 0, j) {
      OnePieceMeaning(BeginText, s, 0, 0);
      CatJoins(begin, tail, s, 0, 0, j);
    }
  }

  /** `^[^a-c]*.$` finds exactly the non-empty texts without a, b and c before their last
      character, which is not a line end. */
  lemma SampleMeaning(eng: Engine, s: string)
    ensures eng.Hits("^[^a-c]*.$", s)
       <==> s != "" && s[|s| - 1] != '\n' && forall k :: 0 <= k < |s| - 1 ==> !('a' <= s[k] <= 'c')
  {
    SamplePrints();
    ParseUndoesPrint(SAMPLE);
    forall i: nat, j: nat | i <= j <= |s|
      ensures MatchAlt(SAMPLE.body, false, s, i, j)
         <==> i == 0 && j == |s| > 0 && s[|s| - 1] != '\n' && NoAbc(s, |s| - 1)
    {
      BeginThen(BODY, s, i, j);
      BodyMeaning(s, j);
    }
    if s != "" && s[|s| - 1] != '\n' && NoAbc(s, |s| - 1) {
      assert MatchAlt(SAMPLE.body, false, s, 0, |s|);
    }
  }
}
