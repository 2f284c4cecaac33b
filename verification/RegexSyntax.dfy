/** A fragment of Go's regular-expression syntax that holds what the server emits and common
    affixes: abstract syntax, printer, parser, and the proof that the parser undoes the printer. */
module RegexSyntax {
  import opened Basics
  import opened Ascii

  datatype Alt = One(branch: Cat) | Or(branch: Cat, rest: Alt)
  datatype Cat = Done | Then(head: Piece, tail: Cat)
  datatype Piece = Piece(atom: Atom, repeat: Repeat)
  datatype Repeat = Once | Optional | Star | Plus
  datatype Atom =
    | Lit(c: char)
    | Class(negated: bool, ranges: seq<Range>)
    | Group(body: Alt)
    | AnyChar
    | BeginText
    | EndText
  datatype Range = Range(lo: char, hi: char)

  /** A whole expression; `foldCase` is the leading `(?i)` flag. */
  datatype Program = Program(foldCase: bool, body: Alt)

  const CASE_FLAG := "(?i)"

  // ---- Quoting and printing ------------------------------------------------

  /** The characters regexp.QuoteMeta escapes. */
  predicate IsMeta(c: char) {
    || c == '\\' || c == '.' || c == '+' || c == '*' || c == '?' || c == '(' || c == ')'
    || c == '|' || c == '[' || c == ']' || c == '{' || c == '}' || c == '^' || c == '$'
  }

  /** The characters that a backslash turns into themselves. */
  predicate IsPunct(c: char) { c as int < 128 && !IsAlnum(c) }

  /** The repetition operators. */
  predicate IsRepeat(c: char) { c == '?' || c == '*' || c == '+' }

  function QuoteChar(c: char): string {
    if IsMeta(c) then ['\\', c] else [c]
  }

  /** regexp.QuoteMeta. */
  function QuoteMeta(word: string): string {
    if word == "" then "" else QuoteChar(word[0]) + QuoteMeta(word[1..])
  }

  /** The characters regexp.QuoteMeta puts a backslash before, spelled out. */
  lemma MetaSpelledOut(c: char)
    ensures IsMeta(c) <==> c in "\\.+*?()|[]{}^$"
  {
    var all := "\\.+*?()|[]{}^$";
    if IsMeta(c) {
      assert all[0] == '\\' && all[1] == '.' && all[2] == '+' && all[3] == '*' && all[4] == '?' && all[5] == '(';
      assert all[6] == ')' && all[7] == '|' && all[8] == '[' && all[9] == ']' && all[10] == '{' && all[11] == '}';
      assert all[12] == '^' && all[13] == '$';
    }
  }

  function PrintMember(c: char): string {
    if IsAlnum(c) then [c] else ['\\', c]
  }

  function PrintRange(r: Range): string {
    PrintMember(r.lo) + if r.lo == r.hi then "" else "-" + PrintMember(r.hi)
  }

  function PrintRanges(ranges: seq<Range>): string {
    if ranges == [] then "" else PrintRange(ranges[0]) + PrintRanges(ranges[1..])
  }

  function PrintRepeat(repeat: Repeat): string {
    match repeat
    case Once => ""
    case Optional => "?"
    case Star => "*"
    case Plus => "+"
  }

  /** Text that neither repeats what is before it nor ends a concatenation. */
  predicate StartsPiece(s: string) {
    s != "" && !IsRepeat(s[0]) && s[0] != '|' && s[0] != ')'
  }

  function PrintAtom(a: Atom): (s: string)
    ensures StartsPiece(s)
  {
    match a
    case Lit(c) => QuoteChar(c)
    case Class(negated, ranges) => "[" + (if negated then "^" else "") + PrintRanges(ranges) + "]"
    case Group(body) => "(" + PrintAlt(body) + ")"
    case AnyChar => "."
    case BeginText => "^"
    case EndText => "$"
  }

  function PrintPiece(p: Piece): (s: string)
    ensures StartsPiece(s)
  {
    PrintAtom(p.atom) + PrintRepeat(p.repeat)
  }

  function PrintCat(c: Cat): (s: string)
    ensures s == "" || StartsPiece(s)
  {
    match c
    case Done => ""
    case Then(head, tail) => PrintPiece(head) + PrintCat(tail)
  }

  function PrintAlt(a: Alt): (s: string)
    ensures s != "" ==> !IsRepeat(s[0])
  {
    match a
    case One(branch) => PrintCat(branch)
    case Or(branch, rest) => PrintCat(branch) + "|" + PrintAlt(rest)
  }

  function Print(p: Program): string {
    (if p.foldCase then CASE_FLAG else "") + PrintAlt(p.body)
  }

  predicate WfRange(r: Range) { r.lo <= r.hi && r.hi as int < 128 }

  /** Character classes are non-empty and hold ASCII ranges only. */
  predicate WfAtom(a: Atom) {
    match a
    case Class(_, ranges) => ranges != [] && forall i :: 0 <= i < |ranges| ==> WfRange(ranges[i])
    case Group(body) => WfAlt(body)
    case _ => true
  }

  predicate WfCat(c: Cat) {
    match c
    case Done => true
    case Then(head, tail) => WfAtom(head.atom) && WfCat(tail)
  }

  predicate WfAlt(a: Alt) {
    match a
    case One(branch) => WfCat(branch)
    case Or(branch, rest) => WfCat(branch) && WfAlt(rest)
  }

  // ---- Parsing ---------------------------------------------------------------

  function ParseMember(s: string): (r: Option<(char, string)>)
    ensures r.Some? ==> |r.value.1| < |s| && r.value.0 as int < 128
  {
    if s == "" then None
    else if s[0] == '\\' then if |s| > 1 && IsPunct(s[1]) then Some((s[1], s[2..])) else None
    else if IsAlnum(s[0]) then Some((s[0], s[1..]))
    else None
  }

  function ParseRange(s: string): (r: Option<(Range, string)>)
    ensures r.Some? ==> |r.value.1| < |s| && WfRange(r.value.0)
  {
    match ParseMember(s)
    case None => None
    case Some((lo, rest)) =>
      if rest != "" && rest[0] == '-' then
        match ParseMember(rest[1..])
        case None => None
        case Some((hi, end)) => if lo <= hi then Some((Range(lo, hi), end)) else None
      else Some((Range(lo, lo), rest))
  }

  /** Parses class members up to and including the closing bracket. */
  function ParseRanges(s: string): (r: Option<(seq<Range>, string)>)
    ensures r.Some? ==> |r.value.1| < |s| && forall i :: 0 <= i < |r.value.0| ==> WfRange(r.value.0[i])
  {
    if s == "" then None
    else if s[0] == ']' then Some(([], s[1..]))
    else
      match ParseRange(s)
      case None => None
      case Some((range, rest)) =>
        match ParseRanges(rest)
        case None => None
        case Some((others, end)) => Some(([range] + others, end))
  }

  function ParseAtom(s: string): (r: Option<(Atom, string)>)
    ensures r.Some? ==> |r.value.1| < |s| && WfAtom(r.value.0)
    decreases |s|, 0
  {
    if s == "" then None
    else if s[0] == '(' then
      if |s| > 1 && s[1] == '?' then None
      else
        match ParseAlt(s[1..])
        case None => None
        case Some((body, rest)) =>
          if rest != "" && rest[0] == ')' then Some((Group(body), rest[1..])) else None
    else if s[0] == '[' then
      var negated := |s| > 1 && s[1] == '^';
      match ParseRanges(if negated then s[2..] else s[1..])
      case None => None
      case Some((ranges, rest)) => if ranges == [] then None else Some((Class(negated, ranges), rest))
    else if s[0] == '.' then Some((AnyChar, s[1..]))
    else if s[0] == '^' then Some((BeginText, s[1..]))
    else if s[0] == '$' then Some((EndText, s[1..]))
    else if s[0] == '\\' then
      if |s| > 1 && IsPunct(s[1]) then Some((Lit(s[1]), s[2..])) else None
    else if IsMeta(s[0]) then None
    else Some((Lit(s[0]), s[1..]))
  }

  function ParsePiece(s: string): (r: Option<(Piece, string)>)
    ensures r.Some? ==> |r.value.1| < |s| && WfAtom(r.value.0.atom)
    decreases |s|, 1
  {
    match ParseAtom(s)
    case None => None
    case Some((atom, rest)) =>
      if rest != "" && rest[0] == '?' then Some((Piece(atom, Optional), rest[1..]))
      else if rest != "" && rest[0] == '*' then Some((Piece(atom, Star), rest[1..]))
      else if rest != "" && rest[0] == '+' then Some((Piece(atom, Plus), rest[1..]))
      else Some((Piece(atom, Once), rest))
  }

  function ParseCat(s: string): (r: Option<(Cat, string)>)
    ensures r.Some? ==> |r.value.1| <= |s| && WfCat(r.value.0)
    ensures r.Some? && r.value.1 != "" ==> r.value.1[0] == '|' || r.value.1[0] == ')'
    decreases |s|, 2
  {
    if s == "" || s[0] == '|' || s[0] == ')' then Some((Done, s))
    else
      match ParsePiece(s)
      case None => None
      case Some((head, rest)) =>
        match ParseCat(rest)
        case None => None
        case Some((tail, end)) => Some((Then(head, tail), end))
  }

  function ParseAlt(s: string): (r: Option<(Alt, string)>)
    ensures r.Some? ==> |r.value.1| <= |s| && WfAlt(r.value.0)
    decreases |s|, 3
  {
    match ParseCat(s)
    case None => None
    case Some((branch, rest)) =>
      if rest != "" && rest[0] == '|' then
        match ParseAlt(rest[1..])
        case None => None
        case Some((others, end)) => Some((Or(branch, others), end))
      else Some((One(branch), rest))
  }

  /** Parses a whole expression; None for text outside the modelled fragment. */
  function Parse(text: string): Option<Program> {
    var fold := CASE_FLAG <= text;
    match ParseAlt(if fold then text[4..] else text)
    case None => None
    case Some((body, rest)) => if rest == "" then Some(Program(fold, body)) else None
  }

  // ---- The parser undoes the printer ---------------------------------------

  lemma MemberRoundTrip(c: char, rest: string)
    requires c as int < 128
    ensures ParseMember(PrintMember(c) + rest) == Some((c, rest))
  {
    var text := PrintMember(c) + rest;
    assert text[|PrintMember(c)|..] == rest;
  }

  lemma RangeRoundTrip(r: Range, rest: string)
    requires WfRange(r) && (rest == "" || rest[0] != '-')
    ensures ParseRange(PrintRange(r) + rest) == Some((r, rest))
  {
    if r.lo == r.hi {
      assert PrintRange(r) + rest == PrintMember(r.lo) + rest;
      MemberRoundTrip(r.lo, rest);
    } else {
      var after := "-" + (PrintMember(r.hi) + rest);
      assert PrintRange(r) + rest == PrintMember(r.lo) + after;
      MemberRoundTrip(r.lo, after);
      MemberRoundTrip(r.hi, rest);
      assert after[1..] == PrintMember(r.hi) + rest;
    }
  }

  lemma {:induction false} RangesRoundTrip(ranges: seq<Range>, rest: string)
    requires forall i :: 0 <= i < |ranges| ==> WfRange(ranges[i])
    ensures ParseRanges(PrintRanges(ranges) + "]" + rest) == Some((ranges, rest))
  {
    var text := PrintRanges(ranges) + "]" + rest;
    if ranges == [] {
      assert text == "]" + rest;
    } else {
      var after := PrintRanges(ranges[1..]) + "]" + rest;
      assert text == PrintRange(ranges[0]) + after;
      RangeRoundTrip(ranges[0], after);
      RangesRoundTrip(ranges[1..], rest);
      assert [ranges[0]] + ranges[1..] == ranges;
    }
  }

  /** A class reads as its ranges once the bracket and the negation are taken off. */
  lemma ClassStep(negated: bool, ranges: seq<Range>, inner: string, rest: string)
    requires ranges != [] && ParseRanges(inner) == Some((ranges, rest))
    requires inner != "" && inner[0] != '^'
    ensures ParseAtom((if negated then "[^" else "[") + inner) == Some((Class(negated, ranges), rest))
  {
    var text := (if negated then "[^" else "[") + inner;
    if negated { assert text[2..] == inner; } else { assert text[1..] == inner && text[1] == inner[0]; }
  }

  lemma RangesStart(ranges: seq<Range>)
    requires ranges != []
    ensures PrintRanges(ranges) != "" && PrintRanges(ranges)[0] == PrintMember(ranges[0].lo)[0]
  {
    assert PrintRange(ranges[0])[0] == PrintMember(ranges[0].lo)[0];
  }

  lemma ClassPrints(negated: bool, ranges: seq<Range>, rest: string)
    ensures PrintAtom(Class(negated, ranges)) + rest
         == (if negated then "[^" else "[") + (PrintRanges(ranges) + "]" + rest)
  {
    var inner := PrintRanges(ranges) + "]";
    if negated {
      assert "[" + "^" == "[^";
      assert PrintAtom(Class(negated, ranges)) == "[^" + inner;
    } else {
      assert "[" + "" == "[";
      assert PrintAtom(Class(negated, ranges)) == "[" + inner;
    }
  }

  lemma ClassRoundTrip(negated: bool, ranges: seq<Range>, rest: string)
    requires WfAtom(Class(negated, ranges))
    ensures ParseAtom(PrintAtom(Class(negated, ranges)) + rest) == Some((Class(negated, ranges), rest))
  {
    ClassPrints(negated, ranges, rest);
    RangesStart(ranges);
    RangesRoundTrip(ranges, rest);
    ClassStep(negated, ranges, PrintRanges(ranges) + "]" + rest, rest);
  }

  lemma {:induction false} AtomRoundTrip(a: Atom, rest: string)
    requires WfAtom(a)
    ensures ParseAtom(PrintAtom(a) + rest) == Some((a, rest))
    decreases a, 0
  {
    var text := PrintAtom(a) + rest;
    match a
    case Lit(c) =>
      if IsMeta(c) { assert text[2..] == rest; } else { assert text[1..] == rest; }
    case Class(negated, ranges) =>
      ClassRoundTrip(negated, ranges, rest);
    case Group(body) =>
      var inner := ")" + rest;
      assert text[1..] == PrintAlt(body) + inner;
      assert |text| > 1 && text[1] != '?' by { assert text[1] == text[1..][0]; }
      AltRoundTrip(body, inner);
      assert inner[1..] == rest;
    case _ =>
      assert text[1..] == rest;
  }

  lemma {:induction false} PieceRoundTrip(p: Piece, rest: string)
    requires WfAtom(p.atom)
    requires rest == "" || !IsRepeat(rest[0])
    ensures ParsePiece(PrintPiece(p) + rest) == Some((p, rest))
    decreases p, 1
  {
    var after := PrintRepeat(p.repeat) + rest;
    assert PrintPiece(p) + rest == PrintAtom(p.atom) + after;
    AtomRoundTrip(p.atom, after);
    assert if p.repeat.Once? then after == rest else after[1..] == rest;
  }

  lemma {:induction false} CatRoundTrip(c: Cat, rest: string)
    requires WfCat(c)
    requires rest == "" || rest[0] == '|' || rest[0] == ')'
    ensures ParseCat(PrintCat(c) + rest) == Some((c, rest))
    decreases c, 2
  {
    match c
    case Done => assert PrintCat(c) + rest == rest;
    case Then(head, tail) =>
      var after := PrintCat(tail) + rest;
      assert PrintCat(c) + rest == PrintPiece(head) + after;
      PieceRoundTrip(head, after);
      CatRoundTrip(tail, rest);
  }

  lemma {:induction false} AltRoundTrip(a: Alt, rest: string)
    requires WfAlt(a)
    requires rest == "" || rest[0] == ')'
    ensures ParseAlt(PrintAlt(a) + rest) == Some((a, rest))
    decreases a, 3
  {
    match a
    case One(branch) => CatRoundTrip(branch, rest);
    case Or(branch, others) =>
      var after := "|" + (PrintAlt(others) + rest);
      assert PrintAlt(a) + rest == PrintCat(branch) + after;
      CatRoundTrip(branch, after);
      AltRoundTrip(others, rest);
      assert after[1..] == PrintAlt(others) + rest;
  }

  /** Text opening with `(?` is outside the fragment once the case flag is removed. */
  lemma FlagOnlyAtStart(text: string)
    requires "(?" <= text
    ensures ParseCat(text) == None
  {
    assert text[0] == '(' && text[1] == '?';
    assert ParseAtom(text) == None;
    assert ParsePiece(text) == None;
  }

  /** Printing any expression of the fragment and parsing the text gives it back. */
  lemma ParseUndoesPrint(p: Program)
    requires WfAlt(p.body)
    ensures Parse(Print(p)) == Some(p)
  {
    AltRoundTrip(p.body, "");
    var text := PrintAlt(p.body);
    assert text + "" == text;
    if p.foldCase {
      assert Print(p)[4..] == text;
    } else {
      assert Print(p) == text;
      if CASE_FLAG <= text {
        assert "(?" <= CASE_FLAG;
        assert "(?" <= text;
        FlagOnlyAtStart(text);
      }
    }
  }

  // ---- Affixes: text that parses on its own keeps its meaning in context ------

  function Append(c: Cat, d: Cat): Cat {
    match c
    case Done => d
    case Then(head, tail) => Then(head, Append(tail, d))
  }

  lemma MemberExtend(s: string, t: string)
    requires ParseMember(s).Some?
    ensures ParseMember(s + t) == Some((ParseMember(s).value.0, ParseMember(s).value.1 + t))
  {
    assert (s + t)[1..] == s[1..] + t;
    if s[0] == '\\' { assert (s + t)[2..] == s[2..] + t; }
  }

  lemma RangeExtend(s: string, t: string)
    requires ParseRange(s).Some? && ParseRange(s).value.1 != ""
    ensures ParseRange(s + t) == Some((ParseRange(s).value.0, ParseRange(s).value.1 + t))
  {
    var (_, rest) := ParseMember(s).value;
    MemberExtend(s, t);
    assert (rest + t)[1..] == rest[1..] + t;
    if rest[0] == '-' { MemberExtend(rest[1..], t); }
  }

  lemma {:induction false} RangesExtend(s: string, t: string)
    requires ParseRanges(s).Some?
    ensures ParseRanges(s + t) == Some((ParseRanges(s).value.0, ParseRanges(s).value.1 + t))
    decreases |s|
  {
    if s[0] == ']' {
      assert (s + t)[1..] == s[1..] + t;
    } else {
      RangeExtend(s, t);
      RangesExtend(ParseRange(s).value.1, t);
    }
  }

  lemma {:induction false} AtomExtend(s: string, t: string)
    requires ParseAtom(s).Some?
    ensures ParseAtom(s + t) == Some((ParseAtom(s).value.0, ParseAtom(s).value.1 + t))
    decreases |s|, 0
  {
    assert (s + t)[0] == s[0];
    assert (s + t)[1..] == s[1..] + t;
    if s[0] == '(' {
      var (body, rest) := ParseAlt(s[1..]).value;
      AltExtend(s[1..], t);
      assert |s| > 1 && (s + t)[1] == s[1];
      assert (rest + t)[1..] == rest[1..] + t;
    } else if s[0] == '[' {
      if |s| > 1 && s[1] == '^' {
        assert (s + t)[2..] == s[2..] + t;
        RangesExtend(s[2..], t);
      } else {
        RangesExtend(s[1..], t);
      }
    } else if s[0] == '\\' {
      assert (s + t)[2..] == s[2..] + t;
    }
  }

  lemma {:induction false} PieceExtend(s: string, t: string)
    requires ParsePiece(s).Some?
    requires ParsePiece(s).value.1 != "" || t == "" || !IsRepeat(t[0])
    ensures ParsePiece(s + t) == Some((ParsePiece(s).value.0, ParsePiece(s).value.1 + t))
    decreases |s|, 1
  {
    AtomExtend(s, t);
    var (_, rest) := ParseAtom(s).value;
    if rest != "" { assert (rest + t)[1..] == rest[1..] + t; }
  }

  lemma {:induction false} CatExtend(s: string, t: string)
    requires ParseCat(s).Some? && ParseCat(s).value.1 != ""
    ensures ParseCat(s + t) == Some((ParseCat(s).value.0, ParseCat(s).value.1 + t))
    decreases |s|, 2
  {
    if !(s[0] == '|' || s[0] == ')') {
      PieceExtend(s, t);
      CatExtend(ParsePiece(s).value.1, t);
    }
  }

  lemma {:induction false} AltExtend(s: string, t: string)
    requires ParseAlt(s).Some? && ParseAlt(s).value.1 != ""
    ensures ParseAlt(s + t) == Some((ParseAlt(s).value.0, ParseAlt(s).value.1 + t))
    decreases |s|, 3
  {
    var (branch, rest) := ParseCat(s).value;
    CatExtend(s, t);
    if rest[0] == '|' {
      assert (rest + t)[1..] == rest[1..] + t;
      AltExtend(rest[1..], t);
    }
  }

  /** Text that parses as one concatenation in isolation contributes exactly that
      concatenation in front of any text that does not open with a repetition. */
  lemma {:induction false} ConcatenandInContext(s: string, t: string)
    requires ParseCat(s).Some? && ParseCat(s).value.1 == ""
    requires t == "" || !IsRepeat(t[0])
    ensures ParseCat(s + t)
         == match ParseCat(t)
            case None => None
            case Some((d, rest)) => Some((Append(ParseCat(s).value.0, d), rest))
    decreases |s|
  {
    if s == "" {
      assert s + t == t;
    } else {
      PieceExtend(s, t);
      ConcatenandInContext(ParsePiece(s).value.1, t);
    }
  }

  /** Runs the last branch of `a` on into the first branch of `b`. */
  function Splice(a: Alt, b: Alt): Alt {
    match a
    case One(branch) => b.(branch := Append(branch, b.branch))
    case Or(branch, rest) => Or(branch, Splice(rest, b))
  }

  /** Text that parses on its own, bars included, runs its last branch on into the first
      branch of the text that follows; all other branches stay apart. */
  lemma {:induction false} AlternationInContext(s: string, t: string)
    requires ParseAlt(s).Some? && ParseAlt(s).value.1 == ""
    requires t == "" || !IsRepeat(t[0])
    ensures ParseAlt(s + t)
         == match ParseAlt(t)
            case None => None
            case Some((b, rest)) => Some((Splice(ParseAlt(s).value.0, b), rest))
    decreases |s|
  {
    var (branch, rest) := ParseCat(s).value;
    if rest == "" {
      ConcatenandInContext(s, t);
    } else {
      CatExtend(s, t);
      assert (rest + t)[1..] == rest[1..] + t;
      AlternationInContext(rest[1..], t);
    }
  }
}
