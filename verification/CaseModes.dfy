/** How a list of case modes is kept in one text column. */
module CaseModes {
  import opened RegexMatch

  /** strings.Split on a comma. */
  function Split(s: string): (parts: seq<string>)
    ensures parts != []
  {
    if s == "" then [""]
    else
      var rest := Split(s[1..]);
      if s[0] == ',' then [""] + rest else [[s[0]] + rest[0]] + rest[1..]
  }

  /** splitCaseModes: an empty column reads as the default mode. */
  function SplitCaseModes(s: string): seq<string> {
    if s == "" then ["insensitive"] else Split(s)
  }

  function JoinCaseModes(modes: seq<string>): string { Join(modes, ",") }

  predicate NoComma(s: string) { forall i :: 0 <= i < |s| ==> s[i] != ',' }

  ghost predicate NoCommas(parts: seq<string>) { forall i :: 0 <= i < |parts| ==> NoComma(parts[i]) }

  lemma {:induction false} SplitPart(part: string, rest: string)
    requires NoComma(part)
    ensures Split(part + ("," + rest)) == [part] + Split(rest)
  {
    var s := part + ("," + rest);
    if part == "" {
      assert s[1..] == rest;
    } else {
      assert s[1..] == part[1..] + ("," + rest);
      SplitPart(part[1..], rest);
      assert [part[0]] + part[1..] == part;
    }
  }

  lemma {:induction false} SplitWhole(part: string)
    requires NoComma(part)
    ensures Split(part) == [part]
  {
    if part != "" {
      SplitWhole(part[1..]);
      assert [part[0]] + part[1..] == part;
    }
  }

  lemma {:induction false} SplitUndoesJoin(parts: seq<string>)
    requires parts != [] && NoCommas(parts)
    ensures Split(Join(parts, ",")) == parts
  {
    if |parts| == 1 {
      SplitWhole(parts[0]);
    } else {
      SplitPart(parts[0], Join(parts[1..], ","));
      assert parts[0] + "," + Join(parts[1..], ",") == parts[0] + ("," + Join(parts[1..], ","));
      SplitUndoesJoin(parts[1..]);
    }
  }

  lemma {:induction false} SplitHasNoCommas(s: string)
    ensures NoCommas(Split(s))
  {
    if s != "" { SplitHasNoCommas(s[1..]); }
  }

  /** Joining and splitting gives a list back exactly when no member holds a comma and the
      list is not the single empty text; the empty list reads back as the default mode. */
  lemma CaseModesRoundTrip(modes: seq<string>)
    ensures modes == [] ==> SplitCaseModes(JoinCaseModes(modes)) == ["insensitive"]
    ensures modes != [] ==>
              (SplitCaseModes(JoinCaseModes(modes)) == modes <==> NoCommas(modes) && modes != [""])
  {
    if modes != [] {
      SplitHasNoCommas(JoinCaseModes(modes));
      if NoCommas(modes) {
        SplitUndoesJoin(modes);
        if JoinCaseModes(modes) == "" { assert modes == [""]; }
      }
      assert JoinCaseModes(["insensitive"]) == "insensitive";
    }
  }
}
