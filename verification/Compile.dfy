/** The server's pattern compiler: grouping, de-duplication, quoting and joining. */
module Compile {
  import opened Basics
  import opened Ascii
  import opened RegexSyntax
  import opened RegexMatch
  import opened Model

  datatype WordKey = WordKey(caseInsensitive: bool, matchScope: string)

  /** One word of one target in one case mode, and the group it goes to. */
  datatype Entry = Entry(key: WordKey, word: string)

  // ---- Capitalisation ----------------------------------------------------------

  function Capitalized(s: string): (r: string)
    ensures |r| == |s|
  {
    seq(|s|, i requires 0 <= i < |s| => if i == 0 then Upper(s[i]) else Lower(s[i]))
  }

  /** capitalize overwrites the runes of the word in place. */
  method Capitalize(runes: array<char>)
    modifies runes
    ensures runes[..] == Capitalized(old(runes[..]))
  {
    if runes.Length == 0 {
      return;
    }
    runes[0] := Upper(runes[0]);
    for i := 1 to runes.Length
      invariant forall k :: 0 <= k < i ==> runes[k] == Capitalized(old(runes[..]))[k]
      invariant forall k :: i <= k < runes.Length ==> runes[k] == old(runes[k])
    {
      runes[i] := Lower(runes[i]);
    }
  }

  method CapitalizeWord(s: string) returns (r: string)
    ensures r == Capitalized(s)
  {
    var runes := new char[|s|](i requires 0 <= i < |s| => s[i]);
    assert runes[..] == s;
    Capitalize(runes);
    r := runes[..];
  }

  /** Capitalising is the one spelling with the same letters whose first character is not
      lower case and whose others are not upper case. */
  lemma CapitalizedExactly(s: string, r: string)
    ensures r == Capitalized(s)
       <==> ToLower(r) == ToLower(s)
            && (forall i :: 0 <= i < |r| ==> if i == 0 then !IsLower(r[i]) else !IsUpper(r[i]))
  {
    if ToLower(r) == ToLower(s) {
      assert |ToLower(r)| == |r| && |ToLower(s)| == |s|;
      assert forall i :: 0 <= i < |r| ==> ToLower(r)[i] == Lower(r[i]) && ToLower(s)[i] == Lower(s[i]);
    }
    if r == Capitalized(s) {
      assert forall i :: 0 <= i < |s| ==> Lower(r[i]) == Lower(s[i]);
    }
  }

  // ---- What is collected ----------------------------------------------------------

  /** The entry one case mode contributes; unknown modes contribute none. */
  function ModeEntry(pattern: string, scope: string, mode: string): Option<Entry> {
    if mode == "insensitive" then Some(Entry(WordKey(true, scope), pattern))
    else if mode == "sensitive" then Some(Entry(WordKey(false, scope), pattern))
    else if mode == "capitalized" then Some(Entry(WordKey(false, scope), Capitalized(pattern)))
    else None
  }

  function ModeEntries(pattern: string, scope: string, modes: seq<string>): seq<Entry> {
    if modes == [] then []
    else
      ModeEntries(pattern, scope, modes[..|modes| - 1])
      + match ModeEntry(pattern, scope, modes[|modes| - 1])
        case Some(e) => [e]
        case None => []
  }

  function TargetEntries(t: Target): seq<Entry> {
    if t.typ == "word" then ModeEntries(t.pattern, NormalizeScope(t.matchScope), EffectiveModes(t)) else []
  }

  /** All word entries, in list order. */
  function Entries(targets: seq<Target>): seq<Entry> {
    if targets == [] then []
    else Entries(targets[..|targets| - 1]) + TargetEntries(targets[|targets| - 1])
  }

  function ScopedPattern(pattern: string, scope: string): CompiledPattern {
    CompiledPattern(pattern, ScopeCovers(scope, Fingerprint), ScopeCovers(scope, AuthorizedKey))
  }

  /** The regex targets, passed through one by one. */
  function RegexPatterns(targets: seq<Target>): seq<CompiledPattern> {
    if targets == [] then []
    else
      var t := targets[|targets| - 1];
      RegexPatterns(targets[..|targets| - 1])
      + if t.typ == "word" then [] else [ScopedPattern(t.pattern, NormalizeScope(t.matchScope))]
  }

  function Keys(entries: seq<Entry>): (r: seq<WordKey>)
    ensures |r| == |entries|
  {
    seq(|entries|, i requires 0 <= i < |entries| => entries[i].key)
  }

  function WordsOf(entries: seq<Entry>, key: WordKey): seq<string> {
    if entries == [] then []
    else
      var e := entries[|entries| - 1];
      WordsOf(entries[..|entries| - 1], key) + if e.key == key then [e.word] else []
  }

  function GroupWords(entries: seq<Entry>, key: WordKey): seq<string> {
    FirstOccurrences(WordsOf(entries, key))
  }

  function GroupPattern(entries: seq<Entry>, affixes: Affixes, key: WordKey): CompiledPattern {
    ScopedPattern(
      WordPatternText(key.caseInsensitive, affixes.prefix, QuoteAll(GroupWords(entries, key)), affixes.suffix),
      key.matchScope)
  }

  function GroupPatterns(entries: seq<Entry>, affixes: Affixes, keys: seq<WordKey>): (r: seq<CompiledPattern>)
    ensures |r| == |keys|
  {
    seq(|keys|, i requires 0 <= i < |keys| => GroupPattern(entries, affixes, keys[i]))
  }

  /** The pattern list for a target list. */
  function Compiled(targets: seq<Target>, affixes: Affixes): seq<CompiledPattern> {
    RegexPatterns(targets)
    + GroupPatterns(Entries(targets), affixes, FirstOccurrences(Keys(Entries(targets))))
  }

  // ---- The loop -------------------------------------------------------------------

  /** The maps of the loop hold exactly the groups of the entries collected so far. */
  ghost predicate Grouped(groups: map<WordKey, seq<string>>, order: seq<WordKey>, entries: seq<Entry>) {
    && order == FirstOccurrences(Keys(entries))
    && (forall k :: k in groups <==> k in order)
    && (forall k :: k in groups ==> groups[k] == QuoteAll(GroupWords(entries, k)))
  }

  lemma QuoteAllContains(words: seq<string>, word: string)
    ensures QuoteMeta(word) in QuoteAll(words) <==> word in words
  {
    if QuoteMeta(word) in QuoteAll(words) {
      var i :| 0 <= i < |words| && QuoteAll(words)[i] == QuoteMeta(word);
      QuoteMetaInjective(words[i], word);
    }
    if word in words {
      var i :| 0 <= i < |words| && words[i] == word;
      assert QuoteAll(words)[i] == QuoteMeta(word);
    }
  }

  lemma WordsOfNewKey(entries: seq<Entry>, key: WordKey)
    requires key !in Keys(entries)
    ensures WordsOf(entries, key) == []
  {
    if entries != [] {
      var init := entries[..|entries| - 1];
      assert Keys(entries)[|entries| - 1] == entries[|entries| - 1].key;
      assert Keys(entries) == Keys(init) + [entries[|entries| - 1].key];
    }
  }

  lemma KeysSnoc(entries: seq<Entry>, e: Entry)
    ensures FirstOccurrences(Keys(entries + [e]))
         == if e.key in Keys(entries) then FirstOccurrences(Keys(entries))
            else FirstOccurrences(Keys(entries)) + [e.key]
  {
    assert Keys(entries + [e]) == Keys(entries) + [e.key];
    FirstOccurrencesSnoc(Keys(entries), e.key);
  }

  lemma GroupSnoc(entries: seq<Entry>, e: Entry, key: WordKey)
    ensures key != e.key ==> GroupWords(entries + [e], key) == GroupWords(entries, key)
    ensures QuoteAll(GroupWords(entries + [e], e.key))
         == if QuoteMeta(e.word) in QuoteAll(GroupWords(entries, e.key)) then QuoteAll(GroupWords(entries, e.key))
            else QuoteAll(GroupWords(entries, e.key)) + [QuoteMeta(e.word)]
  {
    var all := entries + [e];
    assert all[..|all| - 1] == entries;
    assert WordsOf(all, e.key) == WordsOf(entries, e.key) + [e.word];
    if key != e.key { assert WordsOf(all, key) == WordsOf(entries, key); }
    var words := WordsOf(entries, e.key);
    FirstOccurrencesSnoc(words, e.word);
    QuoteAllContains(FirstOccurrences(words), e.word);
    assert QuoteAll(FirstOccurrences(words) + [e.word])
        == QuoteAll(FirstOccurrences(words)) + [QuoteMeta(e.word)];
  }

  /** Files one quoted word under its group, unless the group already holds it. */
  method AddWord(wordGroups: map<WordKey, seq<string>>, wordGroupOrder: seq<WordKey>, k: WordKey, word: string,
                 ghost entries: seq<Entry>)
    returns (groups: map<WordKey, seq<string>>, order: seq<WordKey>)
    requires Grouped(wordGroups, wordGroupOrder, entries)
    ensures Grouped(groups, order, entries + [Entry(k, word)])
  {
    groups, order := wordGroups, wordGroupOrder;
    if k !in wordGroups {
      order := order + [k];
    }
    var group := if k in wordGroups then wordGroups[k] else [];
    var quoted := QuoteMeta(word);
    if quoted !in group {
      groups := groups[k := group + [quoted]];
    }
    ghost var e := Entry(k, word);
    KeysSnoc(entries, e);
    if k !in wordGroups {
      WordsOfNewKey(entries, k);
      assert QuoteAll(GroupWords(entries, k)) == [];
    }
    forall other | other in groups
      ensures groups[other] == QuoteAll(GroupWords(entries + [e], other))
    {
      GroupSnoc(entries, e, other);
    }
  }

  /** The word one case mode searches for, and whether case is ignored. */
  method SelectWord(t: Target, mode: string) returns (known: bool, word: string, ci: bool)
    ensures forall scope :: ModeEntry(t.pattern, scope, mode)
                         == if known then Some(Entry(WordKey(ci, scope), word)) else None
  {
    known, word, ci := true, t.pattern, false;
    if mode == "insensitive" {
      ci := true;
    } else if mode == "sensitive" {
    } else if mode == "capitalized" {
      word := CapitalizeWord(t.pattern);
    } else {
      known := false;
    }
  }

  lemma ModeEntriesSnoc(pattern: string, scope: string, modes: seq<string>, m: nat)
    requires m < |modes|
    ensures ModeEntries(pattern, scope, modes[..m + 1])
         == ModeEntries(pattern, scope, modes[..m])
            + match ModeEntry(pattern, scope, modes[m]) case Some(e) => [e] case None => []
  {
    assert modes[..m + 1][..m] == modes[..m];
  }

  method ModesOf(t: Target) returns (modes: seq<string>)
    ensures modes == EffectiveModes(t)
  {
    modes := t.caseModes;
    if |modes| == 0 {
      modes := ["insensitive"];
    }
  }

  /** The mode loop for one word target. */
  method AddTarget(t: Target, wordGroups: map<WordKey, seq<string>>, wordGroupOrder: seq<WordKey>,
                   ghost before: seq<Entry>)
    returns (groups: map<WordKey, seq<string>>, order: seq<WordKey>)
    requires t.typ == "word" && Grouped(wordGroups, wordGroupOrder, before)
    ensures Grouped(groups, order, before + TargetEntries(t))
  {
    groups, order := wordGroups, wordGroupOrder;
    var scope := NormalizeScope(t.matchScope);
    var modes := ModesOf(t);
    ghost var soFar := before;
    assert before + ModeEntries(t.pattern, scope, modes[..0]) == before;
    for m := 0 to |modes|
      invariant soFar == before + ModeEntries(t.pattern, scope, modes[..m])
      invariant Grouped(groups, order, soFar)
    {
      ModeEntriesSnoc(t.pattern, scope, modes, m);
      var known, word, ci := SelectWord(t, modes[m]);
      if !known {
        continue;
      }
      groups, order := AddWord(groups, order, WordKey(ci, scope), word, soFar);
      soFar := soFar + [Entry(WordKey(ci, scope), word)];
    }
    assert modes[..|modes|] == modes;
  }

  /** compilePatterns. */
  method CompilePatterns(targets: seq<Target>, affixes: Affixes) returns (patterns: seq<CompiledPattern>)
    ensures patterns == Compiled(targets, affixes)
  {
    var wordGroups: map<WordKey, seq<string>> := map[];
    var wordGroupOrder: seq<WordKey> := [];
    patterns := [];
    for n := 0 to |targets|
      invariant patterns == RegexPatterns(targets[..n])
      invariant Grouped(wordGroups, wordGroupOrder, Entries(targets[..n]))
    {
      var t := targets[n];
      PrefixSnoc(targets, n);
      if t.typ == "word" {
        wordGroups, wordGroupOrder := AddTarget(t, wordGroups, wordGroupOrder, Entries(targets[..n]));
      } else {
        patterns := patterns + [ScopedPattern(t.pattern, NormalizeScope(t.matchScope))];
        assert Entries(targets[..n]) + TargetEntries(t) == Entries(targets[..n]);
      }
    }
    assert targets[..|targets|] == targets;
    var words := EmitGroups(wordGroups, wordGroupOrder, affixes, Entries(targets));
    patterns := patterns + words;
  }

  lemma PrefixSnoc(targets: seq<Target>, n: nat)
    requires n < |targets|
    ensures RegexPatterns(targets[..n + 1])
         == RegexPatterns(targets[..n])
            + if targets[n].typ == "word" then []
              else [ScopedPattern(targets[n].pattern, NormalizeScope(targets[n].matchScope))]
    ensures Entries(targets[..n + 1]) == Entries(targets[..n]) + TargetEntries(targets[n])
  {
    assert targets[..n + 1][..n] == targets[..n];
  }

  lemma GroupPatternsSnoc(entries: seq<Entry>, affixes: Affixes, keys: seq<WordKey>, g: nat)
    requires g < |keys|
    ensures GroupPatterns(entries, affixes, keys[..g + 1])
         == GroupPatterns(entries, affixes, keys[..g]) + [GroupPattern(entries, affixes, keys[g])]
  {
  }

  method FormatGroup(caseInsensitive: bool, alternation: string, affixes: Affixes) returns (pattern: string)
    ensures pattern == (if caseInsensitive then CASE_FLAG else "")
                       + affixes.prefix + "(" + alternation + ")" + affixes.suffix
  {
    if caseInsensitive {
      pattern := CASE_FLAG + affixes.prefix + "(" + alternation + ")" + affixes.suffix;
    } else {
      pattern := affixes.prefix + "(" + alternation + ")" + affixes.suffix;
      assert "" + affixes.prefix == affixes.prefix;
    }
  }

  /** The second loop: one pattern per group, in the order the groups were opened. */
  method EmitGroups(wordGroups: map<WordKey, seq<string>>, wordGroupOrder: seq<WordKey>, affixes: Affixes,
                    ghost entries: seq<Entry>)
    returns (patterns: seq<CompiledPattern>)
    requires Grouped(wordGroups, wordGroupOrder, entries)
    ensures patterns == GroupPatterns(entries, affixes, wordGroupOrder)
  {
    patterns := [];
    for g := 0 to |wordGroupOrder|
      invariant patterns == GroupPatterns(entries, affixes, wordGroupOrder[..g])
    {
      var k := wordGroupOrder[g];
      var alternation := Join(wordGroups[k], "|");
      var pattern := FormatGroup(k.caseInsensitive, alternation, affixes);
      assert wordGroups[k] == QuoteAll(GroupWords(entries, k));
      var next := ScopedPattern(pattern, k.matchScope);
      assert next == GroupPattern(entries, affixes, k);
      patterns := patterns + [next];
      GroupPatternsSnoc(entries, affixes, wordGroupOrder, g);
    }
    assert wordGroupOrder[..|wordGroupOrder|] == wordGroupOrder;
  }
}
