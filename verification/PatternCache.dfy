/** A seeker's list of compiled patterns, kept across polls and rebuilt when it is stale. */
module PatternCache {
  import opened Basics
  import opened RegexMatch
  import opened Model

  datatype CachedPattern = CachedPattern(pattern: string, re: Regexp, matchFingerprint: bool, matchAuthorizedKey: bool)

  /** Compiling a snapshot from scratch: in order, skipping what does not compile. */
  function FreshCompile(eng: Engine, patterns: seq<CompiledPattern>): (r: seq<CachedPattern>)
    ensures |r| <= |patterns|
  {
    if patterns == [] then []
    else
      var p := patterns[|patterns| - 1];
      FreshCompile(eng, patterns[..|patterns| - 1])
      + match eng.Compile(p.pattern)
        case Some(re) => [CachedPattern(p.pattern, re, p.matchFingerprint, p.matchAuthorizedKey)]
        case None => []
  }

  /** The cached entry stands for exactly this pattern. */
  predicate Stands(e: CachedPattern, p: CompiledPattern) {
    && e.pattern == p.pattern
    && e.matchFingerprint == p.matchFingerprint
    && e.matchAuthorizedKey == p.matchAuthorizedKey
  }

  /** patternsMatch. */
  predicate InSync(compiled: seq<CachedPattern>, patterns: seq<CompiledPattern>) {
    |compiled| == |patterns| && forall i :: 0 <= i < |compiled| ==> Stands(compiled[i], patterns[i])
  }

  /** The list after a poll of `patterns`. */
  function Refreshed(eng: Engine, compiled: seq<CachedPattern>, patterns: seq<CompiledPattern>)
    : (r: seq<CachedPattern>)
    ensures |r| <= |patterns|
  {
    if InSync(compiled, patterns) then compiled else FreshCompile(eng, patterns)
  }

  /** Every entry holds what compiling its pattern gives. */
  ghost predicate Sound(eng: Engine, compiled: seq<CachedPattern>) {
    forall i :: 0 <= i < |compiled| ==> eng.Compile(compiled[i].pattern) == Some(compiled[i].re)
  }

  class SeekerPatterns {
    const eng: Engine
    var compiled: seq<CachedPattern>

    constructor (eng: Engine)
      ensures Valid() && this.eng == eng && compiled == []
    {
      this.eng := eng;
      compiled := [];
    }

    ghost predicate Valid()
      reads this
    {
      Sound(eng, compiled)
    }

    method PatternsMatch(patterns: seq<CompiledPattern>) returns (same: bool)
      ensures same <==> InSync(compiled, patterns)
    {
      if |compiled| != |patterns| {
        return false;
      }
      for i := 0 to |compiled|
        invariant forall k :: 0 <= k < i ==> Stands(compiled[k], patterns[k])
      {
        var cp := compiled[i];
        if cp.pattern != patterns[i].pattern
           || cp.matchFingerprint != patterns[i].matchFingerprint
           || cp.matchAuthorizedKey != patterns[i].matchAuthorizedKey {
          return false;
        }
      }
      return true;
    }

    /** The recompile step: whether reused or rebuilt, the list is what a fresh compile gives. */
    method Refresh(patterns: seq<CompiledPattern>)
      requires Valid()
      modifies this
      ensures Valid()
      ensures compiled == Refreshed(eng, old(compiled), patterns)
      ensures compiled == FreshCompile(eng, patterns)
    {
      var same := PatternsMatch(patterns);
      if !same {
        compiled := [];
        for i := 0 to |patterns|
          invariant compiled == FreshCompile(eng, patterns[..i])
        {
          var p := patterns[i];
          assert patterns[..i + 1][..i] == patterns[..i];
          var re := eng.Compile(p.pattern);
          if re.None? {
            continue;
          }
          compiled := compiled + [CachedPattern(p.pattern, re.value, p.matchFingerprint, p.matchAuthorizedKey)];
        }
        assert patterns[..|patterns|] == patterns;
      }
      RefreshIsFresh(eng, old(compiled), patterns);
    }
  }

  lemma {:induction false} InSyncIsFresh(eng: Engine, compiled: seq<CachedPattern>, patterns: seq<CompiledPattern>)
    requires Sound(eng, compiled) && InSync(compiled, patterns)
    ensures compiled == FreshCompile(eng, patterns)
  {
    if patterns != [] {
      var n := |patterns| - 1;
      InSyncIsFresh(eng, compiled[..n], patterns[..n]);
      assert compiled == compiled[..n] + [compiled[n]];
    }
  }

  lemma {:induction false} FreshIsSound(eng: Engine, patterns: seq<CompiledPattern>)
    ensures Sound(eng, FreshCompile(eng, patterns))
  {
    if patterns != [] {
      FreshIsSound(eng, patterns[..|patterns| - 1]);
    }
  }

  /** A sound list refreshed against any snapshot equals compiling that snapshot afresh. */
  lemma RefreshIsFresh(eng: Engine, compiled: seq<CachedPattern>, patterns: seq<CompiledPattern>)
    requires Sound(eng, compiled)
    ensures Refreshed(eng, compiled, patterns) == FreshCompile(eng, patterns)
    ensures Sound(eng, Refreshed(eng, compiled, patterns))
  {
    if InSync(compiled, patterns) { InSyncIsFresh(eng, compiled, patterns); }
    FreshIsSound(eng, patterns);
  }

  lemma {:induction false} FullFreshInSync(eng: Engine, patterns: seq<CompiledPattern>)
    requires |FreshCompile(eng, patterns)| == |patterns|
    ensures InSync(FreshCompile(eng, patterns), patterns)
  {
    if patterns != [] {
      FullFreshInSync(eng, patterns[..|patterns| - 1]);
    }
  }

  /** Exactly when the list is reused: it is already the fresh one and nothing in the
      snapshot failed to compile. A scope-only change therefore always rebuilds, and so
      does any snapshot that holds a pattern that does not compile. */
  lemma ReuseExactly(eng: Engine, compiled: seq<CachedPattern>, patterns: seq<CompiledPattern>)
    requires Sound(eng, compiled)
    ensures InSync(compiled, patterns)
       <==> compiled == FreshCompile(eng, patterns) && |FreshCompile(eng, patterns)| == |patterns|
  {
    if InSync(compiled, patterns) { InSyncIsFresh(eng, compiled, patterns); }
    if |FreshCompile(eng, patterns)| == |patterns| { FullFreshInSync(eng, patterns); }
  }

  lemma {:induction false} InFreshCompile(eng: Engine, patterns: seq<CompiledPattern>, e: CachedPattern)
    ensures e in FreshCompile(eng, patterns)
       <==> exists p :: p in patterns && Stands(e, p) && eng.Compile(p.pattern) == Some(e.re)
  {
    if patterns != [] {
      var init, last := patterns[..|patterns| - 1], patterns[|patterns| - 1];
      InFreshCompile(eng, init, e);
      assert patterns == init + [last];
    }
  }
}
