/** Matching text against LIKE patterns: the detector's shortcut, and what LIKE means. */
module LikePatterns {
  predicate HasPrefix(s: string, t: string) {
    t <= s
  }

  predicate HasSuffix(s: string, t: string) {
    |t| <= |s| && s[|s| - |t|..] == t
  }

  predicate HasInside(s: string, t: string) {
    exists i :: 0 <= i <= |s| - |t| && s[i..][..|t|] == t
  }

  /** Looks at a `%` at either end and takes the rest of the pattern literally. */
  predicate MatchesLikePattern(value: string, pattern: string)
    requires pattern != "%"
  {
    if HasPrefix(pattern, "%") && HasSuffix(pattern, "%") then HasInside(value, pattern[1..|pattern| - 1])
    else if HasPrefix(pattern, "%") then HasSuffix(value, pattern[1..])
    else if HasSuffix(pattern, "%") then HasPrefix(value, pattern[..|pattern| - 1])
    else value == pattern
  }

  /** `%` stands for any text, `_` for any character, every other character for itself. */
  predicate Liked(value: string, pattern: string)
    decreases pattern
  {
    if pattern == "" then value == ""
    else if pattern[0] == '%' then exists k :: 0 <= k <= |value| && Liked(value[k..], pattern[1..])
    else value != "" && (pattern[0] == '_' || pattern[0] == value[0]) && Liked(value[1..], pattern[1..])
  }

  predicate WildcardFree(s: string) {
    '%' !in s && '_' !in s
  }

  lemma {:induction false} LiteralMatches(value: string, core: string)
    requires WildcardFree(core)
    ensures Liked(value, core) <==> value == core
    decreases core
  {
    if core != "" && value != "" {
      LiteralMatches(value[1..], core[1..]);
      assert value == [value[0]] + value[1..] && core == [core[0]] + core[1..];
    }
  }

  lemma {:induction false} PrefixMatches(value: string, core: string)
    requires WildcardFree(core)
    ensures Liked(value, core + "%") <==> HasPrefix(value, core)
    decreases core
  {
    var pattern := core + "%";
    if core == "" {
      assert pattern[1..] == "";
      assert Liked(value[|value|..], pattern[1..]);
    } else {
      assert pattern[1..] == core[1..] + "%" && pattern[0] == core[0];
      if value != "" {
        PrefixMatches(value[1..], core[1..]);
        assert value == [value[0]] + value[1..] && core == [core[0]] + core[1..];
      }
    }
  }

  lemma SuffixMatches(value: string, core: string)
    requires WildcardFree(core)
    ensures Liked(value, "%" + core) <==> HasSuffix(value, core)
  {
    var pattern := "%" + core;
    assert pattern[1..] == core;
    forall k | 0 <= k <= |value| ensures Liked(value[k..], core) <==> value[k..] == core {
      LiteralMatches(value[k..], core);
    }
  }

  lemma InsideMatches(value: string, core: string)
    requires WildcardFree(core)
    ensures Liked(value, "%" + core + "%") <==> HasInside(value, core)
  {
    var pattern := "%" + core + "%";
    assert pattern[1..] == core + "%";
    forall k | 0 <= k <= |value| ensures Liked(value[k..], core + "%") <==> HasPrefix(value[k..], core) {
      PrefixMatches(value[k..], core);
    }
  }

  /** A pattern with wildcards at most as `%` at its ends. */
  ghost predicate PlainAtHeart(pattern: string, core: string) {
    WildcardFree(core) && pattern in {core, core + "%", "%" + core, "%" + core + "%"}
  }

  /** For such patterns, other than the lone `%` that is sliced out of range, the shortcut decides LIKE. */
  lemma ShortcutDecidesLike(value: string, pattern: string, core: string)
    requires PlainAtHeart(pattern, core) && pattern != "%"
    ensures MatchesLikePattern(value, pattern) <==> Liked(value, pattern)
  {
    if pattern == core {
      LiteralMatches(value, core);
      ShortcutOnLiteral(value, core);
    } else if pattern == core + "%" {
      PrefixMatches(value, core);
      ShortcutOnPrefix(value, core);
    } else if pattern == "%" + core {
      SuffixMatches(value, core);
      ShortcutOnSuffix(value, core);
    } else {
      InsideMatches(value, core);
      ShortcutOnInside(value, core);
    }
  }

  lemma ShortcutOnLiteral(value: string, core: string)
    requires WildcardFree(core) && core != "%"
    ensures MatchesLikePattern(value, core) <==> value == core
  {
    if core != "" {
      assert core[0] in core && core[|core| - 1] in core;
      assert !HasPrefix(core, "%") && !HasSuffix(core, "%");
    }
  }

  lemma ShortcutOnPrefix(value: string, core: string)
    requires WildcardFree(core) && core != ""
    ensures core + "%" != "%" && (MatchesLikePattern(value, core + "%") <==> HasPrefix(value, core))
  {
    var pattern := core + "%";
    assert pattern[0] == core[0] && core[0] in core;
    assert !HasPrefix(pattern, "%") && HasSuffix(pattern, "%") && pattern[..|pattern| - 1] == core;
  }

  lemma ShortcutOnSuffix(value: string, core: string)
    requires WildcardFree(core) && core != ""
    ensures "%" + core != "%" && (MatchesLikePattern(value, "%" + core) <==> HasSuffix(value, core))
  {
    var pattern := "%" + core;
    assert pattern[|pattern| - 1] == core[|core| - 1] && core[|core| - 1] in core;
    assert HasPrefix(pattern, "%") && !HasSuffix(pattern, "%") && pattern[1..] == core;
  }

  lemma ShortcutOnInside(value: string, core: string)
    ensures "%" + core + "%" != "%" && (MatchesLikePattern(value, "%" + core + "%") <==> HasInside(value, core))
  {
    var pattern := "%" + core + "%";
    assert |pattern| >= 2 && HasPrefix(pattern, "%") && HasSuffix(pattern, "%");
    assert pattern[1..|pattern| - 1] == core;
  }

  // ---- Where the shortcut errs ----

  /** The pattern without its `%`, with an `x` for every `_`. */
  function Plainest(pattern: string): (value: string)
    ensures WildcardFree(value)
  {
    if pattern == "" then ""
    else if pattern[0] == '%' then Plainest(pattern[1..])
    else [if pattern[0] == '_' then 'x' else pattern[0]] + Plainest(pattern[1..])
  }

  lemma {:induction false} PlainestIsLiked(pattern: string)
    ensures Liked(Plainest(pattern), pattern)
  {
    if pattern != "" {
      var value := Plainest(pattern);
      PlainestIsLiked(pattern[1..]);
      if pattern[0] == '%' {
        assert value[0..] == value;
      } else {
        assert value[1..] == Plainest(pattern[1..]);
      }
    }
  }

  /** What the shortcut takes literally. */
  function Core(pattern: string): string
    requires pattern != "%"
  {
    if HasPrefix(pattern, "%") && HasSuffix(pattern, "%") then pattern[1..|pattern| - 1]
    else if HasPrefix(pattern, "%") then pattern[1..]
    else if HasSuffix(pattern, "%") then pattern[..|pattern| - 1]
    else pattern
  }

  lemma MatchContainsCore(value: string, pattern: string)
    requires pattern != "%" && MatchesLikePattern(value, pattern)
    ensures |Core(pattern)| <= |value| && forall c :: c in Core(pattern) ==> c in value
    ensures |Core(pattern)| == |value| ==> Core(pattern) == value
  {
    var core := Core(pattern);
    var i :| 0 <= i <= |value| - |core| && value[i..][..|core|] == core by {
      CoreIsInside(value, pattern);
    }
    forall c | c in core ensures c in value {
      var k :| 0 <= k < |core| && core[k] == c;
      assert value[i + k] == c;
    }
  }

  lemma CoreIsInside(value: string, pattern: string)
    requires pattern != "%" && MatchesLikePattern(value, pattern)
    ensures HasInside(value, Core(pattern))
  {
    var core := Core(pattern);
    if HasPrefix(pattern, "%") && HasSuffix(pattern, "%") {
    } else if HasPrefix(pattern, "%") {
      assert value[|value| - |core|..][..|core|] == core;
    } else if HasSuffix(pattern, "%") {
      assert value[0..][..|core|] == core;
    } else {
      assert value[0..][..|core|] == core;
    }
  }

  lemma CoreIsHeart(pattern: string)
    requires pattern != "%" && WildcardFree(Core(pattern))
    ensures PlainAtHeart(pattern, Core(pattern))
  {
    var core := Core(pattern);
    if HasPrefix(pattern, "%") && HasSuffix(pattern, "%") {
      assert pattern == "%" + core + "%";
    } else if HasPrefix(pattern, "%") {
      assert pattern == "%" + core;
    } else if HasSuffix(pattern, "%") {
      assert pattern == core + "%";
    }
  }

  /** A pattern with a wildcard anywhere else: LIKE accepts its plainest text, and the shortcut does not. */
  lemma InnerWildcardIsMissed(pattern: string)
    requires pattern != "%" && !exists core :: PlainAtHeart(pattern, core)
    ensures Liked(Plainest(pattern), pattern) && !MatchesLikePattern(Plainest(pattern), pattern)
  {
    PlainestIsLiked(pattern);
    if WildcardFree(Core(pattern)) {
      CoreIsHeart(pattern);
    }
    if MatchesLikePattern(Plainest(pattern), pattern) {
      MatchContainsCore(Plainest(pattern), pattern);
    }
  }

  /** The shortcut decides LIKE for all texts exactly when the pattern has wildcards at most as `%` at its ends. */
  lemma ShortcutDecidesLikeExactly(pattern: string)
    requires pattern != "%"
    ensures (forall v :: MatchesLikePattern(v, pattern) <==> Liked(v, pattern)) <==>
              exists core :: PlainAtHeart(pattern, core)
  {
    if core :| PlainAtHeart(pattern, core) {
      forall v ensures MatchesLikePattern(v, pattern) <==> Liked(v, pattern) {
        ShortcutDecidesLike(v, pattern, core);
      }
    } else {
      InnerWildcardIsMissed(pattern);
    }
  }

  // ---- ILIKE ----

  predicate IsUpper(c: char) {
    'A' <= c <= 'Z'
  }

  predicate IsLower(c: char) {
    'a' <= c <= 'z'
  }

  function FoldChar(c: char): char {
    if IsUpper(c) then (c as int + 32) as char else c
  }

  function Fold(s: string): (r: string)
    ensures |r| == |s| && forall i :: 0 <= i < |s| ==> r[i] == FoldChar(s[i])
  {
    seq(|s|, i requires 0 <= i < |s| => FoldChar(s[i]))
  }

  /** LIKE without regard to the case of the letters A to Z. */
  predicate ILiked(value: string, pattern: string) {
    Liked(Fold(value), Fold(pattern))
  }

  function SwapChar(c: char): char {
    if IsUpper(c) then (c as int + 32) as char else if IsLower(c) then (c as int - 32) as char else c
  }

  function Swap(s: string): (r: string)
    ensures |r| == |s| && forall i :: 0 <= i < |s| ==> r[i] == SwapChar(s[i])
  {
    seq(|s|, i requires 0 <= i < |s| => SwapChar(s[i]))
  }

  predicate LetterFree(s: string) {
    forall c :: c in s ==> !IsUpper(c) && !IsLower(c)
  }

  lemma FoldIgnoresSwap(s: string)
    ensures Fold(Swap(s)) == Fold(s)
  {
  }

  lemma {:induction false} PlainestFolds(pattern: string)
    ensures Plainest(Fold(pattern)) == Fold(Plainest(pattern))
  {
    if pattern != "" {
      assert Fold(pattern)[1..] == Fold(pattern[1..]);
      PlainestFolds(pattern[1..]);
      if pattern[0] != '%' {
        var head := [if pattern[0] == '_' then 'x' else pattern[0]];
        assert Fold(head + Plainest(pattern[1..])) == Fold(head) + Fold(Plainest(pattern[1..]));
      }
    }
  }

  /** The plainest text, in either case, is liked without regard to case. */
  lemma PlainestIsILiked(pattern: string)
    ensures ILiked(Plainest(pattern), pattern) && ILiked(Swap(Plainest(pattern)), pattern)
  {
    PlainestIsLiked(Fold(pattern));
    PlainestFolds(pattern);
    FoldIgnoresSwap(Plainest(pattern));
  }

  lemma FoldKeepsInside(value: string, core: string)
    requires LetterFree(core)
    ensures Fold(core) == core
    ensures HasInside(Fold(value), core) <==> HasInside(value, core)
    ensures HasPrefix(Fold(value), core) <==> HasPrefix(value, core)
    ensures HasSuffix(Fold(value), core) <==> HasSuffix(value, core)
    ensures Fold(value) == core <==> value == core
  {
    forall i | 0 <= i <= |value| - |core| ensures Fold(value)[i..][..|core|] == core <==> value[i..][..|core|] == core {
      FoldKeepsAt(value, core, i);
    }
    if |core| <= |value| {
      FoldKeepsAt(value, core, 0);
      FoldKeepsAt(value, core, |value| - |core|);
      assert value[0..] == value && Fold(value)[0..] == Fold(value);
      var tail, folded := value[|value| - |core|..], Fold(value)[|value| - |core|..];
      assert tail[..|core|] == tail && folded[..|core|] == folded;
    }
  }

  lemma FoldKeepsAt(value: string, core: string, i: nat)
    requires LetterFree(core) && i <= |value| - |core|
    ensures Fold(value)[i..][..|core|] == core <==> value[i..][..|core|] == core
  {
    var plain, folded := value[i..][..|core|], Fold(value)[i..][..|core|];
    forall k | 0 <= k < |core| ensures folded[k] == core[k] <==> plain[k] == core[k] {
      assert folded[k] == FoldChar(plain[k]) && core[k] in core;
    }
    assert folded == core <==> forall k :: 0 <= k < |core| ==> folded[k] == core[k];
    assert plain == core <==> forall k :: 0 <= k < |core| ==> plain[k] == core[k];
  }

  lemma LetterFreeIsCaseless(value: string, pattern: string, core: string)
    requires pattern != "%" && PlainAtHeart(pattern, core) && LetterFree(core)
    ensures MatchesLikePattern(value, pattern) <==> ILiked(value, pattern)
  {
    FoldKeepsInside(value, core);
    assert Fold(pattern) == pattern by {
      assert LetterFree(pattern);
    }
    ShortcutDecidesLike(value, pattern, core);
    ShortcutDecidesLike(Fold(value), pattern, core);
    ShortcutByShape(value, pattern, core);
    ShortcutByShape(Fold(value), pattern, core);
  }

  lemma ShortcutByShape(value: string, pattern: string, core: string)
    requires pattern != "%" && PlainAtHeart(pattern, core)
    ensures MatchesLikePattern(value, pattern) <==>
              if pattern == core then value == core
              else if pattern == core + "%" then HasPrefix(value, core)
              else if pattern == "%" + core then HasSuffix(value, core)
              else HasInside(value, core)
  {
    if pattern == core {
      ShortcutOnLiteral(value, core);
    } else if pattern == core + "%" {
      ShortcutOnPrefix(value, core);
    } else if pattern == "%" + core {
      ShortcutOnSuffix(value, core);
    } else {
      ShortcutOnInside(value, core);
    }
  }

  /** The same shortcut stands in for ILIKE: it decides it for all texts exactly when the pattern is plain at heart
      and has no letter. */
  lemma ShortcutDecidesILikeExactly(pattern: string)
    requires pattern != "%"
    ensures (forall v :: MatchesLikePattern(v, pattern) <==> ILiked(v, pattern)) <==>
              exists core :: PlainAtHeart(pattern, core) && LetterFree(core)
  {
    if core :| PlainAtHeart(pattern, core) && LetterFree(core) {
      forall v ensures MatchesLikePattern(v, pattern) <==> ILiked(v, pattern) {
        LetterFreeIsCaseless(v, pattern, core);
      }
    } else {
      CaseIsMissed(pattern);
    }
  }

  /** Otherwise ILIKE accepts the plainest text in one case or the other, and the shortcut does not. */
  lemma CaseIsMissed(pattern: string)
    requires pattern != "%" && !exists core :: PlainAtHeart(pattern, core) && LetterFree(core)
    ensures exists v :: ILiked(v, pattern) && !MatchesLikePattern(v, pattern)
  {
    var plain := Plainest(pattern);
    PlainestIsILiked(pattern);
    if MatchesLikePattern(plain, pattern) {
      MatchContainsCore(plain, pattern);
      CoreIsHeart(pattern);
      var core := Core(pattern);
      PlainestOfPlain(pattern, core);
      SwapChanges(core);
      if MatchesLikePattern(Swap(plain), pattern) {
        MatchContainsCore(Swap(plain), pattern);
      }
    }
  }

  lemma SwapChanges(s: string)
    requires !LetterFree(s)
    ensures Swap(s) != s
  {
    var c :| c in s && (IsUpper(c) || IsLower(c));
    var k :| 0 <= k < |s| && s[k] == c;
    assert Swap(s)[k] == SwapChar(c) != c;
  }

  lemma PlainestOfPlain(pattern: string, core: string)
    requires PlainAtHeart(pattern, core)
    ensures Plainest(pattern) == core
  {
    PlainestOfLiteral(core);
    if pattern == core + "%" || pattern == "%" + core + "%" {
      PlainestOfPrefix(core);
    }
    assert ("%" + core)[1..] == core && ("%" + core + "%")[1..] == core + "%";
  }

  lemma {:induction false} PlainestOfLiteral(core: string)
    requires WildcardFree(core)
    ensures Plainest(core) == core
  {
    if core != "" {
      PlainestOfLiteral(core[1..]);
      assert core[0] in core;
    }
  }

  lemma {:induction false} PlainestOfPrefix(core: string)
    requires WildcardFree(core)
    ensures Plainest(core + "%") == core
  {
    var pattern := core + "%";
    if core == "" {
      assert pattern[1..] == "";
    } else {
      assert pattern[1..] == core[1..] + "%" && core[0] in core;
      PlainestOfPrefix(core[1..]);
    }
  }
}
