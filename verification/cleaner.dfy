/** `clean_text`: a whitespace collapse, a strip, a blank-line rewrite, the joining of words
    broken into single letters, a filter for special characters, and a final strip. Each
    `re.sub` is modelled as the left-to-right scan the regular-expression engine performs:
    at each position it tries to match, replaces a match and continues after it, or copies
    one character and moves on. */
module TextCleaner {
  import opened Outcomes
  import opened Chars
  import opened Text
  import opened Words

  // ---------------------------------------------------------------------------
  // Stage 1: re.sub(r"\s+", " ", text)

  /** Every whitespace character of `s` is a plain space and is not followed by whitespace. */
  predicate SingleSpaced(s: string) {
    forall k :: 0 <= k < |s| && IsSpace(s[k]) ==> s[k] == ' ' && (k + 1 == |s| || !IsSpace(s[k + 1]))
  }

  /** Putting a non-whitespace character, or a space before a string that does not start
      with whitespace, in front of a single-spaced string keeps it single-spaced. */
  lemma SingleSpacedCons(c: char, rest: string)
    requires SingleSpaced(rest)
    requires IsSpace(c) ==> c == ' ' && (rest == [] || !IsSpace(rest[0]))
    ensures SingleSpaced([c] + rest)
  {
    var t := [c] + rest;
    forall k | 0 <= k < |t| && IsSpace(t[k])
      ensures t[k] == ' ' && (k + 1 == |t| || !IsSpace(t[k + 1]))
    {
      if k > 0 {
        assert t[k] == rest[k - 1];
        if k + 1 < |t| {
          assert t[k + 1] == rest[k];
        }
      }
    }
  }

  /** Replaces each maximal run of whitespace by one space. */
  function CollapseSpaces(s: string): (r: string)
    ensures SingleSpaced(r)
    ensures NonSpace(r) == NonSpace(s)
    ensures |r| <= |s|
    ensures s != [] ==> r != [] && (IsSpace(s[0]) <==> IsSpace(r[0]))
    ensures s != [] && !IsSpace(s[0]) ==> r[0] == s[0]
    decreases |s|
  {
    if s == [] then []
    else if IsSpace(s[0]) then
      var n := LeadingSpaces(s);
      var rest := CollapseSpaces(s[n..]);
      NonSpaceDropSpaces(s, n);
      NonSpaceCons(' ', rest);
      SingleSpacedCons(' ', rest);
      [' '] + rest
    else
      var rest := CollapseSpaces(s[1..]);
      NonSpaceCons(s[0], rest);
      NonSpaceCons(s[0], s[1..]);
      assert s == [s[0]] + s[1..];
      SingleSpacedCons(s[0], rest);
      [s[0]] + rest
  }

  /** One step of the collapse: a non-whitespace character is copied. */
  lemma CollapseSpacesWordStep(c: char, rest: string)
    requires !IsSpace(c)
    ensures CollapseSpaces([c] + rest) == [c] + CollapseSpaces(rest)
  {
    assert ([c] + rest)[1..] == rest;
  }

  /** One step of the collapse: a single whitespace character becomes a space. */
  lemma CollapseSpacesSpaceStep(c: char, rest: string)
    requires IsSpace(c) && (rest == [] || !IsSpace(rest[0]))
    ensures CollapseSpaces([c] + rest) == [' '] + CollapseSpaces(rest)
  {
    var s := [c] + rest;
    assert LeadingSpaces(s[1..]) == 0 by {
      assert s[1..] == rest;
    }
    assert s[1..] == rest;
  }

  /** A slice of a single-spaced string is single-spaced. */
  lemma SingleSpacedSlice(s: string, a: nat, b: nat)
    requires SingleSpaced(s) && a <= b <= |s|
    ensures SingleSpaced(s[a..b])
  {
    var t := s[a..b];
    forall k | 0 <= k < |t| && IsSpace(t[k])
      ensures t[k] == ' ' && (k + 1 == |t| || !IsSpace(t[k + 1]))
    {
      assert t[k] == s[a + k];
      if k + 1 < |t| {
        assert t[k + 1] == s[a + k + 1];
      }
    }
  }

  /** The collapse leaves a single-spaced string unchanged, so collapsing twice is the same
      as collapsing once. */
  lemma {:induction false} CollapseSingleSpaced(s: string)
    requires SingleSpaced(s)
    ensures CollapseSpaces(s) == s
    decreases |s|
  {
    if s != [] {
      var rest := s[1..];
      SingleSpacedSlice(s, 1, |s|);
      CollapseSingleSpaced(rest);
      assert s == [s[0]] + rest;
      if IsSpace(s[0]) {
        CollapseSpacesSpaceStep(s[0], rest);
      } else {
        CollapseSpacesWordStep(s[0], rest);
      }
    }
  }

  // ---------------------------------------------------------------------------
  // Stage 2: re.sub(r"\n\s*\n", "\n", text.strip())

  /** The last newline in `s[lo..hi]`, if there is one. */
  function LastNewline(s: string, lo: nat, hi: nat): (r: Option<nat>)
    requires lo <= hi <= |s|
    ensures r.Some? ==> lo <= r.value < hi && s[r.value] == '\n'
    ensures r.Some? ==> forall m :: r.value < m < hi ==> s[m] != '\n'
    ensures r.None? ==> forall m :: lo <= m < hi ==> s[m] != '\n'
    decreases hi - lo
  {
    if lo == hi then None
    else if s[hi - 1] == '\n' then Some(hi - 1)
    else LastNewline(s, lo, hi - 1)
  }

  /** `\n\s*\n` matches `s[i..e]`. */
  predicate BlankLinesAt(s: string, i: nat, e: nat) {
    i + 2 <= e <= |s| && s[i] == '\n' && s[e - 1] == '\n' && AllSpace(s[i + 1..e - 1])
  }

  /** The end of the match of `\n\s*\n` at `i`, if it matches there. The greedy `\s*` takes
      the whole whitespace run after the first newline and gives characters back until a
      newline follows, so the match ends just after the last newline of that run. */
  function BlankLinesMatch(s: string, i: nat): (r: Option<nat>)
    requires i <= |s|
    ensures r.Some? ==> i < r.value <= |s|
  {
    if i == |s| || s[i] != '\n' then None
    else
      var run := i + 1 + LeadingSpaces(s[i + 1..]);
      match LastNewline(s, i + 1, run)
      case Some(k) => Some(k + 1)
      case None => None
  }

  /** A whitespace character after an all-whitespace stretch that starts at `j` lies inside
      the whitespace run that starts at `j`. */
  lemma InsideRun(s: string, j: nat, run: nat, m: nat)
    requires j <= run <= |s| && (run == |s| || !IsSpace(s[run]))
    requires j <= m < |s| && AllSpace(s[j..m]) && IsSpace(s[m])
    ensures m < run
  {
  }

  /** The blank-line match found at `i` is the longest match of `\n\s*\n` at `i`, and when
      none is found there is no match at `i`. */
  lemma BlankLinesMatchSpec(s: string, i: nat)
    requires i <= |s|
    ensures BlankLinesMatch(s, i).Some? ==> BlankLinesAt(s, i, BlankLinesMatch(s, i).value)
    ensures BlankLinesMatch(s, i).Some? ==>
      forall e :: BlankLinesMatch(s, i).value < e <= |s| ==> !BlankLinesAt(s, i, e)
    ensures BlankLinesMatch(s, i).None? ==> forall e :: i <= e <= |s| ==> !BlankLinesAt(s, i, e)
  {
    if i < |s| && s[i] == '\n' {
      var run := i + 1 + LeadingSpaces(s[i + 1..]);
      assert AllSpace(s[i + 1..run]) by {
        assert s[i + 1..run] == s[i + 1..][..run - i - 1];
      }
      var last := LastNewline(s, i + 1, run);
      forall e | i <= e <= |s| && BlankLinesAt(s, i, e)
        ensures last.Some? && e <= last.value + 1
      {
        InsideRun(s, i + 1, run, e - 1);
      }
      if last.Some? {
        var k := last.value;
        assert s[i + 1..k] == s[i + 1..run][..k - i - 1];
      }
    }
  }

  /** Rewrites every match of `\n\s*\n` to a single newline. */
  function BlankLinesFrom(s: string, i: nat): (r: string)
    requires i <= |s|
    ensures (forall m :: i <= m < |s| ==> s[m] != '\n') ==> r == s[i..]
    decreases |s| - i
  {
    if i == |s| then []
    else match BlankLinesMatch(s, i)
      case Some(e) => "\n" + BlankLinesFrom(s, e)
      case None =>
        var rest := BlankLinesFrom(s, i + 1);
        assert s[i..] == [s[i]] + s[i + 1..];
        [s[i]] + rest
  }

  /** `re.sub(r"\n\s*\n", "\n", s)`; without a newline there is nothing to rewrite. */
  function CollapseBlankLines(s: string): (r: string)
    ensures (forall m :: 0 <= m < |s| ==> s[m] != '\n') ==> r == s
  {
    assert s[0..] == s;
    BlankLinesFrom(s, 0)
  }

  /** The blank-line rewrite never fires in `clean_text`: the whitespace collapse leaves no
      newline behind, so line 9 amounts to a plain strip. */
  lemma BlankLinesRewriteIsNoOp(text: string)
    ensures CollapseBlankLines(Strip(CollapseSpaces(text))) == Strip(CollapseSpaces(text))
  {
    var c := CollapseSpaces(text);
    var s := Strip(c);
    SingleSpacedSlice(c, LeadingSpaces(c), LeadingSpaces(c) + |s|);
    forall m | 0 <= m < |s|
      ensures s[m] != '\n'
    {
      if s[m] == '\n' {
        assert IsSpace(s[m]);
      }
    }
    assert s[0..] == s;
  }

  /** The collapse followed by the strip is `" ".join(text.split())`. */
  lemma CollapseStripIsJoinSplit(text: string)
    ensures Strip(CollapseSpaces(text)) == JoinWithSpace(Split(text))
  {
    var c := CollapseSpaces(text);
    var s := Strip(c);
    SingleSpacedSlice(c, LeadingSpaces(c), LeadingSpaces(c) + |s|);
    SplitStrip(c);
    SplitCollapseSpaces(text);
    NormalIsJoinSplit(s);
  }

  /** The collapse keeps the tokens. */
  lemma {:induction false} SplitCollapseSpaces(s: string)
    ensures Split(CollapseSpaces(s)) == Split(s)
    decreases |s|, 1
  {
    if s != [] {
      if IsSpace(s[0]) {
        SplitCollapseSpacesAtSpace(s);
      } else {
        SplitCollapseSpacesAtWord(s);
      }
    }
  }

  lemma {:induction false} SplitCollapseSpacesAtSpace(s: string)
    requires s != [] && IsSpace(s[0])
    ensures Split(CollapseSpaces(s)) == Split(s)
    decreases |s|, 0
  {
    var n := LeadingSpaces(s);
    SplitCollapseSpaces(s[n..]);
    SplitCollapseSpaceStep(s, n);
  }

  lemma {:induction false} SplitCollapseSpacesAtWord(s: string)
    requires s != [] && !IsSpace(s[0])
    ensures Split(CollapseSpaces(s)) == Split(s)
    decreases |s|, 0
  {
    SplitCollapseSpaces(s[1..]);
    SplitCollapseWordStep(s);
  }

  /** A whitespace run in front becomes one space, which splits into nothing. */
  lemma SplitCollapseSpaceStep(s: string, n: nat)
    requires s != [] && IsSpace(s[0]) && n == LeadingSpaces(s)
    requires Split(CollapseSpaces(s[n..])) == Split(s[n..])
    ensures Split(CollapseSpaces(s)) == Split(s)
  {
    var rest := CollapseSpaces(s[n..]);
    assert CollapseSpaces(s) == [' '] + rest;
    SplitDropSpaces([' '], rest);
    SplitDropPrefix(s, n);
  }

  /** A non-whitespace character in front is kept and joins the same token on both sides. */
  lemma SplitCollapseWordStep(s: string)
    requires s != [] && !IsSpace(s[0])
    requires Split(CollapseSpaces(s[1..])) == Split(s[1..])
    ensures Split(CollapseSpaces(s)) == Split(s)
  {
    var r := CollapseSpaces(s);
    assert r == [s[0]] + CollapseSpaces(s[1..]);
    assert r[0] == s[0] && r[1..] == CollapseSpaces(s[1..]);
    assert (s[1..] != [] && !IsSpace(s[1])) <==> (r[1..] != [] && !IsSpace(r[1]));
    SplitFirstChar(r);
    SplitFirstChar(s);
  }

  /** A single-spaced string without leading or trailing whitespace is the space-join of
      its tokens. */
  lemma {:induction false} NormalIsJoinSplit(s: string)
    requires SingleSpaced(s)
    requires Stripped(s)
    ensures JoinWithSpace(Split(s)) == s
    decreases |s|
  {
    if s != [] {
      var m := TokenEnd(s);
      if m == |s| {
        assert s[..m] == s;
        assert s[m..] == [];
      } else {
        var w, rest := s[..m], s[m + 1..];
        assert s == w + [' '] + rest && IsToken(w) && rest != [] && !IsSpace(rest[0]) by {
          assert s[m] == ' ' && !IsSpace(s[m + 1]);
        }
        assert JoinWithSpace(Split(rest)) == rest by {
          SingleSpacedSlice(s, m + 1, |s|);
          assert rest[|rest| - 1] == s[|s| - 1];
          NormalIsJoinSplit(rest);
        }
        JoinSplitStep(w, rest);
      }
    }
  }

  /** A token, a space, and a string that is the space-join of its tokens. */
  lemma JoinSplitStep(w: string, rest: string)
    requires IsToken(w) && rest != [] && !IsSpace(rest[0])
    requires JoinWithSpace(Split(rest)) == rest
    ensures JoinWithSpace(Split(w + [' '] + rest)) == w + [' '] + rest
  {
    SplitSeparated(w, ' ', rest);
    SplitToken(w);
    SplitEmpty(rest);
    JoinCons(w, Split(rest));
  }

  lemma JoinCons(w: string, ws: seq<string>)
    requires ws != []
    ensures JoinWithSpace([w] + ws) == w + " " + JoinWithSpace(ws)
  {
    assert ([w] + ws)[1..] == ws;
  }

  // ---------------------------------------------------------------------------
  // Stage 3: re.sub(r"(?<!\w)\b(\w(?:\s\w)+)\b", <drop the spaces>, text)

  /** `s[i..e]` has the shape `\w(?:\s\w)*`: a word character at every even offset from
      `i`, a whitespace character at every odd one. */
  predicate WordChain(s: string, i: nat, e: nat)
    requires i <= e <= |s|
    decreases e - i
  {
    i < e && IsWord(s[i]) && (e == i + 1 || (i + 2 < e && IsSpace(s[i + 1]) && WordChain(s, i + 2, e)))
  }

  /** The broken-word pattern matches `s[i..e]`: a chain of at least two single word
      characters, not preceded and not followed by a word character. With no word character
      before `i` and one at `i` the first `\b` holds; with a word character at `e - 1` the
      second `\b` says that `s[e]` is not one. */
  predicate BrokenWordAt(s: string, i: nat, e: nat) {
    && i + 1 < e <= |s|
    && WordChain(s, i, e)
    && (i == 0 || !IsWord(s[i - 1]))
    && (e == |s| || !IsWord(s[e]))
  }

  /** The end of the longest chain `\w(?:\s\w)*` that starts at `i`. */
  function ChainEnd(s: string, i: nat): (e: nat)
    requires i < |s| && IsWord(s[i])
    ensures i < e <= |s|
    ensures WordChain(s, i, e)
    decreases |s| - i
  {
    if i + 2 < |s| && IsSpace(s[i + 1]) && IsWord(s[i + 2]) then ChainEnd(s, i + 2) else i + 1
  }

  /** A chain ends with a word character. */
  lemma {:induction false} ChainLast(s: string, i: nat, e: nat)
    requires i <= e <= |s| && WordChain(s, i, e)
    ensures IsWord(s[e - 1])
    decreases e - i
  {
    if e != i + 1 {
      ChainLast(s, i + 2, e);
    }
  }

  /** Dropping the last pair of a chain leaves a chain, and the dropped pair starts with
      whitespace. */
  lemma {:induction false} ChainShorter(s: string, i: nat, e: nat)
    requires i + 3 <= e <= |s| && WordChain(s, i, e)
    ensures WordChain(s, i, e - 2) && IsSpace(s[e - 2])
    decreases e - i
  {
    if e > i + 3 {
      ChainShorter(s, i + 2, e);
    }
  }

  /** Every chain at `i` ends at or before the longest one, and any shorter one is followed
      by whitespace. */
  lemma {:induction false} ChainEndLongest(s: string, i: nat, m: nat)
    requires i <= m <= |s| && WordChain(s, i, m)
    ensures m <= ChainEnd(s, i)
    ensures m < ChainEnd(s, i) ==> IsSpace(s[m])
    decreases m - i
  {
    if m != i + 1 {
      ChainEndLongest(s, i + 2, m);
    }
  }

  /** Where the broken-word pattern matches at `i`, if it does. The greedy `(?:\s\w)+`
      takes every pair of the longest chain; if a word character follows, the closing `\b`
      fails and the engine gives back one pair, after which whitespace follows and `\b`
      holds, provided at least one pair remains. */
  function BrokenWordMatch(s: string, i: nat): (r: Option<nat>)
    requires i <= |s|
    ensures r.Some? ==> i < r.value <= |s|
  {
    if i < |s| && IsWord(s[i]) && (i == 0 || !IsWord(s[i - 1])) then
      var e := ChainEnd(s, i);
      if e == i + 1 then None
      else if e == |s| || !IsWord(s[e]) then Some(e)
      else if e >= i + 5 then Some(e - 2)
      else None
    else None
  }

  /** The match found at `i` is the longest match of the broken-word pattern at `i`, and
      when none is found the pattern does not match at `i`. */
  lemma BrokenWordMatchSpec(s: string, i: nat)
    requires i <= |s|
    ensures BrokenWordMatch(s, i).Some? ==> BrokenWordAt(s, i, BrokenWordMatch(s, i).value)
    ensures BrokenWordMatch(s, i).Some? ==>
      forall e :: BrokenWordMatch(s, i).value < e <= |s| ==> !BrokenWordAt(s, i, e)
    ensures BrokenWordMatch(s, i).None? ==> forall e :: i <= e <= |s| ==> !BrokenWordAt(s, i, e)
  {
    if i < |s| && IsWord(s[i]) && (i == 0 || !IsWord(s[i - 1])) {
      var e := ChainEnd(s, i);
      ChainLast(s, i, e);
      forall m | i <= m <= |s| && BrokenWordAt(s, i, m)
        ensures m <= e
        ensures m < e ==> m <= e - 2
      {
        ChainEndLongest(s, i, m);
        ChainLast(s, i, m);
      }
      if e != i + 1 && e < |s| && IsWord(s[e]) && e >= i + 5 {
        ChainShorter(s, i, e);
      }
    }
  }

  /** `str.replace(" ", "")`. */
  function RemoveSpaceChars(t: string): (r: string)
    ensures ' ' !in r
    ensures |r| <= |t|
  {
    if t == [] then []
    else if t[0] == ' ' then RemoveSpaceChars(t[1..])
    else [t[0]] + RemoveSpaceChars(t[1..])
  }

  /** Dropping the plain spaces keeps every other character as often as it occurs, and so
      keeps the non-whitespace characters. */
  lemma {:induction false} RemoveSpaceCharsKeepsOthers(t: string)
    ensures forall c :: c != ' ' ==> multiset(RemoveSpaceChars(t))[c] == multiset(t)[c]
    ensures NonSpace(RemoveSpaceChars(t)) == NonSpace(t)
  {
    if t != [] {
      var rest := RemoveSpaceChars(t[1..]);
      RemoveSpaceCharsKeepsOthers(t[1..]);
      assert t == [t[0]] + t[1..];
      NonSpaceCons(t[0], t[1..]);
      if t[0] != ' ' {
        NonSpaceCons(t[0], rest);
      }
    }
  }

  /** Dropping the plain spaces of a string whose only whitespace is the plain space leaves
      no whitespace at all. */
  lemma {:induction false} RemoveSpaceCharsNoSpace(t: string)
    requires PlainSpaced(t)
    ensures AllNonSpace(RemoveSpaceChars(t))
  {
    if t != [] {
      RemoveSpaceCharsNoSpace(t[1..]);
    }
  }

  /** Rewrites every broken-word match from position `i` on. */
  function JoinFrom(s: string, i: nat): (r: string)
    requires i <= |s|
    ensures NonSpace(r) == NonSpace(s[i..])
    ensures |r| <= |s| - i
    decreases |s| - i
  {
    if i == |s| then []
    else match BrokenWordMatch(s, i)
      case Some(e) =>
        var rest := JoinFrom(s, e);
        assert s[i..] == s[i..e] + s[e..];
        NonSpaceAppend(s[i..e], s[e..]);
        NonSpaceAppend(RemoveSpaceChars(s[i..e]), rest);
        RemoveSpaceCharsKeepsOthers(s[i..e]);
        RemoveSpaceChars(s[i..e]) + rest
      case None =>
        var rest := JoinFrom(s, i + 1);
        assert s[i..] == [s[i]] + s[i + 1..];
        NonSpaceCons(s[i], s[i + 1..]);
        NonSpaceCons(s[i], rest);
        [s[i]] + rest
  }

  /** Joining broken words adds no whitespace: where every whitespace character from `i` on
      is a plain space, so is every whitespace character of the result. */
  lemma {:induction false} JoinFromKeepsPlainSpaced(s: string, i: nat)
    requires i <= |s|
    requires forall k :: i <= k < |s| && IsSpace(s[k]) ==> s[k] == ' '
    ensures PlainSpaced(JoinFrom(s, i))
    decreases |s| - i
  {
    if i < |s| {
      match BrokenWordMatch(s, i)
      case Some(e) =>
        JoinFromKeepsPlainSpaced(s, e);
        var m := s[i..e];
        assert PlainSpaced(m) by {
          assert forall k :: 0 <= k < |m| ==> m[k] == s[i + k];
        }
        RemoveSpaceCharsNoSpace(m);
        PlainSpacedAppend(RemoveSpaceChars(m), JoinFrom(s, e));
      case None =>
        JoinFromKeepsPlainSpaced(s, i + 1);
        PlainSpacedAppend([s[i]], JoinFrom(s, i + 1));
    }
  }

  /** `JoinFrom` over the whole string. */
  function JoinBrokenWords(s: string): (r: string)
    ensures NonSpace(r) == NonSpace(s)
    ensures |r| <= |s|
  {
    assert s[0..] == s;
    JoinFrom(s, 0)
  }

  /** One step of the scan where no match starts at `i`. */
  lemma JoinFromSkip(s: string, i: nat)
    requires i < |s| && BrokenWordMatch(s, i).None?
    ensures JoinFrom(s, i) == [s[i]] + JoinFrom(s, i + 1)
  {
  }

  /** Where no broken word starts at `i`, the scan copies `s[i]` and moves on. */
  lemma NoBrokenWordSkipped(s: string, i: nat)
    requires i < |s|
    requires forall e :: i <= e <= |s| ==> !BrokenWordAt(s, i, e)
    ensures JoinFrom(s, i) == [s[i]] + JoinFrom(s, i + 1)
  {
    assert BrokenWordMatch(s, i).None? by {
      BrokenWordMatchSpec(s, i);
    }
    JoinFromSkip(s, i);
  }

  /** One step of the scan where a match starts at `i`. */
  lemma JoinFromReplace(s: string, i: nat)
    requires i < |s| && BrokenWordMatch(s, i).Some?
    ensures JoinFrom(s, i) == RemoveSpaceChars(s[i..BrokenWordMatch(s, i).value]) + JoinFrom(s, BrokenWordMatch(s, i).value)
  {
  }

  /** The scan copies text in which no broken word starts unchanged: where no match starts
      anywhere in `s[i..j]`, the rewrite from `i` is `s[i..j]` followed by the rewrite from
      `j`. */
  lemma {:induction false} JoinFromCopies(s: string, i: nat, j: nat)
    requires i <= j <= |s|
    requires forall k, e :: i <= k < j && k <= e <= |s| ==> !BrokenWordAt(s, k, e)
    ensures JoinFrom(s, i) == s[i..j] + JoinFrom(s, j)
    decreases j - i
  {
    if i < j {
      NoBrokenWordSkipped(s, i);
      JoinFromCopies(s, i + 1, j);
      ConsSlice(s, i, j, JoinFrom(s, j));
    }
  }

  /** Putting `s[i]` back in front of `s[i + 1..j]`, whatever follows. */
  lemma ConsSlice(s: string, i: nat, j: nat, rest: string)
    requires i < j <= |s|
    ensures [s[i]] + (s[i + 1..j] + rest) == s[i..j] + rest
  {
    assert s[i..j] == [s[i]] + s[i + 1..j];
  }

  /** Where the longest broken word at `i` ends at `e`, the scan replaces exactly
      `s[i..e]` by its characters without the spaces and carries on at `e`. */
  lemma JoinFromAtMatch(s: string, i: nat, e: nat)
    requires BrokenWordAt(s, i, e)
    requires forall f :: e < f <= |s| ==> !BrokenWordAt(s, i, f)
    ensures JoinFrom(s, i) == RemoveSpaceChars(s[i..e]) + JoinFrom(s, e)
  {
    assert BrokenWordMatch(s, i) == Some(e) by {
      BrokenWordMatchSpec(s, i);
    }
    JoinFromReplace(s, i);
  }

  /** A text in which no broken word starts passes the broken-word rewrite unchanged. */
  lemma JoinBrokenWordsNoMatch(s: string)
    requires forall k, e :: 0 <= k <= e <= |s| ==> !BrokenWordAt(s, k, e)
    ensures JoinBrokenWords(s) == s
  {
    JoinFromCopies(s, 0, |s|);
    assert s[0..|s|] == s;
  }

  /** No word character of `s` stands alone: each one has a word character right before or
      right after it. */
  predicate NoLoneWordChar(s: string) {
    forall k :: 0 <= k < |s| && IsWord(s[k]) ==> WordNeighbour(s, k)
  }

  /** The character right before or right after position `k` is a word character. */
  predicate WordNeighbour(s: string, k: nat) {
    (0 < k <= |s| && IsWord(s[k - 1])) || (k + 1 < |s| && IsWord(s[k + 1]))
  }

  /** A broken word starts with a lone word character, so a text without one has no broken
      word: separate words of two or more word characters are never merged. */
  lemma NoLoneWordCharNoMatch(s: string)
    requires NoLoneWordChar(s)
    ensures forall k, e :: 0 <= k <= e <= |s| ==> !BrokenWordAt(s, k, e)
  {
    forall k, e | 0 <= k <= e <= |s| && k + 1 < e <= |s| && WordChain(s, k, e)
      ensures k > 0 && IsWord(s[k - 1])
    {
      assert IsWord(s[k]) && IsSpace(s[k + 1]);
    }
  }

  // ---------------------------------------------------------------------------
  // Stage 4: re.sub(r"[^\w\s.,:/-]", "", text), then text.strip()

  /** Drops every character that is not a word character, whitespace or `. , : / -`. */
  function RemoveSpecial(s: string): (r: string)
    ensures AllKept(r)
    ensures |r| <= |s|
    ensures PlainSpaced(s) ==> PlainSpaced(r)
  {
    if s == [] then []
    else if IsKept(s[0]) then [s[0]] + RemoveSpecial(s[1..])
    else RemoveSpecial(s[1..])
  }

  /** The filter removes only special characters: every kept character occurs in the
      result as often as in the input. */
  lemma {:induction false} RemoveSpecialKeepsKept(s: string)
    ensures forall c :: IsKept(c) ==> multiset(RemoveSpecial(s))[c] == multiset(s)[c]
  {
    if s != [] {
      RemoveSpecialKeepsKept(s[1..]);
      assert s == [s[0]] + s[1..];
    }
  }

  /** The filter works character by character: filtering a concatenation filters each part,
      so the kept characters stay in their order. */
  lemma {:induction false} RemoveSpecialAppend(a: string, b: string)
    ensures RemoveSpecial(a + b) == RemoveSpecial(a) + RemoveSpecial(b)
  {
    if a == [] {
      assert a + b == b;
    } else {
      assert (a + b)[1..] == a[1..] + b;
      RemoveSpecialAppend(a[1..], b);
    }
  }

  /** One character is kept exactly when it is a word character, whitespace or `. , : / -`. */
  lemma RemoveSpecialSingle(c: char)
    ensures RemoveSpecial([c]) == if IsKept(c) then [c] else []
  {
    assert [c][1..] == [];
  }

  /** A string of kept characters passes the filter unchanged. */
  lemma {:induction false} RemoveSpecialAllKept(s: string)
    requires AllKept(s)
    ensures RemoveSpecial(s) == s
  {
    if s != [] {
      RemoveSpecialAllKept(s[1..]);
      assert s == [s[0]] + s[1..];
    }
  }

  /** Filtering commutes with taking the non-whitespace characters, because whitespace is
      always kept. */
  lemma {:induction false} NonSpaceRemoveSpecial(s: string)
    ensures NonSpace(RemoveSpecial(s)) == RemoveSpecial(NonSpace(s))
  {
    if s != [] {
      NonSpaceRemoveSpecial(s[1..]);
      var rest := RemoveSpecial(s[1..]);
      NonSpaceCons(s[0], rest);
      NonSpaceCons(s[0], s[1..]);
      assert s == [s[0]] + s[1..];
      if !IsSpace(s[0]) {
        var n := NonSpace(s[1..]);
        assert ([s[0]] + n)[1..] == n;
      }
    }
  }

  // ---------------------------------------------------------------------------

  /** Each stage before the filter keeps the non-whitespace characters. */
  lemma CleanStagesKeepNonSpace(text: string)
    ensures NonSpace(JoinBrokenWords(CollapseBlankLines(Strip(CollapseSpaces(text))))) == NonSpace(text)
  {
    var collapsed := Strip(CollapseSpaces(text));
    BlankLinesRewriteIsNoOp(text);
    assert collapsed[0..] == collapsed;
  }

  /** Stripping a string of kept characters leaves kept characters. */
  lemma StripKeepsKept(s: string)
    requires AllKept(s)
    ensures AllKept(Strip(s))
  {
    var r := Strip(s);
    assert forall k :: 0 <= k < |r| ==> r[k] == s[LeadingSpaces(s) + k];
  }

  /** `clean_text` as three stages: the blank-line pass can be skipped, because it never
      fires after the whitespace collapse and the strip. */
  lemma CleanTextStages(text: string)
    ensures CleanText(text) == Strip(RemoveSpecial(JoinBrokenWords(Strip(CollapseSpaces(text)))))
  {
    BlankLinesRewriteIsNoOp(text);
  }

  /** Stripping keeps every whitespace character a plain space. */
  lemma StripKeepsPlainSpaced(s: string)
    requires PlainSpaced(s)
    ensures PlainSpaced(Strip(s))
  {
    var r := Strip(s);
    assert forall k :: 0 <= k < |r| ==> r[k] == s[LeadingSpaces(s) + k];
  }

  /** `clean_text`. The output consists of kept characters only, its only whitespace is
      the plain space, it has no whitespace at either end, it is never longer than the input,
      and its non-whitespace characters are exactly those of the input with the special
      characters removed. */
  function CleanText(text: string): (r: string)
    ensures AllKept(r)
    ensures PlainSpaced(r)
    ensures Stripped(r)
    ensures NonSpace(r) == RemoveSpecial(NonSpace(text))
    ensures |r| <= |text|
  {
    var collapsed := Strip(CollapseSpaces(text));
    BlankLinesRewriteIsNoOp(text);
    var blank := CollapseBlankLines(collapsed);
    var joined := JoinBrokenWords(blank);
    var kept := RemoveSpecial(joined);
    var r := Strip(kept);
    CleanStagesKeepNonSpace(text);
    NonSpaceRemoveSpecial(JoinBrokenWords(CollapseBlankLines(Strip(CollapseSpaces(text)))));
    StripKeepsKept(kept);
    assert PlainSpaced(collapsed) by {
      var c := CollapseSpaces(text);
      assert PlainSpaced(c);
      StripKeepsPlainSpaced(c);
    }
    JoinFromKeepsPlainSpaced(blank, 0);
    StripKeepsPlainSpaced(kept);
    r
  }

  /** Text that is already clean comes through `clean_text` unchanged: single-spaced, with
      no whitespace at either end, only kept characters, and no lone word character. In
      particular the spaces between separate words stay where they are. */
  lemma CleanTextKeepsClean(s: string)
    requires SingleSpaced(s) && Stripped(s) && AllKept(s) && NoLoneWordChar(s)
    ensures CleanText(s) == s
  {
    CleanTextStages(s);
    CollapseSingleSpaced(s);
    StripStripped(s);
    NoLoneWordCharNoMatch(s);
    JoinBrokenWordsNoMatch(s);
    RemoveSpecialAllKept(s);
  }
}
