/** Python's `str.split()` without arguments and `" ".join(...)`, with the facts that tie
    them together. */
module Words {
  import opened Chars
  import opened Text

  /** A token of `str.split()`: a non-empty run of non-whitespace characters. */
  predicate IsToken(w: string) {
    |w| > 0 && forall k :: 0 <= k < |w| ==> !IsSpace(w[k])
  }

  /** The tokens of `ws` written one after another. */
  function Concat(ws: seq<string>): string {
    if ws == [] then [] else ws[0] + Concat(ws[1..])
  }

  /** The length of the non-whitespace run at the front of `s`. */
  function TokenEnd(s: string): (n: nat)
    ensures n <= |s|
    ensures forall k :: 0 <= k < n ==> !IsSpace(s[k])
    ensures n == |s| || IsSpace(s[n])
  {
    if s == [] || IsSpace(s[0]) then 0 else 1 + TokenEnd(s[1..])
  }

  /** `str.split()`: the maximal non-whitespace runs of `s`, in order. Written one after
      another they give back exactly the non-whitespace characters of `s`. */
  function Split(s: string): (ws: seq<string>)
    ensures forall k :: 0 <= k < |ws| ==> IsToken(ws[k])
    ensures Concat(ws) == NonSpace(s)
    decreases |s|
  {
    if s == [] then []
    else if IsSpace(s[0]) then Split(s[1..])
    else
      var n := TokenEnd(s);
      var rest := Split(s[n..]);
      assert ([s[..n]] + rest)[1..] == rest;
      TakeDrop(s, n);
      NonSpaceAppend(s[..n], s[n..]);
      NonSpaceOfSpaceFree(s[..n]);
      [s[..n]] + rest
  }

  /** `" ".join(ws)`. */
  function JoinWithSpace(ws: seq<string>): string {
    if |ws| == 0 then []
    else if |ws| == 1 then ws[0]
    else ws[0] + " " + JoinWithSpace(ws[1..])
  }

  /** A string is split into nothing exactly when it is all whitespace. */
  lemma SplitEmpty(s: string)
    ensures Split(s) == [] <==> AllSpace(s)
  {
    NonSpaceEmpty(s);
    var ws := Split(s);
    if ws != [] {
      assert |Concat(ws)| >= |ws[0]| > 0;
    }
  }

  /** One token splits into itself. */
  lemma SplitToken(w: string)
    requires IsToken(w)
    ensures Split(w) == [w]
  {
    var n := TokenEnd(w);
    assert n == |w|;
    assert w[..n] == w;
    assert w[n..] == [];
  }

  /** Whitespace in front of a string does not change its tokens. */
  lemma {:induction false} SplitDropSpaces(pre: string, s: string)
    requires AllSpace(pre)
    ensures Split(pre + s) == Split(s)
  {
    if pre != [] {
      assert (pre + s)[1..] == pre[1..] + s;
      SplitDropSpaces(pre[1..], s);
    } else {
      assert pre + s == s;
    }
  }

  /** Dropping a whitespace prefix of a string does not change its tokens. */
  lemma SplitDropPrefix(s: string, n: nat)
    requires n <= |s| && AllSpace(s[..n])
    ensures Split(s[n..]) == Split(s)
  {
    TakeDrop(s, n);
    SplitDropSpaces(s[..n], s[n..]);
  }

  /** The first token of `a` is also the first token of `a`, a whitespace character, and
      `b`. */
  lemma TokenEndSeparated(a: string, c: char, b: string)
    requires IsSpace(c)
    ensures TokenEnd(a + [c] + b) == TokenEnd(a)
    ensures (a + [c] + b)[..TokenEnd(a)] == a[..TokenEnd(a)]
    ensures (a + [c] + b)[TokenEnd(a)..] == a[TokenEnd(a)..] + [c] + b
  {
    var x := a + [c] + b;
    var m := TokenEnd(a);
    assert forall k :: 0 <= k < m ==> x[k] == a[k];
    assert x[m] == if m < |a| then a[m] else c;
    TokenEndIs(x, m);
  }

  /** `TokenEnd` is the first position that holds whitespace or lies at the end. */
  lemma {:induction false} TokenEndIs(s: string, m: nat)
    requires m <= |s| && (forall k :: 0 <= k < m ==> !IsSpace(s[k])) && (m == |s| || IsSpace(s[m]))
    ensures TokenEnd(s) == m
  {
    if m > 0 {
      TokenEndIs(s[1..], m - 1);
    }
  }

  /** A whitespace character separates the tokens on its two sides. */
  lemma {:induction false} SplitSeparated(a: string, c: char, b: string)
    requires IsSpace(c)
    ensures Split(a + [c] + b) == Split(a) + Split(b)
    decreases |a|
  {
    var x := a + [c] + b;
    if a == [] {
      assert x == [c] + b;
      assert x[1..] == b;
    } else if IsSpace(a[0]) {
      assert x[1..] == a[1..] + [c] + b;
      SplitSeparated(a[1..], c, b);
    } else {
      var m := TokenEnd(a);
      TokenEndSeparated(a, c, b);
      SplitSeparated(a[m..], c, b);
      assert Split(a) == [a[..m]] + Split(a[m..]);
      assert Split(x) == [x[..m]] + Split(x[m..]);
    }
  }

  /** Trailing whitespace does not change the tokens either. */
  lemma SplitDropTrailingSpaces(s: string, post: string)
    requires AllSpace(post)
    ensures Split(s + post) == Split(s)
  {
    if post != [] {
      assert s + post == s + [post[0]] + post[1..];
      SplitSeparated(s, post[0], post[1..]);
      SplitEmpty(post[1..]);
    } else {
      assert s + post == s;
    }
  }

  /** `str.strip()` keeps the tokens. */
  lemma SplitStrip(s: string)
    ensures Split(Strip(s)) == Split(s)
  {
    var a := LeadingSpaces(s);
    var r := Strip(s);
    var post := s[a + |r|..];
    assert s == s[..a] + (r + post) by {
      assert s[a..] == r + post;
      TakeDrop(s, a);
    }
    SplitDropSpaces(s[..a], r + post);
    SplitDropTrailingSpaces(r, post);
  }

  /** Splitting undoes joining: `" ".join(ws).split() == ws` when every element of `ws` is a
      token. */
  lemma {:induction false} SplitJoin(ws: seq<string>)
    requires forall k :: 0 <= k < |ws| ==> IsToken(ws[k])
    ensures Split(JoinWithSpace(ws)) == ws
  {
    if |ws| == 1 {
      SplitToken(ws[0]);
    } else if |ws| > 1 {
      var rest := JoinWithSpace(ws[1..]);
      SplitJoin(ws[1..]);
      SplitToken(ws[0]);
      SplitSeparated(ws[0], ' ', rest);
      assert ws == [ws[0]] + ws[1..];
    }
  }

  /** Putting a non-whitespace character in front of a string either starts a new first token
      (when the string is empty or starts with whitespace) or extends its first token. */
  lemma SplitCons(c: char, s: string)
    requires !IsSpace(c)
    ensures s == [] || IsSpace(s[0]) ==> Split([c] + s) == [[c]] + Split(s)
    ensures s != [] && !IsSpace(s[0]) ==>
      var ws := Split(s);
      ws != [] && Split([c] + s) == [[c] + ws[0]] + ws[1..]
  {
    var x := [c] + s;
    var m := TokenEnd(s);
    assert x[1..] == s;
    assert TokenEnd(x) == 1 + m;
    assert x[..1 + m] == [c] + s[..m];
    assert x[1 + m..] == s[m..];
  }

  /** `SplitCons` read on a string and its first character. */
  lemma SplitFirstChar(s: string)
    requires s != [] && !IsSpace(s[0])
    ensures s[1..] == [] || IsSpace(s[1]) ==> Split(s) == [[s[0]]] + Split(s[1..])
    ensures s[1..] != [] && !IsSpace(s[1]) ==>
      var ws := Split(s[1..]);
      ws != [] && Split(s) == [[s[0]] + ws[0]] + ws[1..]
  {
    assert s == [s[0]] + s[1..];
    SplitCons(s[0], s[1..]);
  }
}
