/** Whitespace-level views of strings: the non-whitespace characters, and `str.strip()`. */
module Text {
  import opened Chars

  /** A string is its prefix of length `n` followed by the rest. */
  lemma TakeDrop(s: string, n: nat)
    requires n <= |s|
    ensures s[..n] + s[n..] == s
  {
  }

  /** Every character of `s` is whitespace. */
  predicate AllSpace(s: string) {
    forall k :: 0 <= k < |s| ==> IsSpace(s[k])
  }

  /** The non-whitespace characters of `s`, in order. */
  function NonSpace(s: string): (r: string)
    ensures |r| <= |s|
    ensures forall k :: 0 <= k < |r| ==> !IsSpace(r[k])
  {
    if s == [] then []
    else if IsSpace(s[0]) then NonSpace(s[1..])
    else [s[0]] + NonSpace(s[1..])
  }

  lemma {:induction false} NonSpaceAppend(a: string, b: string)
    ensures NonSpace(a + b) == NonSpace(a) + NonSpace(b)
  {
    if a == [] {
      assert a + b == b;
    } else {
      assert (a + b)[0] == a[0];
      assert (a + b)[1..] == a[1..] + b;
      NonSpaceAppend(a[1..], b);
    }
  }

  /** Putting one character in front of a string. */
  lemma NonSpaceCons(c: char, s: string)
    ensures NonSpace([c] + s) == if IsSpace(c) then NonSpace(s) else [c] + NonSpace(s)
  {
    assert ([c] + s)[1..] == s;
  }

  /** Dropping a whitespace prefix keeps the non-whitespace characters. */
  lemma NonSpaceDropSpaces(s: string, n: nat)
    requires n <= |s| && AllSpace(s[..n])
    ensures NonSpace(s[n..]) == NonSpace(s)
  {
    var a, b := s[..n], s[n..];
    assert NonSpace(a) == [] by {
      NonSpaceEmpty(a);
    }
    assert NonSpace(a + b) == NonSpace(a) + NonSpace(b) by {
      NonSpaceAppend(a, b);
    }
    assert a + b == s by {
      TakeDrop(s, n);
    }
    assert NonSpace(a) + NonSpace(b) == NonSpace(b);
  }

  /** A string has no non-whitespace characters exactly when it is all whitespace. */
  lemma {:induction false} NonSpaceEmpty(s: string)
    ensures NonSpace(s) == [] <==> AllSpace(s)
  {
    if s != [] {
      NonSpaceEmpty(s[1..]);
      if !IsSpace(s[0]) {
        assert !AllSpace(s);
      } else if AllSpace(s[1..]) {
        assert forall k :: 1 <= k < |s| ==> s[k] == s[1..][k - 1];
      } else {
        var k :| 0 <= k < |s[1..]| && !IsSpace(s[1..][k]);
        assert s[k + 1] == s[1..][k];
      }
    }
  }

  /** A string without whitespace is its own non-whitespace view. */
  lemma {:induction false} NonSpaceOfSpaceFree(s: string)
    requires forall k :: 0 <= k < |s| ==> !IsSpace(s[k])
    ensures NonSpace(s) == s
  {
    if s != [] {
      NonSpaceOfSpaceFree(s[1..]);
      assert s == [s[0]] + s[1..];
    }
  }

  /** `t` has no whitespace at either end. */
  predicate Stripped(t: string) {
    t == [] || (!IsSpace(t[0]) && !IsSpace(t[|t| - 1]))
  }

  /** The number of whitespace characters at the front of `s`. */
  function LeadingSpaces(s: string): (n: nat)
    ensures n <= |s|
    ensures AllSpace(s[..n])
    ensures n == |s| || !IsSpace(s[n])
  {
    if s == [] || !IsSpace(s[0]) then 0
    else
      1 + LeadingSpaces(s[1..])
  }

  /** The number of whitespace characters at the back of `s`. */
  function TrailingSpaces(s: string): (n: nat)
    ensures n <= |s|
    ensures AllSpace(s[|s| - n..])
    ensures n == |s| || !IsSpace(s[|s| - n - 1])
  {
    if s == [] || !IsSpace(s[|s| - 1]) then 0
    else
      1 + TrailingSpaces(s[..|s| - 1])
  }

  /** Cutting whitespace off both ends keeps the non-whitespace characters. */
  lemma StripParts(s: string, a: nat, b: nat)
    requires a + b <= |s|
    requires AllSpace(s[..a]) && AllSpace(s[a..][b..])
    ensures NonSpace(s[a..][..b]) == NonSpace(s)
    ensures AllSpace(s[a + b..])
  {
    var t := s[a..];
    assert s == s[..a] + t;
    TakeDrop(t, b);
    NonSpaceAppend(s[..a], t);
    NonSpaceAppend(t[..b], t[b..]);
    NonSpaceEmpty(s[..a]);
    NonSpaceEmpty(t[b..]);
    assert s[a + b..] == t[b..];
  }

  /** `str.strip()`: `s` without its leading and trailing whitespace. The result is the
      slice of `s` that starts at the first non-whitespace character and ends after the
      last one; everything cut off on either side is whitespace. */
  function Strip(s: string): (r: string)
    ensures LeadingSpaces(s) + |r| <= |s|
    ensures r == s[LeadingSpaces(s)..LeadingSpaces(s) + |r|]
    ensures AllSpace(s[LeadingSpaces(s) + |r|..])
    ensures Stripped(r)
    ensures NonSpace(r) == NonSpace(s)
  {
    var a := LeadingSpaces(s);
    var t := s[a..];
    var b := |t| - TrailingSpaces(t);
    StripParts(s, a, b);
    t[..b]
  }

  /** `str.strip()` leaves a string with no whitespace at either end unchanged. */
  lemma StripStripped(s: string)
    requires Stripped(s)
    ensures Strip(s) == s
  {
    assert LeadingSpaces(s) == 0;
  }
}
