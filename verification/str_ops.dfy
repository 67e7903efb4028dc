/** The three `str` operations the event engine relies on: `trim`,
    `starts_with` and `ends_with`, on strings as sequences of characters. */
module StrOps {

  /** The Unicode White_Space property, which is what `char::is_whitespace`
      (and therefore `str::trim`) tests. */
  predicate IsSpace(c: char) {
    ('\U{9}' <= c <= '\U{D}') || c == ' ' || c == '\U{85}' || c == '\U{A0}'
    || c == '\U{1680}' || ('\U{2000}' <= c <= '\U{200A}') || c == '\U{2028}'
    || c == '\U{2029}' || c == '\U{202F}' || c == '\U{205F}' || c == '\U{3000}'
  }

  predicate AllSpace(s: string) {
    forall i :: 0 <= i < |s| ==> IsSpace(s[i])
  }

  /** The length of the whitespace run that starts `s`. */
  function LeadingSpaces(s: string): (n: nat)
    ensures n <= |s|
  {
    if s != [] && IsSpace(s[0]) then 1 + LeadingSpaces(s[1..]) else 0
  }

  /** The length of the whitespace run that ends `s`. */
  function TrailingSpaces(s: string): (n: nat)
    ensures n <= |s|
  {
    if s != [] && IsSpace(s[|s| - 1]) then 1 + TrailingSpaces(s[..|s| - 1]) else 0
  }

  /** `str::trim_start`. */
  function TrimStart(s: string): string {
    s[LeadingSpaces(s)..]
  }

  /** `str::trim_end`. */
  function TrimEnd(s: string): string {
    s[..|s| - TrailingSpaces(s)]
  }

  /** `str::trim`. */
  function Trim(s: string): (r: string)
    ensures |r| <= |s|
  {
    TrimEnd(TrimStart(s))
  }

  /** `str::starts_with` with a string pattern, compared character by
      character. */
  predicate StartsWith(s: string, prefix: string) {
    prefix == [] || (s != [] && s[0] == prefix[0] && StartsWith(s[1..], prefix[1..]))
  }

  /** `StartsWith` holds exactly when `prefix` is the first part of `s`. */
  lemma {:induction false} StartsWithIsPrefix(s: string, prefix: string)
    ensures StartsWith(s, prefix) <==> |prefix| <= |s| && s[..|prefix|] == prefix
  {
    if prefix != [] && s != [] {
      StartsWithIsPrefix(s[1..], prefix[1..]);
      if s[0] == prefix[0] && |prefix| <= |s| {
        assert s[..|prefix|] == [s[0]] + s[1..][..|prefix| - 1];
        assert prefix == [prefix[0]] + prefix[1..];
      }
    }
  }

  /** `str::ends_with` with a `char` pattern. */
  predicate EndsWith(s: string, c: char) {
    |s| > 0 && s[|s| - 1] == c
  }

  /** The leading run stops at the first character that is not whitespace. */
  lemma {:induction false} LeadingSpacesStop(s: string)
    ensures LeadingSpaces(s) < |s| ==> !IsSpace(s[LeadingSpaces(s)])
  {
    if s != [] && IsSpace(s[0]) {
      LeadingSpacesStop(s[1..]);
    }
  }

  /** The trailing run stops at the last character that is not whitespace. */
  lemma {:induction false} TrailingSpacesStop(s: string)
    ensures TrailingSpaces(s) < |s| ==> !IsSpace(s[|s| - 1 - TrailingSpaces(s)])
  {
    if s != [] && IsSpace(s[|s| - 1]) {
      TrailingSpacesStop(s[..|s| - 1]);
    }
  }

  /** The trimmed text neither starts nor ends with whitespace. */
  lemma TrimUnpaddedResult(s: string)
    ensures Trim(s) == [] || (!IsSpace(Trim(s)[0]) && !IsSpace(Trim(s)[|Trim(s)| - 1]))
  {
    var t := TrimStart(s);
    LeadingSpacesStop(s);
    TrailingSpacesStop(t);
  }

  /** The leading run is whitespace. */
  lemma {:induction false} LeadingSpacesAreSpace(s: string)
    ensures AllSpace(s[..LeadingSpaces(s)])
  {
    if s != [] && IsSpace(s[0]) {
      LeadingSpacesAreSpace(s[1..]);
      forall i | 1 <= i < LeadingSpaces(s)
        ensures IsSpace(s[i])
      {
        assert s[i] == s[1..][..LeadingSpaces(s[1..])][i - 1];
      }
    }
  }

  /** The trailing run is whitespace. */
  lemma {:induction false} TrailingSpacesAreSpace(s: string)
    ensures AllSpace(s[|s| - TrailingSpaces(s)..])
  {
    if s != [] && IsSpace(s[|s| - 1]) {
      var init := s[..|s| - 1];
      TrailingSpacesAreSpace(init);
      forall i | |s| - TrailingSpaces(s) <= i < |s| - 1
        ensures IsSpace(s[i])
      {
        assert s[i] == init[|init| - TrailingSpaces(init)..][i - (|init| - TrailingSpaces(init))];
      }
    }
  }

  /** Whitespace in front of `t` lengthens its leading run by its length. */
  lemma {:induction false} LeadingSpacesSkip(a: string, t: string)
    requires AllSpace(a)
    ensures LeadingSpaces(a + t) == |a| + LeadingSpaces(t)
  {
    if a == [] {
      assert a + t == t;
    } else {
      assert (a + t)[1..] == a[1..] + t;
      LeadingSpacesSkip(a[1..], t);
    }
  }

  /** Text behind a string that is not all whitespace does not change its
      leading run. */
  lemma {:induction false} LeadingSpacesAppend(s: string, b: string)
    requires LeadingSpaces(s) < |s|
    ensures LeadingSpaces(s + b) == LeadingSpaces(s)
  {
    if IsSpace(s[0]) {
      assert (s + b)[1..] == s[1..] + b;
      LeadingSpacesAppend(s[1..], b);
    }
  }

  /** Whitespace behind `t` lengthens its trailing run by its length. */
  lemma {:induction false} TrailingSpacesSkip(t: string, b: string)
    requires AllSpace(b)
    ensures TrailingSpaces(t + b) == |b| + TrailingSpaces(t)
  {
    if b == [] {
      assert t + b == t;
    } else {
      var s := t + b;
      assert s[..|s| - 1] == t + b[..|b| - 1];
      TrailingSpacesSkip(t, b[..|b| - 1]);
    }
  }

  /** `s` splits into its leading whitespace, `Trim(s)` and its trailing
      whitespace. */
  lemma TrimSplits(s: string) returns (lead: string, trail: string)
    ensures AllSpace(lead) && AllSpace(trail)
    ensures s == lead + Trim(s) + trail
  {
    var t := TrimStart(s);
    lead := s[..LeadingSpaces(s)];
    trail := t[|t| - TrailingSpaces(t)..];
    LeadingSpacesAreSpace(s);
    TrailingSpacesAreSpace(t);
    assert s == lead + t;
    assert t == Trim(s) + trail;
  }

  /** A string made only of whitespace trims to the empty string. */
  lemma {:induction false} TrimAllSpace(s: string)
    requires AllSpace(s)
    ensures LeadingSpaces(s) == |s|
    ensures Trim(s) == []
  {
    if s != [] {
      TrimAllSpace(s[1..]);
    }
  }

  /** Leading whitespace is what `trim_start` removes. */
  lemma TrimStartSkipsSpace(a: string, t: string)
    requires AllSpace(a)
    ensures TrimStart(a + t) == TrimStart(t)
  {
    LeadingSpacesSkip(a, t);
  }

  /** `trim_start` of a string that is not all whitespace leaves what
      follows it alone. */
  lemma TrimStartAppend(s: string, b: string)
    requires LeadingSpaces(s) < |s|
    ensures TrimStart(s + b) == TrimStart(s) + b
  {
    var n := LeadingSpaces(s);
    LeadingSpacesAppend(s, b);
    SliceAppend(s, b, n);
  }

  /** Dropping a prefix of `s` commutes with appending to it. */
  lemma SliceAppend(s: string, b: string, n: nat)
    requires n <= |s|
    ensures (s + b)[n..] == s[n..] + b
  {
  }

  /** Trailing whitespace is what `trim_end` removes. */
  lemma TrimEndSkipsSpace(t: string, b: string)
    requires AllSpace(b)
    ensures TrimEnd(t + b) == TrimEnd(t)
  {
    TrailingSpacesSkip(t, b);
  }

  /** Surrounding whitespace of any kind, such as a line's trailing newline,
      does not change the trimmed text. */
  lemma TrimIgnoresPadding(lead: string, s: string, trail: string)
    requires AllSpace(lead) && AllSpace(trail)
    ensures Trim(lead + s + trail) == Trim(s)
  {
    var whole := lead + s + trail;
    assert whole == lead + (s + trail);
    TrimStartSkipsSpace(lead, s + trail);
    if LeadingSpaces(s) == |s| {
      LeadingSpacesAreSpace(s);
      assert s[..LeadingSpaces(s)] == s;
      assert AllSpace(whole);
      TrimAllSpace(whole);
    } else {
      TrimStartAppend(s, trail);
      TrimEndSkipsSpace(TrimStart(s), trail);
    }
  }

  /** A string with no surrounding whitespace is its own trimmed text. */
  lemma TrimUnpadded(s: string)
    requires s == [] || (!IsSpace(s[0]) && !IsSpace(s[|s| - 1]))
    ensures Trim(s) == s
  {
  }

  /** Trimming twice is trimming once. */
  lemma TrimIdempotent(s: string)
    ensures Trim(Trim(s)) == Trim(s)
  {
    TrimUnpaddedResult(s);
    TrimUnpadded(Trim(s));
  }
}
