/**
 * JavaScript white space (the set that `String.prototype.trim` removes and
 * that `\s` matches), trimming, and the name normalisation
 * `s.trim().replace(/\s+/g, ' ')`.
 */
module JsText {

  /** The single code points of WhiteSpace and LineTerminator in ECMAScript. */
  const SpaceCodes: set<int> :=
    {0x09, 0x0A, 0x0B, 0x0C, 0x0D, 0x20, 0xA0, 0x1680, 0x2028, 0x2029, 0x202F, 0x205F, 0x3000, 0xFEFF}

  /** WhiteSpace or LineTerminator in ECMAScript: those code points and U+2000 to U+200A. */
  predicate IsSpace(c: char) {
    c as int in SpaceCodes || 0x2000 <= c as int <= 0x200A
  }

  predicate AllSpace(s: string) {
    forall i :: 0 <= i < |s| ==> IsSpace(s[i])
  }

  /** Drops the white space at the front (`trimStart`). */
  function TrimStart(s: string): (r: string)
    ensures |r| <= |s| && r == s[|s| - |r|..]
    ensures AllSpace(s[..|s| - |r|])
    ensures r == [] || !IsSpace(r[0])
  {
    if s != [] && IsSpace(s[0]) then TrimStart(s[1..]) else s
  }

  /** Drops the white space at the end (`trimEnd`). */
  function TrimEnd(s: string): (r: string)
    ensures |r| <= |s| && r == s[..|r|]
    ensures AllSpace(s[|r|..])
    ensures r == [] || !IsSpace(r[|r| - 1])
  {
    if s != [] && IsSpace(s[|s| - 1]) then
      var r := TrimEnd(s[..|s| - 1]);
      SpaceTail(s, |r|);
      r
    else s
  }

  /** White space after `k` in all of `s` but its last character, which is white space too. */
  lemma SpaceTail(s: string, k: nat)
    requires s != [] && IsSpace(s[|s| - 1]) && k <= |s| - 1 && AllSpace(s[..|s| - 1][k..])
    ensures AllSpace(s[k..])
  {
    forall i | 0 <= i < |s[k..]|
      ensures IsSpace(s[k..][i])
    {
      if i < |s| - 1 - k {
        assert s[k..][i] == s[..|s| - 1][k..][i];
      }
    }
  }

  /** `s.trim()`: no white space is left at either end, and every other character stays. */
  function Trim(s: string): (r: string)
    ensures Trimmed(r)
    ensures NonSpace(r) == NonSpace(s)
  {
    var t := TrimStart(s);
    var r := TrimEnd(t);
    assert r == [] || r[0] == t[0];
    TrimStartKeepsContent(s);
    TrimEndKeepsContent(t);
    r
  }

  /** The characters of `s` that are not white space, in order. */
  function NonSpace(s: string): string
    decreases |s|
  {
    if s == [] then []
    else (if IsSpace(s[0]) then [] else [s[0]]) + NonSpace(s[1..])
  }

  lemma {:induction false} NonSpaceAppend(a: string, b: string)
    ensures NonSpace(a + b) == NonSpace(a) + NonSpace(b)
    decreases |a|
  {
    if a != [] {
      var head := if IsSpace(a[0]) then [] else [a[0]];
      assert (a + b)[0] == a[0] && (a + b)[1..] == a[1..] + b;
      NonSpaceAppend(a[1..], b);
      assert NonSpace(a + b) == head + NonSpace(a[1..] + b);
      assert NonSpace(a) == head + NonSpace(a[1..]);
      assert head + (NonSpace(a[1..]) + NonSpace(b)) == (head + NonSpace(a[1..])) + NonSpace(b);
    } else {
      assert a + b == b;
    }
  }

  lemma {:induction false} NonSpaceOfSpace(s: string)
    requires AllSpace(s)
    ensures NonSpace(s) == []
    decreases |s|
  {
    if s != [] {
      NonSpaceOfSpace(s[1..]);
    }
  }

  lemma {:induction false} TrimStartKeepsContent(s: string)
    ensures NonSpace(TrimStart(s)) == NonSpace(s)
    decreases |s|
  {
    if s != [] && IsSpace(s[0]) {
      TrimStartKeepsContent(s[1..]);
    }
  }

  lemma TrimEndKeepsContent(s: string)
    ensures NonSpace(TrimEnd(s)) == NonSpace(s)
  {
    var r := TrimEnd(s);
    assert s == r + s[|r|..];
    NonSpaceAppend(r, s[|r|..]);
    NonSpaceOfSpace(s[|r|..]);
  }

  /** Neither end of `s` is white space. */
  predicate Trimmed(s: string) {
    s == [] || (!IsSpace(s[0]) && !IsSpace(s[|s| - 1]))
  }

  /** Every white space character is a plain space followed by a non-space. */
  predicate NoSpaceRuns(s: string) {
    forall i :: 0 <= i < |s| && IsSpace(s[i]) ==>
      s[i] == ' ' && (i + 1 < |s| ==> !IsSpace(s[i + 1]))
  }

  /** The shape of a stored user name. */
  predicate NormalizedName(s: string) {
    Trimmed(s) && NoSpaceRuns(s)
  }

  /** `s.replace(/\s+/g, ' ')`: every maximal run of white space becomes one space. */
  function CollapseSpaces(s: string): (r: string)
    ensures r == [] <==> s == []
    ensures s != [] ==> r[0] == if IsSpace(s[0]) then ' ' else s[0]
    decreases |s|
  {
    if s == [] then []
    else if IsSpace(s[0]) then [' '] + CollapseSpaces(TrimStart(s))
    else [s[0]] + CollapseSpaces(s[1..])
  }

  /**
   * `s.trim().replace(/\s+/g, ' ')`, the name normalisation of user creation:
   * a name in normal form that keeps every character of `s` but white space.
   */
  function NormalizeName(s: string): (r: string)
    ensures NormalizedName(r)
    ensures NonSpace(r) == NonSpace(s)
  {
    var t := Trim(s);
    CollapseSpacesNoRuns(t);
    CollapseSpacesTrimmed(t);
    CollapseKeepsContent(t);
    CollapseSpaces(t)
  }

  /** Trimming a string that has no white space at its ends changes nothing. */
  lemma TrimOfTrimmed(s: string)
    requires Trimmed(s)
    ensures Trim(s) == s
  {
  }

  /** Trim removes exactly white-space padding from both ends. */
  lemma {:induction false} TrimPadding(pre: string, t: string, post: string)
    requires AllSpace(pre) && AllSpace(post) && Trimmed(t)
    ensures Trim(pre + t + post) == t
  {
    if t == [] {
      assert pre + t + post == pre + post;
      assert AllSpace(pre + post);
      TrimStartEmpty(pre + post);
    } else {
      assert pre + t + post == pre + (t + post);
      TrimStartPadding(pre, t + post);
      TrimEndPadding(t, post);
    }
  }

  lemma {:induction false} TrimStartPadding(pre: string, rest: string)
    requires AllSpace(pre) && (rest == [] || !IsSpace(rest[0]))
    ensures TrimStart(pre + rest) == rest
  {
    if pre != [] {
      assert (pre + rest)[1..] == pre[1..] + rest;
      TrimStartPadding(pre[1..], rest);
    }
  }

  lemma {:induction false} TrimEndPadding(t: string, post: string)
    requires AllSpace(post) && (t == [] || !IsSpace(t[|t| - 1]))
    ensures TrimEnd(t + post) == t
  {
    if post != [] {
      var p := post[..|post| - 1];
      assert (t + post)[..|t + post| - 1] == t + p;
      TrimEndPadding(t, p);
    }
  }

  /** Collapsing never leaves a run of white space or a tab, newline or other space. */
  lemma {:induction false} CollapseSpacesNoRuns(s: string)
    ensures NoSpaceRuns(CollapseSpaces(s))
    decreases |s|
  {
    if s != [] {
      var rest := if IsSpace(s[0]) then TrimStart(s) else s[1..];
      CollapseSpacesNoRuns(rest);
      var r := CollapseSpaces(rest);
      assert CollapseSpaces(s) == [if IsSpace(s[0]) then ' ' else s[0]] + r;
      if IsSpace(s[0]) && r != [] {
        assert rest != [] && !IsSpace(rest[0]);
        assert !IsSpace(r[0]);
      }
    }
  }

  /** Collapsing keeps a last character that is not white space. */
  lemma {:induction false} CollapseSpacesLast(s: string)
    requires s != [] && !IsSpace(s[|s| - 1])
    ensures CollapseSpaces(s) != []
    ensures CollapseSpaces(s)[|CollapseSpaces(s)| - 1] == s[|s| - 1]
    decreases |s|
  {
    var rest := if IsSpace(s[0]) then TrimStart(s) else s[1..];
    var head := if IsSpace(s[0]) then ' ' else s[0];
    assert CollapseSpaces(s) == [head] + CollapseSpaces(rest);
    if rest != [] {
      assert rest[|rest| - 1] == s[|s| - 1];
      CollapseSpacesLast(rest);
    }
  }

  /** Collapsing a string without runs of white space changes nothing. */
  lemma {:induction false} CollapseSpacesFixed(s: string)
    requires NoSpaceRuns(s)
    ensures CollapseSpaces(s) == s
    decreases |s|
  {
    if s != [] {
      assert NoSpaceRuns(s[1..]) by {
        forall i | 0 <= i < |s[1..]| && IsSpace(s[1..][i])
          ensures s[1..][i] == ' ' && (i + 1 < |s[1..]| ==> !IsSpace(s[1..][i + 1]))
        {
          assert s[1..][i] == s[i + 1];
        }
      }
      if IsSpace(s[0]) {
        assert TrimStart(s) == s[1..] by {
          assert |s| > 1 ==> !IsSpace(s[1]);
          assert TrimStart(s) == TrimStart(s[1..]);
        }
      }
      CollapseSpacesFixed(s[1..]);
    }
  }

  /** Collapsing keeps a string free of white space at its ends. */
  lemma CollapseSpacesTrimmed(t: string)
    requires Trimmed(t)
    ensures Trimmed(CollapseSpaces(t))
  {
    if t != [] {
      CollapseSpacesLast(t);
    }
  }

  /** Collapsing drops or replaces only white space: every other character stays, in order. */
  lemma {:induction false} CollapseKeepsContent(s: string)
    ensures NonSpace(CollapseSpaces(s)) == NonSpace(s)
    decreases |s|
  {
    if s != [] {
      var rest := if IsSpace(s[0]) then TrimStart(s) else s[1..];
      var head := if IsSpace(s[0]) then ' ' else s[0];
      if IsSpace(s[0]) {
        assert TrimStart(s) == TrimStart(s[1..]);
        TrimStartKeepsContent(s[1..]);
      }
      CollapseKeepsContent(rest);
      assert CollapseSpaces(s) == [head] + CollapseSpaces(rest);
      assert ([head] + CollapseSpaces(rest))[1..] == CollapseSpaces(rest);
    }
  }

  /** Dropping leading white space from a text that ends in a non-space commutes with appending. */
  lemma {:induction false} TrimStartAppend(a: string, b: string)
    requires a != [] && !IsSpace(a[|a| - 1])
    ensures TrimStart(a + b) == TrimStart(a) + b
    decreases |a|
  {
    if IsSpace(a[0]) {
      assert (a + b)[1..] == a[1..] + b;
      TrimStartAppend(a[1..], b);
    }
  }

  /** Text that ends in a non-space is collapsed on its own: no run crosses its end. */
  lemma {:induction false} CollapseAppend(x: string, y: string)
    requires x == [] || !IsSpace(x[|x| - 1])
    ensures CollapseSpaces(x + y) == CollapseSpaces(x) + CollapseSpaces(y)
    decreases |x|
  {
    if x == [] {
      assert x + y == y;
    } else {
      var rest := CollapseFront(x, y);
      CollapseAppend(rest, y);
      AppendAssoc([if IsSpace(x[0]) then ' ' else x[0]], CollapseSpaces(rest), CollapseSpaces(y));
    }
  }

  /** One run of white space between two non-spaces becomes exactly one plain space. */
  lemma CollapseRun(a: string, w: string, b: string)
    requires w != [] && AllSpace(w)
    requires a == [] || !IsSpace(a[|a| - 1])
    requires b == [] || !IsSpace(b[0])
    ensures CollapseSpaces(a + w + b) == CollapseSpaces(a) + " " + CollapseSpaces(b)
  {
    AppendAssoc(a, w, b);
    CollapseAppend(a, w + b);
    CollapseLeadingRun(w, b);
    AppendAssoc(CollapseSpaces(a), " ", CollapseSpaces(b));
  }

  lemma AppendAssoc(x: string, y: string, z: string)
    ensures x + (y + z) == x + y + z
  {
  }

  /** White space at the front collapses to one plain space. */
  lemma CollapseLeadingRun(w: string, b: string)
    requires w != [] && AllSpace(w) && (b == [] || !IsSpace(b[0]))
    ensures CollapseSpaces(w + b) == " " + CollapseSpaces(b)
  {
    assert (w + b)[0] == w[0];
    TrimStartPadding(w, b);
  }

  /** The first step of collapsing `a` is the same with or without a tail after it. */
  lemma CollapseFront(a: string, c: string) returns (rest: string)
    requires a != [] && !IsSpace(a[|a| - 1])
    ensures |rest| < |a| && (rest == [] || rest[|rest| - 1] == a[|a| - 1])
    ensures CollapseSpaces(a) == [if IsSpace(a[0]) then ' ' else a[0]] + CollapseSpaces(rest)
    ensures CollapseSpaces(a + c) == [if IsSpace(a[0]) then ' ' else a[0]] + CollapseSpaces(rest + c)
  {
    assert (a + c)[0] == a[0];
    if IsSpace(a[0]) {
      rest := TrimStart(a);
      TrimStartAppend(a, c);
      assert TrimStart(a) == TrimStart(a[1..]);
    } else {
      rest := a[1..];
      assert (a + c)[1..] == rest + c;
    }
  }

  /** Normalising an already normalised name changes nothing. */
  lemma NormalizedNameFixed(s: string)
    requires NormalizedName(s)
    ensures NormalizeName(s) == s
  {
    TrimOfTrimmed(s);
    CollapseSpacesFixed(s);
  }

  /** Normalising twice gives the same name as normalising once. */
  lemma NormalizeNameIdempotent(s: string)
    ensures NormalizeName(NormalizeName(s)) == NormalizeName(s)
  {
    NormalizedNameFixed(NormalizeName(s));
  }

  /** Trimming at the front leaves nothing exactly when the string is all white space. */
  lemma {:induction false} TrimStartEmpty(s: string)
    ensures TrimStart(s) == [] <==> AllSpace(s)
  {
    if s != [] && IsSpace(s[0]) {
      TrimStartEmpty(s[1..]);
      assert AllSpace(s) <==> AllSpace(s[1..]);
    }
  }

  /** The normalised name is empty exactly when the input is all white space. */
  lemma NormalizeNameEmpty(s: string)
    ensures NormalizeName(s) == [] <==> AllSpace(s)
  {
    TrimStartEmpty(s);
  }
}
