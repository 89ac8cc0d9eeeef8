/** Character classes and trimming with JavaScript's meaning. */
module Text {

  /** The code points JavaScript's `\s` matches and `String.prototype.trim`
      removes: the ECMAScript WhiteSpace and LineTerminator characters. */
  predicate IsWhitespace(c: char) {
    || c == '\t' || c == '\n' || c == '\U{000B}' || c == '\U{000C}' || c == '\r'
    || c == ' ' || c == '\U{00A0}' || c == '\U{1680}'
    || ('\U{2000}' <= c <= '\U{200A}')
    || c == '\U{2028}' || c == '\U{2029}' || c == '\U{202F}' || c == '\U{205F}'
    || c == '\U{3000}' || c == '\U{FEFF}'
  }

  /** No whitespace at either end. */
  predicate IsTrimmed(s: string) {
    s == [] || (!IsWhitespace(s[0]) && !IsWhitespace(s[|s| - 1]))
  }

  /** How many whitespace characters `s` starts with. */
  function LeadingSpace(s: string): (k: nat)
    ensures k <= |s|
    ensures forall i :: 0 <= i < k ==> IsWhitespace(s[i])
    ensures k < |s| ==> !IsWhitespace(s[k])
  {
    if s != [] && IsWhitespace(s[0]) then 1 + LeadingSpace(s[1..]) else 0
  }

  /** How many whitespace characters `s` ends with. */
  function TrailingSpace(s: string): (k: nat)
    ensures k <= |s|
    ensures forall i :: |s| - k <= i < |s| ==> IsWhitespace(s[i])
    ensures k < |s| ==> !IsWhitespace(s[|s| - 1 - k])
  {
    if s != [] && IsWhitespace(s[|s| - 1]) then 1 + TrailingSpace(s[..|s| - 1]) else 0
  }

  /** `s` without its leading whitespace. */
  function TrimStart(s: string): (r: string)
    ensures |r| <= |s| && r == s[|s| - |r|..]
    ensures r == [] || !IsWhitespace(r[0])
    ensures forall i :: 0 <= i < |s| - |r| ==> IsWhitespace(s[i])
  {
    s[LeadingSpace(s)..]
  }

  /** `s` without its trailing whitespace. */
  function TrimEnd(s: string): (r: string)
    ensures |r| <= |s| && r == s[..|r|]
    ensures r == [] || !IsWhitespace(r[|r| - 1])
    ensures forall i :: |r| <= i < |s| ==> IsWhitespace(s[i])
  {
    s[..|s| - TrailingSpace(s)]
  }

  /** `String.prototype.trim`: the slice of `s` left once the whitespace at
      both ends is gone. */
  function Trim(s: string): (r: string)
    ensures IsTrimmed(r)
    ensures |r| <= |TrimStart(s)| <= |s|
    ensures var a := |s| - |TrimStart(s)|;
      && r == s[a..a + |r|]
      && (forall i :: 0 <= i < a ==> IsWhitespace(s[i]))
      && (forall i :: a + |r| <= i < |s| ==> IsWhitespace(s[i]))
  {
    TrimEndOfTrimStart(s);
    TrimEnd(TrimStart(s))
  }

  /** Where the result of trimming both ends sits in `s`. */
  lemma TrimEndOfTrimStart(s: string)
    ensures var t := TrimStart(s);
      var r, a := TrimEnd(t), |s| - |t|;
      && IsTrimmed(r)
      && |r| <= |t| <= |s|
      && r == s[a..a + |r|]
      && (forall i :: 0 <= i < a ==> IsWhitespace(s[i]))
      && (forall i :: a + |r| <= i < |s| ==> IsWhitespace(s[i]))
  {
    var t := TrimStart(s);
    var r, a := TrimEnd(t), |s| - |t|;
    SliceOfSuffix(s, a, |r|);
    forall i | a + |r| <= i < |s|
      ensures IsWhitespace(s[i])
    {
      assert s[i] == t[i - a];
    }
    if r != [] {
      assert r[0] == t[0];
    }
  }

  /** The first `k` characters of the suffix from `a` are `s[a..a + k]`. */
  lemma SliceOfSuffix(s: string, a: nat, k: nat)
    requires a + k <= |s|
    ensures s[a..][..k] == s[a..a + k]
  {
  }

  /** Trimming a string that has no whitespace at its ends changes nothing. */
  lemma TrimOfTrimmed(s: string)
    requires IsTrimmed(s)
    ensures Trim(s) == s
  {
  }

  /** A whitespace run followed by text that does not start with
      whitespace: trimming the start drops exactly the run. */
  lemma TrimStartAfterBlank(w: string, b: string)
    requires forall i :: 0 <= i < |w| ==> IsWhitespace(w[i])
    requires b == [] || !IsWhitespace(b[0])
    ensures TrimStart(w + b) == b
  {
    LeadingSpaceOfBlank(w, b);
    DropPrefix(w, b);
  }

  /** The leading whitespace of a whitespace run followed by text that does
      not start with whitespace is exactly the run. */
  lemma {:induction false} LeadingSpaceOfBlank(w: string, b: string)
    requires forall i :: 0 <= i < |w| ==> IsWhitespace(w[i])
    requires b == [] || !IsWhitespace(b[0])
    ensures LeadingSpace(w + b) == |w|
    decreases |w|
  {
    if w != [] {
      HeadSplit(w, b);
      ConsTail(w[0], w[1..] + b);
      LeadingSpaceOfBlank(w[1..], b);
    } else {
      assert w + b == b;
    }
  }

  /** Trimming the start of text that holds a non-whitespace character
      only touches that text, not what follows it. */
  lemma TrimStartConcat(a: string, x: string)
    requires a != [] && !IsWhitespace(a[|a| - 1])
    ensures TrimStart(a + x) == TrimStart(a) + x
  {
    var s, t, r := a + x, TrimStart(a), TrimStart(a + x);
    var p, q := |a| - |t|, |s| - |r|;
    assert 0 < |t| by {
      assert !IsWhitespace(a[|a| - 1]);
    }
    assert q <= p by {
      assert s[p] == t[0];
    }
    assert p <= q by {
      assert forall i :: 0 <= i < p ==> s[i] == a[i];
      assert r == [] || r[0] == s[q];
    }
    assert r == s[p..] == a[p..] + x;
  }

  /** Trimming trimmed text followed by one space gives the text back. */
  lemma TrimTrailingSpace(u: string)
    requires u != [] && IsTrimmed(u)
    ensures Trim(u + " ") == u
  {
    var s, r := u + " ", Trim(u + " ");
    assert s[0] == u[0];
    TrimStartAfterBlank([], s);
    assert [] + s == s;
    assert r == s[..|r|];
    assert |r| <= |u| by {
      assert s[|s| - 1] == ' ';
      assert r == [] || r[|r| - 1] == s[|r| - 1];
    }
    assert |u| <= |r| by {
      assert s[|u| - 1] == u[|u| - 1];
    }
  }

  /** One leading space in front of a visible character is all that
      trimming the start removes, so trimming only trims the end. */
  lemma TrimLeadingBlank(v: string)
    requires v != [] && !IsWhitespace(v[0])
    ensures Trim(" " + v) == TrimEnd(v)
  {
    TrimStartAfterBlank(" ", v);
  }

  /** Trimming the end keeps everything up to a visible character. */
  lemma TrimEndKeepsPrefix(v: string, n: nat)
    requires 1 <= n <= |v| && !IsWhitespace(v[n - 1])
    ensures n <= |TrimEnd(v)| && TrimEnd(v)[..n] == v[..n]
  {
    var r := TrimEnd(v);
    assert n <= |r| by {
      assert !IsWhitespace(v[n - 1]);
    }
    assert r[..n] == v[..|r|][..n];
  }

  // Identities about concatenation and slicing, stated once so that proofs
  // by recursion can cite them instead of rediscovering them.

  /** A string is its first `k` characters followed by the rest. */
  lemma TakeDrop(s: string, k: nat)
    requires k <= |s|
    ensures s[..k] + s[k..] == s
  {
  }

  /** A non-empty string followed by more text is its head, then its tail
      followed by that text. */
  lemma HeadSplit(w: string, x: string)
    requires w != []
    ensures w + x == [w[0]] + (w[1..] + x)
  {
    assert w == [w[0]] + w[1..];
  }

  /** What follows a leading character. */
  lemma ConsTail(c: char, z: string)
    ensures ([c] + z)[0] == c && ([c] + z)[1..] == z
  {
  }

  /** What follows a prefix. */
  lemma DropPrefix(e: string, x: string)
    ensures e <= e + x && (e + x)[|e|..] == x
  {
  }

  /** Appending nothing. */
  lemma AppendEmpty(a: string)
    ensures a + [] == a
  {
  }

  /** Concatenation is associative. */
  lemma Assoc(a: string, b: string, c: string)
    ensures a + b + c == a + (b + c)
  {
  }

  /** A non-empty string is its head followed by its tail. */
  lemma Uncons(s: string)
    requires s != []
    ensures s == [s[0]] + s[1..]
  {
  }

  /** A string is what comes before position `i`, the character there, and
      what comes after. */
  lemma Around(s: string, i: nat)
    requires i < |s|
    ensures s == s[..i] + [s[i]] + s[i + 1..]
  {
  }

  /** Indexing into the middle part of a concatenation. */
  lemma MiddleAt(x: string, y: string, z: string, k: nat)
    requires k < |y|
    ensures |x| + k < |x + y + z| && (x + y + z)[|x| + k] == y[k]
  {
  }
}
