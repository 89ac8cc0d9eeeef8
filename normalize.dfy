/** `stripHtmlAndDecode` and the first-sentence extraction that feeds the
    message: decode references, blank out tag-like runs, collapse whitespace,
    trim, cut at the first sentence mark. */
module Normalize {
  import opened Text
  import Entities

  /** The index of the first `>` in `s`, or `|s|` when there is none. */
  function IndexOfClose(s: string): (k: nat)
    ensures k <= |s|
    ensures forall i :: 0 <= i < k ==> s[i] != '>'
    ensures k < |s| ==> s[k] == '>'
  {
    if s == [] || s[0] == '>' then 0 else 1 + IndexOfClose(s[1..])
  }

  /** The first `m` characters of `s` match `<[^>]+>`: a `<`, at least one
      character other than `>`, then a `>`. */
  predicate IsTag(s: string, m: nat) {
    && 3 <= m <= |s| && s[0] == '<' && s[m - 1] == '>'
    && forall i :: 1 <= i < m - 1 ==> s[i] != '>'
  }

  /** The length of the match of `<[^>]+>` at the start of `s`, or 0: a `<`,
      at least one character up to the first `>`, and that `>`. */
  function TagLength(s: string): (n: nat)
    ensures n <= |s|
    ensures n > 0 ==> IsTag(s, n)
  {
    if s != [] && s[0] == '<' then
      var k := IndexOfClose(s[1..]);
      if 1 <= k < |s| - 1 then k + 2 else 0
    else 0
  }

  /** The tag pattern matches at the start of `s` in at most one way, and
      `TagLength` finds it: a result of 0 means no prefix of `s` is a tag. */
  lemma TagMatch(s: string)
    ensures forall m: nat :: IsTag(s, m) ==> m == TagLength(s)
  {
    forall m: nat | IsTag(s, m)
      ensures m == TagLength(s)
    {
      var k := IndexOfClose(s[1..]);
      assert s[1..][m - 2] == '>';
      forall i | 0 <= i < m - 2
        ensures s[1..][i] != '>'
      {
        assert s[1..][i] == s[i + 1];
      }
      assert k == m - 2;
    }
  }

  /** No substring of `s` matches `<[^>]+>`: after a `<` either a `>`
      follows at once or no `>` follows at all. */
  predicate TagFree(s: string) {
    forall i, k, j ::
      0 <= i < |s| && 0 <= k < |s| && 0 <= j < |s| && k == i + 1 && k < j && s[i] == '<' && s[j] == '>'
      ==> s[k] == '>'
  }

  /** `.replace(/<[^>]+>/g, " ")`: every tag-like run becomes one space. */
  function StripTags(s: string): (r: string)
    ensures '>' !in s ==> '>' !in r
    ensures s != [] && s[0] == '>' ==> r != [] && r[0] == '>'
    decreases |s|
  {
    if s == [] then []
    else
      var n := TagLength(s);
      if n > 0 then " " + StripTags(s[n..]) else [s[0]] + StripTags(s[1..])
  }

  /** Putting `c` in front of tag-free text keeps it tag-free when `c` is not
      a `<` that could open a tag. */
  lemma ConsTagFree(c: char, x: string)
    requires TagFree(x)
    requires c == '<' ==> (x != [] && x[0] == '>') || '>' !in x
    ensures TagFree([c] + x)
  {
    var s := [c] + x;
    forall i, k, j | 0 <= i < |s| && 0 <= k < |s| && 0 <= j < |s| && k == i + 1 && k < j
      && s[i] == '<' && s[j] == '>'
      ensures s[k] == '>'
    {
      if i == 0 {
        assert x[j - 1] == '>';
      } else {
        assert x[i - 1] == '<' && x[j - 1] == '>';
      }
    }
  }

  /** Stripping leaves nothing that still matches the tag pattern. */
  lemma {:induction false} StripTagsTagFree(s: string)
    ensures TagFree(StripTags(s))
    decreases |s|
  {
    if s != [] {
      var n := TagLength(s);
      if n > 0 {
        StripTagsTagFree(s[n..]);
        ConsTagFree(' ', StripTags(s[n..]));
      } else {
        StripTagsTagFree(s[1..]);
        if s[0] == '<' {
          var k := IndexOfClose(s[1..]);
          if k < |s| - 1 {
            assert k == 0 && s[1..][0] == '>';
          } else {
            assert '>' !in s[1..];
          }
        }
        ConsTagFree(s[0], StripTags(s[1..]));
      }
    }
  }

  /** No two whitespace characters side by side. */
  predicate NoDoubleWhitespace(s: string) {
    forall i, j :: 0 <= i < |s| && 0 <= j < |s| && j == i + 1 ==> !(IsWhitespace(s[i]) && IsWhitespace(s[j]))
  }

  /** Every whitespace character is a plain space. */
  predicate OnlySpaces(s: string) {
    forall i :: 0 <= i < |s| && IsWhitespace(s[i]) ==> s[i] == ' '
  }

  /** The characters of `s` that are not whitespace, in order. */
  function Visible(s: string): string {
    if s == [] then []
    else (if IsWhitespace(s[0]) then [] else [s[0]]) + Visible(s[1..])
  }

  /** `.replace(/\s+/g, " ")`: every run of whitespace becomes one space. */
  function CollapseWhitespace(s: string): (r: string)
    ensures s == [] <==> r == []
    ensures s != [] ==> (IsWhitespace(r[0]) <==> IsWhitespace(s[0]))
    ensures s != [] && !IsWhitespace(s[0]) ==> r[0] == s[0]
    ensures NoDoubleWhitespace(r) && OnlySpaces(r)
    decreases |s|
  {
    if s == [] then []
    else if IsWhitespace(s[0]) then " " + CollapseWhitespace(TrimStart(s))
    else [s[0]] + CollapseWhitespace(s[1..])
  }

  /** A whitespace run between two non-whitespace characters becomes
      exactly one space, and the text on each side is collapsed on its own. */
  lemma {:induction false} CollapseAround(a: string, w: string, b: string)
    requires a == [] || !IsWhitespace(a[|a| - 1])
    requires w != [] && forall i :: 0 <= i < |w| ==> IsWhitespace(w[i])
    requires b == [] || !IsWhitespace(b[0])
    ensures CollapseWhitespace(a + w + b) == CollapseWhitespace(a) + " " + CollapseWhitespace(b)
    decreases |a|
  {
    Assoc(a, w, b);
    if a == [] {
      CollapseRunFirst(w, b);
    } else if IsWhitespace(a[0]) {
      var t := TrimStart(a);
      TrimStartConcat(a, w + b);
      assert t != [] && t[|t| - 1] == a[|a| - 1];
      CollapseAround(t, w, b);
      Assoc(t, w, b);
      CollapseBlankFirst(a, t, w + b, CollapseWhitespace(b));
    } else {
      var rest := a[1..];
      assert rest == [] || rest[|rest| - 1] == a[|a| - 1];
      CollapseAround(rest, w, b);
      Assoc(rest, w, b);
      CollapseVisibleFirst(a, w + b, CollapseWhitespace(b));
    }
  }

  /** Text that starts with a whitespace run collapses to one space, then
      the rest. */
  lemma CollapseRunFirst(w: string, b: string)
    requires w != [] && forall i :: 0 <= i < |w| ==> IsWhitespace(w[i])
    requires b == [] || !IsWhitespace(b[0])
    ensures CollapseWhitespace([] + (w + b)) == CollapseWhitespace([]) + " " + CollapseWhitespace(b)
  {
    var s := w + b;
    assert [] + s == s && s[0] == w[0];
    TrimStartAfterBlank(w, b);
    var cb := CollapseWhitespace(b);
    assert CollapseWhitespace(s) == " " + cb;
    assert CollapseWhitespace([]) + " " + cb == " " + cb;
  }

  /** One step of the induction, when `a` starts with whitespace. */
  lemma CollapseBlankFirst(a: string, t: string, x: string, cb: string)
    requires a != [] && IsWhitespace(a[0]) && t == TrimStart(a)
    requires TrimStart(a + x) == t + x
    requires CollapseWhitespace(t + x) == CollapseWhitespace(t) + " " + cb
    ensures CollapseWhitespace(a + x) == CollapseWhitespace(a) + " " + cb
  {
    var s := a + x;
    assert s[0] == a[0];
    var ct := CollapseWhitespace(t);
    assert CollapseWhitespace(s) == " " + (ct + " " + cb);
    assert CollapseWhitespace(a) == " " + ct;
    SpaceBetween(" ", ct, cb);
  }

  /** One step of the induction, when `a` starts with a visible character. */
  lemma CollapseVisibleFirst(a: string, x: string, cb: string)
    requires a != [] && !IsWhitespace(a[0])
    requires CollapseWhitespace(a[1..] + x) == CollapseWhitespace(a[1..]) + " " + cb
    ensures CollapseWhitespace(a + x) == CollapseWhitespace(a) + " " + cb
  {
    var s, rest := a + x, a[1..];
    assert s[0] == a[0] && s[1..] == rest + x;
    var ct := CollapseWhitespace(rest);
    assert CollapseWhitespace(s) == [a[0]] + (ct + " " + cb);
    assert CollapseWhitespace(a) == [a[0]] + ct;
    SpaceBetween([a[0]], ct, cb);
  }

  lemma SpaceBetween(p: string, q: string, r: string)
    ensures p + (q + " " + r) == p + q + " " + r
  {
  }

  /** Text without whitespace is left as it is by collapsing. */
  lemma {:induction false} CollapseNoWhitespace(s: string)
    requires forall c :: c in s ==> !IsWhitespace(c)
    ensures CollapseWhitespace(s) == s
    decreases |s|
  {
    if s != [] {
      var t := s[1..];
      assert s[0] in s && !IsWhitespace(s[0]);
      assert forall c :: c in t ==> c in s;
      CollapseNoWhitespace(t);
      assert CollapseWhitespace(s) == [s[0]] + t;
      Uncons(s);
    }
  }

  /** Dropping whitespace changes nothing visible. */
  lemma {:induction false} VisibleDropWhitespace(s: string, k: nat)
    requires k <= |s| && forall i :: 0 <= i < k ==> IsWhitespace(s[i])
    ensures Visible(s[k..]) == Visible(s)
  {
    if k > 0 {
      assert s[1..][k - 1..] == s[k..];
      VisibleDropWhitespace(s[1..], k - 1);
    }
  }

  /** Collapsing keeps every visible character, in order. */
  lemma {:induction false} CollapseVisible(s: string)
    ensures Visible(CollapseWhitespace(s)) == Visible(s)
    decreases |s|
  {
    if s != [] {
      var r := CollapseWhitespace(s);
      if IsWhitespace(s[0]) {
        var t := TrimStart(s);
        CollapseVisible(t);
        VisibleDropWhitespace(s, |s| - |t|);
        assert r == " " + CollapseWhitespace(t);
        assert r[1..] == CollapseWhitespace(t);
      } else {
        CollapseVisible(s[1..]);
        assert r[1..] == CollapseWhitespace(s[1..]);
      }
    }
  }

  /** A visible character is in the text exactly when it is in its visible part. */
  lemma {:induction false} InVisible(s: string, c: char)
    requires !IsWhitespace(c)
    ensures c in Visible(s) <==> c in s
  {
    if s != [] {
      InVisible(s[1..], c);
      assert s == [s[0]] + s[1..];
    }
  }

  /** Any slice of tag-free text is tag-free. */
  lemma TagFreeSlice(s: string, a: nat, b: nat)
    requires a <= b <= |s| && TagFree(s)
    ensures TagFree(s[a..b])
  {
    var t := s[a..b];
    forall i, k, j | 0 <= i < |t| && 0 <= k < |t| && 0 <= j < |t| && k == i + 1 && k < j
      && t[i] == '<' && t[j] == '>'
      ensures t[k] == '>'
    {
      assert s[a + i] == '<' && s[a + j] == '>' && t[k] == s[a + k];
    }
  }

  /** Collapsing whitespace cannot form a tag: it creates no `>` and keeps
      the character after each `<`. */
  lemma {:induction false} CollapseTagFree(s: string)
    requires TagFree(s)
    ensures TagFree(CollapseWhitespace(s))
    decreases |s|
  {
    if s != [] {
      if IsWhitespace(s[0]) {
        var t := TrimStart(s);
        TagFreeSlice(s, |s| - |t|, |s|);
        CollapseTagFree(t);
        ConsTagFree(' ', CollapseWhitespace(t));
      } else {
        var rest := s[1..];
        TagFreeSlice(s, 1, |s|);
        CollapseTagFree(rest);
        if s[0] == '<' && !(rest != [] && rest[0] == '>') {
          forall j | 0 <= j < |rest|
            ensures rest[j] != '>'
          {
            assert s[j + 1] == rest[j];
          }
          InVisible(rest, '>');
          CollapseVisible(rest);
          InVisible(CollapseWhitespace(rest), '>');
        }
        ConsTagFree(s[0], CollapseWhitespace(rest));
      }
    }
  }

  /** Trimming only removes whitespace, so it keeps the visible text. */
  lemma TrimVisible(s: string)
    ensures Visible(Trim(s)) == Visible(s)
  {
    var t := TrimStart(s);
    VisibleDropWhitespace(s, |s| - |t|);
    VisibleDropTrailing(t, |TrimEnd(t)|);
  }

  /** Dropping trailing whitespace changes nothing visible. */
  lemma VisibleDropTrailing(s: string, k: nat)
    requires k <= |s| && forall i :: k <= i < |s| ==> IsWhitespace(s[i])
    ensures Visible(s[..k]) == Visible(s)
  {
    BlankSuffix(s, k);
    TakeDrop(s, k);
    VisibleAppendBlank(s[..k], s[k..]);
  }

  /** Whitespace after `k` is the whitespace of the suffix from `k`. */
  lemma BlankSuffix(s: string, k: nat)
    requires k <= |s| && forall i :: k <= i < |s| ==> IsWhitespace(s[i])
    ensures forall i :: 0 <= i < |s[k..]| ==> IsWhitespace(s[k..][i])
  {
  }

  /** Appending whitespace changes nothing visible. */
  lemma VisibleAppendBlank(p: string, b: string)
    requires forall i :: 0 <= i < |b| ==> IsWhitespace(b[i])
    ensures Visible(p + b) == Visible(p)
  {
    VisibleAllWhitespace(b);
    VisibleConcat(p, b);
    AppendEmpty(Visible(p));
  }

  lemma {:induction false} VisibleConcat(a: string, b: string)
    ensures Visible(a + b) == Visible(a) + Visible(b)
  {
    if a != [] {
      assert (a + b)[0] == a[0] && (a + b)[1..] == a[1..] + b;
      VisibleConcat(a[1..], b);
    } else {
      assert a + b == b;
    }
  }

  lemma {:induction false} VisibleAllWhitespace(s: string)
    requires forall i :: 0 <= i < |s| ==> IsWhitespace(s[i])
    ensures Visible(s) == []
  {
    if s != [] {
      VisibleAllWhitespace(s[1..]);
    }
  }

  /** `stripHtmlAndDecode`: decode references first, then blank out tags,
      collapse whitespace and trim. */
  function StripHtmlAndDecode(s: string, fromCharCode: nat -> char): string {
    Trim(CollapseWhitespace(StripTags(Entities.DecodeEntities(s, fromCharCode))))
  }

  /** The cleaned text has no whitespace at its ends, no two whitespace
      characters together, no whitespace other than spaces and nothing
      that matches the tag pattern. */
  lemma StripHtmlAndDecodeClean(s: string, fromCharCode: nat -> char)
    ensures var r := StripHtmlAndDecode(s, fromCharCode);
      && IsTrimmed(r)
      && NoDoubleWhitespace(r) && OnlySpaces(r)
      && TagFree(r)
  {
    var decoded := Entities.DecodeEntities(s, fromCharCode);
    StripTagsTagFree(decoded);
    CollapseTagFree(StripTags(decoded));
    TrimTagFree(CollapseWhitespace(StripTags(decoded)));
    TrimSpacing(CollapseWhitespace(StripTags(decoded)));
  }

  /** Trimming keeps the text tag-free. */
  lemma TrimTagFree(s: string)
    requires TagFree(s)
    ensures TagFree(Trim(s))
  {
    var a := TrimIsSlice(s);
    var r := Trim(s);
    forall i, k, j |
      0 <= i < |r| && 0 <= k < |r| && 0 <= j < |r| && k == i + 1 && k < j && r[i] == '<' && r[j] == '>'
      ensures r[k] == '>'
    {
      assert s[a + i] == '<' && s[a + j] == '>' && r[k] == s[a + k];
    }
  }

  /** Trimming keeps the spacing single spaces. */
  lemma TrimSpacing(s: string)
    requires NoDoubleWhitespace(s) && OnlySpaces(s)
    ensures NoDoubleWhitespace(Trim(s)) && OnlySpaces(Trim(s))
  {
    var a := TrimIsSlice(s);
    SpacingSlice(s, a, a + |Trim(s)|);
  }

  /** The trimmed text is one slice of the text. */
  lemma TrimIsSlice(s: string) returns (a: nat)
    ensures a + |Trim(s)| <= |s| && Trim(s) == s[a..a + |Trim(s)|]
    ensures forall x :: 0 <= x < |Trim(s)| ==> Trim(s)[x] == s[a + x]
  {
    a := |s| - |TrimStart(s)|;
  }

  lemma SpacingSlice(s: string, a: nat, b: nat)
    requires a <= b <= |s| && NoDoubleWhitespace(s) && OnlySpaces(s)
    ensures NoDoubleWhitespace(s[a..b]) && OnlySpaces(s[a..b])
  {
    var t := s[a..b];
    forall i | 0 <= i < |t|
      ensures t[i] == s[a + i]
    {
    }
  }

  /** Text without `<` holds no tag and passes through unchanged. */
  lemma {:induction false} StripTagsPlain(s: string)
    requires '<' !in s
    ensures StripTags(s) == s
    decreases |s|
  {
    if s != [] {
      StripTagsPlain(s[1..]);
      assert s == [s[0]] + s[1..];
    }
  }

  /** A `<`, a non-empty run without `>`, and a `>` become one space. */
  lemma StripTagsTag(w: string, x: string)
    requires w != [] && '>' !in w
    ensures StripTags("<" + w + ">" + x) == " " + StripTags(x)
  {
    var s := "<" + w + ">" + x;
    assert s[1..] == w + (">" + x);
    IndexOfCloseAfter(w, ">" + x);
    assert TagLength(s) == |w| + 2;
    assert s[|w| + 2..] == x;
  }

  lemma {:induction false} IndexOfCloseAfter(w: string, x: string)
    requires '>' !in w && x != [] && x[0] == '>'
    ensures IndexOfClose(w + x) == |w|
  {
    if w != [] {
      assert (w + x)[1..] == w[1..] + x;
      IndexOfCloseAfter(w[1..], x);
    } else {
      assert w + x == x;
    }
  }

  /** References are decoded before tags are removed, so an escaped tag
      such as `&lt;b&gt;` is removed like a real one. */
  lemma EncodedTagRemoved(w: string, fromCharCode: nat -> char)
    requires w != [] && '&' !in w && '>' !in w
    ensures StripHtmlAndDecode("&lt;" + w + "&gt;", fromCharCode) == ""
  {
    var tag := "<" + w + ">";
    EncodedTagDecodes(w, fromCharCode);
    AppendEmpty(tag);
    StripTagsTag(w, []);
    assert StripTags([]) == [];
    AppendEmpty(" ");
    BlankCollapsesAway();
  }

  lemma BlankCollapsesAway()
    ensures Trim(CollapseWhitespace(" ")) == ""
  {
    assert TrimStart(" ") == [];
    assert CollapseWhitespace(" ") == " ";
    assert TrimStart(" ") == [];
  }

  /** `&lt;`, text without `&`, `&gt;` decodes to a tag around the text. */
  lemma EncodedTagDecodes(w: string, fromCharCode: nat -> char)
    requires '&' !in w
    ensures Entities.DecodeEntities("&lt;" + w + "&gt;", fromCharCode) == "<" + w + ">"
  {
    Entities.ReferencesAround(4, w, 5, fromCharCode);
    assert Entities.Rules[4] == Entities.Named("&lt;", '<');
    assert Entities.Rules[5] == Entities.Named("&gt;", '>');
  }

  /** What tag stripping leaves visible is exactly what the result shows:
      collapsing and trimming lose whitespace only. */
  lemma StripHtmlAndDecodeVisible(s: string, fromCharCode: nat -> char)
    ensures Visible(StripHtmlAndDecode(s, fromCharCode))
      == Visible(StripTags(Entities.DecodeEntities(s, fromCharCode)))
  {
    var stripped := StripTags(Entities.DecodeEntities(s, fromCharCode));
    CollapseVisible(stripped);
    TrimVisible(CollapseWhitespace(stripped));
  }

  /** The marks the snippet is split on: `.`, `!`, `?` and the Arabic
      question mark U+061F. */
  predicate IsSentenceMark(c: char) {
    c == '.' || c == '!' || c == '?' || c == '\U{061F}'
  }

  predicate NoSentenceMark(s: string) {
    forall i :: 0 <= i < |s| ==> !IsSentenceMark(s[i])
  }

  /** `split(/[.!?؟]/)[0]`: the text before the first sentence mark, all of
      it when there is none. */
  function BeforeFirstMark(s: string): (r: string)
    ensures |r| <= |s| && r == s[..|r|]
    ensures NoSentenceMark(r)
    ensures |r| < |s| ==> IsSentenceMark(s[|r|])
  {
    if s == [] || IsSentenceMark(s[0]) then [] else [s[0]] + BeforeFirstMark(s[1..])
  }

  /** The first sentence of the snippet, trimmed. */
  function FirstSentence(snippet: string): string {
    Trim(BeforeFirstMark(snippet))
  }

  /** The first sentence holds no sentence mark and is trimmed. */
  lemma FirstSentenceClean(snippet: string)
    ensures var r := FirstSentence(snippet);
      NoSentenceMark(r) && IsTrimmed(r)
  {
    var before := BeforeFirstMark(snippet);
    NoSentenceMarkSlice(before, |before| - |TrimStart(before)|, |Trim(before)|);
  }

  /** The first sentence of a cleaned text is as clean as the text: no
      tags, and single spaces as the only whitespace. */
  lemma FirstSentenceOfClean(t: string)
    requires TagFree(t) && NoDoubleWhitespace(t) && OnlySpaces(t)
    ensures var r := FirstSentence(t);
      TagFree(r) && NoDoubleWhitespace(r) && OnlySpaces(r)
  {
    var before := BeforeFirstMark(t);
    assert before == t[0..|before|];
    TagFreeSlice(t, 0, |before|);
    SpacingSlice(t, 0, |before|);
    TrimTagFree(before);
    TrimSpacing(before);
  }

  lemma NoSentenceMarkSlice(s: string, a: nat, n: nat)
    requires a + n <= |s| && NoSentenceMark(s)
    ensures NoSentenceMark(s[a..a + n])
  {
    var t := s[a..a + n];
    forall i | 0 <= i < n
      ensures !IsSentenceMark(t[i])
    {
      assert t[i] == s[a + i];
    }
  }

  /** A snippet without a sentence mark is its own first sentence once it is
      trimmed, as `stripHtmlAndDecode` leaves it. */
  lemma FirstSentenceWhole(snippet: string)
    requires NoSentenceMark(snippet) && IsTrimmed(snippet)
    ensures FirstSentence(snippet) == snippet
  {
    var before := BeforeFirstMark(snippet);
    assert before == snippet;
    TrimOfTrimmed(snippet);
  }

  /** The first sentence is the trimmed text in front of the first mark. */
  lemma FirstSentenceBeforeMark(snippet: string, k: nat)
    requires k < |snippet| && IsSentenceMark(snippet[k]) && NoSentenceMark(snippet[..k])
    ensures FirstSentence(snippet) == Trim(snippet[..k])
  {
    var before := BeforeFirstMark(snippet);
    assert before == snippet[..k];
  }

  // A worked paragraph: `<p>`, a word, `&amp;`, a word, `</p>`, a full
  // stop, and the rest of the text.

  /** A word: no whitespace, no `<`, no `&` and no sentence mark. */
  predicate PlainWord(s: string) {
    s != [] && forall c :: c in s ==> !IsWhitespace(c) && c != '<' && c != '&' && !IsSentenceMark(c)
  }

  /** Text without `<` in front of more text passes through tag stripping
      unchanged. */
  lemma {:induction false} StripTagsPlainPrefix(u: string, y: string)
    requires '<' !in u
    ensures StripTags(u + y) == u + StripTags(y)
    decreases |u|
  {
    if u != [] {
      var s := u + y;
      assert s[0] == u[0] && s[1..] == u[1..] + y;
      StripTagsPlainPrefix(u[1..], y);
      assert StripTags(s) == [u[0]] + (u[1..] + StripTags(y));
      Assoc([u[0]], u[1..], StripTags(y));
      assert [u[0]] + u[1..] == u;
    } else {
      assert u + y == y && u + StripTags(y) == StripTags(y);
    }
  }

  /** Decoding the paragraph turns its one `&amp;` into `&`. */
  lemma ParagraphDecodes(a: string, b: string, t: string, fromCharCode: nat -> char)
    requires '&' !in a && '&' !in b && '&' !in t
    ensures Entities.DecodeEntities("<p>" + a + " &amp; " + b + "</p>." + t, fromCharCode)
      == "<p>" + a + " & " + b + "</p>." + t
  {
    SplitAtReference(a, b, t, " &amp; ", "&amp; ");
    SplitAtReference(a, b, t, " & ", "& ");
    AmpBetween("<p>" + a + " ", b + "</p>." + t, fromCharCode);
  }

  /** `&amp;` and a space between two runs of text without `&`. */
  lemma AmpBetween(head: string, rest: string, fromCharCode: nat -> char)
    requires '&' !in head && '&' !in rest
    ensures Entities.DecodeEntities(head + ("&amp; " + rest), fromCharCode) == head + ("& " + rest)
  {
    Entities.DecodePlainPrefix(head, "&amp; " + rest, fromCharCode);
    Entities.AmpThenSpace(rest, fromCharCode);
  }

  /** The paragraph as the text up to the space before `e`, then the rest. */
  lemma SplitAtReference(a: string, b: string, t: string, m: string, e: string)
    requires m == " " + e
    ensures "<p>" + a + m + b + "</p>." + t == ("<p>" + a + " ") + (e + (b + "</p>." + t))
  {
  }

  /** Stripping the decoded paragraph turns `<p>` and `</p>` into spaces. */
  lemma ParagraphStrips(u: string, t: string)
    requires '<' !in u && '<' !in t
    ensures StripTags("<p>" + u + "</p>." + t) == " " + u + " " + ("." + t)
  {
    ParagraphTags(u, t);
    StripTagsAround("p", u, "/p", "." + t);
  }

  /** The paragraph as an opening tag, the text, a closing tag and the rest. */
  lemma ParagraphTags(u: string, t: string)
    ensures "<p>" + u + "</p>." + t == "<" + "p" + ">" + (u + ("<" + "/p" + ">" + ("." + t)))
  {
  }

  /** Text without `<` between two tags, followed by more text without `<`:
      each tag becomes one space. */
  lemma StripTagsAround(w1: string, u: string, w2: string, y: string)
    requires w1 != [] && '>' !in w1 && w2 != [] && '>' !in w2
    requires '<' !in u && '<' !in y
    ensures StripTags("<" + w1 + ">" + (u + ("<" + w2 + ">" + y))) == " " + u + " " + y
  {
    var close := "<" + w2 + ">" + y;
    StripTagsTag(w1, u + close);
    StripTagsPlainPrefix(u, close);
    StripTagsTag(w2, y);
    StripTagsPlain(y);
    Assoc(" ", u, " " + y);
    Assoc(" " + u, " ", y);
  }

  /** Two words around `&` are already collapsed. */
  lemma CollapseWords(a: string, b: string)
    requires PlainWord(a) && PlainWord(b)
    ensures CollapseWhitespace(a + " & " + b) == a + " & " + b
  {
    assert b[0] in b;
    CollapseNoWhitespace(b);
    CollapseJoin("&", b);
    var rest := "&" + " " + b;
    assert rest[0] == '&';
    CollapseJoin(a, rest);
    WordsAroundAmp(a, b);
  }

  lemma WordsAroundAmp(a: string, b: string)
    ensures a + " & " + b == a + " " + ("&" + " " + b)
  {
  }

  /** A word without whitespace, one space, and collapsed text that starts
      with a visible character are already collapsed. */
  lemma CollapseJoin(a: string, b: string)
    requires a != [] && forall c :: c in a ==> !IsWhitespace(c)
    requires b != [] && !IsWhitespace(b[0]) && CollapseWhitespace(b) == b
    ensures CollapseWhitespace(a + " " + b) == a + " " + b
  {
    assert a[|a| - 1] in a;
    CollapseNoWhitespace(a);
    CollapseAround(a, " ", b);
  }

  /** Collapsing a space, collapsed text, a space, a full stop and more
      text only collapses the text after the full stop. */
  lemma CollapseParagraph(u: string, z: string)
    requires u != [] && !IsWhitespace(u[0]) && !IsWhitespace(u[|u| - 1])
    requires CollapseWhitespace(u) == u
    ensures CollapseWhitespace(" " + u + " " + ("." + z)) == " " + u + " " + ("." + CollapseWhitespace(z))
  {
    var tail := "." + z;
    CollapseMarkFirst(z);
    CollapseAround(u, " ", tail);
    var b := u + " " + tail;
    assert b[0] == u[0];
    CollapseLeadingSpace(b);
    Assoc(" ", u, " ");
    Assoc(" ", u + " ", tail);
    Assoc(" ", u + " ", "." + CollapseWhitespace(z));
  }

  /** A full stop is copied by collapsing. */
  lemma CollapseMarkFirst(z: string)
    ensures CollapseWhitespace("." + z) == "." + CollapseWhitespace(z)
  {
    var s := "." + z;
    assert s[0] == '.' && s[1..] == z;
  }

  /** One leading space before a visible character stays one space. */
  lemma CollapseLeadingSpace(b: string)
    requires b == [] || !IsWhitespace(b[0])
    ensures CollapseWhitespace(" " + b) == " " + CollapseWhitespace(b)
  {
    var s := " " + b;
    assert s[0] == ' ';
    TrimStartAfterBlank(" ", b);
  }

  /** After trimming, the first sentence of a space, trimmed text without
      sentence marks, a space and a full stop is that text. */
  lemma FirstSentenceOfSpaced(u: string, z: string)
    requires u != [] && IsTrimmed(u) && NoSentenceMark(u)
    ensures FirstSentence(Trim(" " + u + " " + ("." + z))) == u
  {
    var v := u + " " + ("." + z);
    SpacedTrim(u, z);
    FirstSentenceAtMark(TrimEnd(v), v, u);
  }

  /** Trimming a space, text starting with a visible character, a space, a
      full stop and more keeps the text, the space and the full stop. */
  lemma SpacedTrim(u: string, z: string)
    requires u != [] && !IsWhitespace(u[0])
    ensures var v := u + " " + ("." + z);
      && Trim(" " + u + " " + ("." + z)) == TrimEnd(v)
      && |u| + 2 <= |TrimEnd(v)| && |u| + 2 <= |v| && TrimEnd(v)[..|u| + 2] == v[..|u| + 2]
      && v[..|u| + 1] == u + " " && v[|u| + 1] == '.'
  {
    var v := u + " " + ("." + z);
    SpacedParts(u, z);
    TrimLeadingBlank(v);
    TrimEndKeepsPrefix(v, |u| + 2);
  }

  /** Text that starts like `v`, with trimmed text `u` without sentence
      marks, a space and a full stop, has `u` as its first sentence. */
  lemma FirstSentenceAtMark(r: string, v: string, u: string)
    requires u != [] && IsTrimmed(u) && NoSentenceMark(u)
    requires |u| + 2 <= |r| && |u| + 2 <= |v| && r[..|u| + 2] == v[..|u| + 2]
    requires v[..|u| + 1] == u + " " && v[|u| + 1] == '.'
    ensures FirstSentence(r) == u
  {
    var k := |u| + 1;
    assert r[..k] == r[..k + 1][..k] == v[..k + 1][..k] == v[..k];
    assert r[k] == r[..k + 1][k] == v[..k + 1][k] == v[k];
    SpaceAfterNoMark(u);
    FirstSentenceBeforeMark(r, k);
    TrimTrailingSpace(u);
  }

  /** Where the parts of a space-separated text and a full stop sit. */
  lemma SpacedParts(u: string, z: string)
    requires u != []
    ensures var v := u + " " + ("." + z);
      && " " + u + " " + ("." + z) == " " + v
      && |u| + 2 <= |v| && v[0] == u[0]
      && v[..|u| + 1] == u + " " && v[|u| + 1] == '.'
  {
  }

  lemma SpaceAfterNoMark(u: string)
    requires NoSentenceMark(u)
    ensures NoSentenceMark(u + " ")
  {
    forall i | 0 <= i < |u| + 1
      ensures !IsSentenceMark((u + " ")[i])
    {
      if i < |u| {
        assert (u + " ")[i] == u[i];
      }
    }
  }

  /** `<p>a &amp; b</p>.t` for two words `a` and `b` and any `t` without
      `<` or `&`: the first sentence is `a & b`. */
  lemma FirstSentenceOfParagraph(a: string, b: string, t: string, fromCharCode: nat -> char)
    requires PlainWord(a) && PlainWord(b) && '<' !in t && '&' !in t
    ensures FirstSentence(StripHtmlAndDecode("<p>" + a + " &amp; " + b + "</p>." + t, fromCharCode))
      == a + " & " + b
  {
    var u := a + " & " + b;
    ParagraphCleaned(a, b, t, fromCharCode);
    WordsAroundAmpFacts(a, b);
    FirstSentenceOfSpaced(u, CollapseWhitespace(t));
  }

  /** The cleaned paragraph: a space, the two words around `&`, a space, a
      full stop and the rest collapsed, then trimmed. */
  lemma ParagraphCleaned(a: string, b: string, t: string, fromCharCode: nat -> char)
    requires PlainWord(a) && PlainWord(b) && '<' !in t && '&' !in t
    ensures StripHtmlAndDecode("<p>" + a + " &amp; " + b + "</p>." + t, fromCharCode)
      == Trim(" " + (a + " & " + b) + " " + ("." + CollapseWhitespace(t)))
  {
    var u := a + " & " + b;
    var s := "<p>" + a + " &amp; " + b + "</p>." + t;
    var d := "<p>" + u + "</p>." + t;
    var st := " " + u + " " + ("." + t);
    WordsAroundAmpFacts(a, b);
    ParagraphDecodes(a, b, t, fromCharCode);
    ParagraphWords(a, b, t);
    ParagraphStrips(u, t);
    CollapseWords(a, b);
    CollapseParagraph(u, t);
    CleanSteps(s, d, st, " " + u + " " + ("." + CollapseWhitespace(t)), fromCharCode);
  }

  /** The cleaning pipeline, one stage at a time. */
  lemma CleanSteps(s: string, d: string, st: string, cw: string, fromCharCode: nat -> char)
    requires Entities.DecodeEntities(s, fromCharCode) == d
    requires StripTags(d) == st && CollapseWhitespace(st) == cw
    ensures StripHtmlAndDecode(s, fromCharCode) == Trim(cw)
  {
  }

  lemma ParagraphWords(a: string, b: string, t: string)
    ensures "<p>" + a + " & " + b + "</p>." + t == "<p>" + (a + " & " + b) + "</p>." + t
  {
  }

  /** What the two words around `&` give: no `<`, no `&` inside the words,
      visible ends, no sentence mark. */
  lemma WordsAroundAmpFacts(a: string, b: string)
    requires PlainWord(a) && PlainWord(b)
    ensures var u := a + " & " + b;
      && '&' !in a && '&' !in b && '<' !in u
      && u != [] && u[0] == a[0] && u[|u| - 1] == b[|b| - 1]
      && !IsWhitespace(u[0]) && !IsWhitespace(u[|u| - 1])
      && IsTrimmed(u) && NoSentenceMark(u)
  {
    var u := a + " & " + b;
    assert a[0] in a && b[|b| - 1] in b;
    forall i | 0 <= i < |u|
      ensures !IsSentenceMark(u[i])
    {
      assert u[i] in u;
    }
  }

  /** The first sentence of `<p>Visit &amp; stay</p>. More text` is
      `Visit & stay`: the reference is decoded, the tags become spaces, the
      spaces collapse, and the cut comes at the full stop. */
  lemma FirstSentenceExample(fromCharCode: nat -> char)
    ensures FirstSentence(StripHtmlAndDecode("<p>Visit &amp; stay</p>. More text", fromCharCode))
      == "Visit & stay"
  {
    ExampleParts();
    FirstSentenceOfParagraph("Visit", "stay", " More text", fromCharCode);
  }

  /** The example paragraph in the shape of the general lemma. */
  lemma ExampleParts()
    ensures "<p>Visit &amp; stay</p>. More text" == "<p>" + "Visit" + " &amp; " + "stay" + "</p>." + " More text"
    ensures "Visit" + " & " + "stay" == "Visit & stay"
    ensures PlainWord("Visit") && PlainWord("stay") && '<' !in " More text" && '&' !in " More text"
  {
    ExampleInput();
    ExampleWords();
  }

  lemma ExampleInput()
    ensures "<p>Visit &amp; stay</p>. More text" == "<p>" + "Visit" + " &amp; " + "stay" + "</p>." + " More text"
  {
  }

  lemma ExampleWords()
    ensures PlainWord("Visit") && PlainWord("stay") && '<' !in " More text" && '&' !in " More text"
  {
  }
}
