/** Escaping for the "MarkdownV2" parse mode of the Telegram Bot API, and the
    channel's fixed footer of social links built with it. */
module Markdown {
  import opened Text

  /** The eighteen characters `escapeMarkdownV2` puts a backslash before,
      `_*[]()~`>#+-=|{}.!`. The backslash itself is not among them. */
  predicate IsReserved(c: char) {
    || c == '_' || c == '*' || c == '[' || c == ']' || c == '(' || c == ')'
    || c == '~' || c == '`' || c == '>' || c == '#' || c == '+' || c == '-'
    || c == '=' || c == '|' || c == '{' || c == '}' || c == '.' || c == '!'
  }

  /** How many characters of `s` are reserved. */
  function CountReserved(s: string): (n: nat)
    ensures n <= |s|
  {
    if s == [] then 0 else (if IsReserved(s[0]) then 1 else 0) + CountReserved(s[1..])
  }

  /** `escapeMarkdownV2`: a backslash goes before every reserved character;
      every other character is copied as it is. */
  function EscapeMarkdownV2(s: string): (r: string)
    ensures |r| == |s| + CountReserved(s)
    ensures r == [] || !IsReserved(r[0])
  {
    if s == [] then []
    else (if IsReserved(s[0]) then ['\\', s[0]] else [s[0]]) + EscapeMarkdownV2(s[1..])
  }

  /** What a reader of the escaped text sees: a backslash followed by a
      reserved character stands for that character. */
  function Unescape(r: string): (s: string)
    ensures |s| <= |r|
  {
    if |r| >= 2 && r[0] == '\\' && IsReserved(r[1]) then [r[1]] + Unescape(r[2..])
    else if r == [] then []
    else [r[0]] + Unescape(r[1..])
  }

  /** Deleting the inserted backslashes gives back the input, a backslash
      that was already in the input included. */
  lemma {:induction false} UnescapeEscape(s: string)
    ensures Unescape(EscapeMarkdownV2(s)) == s
  {
    if s != [] {
      var rest := EscapeMarkdownV2(s[1..]);
      UnescapeEscape(s[1..]);
      if IsReserved(s[0]) {
        assert EscapeMarkdownV2(s) == ['\\', s[0]] + rest;
        assert (['\\', s[0]] + rest)[2..] == rest;
      } else {
        assert EscapeMarkdownV2(s) == [s[0]] + rest;
        assert ([s[0]] + rest)[1..] == rest;
      }
    }
  }

  /** Escaping works character by character, so it distributes over
      concatenation. */
  lemma {:induction false} EscapeConcat(a: string, b: string)
    ensures EscapeMarkdownV2(a + b) == EscapeMarkdownV2(a) + EscapeMarkdownV2(b)
  {
    if a != [] {
      var head := EscapeChar(a[0]);
      EscapeConcat(a[1..], b);
      HeadSplit(a, b);
      EscapeCons(a[0], a[1..] + b);
      Uncons(a);
      EscapeCons(a[0], a[1..]);
      Assoc(head, EscapeMarkdownV2(a[1..]), EscapeMarkdownV2(b));
    } else {
      assert a + b == b;
    }
  }

  /** What one character becomes. */
  function EscapeChar(c: char): string {
    if IsReserved(c) then ['\\', c] else [c]
  }

  /** Escaping a character and the text after it. */
  lemma EscapeCons(c: char, z: string)
    ensures EscapeMarkdownV2([c] + z) == EscapeChar(c) + EscapeMarkdownV2(z)
  {
    ConsTail(c, z);
  }

  lemma {:induction false} CountReservedConcat(a: string, b: string)
    ensures CountReserved(a + b) == CountReserved(a) + CountReserved(b)
  {
    if a != [] {
      assert (a + b)[0] == a[0];
      assert (a + b)[1..] == a[1..] + b;
      CountReservedConcat(a[1..], b);
    } else {
      assert a + b == b;
    }
  }

  /** Character `s[i]` lands at `i` plus the number of reserved characters
      before it; exactly one backslash precedes it there when it is reserved,
      and none is added when it is not. */
  lemma EscapeAt(s: string, i: nat)
    requires i < |s|
    ensures var r, j := EscapeMarkdownV2(s), i + CountReserved(s[..i]);
      if IsReserved(s[i])
      then j + 1 < |r| && r[j] == '\\' && r[j + 1] == s[i]
      else j < |r| && r[j] == s[i]
  {
    var p, c, q := s[..i], s[i], s[i + 1..];
    Around(s, i);
    EscapeConcat(p + [c], q);
    EscapeConcat(p, [c]);
    EscapeCons(c, []);
    AppendEmpty([c]);
    AppendEmpty(EscapeChar(c));
    var ep, ec, eq := EscapeMarkdownV2(p), EscapeChar(c), EscapeMarkdownV2(q);
    assert EscapeMarkdownV2(s) == ep + ec + eq;
    MiddleAt(ep, ec, eq, 0);
    if IsReserved(c) {
      MiddleAt(ep, ec, eq, 1);
    }
  }

  /** Every reserved character of `r` comes right after a backslash. */
  predicate ReservedArePreceded(r: string) {
    forall k :: 0 <= k < |r| && IsReserved(r[k]) ==> k > 0 && r[k - 1] == '\\'
  }

  /** Every reserved character in the escaped text is preceded by a
      backslash. The backslash is not itself in the reserved set, so a
      backslash already present in the input is copied as it is. */
  lemma {:induction false} EscapedReservedArePreceded(s: string)
    ensures ReservedArePreceded(EscapeMarkdownV2(s))
  {
    if s != [] {
      var rest := EscapeMarkdownV2(s[1..]);
      EscapedReservedArePreceded(s[1..]);
      var head := if IsReserved(s[0]) then ['\\', s[0]] else [s[0]];
      var r := head + rest;
      assert r == EscapeMarkdownV2(s);
      forall k | 0 <= k < |r| && IsReserved(r[k])
        ensures k > 0 && r[k - 1] == '\\'
      {
        if k >= |head| {
          var k' := k - |head|;
          assert r[k] == rest[k'] && IsReserved(rest[k']);
          assert r[k - 1] == rest[k' - 1];
        }
      }
    }
  }

  /** Text without reserved characters is left as it is. */
  lemma {:induction false} EscapeUnreserved(s: string)
    requires forall i :: 0 <= i < |s| ==> !IsReserved(s[i])
    ensures EscapeMarkdownV2(s) == s
  {
    if s != [] {
      EscapeUnreserved(s[1..]);
    }
  }

  /** One named link of the channel's footer. */
  datatype SocialLink = SocialLink(name: string, url: string)

  const SocialLinksArray: seq<SocialLink> := [
    SocialLink("Telegram", "https://t.me/ANF_FarsiChannel"),
    SocialLink("Instagram", "http://www.instagram.com/anf_persian"),
    SocialLink("Facebook", "http://facebook.com/anfpersianofficial"),
    SocialLink("X", "http://twitter.com/ANF_persian"),
    SocialLink("webSite", "http://anfpersian.com/")
  ]

  /** `[name](url)` with the name escaped and the URL as it is. */
  function LinkMarkup(link: SocialLink): string {
    "[" + EscapeMarkdownV2(link.name) + "](" + link.url + ")"
  }

  /** The markup of each link, in order (`Array.prototype.map`). */
  function LinksMarkup(links: seq<SocialLink>): (r: seq<string>) {
    seq(|links|, i requires 0 <= i < |links| => LinkMarkup(links[i]))
  }

  /** `Array.prototype.join`: the parts with `sep` between neighbours. */
  function Join(parts: seq<string>, sep: string): string {
    if parts == [] then ""
    else if |parts| == 1 then parts[0]
    else parts[0] + sep + Join(parts[1..], sep)
  }

  /** The separator is an escaped vertical bar between two spaces. */
  const FooterSeparator: string := " \\| "

  /** The footer every message ends with. */
  function SocialLinks(): string {
    Join(LinksMarkup(SocialLinksArray), FooterSeparator)
  }

  /** None of the five names holds a reserved character, so escaping leaves
      each of them as it is and the footer shows them verbatim. */
  lemma SocialLinksNeedNoEscaping()
    ensures forall i :: 0 <= i < |SocialLinksArray| ==>
      LinkMarkup(SocialLinksArray[i])
        == "[" + SocialLinksArray[i].name + "](" + SocialLinksArray[i].url + ")"
  {
    forall i | 0 <= i < |SocialLinksArray|
      ensures EscapeMarkdownV2(SocialLinksArray[i].name) == SocialLinksArray[i].name
    {
      LettersUnreserved(SocialLinksArray[i].name);
    }
  }

  /** Text made of ASCII letters needs no escaping. */
  lemma LettersUnreserved(s: string)
    requires forall k :: 0 <= k < |s| ==> 'a' <= s[k] <= 'z' || 'A' <= s[k] <= 'Z'
    ensures EscapeMarkdownV2(s) == s
  {
    EscapeUnreserved(s);
  }
}
