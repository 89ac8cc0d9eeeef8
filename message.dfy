/** One feed item turned into the text of one channel post: the link the
    item is known by, the snippet it is summarised from, and the MarkdownV2
    template that puts title, first sentence, link and footer together. */
module Message {
  import opened Wrappers
  import opened Text
  import opened Markdown
  import Normalize

  /** The fields of an RSS item the bot reads; each may be absent. */
  datatype FeedItem = FeedItem(
    title: Option<string>,
    link: Option<string>,
    contentSnippet: Option<string>,
    content: Option<string>)

  /** JavaScript's `value || fallback` on an optional string: an absent
      value and the empty string are both falsy. */
  function Or(value: Option<string>, fallback: string): string {
    if value.Some? && value.value != "" then value.value else fallback
  }

  /** The link an item is known by: the raw link resolved against the feed
      address and trimmed, or the trimmed raw link when resolution fails.
      `resolve` stands for `new URL(raw, FEED_URL).toString()`, `None` for
      the exception it throws. */
  function ItemLink(item: FeedItem, resolve: string -> Option<string>): (link: string)
    ensures IsTrimmed(link)
    ensures var raw := Or(item.link, "");
      link == Trim(if resolve(raw).Some? then resolve(raw).value else raw)
  {
    var raw := Or(item.link, "");
    match resolve(raw)
    case Some(url) => Trim(url)
    case None => Trim(raw)
  }

  /** The text the summary is taken from: the plain-text snippet, else the
      content, else nothing. */
  function SnippetSource(item: FeedItem): string {
    Or(item.contentSnippet, Or(item.content, ""))
  }

  /** The trimmed title, empty when the item has none. */
  function Title(item: FeedItem): (t: string)
    ensures IsTrimmed(t)
  {
    Trim(Or(item.title, ""))
  }

  /** The first sentence of the cleaned snippet. */
  function Sentence(item: FeedItem, fromCharCode: nat -> char): string {
    Normalize.FirstSentence(Normalize.StripHtmlAndDecode(SnippetSource(item), fromCharCode))
  }

  /** The summary line is trimmed, ends before the first sentence mark,
      and carries no tags and no whitespace other than single spaces. */
  lemma SentenceClean(item: FeedItem, fromCharCode: nat -> char)
    ensures var s := Sentence(item, fromCharCode);
      && IsTrimmed(s) && Normalize.NoSentenceMark(s)
      && Normalize.TagFree(s)
      && Normalize.NoDoubleWhitespace(s) && Normalize.OnlySpaces(s)
  {
    var clean := Normalize.StripHtmlAndDecode(SnippetSource(item), fromCharCode);
    Normalize.StripHtmlAndDecodeClean(SnippetSource(item), fromCharCode);
    Normalize.FirstSentenceClean(clean);
    Normalize.FirstSentenceOfClean(clean);
  }

  /** The label of the link to the full article ("read the news"). */
  const ReadMore: string := "[مطالعه خبر]("

  /** The post template: the escaped title in bold, a blank line, the
      escaped sentence, a blank line, the article link with the URL as it
      is, a blank line and the footer. */
  function Layout(title: string, sentence: string, link: string, footer: string): string {
    "*" + (EscapeMarkdownV2(title) + Tail(sentence, link, footer))
  }

  /** What follows the escaped title. */
  function Tail(sentence: string, link: string, footer: string): string {
    "*\n\n" + (EscapeMarkdownV2(sentence) + LinkAndFooter(link, footer))
  }

  /** What follows the escaped sentence. */
  function LinkAndFooter(link: string, footer: string): string {
    "\n\n" + (ReadMore + (link + (")\n\n" + footer)))
  }

  /** The message posted for `item` under `link`. */
  function FormatMessage(item: FeedItem, link: string, fromCharCode: nat -> char): string {
    Layout(Title(item), Sentence(item, fromCharCode), link, SocialLinks())
  }

  /** The fixed characters of the template: `*`, `*\n\n`, `\n\n`, the
      label and `)\n\n`. */
  const TemplateLength: nat := 22

  /** The message is as long as its escaped parts, the link, the footer and
      the fixed characters together. */
  lemma LayoutLength(title: string, sentence: string, link: string, footer: string)
    ensures |Layout(title, sentence, link, footer)|
      == |title| + CountReserved(title) + |sentence| + CountReserved(sentence)
        + |link| + |footer| + TemplateLength
  {
    assert |ReadMore| == 13;
  }

  /** The escaped title sits between the first two characters `*`: every
      reserved character there follows a backslash, and removing those
      backslashes gives the title back. */
  lemma LayoutTitle(title: string, sentence: string, link: string, footer: string)
    ensures var m, k := Layout(title, sentence, link, footer), 1 + |EscapeMarkdownV2(title)|;
      && k < |m| && m[0] == '*' && m[k] == '*'
      && m[1..k] == EscapeMarkdownV2(title)
      && ReservedArePreceded(m[1..k])
      && Unescape(m[1..k]) == title
  {
    var t, e, after := EscapeMarkdownV2(title), EscapeMarkdownV2(sentence), LinkAndFooter(link, footer);
    RegroupHead(t, e, after);
    FiveParts("*", t, "*\n\n", e, after);
    EscapedReservedArePreceded(title);
    UnescapeEscape(title);
  }

  /** After the bold title and a blank line comes the escaped sentence, and
      removing the inserted backslashes gives the sentence back. */
  lemma LayoutSentence(title: string, sentence: string, link: string, footer: string)
    ensures var m, e := Layout(title, sentence, link, footer), EscapeMarkdownV2(sentence);
      var k := 1 + |EscapeMarkdownV2(title)|;
      && k + 3 + |e| <= |m|
      && m[k..k + 3] == "*\n\n"
      && m[k + 3..k + 3 + |e|] == e
      && ReservedArePreceded(e)
      && Unescape(e) == sentence
  {
    var t, e, after := EscapeMarkdownV2(title), EscapeMarkdownV2(sentence), LinkAndFooter(link, footer);
    RegroupHead(t, e, after);
    FiveParts("*", t, "*\n\n", e, after);
    EscapedReservedArePreceded(sentence);
    UnescapeEscape(sentence);
  }

  /** The link is copied into the message unescaped, between the label's
      `](` and `)`, and the message ends with the footer. */
  lemma LayoutLinkAndFooter(title: string, sentence: string, link: string, footer: string)
    ensures var m := Layout(title, sentence, link, footer);
      var q := |m| - |footer| - 3 - |link|;
      && |ReadMore| <= q
      && m[q - |ReadMore|..q] == ReadMore
      && m[q..q + |link|] == link
      && m[q + |link|..|m| - |footer|] == ")\n\n"
      && m[|m| - |footer|..] == footer
  {
    var m := Layout(title, sentence, link, footer);
    var t, e := EscapeMarkdownV2(title), EscapeMarkdownV2(sentence);
    var head := "*" + t + "*\n\n" + e + "\n\n";
    Regroup(t, e, link, footer);
    assert m == head + ReadMore + link + ")\n\n" + footer;
    FiveParts(head, ReadMore, link, ")\n\n", footer);
    assert |m| - |footer| - 3 - |link| == |head| + |ReadMore|;
  }

  /** The template read as the text before the label, the label, the link,
      `)` with a blank line, and the footer. */
  lemma Regroup(t: string, e: string, link: string, footer: string)
    ensures "*" + (t + ("*\n\n" + (e + ("\n\n" + (ReadMore + (link + (")\n\n" + footer)))))))
      == ("*" + t + "*\n\n" + e + "\n\n") + ReadMore + link + ")\n\n" + footer
  {
  }

  /** The template read as `*`, the escaped title, `*` with a blank line,
      the escaped sentence and what follows it. */
  lemma RegroupHead(t: string, e: string, after: string)
    ensures "*" + (t + ("*\n\n" + (e + after))) == "*" + t + "*\n\n" + e + after
  {
  }

  /** Where each of five concatenated strings sits in the whole. */
  lemma FiveParts(a: string, b: string, c: string, d: string, e: string)
    ensures var m, i := a + b + c + d + e, |a| + |b|;
      && m[|a|..i] == b
      && m[i..i + |c|] == c
      && m[i + |c|..i + |c| + |d|] == d
      && m[i + |c| + |d|..] == e
  {
  }

  /** `m` shows `title` in bold and then `sentence`, each escaped so that
      removing the inserted backslashes gives it back, then `link` verbatim,
      and ends with `footer`. */
  predicate Carries(m: string, title: string, sentence: string, link: string, footer: string) {
    var k := 1 + |EscapeMarkdownV2(title)|;
    var e := EscapeMarkdownV2(sentence);
    var q := |m| - |footer| - 3 - |link|;
    && k + 3 + |e| <= q <= |m|
    && m[0] == '*' && m[k] == '*'
    && Unescape(m[1..k]) == title
    && Unescape(m[k + 3..k + 3 + |e|]) == sentence
    && m[q..q + |link|] == link
    && m[|m| - |footer|..] == footer
  }

  /** The template carries each of its parts. */
  lemma LayoutCarries(title: string, sentence: string, link: string, footer: string)
    ensures Carries(Layout(title, sentence, link, footer), title, sentence, link, footer)
  {
    LayoutTitle(title, sentence, link, footer);
    LayoutSentence(title, sentence, link, footer);
    LayoutLinkAndFooter(title, sentence, link, footer);
    LayoutLength(title, sentence, link, footer);
  }

  /** A message for an item carries the item's trimmed title and first
      sentence, the link verbatim and the channel footer at its end. */
  lemma MessageCarriesItem(item: FeedItem, link: string, fromCharCode: nat -> char)
    ensures Carries(FormatMessage(item, link, fromCharCode),
      Title(item), Sentence(item, fromCharCode), link, SocialLinks())
  {
    LayoutCarries(Title(item), Sentence(item, fromCharCode), link, SocialLinks());
  }
}
