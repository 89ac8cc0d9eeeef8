# A verified model of the ANF Persian feed-to-Telegram bot

The bot (`persian-bot.js`) polls one RSS feed. For each item whose link it has
not posted before, it builds a Telegram "MarkdownV2" message and publishes it
to a channel. It remembers the link after each successful publish, in a list
bounded by `MAX_POSTED`. This project models the parts of the bot that carry
its logic:

- `escapeMarkdownV2` and the social-links footer: module `Markdown`.
- `decodeEntities`: module `Entities`. Its eight global `replace` calls are
  one ordered list of scan rules.
- `stripHtmlAndDecode` and the first-sentence cut: module `Normalize`.
  JavaScript's whitespace and `trim` live in module `Text`.
- The link an item is known by, and the message template: module `Message`.
- `checkFeed` with its dedup list: module `Dedup`. The class `FeedBot` holds
  the `posted` list and the bound, and its method `CheckFeed` runs one poll
  cycle.
- `Option`: module `Wrappers`.

`CheckFeed` is proved against a pure specification. `Run` folds `Step` over
the items, and `Poll` adds the fetch-failure case. The lemmas about `Run` say
what a cycle does to the list and what it publishes.

Everything the program takes from outside is a parameter:

- The fetched feed is `Option<seq<FeedItem>>`, with `None` for a failed
  fetch.
- Each item's publish outcome is one `bool` per item. It is ignored when the
  item is skipped.
- `new URL(raw, FEED_URL).toString()` is `resolve: string -> Option<string>`,
  with `None` for the exception.
- `String.fromCharCode` is `fromCharCode: nat -> char`.

Some behaviour of the code is easy to misread; the model follows the code:

- The summary strips tags and decodes references in whichever field it picks
  (the raw content or the plain-text snippet), not only in the raw content
  (persian-bot.js:102-103).
- The list is truncated only after a push (persian-bot.js:120-121). A stored
  list longer than the bound stays that long until the next successful
  publish, so `RunBounded` assumes the list starts within the bound.
- The list only remembers the newest `MAX_POSTED` links. A link evicted by a
  later push in the same cycle is no longer known, so an item listed again
  after that is published again. `EvictedLinkPublishedAgain` shows this with
  a bound of 1. While the cycle has room for every item (`RunNoRetry`), no
  link is tried after it was delivered, and the newest links of the stored
  list that no push can evict are never tried (`RunKeepsRecent`).
- A failed publish is not remembered, so an item listed twice whose first
  publish fails is tried again in the same cycle.
- `escapeMarkdownV2` does not escape the backslash itself, so a backslash
  already in the title or summary is copied unchanged.

## Model

| member | source | states |
|---|---|---|
| Text.IsWhitespace | persian-bot.js:79 | the characters `\s` matches and `trim` removes: tab, line feed, vertical tab, form feed, carriage return, space, no-break space, the Unicode space separators, the line and paragraph separators and the byte order mark (a definition; its properties are stated by the trimming and collapsing members) |
| Text.LeadingSpace | persian-bot.js:79 | the length of the leading whitespace run: everything before it is whitespace and the character after it is not |
| Text.TrailingSpace | persian-bot.js:79 | the length of the trailing whitespace run: everything in it is whitespace and the character before it is not |
| Text.TrimStart | persian-bot.js:79 | the result is a suffix of the input that starts with a non-whitespace character; everything dropped is whitespace |
| Text.TrimEnd | persian-bot.js:79 | the result is a prefix of the input that ends with a non-whitespace character; everything dropped is whitespace |
| Text.Trim | persian-bot.js:79 | `trim` gives one slice of the input with no whitespace at either end, and only whitespace lies outside that slice |
| Text.TrimEndOfTrimStart | persian-bot.js:79 | trimming the end after the start leaves one slice of the input with only whitespace outside it |
| Text.TrimOfTrimmed | persian-bot.js:79 | trimming text without whitespace at its ends changes nothing |
| Text.TrimStartAfterBlank | persian-bot.js:79 | a whitespace run in front of text that starts with a visible character is exactly what trimming the start removes |
| Text.LeadingSpaceOfBlank | persian-bot.js:79 | the leading whitespace of a whitespace run followed by a visible character is exactly that run |
| Text.TrimStartConcat | persian-bot.js:79 | trimming the start of text that holds a visible character at its end does not reach what follows it |
| Text.TrimLeadingBlank | persian-bot.js:79-104 | one space before a visible character: trimming both ends is trimming the end only |
| Text.TrimEndKeepsPrefix | persian-bot.js:79-104 | trimming the end keeps every character up to the last visible one |
| Text.TrimTrailingSpace | persian-bot.js:104 | trimmed text followed by one space trims back to the text |
| Markdown.IsReserved | persian-bot.js:48 | the eighteen characters the escaping regex matches: underscore, asterisk, square and round brackets, tilde, backtick, `>`, `#`, `+`, `-`, `=`, vertical bar, curly braces, `.` and `!`; the backslash is not among them (a definition; EscapeAt and EscapedReservedArePreceded state what escaping does with it) |
| Markdown.CountReserved | persian-bot.js:48 | the number of reserved characters is at most the length |
| Markdown.EscapeMarkdownV2 | persian-bot.js:45-49 | the escaped text is longer by exactly the number of reserved characters, and never starts with a reserved character |
| Markdown.Unescape | persian-bot.js:48 | reading back never lengthens the text |
| Markdown.UnescapeEscape | persian-bot.js:45-49 | removing the inserted backslashes gives the input back, including any backslash the input already had |
| Markdown.EscapeConcat | persian-bot.js:48 | escaping distributes over concatenation (the regex is global and works per character) |
| Markdown.EscapeCons | persian-bot.js:48 | escaping a character and the text after it is escaping each in turn |
| Markdown.CountReservedConcat | persian-bot.js:48 | the count of reserved characters adds up over concatenation |
| Markdown.EscapeAt | persian-bot.js:48 | input character `i` lands at `i` plus the number of reserved characters before it; a reserved one gets exactly one backslash in front, any other character is copied |
| Markdown.EscapedReservedArePreceded | persian-bot.js:45-49 | every reserved character of the escaped text directly follows a backslash |
| Markdown.EscapeUnreserved | persian-bot.js:48 | text without reserved characters is left unchanged |
| Markdown.LettersUnreserved | persian-bot.js:48 | text made of ASCII letters needs no escaping |
| Markdown.SocialLinksNeedNoEscaping | persian-bot.js:52-61 | none of the five footer names needs escaping, so each link reads `[name](url)` verbatim |
| Markdown.LinkMarkup | persian-bot.js:59 | one footer link, `[name](url)`, with the name escaped and the URL as it is (a definition; SocialLinksNeedNoEscaping states what it gives for the five links) |
| Markdown.LinksMarkup | persian-bot.js:59 | `map` over the links: one markup per link, in order (a definition) |
| Markdown.Join | persian-bot.js:60 | `join`: the parts in order with the separator between neighbours, `""` for no parts and the part itself for one (a definition) |
| Markdown.SocialLinks | persian-bot.js:52-61 | the footer: the five links' markup joined by an escaped vertical bar between two spaces (a definition; SocialLinksNeedNoEscaping states its links) |
| Entities.Rules | persian-bot.js:66-74 | the eight replacements in the order the code chains them: decimal, hexadecimal, `&quot;`, `&amp;`, `&lt;`, `&gt;`, `&apos;`, `&nbsp;` (a constant; RulesWellFormed, RulesApart and RuleApart state its properties) |
| Entities.DigitValue | persian-bot.js:67-68 | a digit's value is below the base of its radix |
| Entities.DigitsValue | persian-bot.js:67-68 | `parseInt(n, 10)` and `parseInt(n, 16)` on a run of digits, most significant first (a definition; DecimalReference and HexReference state what decoding does with it) |
| Entities.DigitRun | persian-bot.js:67-68 | `\d+` and `[0-9a-fA-F]+` match the longest run of digits at the start |
| Entities.MatchLength | persian-bot.js:67-74 | a match never overruns the text, starts with `&`, and begins with the rule's pattern |
| Entities.DigitRunAt | persian-bot.js:67-68 | the digit run after a position, read in the whole text: digits up to its end, then a non-digit or the end |
| Entities.CharRefMatch | persian-bot.js:67-68 | the numeric pattern matches exactly when the text starts with a numeric reference, and then the match is that reference and no other |
| Entities.Replacement | persian-bot.js:67-74 | the character a match becomes: the named rule's character, or `String.fromCharCode` of the digits (a definition; CharRefDecodes and ApplyEncodeDecodes state it) |
| Entities.Apply | persian-bot.js:67-74 | one global `replace`, scanning left to right and resuming after each match (a definition; ApplyShape, ApplySkip, ApplyCons, ApplyPrefix state its contract) |
| Entities.ApplyAll | persian-bot.js:66-74 | the replacements chained in order (a definition; ApplyAllShape, ApplyAllStep and ApplyAllSplit state its contract) |
| Entities.ApplyShape | persian-bot.js:67-74 | one global `replace` never lengthens the text and leaves text without `&` alone |
| Entities.ApplyAllShape | persian-bot.js:66-74 | the chain of replacements never lengthens the text and leaves text without `&` alone |
| Entities.ApplyAllStep | persian-bot.js:66-74 | the chain is its first replacement, then the rest |
| Entities.DecodeIsApplyAll | persian-bot.js:64-75 | decoding is the chain of the eight replacements in order, the empty string included |
| Entities.RulesWellFormed | persian-bot.js:67-74 | every pattern starts with `&` and is at least two characters long |
| Entities.DecodeEntities | persian-bot.js:64-75 | the empty string gives the empty string; decoding never lengthens the text; text without `&` is unchanged |
| Entities.ApplyPrefix | persian-bot.js:67-74 | a prefix without `&` passes through one replacement unchanged |
| Entities.ApplyEncodeDecodes | persian-bot.js:69-74 | a named replacement undoes the encoding of its own character as its reference |
| Entities.ApplyEncodeUntouched | persian-bot.js:67-74 | a replacement whose pattern is apart from a reference leaves text encoded with that reference alone |
| Entities.ApplyApartPrefix | persian-bot.js:67-74 | a reference apart from the pattern passes through that replacement |
| Entities.ApplySkip | persian-bot.js:67-74 | where the pattern does not match, the leading character is copied and the scan goes on after it |
| Entities.ApplyCons | persian-bot.js:67-74 | a leading character other than `&` is copied and the scan goes on after it |
| Entities.ApplyNoMatch | persian-bot.js:67-74 | where the pattern does not match, the first character is copied |
| Entities.NoMatchApartPrefix | persian-bot.js:67-74 | a pattern apart from a reference never matches at its start |
| Entities.ApplyAllEncodeUntouched | persian-bot.js:67-74 | replacements all apart from a reference leave text encoded with it alone |
| Entities.ApplyAllEncodeDecodes | persian-bot.js:67-74 | a reference decodes back when its rule comes after rules apart from it |
| Entities.RulesApart | persian-bot.js:67-74 | each named pattern is apart from every pattern before it, and none holds a second `&` |
| Entities.RuleApart | persian-bot.js:67-74 | a named pattern is apart from each pattern applied before it |
| Entities.RuleSingleAmp | persian-bot.js:69-74 | each named pattern holds no `&` after its first character |
| Entities.NoAmpAfter | persian-bot.js:69-74 | letters and `;` after the first character leave no second `&` |
| Entities.NamedRule | persian-bot.js:69-74 | a named pattern other than `&amp;` has its one `&` at its start, is apart from every pattern before it, and does not decode to `&` |
| Entities.ApartAt | persian-bot.js:69-74 | two patterns that differ at a shared position are apart |
| Entities.NamedEntityRoundTrip | persian-bot.js:64-75 | on text without `&`, decoding inverts the encoding of any one of the six named characters |
| Entities.ApplyAllSplit | persian-bot.js:66-74 | running the chain is running its first `k` rules, then the rest |
| Entities.ApplyAllApartPrefix | persian-bot.js:67-74 | rules apart from a reference leave it, followed by text without `&`, unchanged |
| Entities.AmpPassesEarlierRules | persian-bot.js:67-69 | the three replacements before the one for `&amp;` leave `&amp;` followed by text without `&` alone |
| Entities.AmpRuleDecodes | persian-bot.js:70 | the `&amp;` replacement turns a leading `&amp;` into `&` and leaves the text without `&` after it alone |
| Entities.AmpDecodedOnce | persian-bot.js:67-70 | the rules up to and including `&amp;` turn `&amp;` and text without `&` into `&` and that text |
| Entities.RulesAfterAmp | persian-bot.js:71-74 | the rules after `&amp;` decode a reference that comes later in the chain and leave an earlier one alone |
| Entities.EscapedReferenceDecoding | persian-bot.js:64-75 | `&amp;name;` is decoded twice when the rule for `&name;` follows the one for `&amp;` (`&amp;lt;` gives `<`), and once otherwise (`&amp;quot;` gives `&quot;`) |
| Entities.ApplyAllSingle | persian-bot.js:67-74 | one character is too short for any pattern |
| Entities.DigitRunOf | persian-bot.js:67-68 | the digit run of digits followed by a non-digit is exactly those digits |
| Entities.CharRefDecodes | persian-bot.js:67-68 | a numeric reference becomes the one character `fromCharCode` gives for its value |
| Entities.HexPassesDecimal | persian-bot.js:67-68 | the decimal pattern leaves a hexadecimal reference alone |
| Entities.DecimalReference | persian-bot.js:67 | `&#` followed by decimal digits and `;` decodes to the character with the code the digits spell |
| Entities.HexReference | persian-bot.js:68 | `&#x` followed by hexadecimal digits and `;` decodes to the character with that code; the decimal rule before it leaves it alone |
| Entities.ApplyAllPrefix | persian-bot.js:66-74 | text without `&` at the front is copied through the whole chain |
| Entities.ApplyLeadingMatch | persian-bot.js:69-74 | a named replacement replaces its reference at the start of the text |
| Entities.ApplyAllLeadingReference | persian-bot.js:69-74 | a leading reference becomes its character, and the rest is decoded as if it stood alone |
| Entities.FirstRuleDecodes | persian-bot.js:69-74 | a reference whose own replacement comes first becomes its character, and the rest is decoded as if it stood alone |
| Entities.LaterRuleDecodes | persian-bot.js:69-74 | a replacement apart from a leading reference passes it on to the rest of the chain |
| Entities.DecodePlainPrefix | persian-bot.js:64-75 | decoding distributes over a prefix without `&` |
| Entities.NamedReferenceDecodes | persian-bot.js:64-75 | a named reference other than `&amp;` at the start decodes to its character, and the rest is decoded on its own |
| Entities.ApplyAllReferencesAround | persian-bot.js:69-74 | text without `&` between two references becomes that text between their characters |
| Entities.ReferencesAround | persian-bot.js:64-75 | text without `&` between two named references other than `&amp;` decodes to that text between their characters |
| Entities.AmpSpaceApart | persian-bot.js:69-74 | `&` followed by a space is not the start of any pattern after `&amp;` |
| Entities.AmpFirstRules | persian-bot.js:67-70 | the rules up to `&amp;` turn a leading `&amp;` into `&` and leave the rest to the later rules |
| Entities.SpaceAfterAmpKept | persian-bot.js:71-74 | the rules after `&amp;` leave `&`, a space and text without `&` alone |
| Entities.AmpSpaceRules | persian-bot.js:66-74 | the whole chain on `&amp;`, a space and text without `&` gives `&`, the space and the text |
| Entities.AmpThenSpace | persian-bot.js:64-75 | decoding `&amp; ` followed by text without `&` gives `& ` and the text |
| Normalize.IndexOfClose | persian-bot.js:79 | the first `>`, or the end when there is none |
| Normalize.IsTag | persian-bot.js:79 | what it means for the first `m` characters to match `<[^>]+>`: a `<`, at least one character other than `>`, then `>` (a definition used by TagLength and TagMatch) |
| Normalize.TagLength | persian-bot.js:79 | a non-zero result is a match of `<[^>]+>` at the start: at least three characters, from `<` to the first `>`, with no `>` in between |
| Normalize.TagMatch | persian-bot.js:79 | the tag pattern matches at the start in at most one way and TagLength finds it; a result of 0 means no prefix is a tag |
| Normalize.StripTags | persian-bot.js:79 | stripping creates no `>`, and keeps a leading `>` |
| Normalize.ConsTagFree | persian-bot.js:79 | a character in front keeps text tag-free unless it is a `<` that could open a tag |
| Normalize.StripTagsTagFree | persian-bot.js:79 | after the tag replacement nothing matches `<[^>]+>` any more |
| Normalize.CollapseWhitespace | persian-bot.js:79 | `\s+` to one space: empty exactly when the input is; keeps whether the text starts with whitespace and a leading visible character; leaves no two whitespace characters together and no whitespace other than a space (CollapseAround states that each run becomes exactly one space) |
| Normalize.CollapseAround | persian-bot.js:79 | a whitespace run between visible characters becomes exactly one space, and the text on each side is collapsed on its own |
| Normalize.CollapseNoWhitespace | persian-bot.js:79 | text without whitespace is left unchanged |
| Normalize.CollapseLeadingSpace | persian-bot.js:79 | one space before a visible character stays one space |
| Normalize.CollapseMarkFirst | persian-bot.js:79 | a leading full stop is copied |
| Normalize.CollapseJoin | persian-bot.js:79 | a word, one space and already collapsed text are left unchanged |
| Normalize.VisibleDropWhitespace | persian-bot.js:79 | dropping leading whitespace changes no visible character |
| Normalize.CollapseVisible | persian-bot.js:79 | collapsing keeps every visible character, in order |
| Normalize.InVisible | persian-bot.js:79 | a visible character occurs in the text exactly when it occurs in the visible part |
| Normalize.TagFreeSlice | persian-bot.js:79 | every slice of tag-free text is tag-free |
| Normalize.CollapseTagFree | persian-bot.js:79 | collapsing whitespace cannot form a tag |
| Normalize.TrimVisible | persian-bot.js:79 | trimming keeps the visible text |
| Normalize.VisibleConcat | persian-bot.js:79 | the visible text adds up over concatenation |
| Normalize.VisibleDropTrailing | persian-bot.js:79 | dropping trailing whitespace changes no visible character |
| Normalize.VisibleAppendBlank | persian-bot.js:79 | appending whitespace changes no visible character |
| Normalize.VisibleAllWhitespace | persian-bot.js:79 | text made of whitespace shows nothing |
| Normalize.StripHtmlAndDecodeClean | persian-bot.js:78-80 | the cleaned text is trimmed, has single spaces as its only whitespace, and holds nothing that matches the tag pattern |
| Normalize.TrimTagFree | persian-bot.js:79 | trimming keeps text tag-free |
| Normalize.TrimSpacing | persian-bot.js:79 | trimming keeps single spaces as the only whitespace |
| Normalize.TrimIsSlice | persian-bot.js:79 | the trimmed text is one slice of the text |
| Normalize.SpacingSlice | persian-bot.js:79 | every slice keeps single spaces as the only whitespace |
| Normalize.StripTagsPlain | persian-bot.js:79 | text without `<` passes through tag stripping unchanged |
| Normalize.StripTagsTag | persian-bot.js:79 | a `<`, a non-empty run without `>`, and a `>` become one space |
| Normalize.StripTagsPlainPrefix | persian-bot.js:79 | text without `<` in front of more text passes through tag stripping unchanged |
| Normalize.StripTagsAround | persian-bot.js:79 | text without `<` between two tags, then more such text: each tag becomes one space |
| Normalize.IndexOfCloseAfter | persian-bot.js:79 | the first `>` after a run without `>` is where the run ends |
| Normalize.EncodedTagRemoved | persian-bot.js:78-80 | references are decoded before tags are removed, so `&lt;b&gt;` disappears like a real tag |
| Normalize.BlankCollapsesAway | persian-bot.js:79 | one space collapses and trims to nothing |
| Normalize.EncodedTagDecodes | persian-bot.js:64-75 | `&lt;`, text without `&`, `&gt;` decodes to a tag around the text |
| Normalize.StripHtmlAndDecodeVisible | persian-bot.js:78-80 | the visible characters of the result are exactly those left after decoding and tag stripping |
| Normalize.StripHtmlAndDecode | persian-bot.js:78-80 | `stripHtmlAndDecode`: decode references, replace each tag with a space, collapse whitespace, trim (a definition; StripHtmlAndDecodeClean, StripHtmlAndDecodeVisible and EncodedTagRemoved state its contract) |
| Normalize.IsSentenceMark | persian-bot.js:104 | the characters `split(/[\.\!\?؟]/)` cuts at: `.`, `!`, `?` and the Arabic question mark (a definition) |
| Normalize.FirstSentence | persian-bot.js:104 | `split` at the sentence marks, the first piece (or `""`) trimmed: the text before the first mark, trimmed (a definition; FirstSentenceClean, FirstSentenceWhole and FirstSentenceBeforeMark state its contract) |
| Normalize.BeforeFirstMark | persian-bot.js:104 | `split(/[.!?؟]/)[0]` is the longest prefix without a sentence mark: a mark follows it unless it is the whole text |
| Normalize.FirstSentenceClean | persian-bot.js:104 | the first sentence holds no sentence mark and is trimmed |
| Normalize.FirstSentenceOfClean | persian-bot.js:103-104 | the first sentence of tag-free, single-spaced text is itself tag-free and single-spaced |
| Normalize.NoSentenceMarkSlice | persian-bot.js:104 | a slice of text without sentence marks has none |
| Normalize.FirstSentenceWhole | persian-bot.js:104 | trimmed text without a sentence mark is its own first sentence |
| Normalize.FirstSentenceBeforeMark | persian-bot.js:104 | the first sentence is the trimmed text before the first mark |
| Normalize.FirstSentenceAtMark | persian-bot.js:104 | text that starts with trimmed text without sentence marks, a space and a full stop has that text as its first sentence |
| Normalize.SpacedTrim | persian-bot.js:79-104 | trimming a space, text, a space, a full stop and more keeps the text, the space and the full stop |
| Normalize.FirstSentenceOfSpaced | persian-bot.js:104 | the first sentence of a space, trimmed text without marks, a space and a full stop is that text |
| Normalize.ParagraphDecodes | persian-bot.js:64-75 | decoding `<p>a &amp; b</p>.t` for words `a`, `b` and text `t` without `&` turns only the `&amp;` into `&` |
| Normalize.ParagraphStrips | persian-bot.js:79 | stripping `<p>u</p>.t` gives a space, `u`, a space, the full stop and `t` |
| Normalize.CollapseWords | persian-bot.js:79 | two words around ` & ` are left unchanged by collapsing |
| Normalize.CollapseParagraph | persian-bot.js:79 | collapsing a space, collapsed text, a space and a full stop only collapses what follows the full stop |
| Normalize.ParagraphCleaned | persian-bot.js:78-80 | the cleaned paragraph is a space, `a & b`, a space and the full stop with the collapsed rest, trimmed |
| Normalize.FirstSentenceOfParagraph | persian-bot.js:78-104 | for any two words and any rest without `<` or `&`, the first sentence of `<p>a &amp; b</p>.rest` is `a & b` |
| Normalize.FirstSentenceExample | persian-bot.js:78-104 | the first sentence of `<p>Visit &amp; stay</p>. More text` is `Visit & stay` |
| Message.ItemLink | persian-bot.js:87-93 | the link is trimmed on both paths; it is the resolved URL when resolution succeeds and the raw link otherwise, with an absent or empty link read as `""` |
| Message.Or | persian-bot.js:102-107 | JavaScript's logical or on an optional string: an absent value and `""` both give the fallback (a definition) |
| Message.SnippetSource | persian-bot.js:102 | `item.contentSnippet || item.content || ""` (a definition; SentenceClean states what the summary made from it satisfies) |
| Message.Title | persian-bot.js:107 | the title put in the message is trimmed |
| Message.Sentence | persian-bot.js:102-104 | the first sentence of the cleaned snippet source (a definition; SentenceClean states its contract) |
| Message.SentenceClean | persian-bot.js:102-104 | the summary line is trimmed, holds no sentence mark and no tag, and has single spaces as its only whitespace |
| Message.LayoutLength | persian-bot.js:107 | the message is as long as the escaped title and sentence, the link, the footer and the 22 fixed characters |
| Message.LayoutTitle | persian-bot.js:107 | the message opens with `*`, the escaped title, `*`; every reserved character of the title there follows a backslash; removing those backslashes gives the title |
| Message.LayoutSentence | persian-bot.js:107 | `*\n\n` and then the escaped sentence follow the title, and removing the inserted backslashes gives the sentence |
| Message.LayoutLinkAndFooter | persian-bot.js:107 | the link stands verbatim between the `[مطالعه خبر](` label and `)\n\n`, and the message ends with the footer |
| Message.LayoutCarries | persian-bot.js:107 | the template carries each of its parts |
| Message.Layout | persian-bot.js:107 | the template: escaped title in bold, blank line, escaped sentence, blank line, `[label](link)`, blank line, footer (a definition; LayoutLength, LayoutTitle, LayoutSentence, LayoutLinkAndFooter and LayoutCarries state its contract) |
| Message.FormatMessage | persian-bot.js:102-107 | the message for an item under its link: the template over its trimmed title, its first sentence, the link and the footer (a definition; MessageCarriesItem states its contract) |
| Message.MessageCarriesItem | persian-bot.js:102-107 | the message for an item carries its trimmed title, its first sentence, the link verbatim and the social-links footer at its end |
| Dedup.SliceStart | persian-bot.js:121 | where `slice(-m)` starts never lies past the end |
| Dedup.Truncate | persian-bot.js:121 | the truncated list is a suffix of the list; with a positive bound it keeps `min(length, bound)` entries; a bound of 0 keeps everything |
| Dedup.Record | persian-bot.js:120-121 | with a positive bound, after a push the list ends with the link, has `min(old length + 1, bound)` entries, and is the newest part of the old list plus the link |
| Dedup.Candidates | persian-bot.js:86-107 | there is one candidate per item |
| Dedup.Run | persian-bot.js:86-126 | a cycle tries at most one publish per item |
| Dedup.Step | persian-bot.js:96-125 | one turn of the loop: skip a posted link; otherwise try the message and record the link only when the publish succeeded (a definition; the Run lemmas state its effect) |
| Dedup.Poll | persian-bot.js:82-130 | a whole `checkFeed`: a failed fetch changes nothing, otherwise the loop over the items' candidates (a definition; PollMessagesCarryItems states its contract) |
| Dedup.Delivered | persian-bot.js:119-121 | there are no more delivered links than publishes tried |
| Dedup.Links | persian-bot.js:111-116 | there is one link per publish tried |
| Dedup.DeliveredSnoc | persian-bot.js:119-121 | one more publish adds its link to the delivered ones exactly when it was accepted |
| Dedup.LinksSnoc | persian-bot.js:111-116 | one more publish adds its link to the links tried |
| Dedup.RunAllKnown | persian-bot.js:96-99 | items whose links are all posted are all skipped: nothing is published and the list is unchanged |
| Dedup.RunAllFailed | persian-bot.js:123-125 | when every publish fails, the list is unchanged, nothing counts as delivered, no link posted before is tried, and every item whose link was not posted before is tried |
| Dedup.RunAllSucceeded | persian-bot.js:110-121 | when every publish succeeds, every link tried counts as delivered |
| Dedup.SameSuffix | persian-bot.js:121 | two suffixes of one list with the same length are equal |
| Dedup.TruncatePush | persian-bot.js:120-121 | truncating before and after a push equals truncating once after it |
| Dedup.ExpectedPush | persian-bot.js:120-121 | recording one more delivery moves the expected list along by that link |
| Dedup.RunPosted | persian-bot.js:86-126 | with a positive bound, the list after a cycle is the newest `bound` entries of the old list followed by the delivered links, or the old list when nothing was delivered |
| Dedup.RunBounded | persian-bot.js:120-121 | with a positive bound, a list that starts within the bound stays within it; after any delivery the list is within the bound and ends with the newest delivered link |
| Dedup.RecordWithRoom | persian-bot.js:120-121 | a push while there is room appends |
| Dedup.RunAppends | persian-bot.js:86-126 | while the bound leaves room for every item, or is 0, the list grows by exactly the delivered links |
| Dedup.RunWithoutEviction | persian-bot.js:96-121 | when the bound has room for the old list and one push per item, so nothing is evicted, a cycle never tries a link posted before it, never delivers a link twice, and tries every item whose link is new |
| Dedup.DistinctSnoc | persian-bot.js:96-99 | adding a new link keeps the links distinct |
| Dedup.AttemptsNew | persian-bot.js:96-99 | one more publish of a new link keeps every link tried new |
| Dedup.CoveredKnown | persian-bot.js:96-99 | a skipped item is covered by the posted list |
| Dedup.CoveredTried | persian-bot.js:101-116 | a tried item is covered by the links tried |
| Dedup.DeliveredTried | persian-bot.js:110-121 | every delivered link was tried |
| Dedup.RerunPublishesNothing | persian-bot.js:96-121 | after a cycle in which every publish succeeded and nothing was evicted, the same feed publishes nothing |
| Dedup.TruncateKeeps | persian-bot.js:121 | an element among the newest `m` survives `slice(-m)` |
| Dedup.DeliveredHas | persian-bot.js:120 | a delivered publish is among the delivered links |
| Dedup.RunKeepsDelivered | persian-bot.js:96-121 | while the bound leaves room for one push per item, every link delivered in a cycle is still listed at its end, whatever the old list's length |
| Dedup.RunNoRetry | persian-bot.js:96-121 | while the bound leaves room for one push per item, no publish tries a link an earlier publish of the cycle delivered, whatever the old list's length |
| Dedup.RunKeepsRecent | persian-bot.js:96-121 | the newest `m - |items|` links of the old list stay listed and are never tried |
| Dedup.EvictedLinkPublishedAgain | persian-bot.js:96-121 | with a bound of 1, list `[A]` and items `B`, `A` both published, the links tried are `B` then `A`: an evicted link is published again |
| Dedup.RunFromCandidates | persian-bot.js:86-116 | every publish tried is the link and message of one of the cycle's own items |
| Dedup.FromCandidatesGrow | persian-bot.js:86 | an attempt drawn from the first items is drawn from all of them |
| Dedup.FromSomeGrow | persian-bot.js:86 | a publish drawn from the first items is drawn from all of them |
| Dedup.CandidateCarries | persian-bot.js:87-107 | an item's candidate is its link and a message that carries that item |
| Dedup.PollMessagesCarryItems | persian-bot.js:86-116 | every message a cycle sends is the template for one of the feed's items under the link it is sent for: that item's title and first sentence, the link verbatim, the footer at the end |
| Dedup.AttemptsCarry | persian-bot.js:86-116 | publishes built from the candidates each carry one of the items |
| Dedup.AttemptCarries | persian-bot.js:86-116 | a publish built from one candidate carries that candidate's item |
| Dedup.CandidateAt | persian-bot.js:87-107 | an item's candidate is its resolved link and the message built for that link |
| Dedup.RunSnoc | persian-bot.js:86 | the loop over one more item is one more step |
| Dedup.FeedBot.constructor | persian-bot.js:27-35 | the list starts as the stored list, or empty when there is none or it cannot be read |
| Dedup.FeedBot.RecordPosted | persian-bot.js:120-121 | push, then keep the newest `maxPosted` links when the list is too long: the new list is `Record` of the old one |
| Dedup.FeedBot.HandleItem | persian-bot.js:96-121 | one pass of the loop body: from the state after the first `i` items it reaches the state after the first `i + 1`, skipping a known link and otherwise publishing and recording on success |
| Dedup.FeedBot.CheckFeed | persian-bot.js:82-130 | the list afterwards and the publishes tried are exactly those of `Poll` on the old list (unchanged, with nothing tried, when the fetch fails); with a positive bound, a list within the bound stays within it |

## Left out

- Fetching and parsing the feed (`parser.parseURL`): the feed is a parameter, `None` when the fetch fails.
- The HTTP call to the Telegram API (`axios.post`): its outcome is one `bool` per item, given up front.
- URL resolution (`new URL(raw, FEED_URL)`): it is the `resolve` parameter, whose exception is `None`.
- `String.fromCharCode`: it is the `fromCharCode` parameter. The UTF-16 code-unit semantics and the wrap to 16 bits are not modelled.
- Reading `posted.json`: the constructor takes the stored list as an `Option`. A file holding valid JSON that is not a list of strings is not modelled.
- `savePosted` and the file write: durable storage is not modelled. The list is only modelled in memory.
- Environment variables, the startup check with `process.exit`, `setInterval` and the first call: the bound is a constructor argument, and one `CheckFeed` call is one cycle.
- A bound that `parseInt` turns into `NaN`: the bound is an integer. With `NaN` the list would never be truncated.
- Cycles that overlap because a cycle outlasts the interval: calls are sequential in the model.
- Logging to the console: no observable effect besides output.
- Markdown.Unescape: reads a backslash as an escape only before a reserved character. `escapeMarkdownV2` does not escape `\` itself, and Telegram also reads a backslash before a backslash as an escape. So a title with `\` directly before a reserved character is read differently by the platform than `Unescape` says.
- Message.ItemLink: `item.title || link` appears only in log lines and is not modelled.
- Dedup.Candidates: it builds a message for every item, including skipped ones, as a pure value. `CheckFeed` builds the message only for items it does not skip, as the source does.
- Dedup.RunWithoutEviction: needs room for the old list and one push per item (`|posted| + |items| <= m`). Once `slice(-m)` evicts a link within a cycle, a later item with that link is tried and published again (`EvictedLinkPublishedAgain`). `RunNoRetry` and `RunKeepsRecent` state what still holds when only `|items| <= m`.
