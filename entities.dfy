/** `decodeEntities`: eight global substitutions applied one after the other,
    each a left-to-right scan that replaces every non-overlapping match of
    its pattern by one character and does not look at what it inserted. */
module Entities {
  import opened Text

  /** The two kinds of numeric character reference: `&#(\d+);` and
      `&#x([0-9a-fA-F]+);`. */
  datatype Radix = Decimal | Hex

  /** One substitution: a numeric reference, decoded through `fromCharCode`,
      or a named one, replaced by its fixed character. */
  datatype Rule = CharRef(radix: Radix) | Named(entity: string, decoded: char)

  /** The substitutions in the order `decodeEntities` applies them. */
  const Rules: seq<Rule> := [
    CharRef(Decimal),
    CharRef(Hex),
    Named("&quot;", '"'),
    Named("&amp;", '&'),
    Named("&lt;", '<'),
    Named("&gt;", '>'),
    Named("&apos;", '\''),
    Named("&nbsp;", ' ')
  ]

  predicate IsDigit(c: char, radix: Radix) {
    match radix
    case Decimal => '0' <= c <= '9'
    case Hex => '0' <= c <= '9' || 'a' <= c <= 'f' || 'A' <= c <= 'F'
  }

  function Base(radix: Radix): nat {
    match radix
    case Decimal => 10
    case Hex => 16
  }

  function DigitValue(c: char, radix: Radix): (v: nat)
    requires IsDigit(c, radix)
    ensures v < Base(radix)
  {
    if '0' <= c <= '9' then c as nat - '0' as nat
    else if 'a' <= c <= 'f' then c as nat - 'a' as nat + 10
    else c as nat - 'A' as nat + 10
  }

  predicate AllDigits(ds: string, radix: Radix) {
    forall i :: 0 <= i < |ds| ==> IsDigit(ds[i], radix)
  }

  /** The number a run of digits spells, most significant digit first. */
  function DigitsValue(ds: string, radix: Radix): nat
    requires AllDigits(ds, radix)
  {
    if ds == [] then 0
    else DigitsValue(ds[..|ds| - 1], radix) * Base(radix) + DigitValue(ds[|ds| - 1], radix)
  }

  /** The length of the longest run of digits at the start of `s`. */
  function DigitRun(s: string, radix: Radix): (n: nat)
    ensures n <= |s|
    ensures AllDigits(s[..n], radix)
    ensures n < |s| ==> !IsDigit(s[n], radix)
  {
    if s != [] && IsDigit(s[0], radix) then 1 + DigitRun(s[1..], radix) else 0
  }

  /** What a match of the rule begins with. */
  function RulePrefix(rule: Rule): string {
    match rule
    case CharRef(Decimal) => "&#"
    case CharRef(Hex) => "&#x"
    case Named(entity, _) => entity
  }

  /** A well-formed rule: its pattern starts with `&` and is at least two
      characters long. */
  predicate WellFormed(rule: Rule) {
    |RulePrefix(rule)| >= 2 && RulePrefix(rule)[0] == '&'
  }

  /** `s[..n]` is a numeric reference: the prefix, one or more digits, `;`. */
  predicate IsCharRef(s: string, radix: Radix, n: nat) {
    var p := RulePrefix(CharRef(radix));
    && |p| + 2 <= n <= |s|
    && p <= s
    && (forall i :: |p| <= i < n - 1 ==> IsDigit(s[i], radix))
    && s[n - 1] == ';'
  }

  /** The length of the match of `rule` at the very start of `s`, or 0 when
      the pattern does not match there. */
  function MatchLength(s: string, rule: Rule): (n: nat)
    requires WellFormed(rule)
    ensures n <= |s|
    ensures n > 0 ==> n >= 2 && RulePrefix(rule) <= s && s[0] == '&'
  {
    var p := RulePrefix(rule);
    if !(p <= s) then 0
    else match rule
      case Named(_, _) => |p|
      case CharRef(radix) =>
        var k := DigitRun(s[|p|..], radix);
        if k > 0 && |p| + k < |s| && s[|p| + k] == ';' then |p| + k + 1 else 0
  }

  /** A numeric pattern matches at the start of `s` exactly when `s` begins
      with a numeric reference, and then the match is that reference: the
      greedy digit run leaves no other way to reach the `;`. */
  lemma CharRefMatch(s: string, radix: Radix)
    ensures var n := MatchLength(s, CharRef(radix));
      && (n > 0 ==> IsCharRef(s, radix, n))
      && (forall m: nat :: IsCharRef(s, radix, m) ==> m == n)
  {
    var p := RulePrefix(CharRef(radix));
    var n := MatchLength(s, CharRef(radix));
    if p <= s {
      var k := DigitRun(s[|p|..], radix);
      DigitRunAt(s, |p|, radix);
      forall m: nat | IsCharRef(s, radix, m)
        ensures m == n
      {
        assert !IsDigit(s[m - 1], radix);
        assert m - 1 == |p| + k;
      }
    }
  }

  /** The digit run after position `a`, in terms of `s` itself. */
  lemma DigitRunAt(s: string, a: nat, radix: Radix)
    requires a <= |s|
    ensures var k := DigitRun(s[a..], radix);
      && a + k <= |s|
      && (forall i :: a <= i < a + k ==> IsDigit(s[i], radix))
      && (a + k < |s| ==> !IsDigit(s[a + k], radix))
  {
    var k := DigitRun(s[a..], radix);
    forall i | a <= i < a + k
      ensures IsDigit(s[i], radix)
    {
      assert s[a..][..k][i - a] == s[i];
    }
    if a + k < |s| {
      assert s[a..][k] == s[a + k];
    }
  }

  /** The character a match of `rule` at the start of `s` is replaced by. */
  function Replacement(s: string, rule: Rule, fromCharCode: nat -> char): char
    requires WellFormed(rule) && MatchLength(s, rule) > 0
  {
    match rule
    case Named(_, decoded) => decoded
    case CharRef(radix) =>
      var p := RulePrefix(rule);
      var n := MatchLength(s, rule);
      assert AllDigits(s[|p|..n - 1], radix) by {
        var k := DigitRun(s[|p|..], radix);
        assert s[|p|..n - 1] == s[|p|..][..k];
      }
      fromCharCode(DigitsValue(s[|p|..n - 1], radix))
  }

  /** One global `replace`: scan left to right; replace each match and go on
      after it; copy every other character. */
  function Apply(s: string, rule: Rule, fromCharCode: nat -> char): string
    requires WellFormed(rule)
    decreases |s|
  {
    if s == [] then []
    else
      var n := MatchLength(s, rule);
      if n > 0 then [Replacement(s, rule, fromCharCode)] + Apply(s[n..], rule, fromCharCode)
      else [s[0]] + Apply(s[1..], rule, fromCharCode)
  }

  predicate AllWellFormed(rules: seq<Rule>) {
    forall i :: 0 <= i < |rules| ==> WellFormed(rules[i])
  }

  /** The substitutions one after the other, each over the whole string. */
  function ApplyAll(s: string, rules: seq<Rule>, fromCharCode: nat -> char): string
    requires AllWellFormed(rules)
    decreases |rules|
  {
    if rules == [] then s
    else ApplyAll(Apply(s, rules[0], fromCharCode), rules[1..], fromCharCode)
  }

  lemma RulesWellFormed()
    ensures AllWellFormed(Rules)
  {
  }

  /** `decodeEntities`: the empty string gives the empty string; otherwise
      the eight substitutions in order. Decoding never lengthens the text
      and leaves text without `&` alone. */
  function DecodeEntities(s: string, fromCharCode: nat -> char): (r: string)
    ensures s == [] ==> r == []
    ensures |r| <= |s|
    ensures '&' !in s ==> r == s
  {
    RulesWellFormed();
    ApplyAllShape(s, Rules, fromCharCode);
    if s == [] then "" else ApplyAll(s, Rules, fromCharCode)
  }

  /** One global `replace` never lengthens the text and leaves text without
      `&` alone. */
  lemma {:induction false} ApplyShape(s: string, rule: Rule, fromCharCode: nat -> char)
    requires WellFormed(rule)
    ensures var r := Apply(s, rule, fromCharCode);
      |r| <= |s| && ('&' !in s ==> r == s)
    decreases |s|
  {
    if s != [] {
      var n := MatchLength(s, rule);
      if n > 0 {
        ApplyShape(s[n..], rule, fromCharCode);
      } else {
        ApplyShape(s[1..], rule, fromCharCode);
        if '&' !in s {
          assert '&' !in s[1..];
          assert s == [s[0]] + s[1..];
        }
      }
    }
  }

  /** The whole chain never lengthens the text and leaves text without `&`
      alone. */
  lemma {:induction false} ApplyAllShape(s: string, rules: seq<Rule>, fromCharCode: nat -> char)
    requires AllWellFormed(rules)
    ensures var r := ApplyAll(s, rules, fromCharCode);
      |r| <= |s| && ('&' !in s ==> r == s)
    decreases |rules|
  {
    if rules != [] {
      ApplyShape(s, rules[0], fromCharCode);
      ApplyAllShape(Apply(s, rules[0], fromCharCode), rules[1..], fromCharCode);
    }
  }

  /** Each `c` of `s` written as the reference `e`: what an HTML writer does
      to the character a named rule decodes. */
  function Encode(s: string, c: char, e: string): (r: string)
  {
    if s == [] then [] else (if s[0] == c then e else [s[0]]) + Encode(s[1..], c, e)
  }

  /** Neither string is a prefix of the other: they differ somewhere in
      their common length, so where one matches the other does not. */
  predicate Apart(a: string, b: string) {
    !(a <= b) && !(b <= a)
  }

  /** A prefix without `&` is copied through a substitution untouched. */
  lemma {:induction false} ApplyPrefix(w: string, x: string, rule: Rule, fromCharCode: nat -> char)
    requires WellFormed(rule) && '&' !in w
    ensures Apply(w + x, rule, fromCharCode) == w + Apply(x, rule, fromCharCode)
  {
    if w != [] {
      var y := Apply(x, rule, fromCharCode);
      ApplyPrefix(w[1..], x, rule, fromCharCode);
      ApplyCons(w[0], w[1..] + x, rule, fromCharCode);
      HeadSplit(w, x);
      HeadSplit(w, y);
    } else {
      assert w + x == x;
    }
  }

  /** A named rule undoes the encoding of its own character. */
  lemma {:induction false} ApplyEncodeDecodes(s: string, e: string, c: char, fromCharCode: nat -> char)
    requires WellFormed(Named(e, c)) && '&' !in s
    ensures Apply(Encode(s, c, e), Named(e, c), fromCharCode) == s
  {
    if s != [] {
      var rest := Encode(s[1..], c, e);
      ApplyEncodeDecodes(s[1..], e, c, fromCharCode);
      if s[0] == c {
        assert Encode(s, c, e) == e + rest;
        DropPrefix(e, rest);
      } else {
        assert Encode(s, c, e) == [s[0]] + rest;
        ConsTail(s[0], rest);
      }
    }
  }

  /** A rule whose pattern is apart from `e` leaves an encoding with `e`
      as it is. */
  lemma {:induction false} ApplyEncodeUntouched(s: string, e: string, c: char, rule: Rule, fromCharCode: nat -> char)
    requires WellFormed(rule) && '&' !in s
    requires |e| >= 1 && e[0] == '&' && '&' !in e[1..]
    requires Apart(RulePrefix(rule), e)
    ensures Apply(Encode(s, c, e), rule, fromCharCode) == Encode(s, c, e)
  {
    if s != [] {
      var rest := Encode(s[1..], c, e);
      ApplyEncodeUntouched(s[1..], e, c, rule, fromCharCode);
      if s[0] == c {
        assert Encode(s, c, e) == e + rest;
        ApplyApartPrefix(e, rest, rule, fromCharCode);
      } else {
        var t := [s[0]] + rest;
        assert Encode(s, c, e) == t;
        ConsTail(s[0], rest);
        ApplyNoMatch(t, rule, fromCharCode);
      }
    }
  }

  /** A reference apart from the rule's pattern passes through it. */
  lemma {:induction false} ApplyApartPrefix(e: string, x: string, rule: Rule, fromCharCode: nat -> char)
    requires WellFormed(rule) && Apart(RulePrefix(rule), e)
    requires |e| >= 1 && e[0] == '&' && '&' !in e[1..]
    ensures Apply(e + x, rule, fromCharCode) == e + Apply(x, rule, fromCharCode)
  {
    var y := Apply(x, rule, fromCharCode);
    NoMatchApartPrefix(e, x, rule);
    HeadSplit(e, x);
    ApplySkip(e[0], e[1..] + x, rule, fromCharCode);
    ApplyPrefix(e[1..], x, rule, fromCharCode);
    HeadSplit(e, y);
  }

  /** A character other than `&` is copied and the scan goes on after it. */
  lemma ApplyCons(c: char, z: string, rule: Rule, fromCharCode: nat -> char)
    requires WellFormed(rule) && c != '&'
    ensures Apply([c] + z, rule, fromCharCode) == [c] + Apply(z, rule, fromCharCode)
  {
    ApplySkip(c, z, rule, fromCharCode);
  }

  /** Where the pattern does not match, the leading character is copied and
      the scan goes on after it. */
  lemma ApplySkip(c: char, z: string, rule: Rule, fromCharCode: nat -> char)
    requires WellFormed(rule) && (c != '&' || MatchLength([c] + z, rule) == 0)
    ensures Apply([c] + z, rule, fromCharCode) == [c] + Apply(z, rule, fromCharCode)
  {
    ConsTail(c, z);
    ApplyNoMatch([c] + z, rule, fromCharCode);
  }

  /** Where the rule does not match, the first character is copied. */
  lemma ApplyNoMatch(t: string, rule: Rule, fromCharCode: nat -> char)
    requires WellFormed(rule) && t != [] && (t[0] != '&' || MatchLength(t, rule) == 0)
    ensures Apply(t, rule, fromCharCode) == [t[0]] + Apply(t[1..], rule, fromCharCode)
  {
  }

  /** A pattern apart from `e` never matches at the start of `e + x`. */
  lemma NoMatchApartPrefix(e: string, x: string, rule: Rule)
    requires WellFormed(rule) && Apart(RulePrefix(rule), e)
    ensures MatchLength(e + x, rule) == 0
  {
    var p, t := RulePrefix(rule), e + x;
    if |p| <= |e| {
      assert !(p <= e);
    } else {
      assert !(e <= p);
    }
  }

  /** Rules that are all apart from `e` leave an encoding with `e` alone. */
  lemma {:induction false} ApplyAllEncodeUntouched(s: string, e: string, c: char, rules: seq<Rule>, fromCharCode: nat -> char)
    requires AllWellFormed(rules) && '&' !in s
    requires |e| >= 1 && e[0] == '&' && '&' !in e[1..]
    requires forall i :: 0 <= i < |rules| ==> Apart(RulePrefix(rules[i]), e)
    ensures ApplyAll(Encode(s, c, e), rules, fromCharCode) == Encode(s, c, e)
    decreases |rules|
  {
    if rules != [] {
      ApplyEncodeUntouched(s, e, c, rules[0], fromCharCode);
      ApplyAllEncodeUntouched(s, e, c, rules[1..], fromCharCode);
    }
  }

  /** When the rule for `e` comes after rules that are all apart from `e`,
      the whole chain decodes the encoding back to `s`. */
  lemma {:induction false} ApplyAllEncodeDecodes(s: string, e: string, c: char, rules: seq<Rule>, j: nat, fromCharCode: nat -> char)
    requires AllWellFormed(rules) && '&' !in s
    requires j < |rules| && rules[j] == Named(e, c)
    requires '&' !in e[1..]
    requires forall i :: 0 <= i < j ==> Apart(RulePrefix(rules[i]), e)
    ensures ApplyAll(Encode(s, c, e), rules, fromCharCode) == s
    decreases j
  {
    if j == 0 {
      ApplyEncodeDecodes(s, e, c, fromCharCode);
      ApplyAllShape(s, rules[1..], fromCharCode);
    } else {
      ApplyEncodeUntouched(s, e, c, rules[0], fromCharCode);
      ApplyAllEncodeDecodes(s, e, c, rules[1..], j - 1, fromCharCode);
    }
  }

  /** Each named pattern is apart from every pattern before it, and none
      holds a second `&`. */
  lemma RulesApart()
    ensures forall i, j :: 0 <= i < j < |Rules| && Rules[j].Named? ==>
      Apart(RulePrefix(Rules[i]), Rules[j].entity)
    ensures forall j :: 2 <= j < |Rules| ==> Rules[j].Named? && '&' !in Rules[j].entity[1..]
  {
    forall i, j | 0 <= i < j < |Rules| && Rules[j].Named?
      ensures Apart(RulePrefix(Rules[i]), Rules[j].entity)
    {
      RuleApart(i, j);
    }
    forall j | 2 <= j < |Rules|
      ensures Rules[j].Named? && '&' !in Rules[j].entity[1..]
    {
      RuleSingleAmp(j);
    }
  }

  /** The pattern of rule `j` is apart from that of an earlier rule `i`:
      they differ in their second character, except `&amp;` and `&apos;`,
      which differ in their third. */
  lemma RuleApart(i: nat, j: nat)
    requires i < j < |Rules| && Rules[j].Named?
    ensures Apart(RulePrefix(Rules[i]), Rules[j].entity)
  {
    var a, b := RulePrefix(Rules[i]), Rules[j].entity;
    if i == 3 && j == 6 {
      ApartAt(a, b, 2);
    } else {
      ApartAt(a, b, 1);
    }
  }

  /** A named rule other than `&amp;`: its pattern holds one `&`, at its
      start, it is apart from every rule before it, and its character is not
      `&`. */
  lemma NamedRule(j: nat)
    requires 2 <= j < |Rules| && j != 3
    ensures Rules[j].Named? && Rules[j].decoded != '&'
    ensures var e := Rules[j].entity;
      |e| >= 1 && e[0] == '&' && '&' !in e[1..]
    ensures forall k :: 0 <= k < j ==> Apart(RulePrefix(Rules[k]), Rules[j].entity)
  {
    RulesWellFormed();
    RuleSingleAmp(j);
    forall k | 0 <= k < j
      ensures Apart(RulePrefix(Rules[k]), Rules[j].entity)
    {
      RuleApart(k, j);
    }
  }

  /** A named pattern holds `&` only at its start. */
  lemma RuleSingleAmp(j: nat)
    requires 2 <= j < |Rules|
    ensures Rules[j].Named? && '&' !in Rules[j].entity[1..]
  {
    var e := Rules[j].entity;
    assert forall k :: 1 <= k < |e| ==> 'a' <= e[k] <= 'z' || e[k] == ';';
    NoAmpAfter(e);
  }

  /** Letters and `;` after the first character leave no second `&`. */
  lemma NoAmpAfter(e: string)
    requires e != []
    requires forall k :: 1 <= k < |e| ==> 'a' <= e[k] <= 'z' || e[k] == ';'
    ensures '&' !in e[1..]
  {
    forall k | 0 <= k < |e| - 1
      ensures e[1..][k] != '&'
    {
      assert e[1..][k] == e[k + 1];
    }
  }

  lemma ApartAt(a: string, b: string, k: nat)
    requires k < |a| && k < |b| && a[k] != b[k]
    ensures Apart(a, b)
  {
  }

  /** On text without `&`, decoding inverts the encoding of any one of the
      six named characters as its reference. */
  lemma NamedEntityRoundTrip(s: string, j: nat, fromCharCode: nat -> char)
    requires 2 <= j < |Rules| && '&' !in s
    ensures var rule := Rules[j];
      DecodeEntities(Encode(s, rule.decoded, rule.entity), fromCharCode) == s
  {
    RulesWellFormed();
    RulesApart();
    var rule := Rules[j];
    ApplyAllEncodeDecodes(s, rule.entity, rule.decoded, Rules, j, fromCharCode);
  }

  /** Running a chain of rules is running its first `k` rules, then the rest. */
  lemma {:induction false} ApplyAllSplit(s: string, rules: seq<Rule>, k: nat, fromCharCode: nat -> char)
    requires AllWellFormed(rules) && k <= |rules|
    ensures ApplyAll(s, rules, fromCharCode)
      == ApplyAll(ApplyAll(s, rules[..k], fromCharCode), rules[k..], fromCharCode)
    decreases k
  {
    if k > 0 {
      assert rules[..k][1..] == rules[1..][..k - 1];
      assert rules[k..] == rules[1..][k - 1..];
      ApplyAllSplit(Apply(s, rules[0], fromCharCode), rules[1..], k - 1, fromCharCode);
    }
  }

  /** Rules apart from the reference `e` leave `e` followed by text without
      `&` alone. */
  lemma {:induction false} ApplyAllApartPrefix(e: string, x: string, rules: seq<Rule>, fromCharCode: nat -> char)
    requires AllWellFormed(rules)
    requires forall i :: 0 <= i < |rules| ==> Apart(RulePrefix(rules[i]), e)
    requires |e| >= 1 && e[0] == '&' && '&' !in e[1..] && '&' !in x
    ensures ApplyAll(e + x, rules, fromCharCode) == e + x
    decreases |rules|
  {
    if rules != [] {
      ApplyApartPrefix(e, x, rules[0], fromCharCode);
      ApplyShape(x, rules[0], fromCharCode);
      ApplyAllApartPrefix(e, x, rules[1..], fromCharCode);
    }
  }

  /** The rules before the one for `&amp;` leave `&amp;` followed by text
      without `&` alone, and that rule turns it into `&` and the text. */
  lemma {:induction false} AmpDecodedOnce(w: string, fromCharCode: nat -> char)
    requires '&' !in w
    ensures AllWellFormed(Rules)
    ensures ApplyAll("&amp;" + w, Rules[..4], fromCharCode) == ['&'] + w
  {
    RulesWellFormed();
    var s := "&amp;" + w;
    ApplyAllSplit(s, Rules[..4], 3, fromCharCode);
    assert Rules[..4][..3] == Rules[..3];
    assert Rules[..4][3..] == [Rules[3]];
    AmpPassesEarlierRules(w, fromCharCode);
    AmpRuleDecodes(w, fromCharCode);
  }

  /** The three rules before the one for `&amp;` leave `&amp;` followed by
      text without `&` alone. */
  lemma AmpPassesEarlierRules(w: string, fromCharCode: nat -> char)
    requires '&' !in w
    ensures AllWellFormed(Rules[..3])
    ensures ApplyAll("&amp;" + w, Rules[..3], fromCharCode) == "&amp;" + w
  {
    RulesWellFormed();
    var amp, rules := Rules[3].entity, Rules[..3];
    assert amp == "&amp;";
    RuleSingleAmp(3);
    forall i | 0 <= i < |rules|
      ensures Apart(RulePrefix(rules[i]), amp)
    {
      assert rules[i] == Rules[i];
      RuleApart(i, 3);
    }
    ApplyAllApartPrefix(amp, w, rules, fromCharCode);
  }

  /** The rule for `&amp;` turns a leading `&amp;` into `&` and leaves text
      without `&` after it alone. */
  lemma AmpRuleDecodes(w: string, fromCharCode: nat -> char)
    requires '&' !in w
    ensures AllWellFormed([Rules[3]])
    ensures ApplyAll("&amp;" + w, [Rules[3]], fromCharCode) == ['&'] + w
  {
    var amp := "&amp;";
    var rule := Named(amp, '&');
    assert Rules[3] == rule;
    ApplyLeadingMatch(amp, '&', w, fromCharCode);
    ApplyShape(w, rule, fromCharCode);
    ApplyAllStep("&amp;" + w, [rule], fromCharCode);
  }

  /** The rules after the one for `&amp;` decode a later reference `e` and
      leave an earlier one alone. */
  lemma {:induction false} RulesAfterAmp(j: nat, fromCharCode: nat -> char)
    requires 2 <= j < |Rules|
    ensures AllWellFormed(Rules)
    ensures var e, c := Rules[j].entity, Rules[j].decoded;
      ApplyAll(e, Rules[4..], fromCharCode) == if j > 3 then [c] else e
  {
    RulesWellFormed();
    RulesApart();
    var rule := Rules[j];
    assert rule.Named? && '&' !in rule.entity[1..];
    var e, c := rule.entity, rule.decoded;
    var tail := Rules[4..];
    assert AllWellFormed(tail);
    assert e + [] == e;
    if j > 3 {
      assert c != '&';
      assert tail[j - 4] == Named(e, c);
      forall i | 0 <= i < j - 4
        ensures Apart(RulePrefix(tail[i]), e)
      {
        assert tail[i] == Rules[i + 4];
      }
      assert Encode([c], c, e) == e + [];
      ApplyAllEncodeDecodes([c], e, c, tail, j - 4, fromCharCode);
    } else {
      forall i | 0 <= i < |tail|
        ensures Apart(RulePrefix(tail[i]), e)
      {
        assert tail[i] == Rules[i + 4] && RulePrefix(rule) == e;
        assert Apart(RulePrefix(rule), tail[i].entity);
      }
      ApplyAllApartPrefix(e, [], tail, fromCharCode);
    }
  }

  /** An escaped reference `&amp;name;` is decoded twice when the rule for
      `&name;` comes after the one for `&amp;` (`&amp;lt;` gives `<`), and
      once, to `&name;`, otherwise (`&amp;quot;` gives `&quot;`). */
  lemma {:induction false} EscapedReferenceDecoding(j: nat, fromCharCode: nat -> char)
    requires 2 <= j < |Rules|
    ensures var e, c := Rules[j].entity, Rules[j].decoded;
      DecodeEntities("&amp;" + e[1..], fromCharCode) == if j > 3 then [c] else e
  {
    RulesWellFormed();
    RuleSingleAmp(j);
    var e := Rules[j].entity;
    var s := "&amp;" + e[1..];
    DecodeIsApplyAll(s, fromCharCode);
    ApplyAllSplit(s, Rules, 4, fromCharCode);
    AmpDecodedOnce(e[1..], fromCharCode);
    assert WellFormed(Rules[j]);
    Uncons(e);
    RulesAfterAmp(j, fromCharCode);
  }

  /** A single character is too short for any pattern. */
  lemma {:induction false} ApplyAllSingle(x: char, rules: seq<Rule>, fromCharCode: nat -> char)
    requires AllWellFormed(rules)
    ensures ApplyAll([x], rules, fromCharCode) == [x]
    decreases |rules|
  {
    if rules != [] {
      assert MatchLength([x], rules[0]) == 0;
      assert Apply([x], rules[0], fromCharCode) == [x] + Apply([x][1..], rules[0], fromCharCode);
      ApplyAllSingle(x, rules[1..], fromCharCode);
    }
  }

  lemma {:induction false} DigitRunOf(ds: string, rest: string, radix: Radix)
    requires AllDigits(ds, radix) && (rest == [] || !IsDigit(rest[0], radix))
    ensures DigitRun(ds + rest, radix) == |ds|
  {
    if ds != [] {
      assert (ds + rest)[1..] == ds[1..] + rest;
      DigitRunOf(ds[1..], rest, radix);
    } else {
      assert ds + rest == rest;
    }
  }

  /** The parts of a numeric reference: prefix, digits, `;`. */
  lemma ReferenceParts(p: string, ds: string)
    ensures var s := p + ds + ";";
      && p <= s && s[|p|..] == ds + ";" && s[|p| + |ds|] == ';'
      && s[|p|..|s| - 1] == ds && s[|s|..] == []
  {
    var s := p + ds + ";";
    assert s[|p|..] == ds + ";";
  }

  /** The numeric pattern of `radix` turns a whole reference into the one
      character `fromCharCode` gives for its value. */
  lemma CharRefDecodes(radix: Radix, ds: string, fromCharCode: nat -> char)
    requires ds != [] && AllDigits(ds, radix)
    ensures var s := RulePrefix(CharRef(radix)) + ds + ";";
      Apply(s, CharRef(radix), fromCharCode) == [fromCharCode(DigitsValue(ds, radix))]
  {
    var p := RulePrefix(CharRef(radix));
    var s := p + ds + ";";
    ReferenceParts(p, ds);
    DigitRunOf(ds, ";", radix);
    assert MatchLength(s, CharRef(radix)) == |s|;
  }

  /** `&#` followed by decimal digits and `;` decodes to the character whose
      code the digits spell. */
  lemma DecimalReference(ds: string, fromCharCode: nat -> char)
    requires ds != [] && AllDigits(ds, Decimal)
    ensures DecodeEntities("&#" + ds + ";", fromCharCode) == [fromCharCode(DigitsValue(ds, Decimal))]
  {
    RulesWellFormed();
    var x := fromCharCode(DigitsValue(ds, Decimal));
    CharRefDecodes(Decimal, ds, fromCharCode);
    ApplyAllSingle(x, Rules[1..], fromCharCode);
  }

  /** `&#x` followed by hexadecimal digits and `;` decodes to the character
      whose code the digits spell; the decimal rule before it leaves it. */
  lemma HexReference(ds: string, fromCharCode: nat -> char)
    requires ds != [] && AllDigits(ds, Hex)
    ensures DecodeEntities("&#x" + ds + ";", fromCharCode) == [fromCharCode(DigitsValue(ds, Hex))]
  {
    var s := "&#x" + ds + ";";
    var x := fromCharCode(DigitsValue(ds, Hex));
    DecodeIsApplyAll(s, fromCharCode);
    ApplyAllStep(s, Rules, fromCharCode);
    assert Rules[0] == CharRef(Decimal) && Rules[1..][0] == CharRef(Hex) && Rules[1..][1..] == Rules[2..];
    HexPassesDecimal(ds, fromCharCode);
    ApplyAllStep(s, Rules[1..], fromCharCode);
    CharRefDecodes(Hex, ds, fromCharCode);
    ApplyAllSingle(x, Rules[2..], fromCharCode);
  }

  /** The decimal pattern does not match a hexadecimal reference, which
      holds no other `&`. */
  lemma HexPassesDecimal(ds: string, fromCharCode: nat -> char)
    requires AllDigits(ds, Hex)
    ensures var s := "&#x" + ds + ";";
      Apply(s, CharRef(Decimal), fromCharCode) == s
  {
    var s := "&#x" + ds + ";";
    assert s[2..] == "x" + ds + ";";
    assert MatchLength(s, CharRef(Decimal)) == 0;
    assert '&' !in s[1..];
    ApplyShape(s[1..], CharRef(Decimal), fromCharCode);
    assert Apply(s, CharRef(Decimal), fromCharCode) == [s[0]] + Apply(s[1..], CharRef(Decimal), fromCharCode);
  }

  /** Text without `&` in front is copied through the whole chain. */
  lemma {:induction false} ApplyAllPrefix(w: string, x: string, rules: seq<Rule>, fromCharCode: nat -> char)
    requires AllWellFormed(rules) && '&' !in w
    ensures ApplyAll(w + x, rules, fromCharCode) == w + ApplyAll(x, rules, fromCharCode)
    decreases |rules|
  {
    if rules != [] {
      ApplyPrefix(w, x, rules[0], fromCharCode);
      ApplyAllPrefix(w, Apply(x, rules[0], fromCharCode), rules[1..], fromCharCode);
    }
  }

  /** A named rule replaces its reference at the start of the text. */
  lemma ApplyLeadingMatch(e: string, c: char, x: string, fromCharCode: nat -> char)
    requires WellFormed(Named(e, c))
    ensures Apply(e + x, Named(e, c), fromCharCode) == [c] + Apply(x, Named(e, c), fromCharCode)
  {
    DropPrefix(e, x);
  }

  /** A reference whose rule comes after rules all apart from it, and whose
      character is not `&`, becomes that character; the rest of the text is
      decoded as if it stood alone. */
  lemma {:induction false} ApplyAllLeadingReference(e: string, c: char, x: string, rules: seq<Rule>, j: nat, fromCharCode: nat -> char)
    requires AllWellFormed(rules) && c != '&'
    requires j < |rules| && rules[j] == Named(e, c)
    requires |e| >= 1 && e[0] == '&' && '&' !in e[1..]
    requires forall i :: 0 <= i < j ==> Apart(RulePrefix(rules[i]), e)
    ensures ApplyAll(e + x, rules, fromCharCode) == [c] + ApplyAll(x, rules, fromCharCode)
    decreases j, 1
  {
    if j == 0 {
      FirstRuleDecodes(e, c, x, rules, fromCharCode);
    } else {
      LaterRuleDecodes(e, c, x, rules, j, fromCharCode);
    }
  }

  /** The reference's own rule comes first. */
  lemma FirstRuleDecodes(e: string, c: char, x: string, rules: seq<Rule>, fromCharCode: nat -> char)
    requires AllWellFormed(rules) && c != '&'
    requires rules != [] && rules[0] == Named(e, c)
    ensures ApplyAll(e + x, rules, fromCharCode) == [c] + ApplyAll(x, rules, fromCharCode)
  {
    var y := Apply(x, rules[0], fromCharCode);
    TailWellFormed(rules);
    ApplyAllStep(x, rules, fromCharCode);
    ApplyAllStep(e + x, rules, fromCharCode);
    ApplyLeadingMatch(e, c, x, fromCharCode);
    ApplyAllPrefix([c], y, rules[1..], fromCharCode);
  }

  /** A rule apart from the reference comes first: it passes the reference
      on to the rest of the chain. */
  lemma {:induction false} LaterRuleDecodes(e: string, c: char, x: string, rules: seq<Rule>, j: nat, fromCharCode: nat -> char)
    requires AllWellFormed(rules) && c != '&'
    requires 1 <= j < |rules| && rules[j] == Named(e, c)
    requires |e| >= 1 && e[0] == '&' && '&' !in e[1..]
    requires forall i :: 0 <= i < j ==> Apart(RulePrefix(rules[i]), e)
    ensures ApplyAll(e + x, rules, fromCharCode) == [c] + ApplyAll(x, rules, fromCharCode)
    decreases j, 0
  {
    var y := Apply(x, rules[0], fromCharCode);
    var tail := rules[1..];
    assert AllWellFormed(tail) by {
      TailWellFormed(rules);
    }
    assert ApplyAll(e + x, rules, fromCharCode) == ApplyAll(e + y, tail, fromCharCode) by {
      ApplyAllStep(e + x, rules, fromCharCode);
      ApplyApartPrefix(e, x, rules[0], fromCharCode);
    }
    assert ApplyAll(x, rules, fromCharCode) == ApplyAll(y, tail, fromCharCode) by {
      ApplyAllStep(x, rules, fromCharCode);
    }
    assert ApplyAll(e + y, tail, fromCharCode) == [c] + ApplyAll(y, tail, fromCharCode) by {
      TailApart(rules, e, j);
      ApplyAllLeadingReference(e, c, y, tail, j - 1, fromCharCode);
    }
  }

  /** The chain is its first rule, then the rest. */
  lemma ApplyAllStep(s: string, rules: seq<Rule>, fromCharCode: nat -> char)
    requires AllWellFormed(rules) && rules != []
    ensures AllWellFormed(rules[1..])
    ensures ApplyAll(s, rules, fromCharCode) == ApplyAll(Apply(s, rules[0], fromCharCode), rules[1..], fromCharCode)
  {
  }

  lemma TailWellFormed(rules: seq<Rule>)
    requires AllWellFormed(rules) && rules != []
    ensures AllWellFormed(rules[1..])
  {
  }

  /** Dropping the first rule moves rule `j` to `j - 1` and keeps the rules
      before it apart from `e`. */
  lemma TailApart(rules: seq<Rule>, e: string, j: nat)
    requires 1 <= j < |rules|
    requires forall i :: 0 <= i < j ==> Apart(RulePrefix(rules[i]), e)
    ensures rules[1..][j - 1] == rules[j]
    ensures forall i :: 0 <= i < j - 1 ==> Apart(RulePrefix(rules[1..][i]), e)
  {
    forall i | 0 <= i < j - 1
      ensures Apart(RulePrefix(rules[1..][i]), e)
    {
      assert rules[1..][i] == rules[i + 1];
    }
  }

  /** Decoding distributes over text without `&` in front. */
  lemma DecodePlainPrefix(w: string, x: string, fromCharCode: nat -> char)
    requires '&' !in w
    ensures DecodeEntities(w + x, fromCharCode) == w + DecodeEntities(x, fromCharCode)
  {
    RulesWellFormed();
    if x == [] {
      assert w + x == w;
    } else {
      ApplyAllPrefix(w, x, Rules, fromCharCode);
    }
  }

  /** A named reference other than `&amp;` at the start of the text decodes
      to its character, and the rest is decoded on its own. */
  lemma NamedReferenceDecodes(j: nat, x: string, fromCharCode: nat -> char)
    requires 2 <= j < |Rules| && j != 3
    ensures var e, c := Rules[j].entity, Rules[j].decoded;
      DecodeEntities(e + x, fromCharCode) == [c] + DecodeEntities(x, fromCharCode)
  {
    RulesWellFormed();
    NamedRule(j);
    var e, c := Rules[j].entity, Rules[j].decoded;
    ApplyAllLeadingReference(e, c, x, Rules, j, fromCharCode);
    DecodeIsApplyAll(e + x, fromCharCode);
    DecodeIsApplyAll(x, fromCharCode);
  }

  /** An `&` followed by a space starts no pattern: the second character of
      every pattern is `#` or a letter. */
  lemma AmpSpaceApart(rules: seq<Rule>)
    requires rules == Rules[4..]
    ensures AllWellFormed(rules)
    ensures forall i :: 0 <= i < |rules| ==> Apart(RulePrefix(rules[i]), "& ")
  {
    RulesWellFormed();
    forall i | 0 <= i < |rules|
      ensures Apart(RulePrefix(rules[i]), "& ")
    {
      assert rules[i] == Rules[i + 4];
      assert 'a' <= RulePrefix(rules[i])[1] <= 'z';
      ApartAt(RulePrefix(rules[i]), "& ", 1);
    }
  }

  /** `&amp;` followed by a space and text without `&` decodes to `&`, the
      space and the text: the `&` it leaves behind is not read again as the
      start of a later reference. */
  lemma AmpThenSpace(x: string, fromCharCode: nat -> char)
    requires '&' !in x
    ensures DecodeEntities("&amp; " + x, fromCharCode) == "& " + x
  {
    assert "&amp;" + " " == "&amp; " && ['&'] + " " == "& ";
    Assoc("&amp;", " ", x);
    Assoc(['&'], " ", x);
    DecodeIsApplyAll("&amp; " + x, fromCharCode);
    AmpSpaceRules(x, fromCharCode);
  }

  /** The rule chain on `&amp;`, a space and text without `&`. */
  lemma AmpSpaceRules(x: string, fromCharCode: nat -> char)
    requires '&' !in x
    ensures AllWellFormed(Rules)
    ensures ApplyAll("&amp;" + (" " + x), Rules, fromCharCode) == ['&'] + (" " + x)
  {
    assert ['&'] + " " == "& ";
    Assoc(['&'], " ", x);
    AmpFirstRules(" " + x, fromCharCode);
    SpaceAfterAmpKept(x, fromCharCode);
  }

  /** The first four rules turn `&amp;` into `&`; the rest come after. */
  lemma AmpFirstRules(w: string, fromCharCode: nat -> char)
    requires '&' !in w
    ensures AllWellFormed(Rules) && AllWellFormed(Rules[4..])
    ensures ApplyAll("&amp;" + w, Rules, fromCharCode) == ApplyAll(['&'] + w, Rules[4..], fromCharCode)
  {
    RulesWellFormed();
    ApplyAllSplit("&amp;" + w, Rules, 4, fromCharCode);
    AmpDecodedOnce(w, fromCharCode);
  }

  /** The rules after `&amp;` leave `&`, a space and text without `&` alone. */
  lemma SpaceAfterAmpKept(x: string, fromCharCode: nat -> char)
    requires '&' !in x
    ensures AllWellFormed(Rules[4..])
    ensures ApplyAll("& " + x, Rules[4..], fromCharCode) == "& " + x
  {
    assert "& "[1..] == " ";
    AmpSpaceApart(Rules[4..]);
    ApplyAllApartPrefix("& ", x, Rules[4..], fromCharCode);
  }

  /** Decoding is the chain of rules, the empty string included. */
  lemma DecodeIsApplyAll(s: string, fromCharCode: nat -> char)
    ensures AllWellFormed(Rules)
    ensures DecodeEntities(s, fromCharCode) == ApplyAll(s, Rules, fromCharCode)
  {
    RulesWellFormed();
    ApplyAllShape(s, Rules, fromCharCode);
  }

  /** A reference, text without `&`, a reference: both references become
      their characters when each rule comes after rules apart from it. */
  lemma ApplyAllReferencesAround(e1: string, c1: char, i: nat, w: string, e2: string, c2: char, j: nat,
                                 rules: seq<Rule>, fromCharCode: nat -> char)
    requires AllWellFormed(rules) && c1 != '&' && c2 != '&' && '&' !in w
    requires i < |rules| && rules[i] == Named(e1, c1) && j < |rules| && rules[j] == Named(e2, c2)
    requires |e1| >= 1 && e1[0] == '&' && '&' !in e1[1..]
    requires |e2| >= 1 && e2[0] == '&' && '&' !in e2[1..]
    requires forall k :: 0 <= k < i ==> Apart(RulePrefix(rules[k]), e1)
    requires forall k :: 0 <= k < j ==> Apart(RulePrefix(rules[k]), e2)
    ensures ApplyAll(e1 + w + e2, rules, fromCharCode) == [c1] + w + [c2]
  {
    ApplyAllLeadingReference(e1, c1, w + e2, rules, i, fromCharCode);
    ApplyAllPrefix(w, e2, rules, fromCharCode);
    ApplyAllLeadingReference(e2, c2, [], rules, j, fromCharCode);
    ApplyAllShape([], rules, fromCharCode);
    AppendEmpty(e2);
    AppendEmpty([c2]);
    Assoc(e1, w, e2);
    Assoc([c1], w, [c2]);
  }

  /** Text without `&` between two named references other than `&amp;`
      decodes to the text between their two characters. */
  lemma ReferencesAround(i: nat, w: string, j: nat, fromCharCode: nat -> char)
    requires 2 <= i < |Rules| && i != 3 && 2 <= j < |Rules| && j != 3 && '&' !in w
    ensures var a, b := Rules[i], Rules[j];
      DecodeEntities(a.entity + w + b.entity, fromCharCode) == [a.decoded] + w + [b.decoded]
  {
    RulesWellFormed();
    NamedRule(i);
    NamedRule(j);
    var a, b := Rules[i], Rules[j];
    ApplyAllReferencesAround(a.entity, a.decoded, i, w, b.entity, b.decoded, j, Rules, fromCharCode);
    DecodeIsApplyAll(a.entity + w + b.entity, fromCharCode);
  }
}
