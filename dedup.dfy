/** One poll cycle of `checkFeed`: the list of links already posted, the
    per-item decision to skip or publish, and the bounded update of the list
    after each successful publish. */
module Dedup {
  import opened Wrappers
  import Markdown
  import Message

  /** Where `Array.prototype.slice(-m)` starts on a list of `len` elements:
      a negative start counts from the end and is clamped at 0; `-0` is 0;
      a positive start is clamped at `len`. */
  function SliceStart(len: nat, m: int): (i: nat)
    ensures i <= len
  {
    if m > 0 then (if len > m then len - m else 0)
    else if m == 0 then 0
    else if -m < len then -m else len
  }

  /** `if (posted.length > MAX_POSTED) posted = posted.slice(-MAX_POSTED)`.
      For a positive bound the result is the last `min(|s|, m)` elements;
      a bound of 0 keeps everything. */
  function Truncate(s: seq<string>, m: int): (r: seq<string>)
    ensures |r| <= |s| && r == s[|s| - |r|..]
    ensures m >= 1 ==> |r| == if |s| <= m then |s| else m
    ensures m == 0 ==> r == s
  {
    if |s| > m then s[SliceStart(|s|, m)..] else s
  }

  /** The list after `link` was published: `push`, then truncate. With a
      positive bound it ends with `link`, holds at most `m` links and is the
      newest `min(m, |posted| + 1)` of `posted + [link]`. */
  function Record(posted: seq<string>, link: string, m: int): (r: seq<string>)
    ensures m >= 1 ==>
      && r != [] && r[|r| - 1] == link
      && |r| == (if |posted| + 1 <= m then |posted| + 1 else m)
      && r == (posted + [link])[|posted| + 1 - |r|..]
  {
    var s := posted + [link];
    var r := Truncate(s, m);
    assert m >= 1 ==> r[|r| - 1] == link by {
      if m >= 1 {
        assert r[|r| - 1] == s[|s| - 1];
      }
    }
    r
  }

  /** What the loop needs of one item: the link it is known by and the
      message that would be posted for it. */
  datatype Candidate = Candidate(link: string, message: string)

  /** The candidate of each item: its link (`ItemLink`) and the message
      for that link (`FormatMessage`). */
  function Candidates(items: seq<Message.FeedItem>, resolve: string -> Option<string>,
                      fromCharCode: nat -> char): (r: seq<Candidate>)
    ensures |r| == |items|
  {
    seq(|items|, i requires 0 <= i < |items| =>
      var link := Message.ItemLink(items[i], resolve);
      Candidate(link, Message.FormatMessage(items[i], link, fromCharCode)))
  }

  /** One publish that was tried: the item's link, the message sent, and
      whether the platform accepted it. */
  datatype Attempt = Attempt(link: string, message: string, delivered: bool)

  /** The state a cycle carries: the posted list and the publishes tried. */
  datatype Cycle = Cycle(posted: seq<string>, attempts: seq<Attempt>)

  /** The loop body for one item: skip a known link; otherwise try the
      message, recording the link only when it was `delivered`. */
  function Step(c: Cycle, item: Candidate, delivered: bool, m: int): Cycle {
    if item.link in c.posted then c
    else
      Cycle(if delivered then Record(c.posted, item.link, m) else c.posted,
            c.attempts + [Attempt(item.link, item.message, delivered)])
  }

  /** The loop over the items, from the list before the cycle.
      `outcomes[i]` is what publishing item `i` would return; it is not
      consulted when the item is skipped. */
  function Run(posted: seq<string>, items: seq<Candidate>, outcomes: seq<bool>, m: int): (c: Cycle)
    requires |outcomes| == |items|
    ensures |c.attempts| <= |items|
    decreases |items|
  {
    if items == [] then Cycle(posted, [])
    else
      var n := |items| - 1;
      Step(Run(posted, items[..n], outcomes[..n], m), items[n], outcomes[n], m)
  }

  /** A whole `checkFeed`: a feed that cannot be fetched changes nothing;
      otherwise the loop runs over the candidates of its items. */
  function Poll(posted: seq<string>, feed: Option<seq<Message.FeedItem>>, outcomes: seq<bool>, m: int,
                resolve: string -> Option<string>, fromCharCode: nat -> char): Cycle
    requires feed.Some? ==> |outcomes| == |feed.value|
  {
    match feed
    case None => Cycle(posted, [])
    case Some(items) => Run(posted, Candidates(items, resolve, fromCharCode), outcomes, m)
  }

  /** The links of the publishes that were accepted, in order. */
  function Delivered(attempts: seq<Attempt>): (r: seq<string>)
    ensures |r| <= |attempts|
  {
    if attempts == [] then []
    else
      var n := |attempts| - 1;
      Delivered(attempts[..n]) + (if attempts[n].delivered then [attempts[n].link] else [])
  }

  /** The links of all publishes tried, in order. */
  function Links(attempts: seq<Attempt>): (r: seq<string>)
    ensures |r| == |attempts|
  {
    seq(|attempts|, j requires 0 <= j < |attempts| => attempts[j].link)
  }

  /** No link occurs twice. */
  predicate Distinct(s: seq<string>) {
    forall i, j :: 0 <= i < j < |s| ==> s[i] != s[j]
  }

  lemma TakeAll<T>(s: seq<T>)
    ensures s[..|s|] == s
  {
  }

  lemma DeliveredSnoc(a: seq<Attempt>, x: Attempt)
    ensures Delivered(a + [x]) == Delivered(a) + (if x.delivered then [x.link] else [])
  {
    assert (a + [x])[..|a|] == a;
  }

  lemma LinksSnoc(a: seq<Attempt>, x: Attempt)
    ensures Links(a + [x]) == Links(a) + [x.link]
  {
  }

  /** Items whose links are all posted already are all skipped: nothing is
      published and the list stays as it was. */
  lemma {:induction false} RunAllKnown(posted: seq<string>, items: seq<Candidate>, outcomes: seq<bool>, m: int)
    requires |outcomes| == |items|
    requires forall i :: 0 <= i < |items| ==> items[i].link in posted
    ensures Run(posted, items, outcomes, m) == Cycle(posted, [])
    decreases |items|
  {
    if items != [] {
      var n := |items| - 1;
      forall i | 0 <= i < n
        ensures items[..n][i].link in posted
      {
        assert items[..n][i] == items[i];
      }
      RunAllKnown(posted, items[..n], outcomes[..n], m);
    }
  }

  /** When every publish fails the list is left alone and nothing counts as
      delivered; every item whose link was not already posted is still tried. */
  lemma {:induction false} RunAllFailed(posted: seq<string>, items: seq<Candidate>, outcomes: seq<bool>, m: int)
    requires |outcomes| == |items|
    requires forall i :: 0 <= i < |outcomes| ==> !outcomes[i]
    ensures var c := Run(posted, items, outcomes, m);
      && c.posted == posted && Delivered(c.attempts) == []
      && AllNew(posted, c.attempts) && Covered(posted, items, c.attempts)
    decreases |items|
  {
    if items != [] {
      var n := |items| - 1;
      var c := Run(posted, items[..n], outcomes[..n], m);
      forall i | 0 <= i < n
        ensures !outcomes[..n][i]
      {
        assert outcomes[..n][i] == outcomes[i];
      }
      RunAllFailed(posted, items[..n], outcomes[..n], m);
      if items[n].link !in c.posted {
        var x := Attempt(items[n].link, items[n].message, false);
        DeliveredSnoc(c.attempts, x);
        AttemptsNew(posted, c.attempts, x);
        CoveredTried(posted, items, c.attempts, x);
      } else {
        assert posted + [] == posted;
        CoveredKnown(posted, items, c.attempts, []);
      }
    }
  }

  /** When every publish succeeds every publish tried counts as delivered. */
  lemma {:induction false} RunAllSucceeded(posted: seq<string>, items: seq<Candidate>, outcomes: seq<bool>, m: int)
    requires |outcomes| == |items|
    requires forall i :: 0 <= i < |outcomes| ==> outcomes[i]
    ensures var c := Run(posted, items, outcomes, m);
      Delivered(c.attempts) == Links(c.attempts)
    decreases |items|
  {
    if items != [] {
      var n := |items| - 1;
      var c := Run(posted, items[..n], outcomes[..n], m);
      forall i | 0 <= i < n
        ensures outcomes[..n][i]
      {
        assert outcomes[..n][i] == outcomes[i];
      }
      RunAllSucceeded(posted, items[..n], outcomes[..n], m);
      if items[n].link !in c.posted {
        var x := Attempt(items[n].link, items[n].message, true);
        DeliveredSnoc(c.attempts, x);
        LinksSnoc(c.attempts, x);
      }
    }
  }

  /** Two suffixes of one list with the same length are the same. */
  lemma SameSuffix(s: seq<string>, a: seq<string>, b: seq<string>)
    requires |a| == |b| <= |s| && a == s[|s| - |a|..] && b == s[|s| - |b|..]
    ensures a == b
  {
  }

  /** Truncating before and after a push is truncating once after it. */
  lemma TruncatePush(x: seq<string>, link: string, m: int)
    requires m >= 1
    ensures Truncate(Truncate(x, m) + [link], m) == Truncate(x + [link], m)
  {
    var t := Truncate(x, m);
    var s := x + [link];
    var a := |x| - |t|;
    SnocOfSuffix(x, link, a);
    var lhs, rhs := Truncate(t + [link], m), Truncate(s, m);
    SuffixOfSuffix(s, a, |lhs|);
    SameSuffix(s, lhs, rhs);
  }

  /** Pushing onto a suffix gives the suffix of the pushed list. */
  lemma SnocOfSuffix(x: seq<string>, link: string, a: nat)
    requires a <= |x|
    ensures x[a..] + [link] == (x + [link])[a..]
  {
  }

  /** A suffix of a suffix is a suffix. */
  lemma SuffixOfSuffix(s: seq<string>, a: nat, k: nat)
    requires a + k <= |s|
    ensures s[a..][|s| - a - k..] == s[|s| - k..]
  {
  }

  /** The list a cycle should leave behind with a positive bound: the old
      list when nothing was delivered, otherwise the newest `m` links of the
      old list followed by the delivered ones. */
  function Expected(posted: seq<string>, delivered: seq<string>, m: int): seq<string> {
    if delivered == [] then posted else Truncate(posted + delivered, m)
  }

  /** Recording one more delivery moves the expected list along. */
  lemma ExpectedPush(posted: seq<string>, d: seq<string>, link: string, m: int)
    requires m >= 1
    ensures Record(Expected(posted, d, m), link, m) == Expected(posted, d + [link], m)
  {
    assert posted + (d + [link]) == (posted + d) + [link];
    if d == [] {
      assert d + [link] == [link];
    } else {
      TruncatePush(posted + d, link, m);
    }
  }

  /** With a positive bound, the list after a cycle is the newest `m` of the
      old list followed by the links delivered in this cycle, or the old
      list untouched when nothing was delivered. */
  lemma {:induction false} RunPosted(posted: seq<string>, items: seq<Candidate>, outcomes: seq<bool>, m: int)
    requires |outcomes| == |items| && m >= 1
    ensures var c := Run(posted, items, outcomes, m);
      c.posted == Expected(posted, Delivered(c.attempts), m)
    decreases |items|
  {
    if items != [] {
      var n := |items| - 1;
      var c := Run(posted, items[..n], outcomes[..n], m);
      var d := Delivered(c.attempts);
      RunPosted(posted, items[..n], outcomes[..n], m);
      var c' := Run(posted, items, outcomes, m);
      assert c' == Step(c, items[n], outcomes[n], m);
      var link := items[n].link;
      if link !in c.posted {
        var x := Attempt(link, items[n].message, outcomes[n]);
        assert c'.attempts == c.attempts + [x];
        DeliveredSnoc(c.attempts, x);
        if outcomes[n] {
          assert c'.posted == Record(c.posted, link, m);
          ExpectedPush(posted, d, link, m);
          assert Delivered(c'.attempts) == d + [link];
        } else {
          assert c'.posted == c.posted && Delivered(c'.attempts) == d;
        }
      }
    }
  }

  /** With a positive bound, a list that fits stays within the bound, and
      after any delivery the list fits and ends with the newest link
      delivered. */
  lemma RunBounded(posted: seq<string>, items: seq<Candidate>, outcomes: seq<bool>, m: int)
    requires |outcomes| == |items| && m >= 1
    ensures var c := Run(posted, items, outcomes, m);
      var d := Delivered(c.attempts);
      && (|posted| <= m ==> |c.posted| <= m)
      && (d != [] ==> c.posted != [] && |c.posted| <= m && c.posted[|c.posted| - 1] == d[|d| - 1])
  {
    RunPosted(posted, items, outcomes, m);
    var c := Run(posted, items, outcomes, m);
    var d := Delivered(c.attempts);
    if d != [] {
      TruncateLast(posted + d, m);
      LastOfConcat(posted, d);
    }
  }

  /** With a positive bound, truncating a non-empty list keeps its last
      element and leaves at most `m`. */
  lemma TruncateLast(s: seq<string>, m: int)
    requires m >= 1 && s != []
    ensures var r := Truncate(s, m);
      r != [] && |r| <= m && r[|r| - 1] == s[|s| - 1]
  {
    var r := Truncate(s, m);
    assert r[|r| - 1] == s[|s| - |r|..][|r| - 1];
  }

  lemma LastOfConcat(a: seq<string>, d: seq<string>)
    requires d != []
    ensures (a + d)[|a + d| - 1] == d[|d| - 1]
  {
  }

  /** Recording a delivery while there is room appends it. */
  lemma RecordWithRoom(posted: seq<string>, d: seq<string>, link: string, m: int)
    requires m == 0 || |posted| + |d| + 1 <= m
    ensures Record(posted + d, link, m) == posted + (d + [link])
  {
    assert posted + d + [link] == posted + (d + [link]);
  }

  /** While the list has room for every item (or the bound is 0, which never
      truncates), the list grows by exactly the delivered links. */
  lemma {:induction false} RunAppends(posted: seq<string>, items: seq<Candidate>, outcomes: seq<bool>, m: int)
    requires |outcomes| == |items|
    requires m == 0 || |posted| + |items| <= m
    ensures var c := Run(posted, items, outcomes, m);
      c.posted == posted + Delivered(c.attempts)
    decreases |items|
  {
    if items != [] {
      var n := |items| - 1;
      var c := Run(posted, items[..n], outcomes[..n], m);
      RunAppends(posted, items[..n], outcomes[..n], m);
      if items[n].link !in c.posted {
        DeliveredSnoc(c.attempts, Attempt(items[n].link, items[n].message, outcomes[n]));
        if outcomes[n] {
          RecordWithRoom(posted, Delivered(c.attempts), items[n].link, m);
        }
      } else {
        assert posted + Delivered(c.attempts) == c.posted;
      }
    }
  }

  /** Every item's link is posted already or among the links tried. */
  predicate Covered(posted: seq<string>, items: seq<Candidate>, attempts: seq<Attempt>) {
    forall i :: 0 <= i < |items| ==> items[i].link in posted || items[i].link in Links(attempts)
  }

  /** No link that was posted before the cycle is tried. */
  predicate AllNew(posted: seq<string>, attempts: seq<Attempt>) {
    forall a :: a in attempts ==> a.link !in posted
  }

  /** While nothing is evicted, a cycle never tries a posted link, never
      delivers one link twice, and tries every item whose link is new. */
  lemma {:induction false} RunWithoutEviction(posted: seq<string>, items: seq<Candidate>, outcomes: seq<bool>, m: int)
    requires |outcomes| == |items|
    requires m == 0 || |posted| + |items| <= m
    ensures var c := Run(posted, items, outcomes, m);
      && AllNew(posted, c.attempts)
      && Distinct(Delivered(c.attempts))
      && Covered(posted, items, c.attempts)
    decreases |items|
  {
    if items != [] {
      var n := |items| - 1;
      var c := Run(posted, items[..n], outcomes[..n], m);
      var d := Delivered(c.attempts);
      RunWithoutEviction(posted, items[..n], outcomes[..n], m);
      RunAppends(posted, items[..n], outcomes[..n], m);
      var link := items[n].link;
      if link in c.posted {
        CoveredKnown(posted, items, c.attempts, d);
      } else {
        var x := Attempt(link, items[n].message, outcomes[n]);
        DeliveredSnoc(c.attempts, x);
        if outcomes[n] {
          DistinctSnoc(d, link);
        }
        AttemptsNew(posted, c.attempts, x);
        CoveredTried(posted, items, c.attempts, x);
      }
    }
  }

  lemma DistinctSnoc(d: seq<string>, link: string)
    requires Distinct(d) && link !in d
    ensures Distinct(d + [link])
  {
  }

  lemma AttemptsNew(posted: seq<string>, attempts: seq<Attempt>, x: Attempt)
    requires AllNew(posted, attempts) && x.link !in posted
    ensures AllNew(posted, attempts + [x])
  {
  }

  /** An item with a known link keeps the prefix covered. */
  lemma CoveredKnown(posted: seq<string>, items: seq<Candidate>, attempts: seq<Attempt>, d: seq<string>)
    requires items != [] && Covered(posted, items[..|items| - 1], attempts)
    requires d == Delivered(attempts) && items[|items| - 1].link in posted + d
    ensures Covered(posted, items, attempts)
  {
    var n := |items| - 1;
    DeliveredTried(attempts);
    forall i | 0 <= i < |items|
      ensures items[i].link in posted || items[i].link in Links(attempts)
    {
      if i < n {
        assert items[..n][i] == items[i];
      } else {
        assert items[i].link in posted || items[i].link in d;
      }
    }
  }

  /** A tried item keeps the prefix covered. */
  lemma CoveredTried(posted: seq<string>, items: seq<Candidate>, attempts: seq<Attempt>, x: Attempt)
    requires items != [] && Covered(posted, items[..|items| - 1], attempts)
    requires x.link == items[|items| - 1].link
    ensures Covered(posted, items, attempts + [x])
  {
    var n := |items| - 1;
    LinksSnoc(attempts, x);
    forall i | 0 <= i < |items|
      ensures items[i].link in posted || items[i].link in Links(attempts + [x])
    {
      if i < n {
        assert items[..n][i] == items[i];
      }
    }
  }

  /** Every delivered link is a link that was tried. */
  lemma {:induction false} DeliveredTried(attempts: seq<Attempt>)
    ensures forall l :: l in Delivered(attempts) ==> l in Links(attempts)
  {
    if attempts != [] {
      var n := |attempts| - 1;
      DeliveredTried(attempts[..n]);
      assert attempts == attempts[..n] + [attempts[n]];
      LinksSnoc(attempts[..n], attempts[n]);
    }
  }

  /** Running the same feed again right after a cycle in which every
      publish succeeded publishes nothing, provided no link was evicted. */
  lemma RerunPublishesNothing(posted: seq<string>, items: seq<Candidate>, first: seq<bool>, second: seq<bool>, m: int)
    requires |first| == |items| && |second| == |items|
    requires m == 0 || |posted| + |items| <= m
    requires forall i :: 0 <= i < |first| ==> first[i]
    ensures var c := Run(posted, items, first, m);
      Run(c.posted, items, second, m) == Cycle(c.posted, [])
  {
    var c := Run(posted, items, first, m);
    RunWithoutEviction(posted, items, first, m);
    RunAppends(posted, items, first, m);
    RunAllSucceeded(posted, items, first, m);
    forall i | 0 <= i < |items|
      ensures items[i].link in c.posted
    {
    }
    RunAllKnown(c.posted, items, second, m);
  }

  /** No publish tries a link that an earlier publish of the same cycle
      delivered. */
  predicate NoRetry(attempts: seq<Attempt>) {
    forall j, k :: 0 <= j < k < |attempts| && attempts[j].delivered ==> attempts[k].link != attempts[j].link
  }

  /** With a positive bound, an element among the newest `m` of a list
      survives truncation. */
  lemma TruncateKeeps(s: seq<string>, m: int, i: nat)
    requires m >= 1 && i < |s| && |s| - i <= m
    ensures s[i] in Truncate(s, m)
  {
    var r := Truncate(s, m);
    assert r[i - (|s| - |r|)] == s[i];
  }

  /** Every link the cycle delivered is in its list. */
  predicate KeepsDelivered(c: Cycle) {
    forall l :: l in Delivered(c.attempts) ==> l in c.posted
  }

  /** A delivered publish shows up among the delivered links. */
  lemma {:induction false} DeliveredHas(attempts: seq<Attempt>, j: nat)
    requires j < |attempts| && attempts[j].delivered
    ensures attempts[j].link in Delivered(attempts)
  {
    var n := |attempts| - 1;
    if j < n {
      DeliveredHas(attempts[..n], j);
    }
  }

  /** While the bound leaves room for one push per item (or is 0), every
      link delivered in a cycle is still in the list at its end, whatever
      the length of the old list. */
  lemma RunKeepsDelivered(posted: seq<string>, items: seq<Candidate>, outcomes: seq<bool>, m: int)
    requires |outcomes| == |items|
    requires m == 0 || |items| <= m
    ensures KeepsDelivered(Run(posted, items, outcomes, m))
  {
    var c := Run(posted, items, outcomes, m);
    var d := Delivered(c.attempts);
    if m == 0 {
      RunAppends(posted, items, outcomes, m);
    } else {
      RunPosted(posted, items, outcomes, m);
      forall l | l in d
        ensures l in c.posted
      {
        var i :| 0 <= i < |d| && d[i] == l;
        assert (posted + d)[|posted| + i] == l;
        TruncateKeeps(posted + d, m, |posted| + i);
      }
    }
  }

  /** While the bound leaves room for one push per item (or is 0), a cycle
      never tries again a link it has delivered, whatever the length of the
      old list: a second listing of a delivered item is skipped. */
  lemma {:induction false} RunNoRetry(posted: seq<string>, items: seq<Candidate>, outcomes: seq<bool>, m: int)
    requires |outcomes| == |items|
    requires m == 0 || |items| <= m
    ensures NoRetry(Run(posted, items, outcomes, m).attempts)
    decreases |items|
  {
    if items != [] {
      var n := |items| - 1;
      var c := Run(posted, items[..n], outcomes[..n], m);
      RunNoRetry(posted, items[..n], outcomes[..n], m);
      if items[n].link !in c.posted {
        RunKeepsDelivered(posted, items[..n], outcomes[..n], m);
        assert KeepsDelivered(c);
        var x := Attempt(items[n].link, items[n].message, outcomes[n]);
        var a := c.attempts + [x];
        forall j, k | 0 <= j < k < |a| && a[j].delivered
          ensures a[k].link != a[j].link
        {
          assert a[j] == c.attempts[j];
          if k == |c.attempts| {
            DeliveredHas(c.attempts, j);
            assert c.attempts[j].link in Delivered(c.attempts);
            assert c.attempts[j].link in c.posted;
            assert a[k] == x;
          } else {
            assert a[k] == c.attempts[k];
            assert c.attempts[k].link != c.attempts[j].link;
          }
        }
      }
    }
  }

  /** With a positive bound, the links of the old list that no push of this
      cycle can evict (the newest `m - |items|`) stay in the list and are
      never tried. */
  lemma {:induction false} RunKeepsRecent(posted: seq<string>, items: seq<Candidate>, outcomes: seq<bool>, m: int, j: nat)
    requires |outcomes| == |items| && m >= 1
    requires j < |posted| && |posted| - j <= m - |items|
    ensures var c := Run(posted, items, outcomes, m);
      posted[j] in c.posted && posted[j] !in Links(c.attempts)
    decreases |items|
  {
    var c := Run(posted, items, outcomes, m);
    var d := Delivered(c.attempts);
    RunPosted(posted, items, outcomes, m);
    if d != [] {
      assert (posted + d)[j] == posted[j];
      TruncateKeeps(posted + d, m, j);
    }
    if items != [] {
      var n := |items| - 1;
      var p := Run(posted, items[..n], outcomes[..n], m);
      RunKeepsRecent(posted, items[..n], outcomes[..n], m, j);
      if items[n].link !in p.posted {
        LinksSnoc(p.attempts, Attempt(items[n].link, items[n].message, outcomes[n]));
      }
    }
  }

  /** Once a push evicts a link, the list no longer knows it: with a bound
      of 1, a list holding `A`, and items `B` then `A` both published, `A`
      is published again. */
  lemma EvictedLinkPublishedAgain(mb: string, ma: string)
    ensures Links(Run(["A"], [Candidate("B", mb), Candidate("A", ma)], [true, true], 1).attempts) == ["B", "A"]
  {
    var items := [Candidate("B", mb), Candidate("A", ma)];
    var outcomes := [true, true];
    assert items[..1] == [Candidate("B", mb)] && outcomes[..1] == [true];
    assert items[..1][..0] == [] && outcomes[..1][..0] == [];
    var c0 := Run(["A"], [], [], 1);
    assert c0 == Cycle(["A"], []);
    var c1 := Run(["A"], items[..1], outcomes[..1], 1);
    assert "B" != "A";
    assert c1 == Step(c0, Candidate("B", mb), true, 1);
    assert Record(["A"], "B", 1) == ["B"];
    assert c1 == Cycle(["B"], [Attempt("B", mb, true)]);
    var c2 := Run(["A"], items, outcomes, 1);
    assert c2 == Step(c1, Candidate("A", ma), true, 1);
    assert c2.attempts == [Attempt("B", mb, true), Attempt("A", ma, true)];
  }

  /** `a` is the link and message of one of the items. */
  predicate FromSome(a: Attempt, items: seq<Candidate>) {
    exists i :: 0 <= i < |items| && a.link == items[i].link && a.message == items[i].message
  }

  /** Every publish tried is the link and message of one of the items. */
  predicate FromCandidates(items: seq<Candidate>, attempts: seq<Attempt>) {
    forall k :: 0 <= k < |attempts| ==> FromSome(attempts[k], items)
  }

  /** A cycle sends only messages built for its own items. */
  lemma {:induction false} RunFromCandidates(posted: seq<string>, items: seq<Candidate>, outcomes: seq<bool>, m: int)
    requires |outcomes| == |items|
    ensures FromCandidates(items, Run(posted, items, outcomes, m).attempts)
    decreases |items|
  {
    if items != [] {
      var n := |items| - 1;
      var c := Run(posted, items[..n], outcomes[..n], m);
      RunFromCandidates(posted, items[..n], outcomes[..n], m);
      FromCandidatesGrow(items, c.attempts);
      if items[n].link !in c.posted {
        var x := Attempt(items[n].link, items[n].message, outcomes[n]);
        var a := c.attempts + [x];
        forall k | 0 <= k < |a|
          ensures FromSome(a[k], items)
        {
          if k == |c.attempts| {
            assert a[k].link == items[n].link && a[k].message == items[n].message;
          } else {
            assert a[k] == c.attempts[k];
          }
        }
      }
    }
  }

  /** What comes from the first items comes from all of them. */
  lemma FromCandidatesGrow(items: seq<Candidate>, attempts: seq<Attempt>)
    requires items != [] && FromCandidates(items[..|items| - 1], attempts)
    ensures FromCandidates(items, attempts)
  {
    forall k | 0 <= k < |attempts|
      ensures FromSome(attempts[k], items)
    {
      FromSomeGrow(items, attempts[k]);
    }
  }

  lemma FromSomeGrow(items: seq<Candidate>, a: Attempt)
    requires items != [] && FromSome(a, items[..|items| - 1])
    ensures FromSome(a, items)
  {
    var prefix := items[..|items| - 1];
    var i :| 0 <= i < |prefix| && a.link == prefix[i].link && a.message == prefix[i].message;
    assert prefix[i] == items[i];
  }

  /** `message` is what the template gives for `item` under `link`: the
      item's title and first sentence, the link verbatim, the footer. */
  predicate CarriesItem(message: string, link: string, item: Message.FeedItem,
                        resolve: string -> Option<string>, fromCharCode: nat -> char) {
    && link == Message.ItemLink(item, resolve)
    && Message.Carries(message, Message.Title(item), Message.Sentence(item, fromCharCode), link,
         Markdown.SocialLinks())
  }

  /** `a` carries one of the `items`. */
  predicate CarriedBySome(a: Attempt, items: seq<Message.FeedItem>, resolve: string -> Option<string>,
                          fromCharCode: nat -> char) {
    exists i :: 0 <= i < |items| && CarriesItem(a.message, a.link, items[i], resolve, fromCharCode)
  }

  /** The candidate of an item carries that item. */
  lemma CandidateCarries(items: seq<Message.FeedItem>, resolve: string -> Option<string>,
                         fromCharCode: nat -> char, i: nat)
    requires i < |items|
    ensures var cand := Candidates(items, resolve, fromCharCode)[i];
      CarriesItem(cand.message, cand.link, items[i], resolve, fromCharCode)
  {
    CandidateAt(items, resolve, fromCharCode, i);
    Message.MessageCarriesItem(items[i], Message.ItemLink(items[i], resolve), fromCharCode);
  }

  /** Every message a cycle sends is the template filled in for one of the
      feed's items under the link it is sent for: it shows that item's title
      and first sentence, the link verbatim, and ends with the footer. */
  lemma PollMessagesCarryItems(posted: seq<string>, items: seq<Message.FeedItem>, outcomes: seq<bool>, m: int,
                               resolve: string -> Option<string>, fromCharCode: nat -> char)
    requires |outcomes| == |items|
    ensures var c := Poll(posted, Some(items), outcomes, m, resolve, fromCharCode);
      forall k :: 0 <= k < |c.attempts| ==>
        CarriedBySome(c.attempts[k], items, resolve, fromCharCode)
  {
    var cands := Candidates(items, resolve, fromCharCode);
    RunFromCandidates(posted, cands, outcomes, m);
    AttemptsCarry(items, resolve, fromCharCode, Run(posted, cands, outcomes, m).attempts);
  }

  /** Publishes built from the candidates carry the candidates' items. */
  lemma AttemptsCarry(items: seq<Message.FeedItem>, resolve: string -> Option<string>,
                      fromCharCode: nat -> char, attempts: seq<Attempt>)
    requires FromCandidates(Candidates(items, resolve, fromCharCode), attempts)
    ensures forall k :: 0 <= k < |attempts| ==>
      CarriedBySome(attempts[k], items, resolve, fromCharCode)
  {
    forall k | 0 <= k < |attempts|
      ensures CarriedBySome(attempts[k], items, resolve, fromCharCode)
    {
      AttemptCarries(items, resolve, fromCharCode, attempts[k]);
    }
  }

  /** A publish built from one of the candidates carries that candidate's
      item. */
  lemma AttemptCarries(items: seq<Message.FeedItem>, resolve: string -> Option<string>,
                       fromCharCode: nat -> char, a: Attempt)
    requires FromSome(a, Candidates(items, resolve, fromCharCode))
    ensures CarriedBySome(a, items, resolve, fromCharCode)
  {
    var cands := Candidates(items, resolve, fromCharCode);
    var i :| 0 <= i < |cands| && a.link == cands[i].link && a.message == cands[i].message;
    CandidateCarries(items, resolve, fromCharCode, i);
  }

  /** The candidate of item `i` is its link and the message for it. */
  lemma CandidateAt(items: seq<Message.FeedItem>, resolve: string -> Option<string>,
                    fromCharCode: nat -> char, i: nat)
    requires i < |items|
    ensures var link := Message.ItemLink(items[i], resolve);
      Candidates(items, resolve, fromCharCode)[i]
        == Candidate(link, Message.FormatMessage(items[i], link, fromCharCode))
  {
  }

  /** The loop over one more item is one more step. */
  lemma RunSnoc(posted: seq<string>, items: seq<Candidate>, outcomes: seq<bool>, m: int, i: nat)
    requires |outcomes| == |items| && i < |items|
    ensures Run(posted, items[..i + 1], outcomes[..i + 1], m)
      == Step(Run(posted, items[..i], outcomes[..i], m), items[i], outcomes[i], m)
  {
    assert items[..i + 1][..i] == items[..i];
    assert outcomes[..i + 1][..i] == outcomes[..i];
  }

  /** The bot's memory: the links already posted, newest last, and the
      bound `MAX_POSTED` as parsed from the environment. */
  class FeedBot {
    var posted: seq<string>
    const maxPosted: int

    /** Start from the stored list, or from an empty one when there is no
        stored list or it cannot be read. */
    constructor(maxPosted: int, stored: Option<seq<string>>)
      ensures this.maxPosted == maxPosted && posted == stored.GetOr([])
    {
      this.maxPosted := maxPosted;
      posted := stored.GetOr([]);
    }

    /** `posted.push(link)`, then keep the newest `maxPosted` links when the
        list has grown past the bound. */
    method RecordPosted(link: string)
      modifies this
      ensures posted == Record(old(posted), link, maxPosted)
    {
      posted := posted + [link];
      if |posted| > maxPosted {
        posted := posted[SliceStart(|posted|, maxPosted)..];
      }
    }

    /** The loop body for item `i`: skip it when its link is known;
        otherwise build its message and publish it, recording the link when
        `outcomes[i]` says it was delivered. Taking the state the loop has
        reached after the first `i` items, it leaves the state after the
        first `i + 1`. */
    method HandleItem(items: seq<Message.FeedItem>, i: nat, outcomes: seq<bool>, attempts: seq<Attempt>,
                      resolve: string -> Option<string>, fromCharCode: nat -> char, ghost start: seq<string>)
      returns (attempts': seq<Attempt>)
      requires |outcomes| == |items| && i < |items|
      requires Cycle(posted, attempts)
        == Run(start, Candidates(items, resolve, fromCharCode)[..i], outcomes[..i], maxPosted)
      modifies this
      ensures Cycle(posted, attempts')
        == Run(start, Candidates(items, resolve, fromCharCode)[..i + 1], outcomes[..i + 1], maxPosted)
    {
      RunSnoc(start, Candidates(items, resolve, fromCharCode), outcomes, maxPosted, i);
      CandidateAt(items, resolve, fromCharCode, i);
      attempts' := attempts;
      var link := Message.ItemLink(items[i], resolve);
      if link !in posted {
        var message := Message.FormatMessage(items[i], link, fromCharCode);
        if outcomes[i] {
          RecordPosted(link);
        }
        attempts' := attempts + [Attempt(link, message, outcomes[i])];
      }
    }

    /** `checkFeed`: for each item in order, skip it when its link is known;
        otherwise build its message and publish it, recording the link when
        the publish succeeds. `feed` is `None` when fetching fails, and
        `outcomes[i]` is what publishing item `i` would return. Returns the
        publishes tried. */
    method CheckFeed(feed: Option<seq<Message.FeedItem>>, outcomes: seq<bool>,
                     resolve: string -> Option<string>, fromCharCode: nat -> char)
      returns (attempts: seq<Attempt>)
      requires feed.Some? ==> |outcomes| == |feed.value|
      modifies this
      ensures var c := Poll(old(posted), feed, outcomes, maxPosted, resolve, fromCharCode);
        posted == c.posted && attempts == c.attempts
      ensures maxPosted >= 1 && |old(posted)| <= maxPosted ==> |posted| <= maxPosted
    {
      attempts := [];
      if feed.None? {
        return;
      }
      var items := feed.value;
      ghost var start := posted;
      ghost var candidates := Candidates(items, resolve, fromCharCode);
      var i := 0;
      while i < |items|
        invariant 0 <= i <= |items|
        invariant Cycle(posted, attempts) == Run(start, candidates[..i], outcomes[..i], maxPosted)
      {
        attempts := HandleItem(items, i, outcomes, attempts, resolve, fromCharCode, start);
        i := i + 1;
      }
      TakeAll(candidates);
      TakeAll(outcomes);
      if maxPosted >= 1 {
        RunBounded(start, candidates, outcomes, maxPosted);
      }
    }
  }
}
