/** What `filterStudents` does to the container's children for a search term. */
module Filtering {
  import opened Text
  import opened Cards
  import opened Grouping
  import opened Rendering

  /** `searchInput.value.toLowerCase().trim()`. */
  function Normalize(raw: string): (t: string)
  {
    Trim(ToLower(raw))
  }

  /** The match: the term occurs in the card's name, bio or job attribute
      (the school attribute is not searched). */
  predicate CardMatches(c: Card, t: string)
  {
    Contains(c.nameAttr, t) || Contains(c.bioAttr, t) || Contains(c.jobAttr, t)
  }

  /** The cards with `style.display` set from the match. */
  function ShowCards(cs: seq<Card>, t: string): (r: seq<Card>)
  {
    seq(|cs|, j requires 0 <= j < |cs| => cs[j].(visible := CardMatches(cs[j], t)))
  }

  /** `monthHasVisibleCards` once the inner loop has run over `cs`. */
  predicate AnyMatch(cs: seq<Card>, t: string)
  {
    exists j :: 0 <= j < |cs| && CardMatches(cs[j], t)
  }

  /** Child `k` after the wrapper loop: a wrapper gets its cards' display
      and is shown iff one of them is; a separator right before a wrapper
      is shown iff that wrapper is; everything else is left as it was. */
  function RefreshNode(ns: seq<Node>, k: nat, t: string): (n: Node)
    requires k < |ns|
  {
    match ns[k]
    case Wrapper(cs, _) => Wrapper(ShowCards(cs, t), AnyMatch(cs, t))
    case Separator(l, _) =>
      if k + 1 < |ns| && ns[k + 1].Wrapper? then Separator(l, AnyMatch(ns[k + 1].cards, t)) else ns[k]
    case _ => ns[k]
  }

  function Refresh(ns: seq<Node>, t: string): (r: seq<Node>)
  {
    seq(|ns|, k requires 0 <= k < |ns| => RefreshNode(ns, k, t))
  }

  /** `querySelector('#no-filter-results-message')` and `remove()`: the
      first such message goes, any later one stays. */
  function RemoveFirstMessage(ns: seq<Node>): (r: seq<Node>)
  {
    if ns == [] then []
    else if ns[0] == NoResults then ns[1..]
    else [ns[0]] + RemoveFirstMessage(ns[1..])
  }

  /** `anyCardVisibleGlobal` once the wrapper loop has run over `ns`. */
  predicate MatchesIn(ns: seq<Node>, t: string)
  {
    exists k :: 0 <= k < |ns| && ns[k].Wrapper? && AnyMatch(ns[k].cards, t)
  }

  /** The container's children after `filterStudents` with the normalised term `t`. */
  function FilteredNodes(ns: seq<Node>, t: string): (r: seq<Node>)
  {
    var base := RemoveFirstMessage(ns);
    Refresh(base, t) + (if !MatchesIn(base, t) && t != "" then [NoResults] else [])
  }

  /** Some card of `ns` is displayed. */
  predicate AnyCardShown(ns: seq<Node>)
  {
    exists k, j :: 0 <= k < |ns| && ns[k].Wrapper? && 0 <= j < |ns[k].cards| && ns[k].cards[j].visible
  }

  /** A node with every display flag cleared: what the filter may not change. */
  function Unstyled(n: Node): Node
  {
    match n
    case Separator(l, _) => Separator(l, false)
    case Wrapper(cs, _) => Wrapper(seq(|cs|, j requires 0 <= j < |cs| => cs[j].(visible := false)), false)
    case _ => n
  }

  // ---------------------------------------------------------------------
  // The search term

  /** A term made only of whitespace normalises to the empty term. */
  lemma BlankTermIsEmpty(raw: string)
    requires forall i :: 0 <= i < |raw| ==> IsJsWhitespace(raw[i])
    ensures Normalize(raw) == ""
  {
    var l := ToLower(raw);
    forall i | 0 <= i < |l| ensures IsJsWhitespace(l[i]) {
      assert l[i] == LowerChar(raw[i]);
    }
    WhitespaceTrimsAway(l);
  }

  lemma WhitespaceTrimsAway(s: string)
    requires forall i :: 0 <= i < |s| ==> IsJsWhitespace(s[i])
    ensures Trim(s) == ""
  {
    assert LeadingSpace(s) == |s|;
  }

  /** The normalised term has no capitals and no surrounding whitespace;
      normalising it again gives it back. */
  lemma NormalizeIsNormal(raw: string)
    ensures Normalize(Normalize(raw)) == Normalize(raw)
    ensures forall i :: 0 <= i < |Normalize(raw)| ==> !IsAsciiUpper(Normalize(raw)[i])
    ensures Normalize(raw) != [] ==> !IsJsWhitespace(Normalize(raw)[0])
    ensures Normalize(raw) != [] ==> !IsJsWhitespace(Normalize(raw)[|Normalize(raw)| - 1])
  {
    var l := ToLower(raw);
    var i := TrimIsCore(l);
    var t := Trim(l);
    forall k | 0 <= k < |t| ensures !IsAsciiUpper(t[k]) {
      assert t[k] == l[i + k];
    }
    LowerFixed(t);
    NormalFixed(t);
  }

  /** A string without capitals is its own lower-casing. */
  lemma LowerFixed(t: string)
    requires forall k :: 0 <= k < |t| ==> !IsAsciiUpper(t[k])
    ensures ToLower(t) == t
  {
    assert forall k :: 0 <= k < |t| ==> ToLower(t)[k] == t[k];
  }

  /** Trimming a string that neither starts nor ends with whitespace changes nothing. */
  lemma NormalFixed(t: string)
    requires t != [] ==> !IsJsWhitespace(t[0]) && !IsJsWhitespace(t[|t| - 1])
    ensures Trim(t) == t
  {
    assert LeadingSpace(t) == 0;
    assert t[0..] == t;
  }

  // ---------------------------------------------------------------------
  // One card

  /** A card is displayed iff the term occurs somewhere in its name, bio
      or job attribute. */
  lemma MatchIffOccurs(c: Card, t: string)
    ensures CardMatches(c, t) <==> Occurs(t, c.nameAttr) || Occurs(t, c.bioAttr) || Occurs(t, c.jobAttr)
  {
    ContainsIffOccurs(c.nameAttr, t);
    ContainsIffOccurs(c.bioAttr, t);
    ContainsIffOccurs(c.jobAttr, t);
  }

  /** The empty term shows every card. */
  lemma EmptyTermMatches(c: Card)
    ensures CardMatches(c, "")
  {
    assert "" <= c.nameAttr;
  }

  /** Narrowing: a card that the term `t` shows is also shown by every
      piece `u` of `t`. */
  lemma NarrowerTermMatches(c: Card, t: string, u: string)
    requires CardMatches(c, t) && Contains(t, u)
    ensures CardMatches(c, u)
  {
    if Contains(c.nameAttr, t) {
      ContainsTransitive(c.nameAttr, t, u);
    } else if Contains(c.bioAttr, t) {
      ContainsTransitive(c.bioAttr, t, u);
    } else {
      ContainsTransitive(c.jobAttr, t, u);
    }
  }

  // ---------------------------------------------------------------------
  // The message

  /** Removing the first message removes exactly one message when there is
      one and changes nothing otherwise. */
  lemma {:induction false} RemoveFirstMessageCount(ns: seq<Node>)
    ensures MessageCount(ns) == 0 ==> RemoveFirstMessage(ns) == ns
    ensures multiset(RemoveFirstMessage(ns)) == multiset(ns) - multiset{NoResults}
  {
    if ns != [] {
      assert ns == [ns[0]] + ns[1..];
      RemoveFirstMessageCount(ns[1..]);
      if ns[0] != NoResults {
        assert multiset(ns) == multiset{ns[0]} + multiset(ns[1..]);
        assert multiset(RemoveFirstMessage(ns)) == multiset{ns[0]} + multiset(RemoveFirstMessage(ns[1..]));
      }
    }
  }

  /** The wrapper loop only restyles: it neither adds nor removes a child, nor
      changes what a child shows. */
  lemma RefreshUnstyled(ns: seq<Node>, t: string)
    ensures |Refresh(ns, t)| == |ns|
    ensures forall k :: 0 <= k < |ns| ==> Unstyled(Refresh(ns, t)[k]) == Unstyled(ns[k])
    ensures forall k :: 0 <= k < |ns| ==> (Refresh(ns, t)[k] == NoResults <==> ns[k] == NoResults)
  {
    forall k | 0 <= k < |ns| ensures Unstyled(Refresh(ns, t)[k]) == Unstyled(ns[k]) {
      if ns[k].Wrapper? {
        var cs := ns[k].cards;
        assert Unstyled(Refresh(ns, t)[k]).cards == Unstyled(ns[k]).cards;
      }
    }
  }

  lemma RefreshMessageCount(ns: seq<Node>, t: string)
    ensures MessageCount(Refresh(ns, t)) == MessageCount(ns)
    decreases |ns|
  {
    RefreshUnstyled(ns, t);
    MessageCountPointwise(ns, Refresh(ns, t));
  }

  /** Two sequences with their messages in the same places hold as many messages. */
  lemma {:induction false} MessageCountPointwise(a: seq<Node>, b: seq<Node>)
    requires |a| == |b|
    requires forall k :: 0 <= k < |a| ==> (a[k] == NoResults <==> b[k] == NoResults)
    ensures MessageCount(a) == MessageCount(b)
  {
    if a != [] {
      var n := |a|;
      MessageCountPointwise(a[..n - 1], b[..n - 1]);
      assert a == a[..n - 1] + [a[n - 1]] && b == b[..n - 1] + [b[n - 1]];
      assert multiset(a) == multiset(a[..n - 1]) + multiset{a[n - 1]};
      assert multiset(b) == multiset(b[..n - 1]) + multiset{b[n - 1]};
    }
  }

  /** The message rule: when the container held at most one message, it
      afterwards holds exactly one iff the term is not empty and no card is
      displayed, and none otherwise. With more messages, one is removed and
      at most one is added, so there are never more than before. */
  lemma FilterMessage(ns: seq<Node>, t: string)
    ensures MessageCount(FilteredNodes(ns, t)) <= if MessageCount(ns) <= 1 then 1 else MessageCount(ns)
    ensures MessageCount(ns) <= 1 ==>
      (MessageCount(FilteredNodes(ns, t)) == 1 <==> t != "" && !AnyCardShown(FilteredNodes(ns, t)))
  {
    var base := RemoveFirstMessage(ns);
    var r := FilteredNodes(ns, t);
    RemoveFirstMessageCount(ns);
    RefreshMessageCount(base, t);
    ShownIffMatches(base, t);
    var extra := if !MatchesIn(base, t) && t != "" then [NoResults] else [];
    assert multiset(r) == multiset(Refresh(base, t)) + multiset(extra);
    assert AnyCardShown(r) <==> AnyCardShown(Refresh(base, t)) by {
      ShownPrefix(Refresh(base, t), extra);
    }
  }

  /** A card is displayed after the wrapper loop iff some wrapper had a match. */
  lemma ShownIffMatches(ns: seq<Node>, t: string)
    ensures AnyCardShown(Refresh(ns, t)) <==> MatchesIn(ns, t)
  {
    var r := Refresh(ns, t);
    if MatchesIn(ns, t) {
      var k :| 0 <= k < |ns| && ns[k].Wrapper? && AnyMatch(ns[k].cards, t);
      var j :| 0 <= j < |ns[k].cards| && CardMatches(ns[k].cards[j], t);
      assert r[k].cards[j].visible;
    }
    if AnyCardShown(r) {
      var k, j :| 0 <= k < |r| && r[k].Wrapper? && 0 <= j < |r[k].cards| && r[k].cards[j].visible;
      assert ns[k].Wrapper? && CardMatches(ns[k].cards[j], t);
    }
  }

  /** A trailing message shows no card. */
  lemma ShownPrefix(a: seq<Node>, extra: seq<Node>)
    requires forall k :: 0 <= k < |extra| ==> extra[k] == NoResults
    ensures AnyCardShown(a + extra) <==> AnyCardShown(a)
  {
    if AnyCardShown(a + extra) {
      var k, j :| 0 <= k < |a + extra| && (a + extra)[k].Wrapper? && 0 <= j < |(a + extra)[k].cards| && (a + extra)[k].cards[j].visible;
      assert k < |a|;
      assert (a + extra)[k] == a[k];
    }
    if AnyCardShown(a) {
      var k, j :| 0 <= k < |a| && a[k].Wrapper? && 0 <= j < |a[k].cards| && a[k].cards[j].visible;
      assert (a + extra)[k] == a[k];
    }
  }

  // ---------------------------------------------------------------------
  // Visibility rules

  /** The filter's rules, child by child of the container once the first
      message is gone: display is all that changes; a card is displayed iff
      it matches; a wrapper is displayed iff one of its cards is; a
      separator right before a wrapper is displayed iff that wrapper is;
      every other child is untouched; a message, if one is added, comes last. */
  lemma FilterRules(ns: seq<Node>, t: string)
    ensures var base, r := RemoveFirstMessage(ns), FilteredNodes(ns, t);
      |r| == |base| + (if t != "" && !MatchesIn(base, t) then 1 else 0)
      && (|r| > |base| ==> r[|base|] == NoResults)
    ensures var base, r := RemoveFirstMessage(ns), FilteredNodes(ns, t);
      forall k :: 0 <= k < |base| ==> Unstyled(r[k]) == Unstyled(base[k])
    ensures var base, r := RemoveFirstMessage(ns), FilteredNodes(ns, t);
      forall k, j :: 0 <= k < |base| && base[k].Wrapper? && 0 <= j < |base[k].cards| ==>
        r[k].Wrapper? && |r[k].cards| == |base[k].cards|
        && (r[k].cards[j].visible <==> CardMatches(base[k].cards[j], t))
    ensures var base, r := RemoveFirstMessage(ns), FilteredNodes(ns, t);
      forall k :: 0 <= k < |base| && base[k].Wrapper? ==>
        (r[k].visible <==> exists j :: 0 <= j < |r[k].cards| && r[k].cards[j].visible)
    ensures var base, r := RemoveFirstMessage(ns), FilteredNodes(ns, t);
      forall k :: 0 <= k < |base| - 1 && base[k].Separator? && base[k + 1].Wrapper? ==>
        r[k].Separator? && r[k].visible == r[k + 1].visible
    ensures var base, r := RemoveFirstMessage(ns), FilteredNodes(ns, t);
      forall k :: 0 <= k < |base| && !base[k].Wrapper? && !(base[k].Separator? && k + 1 < |base| && base[k + 1].Wrapper?) ==>
        r[k] == base[k]
  {
    var base := RemoveFirstMessage(ns);
    FilteredPrefix(ns, t);
    RefreshUnstyled(base, t);
    RefreshRules(base, t);
  }

  /** The filtered children: the restyled ones, then possibly the message. */
  lemma FilteredPrefix(ns: seq<Node>, t: string)
    ensures var base, r := RemoveFirstMessage(ns), FilteredNodes(ns, t);
      |r| == |base| + (if t != "" && !MatchesIn(base, t) then 1 else 0)
      && (|r| > |base| ==> r[|base|] == NoResults)
      && forall k :: 0 <= k < |base| ==> r[k] == Refresh(base, t)[k]
  {
  }

  /** The restyling rules for cards, wrappers, separators and the rest. */
  lemma RefreshRules(ns: seq<Node>, t: string)
    ensures var r := Refresh(ns, t);
      forall k, j :: 0 <= k < |ns| && ns[k].Wrapper? && 0 <= j < |ns[k].cards| ==>
        r[k].Wrapper? && |r[k].cards| == |ns[k].cards|
        && (r[k].cards[j].visible <==> CardMatches(ns[k].cards[j], t))
    ensures var r := Refresh(ns, t);
      forall k :: 0 <= k < |ns| && ns[k].Wrapper? ==>
        (r[k].visible <==> exists j :: 0 <= j < |r[k].cards| && r[k].cards[j].visible)
    ensures var r := Refresh(ns, t);
      forall k :: 0 <= k < |ns| - 1 && ns[k].Separator? && ns[k + 1].Wrapper? ==>
        r[k].Separator? && r[k].visible == r[k + 1].visible
    ensures var r := Refresh(ns, t);
      forall k :: 0 <= k < |ns| && !ns[k].Wrapper? && !(ns[k].Separator? && k + 1 < |ns| && ns[k + 1].Wrapper?) ==>
        r[k] == ns[k]
  {
    var r := Refresh(ns, t);
    forall k | 0 <= k < |ns| && ns[k].Wrapper?
      ensures r[k].visible <==> exists j :: 0 <= j < |r[k].cards| && r[k].cards[j].visible
    {
      var cs := ns[k].cards;
      if AnyMatch(cs, t) {
        var j :| 0 <= j < |cs| && CardMatches(cs[j], t);
        assert r[k].cards[j].visible;
      }
    }
  }

  /** Restyling twice is restyling once: display depends only on the
      attributes, which restyling does not touch. */
  lemma RefreshIdempotent(ns: seq<Node>, t: string)
    ensures Refresh(Refresh(ns, t), t) == Refresh(ns, t)
    ensures MatchesIn(Refresh(ns, t), t) == MatchesIn(ns, t)
  {
    var r := Refresh(ns, t);
    forall k | 0 <= k < |ns| ensures RefreshNode(r, k, t) == r[k] {
      if ns[k].Wrapper? {
        ShowCardsTwice(ns[k].cards, t);
      } else if ns[k].Separator? && k + 1 < |ns| && ns[k + 1].Wrapper? {
        ShowCardsTwice(ns[k + 1].cards, t);
      }
    }
    assert Refresh(r, t) == r;
    if MatchesIn(r, t) {
      var k :| 0 <= k < |r| && r[k].Wrapper? && AnyMatch(r[k].cards, t);
      ShowCardsTwice(ns[k].cards, t);
    }
    if MatchesIn(ns, t) {
      var k :| 0 <= k < |ns| && ns[k].Wrapper? && AnyMatch(ns[k].cards, t);
      ShowCardsTwice(ns[k].cards, t);
      assert r[k] == Wrapper(ShowCards(ns[k].cards, t), true);
    }
  }

  lemma ShowCardsTwice(cs: seq<Card>, t: string)
    ensures ShowCards(ShowCards(cs, t), t) == ShowCards(cs, t)
    ensures AnyMatch(ShowCards(cs, t), t) == AnyMatch(cs, t)
  {
    var v := ShowCards(cs, t);
    assert forall j :: 0 <= j < |cs| ==> CardMatches(v[j], t) == CardMatches(cs[j], t);
    if AnyMatch(v, t) {
      var j :| 0 <= j < |v| && CardMatches(v[j], t);
      assert CardMatches(cs[j], t);
    }
  }

  /** Without messages, the removal step finds nothing, even with one
      message appended after everything else. */
  lemma {:induction false} RemoveTrailingMessage(a: seq<Node>)
    requires MessageCount(a) == 0
    ensures RemoveFirstMessage(a) == a
    ensures RemoveFirstMessage(a + [NoResults]) == a
  {
    RemoveFirstMessageCount(a);
    if a != [] {
      assert a == [a[0]] + a[1..];
      assert multiset(a) == multiset{a[0]} + multiset(a[1..]);
      RemoveTrailingMessage(a[1..]);
      assert (a + [NoResults])[1..] == a[1..] + [NoResults];
    }
  }

  /** Searching again for the same term changes nothing, as long as the
      container held at most one message to begin with. */
  lemma FilterIdempotent(ns: seq<Node>, t: string)
    requires MessageCount(ns) <= 1
    ensures FilteredNodes(FilteredNodes(ns, t), t) == FilteredNodes(ns, t)
  {
    var base := RemoveFirstMessage(ns);
    RemoveFirstMessageCount(ns);
    assert MessageCount(base) == 0;
    var shown := Refresh(base, t);
    var extra := if !MatchesIn(base, t) && t != "" then [NoResults] else [];
    var r := shown + extra;
    assert r == FilteredNodes(ns, t);
    RefreshMessageCount(base, t);
    RemoveTrailingMessage(shown);
    assert RemoveFirstMessage(r) == shown by {
      if extra == [] { assert r == shown; }
    }
    RefreshIdempotent(base, t);
    assert FilteredNodes(r, t) == Refresh(shown, t) + extra;
  }

  /** The empty term displays every card and every wrapper that has a card,
      and adds no message. */
  lemma FilterEmptyTerm(ns: seq<Node>)
    ensures var base, r := RemoveFirstMessage(ns), FilteredNodes(ns, "");
      |r| == |base|
      && (forall k, j :: 0 <= k < |r| && r[k].Wrapper? && 0 <= j < |r[k].cards| ==> r[k].cards[j].visible)
      && (forall k :: 0 <= k < |r| && r[k].Wrapper? && r[k].cards != [] ==> r[k].visible)
  {
    var base, r := RemoveFirstMessage(ns), FilteredNodes(ns, "");
    assert r == Refresh(base, "");
    forall k, j | 0 <= k < |r| && r[k].Wrapper? && 0 <= j < |r[k].cards| ensures r[k].cards[j].visible {
      EmptyTermMatches(base[k].cards[j]);
    }
    forall k | 0 <= k < |r| && r[k].Wrapper? && r[k].cards != [] ensures r[k].visible {
      EmptyTermMatches(base[k].cards[0]);
    }
  }

  /** Narrowing the search to a piece `u` of the term `t` hides nothing that
      `t` displayed: every card and every wrapper shown for `t` is shown for `u`. */
  lemma FilterNarrowing(ns: seq<Node>, t: string, u: string)
    requires Contains(t, u)
    ensures var base, rt, ru := RemoveFirstMessage(ns), FilteredNodes(ns, t), FilteredNodes(ns, u);
      (forall k, j :: 0 <= k < |base| && base[k].Wrapper? && 0 <= j < |base[k].cards| && rt[k].cards[j].visible ==>
        ru[k].cards[j].visible)
      && (forall k :: 0 <= k < |base| && base[k].Wrapper? && rt[k].visible ==> ru[k].visible)
  {
    var base, rt, ru := RemoveFirstMessage(ns), FilteredNodes(ns, t), FilteredNodes(ns, u);
    assert forall k :: 0 <= k < |base| ==> rt[k] == RefreshNode(base, k, t) && ru[k] == RefreshNode(base, k, u);
    forall k, j | 0 <= k < |base| && base[k].Wrapper? && 0 <= j < |base[k].cards| && rt[k].cards[j].visible
      ensures ru[k].cards[j].visible
    {
      NarrowerTermMatches(base[k].cards[j], t, u);
    }
    forall k | 0 <= k < |base| && base[k].Wrapper? && rt[k].visible ensures ru[k].visible {
      var cs := base[k].cards;
      var j :| 0 <= j < |cs| && CardMatches(cs[j], t);
      NarrowerTermMatches(cs[j], t, u);
    }
  }

  // ---------------------------------------------------------------------
  // Searching a freshly rendered page

  /** Some record of group `g` has a card matching `t`. */
  predicate GroupMatches(g: Group, t: string)
  {
    exists m :: 0 <= m < |g.members| && CardMatches(MakeCard(g.members[m]), t)
  }

  /** A search over the children emitted for `gs`: the same children,
      restyled group by group, then the message iff the term is not empty and
      no group matches. */
  lemma SearchEmitted(gs: seq<Group>, t: string)
    ensures var r := FilteredNodes(Emit(gs), t);
      |r| == 2 * |gs| + (if t != "" && !exists i :: 0 <= i < |gs| && GroupMatches(gs[i], t) then 1 else 0)
      && (|r| > 2 * |gs| ==> r[2 * |gs|] == NoResults)
      && |Emit(gs)| == 2 * |gs|
      && forall k :: 0 <= k < 2 * |gs| ==> r[k] == RefreshNode(Emit(gs), k, t)
  {
    SearchEmittedCount(gs, t);
    SearchEmittedRestyled(gs, t);
  }

  lemma SearchEmittedCount(gs: seq<Group>, t: string)
    ensures var r := FilteredNodes(Emit(gs), t);
      |r| == 2 * |gs| + (if t != "" && !exists i :: 0 <= i < |gs| && GroupMatches(gs[i], t) then 1 else 0)
      && (|r| > 2 * |gs| ==> r[2 * |gs|] == NoResults)
  {
    EmitShape(gs);
    EmitClean(gs);
    RemoveFirstMessageCount(Emit(gs));
    EmittedMatches(gs, t);
  }

  lemma SearchEmittedRestyled(gs: seq<Group>, t: string)
    ensures var r := FilteredNodes(Emit(gs), t);
      |Emit(gs)| == 2 * |gs| && |r| >= |Emit(gs)|
      && forall k :: 0 <= k < 2 * |gs| ==> r[k] == RefreshNode(Emit(gs), k, t)
  {
    EmitShape(gs);
    EmitClean(gs);
    RemoveFirstMessageCount(Emit(gs));
  }

  /** Some wrapper emitted for `gs` has a matching card iff some group has a
      matching record. */
  lemma EmittedMatches(gs: seq<Group>, t: string)
    ensures MatchesIn(Emit(gs), t) <==> exists i :: 0 <= i < |gs| && GroupMatches(gs[i], t)
  {
    if MatchesIn(Emit(gs), t) {
      var k :| 0 <= k < |Emit(gs)| && Emit(gs)[k].Wrapper? && AnyMatch(Emit(gs)[k].cards, t);
      var i := EmittedWrapper(gs, k);
      GroupMatchesCards(gs[i], t);
    }
    if exists i :: 0 <= i < |gs| && GroupMatches(gs[i], t) {
      var i :| 0 <= i < |gs| && GroupMatches(gs[i], t);
      GroupMatchesCards(gs[i], t);
      EmittedGroupWrapper(gs, i);
      var w := Emit(gs)[2 * i + 1];
      assert w.Wrapper? && AnyMatch(w.cards, t);
    }
  }

  /** The wrapper emitted for group `i`. */
  lemma EmittedGroupWrapper(gs: seq<Group>, i: nat)
    requires i < |gs|
    ensures 2 * i + 1 < |Emit(gs)| && Emit(gs)[2 * i + 1] == Wrapper(MakeCards(gs[i].members), true)
  {
    EmitShape(gs);
  }

  /** Every wrapper emitted for `gs` is the one of some group. */
  lemma EmittedWrapper(gs: seq<Group>, k: nat) returns (i: nat)
    requires k < |Emit(gs)| && Emit(gs)[k].Wrapper?
    ensures i < |gs| && Emit(gs)[k] == Wrapper(MakeCards(gs[i].members), true)
  {
    EmitShape(gs);
    i := k / 2;
  }

  /** Group `i`'s separator and wrapper after a search over what rendering emitted. */
  lemma SearchEmittedGroup(gs: seq<Group>, t: string, i: nat)
    requires i < |gs|
    ensures var r := FilteredNodes(Emit(gs), t);
      2 * i + 1 < |r|
      && r[2 * i] == Separator(gs[i].monthYear, GroupMatches(gs[i], t))
      && r[2 * i + 1] == Wrapper(ShowCards(MakeCards(gs[i].members), t), GroupMatches(gs[i], t))
  {
    SearchEmitted(gs, t);
    EmitShape(gs);
    GroupMatchesCards(gs[i], t);
  }

  /** The wrapper rendered for `g` has a matching card iff a record of `g` matches. */
  lemma GroupMatchesCards(g: Group, t: string)
    ensures AnyMatch(MakeCards(g.members), t) == GroupMatches(g, t)
  {
    var cs := MakeCards(g.members);
    if AnyMatch(cs, t) {
      var m :| 0 <= m < |cs| && CardMatches(cs[m], t);
      assert cs[m] == MakeCard(g.members[m]);
    }
    if GroupMatches(g, t) {
      var m :| 0 <= m < |g.members| && CardMatches(MakeCard(g.members[m]), t);
      assert cs[m] == MakeCard(g.members[m]);
    }
  }

  /** A search right after rendering a non-empty list, group by group: the
      month separator and the wrapper stay where rendering put them; a card is
      displayed iff its record matches; the separator and the wrapper are
      displayed iff some record of that month matches; and the message is
      added, after everything else, iff the term is not empty and no record
      of any month matches. */
  lemma SearchRendered(xs: seq<Student>, t: string)
    requires xs != []
    ensures var gs, r := MonthGroups(xs), FilteredNodes(RenderedNodes(xs), t);
      |r| == 2 * |gs| + (if t != "" && !exists i :: 0 <= i < |gs| && GroupMatches(gs[i], t) then 1 else 0)
      && (|r| > 2 * |gs| ==> r[2 * |gs|] == NoResults)
    ensures var gs, r := MonthGroups(xs), FilteredNodes(RenderedNodes(xs), t);
      forall i :: 0 <= i < |gs| ==>
        r[2 * i] == Separator(gs[i].monthYear, GroupMatches(gs[i], t))
        && r[2 * i + 1] == Wrapper(ShowCards(MakeCards(gs[i].members), t), GroupMatches(gs[i], t))
  {
    var gs := MonthGroups(xs);
    assert RenderedNodes(xs) == Emit(gs);
    SearchEmitted(gs, t);
    forall i | 0 <= i < |gs|
      ensures FilteredNodes(Emit(gs), t)[2 * i] == Separator(gs[i].monthYear, GroupMatches(gs[i], t))
      ensures FilteredNodes(Emit(gs), t)[2 * i + 1] == Wrapper(ShowCards(MakeCards(gs[i].members), t), GroupMatches(gs[i], t))
    {
      SearchEmittedGroup(gs, t, i);
    }
  }
}
