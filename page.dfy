/** The page script: the student container, the counter and the search box,
    with `renderStudents`, `filterStudents` and `loadStudents` as methods
    that update them step by step. */
module TeamPage {
  import opened Text
  import opened Dates
  import opened Cards
  import opened Grouping
  import opened Rendering
  import opened Filtering

  /** What the `#total-students-count` element shows. */
  datatype Counter = Blank | Total(n: nat) | ErrorMark

  /** What fetching and decoding `data.json` gave: the records, or a failure
      (network error, a status that is not OK, or a body that is not JSON). */
  datatype FetchOutcome = Fetched(records: seq<Student>) | FetchFailed

  /** The search loop's state after the wrappers before position `i` have been
      handled: those children are restyled, except that a separator right
      before position `i` waits for the wrapper at `i`. */
  ghost function FilterProgress(base: seq<Node>, t: string, i: nat, k: nat): Node
    requires k < |base|
  {
    if k < i && !(k + 1 == i && base[k].Separator?) then RefreshNode(base, k, t) else base[k]
  }

  /** Handling the wrapper at `i` restyles it and the separator before it. */
  lemma FilterStepWrapper(base: seq<Node>, t: string, i: nat, before: seq<Node>, after: seq<Node>)
    requires i < |base| == |before| && base[i].Wrapper?
    requires forall k :: 0 <= k < |base| ==> before[k] == FilterProgress(base, t, i, k)
    requires var w := before[i := RefreshNode(base, i, t)];
      after == if i > 0 && w[i - 1].Separator? then w[i - 1 := Separator(w[i - 1].monthYear, AnyMatch(base[i].cards, t))] else w
    ensures |after| == |base|
    ensures forall k :: 0 <= k < |base| ==> after[k] == FilterProgress(base, t, i + 1, k)
  {
    forall k | 0 <= k < |base| ensures after[k] == FilterProgress(base, t, i + 1, k) {
      if k + 1 == i && base[k].Separator? {
        assert before[k] == base[k];
      }
    }
  }

  /** Any other child at `i` is left alone; a separator before it was already final. */
  lemma FilterStepOther(base: seq<Node>, t: string, i: nat, cur: seq<Node>)
    requires i < |base| == |cur| && !base[i].Wrapper?
    requires forall k :: 0 <= k < |base| ==> cur[k] == FilterProgress(base, t, i, k)
    ensures forall k :: 0 <= k < |base| ==> cur[k] == FilterProgress(base, t, i + 1, k)
  {
  }

  lemma MatchesInSnoc(ns: seq<Node>, i: nat, t: string)
    requires i < |ns|
    ensures MatchesIn(ns[..i + 1], t) == (MatchesIn(ns[..i], t) || (ns[i].Wrapper? && AnyMatch(ns[i].cards, t)))
  {
    if MatchesIn(ns[..i + 1], t) {
      var k :| 0 <= k < i + 1 && ns[..i + 1][k].Wrapper? && AnyMatch(ns[..i + 1][k].cards, t);
      if k < i {
        assert ns[..i][k] == ns[k];
      }
    }
    if MatchesIn(ns[..i], t) {
      var k :| 0 <= k < i && ns[..i][k].Wrapper? && AnyMatch(ns[..i][k].cards, t);
      assert ns[..i + 1][k] == ns[k];
    }
    if ns[i].Wrapper? && AnyMatch(ns[i].cards, t) {
      assert ns[..i + 1][i] == ns[i];
    }
  }

  lemma ShowCardsSnoc(cs: seq<Card>, j: nat, t: string)
    requires j < |cs|
    ensures ShowCards(cs[..j + 1], t) == ShowCards(cs[..j], t) + [cs[j].(visible := CardMatches(cs[j], t))]
    ensures AnyMatch(cs[..j + 1], t) == (AnyMatch(cs[..j], t) || CardMatches(cs[j], t))
  {
    if AnyMatch(cs[..j + 1], t) {
      var q :| 0 <= q < j + 1 && CardMatches(cs[..j + 1][q], t);
      if q < j {
        assert cs[..j][q] == cs[q];
      }
    }
    if AnyMatch(cs[..j], t) {
      var q :| 0 <= q < j && CardMatches(cs[..j][q], t);
      assert cs[..j + 1][q] == cs[q];
    }
  }

  /** The inner loop of `filterStudents` over one wrapper's cards: each
      card displayed iff it matches, and whether any of them does. */
  method ShowMatching(cs: seq<Card>, term: string) returns (shown: seq<Card>, monthHasVisible: bool)
    ensures shown == ShowCards(cs, term)
    ensures monthHasVisible == AnyMatch(cs, term)
  {
    shown, monthHasVisible := [], false;
    var j := 0;
    while j < |cs|
      invariant 0 <= j <= |cs|
      invariant shown == ShowCards(cs[..j], term)
      invariant monthHasVisible == AnyMatch(cs[..j], term)
    {
      ShowCardsSnoc(cs, j, term);
      var card := cs[j];
      var isVisible := Contains(card.nameAttr, term) || Contains(card.bioAttr, term) || Contains(card.jobAttr, term);
      shown := shown + [card.(visible := isVisible)];
      if isVisible {
        monthHasVisible := true;
      }
      j := j + 1;
    }
    assert cs[..|cs|] == cs;
  }

  /** The outer loop of `filterStudents` over the container's children:
      each wrapper and its cards restyled for `term`, the separator right
      before a wrapper shown iff the wrapper is, and whether anything matched. */
  method Restyle(base: seq<Node>, term: string) returns (children: seq<Node>, anyVisible: bool)
    ensures children == Refresh(base, term)
    ensures anyVisible == MatchesIn(base, term)
  {
    children, anyVisible := base, false;
    var i := 0;
    while i < |children|
      invariant 0 <= i <= |children| == |base|
      invariant forall k :: 0 <= k < |base| ==> children[k] == FilterProgress(base, term, i, k)
      invariant anyVisible == MatchesIn(base[..i], term)
    {
      MatchesInSnoc(base, i, term);
      ghost var before := children;
      if children[i].Wrapper? {
        assert children[i] == base[i];
        var shown, monthHasVisible := ShowMatching(children[i].cards, term);
        anyVisible := anyVisible || monthHasVisible;
        children := children[i := Wrapper(shown, monthHasVisible)];
        if i > 0 && children[i - 1].Separator? {
          children := children[i - 1 := Separator(children[i - 1].monthYear, monthHasVisible)];
        }
        FilterStepWrapper(base, term, i, before, children);
      } else {
        FilterStepOther(base, term, i, children);
      }
      i := i + 1;
    }
    assert base[..|base|] == base;
  }

  /** `groupedStudents[monthYear].forEach(...)`: one card per member, in order. */
  method BuildCards(members: seq<Student>) returns (cards: seq<Card>)
    ensures |cards| == |members|
    ensures forall k :: 0 <= k < |members| ==> cards[k] == MakeCard(members[k])
  {
    cards := [];
    var k := 0;
    while k < |members|
      invariant 0 <= k <= |members|
      invariant |cards| == k
      invariant forall q :: 0 <= q < k ==> cards[q] == MakeCard(members[q])
    {
      cards := cards + [MakeCard(members[k])];
      k := k + 1;
    }
  }

  /** The `reduce` over the sorted copy: the dictionary of buckets and its
      keys in insertion order. */
  method GroupByMonth(sorted: seq<Student>) returns (acc: map<string, seq<Student>>, keys: seq<string>)
    ensures acc == Groups(sorted) && keys == KeyOrder(sorted)
  {
    acc, keys := map[], [];
    var i := 0;
    while i < |sorted|
      invariant 0 <= i <= |sorted|
      invariant acc == Groups(sorted[..i]) && keys == KeyOrder(sorted[..i])
    {
      var student := sorted[i];
      assert sorted[..i + 1][..i] == sorted[..i] && sorted[..i + 1][i] == student;
      if student.arrival.Some? {
        var monthYear := MonthYearLabel(student.arrival.value);
        if monthYear !in acc {
          acc := acc[monthYear := []];
          keys := keys + [monthYear];
        }
        acc := acc[monthYear := acc[monthYear] + [student]];
      }
      i := i + 1;
    }
    assert sorted[..|sorted|] == sorted;
  }

  class Page {
    const hasSearchInput: bool
    const hasCounter: bool
    const hasContainer: bool
    var nodes: seq<Node>
    var counter: Counter
    var allStudents: seq<Student>

    /** At most one "no results" message is ever present. */
    ghost predicate Valid()
      reads this
    {
      MessageCount(nodes) <= 1
    }

    /** The page as loaded, before the script has run: which of the three
        elements exist, an empty container and a blank counter. */
    constructor(searchInput: bool, counterElement: bool, container: bool)
      ensures hasSearchInput == searchInput && hasCounter == counterElement && hasContainer == container
      ensures nodes == [] && counter == Blank && allStudents == []
      ensures Valid()
    {
      hasSearchInput, hasCounter, hasContainer := searchInput, counterElement, container;
      nodes, counter, allStudents := [], Blank, [];
    }

    /** `renderStudents(xs)`: the container's previous content is replaced by
        the rendering of `xs` (so rendering twice is rendering once); without
        a container nothing happens. */
    method Render(xs: seq<Student>)
      modifies this
      ensures hasContainer ==> nodes == RenderedNodes(xs) && Valid()
      ensures !hasContainer ==> nodes == old(nodes)
      ensures counter == old(counter) && allStudents == old(allStudents)
    {
      if !hasContainer {
        return;
      }
      nodes := [];
      if |xs| == 0 {
        nodes := [Placeholder];
        assert MessageCount(nodes) == 0;
        return;
      }
      var sorted := SortedCopy(xs);
      var acc, keys := GroupByMonth(sorted);
      var order := Reverse(SortKeys(acc, keys));
      MonthOrderKeys(xs);
      assert order == MonthOrder(xs);
      ghost var gs := Bucketed(order, acc);
      assert gs == MonthGroups(xs);
      var j := 0;
      while j < |order|
        invariant 0 <= j <= |order| == |gs|
        invariant forall k :: 0 <= k < |order| ==> order[k] in acc
        invariant nodes == Emit(gs[..j])
        invariant counter == old(counter) && allStudents == old(allStudents)
      {
        var monthYear := order[j];
        nodes := nodes + [Separator(monthYear, true)];
        var cards := BuildCards(acc[monthYear]);
        assert gs[j] == Group(monthYear, acc[monthYear]);
        assert cards == MakeCards(gs[j].members);
        nodes := nodes + [Wrapper(cards, true)];
        EmitSnoc(gs, j);
        j := j + 1;
      }
      assert gs[..|gs|] == gs;
      EmitClean(gs);
    }

    /** `filterStudents()` with the search box holding `raw`: the first old
        message is removed, every wrapper and its cards are restyled for the
        normalised term, the separator before each wrapper follows it, and a
        message is appended when the term is not empty and nothing matched.
        Without a search box or a container nothing happens. */
    method Filter(raw: string)
      modifies this
      ensures hasSearchInput && hasContainer ==> nodes == FilteredNodes(old(nodes), Normalize(raw))
      ensures !(hasSearchInput && hasContainer) ==> nodes == old(nodes)
      ensures old(Valid()) ==> Valid()
      ensures counter == old(counter) && allStudents == old(allStudents)
    {
      if !hasSearchInput || !hasContainer {
        return;
      }
      var term := Normalize(raw);
      var children, anyVisible := Restyle(RemoveFirstMessage(nodes), term);
      if !anyVisible && term != "" {
        children := children + [NoResults];
      }
      nodes := children;
      FilterMessage(old(nodes), term);
    }

    /** `loadStudents()` once the fetch has given `outcome`. Without a
        container the counter shows the error mark and nothing is fetched. On
        success the records are kept, the counter shows how many there are
        (all of them, dated or not) and they are rendered; on failure the
        container shows the load error and the counter the error mark. */
    method Load(outcome: FetchOutcome)
      modifies this
      ensures !hasContainer ==>
        nodes == old(nodes) && allStudents == old(allStudents)
        && counter == (if hasCounter then ErrorMark else old(counter))
      ensures hasContainer && outcome.Fetched? ==>
        allStudents == outcome.records && nodes == RenderedNodes(outcome.records)
        && counter == (if hasCounter then Total(|outcome.records|) else old(counter))
      ensures hasContainer && outcome.FetchFailed? ==>
        nodes == [LoadError] && allStudents == old(allStudents)
        && counter == (if hasCounter then ErrorMark else old(counter))
      ensures hasContainer ==> Valid()
    {
      if !hasContainer {
        if hasCounter {
          counter := ErrorMark;
        }
        return;
      }
      match outcome {
        case Fetched(records) =>
          allStudents := records;
          if hasCounter {
            counter := Total(|records|);
          }
          Render(records);
        case FetchFailed =>
          nodes := [LoadError];
          assert MessageCount(nodes) == 0;
          if hasCounter {
            counter := ErrorMark;
          }
      }
    }
  }
}
