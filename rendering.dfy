/** What `renderStudents` puts into the student container: per group, a
    month separator followed by a wrapper holding one card per record. */
module Rendering {
  import opened Cards
  import opened Grouping

  /** A child element of the student container. */
  datatype Node =
    | Separator(monthYear: string, visible: bool)  // the `d-flex` box holding a `.separator`
    | Wrapper(cards: seq<Card>, visible: bool)     // a `.card-wrapper`
    | Placeholder                                  // "No students found."
    | LoadError                                    // "Error loading student data."
    | NoResults                                    // the `#no-filter-results-message` paragraph

  /** One card per record, in the records' order. */
  function MakeCards(members: seq<Student>): (cs: seq<Card>)
  {
    seq(|members|, i requires 0 <= i < |members| => MakeCard(members[i]))
  }

  /** The two nodes appended for one group. */
  function GroupNodes(g: Group): (ns: seq<Node>)
  {
    [Separator(g.monthYear, true), Wrapper(MakeCards(g.members), true)]
  }

  /** The `monthOrder.forEach` loop: the nodes appended for `gs`, in order. */
  function Emit(gs: seq<Group>): (ns: seq<Node>)
  {
    if gs == [] then [] else Emit(gs[..|gs| - 1]) + GroupNodes(gs[|gs| - 1])
  }

  /** The container's children once `renderStudents(xs)` has run. */
  function RenderedNodes(xs: seq<Student>): (ns: seq<Node>)
  {
    if xs == [] then [Placeholder] else Emit(MonthGroups(xs))
  }

  /** The cards of all wrappers, in document order. */
  function AllCards(ns: seq<Node>): (cs: seq<Card>)
  {
    if ns == [] then []
    else AllCards(ns[..|ns| - 1]) + (if ns[|ns| - 1].Wrapper? then ns[|ns| - 1].cards else [])
  }

  /** How many "no results" messages `ns` holds. */
  function MessageCount(ns: seq<Node>): (n: nat)
  {
    multiset(ns)[NoResults]
  }

  /** Every separator, wrapper and card of `ns` is displayed. */
  predicate AllShown(ns: seq<Node>)
  {
    forall k :: 0 <= k < |ns| ==> NodeShown(ns[k])
  }

  /** A separator or wrapper is displayed, and so is every card of a wrapper. */
  predicate NodeShown(n: Node)
  {
    match n
    case Separator(_, v) => v
    case Wrapper(cs, v) => v && forall j :: 0 <= j < |cs| ==> cs[j].visible
    case _ => true
  }

  /** Group `i` becomes the separator at `2 * i` and the wrapper right after it. */
  lemma {:induction false} EmitShape(gs: seq<Group>)
    ensures |Emit(gs)| == 2 * |gs|
    ensures forall i :: 0 <= i < |gs| ==>
      Emit(gs)[2 * i] == Separator(gs[i].monthYear, true)
      && Emit(gs)[2 * i + 1] == Wrapper(MakeCards(gs[i].members), true)
  {
    if gs != [] {
      var p := gs[..|gs| - 1];
      EmitShape(p);
      forall i | 0 <= i < |gs|
        ensures Emit(gs)[2 * i] == Separator(gs[i].monthYear, true)
        ensures Emit(gs)[2 * i + 1] == Wrapper(MakeCards(gs[i].members), true)
      {
        if i < |p| {
          assert gs[i] == p[i];
        }
      }
    }
  }

  /** The emitted cards are one per member, groups taken in order. */
  lemma {:induction false} EmitCards(gs: seq<Group>)
    ensures AllCards(Emit(gs)) == MakeCards(Flatten(gs))
  {
    if gs != [] {
      var p, g := gs[..|gs| - 1], gs[|gs| - 1];
      EmitCards(p);
      var e, sep, w := Emit(p), Separator(g.monthYear, true), Wrapper(MakeCards(g.members), true);
      AppendTwo(e, sep, w);
      assert AllCards(e + [sep, w]) == AllCards(e + [sep]) + w.cards;
      assert AllCards(e + [sep]) == AllCards(e) + [];
      MakeCardsAppend(Flatten(p), g.members);
    }
  }

  /** Rendering leaves no "no results" message and displays everything. */
  lemma EmitClean(gs: seq<Group>)
    ensures MessageCount(Emit(gs)) == 0
    ensures AllShown(Emit(gs))
  {
    EmitNoMessage(gs);
    EmitAllShown(gs);
  }

  lemma {:induction false} EmitNoMessage(gs: seq<Group>)
    ensures MessageCount(Emit(gs)) == 0
  {
    if gs != [] {
      var p, g := gs[..|gs| - 1], gs[|gs| - 1];
      EmitNoMessage(p);
      var e, sep, w := Emit(p), Separator(g.monthYear, true), Wrapper(MakeCards(g.members), true);
      assert multiset(e + [sep, w]) == multiset(e) + multiset{sep, w};
    }
  }

  lemma EmitAllShown(gs: seq<Group>)
    ensures AllShown(Emit(gs))
  {
    EmitShape(gs);
    forall k | 0 <= k < |Emit(gs)| ensures NodeShown(Emit(gs)[k]) {
      var i := k / 2;
      assert k == 2 * i || k == 2 * i + 1;
    }
  }

  /** One more group emitted. */
  lemma EmitSnoc(gs: seq<Group>, j: nat)
    requires j < |gs|
    ensures Emit(gs[..j + 1]) == Emit(gs[..j]) + [Separator(gs[j].monthYear, true)] + [Wrapper(MakeCards(gs[j].members), true)]
  {
    assert gs[..j + 1][..j] == gs[..j];
  }

  /** Unfolding the node-sequence folds over two appended nodes. */
  lemma AppendTwo(e: seq<Node>, a: Node, b: Node)
    ensures (e + [a, b])[..|e + [a, b]| - 1] == e + [a]
    ensures (e + [a])[..|e + [a]| - 1] == e
  {
  }

  /** Rendering replaces whatever the container held: the empty list gives
      only the placeholder; otherwise there is exactly one separator,
      labelled with the group's month, immediately followed by one wrapper
      with one card per member, for each group in emission order; every
      element is displayed and no "no results" message is left. */
  lemma RenderShape(xs: seq<Student>)
    ensures xs == [] ==> RenderedNodes(xs) == [Placeholder]
    ensures xs != [] ==> |RenderedNodes(xs)| == 2 * |MonthGroups(xs)|
    ensures xs != [] ==> forall i :: 0 <= i < |MonthGroups(xs)| ==>
      RenderedNodes(xs)[2 * i] == Separator(MonthGroups(xs)[i].monthYear, true)
      && RenderedNodes(xs)[2 * i + 1] == Wrapper(MakeCards(MonthGroups(xs)[i].members), true)
    ensures MessageCount(RenderedNodes(xs)) == 0 && AllShown(RenderedNodes(xs))
  {
    if xs != [] {
      EmitShape(MonthGroups(xs));
      EmitClean(MonthGroups(xs));
    } else {
      assert [Placeholder][..0] == [];
    }
  }

  /** The total number of cards is the number of records with a valid date
      (while the counter shows the full length of the list), and the cards
      are those of exactly those records. */
  lemma RenderedCardCount(xs: seq<Student>)
    ensures |AllCards(RenderedNodes(xs))| == |DatedOnly(xs)|
    ensures multiset(AllCards(RenderedNodes(xs))) == multiset(MakeCards(DatedOnly(xs)))
  {
    if xs == [] {
      assert AllCards([Placeholder]) == AllCards([]) + [];
      return;
    }
    var gs := MonthGroups(xs);
    EmitCards(gs);
    GroupsPartition(xs);
    CardsOfPermutation(Flatten(gs), DatedOnly(xs));
  }

  lemma MakeCardsAppend(a: seq<Student>, b: seq<Student>)
    ensures MakeCards(a + b) == MakeCards(a) + MakeCards(b)
  {
  }

  /** Rearranging the records rearranges their cards the same way. */
  lemma {:induction false} CardsOfPermutation(a: seq<Student>, b: seq<Student>)
    requires multiset(a) == multiset(b)
    ensures multiset(MakeCards(a)) == multiset(MakeCards(b))
    decreases |a|
  {
    if a == [] {
      assert |b| == |multiset(b)| == 0;
    } else {
      var n := |a|;
      var x := a[n - 1];
      assert x in multiset(b);
      var i :| 0 <= i < |b| && b[i] == x;
      var b' := b[..i] + b[i + 1..];
      assert b == b[..i] + [x] + b[i + 1..];
      assert a == a[..n - 1] + [x];
      assert multiset(a) == multiset(a[..n - 1]) + multiset{x};
      assert multiset(b) == multiset(b[..i]) + multiset{x} + multiset(b[i + 1..]);
      assert multiset(b') == multiset(b[..i]) + multiset(b[i + 1..]);
      assert multiset(b') == multiset(b) - multiset{x};
      assert multiset(a[..n - 1]) == multiset(a) - multiset{x};
      CardsOfPermutation(a[..n - 1], b');
      MakeCardsAppend(a[..n - 1], [x]);
      MakeCardsAppend(b[..i], [x]);
      MakeCardsAppend(b[..i] + [x], b[i + 1..]);
      MakeCardsAppend(b[..i], b[i + 1..]);
    }
  }
}
