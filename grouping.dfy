/** The first half of `renderStudents`: the sorted copy of the records, the
    reduce that buckets them under their "Month Year" label, and the order in
    which the buckets are emitted. */
module Grouping {
  import opened Dates
  import opened Cards

  predicate Dated(s: Student) { s.arrival.Some? }

  function DateOf(s: Student): Date
    requires Dated(s)
  {
    s.arrival.value
  }

  function LabelOf(s: Student): string
    requires Dated(s)
  {
    MonthYearLabel(DateOf(s))
  }

  predicate AllDated(xs: seq<Student>)
  {
    forall i :: 0 <= i < |xs| ==> Dated(xs[i])
  }

  /** Every record is dated and they appear in ascending arrival order. */
  predicate SortedByDate(xs: seq<Student>)
  {
    AllDated(xs) && forall i, j :: 0 <= i < j < |xs| ==> NotAfter(DateOf(xs[i]), DateOf(xs[j]))
  }

  /** Every record of `s` is dated and arrives no earlier than `d`. */
  predicate NotBefore(d: Date, s: seq<Student>)
  {
    AllDated(s) && forall i :: 0 <= i < |s| ==> NotAfter(d, DateOf(s[i]))
  }

  // ---------------------------------------------------------------------
  // The sorted copy

  /** The records whose date is valid, in their order. */
  function DatedOnly(xs: seq<Student>): (r: seq<Student>)
    ensures AllDated(r)
  {
    if xs == [] then [] else (if Dated(xs[0]) then [xs[0]] else []) + DatedOnly(xs[1..])
  }

  /** The records whose date is invalid, in their order. */
  function UndatedOnly(xs: seq<Student>): (r: seq<Student>)
    ensures forall i :: 0 <= i < |r| ==> !Dated(r[i])
  {
    if xs == [] then [] else (if Dated(xs[0]) then [] else [xs[0]]) + UndatedOnly(xs[1..])
  }

  /** Every record is either dated or undated, and keeps its multiplicity. */
  lemma {:induction false} SplitByDate(xs: seq<Student>)
    ensures multiset(DatedOnly(xs)) + multiset(UndatedOnly(xs)) == multiset(xs)
    ensures |DatedOnly(xs)| + |UndatedOnly(xs)| == |xs|
  {
    if xs != [] {
      SplitByDate(xs[1..]);
      assert xs == [xs[0]] + xs[1..];
    }
  }

  /** The one step of insertion that a stable sort performs: `x` goes in front
      of the first record that does not arrive before it. */
  function InsertByDate(x: Student, s: seq<Student>): (r: seq<Student>)
    requires Dated(x) && AllDated(s)
    ensures AllDated(r) && multiset(r) == multiset(s) + multiset{x}
  {
    if s == [] then [x]
    else if NotAfter(DateOf(x), DateOf(s[0])) then [x] + s
    else
      assert s == [s[0]] + s[1..];
      [s[0]] + InsertByDate(x, s[1..])
  }

  lemma SortedCons(a: Student, t: seq<Student>)
    requires Dated(a)
    ensures SortedByDate([a] + t) <==> NotBefore(DateOf(a), t) && SortedByDate(t)
  {
    var s := [a] + t;
    assert forall i :: 0 <= i < |t| ==> s[i + 1] == t[i];
    if SortedByDate(s) {
      forall i | 0 <= i < |t| ensures NotAfter(DateOf(a), DateOf(t[i])) {
        assert s[0] == a && s[i + 1] == t[i];
      }
      forall i, j | 0 <= i < j < |t| ensures NotAfter(DateOf(t[i]), DateOf(t[j])) {
        assert s[i + 1] == t[i] && s[j + 1] == t[j];
      }
    }
    if NotBefore(DateOf(a), t) && SortedByDate(t) {
      forall i, j | 0 <= i < j < |s| ensures NotAfter(DateOf(s[i]), DateOf(s[j])) {
        if i > 0 { assert s[i] == t[i - 1] && s[j] == t[j - 1]; }
      }
    }
  }

  lemma {:induction false} InsertNotBefore(d: Date, x: Student, s: seq<Student>)
    requires Dated(x) && NotAfter(d, DateOf(x)) && NotBefore(d, s)
    ensures NotBefore(d, InsertByDate(x, s))
  {
    if s != [] && !NotAfter(DateOf(x), DateOf(s[0])) {
      InsertNotBefore(d, x, s[1..]);
    }
  }

  lemma {:induction false} InsertSorted(x: Student, s: seq<Student>)
    requires Dated(x) && SortedByDate(s)
    ensures SortedByDate(InsertByDate(x, s))
  {
    if s == [] {
    } else if NotAfter(DateOf(x), DateOf(s[0])) {
      SortedCons(x, s);
    } else {
      SortedCons(s[0], s[1..]);
      assert s == [s[0]] + s[1..];
      InsertSorted(x, s[1..]);
      InsertNotBefore(DateOf(s[0]), x, s[1..]);
      SortedCons(s[0], InsertByDate(x, s[1..]));
    }
  }

  /** `Array.prototype.sort` with the arrival-date comparator, on dated
      records: a stable sort into ascending arrival order. */
  function SortByDate(xs: seq<Student>): (r: seq<Student>)
    requires AllDated(xs)
    ensures multiset(r) == multiset(xs) && SortedByDate(r)
  {
    if xs == [] then []
    else
      var t := SortByDate(xs[1..]);
      InsertSorted(xs[0], t);
      assert xs == [xs[0]] + xs[1..];
      InsertByDate(xs[0], t)
  }

  /** The records that arrived exactly on `d`, in their order. */
  function WithDate(xs: seq<Student>, d: Date): (r: seq<Student>)
  {
    if xs == [] then []
    else (if Dated(xs[0]) && DateOf(xs[0]) == d then [xs[0]] else []) + WithDate(xs[1..], d)
  }

  lemma {:induction false} InsertStable(x: Student, s: seq<Student>, d: Date)
    requires Dated(x) && AllDated(s)
    ensures WithDate(InsertByDate(x, s), d) == (if DateOf(x) == d then [x] else []) + WithDate(s, d)
  {
    if s == [] {
    } else if NotAfter(DateOf(x), DateOf(s[0])) {
      assert ([x] + s)[1..] == s;
    } else {
      var s0, t := s[0], s[1..];
      assert s == [s0] + t;
      assert AllDated(t) by {
        forall i | 0 <= i < |t| ensures Dated(t[i]) { assert t[i] == s[i + 1]; }
      }
      InsertStable(x, t, d);
      var r := InsertByDate(x, t);
      assert InsertByDate(x, s) == [s0] + r;
      assert ([s0] + r)[1..] == r;
      assert DateOf(x) != DateOf(s0);
      var hx := if DateOf(x) == d then [x] else [];
      var h0 := if DateOf(s0) == d then [s0] else [];
      assert WithDate([s0] + r, d) == h0 + WithDate(r, d);
      assert WithDate(s, d) == h0 + WithDate(t, d);
      SwapEmpty(h0, hx, WithDate(t, d));
    }
  }

  /** Two prefixes one of which is empty can be swapped. */
  lemma SwapEmpty<T>(a: seq<T>, b: seq<T>, w: seq<T>)
    requires a == [] || b == []
    ensures a + (b + w) == b + (a + w)
  {
    if a == [] {
      assert a + (b + w) == b + w;
    } else {
      assert b + (a + w) == a + w;
    }
  }

  /** The sort is stable: records with equal arrival dates keep their input order. */
  lemma {:induction false} SortStable(xs: seq<Student>, d: Date)
    requires AllDated(xs)
    ensures WithDate(SortByDate(xs), d) == WithDate(xs, d)
  {
    if xs != [] {
      SortStable(xs[1..], d);
      InsertStable(xs[0], SortByDate(xs[1..]), d);
    }
  }

  /** The copy `[...studentsToRender].sort(...)`. Its comparator answers 0
      whenever a date is invalid, which is no consistent order, and around
      an undated record the engine may leave dated records out of order.
      The copy is taken to be the dated records stably sorted, then the
      undated ones in input order; when every date is valid it is exactly
      the stable sort (`AllDatedCopy`). */
  function SortedCopy(xs: seq<Student>): (r: seq<Student>)
  {
    SortByDate(DatedOnly(xs)) + UndatedOnly(xs)
  }

  /** The copy holds exactly the input records and leaves the input alone
      (a function cannot change its argument); its dated part is ascending. */
  lemma SortedCopyIsPermutation(xs: seq<Student>)
    ensures multiset(SortedCopy(xs)) == multiset(xs)
    ensures |DatedOnly(xs)| <= |SortedCopy(xs)| == |xs|
    ensures SortedByDate(SortedCopy(xs)[..|DatedOnly(xs)|])
    ensures forall i :: |DatedOnly(xs)| <= i < |xs| ==> !Dated(SortedCopy(xs)[i])
  {
    SplitByDate(xs);
    var d := DatedOnly(xs);
    var s := SortByDate(d);
    SameLength(s, d);
    AppendParts(s, UndatedOnly(xs));
  }

  /** Sequences with the same elements have the same length. */
  lemma SameLength(a: seq<Student>, b: seq<Student>)
    requires multiset(a) == multiset(b)
    ensures |a| == |b|
  {
    assert |multiset(a)| == |a| && |multiset(b)| == |b|;
  }

  /** The two halves of a concatenation, read back by position. */
  lemma AppendParts<T>(s: seq<T>, u: seq<T>)
    ensures (s + u)[..|s|] == s
    ensures forall i :: |s| <= i < |s + u| ==> (s + u)[i] == u[i - |s|]
  {
  }

  /** With every date valid the comparator is a consistent order, and the
      copy is the stable ascending sort of the whole input. */
  lemma AllDatedCopy(xs: seq<Student>)
    requires AllDated(xs)
    ensures SortedCopy(xs) == SortByDate(xs)
  {
    AllDatedParts(xs);
  }

  lemma {:induction false} AllDatedParts(xs: seq<Student>)
    requires AllDated(xs)
    ensures DatedOnly(xs) == xs && UndatedOnly(xs) == []
  {
    if xs != [] {
      AllDatedParts(xs[1..]);
    }
  }

  // ---------------------------------------------------------------------
  // The reduce into buckets

  function Members(m: map<string, seq<Student>>, k: string): seq<Student>
  {
    if k in m then m[k] else []
  }

  /** The dictionary `acc` after the reduce has visited `xs`: each dated
      record is pushed onto the list under its label. */
  function Groups(xs: seq<Student>): (m: map<string, seq<Student>>)
  {
    if xs == [] then map[]
    else
      var m := Groups(xs[..|xs| - 1]);
      var x := xs[|xs| - 1];
      if !Dated(x) then m else m[LabelOf(x) := Members(m, LabelOf(x)) + [x]]
  }

  /** `Object.keys(acc)`: the labels in the order they were first inserted. */
  function KeyOrder(xs: seq<Student>): (ks: seq<string>)
  {
    if xs == [] then []
    else
      var p := xs[..|xs| - 1];
      var x := xs[|xs| - 1];
      if !Dated(x) || LabelOf(x) in Groups(p) then KeyOrder(p) else KeyOrder(p) + [LabelOf(x)]
  }

  /** What the reduce builds, for any input: the keys are the dictionary's
      labels without repetition; each list is non-empty and holds records
      of `xs` carrying that label. */
  ghost predicate WellFormed(xs: seq<Student>, ks: seq<string>, m: map<string, seq<Student>>)
  {
    && (forall k :: k in m <==> k in ks)
    && (forall i, j :: 0 <= i < j < |ks| ==> ks[i] != ks[j])
    && (forall k :: k in m ==> m[k] != [])
    && (forall k, j :: k in m && 0 <= j < |m[k]| ==> Dated(m[k][j]) && LabelOf(m[k][j]) == k && m[k][j] in xs)
  }

  lemma FoldWellFormed(xs: seq<Student>)
    ensures WellFormed(xs, KeyOrder(xs), Groups(xs))
  {
    FoldKeys(xs);
    FoldBuckets(xs);
  }

  /** The keys are the dictionary's labels, each listed once. */
  lemma {:induction false} FoldKeys(xs: seq<Student>)
    ensures forall k :: k in Groups(xs) <==> k in KeyOrder(xs)
    ensures forall i, j :: 0 <= i < j < |KeyOrder(xs)| ==> KeyOrder(xs)[i] != KeyOrder(xs)[j]
  {
    if xs != [] {
      var p, x := xs[..|xs| - 1], xs[|xs| - 1];
      FoldKeys(p);
    }
  }

  /** Each list is non-empty and holds records of `xs` carrying its label. */
  lemma {:induction false} FoldBuckets(xs: seq<Student>)
    ensures forall k :: k in Groups(xs) ==> Groups(xs)[k] != []
    ensures forall k, j :: k in Groups(xs) && 0 <= j < |Groups(xs)[k]| ==>
      Dated(Groups(xs)[k][j]) && LabelOf(Groups(xs)[k][j]) == k && Groups(xs)[k][j] in xs
  {
    if xs != [] {
      var p, x := xs[..|xs| - 1], xs[|xs| - 1];
      FoldBuckets(p);
      assert forall y :: y in p ==> y in xs;
    }
  }

  /** Undated records at the end change neither the dictionary nor its keys. */
  lemma {:induction false} UndatedSuffix(a: seq<Student>, u: seq<Student>)
    requires forall i :: 0 <= i < |u| ==> !Dated(u[i])
    ensures Groups(a + u) == Groups(a) && KeyOrder(a + u) == KeyOrder(a)
  {
    if u != [] {
      var u' := u[..|u| - 1];
      assert (a + u)[..|a + u| - 1] == a + u';
      assert (a + u)[|a + u| - 1] == u[|u| - 1];
      UndatedSuffix(a, u');
      assert a + u != [];
      assert Groups(a + u) == Groups(a + u');
      assert KeyOrder(a + u) == KeyOrder(a + u');
    } else {
      assert a + u == a;
    }
  }

  /** The members of the buckets, taken in key order and concatenated. */
  function Concat(ks: seq<string>, m: map<string, seq<Student>>): (r: seq<Student>)
  {
    if ks == [] then [] else Concat(ks[..|ks| - 1], m) + Members(m, ks[|ks| - 1])
  }

  lemma {:induction false} ConcatIgnores(ks: seq<string>, m: map<string, seq<Student>>, k: string, v: seq<Student>)
    requires k !in ks
    ensures Concat(ks, m[k := v]) == Concat(ks, m)
  {
    if ks != [] {
      ConcatIgnores(ks[..|ks| - 1], m, k, v);
    }
  }

  lemma {:induction false} ConcatCons(ks: seq<string>, m: map<string, seq<Student>>)
    requires ks != []
    ensures Concat(ks, m) == Members(m, ks[0]) + Concat(ks[1..], m)
  {
    if |ks| > 1 {
      ConcatCons(ks[..|ks| - 1], m);
      assert ks[..|ks| - 1][1..] == ks[1..][..|ks[1..]| - 1];
    }
  }

  /** The arrival date of the first record of bucket `k`, or `None` (the
      comparator treats a missing or invalid date as "equal"). */
  function FirstDate(m: map<string, seq<Student>>, k: string): Option<Date>
  {
    if k in m && m[k] != [] && Dated(m[k][0]) then Some(DateOf(m[k][0])) else None
  }

  /** Bucket `a`'s first record lies in a strictly earlier month than bucket `b`'s. */
  predicate KeyBefore(m: map<string, seq<Student>>, a: string, b: string)
  {
    FirstDate(m, a).Some? && FirstDate(m, b).Some? && MonthBefore(FirstDate(m, a).value, FirstDate(m, b).value)
  }

  /** Each key's first record lies in a strictly earlier month than any later key's. */
  ghost predicate KeysAscending(ks: seq<string>, m: map<string, seq<Student>>)
  {
    forall i, j :: 0 <= i < j < |ks| ==> KeyBefore(m, ks[i], ks[j])
  }

  /** Replacing a bucket by one with the same first record keeps the keys ascending. */
  lemma KeepFirstDate(ks: seq<string>, m: map<string, seq<Student>>, l: string, v: seq<Student>)
    requires KeysAscending(ks, m) && l in m && m[l] != [] && v != [] && v[0] == m[l][0]
    ensures KeysAscending(ks, m[l := v])
  {
    var m' := m[l := v];
    forall i, j | 0 <= i < j < |ks| ensures KeyBefore(m', ks[i], ks[j]) {
      assert FirstDate(m', ks[i]) == FirstDate(m, ks[i]);
      assert FirstDate(m', ks[j]) == FirstDate(m, ks[j]);
      assert KeyBefore(m, ks[i], ks[j]);
    }
  }

  lemma SortedPrefix(xs: seq<Student>, n: nat)
    requires SortedByDate(xs) && n <= |xs|
    ensures SortedByDate(xs[..n])
  {
    assert forall i :: 0 <= i < n ==> xs[..n][i] == xs[i];
  }

  /** Every record of a sorted sequence arrives no later than its last one. */
  lemma BeforeLast(xs: seq<Student>, y: Student)
    requires SortedByDate(xs) && xs != [] && y in xs
    ensures Dated(y) && NotAfter(DateOf(y), DateOf(xs[|xs| - 1]))
  {
    var i :| 0 <= i < |xs| && xs[i] == y;
    if i < |xs| - 1 {
      assert NotAfter(DateOf(xs[i]), DateOf(xs[|xs| - 1]));
    }
  }

  /** What the reduce has built after an ascending prefix `xs`: the
      buckets, concatenated in key order, give back `xs`; each key's first
      record is in a strictly earlier month than the next key's; each bucket
      is ascending; the last key is the last record's label. */
  ghost predicate FoldFacts(xs: seq<Student>, ks: seq<string>, m: map<string, seq<Student>>)
  {
    && SortedByDate(xs)
    && Concat(ks, m) == xs
    && KeysAscending(ks, m)
    && (forall k :: k in m ==> SortedByDate(m[k]))
    && (xs != [] ==> ks != [] && ks[|ks| - 1] == LabelOf(xs[|xs| - 1]))
  }

  /** Every record of `p` arrives no later than `x`. */
  lemma AllBefore(p: seq<Student>, x: Student, y: Student)
    requires SortedByDate(p + [x]) && y in p
    ensures Dated(y) && Dated(x) && NotAfter(DateOf(y), DateOf(x))
  {
    var xs := p + [x];
    var i :| 0 <= i < |p| && p[i] == y;
    assert xs[i] == y && xs[|xs| - 1] == x;
  }

  /** A record whose label is already a key is in the month of the last
      record so far, so its label is the last key. */
  lemma LastKeyOfExisting(p: seq<Student>, x: Student, ks: seq<string>, m: map<string, seq<Student>>)
    requires SortedByDate(p + [x]) && WellFormed(p, ks, m) && FoldFacts(p, ks, m)
    requires Dated(x) && LabelOf(x) in m
    ensures ks != [] && ks[|ks| - 1] == LabelOf(x)
  {
    var l := LabelOf(x);
    var y := m[l][0];
    assert y in p && LabelOf(y) == l;
    LabelInjective(DateOf(y), DateOf(x));
    var z := p[|p| - 1];
    AllBefore(p, x, z);
    var iy :| 0 <= iy < |p| && p[iy] == y;
    if iy < |p| - 1 {
      assert NotAfter(DateOf(p[iy]), DateOf(p[|p| - 1]));
    }
    LabelInjective(DateOf(z), DateOf(x));
  }

  /** Appending to the bucket of the last key appends to the concatenation. */
  lemma ConcatAppendLast(ks: seq<string>, m: map<string, seq<Student>>, x: Student)
    requires ks != [] && ks[|ks| - 1] in m
    requires forall i, j :: 0 <= i < j < |ks| ==> ks[i] != ks[j]
    ensures Concat(ks, m[ks[|ks| - 1] := m[ks[|ks| - 1]] + [x]]) == Concat(ks, m) + [x]
  {
    var n, l := |ks|, ks[|ks| - 1];
    assert l !in ks[..n - 1];
    ConcatIgnores(ks[..n - 1], m, l, m[l] + [x]);
  }

  /** Appending the latest record to a bucket keeps that bucket ascending. */
  lemma BucketAppendSorted(p: seq<Student>, x: Student, b: seq<Student>)
    requires SortedByDate(p + [x]) && SortedByDate(b)
    requires forall j :: 0 <= j < |b| ==> b[j] in p
    ensures SortedByDate(b + [x])
  {
    var g := b + [x];
    assert (p + [x])[|p|] == x;
    forall i | 0 <= i < |g| ensures Dated(g[i]) {
      if i < |b| { assert g[i] == b[i]; }
    }
    forall i, j | 0 <= i < j < |g| ensures NotAfter(DateOf(g[i]), DateOf(g[j])) {
      if j < |b| {
        assert g[i] == b[i] && g[j] == b[j];
      } else {
        assert g[i] == b[i];
        AllBefore(p, x, b[i]);
      }
    }
  }

  /** A record whose label is already a key joins the last bucket. */
  lemma FoldStepExisting(p: seq<Student>, x: Student, ks: seq<string>, m: map<string, seq<Student>>)
    requires SortedByDate(p + [x]) && WellFormed(p, ks, m) && FoldFacts(p, ks, m)
    requires Dated(x) && LabelOf(x) in m
    ensures FoldFacts(p + [x], ks, m[LabelOf(x) := m[LabelOf(x)] + [x]])
  {
    var l := LabelOf(x);
    LastKeyOfExisting(p, x, ks, m);
    ConcatAppendLast(ks, m, x);
    KeepFirstDate(ks, m, l, m[l] + [x]);
    BucketAppendSorted(p, x, m[l]);
    BucketsStaySorted(m, l, m[l] + [x], m[l := m[l] + [x]]);
    LastOfSnoc(p, x);
  }

  /** Replacing one bucket by an ascending one keeps every bucket ascending. */
  lemma BucketsStaySorted(m: map<string, seq<Student>>, l: string, v: seq<Student>, m': map<string, seq<Student>>)
    requires forall k :: k in m ==> SortedByDate(m[k])
    requires SortedByDate(v) && m' == m[l := v]
    ensures forall k :: k in m' ==> SortedByDate(m'[k])
  {
  }

  lemma LastOfSnoc<T>(p: seq<T>, x: T)
    ensures p + [x] != [] && (p + [x])[|p + [x]| - 1] == x
  {
  }

  /** A new bucket at the end adds its one record at the end of the concatenation. */
  lemma ConcatAppendNew(ks: seq<string>, m: map<string, seq<Student>>, l: string, x: Student)
    requires l !in ks
    ensures Concat(ks + [l], m[l := [x]]) == Concat(ks, m) + [x]
  {
    ConcatIgnores(ks, m, l, [x]);
    assert (ks + [l])[..|ks|] == ks;
  }

  /** A new label comes from a later month than every bucket opened before it. */
  lemma AscendingNew(p: seq<Student>, x: Student, ks: seq<string>, m: map<string, seq<Student>>)
    requires SortedByDate(p + [x]) && WellFormed(p, ks, m) && KeysAscending(ks, m)
    requires Dated(x) && LabelOf(x) !in m
    ensures KeysAscending(ks + [LabelOf(x)], m[LabelOf(x) := [x]])
  {
    var l := LabelOf(x);
    var m' := m[l := [x]];
    var ks' := ks + [l];
    forall i, j | 0 <= i < j < |ks'| ensures KeyBefore(m', ks'[i], ks'[j]) {
      var ki := ks'[i];
      assert ki == ks[i] && ki in m && ki != l;
      assert FirstDate(m', ki) == FirstDate(m, ki);
      if j == |ks| {
        var e := m[ki][0];
        assert e in p && LabelOf(e) == ki;
        AllBefore(p, x, e);
        LabelInjective(DateOf(e), DateOf(x));
        NotAfterAcrossMonths(DateOf(e), DateOf(x));
        assert FirstDate(m', l) == Some(DateOf(x));
      } else {
        assert ks'[j] == ks[j] && ks[j] in m && ks[j] != l;
        assert FirstDate(m', ks[j]) == FirstDate(m, ks[j]);
        assert KeyBefore(m, ks[i], ks[j]);
      }
    }
  }

  /** A record whose label is new opens a bucket, in a later month than all
      the buckets before it. */
  lemma FoldStepNew(p: seq<Student>, x: Student, ks: seq<string>, m: map<string, seq<Student>>)
    requires SortedByDate(p + [x]) && WellFormed(p, ks, m) && FoldFacts(p, ks, m)
    requires Dated(x) && LabelOf(x) !in m
    ensures FoldFacts(p + [x], ks + [LabelOf(x)], m[LabelOf(x) := [x]])
  {
    var l := LabelOf(x);
    assert l !in ks;
    ConcatAppendNew(ks, m, l, x);
    AscendingNew(p, x, ks, m);
    BucketsStaySorted(m, l, [x], m[l := [x]]);
    LastOfSnoc(p, x);
    LastOfSnoc(ks, l);
  }

  /** A non-empty sequence is its front followed by its last element. */
  lemma SnocLast<T>(xs: seq<T>)
    requires xs != []
    ensures xs[..|xs| - 1] + [xs[|xs| - 1]] == xs
  {
  }

  lemma AppendToEmpty<T>(a: seq<T>, b: seq<T>)
    requires a == []
    ensures a + b == b
  {
  }

  /** One more step of the reduce, unfolded. */
  lemma FoldSnoc(xs: seq<Student>)
    requires xs != []
    ensures var p, x := xs[..|xs| - 1], xs[|xs| - 1];
      Groups(xs) == (if !Dated(x) then Groups(p) else Groups(p)[LabelOf(x) := Members(Groups(p), LabelOf(x)) + [x]])
    ensures var p, x := xs[..|xs| - 1], xs[|xs| - 1];
      KeyOrder(xs) == (if !Dated(x) || LabelOf(x) in Groups(p) then KeyOrder(p) else KeyOrder(p) + [LabelOf(x)])
  {
  }

  lemma FoldExtendExisting(xs: seq<Student>)
    requires SortedByDate(xs) && xs != []
    requires WellFormed(xs[..|xs| - 1], KeyOrder(xs[..|xs| - 1]), Groups(xs[..|xs| - 1]))
    requires FoldFacts(xs[..|xs| - 1], KeyOrder(xs[..|xs| - 1]), Groups(xs[..|xs| - 1]))
    requires LabelOf(xs[|xs| - 1]) in Groups(xs[..|xs| - 1])
    ensures FoldFacts(xs, KeyOrder(xs), Groups(xs))
  {
    var p, x := xs[..|xs| - 1], xs[|xs| - 1];
    var l := LabelOf(x);
    SnocLast(xs);
    FoldSnoc(xs);
    FoldStepExisting(p, x, KeyOrder(p), Groups(p));
    ghost var ks', m' := KeyOrder(p), Groups(p)[l := Groups(p)[l] + [x]];
    assert FoldFacts(p + [x], ks', m');
  }

  lemma FoldExtendNew(xs: seq<Student>)
    requires SortedByDate(xs) && xs != []
    requires WellFormed(xs[..|xs| - 1], KeyOrder(xs[..|xs| - 1]), Groups(xs[..|xs| - 1]))
    requires FoldFacts(xs[..|xs| - 1], KeyOrder(xs[..|xs| - 1]), Groups(xs[..|xs| - 1]))
    requires LabelOf(xs[|xs| - 1]) !in Groups(xs[..|xs| - 1])
    ensures FoldFacts(xs, KeyOrder(xs), Groups(xs))
  {
    var p, x := xs[..|xs| - 1], xs[|xs| - 1];
    var l := LabelOf(x);
    SnocLast(xs);
    FoldSnoc(xs);
    AppendToEmpty(Members(Groups(p), l), [x]);
    FoldStepNew(p, x, KeyOrder(p), Groups(p));
    ghost var ks', m' := KeyOrder(p) + [l], Groups(p)[l := [x]];
    assert FoldFacts(p + [x], ks', m');
  }

  /** On an ascending input the reduce visits each month in one run (see
      `FoldFacts`). */
  lemma {:induction false} SortedFold(xs: seq<Student>)
    requires SortedByDate(xs)
    ensures FoldFacts(xs, KeyOrder(xs), Groups(xs))
  {
    if xs != [] {
      var p := xs[..|xs| - 1];
      SortedPrefix(xs, |xs| - 1);
      SortedFold(p);
      FoldWellFormed(p);
      if LabelOf(xs[|xs| - 1]) in Groups(p) {
        FoldExtendExisting(xs);
      } else {
        FoldExtendNew(xs);
      }
    }
  }

  // ---------------------------------------------------------------------
  // The order of the buckets

  /** The key comparator returns a positive number: both first dates are
      valid and `a`'s is the later one. */
  predicate KeyAfter(m: map<string, seq<Student>>, a: string, b: string)
  {
    FirstDate(m, a).Some? && FirstDate(m, b).Some? && !NotAfter(FirstDate(m, a).value, FirstDate(m, b).value)
  }

  function InsertKey(m: map<string, seq<Student>>, k: string, ks: seq<string>): seq<string>
  {
    if ks == [] then [k]
    else if !KeyAfter(m, k, ks[0]) then [k] + ks
    else [ks[0]] + InsertKey(m, k, ks[1..])
  }

  /** `Object.keys(acc).sort(...)` by each bucket's first arrival date. */
  function SortKeys(m: map<string, seq<Student>>, ks: seq<string>): (r: seq<string>)
  {
    if ks == [] then [] else InsertKey(m, ks[0], SortKeys(m, ks[1..]))
  }

  /** The keys come out of the reduce already in comparator order, so the
      key sort leaves them where they are. */
  lemma {:induction false} SortKeysKeepsAscending(m: map<string, seq<Student>>, ks: seq<string>)
    requires KeysAscending(ks, m)
    ensures SortKeys(m, ks) == ks
  {
    if ks != [] {
      assert KeysAscending(ks[1..], m) by {
        forall i, j | 0 <= i < j < |ks[1..]|
          ensures KeyBefore(m, ks[1..][i], ks[1..][j])
        {
          assert ks[1..][i] == ks[i + 1] && ks[1..][j] == ks[j + 1];
        }
      }
      SortKeysKeepsAscending(m, ks[1..]);
      if |ks| > 1 {
        assert ks[1..][0] == ks[1];
        assert !KeyAfter(m, ks[0], ks[1]);
      }
    }
  }

  /** On an ascending input the reduce inserts its keys in comparator
      order, so the key sort gives the insertion order back unchanged. */
  lemma KeySortUnchanged(s: seq<Student>)
    requires SortedByDate(s)
    ensures SortKeys(Groups(s), KeyOrder(s)) == KeyOrder(s)
  {
    SortedFold(s);
    SortKeysKeepsAscending(Groups(s), KeyOrder(s));
  }

  lemma {:induction false} InsertKeyPermutes(m: map<string, seq<Student>>, k: string, ks: seq<string>)
    ensures multiset(InsertKey(m, k, ks)) == multiset(ks) + multiset{k}
  {
    if ks != [] && KeyAfter(m, k, ks[0]) {
      InsertKeyPermutes(m, k, ks[1..]);
      assert ks == [ks[0]] + ks[1..];
    }
  }

  /** The key sort rearranges the keys and loses none. */
  lemma {:induction false} SortKeysPermutes(m: map<string, seq<Student>>, ks: seq<string>)
    ensures multiset(SortKeys(m, ks)) == multiset(ks)
  {
    if ks != [] {
      SortKeysPermutes(m, ks[1..]);
      InsertKeyPermutes(m, ks[0], SortKeys(m, ks[1..]));
      assert ks == [ks[0]] + ks[1..];
    }
  }

  /** `monthOrder.reverse()`. */
  function Reverse<T>(s: seq<T>): (r: seq<T>)
    ensures |r| == |s| && forall i :: 0 <= i < |s| ==> r[i] == s[|s| - 1 - i]
  {
    if s == [] then [] else [s[|s| - 1]] + Reverse(s[..|s| - 1])
  }

  // ---------------------------------------------------------------------
  // The buckets in emission order

  datatype Group = Group(monthYear: string, members: seq<Student>)

  /** The bucket labels in the order `renderStudents` emits them. */
  function MonthOrder(xs: seq<Student>): (order: seq<string>)
  {
    var sorted := SortedCopy(xs);
    Reverse(SortKeys(Groups(sorted), KeyOrder(sorted)))
  }

  /** The buckets in the order `renderStudents` emits them. */
  function MonthGroups(xs: seq<Student>): (gs: seq<Group>)
  {
    Bucketed(MonthOrder(xs), Groups(SortedCopy(xs)))
  }

  /** The buckets of `m` listed in the order `order`. */
  function Bucketed(order: seq<string>, m: map<string, seq<Student>>): (gs: seq<Group>)
  {
    seq(|order|, i requires 0 <= i < |order| => Group(order[i], Members(m, order[i])))
  }

  lemma KeysInGroups(xs: seq<Student>)
    ensures forall k :: k in KeyOrder(xs) ==> k in Groups(xs)
  {
    FoldWellFormed(xs);
  }

  /** Sorting and reversing keys of `m` gives keys of `m`. */
  lemma SortedReversedKeys(m: map<string, seq<Student>>, ks: seq<string>)
    requires forall k :: k in ks ==> k in m
    ensures forall i :: 0 <= i < |Reverse(SortKeys(m, ks))| ==> Reverse(SortKeys(m, ks))[i] in m
  {
    var sk := SortKeys(m, ks);
    SortKeysPermutes(m, ks);
    forall k | k in sk ensures k in m {
      assert k in multiset(sk);
    }
    var r := Reverse(sk);
    forall i | 0 <= i < |r| ensures r[i] in m {
      assert r[i] in sk;
    }
  }

  /** Every label in the emission order is a key of the dictionary, so
      `groupedStudents[monthYear]` always finds its bucket. */
  lemma MonthOrderKeys(xs: seq<Student>)
    ensures forall i :: 0 <= i < |MonthOrder(xs)| ==> MonthOrder(xs)[i] in Groups(SortedCopy(xs))
  {
    var sorted := SortedCopy(xs);
    KeysInGroups(sorted);
    SortedReversedKeys(Groups(sorted), KeyOrder(sorted));
  }

  /** The members of every group, concatenated in emission order. */
  function Flatten(gs: seq<Group>): (r: seq<Student>)
  {
    if gs == [] then [] else Flatten(gs[..|gs| - 1]) + gs[|gs| - 1].members
  }

  /** A bucket as the reduce leaves it for an ascending input: non-empty,
      ascending, and every record carries the bucket's label. */
  predicate LabelledBucket(k: string, b: seq<Student>)
  {
    b != [] && SortedByDate(b) && forall j :: 0 <= j < |b| ==> LabelOf(b[j]) == k
  }

  /** The emitted groups are the reduce's buckets over the sorted dated
      records, in reverse key order. */
  lemma MonthGroupsFromFold(xs: seq<Student>) returns (ks: seq<string>, m: map<string, seq<Student>>)
    ensures forall i, j :: 0 <= i < j < |ks| ==> ks[i] != ks[j]
    ensures forall i :: 0 <= i < |ks| ==> ks[i] in m && LabelledBucket(ks[i], m[ks[i]])
    ensures KeysAscending(ks, m)
    ensures multiset(Concat(ks, m)) == multiset(DatedOnly(xs))
    ensures |MonthGroups(xs)| == |ks|
    ensures forall i :: 0 <= i < |ks| ==> MonthGroups(xs)[i] == Group(ks[|ks| - 1 - i], Members(m, ks[|ks| - 1 - i]))
  {
    var s := SortByDate(DatedOnly(xs));
    ks, m := KeyOrder(s), Groups(s);
    MonthOrderOfSorted(xs);
    BucketedReverse(ks, m);
    FoldWellFormed(s);
    SortedFold(s);
    forall i | 0 <= i < |ks| ensures ks[i] in m && LabelledBucket(ks[i], m[ks[i]]) {
      assert ks[i] in m;
    }
  }

  /** The emission order is the reduce's key order over the sorted dated
      records, reversed; the undated records add no bucket. */
  lemma MonthOrderOfSorted(xs: seq<Student>)
    ensures var s := SortByDate(DatedOnly(xs));
      Groups(SortedCopy(xs)) == Groups(s) && MonthOrder(xs) == Reverse(KeyOrder(s))
  {
    var s := SortByDate(DatedOnly(xs));
    UndatedSuffix(s, UndatedOnly(xs));
    KeySortUnchanged(s);
  }

  /** Listing buckets in reversed key order, by position. */
  lemma BucketedReverse(ks: seq<string>, m: map<string, seq<Student>>)
    ensures |Bucketed(Reverse(ks), m)| == |ks|
    ensures forall i :: 0 <= i < |ks| ==> Bucketed(Reverse(ks), m)[i] == Group(ks[|ks| - 1 - i], Members(m, ks[|ks| - 1 - i]))
  {
  }

  lemma {:induction false} FlattenReversed(ks: seq<string>, m: map<string, seq<Student>>, gs: seq<Group>)
    requires |gs| == |ks|
    requires forall i :: 0 <= i < |ks| ==> gs[i].members == Members(m, ks[|ks| - 1 - i])
    ensures multiset(Flatten(gs)) == multiset(Concat(ks, m))
  {
    if ks != [] {
      var n := |ks|;
      FlattenReversed(ks[1..], m, gs[..n - 1]);
      ConcatCons(ks, m);
    }
  }

  /** Each emitted group is non-empty and holds only dated records carrying
      its label, all from one calendar month, in ascending arrival order. */
  lemma GroupsLabelled(xs: seq<Student>)
    ensures forall i :: 0 <= i < |MonthGroups(xs)| ==> MonthGroups(xs)[i].members != []
    ensures forall i, j :: 0 <= i < |MonthGroups(xs)| && 0 <= j < |MonthGroups(xs)[i].members| ==>
      Dated(MonthGroups(xs)[i].members[j]) && LabelOf(MonthGroups(xs)[i].members[j]) == MonthGroups(xs)[i].monthYear
    ensures forall i, j :: 0 <= i < |MonthGroups(xs)| && 0 <= j < |MonthGroups(xs)[i].members| ==>
      SameMonth(DateOf(MonthGroups(xs)[i].members[j]), DateOf(MonthGroups(xs)[i].members[0]))
    ensures forall i :: 0 <= i < |MonthGroups(xs)| ==> SortedByDate(MonthGroups(xs)[i].members)
  {
    var ks, m := MonthGroupsFromFold(xs);
    var gs := MonthGroups(xs);
    forall i | 0 <= i < |gs| ensures LabelledBucket(gs[i].monthYear, gs[i].members) {
      assert ks[|ks| - 1 - i] in m;
    }
    forall i, j | 0 <= i < |gs| && 0 <= j < |gs[i].members|
      ensures SameMonth(DateOf(gs[i].members[j]), DateOf(gs[i].members[0]))
    {
      assert LabelledBucket(gs[i].monthYear, gs[i].members);
      LabelInjective(DateOf(gs[i].members[j]), DateOf(gs[i].members[0]));
    }
  }

  /** Group `g` holds a later calendar month than group `h`, judged by
      their first records. */
  predicate NewerGroup(g: Group, h: Group)
  {
    g.members != [] && h.members != [] && Dated(g.members[0]) && Dated(h.members[0])
    && MonthBefore(DateOf(h.members[0]), DateOf(g.members[0]))
  }

  /** Buckets listed in reverse key order come out newest month first. */
  lemma ReversedKeysNewestFirst(ks: seq<string>, m: map<string, seq<Student>>, gs: seq<Group>)
    requires KeysAscending(ks, m) && |gs| == |ks|
    requires forall i :: 0 <= i < |ks| ==> gs[i].members == Members(m, ks[|ks| - 1 - i])
    ensures forall i, j :: 0 <= i < j < |gs| ==> NewerGroup(gs[i], gs[j])
  {
    var n := |ks|;
    forall i, j | 0 <= i < j < |gs| ensures NewerGroup(gs[i], gs[j]) {
      assert 0 <= n - 1 - j < n - 1 - i < n;
      assert KeyBefore(m, ks[n - 1 - j], ks[n - 1 - i]);
    }
  }

  /** Distinct keys listed in reverse give distinct group labels. */
  lemma ReversedKeysDistinct(ks: seq<string>, gs: seq<Group>)
    requires forall i, j :: 0 <= i < j < |ks| ==> ks[i] != ks[j]
    requires |gs| == |ks| && forall i :: 0 <= i < |ks| ==> gs[i].monthYear == ks[|ks| - 1 - i]
    ensures forall i, j :: 0 <= i < j < |gs| ==> gs[i].monthYear != gs[j].monthYear
  {
    var n := |ks|;
    forall i, j | 0 <= i < j < |gs| ensures gs[i].monthYear != gs[j].monthYear {
      assert 0 <= n - 1 - j < n - 1 - i < n;
      assert ks[n - 1 - j] != ks[n - 1 - i];
    }
  }

  /** Groups come newest month first: a group's month is strictly later than
      that of every group emitted after it, so no label is emitted twice. */
  lemma GroupsNewestFirst(xs: seq<Student>)
    ensures forall i, j :: 0 <= i < j < |MonthGroups(xs)| ==> NewerGroup(MonthGroups(xs)[i], MonthGroups(xs)[j])
    ensures forall i, j :: 0 <= i < j < |MonthGroups(xs)| ==> MonthGroups(xs)[i].monthYear != MonthGroups(xs)[j].monthYear
  {
    var ks, m := MonthGroupsFromFold(xs);
    var gs := MonthGroups(xs);
    ReversedKeysNewestFirst(ks, m, gs);
    ReversedKeysDistinct(ks, gs);
  }

  /** The groups partition the records with a valid date: together they hold
      each such record as often as the input does, and nothing else. */
  lemma GroupsPartition(xs: seq<Student>)
    ensures multiset(Flatten(MonthGroups(xs))) == multiset(DatedOnly(xs))
    ensures |Flatten(MonthGroups(xs))| == |DatedOnly(xs)|
  {
    var ks, m := MonthGroupsFromFold(xs);
    FlattenReversed(ks, m, MonthGroups(xs));
    assert |multiset(Flatten(MonthGroups(xs)))| == |multiset(DatedOnly(xs))|;
  }

  lemma InFlatten(gs: seq<Group>, r: Student)
    requires r in Flatten(gs)
    ensures exists i :: 0 <= i < |gs| && r in gs[i].members
  {
    if r !in Flatten(gs[..|gs| - 1]) {
      assert r in gs[|gs| - 1].members;
    } else {
      InFlatten(gs[..|gs| - 1], r);
      var i :| 0 <= i < |gs| - 1 && r in gs[..|gs| - 1][i].members;
      assert gs[..|gs| - 1][i] == gs[i];
    }
  }

  /** A record with a valid date lands in exactly one group, the one
      labelled with its own month; a record with an invalid date lands in none. */
  lemma ExactPlacement(xs: seq<Student>, r: Student)
    requires r in xs
    ensures Dated(r) ==> exists i :: 0 <= i < |MonthGroups(xs)| && r in MonthGroups(xs)[i].members
    ensures forall i :: 0 <= i < |MonthGroups(xs)| && r in MonthGroups(xs)[i].members ==>
      Dated(r) && MonthGroups(xs)[i].monthYear == LabelOf(r)
    ensures forall i, j ::
      (0 <= i < |MonthGroups(xs)| && 0 <= j < |MonthGroups(xs)|
       && r in MonthGroups(xs)[i].members && r in MonthGroups(xs)[j].members) ==> i == j
  {
    var gs := MonthGroups(xs);
    GroupsLabelled(xs);
    GroupsNewestFirst(xs);
    if Dated(r) {
      SplitByDate(xs);
      GroupsPartition(xs);
      assert r in multiset(xs);
      assert r in multiset(Flatten(gs));
      InFlatten(gs, r);
    }
  }
}
