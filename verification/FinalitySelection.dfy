/** Which finality a poll of untrusted endpoints accepts, and what the event
    stream makes of one poll after another. */
module FinalitySelection {
  import opened MachineIntegers
  import opened Wrappers

  datatype Anchor = Anchor(slot: U64, root: nat, executionNumber: U64, executionHash: nat)

  /** What a poll reports: the anchor it selected, whether it is accepted, and
      how many endpoints stand behind it. */
  datatype Report = Report(accepted: bool, selected: Option<Anchor>, agreeing: nat)

  /** The anchors of the endpoints that verified one, in endpoint order. */
  function Verified(endpoints: seq<Option<Anchor>>): seq<Anchor> {
    if endpoints == [] then []
    else (match endpoints[0] case None => [] case Some(a) => [a]) + Verified(endpoints[1..])
  }

  /** How many of `anchors` are at `slot` or beyond. */
  function CountFrom(anchors: seq<Anchor>, slot: nat): (n: nat)
    ensures n <= |anchors|
  {
    if anchors == [] then 0
    else (if anchors[|anchors| - 1].slot >= slot then 1 else 0) + CountFrom(anchors[..|anchors| - 1], slot)
  }

  /** Two verified anchors at one slot differ. */
  ghost predicate Conflicting(anchors: seq<Anchor>) {
    exists a, b :: a in anchors && b in anchors && a.slot == b.slot && a != b
  }

  /** The anchors at `slot`, in endpoint order. */
  function AtSlot(anchors: seq<Anchor>, slot: nat): (at: seq<Anchor>)
    ensures forall a :: a in at <==> a in anchors && a.slot == slot
  {
    if anchors == [] then []
    else
      var last := anchors[|anchors| - 1];
      assert anchors == anchors[..|anchors| - 1] + [last];
      AtSlot(anchors[..|anchors| - 1], slot) + (if last.slot == slot then [last] else [])
  }

  /** `a` is the first of `anchors` at its slot. */
  predicate FirstAtSlot(anchors: seq<Anchor>, a: Anchor) {
    AtSlot(anchors, a.slot) != [] && AtSlot(anchors, a.slot)[0] == a
  }

  /** The selection rule: the highest slot that `minimum` anchors are at or
      beyond, by its first anchor; nothing when no slot is. */
  ghost predicate Selects(anchors: seq<Anchor>, minimum: nat, selected: Option<Anchor>) {
    match selected
    case None => forall a | a in anchors :: CountFrom(anchors, a.slot) < minimum
    case Some(s) =>
      && FirstAtSlot(anchors, s) && CountFrom(anchors, s.slot) >= minimum
      && forall a | a in anchors && a.slot > s.slot :: CountFrom(anchors, a.slot) < minimum
  }

  method CountAgreeing(anchors: seq<Anchor>, slot: nat) returns (n: nat)
    ensures n == CountFrom(anchors, slot)
  {
    n := 0;
    for i := 0 to |anchors|
      invariant n == CountFrom(anchors[..i], slot)
    {
      assert anchors[..i + 1][..i] == anchors[..i];
      if anchors[i].slot >= slot {
        n := n + 1;
      }
    }
    assert anchors[..|anchors|] == anchors;
  }

  method GroupBySlot(anchors: seq<Anchor>) returns (sameSlot: map<U64, seq<Anchor>>)
    ensures forall s: U64 :: s in sameSlot <==> exists a :: a in anchors && a.slot == s
    ensures forall s | s in sameSlot :: sameSlot[s] == AtSlot(anchors, s)
  {
    sameSlot := map[];
    for i := 0 to |anchors|
      invariant forall s: U64 :: s in sameSlot <==> AtSlot(anchors[..i], s) != []
      invariant forall s | s in sameSlot :: sameSlot[s] == AtSlot(anchors[..i], s)
    {
      var a := anchors[i];
      assert anchors[..i + 1][..i] == anchors[..i];
      sameSlot := sameSlot[a.slot := (if a.slot in sameSlot then sameSlot[a.slot] else []) + [a]];
    }
    assert anchors[..|anchors|] == anchors;
    forall s: U64 ensures s in sameSlot <==> exists a :: a in anchors && a.slot == s {
      if s in sameSlot {
        assert AtSlot(anchors, s)[0] in AtSlot(anchors, s);
      }
    }
  }

  /** Adjacent anchors all agree exactly when all of them do. */
  method AdjacentDiffer(atSlot: seq<Anchor>) returns (differ: bool)
    ensures differ <==> exists a, b :: a in atSlot && b in atSlot && a != b
  {
    differ := false;
    if atSlot == [] {
      return;
    }
    for i := 1 to |atSlot|
      invariant !differ ==> forall j | 0 <= j < i :: atSlot[j] == atSlot[0]
      invariant differ ==> exists a, b :: a in atSlot && b in atSlot && a != b
    {
      if atSlot[i - 1] != atSlot[i] {
        assert atSlot[i - 1] in atSlot && atSlot[i] in atSlot;
        differ := true;
      }
    }
  }

  method AnyConflict(anchors: seq<Anchor>, sameSlot: map<U64, seq<Anchor>>) returns (conflict: bool)
    requires forall s: U64 :: s in sameSlot <==> exists a :: a in anchors && a.slot == s
    requires forall s | s in sameSlot :: sameSlot[s] == AtSlot(anchors, s)
    ensures conflict <==> Conflicting(anchors)
  {
    conflict := false;
    var left := sameSlot.Keys;
    while left != {}
      invariant left <= sameSlot.Keys
      invariant conflict ==> Conflicting(anchors)
      invariant !conflict ==> forall a, b | a in anchors && b in anchors && a.slot == b.slot && a.slot !in left :: a == b
      decreases left
    {
      var slot :| slot in left;
      var differ := AdjacentDiffer(sameSlot[slot]);
      if differ {
        conflict := true;
      } else {
        forall a, b | a in anchors && b in anchors && a.slot == b.slot == slot ensures a == b {
          assert a in sameSlot[slot] && b in sameSlot[slot];
        }
      }
      left := left - {slot};
    }
  }

  lemma SlotIsSelected(anchors: seq<Anchor>, minimum: nat, sameSlot: map<U64, seq<Anchor>>, slot: U64, left: set<U64>)
    requires forall s: U64 :: s in sameSlot <==> exists a :: a in anchors && a.slot == s
    requires slot in sameSlot && sameSlot[slot] == AtSlot(anchors, slot)
    requires forall s | s in sameSlot.Keys && s !in left :: CountFrom(anchors, s) < minimum
    requires forall s | s in left :: s <= slot
    requires CountFrom(anchors, slot) >= minimum
    ensures sameSlot[slot] != [] && sameSlot[slot][0].slot == slot
    ensures Selects(anchors, minimum, Some(sameSlot[slot][0]))
  {
    var a :| a in anchors && a.slot == slot;
    assert a in sameSlot[slot];
    var first := sameSlot[slot][0];
    assert first in sameSlot[slot];
    forall a | a in anchors && a.slot > slot ensures CountFrom(anchors, a.slot) < minimum {
      assert a.slot in sameSlot.Keys;
    }
  }

  method HighestAgreed(anchors: seq<Anchor>, minimum: nat, sameSlot: map<U64, seq<Anchor>>)
    returns (selected: Option<Anchor>, agreeing: nat)
    requires forall s: U64 :: s in sameSlot <==> exists a :: a in anchors && a.slot == s
    requires forall s | s in sameSlot :: sameSlot[s] == AtSlot(anchors, s)
    ensures Selects(anchors, minimum, selected)
    ensures agreeing == match selected case None => 0 case Some(s) => CountFrom(anchors, s.slot)
  {
    var left := sameSlot.Keys;
    while left != {}
      invariant left <= sameSlot.Keys
      invariant forall s | s in sameSlot.Keys && s !in left :: CountFrom(anchors, s) < minimum
      decreases left
    {
      var slot := Greatest(left);
      var count := CountAgreeing(anchors, slot);
      if count >= minimum {
        SlotIsSelected(anchors, minimum, sameSlot, slot, left);
        return Some(sameSlot[slot][0]), count;
      }
      left := left - {slot};
    }
    forall a | a in anchors ensures CountFrom(anchors, a.slot) < minimum {
      assert a.slot in sameSlot.Keys;
    }
    return None, 0;
  }

  method SelectEndpointAgreement(minimum: nat, endpoints: seq<Option<Anchor>>) returns (report: Report)
    ensures Selects(Verified(endpoints), minimum, report.selected)
    ensures report.accepted <==> report.selected.Some? && !Conflicting(Verified(endpoints))
    ensures report.agreeing == match report.selected case None => 0 case Some(s) => CountFrom(Verified(endpoints), s.slot)
  {
    var anchors := Verified(endpoints);
    var sameSlot := GroupBySlot(anchors);
    var conflict := AnyConflict(anchors, sameSlot);
    var selected, agreeing := HighestAgreed(anchors, minimum, sameSlot);
    report := Report(selected.Some? && !conflict, selected, agreeing);
  }

  method Greatest(slots: set<U64>) returns (g: U64)
    requires slots != {}
    ensures g in slots && forall s :: s in slots ==> s <= g
  {
    g :| g in slots;
    var left := slots - {g};
    while left != {}
      invariant left <= slots && g in slots
      invariant forall s | s in slots && s !in left :: s <= g
      decreases left
    {
      var s :| s in left;
      if s > g {
        g := s;
      }
      left := left - {s};
    }
  }

  // -------------------------------------------------- what the rule promises

  lemma {:induction false} CountMonotone(anchors: seq<Anchor>, low: nat, high: nat)
    requires low <= high
    ensures CountFrom(anchors, high) <= CountFrom(anchors, low)
  {
    if anchors != [] {
      CountMonotone(anchors[..|anchors| - 1], low, high);
    }
  }

  lemma {:induction false} CountSplits(a: seq<Anchor>, b: seq<Anchor>, slot: nat)
    ensures CountFrom(a + b, slot) == CountFrom(a, slot) + CountFrom(b, slot)
  {
    if b == [] {
      assert a + b == a;
    } else {
      assert (a + b)[..|a + b| - 1] == a + b[..|b| - 1];
      CountSplits(a, b[..|b| - 1], slot);
    }
  }

  lemma CountWithout(b: seq<Anchor>, j: nat, slot: nat)
    requires j < |b|
    ensures CountFrom(b, slot) == CountFrom(b[..j] + b[j + 1..], slot) + (if b[j].slot >= slot then 1 else 0)
  {
    assert b == b[..j] + ([b[j]] + b[j + 1..]);
    CountSplits(b[..j], [b[j]] + b[j + 1..], slot);
    CountSplits([b[j]], b[j + 1..], slot);
    CountSplits(b[..j], b[j + 1..], slot);
    assert [b[j]][..0] == [];
  }

  lemma MultisetWithout(b: seq<Anchor>, j: nat)
    requires j < |b|
    ensures multiset(b) == multiset(b[..j] + b[j + 1..]) + multiset{b[j]}
  {
    assert b == b[..j] + [b[j]] + b[j + 1..];
  }

  lemma InclusionWithout(a: multiset<Anchor>, b: multiset<Anchor>, x: Anchor)
    requires a + multiset{x} <= b + multiset{x}
    ensures a <= b
  {
    forall y ensures a[y] <= b[y] {
      assert (a + multiset{x})[y] <= (b + multiset{x})[y];
    }
  }

  lemma {:induction false} CountIncluded(a: seq<Anchor>, b: seq<Anchor>, slot: nat)
    requires multiset(a) <= multiset(b)
    ensures CountFrom(a, slot) <= CountFrom(b, slot)
    decreases |a|
  {
    if a != [] {
      var n := |a| - 1;
      assert a[..n] + a[n + 1..] == a[..n];
      MultisetWithout(a, n);
      assert a[n] in multiset(b);
      var j :| 0 <= j < |b| && b[j] == a[n];
      MultisetWithout(b, j);
      CountWithout(b, j, slot);
      InclusionWithout(multiset(a[..n]), multiset(b[..j] + b[j + 1..]), a[n]);
      CountIncluded(a[..n], b[..j] + b[j + 1..], slot);
    }
  }

  lemma {:induction false} HasAnchorFrom(anchors: seq<Anchor>, slot: nat) returns (a: Anchor)
    requires CountFrom(anchors, slot) > 0
    ensures a in anchors && a.slot >= slot
    ensures CountFrom(anchors, a.slot) == CountFrom(anchors, slot)
    decreases |anchors|
  {
    // The lowest of the anchors at or beyond `slot`.
    var last, rest := anchors[|anchors| - 1], anchors[..|anchors| - 1];
    assert anchors == rest + [last];
    if last.slot >= slot {
      if CountFrom(rest, slot) == 0 {
        a := last;
        CountMonotone(rest, slot, a.slot);
      } else {
        a := HasAnchorFrom(rest, slot);
        if last.slot < a.slot {
          CountMonotone(rest, slot, last.slot);
          CountMonotone(rest, last.slot, a.slot);
          a := last;
        }
      }
    } else {
      a := HasAnchorFrom(rest, slot);
    }
  }

  /** The selected slot is the order statistic: at least `minimum` anchors are at
      or beyond it, and fewer are beyond it. */
  lemma SelectedIsKthLargest(anchors: seq<Anchor>, minimum: nat, s: Anchor)
    requires minimum >= 1 && Selects(anchors, minimum, Some(s))
    ensures CountFrom(anchors, s.slot + 1) < minimum <= CountFrom(anchors, s.slot)
  {
    if CountFrom(anchors, s.slot + 1) >= minimum {
      var a := HasAnchorFrom(anchors, s.slot + 1);
    }
  }

  /** Written with a sorted list: the selected slot is its `minimum`-th entry. */
  lemma SelectedInSortedOrder(anchors: seq<Anchor>, minimum: nat, s: Anchor, sorted: seq<Anchor>)
    requires minimum >= 1 && Selects(anchors, minimum, Some(s))
    requires multiset(sorted) == multiset(anchors)
    requires forall i, j | 0 <= i < j < |sorted| :: sorted[i].slot >= sorted[j].slot
    ensures minimum <= |sorted| && sorted[minimum - 1].slot == s.slot
  {
    SelectedIsKthLargest(anchors, minimum, s);
    CountIncluded(sorted, anchors, s.slot);
    CountIncluded(anchors, sorted, s.slot);
    CountIncluded(sorted, anchors, s.slot + 1);
    CountIncluded(anchors, sorted, s.slot + 1);
    SortedCount(sorted, s.slot);
    SortedCount(sorted, s.slot + 1);
  }

  /** In a descending list the anchors at or beyond a slot come first. */
  lemma {:induction false} SortedCount(sorted: seq<Anchor>, slot: nat)
    requires forall i, j | 0 <= i < j < |sorted| :: sorted[i].slot >= sorted[j].slot
    ensures forall i | 0 <= i < |sorted| :: sorted[i].slot >= slot <==> i < CountFrom(sorted, slot)
  {
    if sorted != [] {
      var n := |sorted| - 1;
      SortedCount(sorted[..n], slot);
      if sorted[n].slot >= slot {
        assert forall i | 0 <= i < n :: sorted[..n][i].slot >= slot;
        assert CountFrom(sorted[..n], slot) == n;
      }
    }
  }

  /** Something is selected exactly when enough endpoints verified, and the poll
      is accepted exactly when moreover no slot has two different anchors. */
  lemma SelectsIff(anchors: seq<Anchor>, minimum: nat, selected: Option<Anchor>)
    requires minimum >= 1 && Selects(anchors, minimum, selected)
    ensures selected.Some? <==> |anchors| >= minimum
  {
    CountAll(anchors);
    if selected.Some? {
      CountMonotone(anchors, 0, selected.value.slot);
    } else if |anchors| >= minimum {
      var a := HasAnchorFrom(anchors, 0);
    }
  }

  lemma {:induction false} CountAll(anchors: seq<Anchor>)
    ensures CountFrom(anchors, 0) == |anchors|
  {
    if anchors != [] {
      CountAll(anchors[..|anchors| - 1]);
    }
  }

  lemma SelectedSlotMonotone(a: seq<Anchor>, b: seq<Anchor>, minimum: nat, p: Anchor, q: Anchor)
    requires minimum >= 1 && multiset(a) <= multiset(b)
    requires Selects(a, minimum, Some(p)) && Selects(b, minimum, Some(q))
    ensures p.slot <= q.slot
  {
    SelectedIsKthLargest(b, minimum, q);
    if p.slot > q.slot {
      CountIncluded(a, b, p.slot);
      CountMonotone(b, q.slot + 1, p.slot);
    }
  }

  /** More verified endpoints never lower the selected slot. */
  lemma MoreEndpointsNeverLower(a: seq<Anchor>, b: seq<Anchor>, minimum: nat, selected: Option<Anchor>, selected': Option<Anchor>)
    requires minimum >= 1 && multiset(a) <= multiset(b)
    requires Selects(a, minimum, selected) && Selects(b, minimum, selected')
    ensures selected.Some? ==> selected'.Some? && selected.value.slot <= selected'.value.slot
  {
    SelectsIff(a, minimum, selected);
    SelectsIff(b, minimum, selected');
    CountAll(a);
    CountAll(b);
    CountIncluded(a, b, 0);
    if selected.Some? {
      SelectedSlotMonotone(a, b, minimum, selected.value, selected'.value);
    }
  }

  /** What is accepted does not depend on the order endpoints answer in. */
  lemma AcceptedIsOrderIndependent(a: seq<Anchor>, b: seq<Anchor>, minimum: nat,
                                   selected: Option<Anchor>, selected': Option<Anchor>)
    requires minimum >= 1 && multiset(a) == multiset(b)
    requires Selects(a, minimum, selected) && Selects(b, minimum, selected')
    ensures selected.Some? <==> selected'.Some?
    ensures Conflicting(a) <==> Conflicting(b)
    ensures selected.Some? && !Conflicting(a) ==> selected == selected'
  {
    MoreEndpointsNeverLower(a, b, minimum, selected, selected');
    MoreEndpointsNeverLower(b, a, minimum, selected', selected);
    assert forall x :: x in a <==> x in multiset(a);
    assert forall x :: x in b <==> x in multiset(b);
  }

  // ------------------------------------------------------------ attested heads

  datatype Head = Head(slot: U64, number: U64, hash: nat)

  /** The last of the newest heads. */
  function NewestHead(heads: seq<Head>): (h: Head)
    requires heads != []
    ensures h in heads && forall x | x in heads :: x.slot <= h.slot
  {
    if |heads| == 1 then heads[0]
    else
      var rest := NewestHead(heads[1..]);
      assert heads == [heads[0]] + heads[1..];
      if heads[0].slot > rest.slot then heads[0] else rest
  }

  function SelectAttestedHead(heads: seq<Head>): Option<Head> {
    if heads == [] then None
    else
      var newest := NewestHead(heads);
      if exists x | x in heads :: x.slot == newest.slot && x != newest then None else Some(newest)
  }

  /** A head is followed exactly when some endpoint verified it and every other
      verified head is older or the same. */
  lemma HeadIsNewestAndUncontested(heads: seq<Head>, h: Head)
    ensures SelectAttestedHead(heads) == Some(h) <==>
            h in heads && forall x | x in heads :: x == h || x.slot < h.slot
  {
    if h in heads && (forall x | x in heads :: x == h || x.slot < h.slot) {
      assert NewestHead(heads) == h;
    }
  }
}
