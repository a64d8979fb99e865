/** Entries with a barycenter are sorted by it; the others are put back near the places they came from. */
module EntrySort {
  import opened Graphs
  import opened ConflictResolution

  predicate Sortable(e: Entry) {
    e.score.Some?
  }

  /** The comparison with its bias for equal barycenters; what is not a number compares as equal. */
  predicate Before(a: Entry, b: Entry, biasRight: bool)
    requires Sortable(a) && Sortable(b)
  {
    var x, y := a.score.value.barycenter, b.score.value.barycenter;
    if x.Num? && y.Num? && x.r != y.r then x.r < y.r
    else if biasRight then b.i < a.i else a.i < b.i
  }

  predicate AllSortable(s: seq<Entry>) {
    forall k :: 0 <= k < |s| ==> Sortable(s[k])
  }

  ghost predicate AllNumbers(s: seq<Entry>) {
    forall k :: 0 <= k < |s| ==> Sortable(s[k]) && s[k].score.value.barycenter.Num?
  }

  ghost predicate Sorted(s: seq<Entry>, biasRight: bool)
    requires AllSortable(s)
  {
    forall j, k :: 0 <= j < k < |s| ==> !Before(s[k], s[j], biasRight)
  }

  function Insert(e: Entry, s: seq<Entry>, biasRight: bool): (r: seq<Entry>)
    requires Sortable(e) && AllSortable(s)
    ensures AllSortable(r)
  {
    if s == [] || Before(e, s[0], biasRight) then [e] + s else [s[0]] + Insert(e, s[1..], biasRight)
  }

  lemma {:induction false} InsertMembers(e: Entry, s: seq<Entry>, biasRight: bool)
    requires Sortable(e) && AllSortable(s)
    ensures multiset(Insert(e, s, biasRight)) == multiset(s) + multiset{e}
  {
    if s != [] && !Before(e, s[0], biasRight) {
      InsertMembers(e, s[1..], biasRight);
      assert s == [s[0]] + s[1..];
    }
  }

  lemma {:induction false} InsertSorts(e: Entry, s: seq<Entry>, biasRight: bool)
    requires Sortable(e) && AllSortable(s) && Sorted(s, biasRight) && AllNumbers(s) && AllNumbers([e])
    ensures Sorted(Insert(e, s, biasRight), biasRight) && AllNumbers(Insert(e, s, biasRight))
  {
    assert [e][0] == e;
    if s != [] && !Before(e, s[0], biasRight) {
      InsertSorts(e, s[1..], biasRight);
      InsertMembers(e, s[1..], biasRight);
      var t := Insert(e, s[1..], biasRight);
      forall k | 0 <= k < |t| ensures !Before(t[k], s[0], biasRight) {
        assert t[k] in multiset(t);
      }
    }
  }

  /** Any order when some barycenter is not a number, sorted otherwise. */
  method SortEntries(s: seq<Entry>, biasRight: bool) returns (r: seq<Entry>)
    requires AllSortable(s)
    ensures AllSortable(r) && multiset(r) == multiset(s)
    ensures AllNumbers(s) ==> Sorted(r, biasRight)
  {
    r := [];
    for i := 0 to |s|
      invariant AllSortable(r) && multiset(r) == multiset(s[..i])
      invariant AllNumbers(s) ==> AllNumbers(r) && Sorted(r, biasRight)
    {
      assert s[..i + 1] == s[..i] + [s[i]];
      InsertMembers(s[i], r, biasRight);
      if AllNumbers(s) { InsertSorts(s[i], r, biasRight); }
      r := Insert(s[i], r, biasRight);
    }
    assert s[..|s|] == s;
  }

  // ----- those without a barycenter -----

  /** Greatest place first; equal places in the order given. */
  function InsertByPlace(e: Entry, s: seq<Entry>): seq<Entry> {
    if s == [] || e.i > s[0].i then [e] + s else [s[0]] + InsertByPlace(e, s[1..])
  }

  ghost predicate Descending(s: seq<Entry>) {
    forall j, k :: 0 <= j < k < |s| ==> s[j].i >= s[k].i
  }

  lemma {:induction false} InsertByPlaceMembers(e: Entry, s: seq<Entry>)
    ensures multiset(InsertByPlace(e, s)) == multiset(s) + multiset{e}
  {
    if s != [] && e.i <= s[0].i {
      InsertByPlaceMembers(e, s[1..]);
      assert s == [s[0]] + s[1..];
    }
  }

  lemma {:induction false} InsertByPlaceDescends(e: Entry, s: seq<Entry>)
    requires Descending(s)
    ensures Descending(InsertByPlace(e, s))
      && forall k :: 0 <= k < |InsertByPlace(e, s)| ==>
        InsertByPlace(e, s)[k].i <= if s == [] || e.i > s[0].i then e.i else s[0].i
  {
    if s != [] && e.i <= s[0].i {
      InsertByPlaceDescends(e, s[1..]);
    }
  }

  method Partition(entries: seq<Entry>) returns (sortable: seq<Entry>, unsortable: seq<Entry>)
    ensures AllSortable(sortable) && (forall k :: 0 <= k < |unsortable| ==> !Sortable(unsortable[k]))
      && Descending(unsortable)
    ensures multiset(entries) == multiset(sortable) + multiset(unsortable)
  {
    sortable, unsortable := [], [];
    for i := 0 to |entries|
      invariant AllSortable(sortable) && (forall k :: 0 <= k < |unsortable| ==> !Sortable(unsortable[k]))
        && Descending(unsortable)
      invariant multiset(entries[..i]) == multiset(sortable) + multiset(unsortable)
    {
      assert entries[..i + 1] == entries[..i] + [entries[i]];
      if Sortable(entries[i]) {
        sortable := sortable + [entries[i]];
      } else {
        ghost var before := unsortable;
        InsertByPlaceMembers(entries[i], unsortable);
        InsertByPlaceDescends(entries[i], unsortable);
        unsortable := InsertByPlace(entries[i], unsortable);
        forall k | 0 <= k < |unsortable| ensures !Sortable(unsortable[k]) {
          assert unsortable[k] in multiset(unsortable);
        }
      }
    }
    assert entries[..|entries|] == entries;
  }

  /** Each entry's place is at most the number of sorted nodes and of entries with smaller places together;
      the entries are listed with the greatest place first. */
  ghost predicate FitIn(unsortable: seq<Entry>, sorted: nat) {
    forall k :: 0 <= k < |unsortable| ==> unsortable[k].i <= sorted + |unsortable| - 1 - k
  }

  /** out is what has been put out so far; the last c of the entries U have been consumed, and index is
      the number of nodes counted. */
  ghost predicate Consuming(U: seq<Entry>, rest: seq<Entry>, sorted: seq<Entry>, out: seq<Entry>, index: int,
                            total: nat) {
    && rest <= U && index == |AllVs(sorted)| + |U| - |rest| && |AllVs(sorted)| <= total
    && multiset(out) + multiset(rest) == multiset(sorted) + multiset(U)
    && (forall k :: |rest| <= k < |U| ==> U[k].i <= total + |U| - 1 - k)
  }

  lemma AllVsOneMore(s: seq<Entry>, e: Entry)
    ensures AllVs(s + [e]) == AllVs(s) + e.vs
  {
    assert (s + [e])[..|s|] == s;
  }

  lemma ConsumeOne(U: seq<Entry>, rest: seq<Entry>, sorted: seq<Entry>, out: seq<Entry>, index: int, total: nat,
                   last: Entry, rest': seq<Entry>, out': seq<Entry>, index': int)
    requires Consuming(U, rest, sorted, out, index, total) && rest != [] && last == rest[|rest| - 1]
      && rest' == rest[..|rest| - 1]
    requires last.i <= index && out' == out + [last] && index' == index + 1
    ensures Consuming(U, rest', sorted, out', index', total) && last in U
  {
    assert rest == rest' + [last] && last == U[|rest| - 1];
  }

  lemma PutOne(U: seq<Entry>, rest: seq<Entry>, S: seq<Entry>, k: nat, before: seq<Entry>, out: seq<Entry>, index: int,
               total: nat, now: seq<Entry>, out': seq<Entry>, index': int)
    requires k < |S| && before == S[..k] && now == S[..k + 1] && total == |AllVs(S)|
    requires Consuming(U, rest, before, out, index, total) && out' == out + [S[k]] && index' == index + |S[k].vs|
    ensures Consuming(U, rest, now, out', index', total)
    ensures AllVs(out') == AllVs(out) + S[k].vs && (Sortable(S[k]) && Chosen(out) == before ==> Chosen(out') == now)
  {
    AllVsOneMore(out, S[k]);
    ChosenOneMore(out, S[k]);
    assert now == before + [S[k]];
    AllVsOneMore(before, S[k]);
    PrefixIsShorter(S, k + 1);
    AddToBoth(multiset(out), multiset(rest), multiset(before), multiset(U), multiset{S[k]});
  }

  lemma AddToBoth(a: multiset<Entry>, b: multiset<Entry>, c: multiset<Entry>, d: multiset<Entry>, x: multiset<Entry>)
    requires a + b == c + d
    ensures a + x + b == c + x + d
  {
    assert a + x + b == a + b + x;
    assert c + x + d == c + d + x;
  }

  method ConsumeUnsortable(vs: seq<Node>, unsortable: seq<Entry>, start: int, ghost U: seq<Entry>,
                           ghost sorted: seq<Entry>, ghost out: seq<Entry>, ghost total: nat)
    returns (vs': seq<Node>, rest: seq<Entry>, index: int, ghost out': seq<Entry>)
    requires vs == AllVs(out) && Consuming(U, unsortable, sorted, out, start, total)
    ensures vs' == AllVs(out') && Consuming(U, rest, sorted, out', index, total)
    ensures rest == [] || rest[|rest| - 1].i > index
    ensures (forall e :: e in U ==> !Sortable(e)) ==> Chosen(out') == Chosen(out)
  {
    vs', rest, index, out' := vs, unsortable, start, out;
    while rest != [] && rest[|rest| - 1].i <= index
      invariant vs' == AllVs(out') && Consuming(U, rest, sorted, out', index, total)
      invariant (forall e :: e in U ==> !Sortable(e)) ==> Chosen(out') == Chosen(out)
      decreases |rest|
    {
      var last := rest[|rest| - 1];
      AllVsOneMore(out', last);
      ChosenOneMore(out', last);
      ghost var before, out0 := rest, out';
      rest := rest[..|rest| - 1];
      vs' := vs' + last.vs;
      out' := out' + [last];
      ConsumeOne(U, before, sorted, out0, index, total, last, rest, out', index + 1);
      index := index + 1;
    }
  }

  /** The sortable ones, in order. */
  ghost function Chosen(s: seq<Entry>): seq<Entry> {
    if s == [] then [] else Chosen(s[..|s| - 1]) + if Sortable(s[|s| - 1]) then [s[|s| - 1]] else []
  }

  lemma ChosenOneMore(s: seq<Entry>, e: Entry)
    ensures Chosen(s + [e]) == Chosen(s) + if Sortable(e) then [e] else []
  {
    assert (s + [e])[..|s|] == s;
  }

  /** Puts the sorted entries out one by one, and before and after each what fits there of the others. */
  method Interleave(sorted: seq<Entry>, U: seq<Entry>)
    returns (vs: seq<Node>, ghost out: seq<Entry>, ghost lost: seq<Entry>)
    requires AllSortable(sorted) && forall e :: e in U ==> !Sortable(e)
    ensures vs == AllVs(out) && multiset(out) + multiset(lost) == multiset(sorted) + multiset(U)
    ensures Chosen(out) == sorted && (lost == [] <==> FitIn(U, |AllVs(sorted)|))
  {
    ghost var total := |AllVs(sorted)|;
    vs, out := [], [];
    var index, unsortable := 0, U;
    vs, unsortable, index, out := ConsumeUnsortable(vs, unsortable, index, U, sorted[..0], out, total);
    for k := 0 to |sorted|
      invariant vs == AllVs(out) && Consuming(U, unsortable, sorted[..k], out, index, total)
      invariant Chosen(out) == sorted[..k] && (unsortable == [] || unsortable[|unsortable| - 1].i > index)
    {
      var entry := sorted[k];
      ghost var out0, index0, before, now := out, index, sorted[..k], sorted[..k + 1];
      index := index + |entry.vs|;
      vs := vs + entry.vs;
      out := out + [entry];
      PutOne(U, unsortable, sorted, k, before, out0, index0, total, now, out, index);
      vs, unsortable, index, out := ConsumeUnsortable(vs, unsortable, index, U, now, out, total);
    }
    assert sorted[..|sorted|] == sorted;
    lost := unsortable;
    if lost != [] { assert U[|lost| - 1] == lost[|lost| - 1]; }
  }

  /** The nodes of all entries, in the new order; out tells how the entries were put out, lost which were not. */
  method Sort(entries: seq<Entry>, biasRight: bool)
    returns (vs: seq<Node>, ghost out: seq<Entry>, ghost lost: seq<Entry>, ghost U: seq<Entry>, ghost S: seq<Entry>)
    ensures vs == AllVs(out) && multiset(out) + multiset(lost) == multiset(entries)
    ensures multiset(entries) == multiset(S) + multiset(U) && AllSortable(S) && Descending(U)
      && forall e :: e in U ==> !Sortable(e)
    ensures Chosen(out) == S && (AllNumbers(S) ==> Sorted(S, biasRight))
    ensures lost == [] <==> FitIn(U, |AllVs(S)|)
  {
    var sortable, unsortable := Partition(entries);
    var sorted := SortEntries(sortable, biasRight);
    S, U := sorted, unsortable;
    if AllNumbers(S) { SameMembersAreNumbers(sorted, sortable); }
    vs, out, lost := Interleave(sorted, unsortable);
  }

  lemma SameMembersAreNumbers(s: seq<Entry>, t: seq<Entry>)
    requires AllNumbers(s) && multiset(s) == multiset(t)
    ensures AllNumbers(t)
  {
    forall k | 0 <= k < |t| ensures t[k] in s { assert t[k] in multiset(t); }
  }

  lemma {:induction false} PrefixIsShorter(s: seq<Entry>, k: nat)
    requires k <= |s|
    ensures |AllVs(s[..k])| <= |AllVs(s)|
    decreases |s| - k
  {
    if k < |s| {
      assert s[..k + 1] == s[..k] + [s[k]];
      AllVsOneMore(s[..k], s[k]);
      PrefixIsShorter(s, k + 1);
    } else {
      assert s[..k] == s;
    }
  }

  /** Different places below the number of nodes leave room for all. */
  lemma DifferentPlacesFit(U: seq<Entry>, sorted: nat)
    requires Descending(U) && (forall j, k :: 0 <= j < k < |U| ==> U[j].i != U[k].i)
    requires forall k :: 0 <= k < |U| ==> U[k].i < sorted + |U|
    ensures FitIn(U, sorted)
  {
    forall k | 0 <= k < |U| ensures U[k].i <= sorted + |U| - 1 - k {
      Falls(U, k);
    }
  }

  lemma {:induction false} Falls(U: seq<Entry>, k: nat)
    requires Descending(U) && (forall j, m :: 0 <= j < m < |U| ==> U[j].i != U[m].i) && k < |U|
    ensures U[0].i >= U[k].i + k
    decreases k
  {
    if k > 0 { Falls(U, k - 1); }
  }

  /** A single entry from too far right is dropped. */
  lemma FarEntryIsLost(e: Entry)
    requires e.score.None? && e.i > 0
    ensures !FitIn([e], 0)
  {
    assert [e][0] == e;
  }
}
