/**
 * The ranked entity of the launcher: `Command`, a slice of pointers to it
 * (`Commands`) and the score order `ByScore` with the in-place sort that
 * `sort.Sort` and `sort.Sort(sort.Reverse(...))` perform over it.
 */
module Commands {
  import opened Text

  /** The value of a `Command` at one moment: what a history line records. */
  datatype Record = Record(name: string, calls: u64)

  /**
   * A launchable program and how often it was launched. Commands are shared
   * by pointer, so an increment made by one holder is seen by every other.
   */
  class Command {
    const name: string
    var calls: u64

    constructor (name: string, calls: u64)
      ensures this.name == name && this.calls == calls
    {
      this.name := name;
      this.calls := calls;
    }

    function View(): Record
      reads this
    {
      Record(name, calls)
    }
  }

  /** The current values of a sequence of commands. */
  function Snapshot(cs: seq<Command>): seq<Record>
    reads cs
  {
    seq(|cs|, i reads cs requires 0 <= i < |cs| => cs[i].View())
  }

  /** No command object occurs twice. */
  predicate Distinct(cs: seq<Command>) {
    forall i, j :: 0 <= i < j < |cs| ==> cs[i] != cs[j]
  }

  /** `ByScore.Less`: fewer calls come first. */
  predicate ByScoreLess(x: Command, y: Command)
    reads x, y
  {
    x.calls < y.calls
  }

  /** The `Less` the sort uses: `ByScore`'s, or with `sort.Reverse` its mirror. */
  predicate Less(x: Command, y: Command, reverse: bool)
    reads x, y
  {
    if reverse then ByScoreLess(y, x) else ByScoreLess(x, y)
  }

  /** What `sort.Sort` promises: no element is `Less` than one before it. */
  predicate SortedBy(s: seq<Command>, reverse: bool)
    reads s
  {
    forall i, j :: 0 <= i < j < |s| ==> !Less(s[j], s[i], reverse)
  }

  /** Rank order: calls never increase along the sequence. */
  predicate NonIncreasing(rs: seq<Record>) {
    forall i, j :: 0 <= i < j < |rs| ==> rs[i].calls >= rs[j].calls
  }

  /** `Commands.Swap`. */
  method Swap(a: array<Command>, i: nat, j: nat)
    requires i < a.Length && j < a.Length
    modifies a
    ensures a[i] == old(a[j]) && a[j] == old(a[i])
    ensures forall k :: 0 <= k < a.Length && k != i && k != j ==> a[k] == old(a[k])
    ensures multiset(a[..]) == multiset(old(a[..]))
  {
    a[i], a[j] := a[j], a[i];
  }

  /**
   * `sort.Sort(ByScore{s})` when `reverse` is false and
   * `sort.Sort(sort.Reverse(ByScore{s}))` when it is true: rearranges the
   * pointers in place, leaving the commands themselves untouched.
   * Go's sort is not stable; the contract fixes no order among equal scores.
   */
  method SortByScore(a: array<Command>, reverse: bool)
    modifies a
    ensures SortedBy(a[..], reverse)
    ensures multiset(a[..]) == multiset(old(a[..]))
  {
    var i := 0;
    while i < a.Length
      invariant 0 <= i <= a.Length
      invariant AdjacentSortedBy(a[..i], reverse)
      invariant multiset(a[..]) == multiset(old(a[..]))
    {
      InsertInto(a, i, reverse);
      i := i + 1;
    }
    assert a[..a.Length] == a[..];
    AdjacentSortedBySorted(a[..], reverse);
  }

  /** Neighbours in order: what an insertion step establishes directly. */
  predicate AdjacentSortedBy(s: seq<Command>, reverse: bool)
    reads s
  {
    forall k :: 0 < k < |s| ==> !Less(s[k], s[k - 1], reverse)
  }

  lemma {:induction false} AdjacentSortedBySorted(s: seq<Command>, reverse: bool)
    requires AdjacentSortedBy(s, reverse)
    ensures SortedBy(s, reverse)
    decreases |s|
  {
    if |s| > 1 {
      var t := s[..|s| - 1];
      assert AdjacentSortedBy(t, reverse) by {
        forall k | 0 < k < |t| ensures !Less(t[k], t[k - 1], reverse) {
          assert t[k] == s[k] && t[k - 1] == s[k - 1];
        }
      }
      AdjacentSortedBySorted(t, reverse);
      forall i, j | 0 <= i < j < |s| ensures !Less(s[j], s[i], reverse) {
        if j < |s| - 1 {
          assert s[i] == t[i] && s[j] == t[j];
        } else if i < |s| - 2 {
          assert !Less(t[|s| - 2], t[i], reverse);
        }
      }
    }
  }

  /** One insertion-sort step: swaps `a[i]` left into the sorted prefix `a[..i]`. */
  method InsertInto(a: array<Command>, i: nat, reverse: bool)
    requires i < a.Length && AdjacentSortedBy(a[..i], reverse)
    modifies a
    ensures AdjacentSortedBy(a[..i + 1], reverse)
    ensures multiset(a[..]) == multiset(old(a[..]))
    ensures forall k :: i < k < a.Length ==> a[k] == old(a[k])
  {
    var j := i;
    while j > 0 && Less(a[j], a[j - 1], reverse)
      invariant 0 <= j <= i
      invariant forall k :: 0 < k <= i && k != j ==> !Less(a[k], a[k - 1], reverse)
      invariant forall k :: i < k < a.Length ==> a[k] == old(a[k])
      invariant 0 < j < i ==> !Less(a[j + 1], a[j - 1], reverse)
      invariant multiset(a[..]) == multiset(old(a[..]))
    {
      Swap(a, j - 1, j);
      j := j - 1;
    }
  }

  lemma SnapshotAppend(xs: seq<Command>, ys: seq<Command>)
    ensures Snapshot(xs + ys) == Snapshot(xs) + Snapshot(ys)
  {
  }

  /** Commands whose fields agree with the records one by one have those records as their values. */
  lemma SnapshotFields(cs: seq<Command>, rs: seq<Record>)
    requires |cs| == |rs|
    requires forall k :: 0 <= k < |cs| ==> cs[k].name == rs[k].name && cs[k].calls == rs[k].calls
    ensures Snapshot(cs) == rs
  {
  }

  /** Rearranging command pointers rearranges their values the same way. */
  lemma {:induction false} SnapshotPermutation(xs: seq<Command>, ys: seq<Command>)
    requires multiset(xs) == multiset(ys)
    ensures multiset(Snapshot(xs)) == multiset(Snapshot(ys))
    decreases |xs|
  {
    if xs == [] {
      assert |ys| == |multiset(ys)| == 0;
    } else {
      var x := xs[0];
      assert x in multiset(ys);
      var k :| 0 <= k < |ys| && ys[k] == x;
      var rest := ys[..k] + ys[k + 1..];
      assert xs == [x] + xs[1..];
      assert multiset(xs[1..]) == multiset(xs) - multiset{x};
      SnapshotSplice(ys, k);
      SnapshotPermutation(xs[1..], rest);
      SnapshotAppend([x], xs[1..]);
      assert Snapshot([x]) == [x.View()];
      assert multiset(Snapshot(xs)) == multiset{x.View()} + multiset(Snapshot(xs[1..]));
    }
  }

  /** Taking one command out of a sequence takes its value out of the values. */
  lemma SnapshotSplice(ys: seq<Command>, k: nat)
    requires k < |ys|
    ensures multiset(ys[..k] + ys[k + 1..]) == multiset(ys) - multiset{ys[k]}
    ensures multiset(Snapshot(ys)) == multiset(Snapshot(ys[..k] + ys[k + 1..])) + multiset{ys[k].View()}
  {
    var x := ys[k];
    assert ys == ys[..k] + [x] + ys[k + 1..];
    assert Snapshot([x]) == [x.View()];
    SnapshotAppend(ys[..k] + [x], ys[k + 1..]);
    SnapshotAppend(ys[..k], [x]);
    SnapshotAppend(ys[..k], ys[k + 1..]);
  }

  /** A sequence in which no object has two occurrences is `Distinct`. */
  lemma DistinctFromMultiset(cs: seq<Command>)
    requires forall c :: multiset(cs)[c] <= 1
    ensures Distinct(cs)
  {
    forall i, j | 0 <= i < j < |cs| ensures cs[i] != cs[j] {
      var c := cs[i];
      assert cs == cs[..j] + cs[j..];
      assert c in multiset(cs[..j]) by { assert cs[..j][i] == c; }
      assert cs[j] in multiset(cs[j..]) by { assert cs[j..][0] == cs[j]; }
      assert multiset(cs)[c] == multiset(cs[..j])[c] + multiset(cs[j..])[c];
      assert multiset(cs)[c] <= 1;
    }
  }

  /**
   * `sort.Sort(ByScore{...})` over vim 2, nano 0 and emacs 1 can only give
   * nano, emacs, vim: ascending by calls.
   */
  lemma ByScoreSortExample(vim: Command, nano: Command, emacs: Command, sorted: seq<Command>)
    requires vim.calls == 2 && nano.calls == 0 && emacs.calls == 1
    requires multiset(sorted) == multiset([vim, nano, emacs])
    requires SortedBy(sorted, false)
    ensures sorted == [nano, emacs, vim]
  {
    assert |sorted| == 3 by { assert |multiset(sorted)| == |multiset([vim, nano, emacs])|; }
    assert vim in sorted && nano in sorted && emacs in sorted by {
      assert vim in multiset(sorted) && nano in multiset(sorted) && emacs in multiset(sorted);
    }
  }
}
