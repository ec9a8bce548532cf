/**
 * The history ledger: the records it holds, the states of the file that
 * stores them, and the newest-first ordering of the index page.
 */
module Ledger {
  import Text

  /** One history record, with the fields of the stored JSON object. */
  datatype Entry = Entry(
    id: string,
    timestamp: string,     // `datetime.isoformat(timespec='seconds')`
    user: string,
    message: string,
    snapshotPath: string,  // `snapshot_path`: the slot directory of `id`
    files: seq<string>)    // relative paths enumerated in the slot

  /**
   * The history file: absent, holding a saved list, or holding text that
   * `json.load` rejects (its parse errors are not modelled further).
   */
  datatype LedgerFile = Missing | Saved(entries: seq<Entry>) | Unparseable

  /** `x` may stand before `y` in a newest-first listing: its timestamp is not smaller. */
  predicate NotOlder(x: Entry, y: Entry)
  {
    !Text.StrLess(x.timestamp, y.timestamp)
  }

  /** Ordered by timestamp, newest first (Python string comparison of the timestamps). */
  predicate NewestFirst(s: seq<Entry>)
  {
    forall p, q :: 0 <= p < q < |s| ==> NotOlder(s[p], s[q])
  }

  /** The entries of `s` whose timestamp is `t`, in their order in `s`. */
  function WithTimestamp(s: seq<Entry>, t: string): seq<Entry>
  {
    if s == [] then [] else (if s[0].timestamp == t then [s[0]] else []) + WithTimestamp(s[1..], t)
  }

  lemma {:induction false} WithTimestampAppend(x: seq<Entry>, y: seq<Entry>, t: string)
    ensures WithTimestamp(x + y, t) == WithTimestamp(x, t) + WithTimestamp(y, t)
  {
    if x != [] {
      WithTimestampAppend(x[1..], y, t);
      assert (x + y)[1..] == x[1..] + y;
    } else {
      assert x + y == y;
    }
  }

  /** Swapping two neighbours with different timestamps reorders no tie. */
  lemma SwapKeepsTies(s: seq<Entry>, j: nat, t: string)
    requires 0 < j < |s| && s[j - 1].timestamp != s[j].timestamp
    ensures WithTimestamp(s[j - 1 := s[j]][j := s[j - 1]], t) == WithTimestamp(s, t)
  {
    var x, y := s[j - 1], s[j];
    var pre, post := s[..j - 1], s[j + 1..];
    assert s == pre + [x, y] + post;
    assert s[j - 1 := y][j := x] == pre + [y, x] + post;
    WithTimestampAppend(pre + [x, y], post, t);
    WithTimestampAppend(pre, [x, y], t);
    WithTimestampAppend(pre + [y, x], post, t);
    WithTimestampAppend(pre, [y, x], t);
    assert [x, y][1..] == [y] && [y, x][1..] == [x];
    assert [x][1..] == [] && [y][1..] == [];
  }

  /** Exchanges `a[j - 1]` and `a[j]`, which carry different timestamps. */
  method SwapDown(a: array<Entry>, j: int)
    requires 0 < j < a.Length && a[j - 1].timestamp != a[j].timestamp
    modifies a
    ensures a[j - 1] == old(a[j]) && a[j] == old(a[j - 1])
    ensures forall k :: 0 <= k < a.Length && k != j - 1 && k != j ==> a[k] == old(a[k])
    ensures multiset(a[..]) == old(multiset(a[..]))
    ensures forall t :: WithTimestamp(a[..], t) == WithTimestamp(old(a[..]), t)
  {
    ghost var before := a[..];
    a[j - 1], a[j] := a[j], a[j - 1];
    assert a[..] == before[j - 1 := before[j]][j := before[j - 1]];
    forall t
      ensures WithTimestamp(a[..], t) == WithTimestamp(before, t)
    {
      SwapKeepsTies(before, j, t);
    }
  }

  /**
   * `history.sort(key=lambda x: x['timestamp'], reverse=True)`: sorts the
   * loaded history in place, newest first, keeping the same records; the
   * sort is stable, so records with equal timestamps keep their order.
   */
  method SortNewestFirst(a: array<Entry>)
    modifies a
    ensures NewestFirst(a[..])
    ensures multiset(a[..]) == old(multiset(a[..]))
    ensures forall t :: WithTimestamp(a[..], t) == WithTimestamp(old(a[..]), t)
  {
    var i := 0;
    while i < a.Length
      invariant 0 <= i <= a.Length
      invariant forall p, q :: 0 <= p < q < i ==> NotOlder(a[p], a[q])
      invariant multiset(a[..]) == old(multiset(a[..]))
      invariant forall t :: WithTimestamp(a[..], t) == WithTimestamp(old(a[..]), t)
    {
      var j := i;
      while j > 0 && Text.StrLess(a[j - 1].timestamp, a[j].timestamp)
        invariant 0 <= j <= i
        invariant forall p, q :: 0 <= p < q <= i && p != j && q != j ==> NotOlder(a[p], a[q])
        invariant forall q :: j < q <= i ==> NotOlder(a[j], a[q])
        invariant multiset(a[..]) == old(multiset(a[..]))
        invariant forall t :: WithTimestamp(a[..], t) == WithTimestamp(old(a[..]), t)
      {
        Text.StrLessAsymmetric(a[j - 1].timestamp, a[j].timestamp);
        Text.StrLessIrreflexive(a[j].timestamp);
        SwapDown(a, j);
        j := j - 1;
      }
      forall p | 0 <= p < j
        ensures NotOlder(a[p], a[j])
      {
        if p < j - 1 {
          Text.NotLessTransitive(a[p].timestamp, a[j - 1].timestamp, a[j].timestamp);
        }
      }
      i := i + 1;
    }
  }
}
