// The placement half of `optimize_frees`, shared by the two ABF instruction sets:
// the last-use map is listed in ascending address order (a `BTreeMap` walk),
// stably sorted by descending position, and each `Free` is inserted just after
// its position. Inserting from the back never shifts a later target, so the
// result is the program with each instruction followed by the frees whose last
// use it is, the highest address first.

module FreePlacement {
  import opened Bytes

  /** An address and the index of its last use at this level. */
  type Entry = (U16, nat)

  /** The entries of `m` whose address is at least `lo`, in ascending address order. */
  function EntriesFrom(m: map<U16, nat>, lo: nat): (r: seq<Entry>)
    ensures forall i :: 0 <= i < |r| ==> r[i].0 in m && r[i].1 == m[r[i].0] && r[i].0 >= lo
    ensures forall a :: a in m && a >= lo ==> (a, m[a]) in r
    ensures forall i, j :: 0 <= i < j < |r| ==> r[i].0 < r[j].0
    decreases 0x1_0000 - lo
  {
    if lo >= 0x1_0000 then []
    else
      var a := lo as U16;
      (if a in m then [(a, m[a])] else []) + EntriesFrom(m, lo + 1)
  }

  /** `last_address_mention.into_iter().collect()`: the entries in ascending address order. */
  function Entries(m: map<U16, nat>): seq<Entry>
  {
    EntriesFrom(m, 0)
  }

  /** The listing holds exactly the entries of `m`, in strictly ascending address order. */
  lemma EntriesSpec(m: map<U16, nat>)
    ensures forall x :: x in Entries(m) <==> x.0 in m && x.1 == m[x.0]
    ensures forall i, j :: 0 <= i < j < |Entries(m)| ==> Entries(m)[i].0 < Entries(m)[j].0
  {
    var r := Entries(m);
    forall x: Entry | x in r ensures x.0 in m && x.1 == m[x.0] {
      var i :| 0 <= i < |r| && r[i] == x;
    }
  }

  /** Descending by position; equal positions in ascending address order. */
  predicate LexSorted(s: seq<Entry>)
  {
    forall i, j :: 0 <= i < j < |s| ==> s[i].1 > s[j].1 || (s[i].1 == s[j].1 && s[i].0 < s[j].0)
  }

  predicate SortedDesc(s: seq<Entry>)
  {
    forall i, j :: 0 <= i < j < |s| ==> s[i].1 >= s[j].1
  }

  /** Inserts `e` after every entry whose position is at least its own (the stable step). */
  function InsertDesc(s: seq<Entry>, e: Entry): (r: seq<Entry>)
    ensures multiset(r) == multiset(s) + multiset{e}
  {
    if s == [] then [e]
    else if s[0].1 < e.1 then [e] + s
    else
      assert s == [s[0]] + s[1..];
      [s[0]] + InsertDesc(s[1..], e)
  }

  /** `sort_by(|a, b| b.1.cmp(&a.1))`, a stable sort, as insertion sort. */
  function SortDesc(s: seq<Entry>): (r: seq<Entry>)
    ensures multiset(r) == multiset(s)
  {
    if s == [] then []
    else
      assert s == s[..|s| - 1] + [s[|s| - 1]];
      InsertDesc(SortDesc(s[..|s| - 1]), s[|s| - 1])
  }

  lemma {:induction false} InsertDescLex(s: seq<Entry>, e: Entry)
    requires LexSorted(s)
    requires forall i :: 0 <= i < |s| ==> s[i].0 < e.0
    ensures LexSorted(InsertDesc(s, e))
  {
    if s != [] && s[0].1 >= e.1 {
      InsertDescLex(s[1..], e);
      var tail := InsertDesc(s[1..], e);
      var r := [s[0]] + tail;
      forall j | 0 < j < |r|
        ensures r[0].1 > r[j].1 || (r[0].1 == r[j].1 && r[0].0 < r[j].0)
      {
        assert r[j] == tail[j - 1];
        assert r[j] in multiset(tail);
        assert r[j] in multiset(s[1..]) + multiset{e};
        if r[j] != e {
          var k :| 0 <= k < |s[1..]| && s[1..][k] == r[j];
          assert s[k + 1] == r[j];
        }
      }
    }
  }

  /** Stable sorting of an address-ascending list orders by position, then by address. */
  lemma {:induction false} SortDescLex(s: seq<Entry>)
    requires forall i, j :: 0 <= i < j < |s| ==> s[i].0 < s[j].0
    ensures LexSorted(SortDesc(s))
  {
    if s != [] {
      var init := s[..|s| - 1];
      SortDescLex(init);
      forall i | 0 <= i < |SortDesc(init)|
        ensures SortDesc(init)[i].0 < s[|s| - 1].0
      {
        assert SortDesc(init)[i] in multiset(SortDesc(init));
        var k :| 0 <= k < |init| && init[k] == SortDesc(init)[i];
      }
      InsertDescLex(SortDesc(init), s[|s| - 1]);
    }
  }

  /** The insertion loop: each entry's free goes right after its position. */
  function InsertFrees<T>(s: seq<T>, entries: seq<Entry>, mk: U16 -> T): (r: seq<T>)
    requires forall i :: 0 <= i < |entries| ==> entries[i].1 < |s|
    ensures |r| == |s| + |entries|
    decreases |entries|
  {
    if entries == [] then s
    else
      var at := entries[0].1 + 1;
      InsertFrees(s[..at] + [mk(entries[0].0)] + s[at..], entries[1..], mk)
  }

  /** The frees whose position is `k`, latest-listed first. */
  function FreesAt<T>(entries: seq<Entry>, k: nat, mk: U16 -> T): seq<T>
  {
    if entries == [] then []
    else FreesAt(entries[1..], k, mk) + (if entries[0].1 == k then [mk(entries[0].0)] else [])
  }

  /** Each element of `q` followed by the frees placed at its position. */
  function Grouped<T>(q: seq<T>, entries: seq<Entry>, mk: U16 -> T): (r: seq<T>)
    decreases |q|
  {
    if q == [] then []
    else Grouped(q[..|q| - 1], entries, mk) + [q[|q| - 1]] + FreesAt(entries, |q| - 1, mk)
  }

  lemma {:induction false} FreesAtNone<T>(entries: seq<Entry>, k: nat, mk: U16 -> T)
    requires forall i :: 0 <= i < |entries| ==> entries[i].1 != k
    ensures FreesAt(entries, k, mk) == []
  {
    if entries != [] {
      FreesAtNone(entries[1..], k, mk);
    }
  }

  /** Elements past every position contribute themselves only. */
  lemma {:induction false} GroupedPrefix<T>(q: seq<T>, k: nat, entries: seq<Entry>, mk: U16 -> T)
    requires k <= |q|
    requires forall i :: 0 <= i < |entries| ==> entries[i].1 < k
    ensures Grouped(q, entries, mk) == Grouped(q[..k], entries, mk) + q[k..]
    decreases |q|
  {
    if |q| == k {
      assert q[..k] == q;
    } else {
      var init := q[..|q| - 1];
      GroupedPrefix(init, k, entries, mk);
      FreesAtNone(entries, |q| - 1, mk);
      assert init[..k] == q[..k];
      assert init[k..] + [q[|q| - 1]] == q[k..];
    }
  }

  /** An entry positioned beyond `s` places nothing inside it. */
  lemma {:induction false} GroupedIgnore<T>(s: seq<T>, e: Entry, entries: seq<Entry>, mk: U16 -> T)
    requires e.1 >= |s|
    ensures Grouped(s, [e] + entries, mk) == Grouped(s, entries, mk)
    decreases |s|
  {
    if s != [] {
      GroupedIgnore(s[..|s| - 1], e, entries, mk);
      assert ([e] + entries)[1..] == entries;
    }
  }

  /** The grouped program, split after the position of the first (highest) entry. */
  lemma GroupedSplit<T>(q: seq<T>, e: Entry, rest: seq<Entry>, mk: U16 -> T)
    requires e.1 < |q|
    requires forall i :: 0 <= i < |rest| ==> rest[i].1 <= e.1
    ensures Grouped(q, [e] + rest, mk) == Grouped(q[..e.1 + 1], rest, mk) + [mk(e.0)] + q[e.1 + 1..]
  {
    var entries := [e] + rest;
    assert forall i :: 0 <= i < |entries| ==> entries[i].1 < e.1 + 1 by {
      forall i | 0 <= i < |entries| ensures entries[i].1 < e.1 + 1 {
        if i > 0 { assert entries[i] == rest[i - 1]; }
      }
    }
    GroupedPrefix(q, e.1 + 1, entries, mk);
    GroupedLast(q, e.1, e, rest, mk);
  }

  lemma GroupedLast<T>(q: seq<T>, l: nat, e: Entry, rest: seq<Entry>, mk: U16 -> T)
    requires l < |q| && e.1 == l
    ensures Grouped(q[..l + 1], [e] + rest, mk) == Grouped(q[..l + 1], rest, mk) + [mk(e.0)]
  {
    var entries := [e] + rest;
    var pre := q[..l + 1];
    assert pre[..l] == q[..l] && pre[l] == q[l];
    assert Grouped(pre, entries, mk) == Grouped(q[..l], entries, mk) + [q[l]] + FreesAt(entries, l, mk);
    assert Grouped(pre, rest, mk) == Grouped(q[..l], rest, mk) + [q[l]] + FreesAt(rest, l, mk);
    assert FreesAt(entries, l, mk) == FreesAt(rest, l, mk) + [mk(e.0)] by {
      assert entries[1..] == rest;
    }
    GroupedIgnore(q[..l], e, rest, mk);
  }

  /** The program after inserting the first entry's free, split the same way. */
  lemma GroupedInserted<T>(q: seq<T>, l: nat, f: T, rest: seq<Entry>, mk: U16 -> T)
    requires l < |q|
    requires forall i :: 0 <= i < |rest| ==> rest[i].1 <= l
    ensures Grouped(q[..l + 1] + [f] + q[l + 1..], rest, mk) == Grouped(q[..l + 1], rest, mk) + [f] + q[l + 1..]
  {
    var q1 := q[..l + 1] + [f] + q[l + 1..];
    var head := q[..l + 1] + [f];
    assert Grouped(q1, rest, mk) == Grouped(head, rest, mk) + q[l + 1..] by {
      GroupedPrefix(q1, l + 2, rest, mk);
      assert q1[..l + 2] == head;
      assert q1[l + 2..] == q[l + 1..];
    }
    assert Grouped(head, rest, mk) == Grouped(q[..l + 1], rest, mk) + [f] by {
      assert head[..|head| - 1] == q[..l + 1];
      FreesAtNone(rest, l + 1, mk);
    }
  }

  /** Inserting in descending position order yields the grouped program. */
  lemma {:induction false} InsertFreesGrouped<T>(q: seq<T>, entries: seq<Entry>, mk: U16 -> T)
    requires SortedDesc(entries)
    requires forall i :: 0 <= i < |entries| ==> entries[i].1 < |q|
    ensures InsertFrees(q, entries, mk) == Grouped(q, entries, mk)
    decreases |entries|
  {
    if entries == [] {
      GroupedPrefix(q, 0, entries, mk);
      assert q[..0] == [] && q[0..] == q;
    } else {
      var e := entries[0];
      var rest := entries[1..];
      var l := e.1;
      var q1 := q[..l + 1] + [mk(e.0)] + q[l + 1..];
      assert forall i :: 0 <= i < |rest| ==> rest[i].1 <= l by {
        forall i | 0 <= i < |rest| ensures rest[i].1 <= l {
          assert rest[i] == entries[i + 1];
        }
      }
      assert InsertFrees(q, entries, mk) == Grouped(q1, rest, mk) by {
        assert InsertFrees(q, entries, mk) == InsertFrees(q1, rest, mk);
        assert SortedDesc(rest) by {
          forall i, j | 0 <= i < j < |rest| ensures rest[i].1 >= rest[j].1 {
            assert rest[i] == entries[i + 1] && rest[j] == entries[j + 1];
          }
        }
        InsertFreesGrouped(q1, rest, mk);
      }
      assert Grouped(q1, rest, mk) == Grouped(q, entries, mk) by {
        GroupedInserted(q, l, mk(e.0), rest, mk);
        assert entries == [e] + rest;
        GroupedSplit(q, e, rest, mk);
      }
    }
  }

  lemma SortedEntriesBound(last: map<U16, nat>, bound: nat)
    requires forall a :: a in last ==> last[a] < bound
    ensures forall i :: 0 <= i < |SortDesc(Entries(last))| ==> SortDesc(Entries(last))[i].1 < bound
  {
    var listed := Entries(last);
    var entries := SortDesc(listed);
    EntriesSpec(last);
    forall i | 0 <= i < |entries| ensures entries[i].1 < bound {
      var x := entries[i];
      assert x in multiset(entries);
      assert x in listed;
    }
  }

  /** The whole placement step for a last-use map whose positions all lie inside `q`. */
  function Place<T>(q: seq<T>, last: map<U16, nat>, mk: U16 -> T): seq<T>
    requires forall a :: a in last ==> last[a] < |q|
  {
    SortedEntriesBound(last, |q|);
    InsertFrees(q, SortDesc(Entries(last)), mk)
  }

  /** Every listed free lands right after its position: the result is `q` interleaved with
      the groups, each group ordered by descending address, one entry per key of `last`. */
  lemma PlaceGrouped<T>(q: seq<T>, last: map<U16, nat>, mk: U16 -> T)
    requires forall a :: a in last ==> last[a] < |q|
    ensures Place(q, last, mk) == Grouped(q, SortDesc(Entries(last)), mk)
    ensures LexSorted(SortDesc(Entries(last)))
    ensures forall x :: x in SortDesc(Entries(last)) <==> x.0 in last && x.1 == last[x.0]
  {
    var entries := SortDesc(Entries(last));
    assert LexSorted(entries) by {
      EntriesSpec(last);
      SortDescLex(Entries(last));
    }
    assert Place(q, last, mk) == Grouped(q, entries, mk) by {
      SortedEntriesBound(last, |q|);
      InsertFreesGrouped(q, entries, mk);
    }
    SortedEntriesMembers(last);
  }

  lemma SortedEntriesMembers(last: map<U16, nat>)
    ensures forall x :: x in SortDesc(Entries(last)) <==> x.0 in last && x.1 == last[x.0]
  {
    var entries := SortDesc(Entries(last));
    EntriesSpec(last);
    forall x: Entry ensures x in entries <==> x in Entries(last) {
      assert x in entries <==> x in multiset(entries);
    }
  }

  /** Dropping the frees from the grouped program gives back `q`. */
  lemma {:induction false} GroupedStrip<T>(q: seq<T>, entries: seq<Entry>, mk: U16 -> T, isFree: T -> bool)
    requires forall a :: isFree(mk(a))
    requires forall i :: 0 <= i < |q| ==> !isFree(q[i])
    ensures Filter(Grouped(q, entries, mk), isFree) == q
    decreases |q|
  {
    if q != [] {
      var init := q[..|q| - 1];
      GroupedStrip(init, entries, mk, isFree);
      FilterConcat(Grouped(init, entries, mk), [q[|q| - 1]], isFree);
      FilterConcat(Grouped(init, entries, mk) + [q[|q| - 1]], FreesAt(entries, |q| - 1, mk), isFree);
      FreesAtFiltered(entries, |q| - 1, mk, isFree);
      assert [q[|q| - 1]][1..] == [];
      assert q == init + [q[|q| - 1]];
    }
  }

  /** The elements of `s` that `isFree` rejects, in order. */
  function Filter<T>(s: seq<T>, isFree: T -> bool): (r: seq<T>)
    ensures |r| <= |s|
  {
    if s == [] then [] else (if isFree(s[0]) then [] else [s[0]]) + Filter(s[1..], isFree)
  }

  lemma {:induction false} FilterConcat<T>(a: seq<T>, b: seq<T>, isFree: T -> bool)
    ensures Filter(a + b, isFree) == Filter(a, isFree) + Filter(b, isFree)
  {
    if a == [] {
      assert a + b == b;
    } else {
      assert (a + b)[1..] == a[1..] + b;
      FilterConcat(a[1..], b, isFree);
    }
  }

  lemma {:induction false} FreesAtFiltered<T>(entries: seq<Entry>, k: nat, mk: U16 -> T, isFree: T -> bool)
    requires forall a :: isFree(mk(a))
    ensures Filter(FreesAt(entries, k, mk), isFree) == []
  {
    if entries != [] {
      FreesAtFiltered(entries[1..], k, mk, isFree);
      var tail: seq<T> := if entries[0].1 == k then [mk(entries[0].0)] else [];
      FilterConcat(FreesAt(entries[1..], k, mk), tail, isFree);
      if tail != [] {
        assert tail[1..] == [];
      }
    }
  }
}
