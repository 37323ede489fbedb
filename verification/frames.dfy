/** A table as pandas keeps it: rows tagged with their index. Every
    filter keeps labels and relative order, so "a subsequence of the input" is
    stated as "every entry comes from the input, and indices still increase". */
module Frames {

  datatype Entry<T> = Entry(index: nat, row: T)

  type Frame<T> = seq<Entry<T>>

  /** Indices strictly increase along the frame. */
  ghost predicate Ordered<T>(f: Frame<T>) {
    forall i, j :: 0 <= i < j < |f| ==> f[i].index < f[j].index
  }

  /** No entry occurs twice. */
  ghost predicate NoRepeats<T>(f: Frame<T>) {
    forall i, j :: 0 <= i < j < |f| ==> f[i] != f[j]
  }

  ghost function Indices<T>(f: Frame<T>): set<nat> {
    set e | e in f :: e.index
  }

  ghost function KeysOf<T, K>(f: Frame<T>, key: T -> K): set<K> {
    set e | e in f :: key(e.row)
  }

  /** Every index of the frame is larger than `bound`. */
  ghost predicate IndicesAbove<T>(f: Frame<T>, bound: int) {
    forall e :: e in f ==> e.index > bound
  }

  lemma OrderedTail<T>(f: Frame<T>)
    requires |f| > 0
    ensures Ordered(f) ==> Ordered(f[1..]) && IndicesAbove(f[1..], f[0].index)
  {
    if Ordered(f) {
      forall e | e in f[1..] ensures e.index > f[0].index {
        var k :| 0 <= k < |f[1..]| && f[1..][k] == e;
        assert f[k + 1] == e;
      }
    }
  }

  /** Putting an entry in front of a frame whose indices are all larger keeps it ordered. */
  lemma OrderedPrepend<T>(e: Entry<T>, f: Frame<T>)
    ensures Ordered(f) && IndicesAbove(f, e.index) ==> Ordered([e] + f)
  {
    assert forall j :: 0 <= j < |f| ==> f[j] in f;
  }

  /** Boolean-mask selection `df[mask]`: exactly the entries whose row passes,
      in their original order. */
  function Where<T(!new)>(f: Frame<T>, keep: T -> bool): (r: Frame<T>)
    ensures forall e :: e in r <==> e in f && keep(e.row)
    ensures Ordered(f) ==> Ordered(r)
    ensures NoRepeats(f) ==> NoRepeats(r)
    ensures |r| <= |f|
    decreases |f|
  {
    if |f| == 0 then []
    else
      var rest := Where(f[1..], keep);
      assert forall e :: e in f <==> e == f[0] || e in f[1..];
      OrderedTail(f);
      if keep(f[0].row) then
        OrderedPrepend(f[0], rest);
        assert NoRepeats(f) ==> f[0] !in f[1..] by {
          if NoRepeats(f) {
            forall k | 0 <= k < |f[1..]| ensures f[1..][k] != f[0] {
              assert f[1..][k] == f[k + 1];
            }
          }
        }
        assert forall j :: 0 <= j < |rest| ==> rest[j] in rest;
        [f[0]] + rest
      else rest
  }

  lemma HeadIsMember<T>(f: Frame<T>)
    requires |f| > 0
    ensures f[0] in f
  {
  }

  /** An ordered frame is determined by the set of its entries, so the
      membership and order postconditions above pin a filter's result down
      completely. */
  lemma {:induction false} OrderedFrameIsDeterminedByEntries<T>(a: Frame<T>, b: Frame<T>)
    requires Ordered(a) && Ordered(b)
    requires forall e :: e in a <==> e in b
    ensures a == b
    decreases |a|
  {
    if |a| == 0 {
      assert forall e :: e !in b;
      if |b| > 0 {
        HeadIsMember(b);
        assert false;
      }
    } else {
      assert a[0] in b;
      assert |b| > 0;
      assert b[0] in a;
      var k :| 0 <= k < |b| && b[k] == a[0];
      var m :| 0 <= m < |a| && a[m] == b[0];
      assert a[0].index <= a[m].index;
      assert b[0].index <= b[k].index;
      assert k == 0;
      OrderedTail(a);
      OrderedTail(b);
      forall e ensures e in a[1..] <==> e in b[1..] {
        assert e in a <==> e == a[0] || e in a[1..];
        assert e in b <==> e == b[0] || e in b[1..];
        if e in a[1..] {
          assert e.index > a[0].index;
        }
        if e in b[1..] {
          assert e.index > b[0].index;
        }
      }
      OrderedFrameIsDeterminedByEntries(a[1..], b[1..]);
      assert a == [a[0]] + a[1..];
      assert b == [b[0]] + b[1..];
    }
  }

  /** What `drop_duplicates` guarantees of `r`, continuing over `f` after the
      keys in `seen` were already taken. */
  ghost predicate DedupOf<T, K>(r: Frame<T>, f: Frame<T>, key: T -> K, seen: set<K>) {
    && (forall e :: e in r ==> e in f && key(e.row) !in seen)
    && (forall e :: e in f ==> key(e.row) in seen || key(e.row) in KeysOf(r, key))
    && (forall i, j :: 0 <= i < j < |r| ==> key(r[i].row) != key(r[j].row))
    && (Ordered(f) ==> Ordered(r))
    && (Ordered(f) ==> forall e, e' :: e in r && e' in f && key(e'.row) == key(e.row) ==> e.index <= e'.index)
  }

  /** Skipping a first entry whose key was already taken. */
  lemma DedupSkip<T, K>(f: Frame<T>, key: T -> K, seen: set<K>, rest: Frame<T>)
    requires |f| > 0 && key(f[0].row) in seen
    requires DedupOf(rest, f[1..], key, seen)
    ensures DedupOf(rest, f, key, seen)
  {
    assert forall e :: e in f <==> e == f[0] || e in f[1..];
    OrderedTail(f);
  }

  /** Keeping a first entry whose key is new. */
  lemma DedupKeep<T, K>(f: Frame<T>, key: T -> K, seen: set<K>, rest: Frame<T>)
    requires |f| > 0 && key(f[0].row) !in seen
    requires DedupOf(rest, f[1..], key, seen + {key(f[0].row)})
    ensures DedupOf([f[0]] + rest, f, key, seen)
  {
    KeepSound(f, key, seen, rest);
    KeepCovers(f, key, seen, rest);
    KeepDistinct(f, key, seen, rest);
    KeepOrdered(f, key, seen, rest);
  }

  lemma KeepSound<T, K>(f: Frame<T>, key: T -> K, seen: set<K>, rest: Frame<T>)
    requires |f| > 0 && key(f[0].row) !in seen
    requires forall e :: e in rest ==> e in f[1..] && key(e.row) !in seen + {key(f[0].row)}
    ensures forall e :: e in [f[0]] + rest ==> e in f && key(e.row) !in seen
  {
    MembersOfTail(f, [f[0]] + rest, rest);
  }

  lemma KeepCovers<T, K>(f: Frame<T>, key: T -> K, seen: set<K>, rest: Frame<T>)
    requires |f| > 0
    requires forall e :: e in f[1..] ==> key(e.row) in seen + {key(f[0].row)} || key(e.row) in KeysOf(rest, key)
    ensures forall e :: e in f ==> key(e.row) in seen || key(e.row) in KeysOf([f[0]] + rest, key)
  {
    var r := [f[0]] + rest;
    MembersOfTail(f, r, rest);
    assert key(f[0].row) in KeysOf(r, key);
    assert KeysOf(rest, key) <= KeysOf(r, key);
  }

  lemma KeepDistinct<T, K>(f: Frame<T>, key: T -> K, seen: set<K>, rest: Frame<T>)
    requires |f| > 0
    requires forall e :: e in rest ==> key(e.row) !in seen + {key(f[0].row)}
    requires forall i, j :: 0 <= i < j < |rest| ==> key(rest[i].row) != key(rest[j].row)
    ensures forall i, j :: 0 <= i < j < |[f[0]] + rest| ==> key(([f[0]] + rest)[i].row) != key(([f[0]] + rest)[j].row)
  {
    assert forall j :: 0 <= j < |rest| ==> rest[j] in rest;
  }

  lemma KeepOrdered<T, K>(f: Frame<T>, key: T -> K, seen: set<K>, rest: Frame<T>)
    requires |f| > 0 && key(f[0].row) !in seen
    requires DedupOf(rest, f[1..], key, seen + {key(f[0].row)})
    ensures Ordered(f) ==> Ordered([f[0]] + rest)
    ensures Ordered(f) ==> forall e, e' :: e in [f[0]] + rest && e' in f && key(e'.row) == key(e.row) ==> e.index <= e'.index
  {
    var r := [f[0]] + rest;
    MembersOfTail(f, r, rest);
    OrderedTail(f);
    OrderedPrepend(f[0], rest);
  }

  lemma MembersOfTail<T>(f: Frame<T>, r: Frame<T>, rest: Frame<T>)
    requires |f| > 0 && r == [f[0]] + rest
    ensures forall e :: e in f <==> e == f[0] || e in f[1..]
    ensures forall e :: e in r <==> e == f[0] || e in rest
  {
    assert f == [f[0]] + f[1..];
  }

  /** `drop_duplicates(subset=...)` continued after the keys in `seen` have
      already been taken: keeps the first entry for each key not yet seen. */
  function DedupAfter<T(!new), K(==)>(f: Frame<T>, key: T -> K, seen: set<K>): (r: Frame<T>)
    ensures DedupOf(r, f, key, seen)
    decreases |f|
  {
    if |f| == 0 then []
    else
      var k := key(f[0].row);
      if k in seen then
        var rest := DedupAfter(f[1..], key, seen);
        DedupSkip(f, key, seen, rest);
        rest
      else
        var rest := DedupAfter(f[1..], key, seen + {k});
        DedupKeep(f, key, seen, rest);
        [f[0]] + rest
  }

  /** `drop_duplicates(subset=...)` with the default `keep='first'`: one entry
      per key, the earliest one, in the original order. */
  function DropDuplicates<T(!new), K(==)>(f: Frame<T>, key: T -> K): (r: Frame<T>)
    ensures forall e :: e in r ==> e in f
    ensures KeysOf(r, key) == KeysOf(f, key)
    ensures forall i, j :: 0 <= i < j < |r| ==> key(r[i].row) != key(r[j].row)
    ensures Ordered(f) ==> Ordered(r)
    ensures Ordered(f) ==> forall e, e' :: e in r && e' in f && key(e'.row) == key(e.row) ==> e.index <= e'.index
  {
    DedupAfter(f, key, {})
  }
}
