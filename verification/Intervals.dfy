/** Interval maps as sorted sequences of entries: what the trees of block.c stand for. */
module Intervals {

  /** Base address, size and value of a block. */
  datatype Entry = Entry(A: nat, S: nat, V: nat) {
    ghost predicate Covers(x: int) {
      A <= x < A + S
    }
  }

  /** One more than the largest QWORD. */
  const QWORDS: nat := 0x1_0000_0000_0000_0000

  /** Unsigned 64-bit addition and subtraction. */
  function Add64(a: nat, b: nat): nat
    requires a < QWORDS && b < QWORDS
  {
    if a + b < QWORDS then a + b else a + b - QWORDS
  }

  function Sub64(a: nat, b: nat): nat
    requires a < QWORDS && b < QWORDS
  {
    if b <= a then a - b else a - b + QWORDS
  }

  ghost predicate Sorted(es: seq<Entry>) {
    forall i, j :: 0 <= i < j < |es| ==> es[i].A <= es[j].A
  }

  ghost predicate Strict(es: seq<Entry>) {
    forall i, j :: 0 <= i < j < |es| ==> es[i].A < es[j].A
  }

  /** No block wraps around the end of the address space. */
  ghost predicate NoWrap(es: seq<Entry>) {
    forall i :: 0 <= i < |es| ==> es[i].A + es[i].S < QWORDS
  }

  /** No empty block, and blocks that touch or overlap have been merged. */
  ghost predicate Normal(es: seq<Entry>) {
    && (forall i :: 0 <= i < |es| ==> es[i].S > 0)
    && (forall i, j :: 0 <= i < j < |es| ==> es[i].A + es[i].S < es[j].A)
  }

  /** The byte x lies in one of the blocks. */
  ghost predicate Has(es: seq<Entry>, x: int) {
    exists i :: 0 <= i < |es| && es[i].Covers(x)
  }

  /** k splits es into the blocks that start before a and those that do not. */
  ghost predicate Splits(es: seq<Entry>, a: int, k: nat) {
    && k <= |es|
    && (forall i :: 0 <= i < k ==> es[i].A < a)
    && (forall i :: k <= i < |es| ==> a <= es[i].A)
  }

  ghost function Rank(es: seq<Entry>, a: int): (k: nat)
    ensures k <= |es|
    ensures Sorted(es) ==> Splits(es, a, k)
  {
    if es == [] || es[0].A >= a then 0
    else
      assert forall i, j :: 0 <= i < j < |es[1..]| ==> es[1..][i] == es[i + 1] && es[1..][j] == es[j + 1];
      1 + Rank(es[1..], a)
  }

  lemma SplitsOnce(es: seq<Entry>, a: int, j: nat, k: nat)
    requires Splits(es, a, j) && Splits(es, a, k)
    ensures j == k
  {
    assert j < |es| ==> (es[j].A < a <==> j < k);
    assert k < |es| ==> (es[k].A < a <==> k < j);
  }

  ghost predicate Absent(es: seq<Entry>, a: int) {
    forall i :: 0 <= i < |es| ==> es[i].A != a
  }

  lemma NoneBetween(es: seq<Entry>, a: int, j: nat, k: nat)
    requires Absent(es, a) && Splits(es, a + 1, j) && Splits(es, a, k)
    ensures j == k
  {
    SplitsOnce(es, a, j, k);
  }

  ghost function Bound(e: Entry): nat {
    e.A + e.S
  }

  /** The smallest block over p and b; the value is that of b. */
  ghost function Join(p: Entry, b: Entry): Entry
    requires p.A <= b.A
  {
    Entry(p.A, (if Bound(p) > Bound(b) then Bound(p) else Bound(b)) - p.A, b.V)
  }

  /** es with the blocks from lo to hi replaced by mid. */
  ghost function Replace<T>(es: seq<T>, lo: nat, hi: nat, mid: seq<T>): seq<T>
    requires lo <= hi <= |es|
  {
    es[..lo] + mid + es[hi..]
  }

  /** b touches or overlaps the last block that starts below it. */
  ghost predicate TouchesLow(es: seq<Entry>, b: Entry, k: nat)
    requires k <= |es|
  {
    k > 0 && Bound(es[k - 1]) >= b.A
  }

  ghost function JoinLow(es: seq<Entry>, b: Entry, k: nat): Entry
    requires Splits(es, b.A, k)
  {
    if TouchesLow(es, b, k) then Join(es[k - 1], b) else b
  }

  /** b, joined with the block below it where that is due, touches or overlaps the first block above. */
  ghost predicate TouchesHigh(es: seq<Entry>, b: Entry, k: nat)
    requires Splits(es, b.A, k)
  {
    k < |es| && Bound(JoinLow(es, b, k)) >= es[k].A
  }

  ghost function JoinHigh(b: Entry, n: Entry): Entry {
    Entry(b.A, (if Bound(b) > Bound(n) then b.S else if Bound(n) >= b.A then Bound(n) - b.A else 0), b.V)
  }

  ghost function JoinBoth(es: seq<Entry>, b: Entry, k: nat): Entry
    requires Splits(es, b.A, k)
  {
    var b1 := JoinLow(es, b, k);
    if TouchesHigh(es, b, k) then JoinHigh(b1, es[k]) else b1
  }

  ghost function Low(es: seq<Entry>, b: Entry, k: nat): nat
    requires Splits(es, b.A, k)
  {
    if TouchesLow(es, b, k) then k - 1 else k
  }

  ghost function High(es: seq<Entry>, b: Entry, k: nat): nat
    requires Splits(es, b.A, k)
  {
    if TouchesHigh(es, b, k) then k + 1 else k
  }

  /** `InsertMemoryNode` with merge = 1, for a map in which no block starts at b.A and k blocks start
      below it: the neighbours that b touches or overlaps are replaced by the union. */
  ghost function MergeAt(es: seq<Entry>, b: Entry, k: nat): seq<Entry>
    requires Splits(es, b.A, k)
  {
    Replace(es, Low(es, b, k), High(es, b, k), [JoinBoth(es, b, k)])
  }

  /** The map without the blocks that b takes in. */
  ghost function Absorbed(es: seq<Entry>, b: Entry, k: nat): seq<Entry>
    requires Splits(es, b.A, k)
  {
    es[..Low(es, b, k)] + es[High(es, b, k)..]
  }

  lemma CutStrict(es: seq<Entry>, lo: nat, hi: nat)
    requires Strict(es) && lo <= hi <= |es|
    ensures Strict(es[..lo] + es[hi..])
  {
    var r := es[..lo] + es[hi..];
    forall i | 0 <= i < |r| ensures r[i] == es[if i < lo then i else i - lo + hi] {}
  }

  lemma CutSplits(es: seq<Entry>, a: int, lo: nat, hi: nat)
    requires lo <= hi <= |es|
    requires forall i :: 0 <= i < lo ==> es[i].A < a
    requires forall i :: hi <= i < |es| ==> a <= es[i].A
    ensures Splits(es[..lo] + es[hi..], a, lo)
  {
  }

  lemma CutReplace<T>(es: seq<T>, lo: nat, hi: nat, mid: seq<T>)
    requires lo <= hi <= |es|
    ensures Replace(es[..lo] + es[hi..], lo, lo, mid) == Replace(es, lo, hi, mid)
  {
    var r := es[..lo] + es[hi..];
    assert r[..lo] == es[..lo] && r[lo..] == es[hi..];
  }

  lemma AbsorbedSplits(es: seq<Entry>, b: Entry, k: nat)
    requires Strict(es) && Splits(es, b.A, k)
    ensures Strict(Absorbed(es, b, k))
    ensures Splits(Absorbed(es, b, k), JoinBoth(es, b, k).A, Low(es, b, k))
    ensures var lo := Low(es, b, k); Replace(Absorbed(es, b, k), lo, lo, [JoinBoth(es, b, k)]) == MergeAt(es, b, k)
  {
    var lo, hi := Low(es, b, k), High(es, b, k);
    CutStrict(es, lo, hi);
    CutSplits(es, JoinBoth(es, b, k).A, lo, hi);
    CutReplace(es, lo, hi, [JoinBoth(es, b, k)]);
  }

  ghost function MergeInsert(es: seq<Entry>, b: Entry): seq<Entry>
    requires Sorted(es)
  {
    MergeAt(es, b, Rank(es, b.A))
  }

  /** `InsertMemoryNode` with merge = 0. */
  ghost function PlainInsert(es: seq<Entry>, b: Entry): seq<Entry> {
    es[..Rank(es, b.A)] + [b] + es[Rank(es, b.A)..]
  }

  ghost function RemoveAt<T>(es: seq<T>, k: nat): seq<T>
    requires k < |es|
  {
    es[..k] + es[k + 1..]
  }

  /** No byte of b is in the map. */
  ghost predicate Fresh(es: seq<Entry>, b: Entry) {
    forall i :: 0 <= i < |es| ==> Bound(b) <= es[i].A || Bound(es[i]) <= b.A
  }

  // ---------------------------------------------------------------- merging is set union

  lemma StrictSorted(es: seq<Entry>)
    requires Strict(es)
    ensures Sorted(es)
  {
  }

  lemma NormalSorted(es: seq<Entry>)
    requires Normal(es)
    ensures Strict(es) && Sorted(es)
  {
    forall i, j | 0 <= i < j < |es| ensures es[i].A < es[j].A {
      assert es[i].A + es[i].S < es[j].A;
    }
  }

  lemma HasConcat(a: seq<Entry>, b: seq<Entry>, x: int)
    ensures Has(a + b, x) <==> Has(a, x) || Has(b, x)
  {
    if i :| 0 <= i < |a + b| && (a + b)[i].Covers(x) {
      assert if i < |a| then a[i].Covers(x) else b[i - |a|].Covers(x);
    }
    if i :| 0 <= i < |a| && a[i].Covers(x) {
      assert (a + b)[i].Covers(x);
    }
    if i :| 0 <= i < |b| && b[i].Covers(x) {
      assert (a + b)[|a| + i].Covers(x);
    }
  }

  lemma HasOne(b: Entry, x: int)
    ensures Has([b], x) <==> b.Covers(x)
  {
    assert [b][0] == b;
  }

  lemma HasReplace(es: seq<Entry>, lo: nat, hi: nat, mid: seq<Entry>, x: int)
    requires lo <= hi <= |es|
    ensures Has(Replace(es, lo, hi, mid), x) <==> Has(es[..lo], x) || Has(mid, x) || Has(es[hi..], x)
    ensures Has(es, x) <==> Has(es[..lo], x) || Has(es[lo..hi], x) || Has(es[hi..], x)
  {
    HasConcat(es[..lo] + mid, es[hi..], x);
    HasConcat(es[..lo], mid, x);
    assert es == es[..lo] + es[lo..hi] + es[hi..];
    HasConcat(es[..lo] + es[lo..hi], es[hi..], x);
    HasConcat(es[..lo], es[lo..hi], x);
  }

  /** A normal map stays normal when a stretch of it is replaced by a block clear of the rest. */
  lemma NormalReplace(es: seq<Entry>, lo: nat, hi: nat, b: Entry)
    requires Normal(es) && lo <= hi <= |es| && b.S > 0
    requires lo > 0 ==> Bound(es[lo - 1]) < b.A
    requires hi < |es| ==> Bound(b) < es[hi].A
    ensures Normal(Replace(es, lo, hi, [b]))
    ensures NoWrap(es) && Bound(b) < QWORDS ==> NoWrap(Replace(es, lo, hi, [b]))
  {
    var r := Replace(es, lo, hi, [b]);
    forall i | 0 <= i < lo ensures Bound(es[i]) < b.A {
      if i < lo - 1 { assert es[i].A + es[i].S < es[lo - 1].A; }
    }
    forall i | hi <= i < |es| ensures Bound(b) < es[i].A {
      if i > hi { assert es[hi].A + es[hi].S < es[i].A; }
    }
    forall i, j | 0 <= i < j < |r| ensures Bound(r[i]) < r[j].A {
      if i < lo {
        assert r[i] == es[i];
        if j > lo {
          assert r[j] == es[j - lo - 1 + hi] && es[i].A + es[i].S < es[j - lo - 1 + hi].A;
        } else if j < lo {
          assert r[j] == es[j] && es[i].A + es[i].S < es[j].A;
        }
      } else {
        assert r[j] == es[j - lo - 1 + hi];
        if i > lo {
          assert r[i] == es[i - lo - 1 + hi] && es[i - lo - 1 + hi].A + es[i - lo - 1 + hi].S < r[j].A;
        }
      }
    }
  }

  lemma NormalRemove(es: seq<Entry>, k: nat)
    requires Normal(es) && k < |es|
    ensures Normal(RemoveAt(es, k)) && (NoWrap(es) ==> NoWrap(RemoveAt(es, k)))
  {
    var r := RemoveAt(es, k);
    forall i | 0 <= i < |r| ensures r[i] == if i < k then es[i] else es[i + 1] {}
  }

  /** What merging does to a block that shares no byte with a normal map. */
  ghost function Merged(es: seq<Entry>, b: Entry, k: nat): Entry
    requires k <= |es|
  {
    var lo := if k > 0 && Bound(es[k - 1]) == b.A then es[k - 1].A else b.A;
    var hi := if k < |es| && es[k].A == Bound(b) then Bound(es[k]) else Bound(b);
    Entry(lo, if hi >= lo then hi - lo else 0, b.V)
  }

  lemma MergeShape(es: seq<Entry>, b: Entry, k: nat)
    requires Normal(es) && b.S > 0 && Fresh(es, b) && Splits(es, b.A, k)
    ensures MergeAt(es, b, k) == Replace(es, if k > 0 && Bound(es[k - 1]) == b.A then k - 1 else k,
                                             if k < |es| && es[k].A == Bound(b) then k + 1 else k, [Merged(es, b, k)])
  {
  }

  /** Merging a block that shares no byte with a normal map gives a normal map ... */
  lemma MergeNormal(es: seq<Entry>, b: Entry)
    requires Normal(es) && b.S > 0 && Fresh(es, b)
    ensures Sorted(es) && Normal(MergeInsert(es, b))
    ensures NoWrap(es) && Bound(b) < QWORDS ==> NoWrap(MergeInsert(es, b))
  {
    NormalSorted(es);
    var k := Rank(es, b.A);
    MergeShape(es, b, k);
    var lo := if k > 0 && Bound(es[k - 1]) == b.A then k - 1 else k;
    var hi := if k < |es| && es[k].A == Bound(b) then k + 1 else k;
    if 0 < lo < k { assert Bound(es[lo - 1]) < es[lo].A; }
    if k < hi < |es| { assert Bound(es[k]) < es[hi].A; }
    NormalReplace(es, lo, hi, Merged(es, b, k));
  }

  /** ... of exactly the old bytes and those of the block. */
  lemma MergeIsUnion(es: seq<Entry>, b: Entry, x: int)
    requires Normal(es) && b.S > 0 && Fresh(es, b)
    ensures Sorted(es) && (Has(MergeInsert(es, b), x) <==> Has(es, x) || b.Covers(x))
  {
    NormalSorted(es);
    var k := Rank(es, b.A);
    MergeShape(es, b, k);
    var lo := if k > 0 && Bound(es[k - 1]) == b.A then k - 1 else k;
    var hi := if k < |es| && es[k].A == Bound(b) then k + 1 else k;
    HasReplace(es, lo, hi, [Merged(es, b, k)], x);
    HasOne(Merged(es, b, k), x);
    HasShort(es[lo..hi], x);
  }

  lemma HasShort(es: seq<Entry>, x: int)
    requires |es| <= 2
    ensures Has(es, x) <==> (|es| > 0 && es[0].Covers(x)) || (|es| > 1 && es[1].Covers(x))
  {
  }

  // ---------------------------------------------------------------- a normal map is determined by its bytes

  ghost predicate SameBytes(a: seq<Entry>, b: seq<Entry>) {
    forall x: int :: Has(a, x) <==> Has(b, x)
  }

  ghost predicate Plain(es: seq<Entry>) {
    forall i :: 0 <= i < |es| ==> es[i].V == 0
  }

  /** Below its first block, in the gap after it and at its end a normal map has no byte. */
  lemma FirstBlock(es: seq<Entry>, x: int)
    requires Normal(es) && es != [] && x <= Bound(es[0])
    ensures Has(es, x) <==> es[0].Covers(x)
    ensures Has(es[1..], x) ==> false
  {
    forall i | 1 <= i < |es| ensures !es[i].Covers(x) {
      assert es[0].A + es[0].S < es[i].A;
    }
  }

  lemma TailHas(es: seq<Entry>, x: int)
    requires es != []
    ensures Has(es, x) <==> es[0].Covers(x) || Has(es[1..], x)
  {
    assert es == [es[0]] + es[1..];
    HasConcat([es[0]], es[1..], x);
    HasOne(es[0], x);
  }

  lemma SameFirst(a: seq<Entry>, b: seq<Entry>)
    requires Normal(a) && Normal(b) && SameBytes(a, b) && a != [] && b != []
    ensures a[0].A == b[0].A && a[0].S == b[0].S
  {
    FirstAgrees(a, b);
    FirstAgrees(b, a);
  }

  lemma FirstAgrees(a: seq<Entry>, b: seq<Entry>)
    requires Normal(a) && Normal(b) && SameBytes(a, b) && a != [] && b != []
    ensures a[0].A >= b[0].A && (a[0].A == b[0].A ==> a[0].S <= b[0].S)
  {
    assert a[0].Covers(a[0].A);
    if a[0].A < b[0].A {
      FirstBlock(b, a[0].A);
    } else if a[0].A == b[0].A && a[0].S > b[0].S {
      FirstBlock(b, Bound(b[0]));
      assert a[0].Covers(Bound(b[0]));
    }
  }

  /** Two normal maps of the same bytes are the same sequence of blocks. */
  lemma {:induction false} NormalIsUnique(a: seq<Entry>, b: seq<Entry>)
    requires Normal(a) && Normal(b) && Plain(a) && Plain(b) && SameBytes(a, b)
    ensures a == b
    decreases |a|
  {
    if a == [] {
      if b != [] { assert b[0].Covers(b[0].A) && Has(b, b[0].A); }
    } else {
      assert a[0].Covers(a[0].A) && Has(a, a[0].A);
      SameFirst(a, b);
      assert a[0] == b[0];
      forall x: int ensures Has(a[1..], x) <==> Has(b[1..], x) {
        TailHas(a, x);
        TailHas(b, x);
        if x <= Bound(a[0]) {
          FirstBlock(a, x);
          FirstBlock(b, x);
        }
      }
      NormalIsUnique(a[1..], b[1..]);
      assert a == [a[0]] + a[1..] && b == [b[0]] + b[1..];
    }
  }
}
