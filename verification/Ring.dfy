/** The circular doubly linked list that orders the cache slots from least to most recently used. */
module Ring {
  /** Every slot number below `n`, once. */
  ghost predicate Permutation(order: seq<nat>, n: nat) {
    && |order| == n
    && (forall i :: 0 <= i < n ==> order[i] < n)
    && (forall i, j :: 0 <= i < j < n ==> order[i] != order[j])
  }

  /** No slot occurs twice. */
  ghost predicate Once(visited: seq<nat>) {
    forall i, j :: 0 <= i < j < |visited| ==> visited[i] != visited[j]
  }

  /** Every slot below `n` occurs. */
  ghost predicate Visits(visited: seq<nat>, n: nat) { forall p: nat :: p < n ==> p in visited }

  /** Distinct numbers below `n`, as a set, are no more than `n`. */
  lemma {:induction false} DistinctBelow(s: set<nat>, n: nat)
    requires forall q :: q in s ==> q < n
    ensures |s| <= n
  {
    if n > 0 {
      DistinctBelow(s - {n - 1}, n - 1);
    } else {
      assert s == {};
    }
  }

  ghost function Elements(order: seq<nat>): set<nat> { set q | q in order }

  lemma {:induction false} SetOfDistinct(order: seq<nat>)
    requires forall i, j :: 0 <= i < j < |order| ==> order[i] != order[j]
    ensures |Elements(order)| == |order|
  {
    if order != [] {
      var last, init := order[|order| - 1], order[..|order| - 1];
      SetOfDistinct(init);
      assert order == init + [last] && last !in Elements(init);
      assert Elements(order) == Elements(init) + {last};
    }
  }

  /** No slot is missing from the ring. */
  lemma {:induction false} Covers(order: seq<nat>, n: nat, p: nat)
    requires Permutation(order, n) && p < n
    ensures p in order
  {
    SetOfDistinct(order);
    if p !in order {
      assert |Elements(order) + {p}| == n + 1;
      DistinctBelow(Elements(order) + {p}, n);
    }
  }

  lemma {:induction false} OncePrefix(walk: seq<nat>, visited: seq<nat>)
    requires Once(walk) && visited <= walk
    ensures Once(visited)
  {}

  lemma {:induction false} OrderOnce(order: seq<nat>, n: nat)
    requires Permutation(order, n)
    ensures |order| == n && Once(order) && Visits(order, n) && forall i :: 0 <= i < n ==> order[i] < n
  {
    forall p: nat | p < n ensures p in order {
      Covers(order, n, p);
    }
  }

  ghost function Backwards(order: seq<nat>): seq<nat> {
    seq(|order|, i requires 0 <= i < |order| => order[|order| - 1 - i])
  }

  /** Walking the ring backwards, too, meets every slot once. */
  lemma {:induction false} BackwardsOnce(order: seq<nat>, n: nat)
    requires Permutation(order, n)
    ensures Once(Backwards(order)) && Visits(Backwards(order), n)
    ensures |Backwards(order)| == n && forall i :: 0 <= i < n ==> Backwards(order)[i] == order[n - 1 - i]
  {
    forall p: nat | p < n ensures p in Backwards(order) {
      Covers(order, n, p);
      assert Backwards(order)[n - 1 - IndexOf(order, p)] == p;
    }
  }

  /** The place of `p` in the order. */
  ghost function IndexOf(order: seq<nat>, p: nat): (k: nat)
    requires p in order
    ensures k < |order| && order[k] == p
  {
    var k :| 0 <= k < |order| && order[k] == p;
    k
  }

  function Without(order: seq<nat>, k: nat): (r: seq<nat>)
    requires k < |order|
    ensures |r| == |order| - 1
  {
    order[..k] + order[k + 1..]
  }

  function MovedFrom(order: seq<nat>, k: nat, most: bool): (r: seq<nat>)
    requires k < |order|
    ensures |r| == |order|
  {
    if most then Without(order, k) + [order[k]] else [order[k]] + Without(order, k)
  }

  /** `order` with `p` moved to its most (or least) recently used end. */
  ghost function Moved(order: seq<nat>, p: nat, most: bool): seq<nat> {
    if p in order then MovedFrom(order, IndexOf(order, p), most) else order
  }

  /** Which index of the old order the moved order has at index `a`. */
  function Source(k: nat, n: nat, most: bool, a: nat): nat {
    if most then (if a < k then a else if a + 1 < n then a + 1 else k)
    else (if a == 0 then k else if a <= k then a - 1 else a)
  }

  lemma {:induction false} SourceAt(order: seq<nat>, k: nat, most: bool, a: nat)
    requires k < |order| && a < |order|
    ensures Source(k, |order|, most, a) < |order|
    ensures MovedFrom(order, k, most)[a] == order[Source(k, |order|, most, a)]
  {}

  /** Moving a slot keeps the ring a permutation. */
  lemma {:induction false} MovedPermutation(order: seq<nat>, n: nat, p: nat, most: bool)
    requires Permutation(order, n)
    ensures Permutation(Moved(order, p, most), n)
  {
    hide MovedFrom;
    var r := Moved(order, p, most);
    if p in order {
      var k := IndexOf(order, p);
      forall a | 0 <= a < n ensures r[a] < n {
        SourceAt(order, k, most, a);
      }
      forall a, b | 0 <= a < b < n ensures r[a] != r[b] {
        SourceAt(order, k, most, a);
        SourceAt(order, k, most, b);
        var i, j := Source(k, n, most, a), Source(k, n, most, b);
        assert i < j || j < i;
      }
    }
  }

  /** `q1` is less recently used than `q2`. */
  ghost predicate Before(order: seq<nat>, q1: nat, q2: nat) {
    exists i, j :: 0 <= i < j < |order| && order[i] == q1 && order[j] == q2
  }

  lemma {:induction false} BeforeAt(order: seq<nat>, n: nat, i: nat, j: nat)
    requires Permutation(order, n) && i < n && j < n
    ensures Before(order, order[i], order[j]) <==> i < j
  {}

  /** Where index `i` of the old order ends up when the slot at index `k` of `n` is moved. */
  function Place(k: nat, n: nat, most: bool, i: nat): nat
    requires k < n
  {
    if i == k then (if most then n - 1 else 0)
    else if i < k then (if most then i else i + 1)
    else (if most then i - 1 else i)
  }

  lemma {:induction false} PlaceAt(order: seq<nat>, k: nat, most: bool, i: nat)
    requires k < |order| && i < |order|
    ensures Place(k, |order|, most, i) < |order|
    ensures MovedFrom(order, k, most)[Place(k, |order|, most, i)] == order[i]
  {}

  /** Moving a slot makes it the most (least) recently used one and keeps the relative order of
      all other slots. */
  lemma {:induction false} MovedKeepsOthers(order: seq<nat>, n: nat, p: nat, most: bool, q1: nat, q2: nat)
    requires Permutation(order, n) && p < n && q1 < n && q2 < n && q1 != q2 && q2 != p
    ensures var r := Moved(order, p, most);
      if q1 == p then Before(r, p, q2) <==> !most else Before(r, q1, q2) <==> Before(order, q1, q2)
  {
    Covers(order, n, p);
    Covers(order, n, q1);
    Covers(order, n, q2);
    MovedPermutation(order, n, p, most);
    hide Permutation, Before, MovedFrom;
    var k, r := IndexOf(order, p), Moved(order, p, most);
    var i, j := IndexOf(order, q1), IndexOf(order, q2);
    PlaceAt(order, k, most, i);
    PlaceAt(order, k, most, j);
    BeforeAt(order, n, i, j);
    BeforeAt(r, n, Place(k, n, most, i), Place(k, n, most, j));
  }

  lemma {:induction false} FirstBefore(order: seq<nat>, n: nat, p: nat, a: nat, b: nat)
    requires Permutation(order, n) && p < n && a < n && b < n && a != b
    ensures var r := Moved(order, p, false);
      Before(r, a, b) <==> a == p || (b != p && Before(order, a, b))
  {
    MovedPermutation(order, n, p, false);
    if b == p {
      MovedKeepsOthers(order, n, p, false, b, a);
      OneWay(Moved(order, p, false), n, a, b);
    } else {
      MovedKeepsOthers(order, n, p, false, a, b);
    }
  }

  lemma {:induction false} OneWay(order: seq<nat>, n: nat, a: nat, b: nat)
    requires Permutation(order, n) && a < n && b < n && a != b
    ensures Before(order, a, b) <==> !Before(order, b, a)
  {
    Covers(order, n, a);
    Covers(order, n, b);
    BeforeAt(order, n, IndexOf(order, a), IndexOf(order, b));
    BeforeAt(order, n, IndexOf(order, b), IndexOf(order, a));
  }

  /** `next` walks the slots of `s` cyclically. */
  ghost predicate Walks(next: seq<nat>, s: seq<nat>) {
    && s != [] && (forall i :: 0 <= i < |s| ==> s[i] < |next|)
    && (forall i :: 0 <= i < |s| - 1 ==> next[s[i]] == s[i + 1]) && next[s[|s| - 1]] == s[0]
  }

  /** `prev` walks the slots of `s` backwards, cyclically. */
  ghost predicate WalksBack(prev: seq<nat>, s: seq<nat>) {
    && s != [] && (forall i :: 0 <= i < |s| ==> s[i] < |prev|)
    && (forall i :: 0 < i < |s| ==> prev[s[i]] == s[i - 1]) && prev[s[0]] == s[|s| - 1]
  }

  ghost predicate Linked(prev: seq<nat>, next: seq<nat>, s: seq<nat>) {
    |prev| == |next| && Walks(next, s) && WalksBack(prev, s)
  }

  lemma {:induction false} WithoutAt(s: seq<nat>, k: nat, i: nat)
    requires k < |s| && i < |s| - 1
    ensures Without(s, k)[i] == s[if i < k then i else i + 1]
  {}

  lemma {:induction false} UnlinkedNext(next: seq<nat>, s: seq<nat>, k: nat, l: nat)
    requires Walks(next, s) && Permutation(s, |next|) && k < |s| && |s| > 1
    requires l == s[if k == 0 then |s| - 1 else k - 1]
    ensures Walks(next[l := next[s[k]]], Without(s, k))
  {
    var rest, r, n := Without(s, k), next[s[k]], |s| - 1;
    forall i | 0 <= i < n ensures rest[i] < |next| {
      WithoutAt(s, k, i);
    }
    forall i | 0 <= i < n - 1 ensures next[l := r][rest[i]] == rest[i + 1] {
      WithoutAt(s, k, i);
      WithoutAt(s, k, i + 1);
    }
    WithoutAt(s, k, n - 1);
    WithoutAt(s, k, 0);
  }

  lemma {:induction false} UnlinkedPrev(prev: seq<nat>, s: seq<nat>, k: nat, r: nat)
    requires WalksBack(prev, s) && Permutation(s, |prev|) && k < |s| && |s| > 1
    requires r == s[if k == |s| - 1 then 0 else k + 1]
    ensures WalksBack(prev[r := prev[s[k]]], Without(s, k))
  {
    var rest, l, n := Without(s, k), prev[s[k]], |s| - 1;
    forall i | 0 <= i < n ensures rest[i] < |prev| {
      WithoutAt(s, k, i);
    }
    forall i | 0 < i < n ensures prev[r := l][rest[i]] == rest[i - 1] {
      WithoutAt(s, k, i);
      WithoutAt(s, k, i - 1);
    }
    WithoutAt(s, k, n - 1);
    WithoutAt(s, k, 0);
  }

  /** Bridging over the slot at index `k` links up all the others. */
  lemma {:induction false} Unlinked(prev: seq<nat>, next: seq<nat>, s: seq<nat>, k: nat)
    requires Linked(prev, next, s) && Permutation(s, |prev|) && k < |s| && |s| > 1
    ensures var l, r := prev[s[k]], next[s[k]];
      && l < |prev| && r < |prev| && Linked(prev[r := l], next[l := r], Without(s, k))
      && Without(s, k)[0] == if k == 0 then r else s[0]
  {
    var l, r := prev[s[k]], next[s[k]];
    assert l == s[if k == 0 then |s| - 1 else k - 1] && r == s[if k == |s| - 1 then 0 else k + 1];
    UnlinkedNext(next, s, k, l);
    UnlinkedPrev(prev, s, k, r);
    WithoutAt(s, k, 0);
  }

  lemma {:induction false} RelinkedNext(next: seq<nat>, s: seq<nat>, p: nat)
    requires Walks(next, s) && p !in s && p < |next|
    requires forall i, j :: 0 <= i < j < |s| ==> s[i] != s[j]
    ensures var next' := next[p := s[0]][s[|s| - 1] := p]; Walks(next', s + [p]) && Walks(next', [p] + s)
  {
    var next' := next[p := s[0]][s[|s| - 1] := p];
    forall i | 0 <= i < |s| - 1 ensures next'[s[i]] == s[i + 1] {
      assert s[i] in s;
    }
    assert next'[p] == s[0] && next'[s[|s| - 1]] == p;
  }

  lemma {:induction false} RelinkedPrev(prev: seq<nat>, s: seq<nat>, p: nat)
    requires WalksBack(prev, s) && p !in s && p < |prev|
    requires forall i, j :: 0 <= i < j < |s| ==> s[i] != s[j]
    ensures var prev' := prev[p := s[|s| - 1]][s[0] := p]; WalksBack(prev', s + [p]) && WalksBack(prev', [p] + s)
  {
    var prev' := prev[p := s[|s| - 1]][s[0] := p];
    forall i | 0 < i < |s| ensures prev'[s[i]] == s[i - 1] {
      assert s[i] in s;
    }
    assert prev'[p] == s[|s| - 1] && prev'[s[0]] == p;
  }

  /** Linking `p` in between the last and the first slot of `s` puts it at either end. */
  lemma {:induction false} Relinked(prev: seq<nat>, next: seq<nat>, s: seq<nat>, p: nat)
    requires Linked(prev, next, s) && p !in s && p < |prev|
    requires forall i, j :: 0 <= i < j < |s| ==> s[i] != s[j]
    ensures var l, r := prev[s[0]], s[0];
      var prev', next' := prev[p := l][r := p], next[p := r][l := p];
      Linked(prev', next', s + [p]) && Linked(prev', next', [p] + s)
  {
    RelinkedNext(next, s, p);
    RelinkedPrev(prev, s, p);
  }

  /** The links after bridging over `p` and linking it back in before `first`. */
  ghost predicate SplicedAs(prev: seq<nat>, next: seq<nat>, p: nat, first: nat, moved: seq<nat>)
    requires |prev| == |next| && p < |prev| && first < |prev|
  {
    var l, r := prev[p], next[p];
    && l < |prev| && r < |prev|
    && var prev1, next1 := prev[r := l], next[l := r];
    var last := prev1[first];
    && last < |prev| && (p == last ==> p == first)
    && Linked(prev1[p := last][first := p], next1[p := first][last := p], moved)
  }

  lemma {:induction false} SplicedAmong(prev: seq<nat>, next: seq<nat>, order: seq<nat>, k: nat)
    requires Linked(prev, next, order) && Permutation(order, |prev|) && k < |order| && |order| > 1
    ensures var p, rest := order[k], Without(order, k);
      && rest[0] == (if k == 0 then next[p] else order[0])
      && SplicedAs(prev, next, p, rest[0], rest + [p]) && SplicedAs(prev, next, p, rest[0], [p] + rest)
  {
    var p, rest := order[k], Without(order, k);
    Unlinked(prev, next, order, k);
    assert p !in rest && rest[0] in rest;
    hide Permutation, Without;
    var prev1, next1 := prev[next[p] := prev[p]], next[prev[p] := next[p]];
    Relinked(prev1, next1, rest, p);
    assert prev1[rest[0]] == rest[|rest| - 1];
  }

  /** Bridging over `p` and linking it back in before the first of the others links up the moved order. */
  lemma {:induction false} Spliced(prev: seq<nat>, next: seq<nat>, order: seq<nat>, p: nat, most: bool)
    requires Linked(prev, next, order) && Permutation(order, |prev|) && p < |prev|
    ensures var first := if p == order[0] then next[p] else order[0];
      && first < |prev|
      && SplicedAs(prev, next, p, first, Moved(order, p, most))
      && Moved(order, p, most)[0] == if most then first else p
  {
    Covers(order, |prev|, p);
    var k := IndexOf(order, p);
    assert p == order[0] <==> k == 0;
    if |order| > 1 {
      SplicedAmong(prev, next, order, k);
      hide SplicedAs, Permutation, Linked;
    }
  }

  /** The ring of `n` slots. `prev` and `next` are the link fields of the slots, by slot number. */
  class LruRing {
    const n: nat
    const prev: array<nat>
    const next: array<nat>
    var lru: nat
    ghost var order: seq<nat>

    /** The links form one ring over all slots, and `lru` points at its least recently used end. */
    ghost predicate Valid()
      reads this, prev, next
    {
      && n > 0 && prev.Length == n && next.Length == n && prev != next
      && Permutation(order, n) && lru == order[0] && Linked(prev[..], next[..], order)
    }

    constructor (size: nat)
      requires size > 0
      ensures n == size && Valid() && order == seq(size, i => i)
      ensures fresh(prev) && fresh(next)
    {
      n := size;
      prev := new nat[size](i => if i == 0 then size - 1 else i - 1);
      next := new nat[size](i => if i == size - 1 then 0 else i + 1);
      lru := 0;
      order := seq(size, i => i);
    }

    /** Where the links of the slot at index `i` lead. */
    lemma {:induction false} LinksAt(i: nat)
      requires Valid() && i < n
      ensures prev[order[i]] == order[if i == 0 then n - 1 else i - 1]
      ensures next[order[i]] == order[if i == n - 1 then 0 else i + 1]
      ensures next[order[i]] == lru <==> i == n - 1
      ensures prev[order[i]] == prev[lru] <==> i == 0
    {
      assert prev[..][order[i]] == prev[order[i]] && next[..][order[i]] == next[order[i]];
      assert prev[..][order[0]] == prev[lru];
    }

    /** Bridges over a slot. */
    method Unlink(p: nat)
      requires Valid() && p < n
      modifies prev, next, this`lru
      ensures lru == if p == old(lru) then old(next[p]) else old(lru)
      ensures var l, r := old(prev[p]), old(next[p]);
        && l < n && r < n && prev[..] == old(prev[..])[r := l] && next[..] == old(next[..])[l := r]
    {
      Covers(order, n, p);
      ghost var k := IndexOf(order, p);
      assert prev[p] == order[if k == 0 then n - 1 else k - 1] && next[p] == order[if k == n - 1 then 0 else k + 1];
      hide Linked, Permutation;
      if p == lru {
        lru := next[lru];
      }
      next[prev[p]] := next[p];
      prev[next[p]] := prev[p];
    }

    /** Links a slot in between the last and the first slot of the ring. */
    method LinkBeforeLru(p: nat)
      requires prev.Length == n && next.Length == n && prev != next && p < n && lru < n && prev[lru] < n
      requires p == prev[lru] ==> p == lru
      modifies prev, next
      ensures var l, r := old(prev[lru]), lru;
        && prev[..] == old(prev[..])[p := l][r := p]
        && next[..] == old(next[..])[p := r][l := p]
    {
      prev[p] := prev[lru];
      next[p] := lru;
      next[prev[p]] := p;
      prev[next[p]] := p;
    }

    /** Moves a slot to the most or least recently used end by splicing it out and back in. */
    method RecentlyUsed(p: nat, most: bool)
      requires Valid() && p < n
      modifies this, prev, next
      ensures Valid() && order == Moved(old(order), p, most)
    {
      MovedPermutation(order, n, p, most);
      Spliced(prev[..], next[..], order, p, most);
      hide Linked, Permutation, Moved;
      ghost var moved := Moved(order, p, most);
      Unlink(p);
      LinkBeforeLru(p);
      if !most {
        lru := prev[lru];
      }
      order := moved;
    }
  }
}
