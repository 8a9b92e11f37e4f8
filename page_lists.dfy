/** List operations shared by every page-replacement engine: the Python list
    built-ins the engines call (`in`, `index`, `remove`, `max` with a key),
    and the notions of last reference and next use on a reference string. */
module PageLists {

  /** No page occupies two frame slots. */
  predicate NoDups(s: seq<int>)
  {
    forall j, k :: 0 <= j < k < |s| ==> s[j] != s[k]
  }

  function Min(a: int, b: int): int
  {
    if a <= b then a else b
  }

  /** Python's `list.index(x)`: the position of the first occurrence of `x`
      (the built-in raises ValueError when `x` is absent). */
  function IndexOf(s: seq<int>, x: int): (k: nat)
    requires x in s
    ensures k < |s| && s[k] == x
  {
    if s[0] == x then 0 else 1 + IndexOf(s[1..], x)
  }

  /** `index` finds the first occurrence: no earlier entry holds `x`. */
  lemma {:induction false} IndexOfFirst(s: seq<int>, x: int)
    requires x in s
    ensures forall j :: 0 <= j < IndexOf(s, x) ==> s[j] != x
  {
    if s[0] != x {
      IndexOfFirst(s[1..], x);
    }
  }

  /** In a duplicate-free list, `index` finds the slot a page occupies. */
  lemma IndexOfSlot(s: seq<int>, j: nat)
    requires NoDups(s) && j < |s|
    ensures IndexOf(s, s[j]) == j
  {
    IndexOfFirst(s, s[j]);
  }

  /** Python's `list.remove(x)`: drop the first occurrence of `x` and keep the
      order of everything else. */
  function RemoveFirst(s: seq<int>, x: int): (r: seq<int>)
    requires x in s
    ensures |r| == |s| - 1
  {
    s[..IndexOf(s, x)] + s[IndexOf(s, x) + 1..]
  }

  /** `remove(x)` keeps the survivors in their order: entries before the
      first `x` stay put and those after it move one place forward. */
  lemma RemoveFirstOrder(s: seq<int>, x: int)
    requires x in s
    ensures forall j :: 0 <= j < |RemoveFirst(s, x)| ==>
      RemoveFirst(s, x)[j] == s[if j < IndexOf(s, x) then j else j + 1]
  {
  }

  /** `remove(x)` takes exactly one `x` away and nothing else. */
  lemma RemoveFirstContents(s: seq<int>, x: int)
    requires x in s
    ensures multiset(RemoveFirst(s, x)) + multiset{x} == multiset(s)
  {
    var k, r := IndexOf(s, x), RemoveFirst(s, x);
    var front, back := s[..k], s[k + 1..];
    assert r == front + back;
    assert s == front + ([x] + back);
    calc {
      multiset(s);
      multiset(front) + multiset([x] + back);
      multiset(front) + (multiset{x} + multiset(back));
      multiset(r) + multiset{x};
    }
  }

  /** `remove(x)` followed by `append(x)` moves `x` to the back: the list
      keeps its length, its pages and their distinctness. */
  lemma MoveToBack(s: seq<int>, x: int)
    requires NoDups(s) && x in s
    ensures |RemoveFirst(s, x) + [x]| == |s|
    ensures NoDups(RemoveFirst(s, x) + [x])
    ensures forall q :: q in RemoveFirst(s, x) + [x] <==> q in s
  {
    var k := IndexOf(s, x);
    var r := RemoveFirst(s, x) + [x];
    assert forall j :: 0 <= j < |r| ==> r[j] == s[Moved(j, k, |s|)];
    forall a, b | 0 <= a < b < |r|
      ensures r[a] != r[b]
    {
      assert Moved(a, k, |s|) != Moved(b, k, |s|);
    }
    forall q | q in s
      ensures q in r
    {
      var j :| 0 <= j < |s| && s[j] == q;
      assert r[if j < k then j else if j > k then j - 1 else |r| - 1] == q;
    }
  }

  /** Where entry `j` of a list with `n` entries came from once the entry at
      `k` has been moved to the back. */
  function Moved(j: int, k: int, n: int): int
  {
    if j < k then j else if j < n - 1 then j + 1 else k
  }

  /** `remove(x)` keeps every page other than `x`. */
  lemma RemoveFirstKeeps(s: seq<int>, x: int, q: int)
    requires x in s && q in s && q != x
    ensures q in RemoveFirst(s, x)
  {
    var k := IndexOf(s, x);
    var j :| 0 <= j < |s| && s[j] == q;
    if j < k {
      assert RemoveFirst(s, x)[j] == q;
    } else {
      assert RemoveFirst(s, x)[j - 1] == q;
    }
  }

  /** Pigeonhole: a duplicate-free list whose pages all occur in `t` is no
      longer than `t`, and strictly shorter when `t` holds a page `x` it
      lacks. */
  lemma {:induction false} SubsetLength(s: seq<int>, t: seq<int>, x: int)
    requires NoDups(s) && forall q :: q in s ==> q in t
    ensures |s| <= |t|
    ensures x in t && x !in s ==> |s| < |t|
    decreases |s|
  {
    if |s| > 0 {
      var t' := RemoveFirst(t, s[0]);
      forall q | q in s[1..]
        ensures q in t'
      {
        RemoveFirstKeeps(t, s[0], q);
      }
      if x in t && x !in s {
        RemoveFirstKeeps(t, s[0], x);
      }
      SubsetLength(s[1..], t', x);
    }
  }

  /** The last position of `s` holding `p`, or -1 when `p` never occurs: the
      step at which page `p` was last referenced. */
  function LastRef(s: seq<int>, p: int): (k: int)
    ensures -1 <= k < |s|
    ensures k >= 0 ==> s[k] == p
    decreases |s|
  {
    if |s| == 0 then -1
    else if s[|s| - 1] == p then |s| - 1
    else LastRef(s[..|s| - 1], p)
  }

  /** No later entry holds `p`; in particular -1 means `p` never occurs. */
  lemma {:induction false} LastRefIsLast(s: seq<int>, p: int)
    ensures forall j :: LastRef(s, p) < j < |s| ==> s[j] != p
    decreases |s|
  {
    if |s| > 0 && s[|s| - 1] != p {
      LastRefIsLast(s[..|s| - 1], p);
    }
  }

  /** Referencing `x` makes it the most recent page and leaves the last
      reference of every other page where it was. */
  lemma {:induction false} LastRefSnoc(s: seq<int>, x: int, p: int)
    ensures LastRef(s + [x], p) == if p == x then |s| else LastRef(s, p)
  {
    assert (s + [x])[..|s|] == s;
  }

  /** Two different pages were last referenced at different steps. */
  lemma LastRefDistinct(s: seq<int>, p: int, q: int)
    requires p != q && LastRef(s, p) >= 0
    ensures LastRef(s, p) != LastRef(s, q)
  {
  }

  /** The next use of a resident page: an index, or never (Python's
      `float('inf')`, which compares above every index). */
  datatype NextUse = At(index: nat) | Never

  /** `a` lies strictly later than `b`: the `>` of the `future_use` values. */
  predicate Later(a: NextUse, b: NextUse)
  {
    match a
    case Never => b.At?
    case At(x) => b.At? && x > b.index
  }

  /** `pages[i+1:].index(p)` when `p` occurs after step `i`, otherwise never. */
  function NextUseAfter(pages: seq<int>, i: nat, p: int): (u: NextUse)
    requires i < |pages|
    ensures u.Never? <==> p !in pages[i + 1..]
    ensures u.At? ==> i + 1 + u.index < |pages| && pages[i + 1 + u.index] == p
  {
    if p in pages[i + 1..] then At(IndexOf(pages[i + 1..], p)) else Never
  }

  /** The next use is the nearest one: `p` is not referenced strictly
      between step `i` and it. */
  lemma NextUseIsNext(pages: seq<int>, i: nat, p: int)
    requires i < |pages|
    ensures var u := NextUseAfter(pages, i, p);
      u.At? ==> forall j :: i < j < i + 1 + u.index ==> pages[j] != p
  {
    if p in pages[i + 1..] {
      var d := IndexOf(pages[i + 1..], p);
      IndexOfFirst(pages[i + 1..], p);
      assert forall j :: i < j < i + 1 + d ==> pages[j] == pages[i + 1..][j - i - 1];
    }
  }

  /** Adds `d` to every finite next use, as turning an index into
      `pages[i+1:]` into an absolute step number does. */
  function Shift(u: NextUse, d: nat): NextUse
  {
    match u
    case Never => Never
    case At(x) => At(x + d)
  }

  /** Python's `max(future_use, key=future_use.get)` over a dict whose keys
      come in slot order: the scan keeps the current best and moves on only
      to a strictly later value, so the result is the FIRST maximal slot. */
  function Farthest(uses: seq<NextUse>): (v: nat)
    requires |uses| > 0
    ensures v < |uses|
    decreases |uses|
  {
    if |uses| == 1 then 0
    else
      var b := Farthest(uses[..|uses| - 1]);
      if Later(uses[|uses| - 1], uses[b]) then |uses| - 1 else b
  }

  /** `Farthest` picks the first maximal slot: every earlier slot's next use
      is strictly nearer, and no later slot's is strictly farther. */
  lemma {:induction false} FarthestIsFirstMax(uses: seq<NextUse>)
    requires |uses| > 0
    ensures forall j :: 0 <= j < Farthest(uses) ==> Later(uses[Farthest(uses)], uses[j])
    ensures forall j :: Farthest(uses) < j < |uses| ==> !Later(uses[j], uses[Farthest(uses)])
    decreases |uses|
  {
    if |uses| > 1 {
      var front := uses[..|uses| - 1];
      FarthestIsFirstMax(front);
      assert forall j :: 0 <= j < |front| ==> front[j] == uses[j];
    }
  }

  /** Shifting every next use by the same amount does not move the maximum:
      absolute and relative indices pick the same victim slot. */
  lemma {:induction false} FarthestShift(uses: seq<NextUse>, shifted: seq<NextUse>, d: nat)
    requires |uses| > 0 && |shifted| == |uses|
    requires forall j :: 0 <= j < |uses| ==> shifted[j] == Shift(uses[j], d)
    ensures Farthest(shifted) == Farthest(uses)
  {
    var v, w := Farthest(uses), Farthest(shifted);
    FarthestIsFirstMax(uses);
    FarthestIsFirstMax(shifted);
    assert forall a, b :: Later(Shift(a, d), Shift(b, d)) == Later(a, b);
  }

  /** The Belady victim rule that `Farthest` realises: when some page never
      recurs the victim is the first such page in slot order; otherwise no
      page's next use comes later than the victim's. */
  lemma FarthestIsBelady(uses: seq<NextUse>)
    requires |uses| > 0
    ensures var v := Farthest(uses);
      ((exists j :: 0 <= j < |uses| && uses[j].Never?) ==>
         uses[v].Never? && forall j :: 0 <= j < v ==> uses[j].At?) &&
      ((forall j :: 0 <= j < |uses| ==> uses[j].At?) ==>
         uses[v].At? && forall j :: 0 <= j < |uses| ==> uses[j].index <= uses[v].index)
  {
    FarthestIsFirstMax(uses);
  }

  /** Belady's victim rule for slot `v` of the residents `fl`, with `rest`
      the references still to come: when some resident never recurs, `v`
      holds the first such resident in slot order; otherwise every other
      resident recurs before the one in `v`. */
  predicate BeladyVictim(fl: seq<int>, rest: seq<int>, v: nat)
    requires v < |fl|
  {
    ((exists j :: 0 <= j < |fl| && fl[j] !in rest) ==>
       fl[v] !in rest && forall j :: 0 <= j < v ==> fl[j] in rest) &&
    ((forall j :: 0 <= j < |fl| ==> fl[j] in rest) ==>
       forall j :: 0 <= j < |fl| && j != v ==> IndexOf(rest, fl[j]) < IndexOf(rest, fl[v]))
  }

  /** Overwriting slot `v` of `before` with `page` gives `after`, and `v`
      obeys Belady's victim rule on the references `rest` still to come. */
  predicate BeladyEviction(before: seq<int>, after: seq<int>, page: int, rest: seq<int>, v: nat)
  {
    v < |before| && after == before[v := page] && BeladyVictim(before, rest, v)
  }

  /** Evicting the slot whose next use is farthest away is Belady's rule:
      when `uses` holds every resident's next use after step `i` (shifted
      by `d`), `Farthest` picks a `BeladyVictim` for `pages[i+1..]`. */
  lemma FarthestIsBeladyVictim(pages: seq<int>, i: nat, frameList: seq<int>, uses: seq<NextUse>, d: nat)
    requires i < |pages| && |frameList| > 0 && NoDups(frameList) && |uses| == |frameList|
    requires forall j :: 0 <= j < |frameList| ==> uses[j] == Shift(NextUseAfter(pages, i, frameList[j]), d)
    ensures BeladyVictim(frameList, pages[i + 1..], Farthest(uses))
  {
    var rest, v := pages[i + 1..], Farthest(uses);
    FarthestIsBelady(uses);
    forall j | 0 <= j < |frameList|
      ensures uses[j].Never? <==> frameList[j] !in rest
    {
    }
    if forall j :: 0 <= j < |frameList| ==> frameList[j] in rest {
      forall j | 0 <= j < |frameList| && j != v
        ensures IndexOf(rest, frameList[j]) < IndexOf(rest, frameList[v])
      {
        assert uses[j].index <= uses[v].index;
        assert frameList[j] != frameList[v];
      }
    }
  }

  /** Replacing a resident by a page that is not resident keeps the slots
      distinct; the residents are the old ones less the victim, plus the
      newcomer. */
  lemma ReplaceSlot(s: seq<int>, v: nat, x: int)
    requires NoDups(s) && v < |s| && x !in s
    ensures NoDups(s[v := x])
    ensures forall q :: q in s[v := x] <==> q == x || (q in s && q != s[v])
  {
    forall q | q in s && q != s[v]
      ensures q in s[v := x]
    {
      var j :| 0 <= j < |s| && s[j] == q;
      assert s[v := x][j] == q;
    }
    forall q | q in s[v := x]
      ensures q == x || (q in s && q != s[v])
    {
      var j :| 0 <= j < |s| && s[v := x][j] == q;
      assert j != v ==> s[j] == q;
    }
    assert s[v := x][v] == x;
  }

  /** `k * f` is at least `f` away from 0 once `k` is. */
  lemma {:induction false} MulBound(k: int, f: int)
    requires f >= 0
    ensures k >= 1 ==> k * f >= f
    ensures k <= -1 ==> k * f <= -f
    decreases if k < 0 then -k else k
  {
    if k > 1 {
      MulBound(k - 1, f);
      assert k * f == (k - 1) * f + f;
    } else if k < -1 {
      MulBound(k + 1, f);
      assert k * f == (k + 1) * f - f;
    }
  }

  /** The remainder is determined by any quotient-remainder split. */
  lemma ModUnique(a: nat, f: nat, q: nat, r: nat)
    requires f >= 1 && r < f && a == q * f + r
    ensures a % f == r
  {
    var q', r' := a / f, a % f;
    assert (q - q') * f == q * f - q' * f;
    MulBound(q - q', f);
  }

  /** A non-empty set has an element: the fact a `:|` choice needs. */
  lemma SomeElement(s: set<int>)
    requires s != {}
    ensures exists x :: x in s
  {
    if forall y :: y !in s {
      // then `s` and `{}` have the same elements
    }
  }

  /** A cursor on slot `c` of `f` slots, advanced modulo `f`, moves one slot
      on and wraps from the last slot to 0. */
  lemma ModWrap(c: nat, f: nat)
    requires c < f
    ensures (c + 1) % f == if c + 1 == f then 0 else c + 1
  {
    if c + 1 < f {
      ModUnique(c + 1, f, 0, c + 1);
    } else {
      ModUnique(c + 1, f, 1, 0);
    }
  }

  /** Advancing a cursor that sits at `a mod f` by one, modulo `f`, puts it at
      `(a + 1) mod f`. */
  lemma ModNext(a: nat, f: nat)
    requires f >= 1
    ensures (a % f + 1) % f == (a + 1) % f
  {
    var q, r := a / f, a % f;
    assert a == q * f + r;
    if r + 1 < f {
      ModUnique(a + 1, f, q, r + 1);
      ModUnique(r + 1, f, 0, r + 1);
    } else {
      assert a + 1 == (q + 1) * f + 0;
      ModUnique(a + 1, f, q + 1, 0);
      ModUnique(r + 1, f, 1, 0);
    }
  }
}
