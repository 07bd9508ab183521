/**
 * Counting the cells of a rectangular board that satisfy a property. The
 * Minesweeper win check, its flag counter and the Sudoku carving loop all
 * count cells; their contracts are stated with `Count`, and the lemmas here
 * say how a count changes when one cell is overwritten.
 */
module Counting {

  /** 1 when b holds, 0 otherwise. */
  function Ind(b: bool): nat {
    if b then 1 else 0
  }

  /** The number of elements of s that satisfy p. */
  function CountIn<T>(s: seq<T>, p: T -> bool): (n: nat)
    ensures n <= |s|
  {
    if |s| == 0 then 0 else CountIn(s[..|s| - 1], p) + Ind(p(s[|s| - 1]))
  }

  /** The number of cells of g that satisfy p. */
  function Count<T>(g: seq<seq<T>>, p: T -> bool): nat
  {
    if |g| == 0 then 0 else Count(g[..|g| - 1], p) + CountIn(g[|g| - 1], p)
  }

  /** The number of cells of g. */
  function Size<T>(g: seq<seq<T>>): nat
  {
    if |g| == 0 then 0 else Size(g[..|g| - 1]) + |g[|g| - 1]|
  }

  /** Every row of g has w cells. */
  predicate IsRect<T>(g: seq<seq<T>>, w: nat) {
    forall r :: 0 <= r < |g| ==> |g[r]| == w
  }

  /** Extending a prefix by one element adds that element's contribution. */
  lemma CountInStep<T>(s: seq<T>, i: nat, p: T -> bool)
    requires i < |s|
    ensures CountIn(s[..i + 1], p) == CountIn(s[..i], p) + Ind(p(s[i]))
  {
    assert s[..i + 1][..i] == s[..i];
  }

  /** Extending a prefix of rows by one row adds that row's count. */
  lemma CountStep<T>(g: seq<seq<T>>, r: nat, p: T -> bool)
    requires r < |g|
    ensures Count(g[..r + 1], p) == Count(g[..r], p) + CountIn(g[r], p)
  {
    assert g[..r + 1][..r] == g[..r];
  }

  /** Overwriting element i changes the count by the difference of the two contributions. */
  lemma {:induction false} CountInUpdate<T>(s: seq<T>, i: nat, x: T, p: T -> bool)
    requires i < |s|
    ensures CountIn(s[i := x], p) + Ind(p(s[i])) == CountIn(s, p) + Ind(p(x))
  {
    var t := s[i := x];
    if i < |s| - 1 {
      assert t[..|t| - 1] == s[..|s| - 1][i := x];
      CountInUpdate(s[..|s| - 1], i, x, p);
    } else {
      assert t[..|t| - 1] == s[..|s| - 1];
    }
  }

  /** Overwriting cell (r, c) changes the count by the difference of the two contributions. */
  lemma {:induction false} CountUpdate<T>(g: seq<seq<T>>, r: nat, c: nat, x: T, p: T -> bool)
    requires r < |g| && c < |g[r]|
    ensures Count(g[r := g[r][c := x]], p) + Ind(p(g[r][c])) == Count(g, p) + Ind(p(x))
  {
    var h := g[r := g[r][c := x]];
    if r < |g| - 1 {
      assert h[..|h| - 1] == g[..|g| - 1][r := g[r][c := x]];
      CountUpdate(g[..|g| - 1], r, c, x, p);
    } else {
      assert h[..|h| - 1] == g[..|g| - 1];
      CountInUpdate(g[r], c, x, p);
    }
  }

  /** A count is zero exactly when no element satisfies the property. */
  lemma {:induction false} CountInNone<T>(s: seq<T>, p: T -> bool)
    ensures CountIn(s, p) == 0 <==> forall i :: 0 <= i < |s| ==> !p(s[i])
  {
    if |s| > 0 {
      CountInNone(s[..|s| - 1], p);
      assert forall i :: 0 <= i < |s| - 1 ==> s[..|s| - 1][i] == s[i];
    }
  }

  /** A board count is zero exactly when no cell satisfies the property. */
  lemma {:induction false} CountNone<T>(g: seq<seq<T>>, p: T -> bool)
    ensures Count(g, p) == 0 <==> forall r, c :: 0 <= r < |g| && 0 <= c < |g[r]| ==> !p(g[r][c])
  {
    if |g| > 0 {
      CountNone(g[..|g| - 1], p);
      CountInNone(g[|g| - 1], p);
      assert forall r :: 0 <= r < |g| - 1 ==> g[..|g| - 1][r] == g[r];
    }
  }

  /** When every element satisfies exactly one of p, q and t, their counts add up to the length. */
  lemma {:induction false} CountInPartition<T>(s: seq<T>, p: T -> bool, q: T -> bool, t: T -> bool)
    requires forall x :: Ind(p(x)) + Ind(q(x)) + Ind(t(x)) == 1
    ensures CountIn(s, p) + CountIn(s, q) + CountIn(s, t) == |s|
  {
    if |s| > 0 {
      CountInPartition(s[..|s| - 1], p, q, t);
      assert Ind(p(s[|s| - 1])) + Ind(q(s[|s| - 1])) + Ind(t(s[|s| - 1])) == 1;
    }
  }

  /** When every cell satisfies exactly one of p, q and t, their counts add up to the size. */
  lemma {:induction false} CountPartition<T>(g: seq<seq<T>>, p: T -> bool, q: T -> bool, t: T -> bool)
    requires forall x :: Ind(p(x)) + Ind(q(x)) + Ind(t(x)) == 1
    ensures Count(g, p) + Count(g, q) + Count(g, t) == Size(g)
  {
    if |g| > 0 {
      CountPartition(g[..|g| - 1], p, q, t);
      CountInPartition(g[|g| - 1], p, q, t);
    }
  }

  /** A board of n rows of w cells has n * w cells. */
  lemma {:induction false} SizeRect<T>(g: seq<seq<T>>, w: nat)
    requires IsRect(g, w)
    ensures Size(g) == |g| * w
  {
    if |g| > 0 {
      assert IsRect(g[..|g| - 1], w);
      SizeRect(g[..|g| - 1], w);
      assert Size(g) == (|g| - 1) * w + w;
    }
  }

  /** When p holds of each element of s exactly when q holds of the matching element of t, the counts agree. */
  lemma {:induction false} CountInSame<T>(s: seq<T>, t: seq<T>, p: T -> bool, q: T -> bool)
    requires |s| == |t|
    requires forall i :: 0 <= i < |s| ==> p(s[i]) == q(t[i])
    ensures CountIn(s, p) == CountIn(t, q)
  {
    if |s| > 0 {
      CountInSame(s[..|s| - 1], t[..|t| - 1], p, q);
    }
  }

  /** When p holds of each cell of g exactly when q holds of the matching cell of h, the counts agree. */
  lemma {:induction false} CountSame<T>(g: seq<seq<T>>, h: seq<seq<T>>, p: T -> bool, q: T -> bool)
    requires |g| == |h|
    requires forall r :: 0 <= r < |g| ==> |g[r]| == |h[r]|
    requires forall r, c :: 0 <= r < |g| && 0 <= c < |g[r]| ==> p(g[r][c]) == q(h[r][c])
    ensures Count(g, p) == Count(h, q)
  {
    if |g| > 0 {
      CountSame(g[..|g| - 1], h[..|h| - 1], p, q);
      CountInSame(g[|g| - 1], h[|h| - 1], p, q);
    }
  }

  /** Adding an element to a set adds one to its size unless it was already there. */
  lemma CardAddOne<T>(a: set<T>, x: T)
    ensures |a + {x}| == if x in a then |a| else |a| + 1
  {
    if x in a {
      assert a + {x} == a;
    }
  }
}
