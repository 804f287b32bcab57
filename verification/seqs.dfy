/**
  Generic sequence operations the analyser relies on: Python slicing and
  `str.split`, counting, first-occurrence de-duplication, lexicographic
  comparison (Python's `<` on `str` and on `list`) and the minimum and maximum
  that `sorted(...)[0]` and `sorted(...)[-1]` pick.
 */
module Seqs {
  import opened Wrappers

  /** Python's `s[:n]`: the first `n` elements, or all of them when there are fewer. */
  function Take<T>(s: seq<T>, n: nat): (r: seq<T>)
    ensures |r| == if |s| < n then |s| else n
    ensures r <= s
  {
    if |s| <= n then s else s[..n]
  }

  /** Python's `s[-1]`. */
  function Last<T>(s: seq<T>): T
    requires |s| > 0
  {
    s[|s| - 1]
  }

  /** Python's `s.split(sep)` with an explicit one-character separator: empty fields are kept. */
  function Split(s: string, sep: char): (parts: seq<string>)
    ensures |parts| >= 1
    ensures forall i :: 0 <= i < |parts| ==> sep !in parts[i]
    decreases |s|
  {
    if s == [] then [[]]
    else
      var rest := Split(s[1..], sep);
      if s[0] == sep then [[]] + rest else [[s[0]] + rest[0]] + rest[1..]
  }

  /** The inverse of `Split`: the fields glued back together with the separator. */
  function Join(parts: seq<string>, sep: char): string
    decreases |parts|
  {
    if parts == [] then []
    else if |parts| == 1 then parts[0]
    else parts[0] + [sep] + Join(parts[1..], sep)
  }

  lemma {:induction false} JoinSplit(s: string, sep: char)
    ensures Join(Split(s, sep), sep) == s
    decreases |s|
  {
    if s != [] {
      var rest := Split(s[1..], sep);
      JoinSplit(s[1..], sep);
      if s[0] == sep {
        assert Split(s, sep) == [[]] + rest;
        assert Join([[]] + rest, sep) == [] + [sep] + Join(rest, sep);
        assert s == [sep] + s[1..];
      } else {
        var parts := [[s[0]] + rest[0]] + rest[1..];
        assert Split(s, sep) == parts;
        if |rest| == 1 {
          assert Join(parts, sep) == [s[0]] + rest[0];
          assert Join(rest, sep) == rest[0];
        } else {
          assert parts[1..] == rest[1..];
          assert Join(parts, sep) == [s[0]] + rest[0] + [sep] + Join(rest[1..], sep);
          assert Join(rest, sep) == rest[0] + [sep] + Join(rest[1..], sep);
        }
        assert s == [s[0]] + s[1..];
      }
    }
  }

  /** Text without the separator splits into itself alone. */
  lemma {:induction false} SplitNone(s: string, sep: char)
    requires sep !in s
    ensures Split(s, sep) == [s]
    decreases |s|
  {
    if s != [] {
      SplitNone(s[1..], sep);
      assert s == [s[0]] + s[1..];
    }
  }

  /** The first separator ends the first field. */
  lemma {:induction false} SplitFirst(a: string, sep: char, rest: string)
    requires sep !in a
    ensures Split(a + [sep] + rest, sep) == [a] + Split(rest, sep)
    decreases |a|
  {
    var s := a + [sep] + rest;
    if a == [] {
      assert s[1..] == rest;
    } else {
      assert s[1..] == a[1..] + [sep] + rest;
      SplitFirst(a[1..], sep, rest);
      assert a == [a[0]] + a[1..];
    }
  }

  /** How many times `x` occurs in `xs` (what `collections.Counter` records). */
  function Count<T(==)>(xs: seq<T>, x: T): (n: nat)
    ensures n <= |xs|
    ensures n == 0 <==> x !in xs
    decreases |xs|
  {
    if xs == [] then 0
    else Count(xs[..|xs| - 1], x) + (if xs[|xs| - 1] == x then 1 else 0)
  }

  function Sum(xs: seq<nat>): nat
    decreases |xs|
  {
    if xs == [] then 0 else Sum(xs[..|xs| - 1]) + xs[|xs| - 1]
  }

  /** One count per key, in key order: `[counts.get(k, 0) for k in keys]`. */
  function CountsFor<T(==)>(xs: seq<T>, keys: seq<T>): (r: seq<nat>)
    ensures |r| == |keys|
    ensures forall i :: 0 <= i < |keys| ==> r[i] == Count(xs, keys[i])
    decreases |keys|
  {
    if keys == [] then []
    else CountsFor(xs, keys[..|keys| - 1]) + [Count(xs, keys[|keys| - 1])]
  }

  /** The present values, in order: `[y for y in ys if y is not None]`. */
  function Somes<T>(xs: seq<Option<T>>): (r: seq<T>)
    ensures |r| <= |xs|
    ensures r == [] <==> forall i :: 0 <= i < |xs| ==> xs[i].None?
    decreases |xs|
  {
    if xs == [] then []
    else
      var init := xs[..|xs| - 1];
      assert forall i :: 0 <= i < |init| ==> init[i] == xs[i];
      match xs[|xs| - 1]
      case None => Somes(init)
      case Some(x) => Somes(init) + [x]
  }

  /** Dropping the absent values keeps every present value's count. */
  lemma {:induction false} CountSomes<T>(xs: seq<Option<T>>, x: T)
    ensures Count(Somes(xs), x) == Count(xs, Some(x))
    decreases |xs|
  {
    if xs != [] {
      var init := xs[..|xs| - 1];
      CountSomes(init, x);
      match xs[|xs| - 1]
      case None =>
      case Some(y) =>
        assert (Somes(init) + [y])[..|Somes(init)|] == Somes(init);
    }
  }

  /** When every value is present, nothing is dropped. */
  lemma {:induction false} SomesAll<T>(xs: seq<Option<T>>)
    requires forall i :: 0 <= i < |xs| ==> xs[i].Some?
    ensures |Somes(xs)| == |xs|
    ensures forall i :: 0 <= i < |xs| ==> Somes(xs)[i] == xs[i].value
    decreases |xs|
  {
    if xs != [] {
      var init := xs[..|xs| - 1];
      assert forall i :: 0 <= i < |init| ==> init[i] == xs[i];
      SomesAll(init);
    }
  }

  predicate NoDuplicates<T(==)>(xs: seq<T>) {
    forall i, j :: 0 <= i < j < |xs| ==> xs[i] != xs[j]
  }

  /** Keep each element the first time it is seen: `if x not in out: out.append(x)`. */
  function Dedup<T(==)>(xs: seq<T>): (r: seq<T>)
    ensures |r| <= |xs|
    decreases |xs|
  {
    if xs == [] then [] else AddNew(Dedup(xs[..|xs| - 1]), xs[|xs| - 1])
  }

  /** `if x not in xs: xs.append(x)` */
  function AddNew<T(==)>(xs: seq<T>, x: T): (r: seq<T>)
    ensures |r| == if x in xs then |xs| else |xs| + 1
  {
    if x in xs then xs else xs + [x]
  }

  /** De-duplicating one more element adds it if it is new. */
  lemma DedupSnoc<T>(xs: seq<T>, x: T)
    ensures Dedup(xs + [x]) == AddNew(Dedup(xs), x)
  {
    assert (xs + [x])[..|xs|] == xs;
  }

  /** `Dedup` keeps exactly the distinct elements: no repeats, nothing new,
      nothing lost. */
  lemma {:induction false} DedupSpec<T>(xs: seq<T>)
    ensures NoDuplicates(Dedup(xs))
    ensures forall i :: 0 <= i < |Dedup(xs)| ==> Dedup(xs)[i] in xs
    ensures forall i :: 0 <= i < |xs| ==> xs[i] in Dedup(xs)
    decreases |xs|
  {
    if xs != [] {
      var init := xs[..|xs| - 1];
      var x := xs[|xs| - 1];
      DedupSpec(init);
      assert xs == init + [x];
      var d := Dedup(init);
      assert forall i :: 0 <= i < |init| ==> init[i] in xs;
      if x !in d {
        assert d + [x] == Dedup(xs);
        assert forall i :: 0 <= i < |d| ==> (d + [x])[i] == d[i];
      }
    }
  }

  /** `f` at `lo, lo + 1, ..., lo + n - 1`. */
  function Run<T>(f: int -> T, lo: int, n: nat): (r: seq<T>)
    ensures |r| == n && forall j :: 0 <= j < n ==> r[j] == f(lo + j)
  {
    seq(n, j requires 0 <= j < n => f(lo + j))
  }

  /** Dropping the first `k` values of a run leaves the run from `lo + k`. */
  lemma RunSuffix<T>(f: int -> T, lo: int, n: nat, k: nat)
    requires k <= n
    ensures Run(f, lo, n)[k..] == Run(f, lo + k, n - k)
  {
    assert forall j :: 0 <= j < n - k ==> Run(f, lo, n)[k..][j] == f(lo + k + j);
  }

  lemma RunSnoc<T>(f: int -> T, lo: int, n: nat)
    ensures Run(f, lo, n) + [f(lo + n)] == Run(f, lo, n + 1)
  {
  }

  /** An `f` that `g` undoes does not revisit a value past the end of a run. */
  lemma RunExcludes<T>(f: int -> T, g: T -> int, lo: int, n: nat, k: int)
    requires forall a :: g(f(a)) == a
    requires k >= lo + n
    ensures f(k) !in Run(f, lo, n)
  {
    var r := Run(f, lo, n);
    forall j | 0 <= j < n
      ensures r[j] != f(k)
    {
      assert r[j] == f(lo + j);
    }
  }

  /** Adding `f(k)` to a run that ends at `k` or just before `k` runs on to `k`. */
  lemma RunAddNew<T>(f: int -> T, g: T -> int, lo: int, n: nat, k: int)
    requires forall a :: g(f(a)) == a
    requires n >= 1 && lo + n - 1 <= k <= lo + n
    ensures AddNew(Run(f, lo, n), f(k)) == Run(f, lo, k - lo + 1)
  {
    var d := Run(f, lo, n);
    if k == lo + n - 1 {
      assert d[n - 1] == f(k);
    } else {
      RunExcludes(f, g, lo, n, k);
      RunSnoc(f, lo, n);
    }
  }

  /** If the de-duplicated prefix is a run, one more value at or just past its end extends it. */
  lemma DedupRunExtends<T>(m: seq<T>, f: int -> T, g: T -> int, lo: int, n: nat, k: int)
    requires forall a :: g(f(a)) == a
    requires Dedup(m) == Run(f, lo, n)
    requires n >= 1 && lo + n - 1 <= k <= lo + n
    ensures Dedup(m + [f(k)]) == Run(f, lo, k - lo + 1)
  {
    DedupSnoc(m, f(k));
    RunAddNew(f, g, lo, n, k);
  }

  /** Values `f(idx[i])` whose numbers `idx` climb by steps of 0 or 1,
      de-duplicated, are `f` at every number from the first to the last, once
      each; `g` undoing `f` is what makes `f` injective. */
  lemma {:induction false} DedupSteps<T>(xs: seq<T>, idx: seq<int>, f: int -> T, g: T -> int)
    requires |xs| == |idx| > 0
    requires forall i :: 0 <= i < |xs| ==> xs[i] == f(idx[i])
    requires forall i, j :: 0 <= i < |idx| && 0 <= j < |idx| && j == i + 1 ==> idx[i] <= idx[j] <= idx[i] + 1
    requires forall a :: g(f(a)) == a
    ensures idx[0] <= idx[|idx| - 1]
    ensures Dedup(xs) == Run(f, idx[0], idx[|idx| - 1] - idx[0] + 1)
    decreases |xs|
  {
    var last := |xs| - 1;
    if last == 0 {
      assert xs == [] + [f(idx[0])];
      DedupSnoc([], f(idx[0]));
    } else {
      var init, lower := xs[..last], idx[..last];
      DedupSteps(init, lower, f, g);
      assert idx[last - 1] <= idx[last] <= idx[last - 1] + 1;
      assert xs == init + [f(idx[last])];
      DedupRunExtends(init, f, g, idx[0], idx[last - 1] - idx[0] + 1, idx[last]);
    }
  }

  /** Python's lexicographic `<` on sequences, given the element order `lt`:
      the first differing position decides, and a proper prefix is smaller. */
  predicate Lex<T(==)>(a: seq<T>, b: seq<T>, lt: (T, T) -> bool)
    decreases |a|
  {
    if a == [] then b != []
    else if b == [] then false
    else if a[0] == b[0] then Lex(a[1..], b[1..], lt)
    else lt(a[0], b[0])
  }

  predicate CharLt(x: char, y: char) { x < y }

  /** Python's `<` on `str` (code-point order). */
  predicate StrLt(a: string, b: string) { Lex(a, b, CharLt) }

  /** Python's `<` on a `list` of `str`. */
  predicate ListLt(a: seq<string>, b: seq<string>) { Lex(a, b, StrLt) }

  ghost predicate Transitive<T(!new)>(lt: (T, T) -> bool) {
    forall a, b, c :: lt(a, b) && lt(b, c) ==> lt(a, c)
  }

  ghost predicate Irreflexive<T(!new)>(lt: (T, T) -> bool) {
    forall a :: !lt(a, a)
  }

  lemma {:induction false} LexIrreflexive<T>(a: seq<T>, lt: (T, T) -> bool)
    ensures !Lex(a, a, lt)
    decreases |a|
  {
    if a != [] {
      LexIrreflexive(a[1..], lt);
    }
  }

  lemma {:induction false} LexTransitiveAt<T(!new)>(a: seq<T>, b: seq<T>, c: seq<T>, lt: (T, T) -> bool)
    requires Transitive(lt) && Irreflexive(lt)
    requires Lex(a, b, lt) && Lex(b, c, lt)
    ensures Lex(a, c, lt)
    decreases |a|
  {
    if a != [] {
      assert b != [] && c != [];
      if a[0] == b[0] && b[0] == c[0] {
        LexTransitiveAt(a[1..], b[1..], c[1..], lt);
      } else if a[0] != b[0] && b[0] != c[0] {
        assert lt(a[0], c[0]);
      }
    }
  }

  lemma StrLtTransitive()
    ensures Transitive(StrLt) && Irreflexive(StrLt)
  {
    forall a: string, b: string, c: string | StrLt(a, b) && StrLt(b, c)
      ensures StrLt(a, c)
    {
      LexTransitiveAt(a, b, c, CharLt);
    }
    forall a: string ensures !StrLt(a, a) {
      LexIrreflexive(a, CharLt);
    }
  }

  lemma ListLtTransitive()
    ensures Transitive(ListLt) && Irreflexive(ListLt)
  {
    StrLtTransitive();
    forall a: seq<string>, b: seq<string>, c: seq<string> | ListLt(a, b) && ListLt(b, c)
      ensures ListLt(a, c)
    {
      LexTransitiveAt(a, b, c, StrLt);
    }
    forall a: seq<string> ensures !ListLt(a, a) {
      LexIrreflexive(a, StrLt);
    }
  }

  /** Comparing equal-length heads first: how `Lex` splits over concatenation. */
  lemma {:induction false} LexConcat<T>(a1: seq<T>, a2: seq<T>, b1: seq<T>, b2: seq<T>, lt: (T, T) -> bool)
    requires |a1| == |b1|
    ensures Lex(a1 + a2, b1 + b2, lt) <==> Lex(a1, b1, lt) || (a1 == b1 && Lex(a2, b2, lt))
    decreases |a1|
  {
    if a1 == [] {
      assert a1 + a2 == a2 && b1 + b2 == b2;
    } else {
      assert (a1 + a2)[1..] == a1[1..] + a2;
      assert (b1 + b2)[1..] == b1[1..] + b2;
      LexConcat(a1[1..], a2, b1[1..], b2, lt);
      if a1[0] != b1[0] {
        assert a1 != b1;
      } else {
        assert a1 == b1 <==> a1[1..] == b1[1..] by {
          if a1[1..] == b1[1..] {
            assert a1 == [a1[0]] + a1[1..] && b1 == [b1[0]] + b1[1..];
          }
        }
      }
    }
  }

  /** The element `sorted(xs)[0]` yields: one that nothing in `xs` is below. */
  function Least<T(!new)>(xs: seq<T>, lt: (T, T) -> bool): (r: T)
    requires |xs| > 0
    ensures r in xs
    ensures Transitive(lt) && Irreflexive(lt) ==> forall i :: 0 <= i < |xs| ==> !lt(xs[i], r)
    decreases |xs|
  {
    if |xs| == 1 then xs[0]
    else
      var m := Least(xs[1..], lt);
      assert forall i :: 1 <= i < |xs| ==> xs[i] == xs[1..][i - 1];
      if lt(xs[0], m) then xs[0] else m
  }

  /** The element `sorted(xs)[-1]` yields: one that nothing in `xs` is above. */
  function Greatest<T(!new)>(xs: seq<T>, lt: (T, T) -> bool): (r: T)
    requires |xs| > 0
    ensures r in xs
    ensures Transitive(lt) && Irreflexive(lt) ==> forall i :: 0 <= i < |xs| ==> !lt(r, xs[i])
    decreases |xs|
  {
    if |xs| == 1 then xs[0]
    else
      var m := Greatest(xs[1..], lt);
      assert forall i :: 1 <= i < |xs| ==> xs[i] == xs[1..][i - 1];
      if lt(m, xs[0]) then xs[0] else m
  }

  lemma {:induction false} SumCountsEmpty<T>(keys: seq<T>)
    ensures Sum(CountsFor([], keys)) == 0
    decreases |keys|
  {
    if keys != [] {
      SumCountsEmpty(keys[..|keys| - 1]);
    }
  }

  lemma {:induction false} SumCountsSnoc<T>(xs: seq<T>, x: T, keys: seq<T>)
    ensures Sum(CountsFor(xs + [x], keys)) == Sum(CountsFor(xs, keys)) + Count(keys, x)
    decreases |keys|
  {
    assert (xs + [x])[..|xs|] == xs;
    if keys != [] {
      SumCountsSnoc(xs, x, keys[..|keys| - 1]);
    }
  }

  lemma {:induction false} CountOfDistinct<T>(keys: seq<T>, x: T)
    requires NoDuplicates(keys) && x in keys
    ensures Count(keys, x) == 1
    decreases |keys|
  {
    var init := keys[..|keys| - 1];
    if keys[|keys| - 1] == x {
      assert x !in init;
    } else {
      assert keys == init + [keys[|keys| - 1]];
      CountOfDistinct(init, x);
    }
  }

  /** When every element of `xs` is one of the distinct `keys`, the per-key
      counts add up to `|xs|`: no element is lost or counted twice. */
  lemma {:induction false} SumCountsCovers<T>(xs: seq<T>, keys: seq<T>)
    requires NoDuplicates(keys)
    requires forall x :: x in xs ==> x in keys
    ensures Sum(CountsFor(xs, keys)) == |xs|
    decreases |xs|
  {
    if xs == [] {
      SumCountsEmpty(keys);
    } else {
      var init := xs[..|xs| - 1];
      var x := xs[|xs| - 1];
      assert xs == init + [x];
      SumCountsCovers(init, keys);
      SumCountsSnoc(init, x, keys);
      CountOfDistinct(keys, x);
    }
  }

  /** How many items of `xs` satisfy `p`: `sum(1 for x in xs if p(x))`. */
  function CountWhere<T>(xs: seq<T>, p: T -> bool): (n: nat)
    ensures n <= |xs|
    decreases |xs|
  {
    if xs == [] then 0 else CountWhere(xs[..|xs| - 1], p) + (if p(xs[|xs| - 1]) then 1 else 0)
  }

  /** Two tests that agree on every item count the same items. */
  lemma {:induction false} CountWhereSame<T>(xs: seq<T>, p: T -> bool, q: T -> bool)
    requires forall i :: 0 <= i < |xs| ==> p(xs[i]) == q(xs[i])
    ensures CountWhere(xs, p) == CountWhere(xs, q)
    decreases |xs|
  {
    if xs != [] {
      CountWhereSame(xs[..|xs| - 1], p, q);
    }
  }

  /** The per-key counts of distinct keys add up to the number of items that
      are among the keys: items outside them are dropped, and no item is
      counted twice. */
  lemma {:induction false} SumCountsIn<T>(xs: seq<T>, keys: seq<T>)
    requires NoDuplicates(keys)
    ensures Sum(CountsFor(xs, keys)) == CountWhere(xs, x => x in keys)
    decreases |xs|
  {
    if xs == [] {
      SumCountsEmpty(keys);
    } else {
      var init := xs[..|xs| - 1];
      var x := xs[|xs| - 1];
      assert xs == init + [x];
      SumCountsIn(init, keys);
      SumCountsSnoc(init, x, keys);
      if x in keys {
        CountOfDistinct(keys, x);
      }
    }
  }

  /** `sorted(texts)[0]` and `sorted(texts)[-1]` bound every text. */
  lemma StrExtremes(xs: seq<string>)
    requires |xs| > 0
    ensures forall i :: 0 <= i < |xs| ==> !StrLt(xs[i], Least(xs, StrLt)) && !StrLt(Greatest(xs, StrLt), xs[i])
  {
    StrLtTransitive();
  }

  /** `sorted(lists)[0]` and `sorted(lists)[-1]` bound every list of texts. */
  lemma ListExtremes(xs: seq<seq<string>>)
    requires |xs| > 0
    ensures forall i :: 0 <= i < |xs| ==> !ListLt(xs[i], Least(xs, ListLt)) && !ListLt(Greatest(xs, ListLt), xs[i])
  {
    ListLtTransitive();
  }
}
