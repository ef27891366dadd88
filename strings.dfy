/** Python's `str.replace` and `str.count` for a one-character pattern, and
    table-driven per-character rewriting, with the laws that let a chain of
    single-character replacements be read as one per-character map. */
module Strings {

  datatype Option<T> = None | Some(value: T)

  /** A replacement table: (character, what it becomes), in iteration order. */
  type Table = seq<(char, string)>

  /** The first position of `x` in `s`, or `|s|` when `x` does not occur. */
  function IndexOf<T(==)>(s: seq<T>, x: T): (r: nat)
    ensures r <= |s|
    ensures r < |s| <==> x in s
    ensures r < |s| ==> s[r] == x
    ensures forall k :: 0 <= k < r ==> s[k] != x
  {
    if s == [] then 0
    else if s[0] == x then 0
    else 1 + IndexOf(s[1..], x)
  }

  /** The keys of a table, in table order. */
  function Keys(t: Table): (r: seq<char>)
    ensures forall x :: x in r <==> exists i :: 0 <= i < |t| && t[i].0 == x
  {
    var k := seq(|t|, i requires 0 <= i < |t| => t[i].0);
    assert forall i :: 0 <= i < |t| ==> k[i] == t[i].0;
    k
  }

  lemma KeysAppend(t: Table, e: (char, string))
    ensures Keys(t + [e]) == Keys(t) + [e.0]
  {
    assert |Keys(t + [e])| == |Keys(t) + [e.0]|;
    forall i | 0 <= i < |t| + 1
      ensures Keys(t + [e])[i] == (Keys(t) + [e.0])[i]
    {
      if i < |t| {
        assert (t + [e])[i] == t[i];
      }
    }
  }

  lemma TakeNext<T>(s: seq<T>, i: nat)
    requires i < |s|
    ensures s[..i + 1] == s[..i] + [s[i]]
  {
  }

  /** No key occurs twice in the table. */
  predicate DistinctKeys(t: Table) {
    forall i, j :: 0 <= i < j < |t| ==> t[i].0 != t[j].0
  }

  /** No key of `a` is a key of `b`. */
  predicate KeysApart(a: Table, b: Table) {
    forall i, j :: 0 <= i < |a| && 0 <= j < |b| ==> a[i].0 != b[j].0
  }

  lemma DistinctConcat(a: Table, b: Table)
    requires DistinctKeys(a) && DistinctKeys(b) && KeysApart(a, b)
    ensures DistinctKeys(a + b)
  {
    forall i, j | 0 <= i < j < |a + b|
      ensures (a + b)[i].0 != (a + b)[j].0
    {
      if |a| <= i {
        assert (a + b)[i] == b[i - |a|] && (a + b)[j] == b[j - |a|];
      } else if |a| <= j {
        assert (a + b)[i] == a[i] && (a + b)[j] == b[j - |a|];
      }
    }
  }

  /** Keys that increase from each entry to the next between `lo` and `hi`
      increase between any two entries there. */
  lemma {:induction false} IncreasingKeys(t: Table, lo: nat, hi: nat)
    requires lo <= hi <= |t|
    requires forall i :: lo <= i && i + 1 < hi ==> t[i].0 < t[i + 1].0
    ensures forall i, j :: lo <= i < j < hi ==> t[i].0 < t[j].0
    decreases hi - lo
  {
    if lo + 1 < hi {
      IncreasingKeys(t, lo + 1, hi);
      forall j | lo + 1 < j < hi
        ensures t[lo].0 < t[j].0
      {
        assert t[lo + 1].0 < t[j].0;
      }
    }
  }

  /** `s.replace(c, r)`: every occurrence of the one-character string `c`
      becomes `r`, left to right, everything else is kept. */
  function ReplaceAll(s: string, c: char, r: string): (res: string)
    ensures c !in s ==> res == s
    ensures c !in r ==> c !in res
    ensures forall y :: y in res ==> (y in s && y != c) || y in r
  {
    if s == [] then []
    else (if s[0] == c then r else [s[0]]) + ReplaceAll(s[1..], c, r)
  }

  lemma {:induction false} ReplaceAllAppend(a: string, b: string, c: char, r: string)
    ensures ReplaceAll(a + b, c, r) == ReplaceAll(a, c, r) + ReplaceAll(b, c, r)
  {
    if a == [] {
      assert a + b == b;
    } else {
      assert (a + b)[0] == a[0];
      assert (a + b)[1..] == a[1..] + b;
      ReplaceAllAppend(a[1..], b, c, r);
    }
  }

  lemma ReplaceAllChar(x: char, c: char, r: string)
    ensures ReplaceAll([x], c, r) == if x == c then r else [x]
  {
    assert [x][1..] == [];
  }

  /** `s.count(c)` for a one-character pattern. */
  function Count(s: string, c: char): (n: nat)
    ensures n == multiset(s)[c]
    ensures n > 0 <==> c in s
  {
    if s == [] then 0
    else
      assert s == [s[0]] + s[1..];
      (if s[0] == c then 1 else 0) + Count(s[1..], c)
  }

  /** What one character becomes under a table: the value of its first entry,
      or the character itself when the table has no entry for it. */
  function RewriteChar(x: char, t: Table): string
  {
    var i := IndexOf(Keys(t), x);
    if i < |t| then t[i].1 else [x]
  }

  /** Every character of `s` rewritten independently through `t`. */
  function Rewrite(s: string, t: Table): (res: string)
    ensures (forall i :: 0 <= i < |t| ==> t[i].0 !in s) ==> res == s
  {
    if s == [] then []
    else RewriteChar(s[0], t) + Rewrite(s[1..], t)
  }

  lemma {:induction false} RewriteAppend(a: string, b: string, t: Table)
    ensures Rewrite(a + b, t) == Rewrite(a, t) + Rewrite(b, t)
  {
    if a == [] {
      assert a + b == b;
    } else {
      assert (a + b)[0] == a[0];
      assert (a + b)[1..] == a[1..] + b;
      RewriteAppend(a[1..], b, t);
    }
  }

  /** Extending a table by an entry whose key is new changes only that key. */
  lemma RewriteCharExtend(x: char, t: Table, c: char, r: string)
    ensures RewriteChar(x, t + [(c, r)]) ==
      if x in Keys(t) then RewriteChar(x, t) else if x == c then r else [x]
  {
    KeysAppend(t, (c, r));
    var i := IndexOf(Keys(t), x);
    var j := IndexOf(Keys(t + [(c, r)]), x);
    if i < |t| {
      assert Keys(t + [(c, r)])[i] == x;
      assert j == i;
      assert (t + [(c, r)])[i] == t[i];
    } else if x == c {
      assert Keys(t + [(c, r)])[|t|] == x;
      assert j == |t|;
    } else {
      assert x !in Keys(t + [(c, r)]);
    }
  }

  /** One step of a `for old, new in table: s = s.replace(old, new)` loop:
      when no earlier output contains the key being replaced, replacing it in
      the per-character rewrite through the earlier entries is the same as
      rewriting through the table extended by the new entry. */
  lemma {:induction false} ReplaceStep(s: string, t: Table, c: char, r: string)
    requires forall i :: 0 <= i < |t| ==> c !in t[i].1
    ensures ReplaceAll(Rewrite(s, t), c, r) == Rewrite(s, t + [(c, r)])
  {
    if s != [] {
      var x := s[0];
      ReplaceAllAppend(RewriteChar(x, t), Rewrite(s[1..], t), c, r);
      ReplaceStep(s[1..], t, c, r);
      RewriteCharExtend(x, t, c, r);
      if x !in Keys(t) {
        ReplaceAllChar(x, c, r);
      }
    }
  }

  /** An entry for a character that does not occur changes nothing. */
  lemma {:induction false} RewriteUnused(s: string, t: Table, c: char, r: string)
    requires c !in s
    ensures Rewrite(s, t + [(c, r)]) == Rewrite(s, t)
  {
    if s != [] {
      RewriteCharExtend(s[0], t, c, r);
      RewriteUnused(s[1..], t, c, r);
    }
  }

  /** `f` applied to every character, the results concatenated in order. */
  function FlatMap(f: char -> string, s: string): string
  {
    if s == [] then [] else f(s[0]) + FlatMap(f, s[1..])
  }

  lemma {:induction false} FlatMapAppend(f: char -> string, a: string, b: string)
    ensures FlatMap(f, a + b) == FlatMap(f, a) + FlatMap(f, b)
  {
    if a == [] {
      assert a + b == b;
    } else {
      assert (a + b)[0] == a[0];
      assert (a + b)[1..] == a[1..] + b;
      FlatMapAppend(f, a[1..], b);
    }
  }

  /** A character of `FlatMap(f, s)` comes from `f` of some character of `s`. */
  lemma {:induction false} FlatMapMember(f: char -> string, s: string, y: char)
    requires y in FlatMap(f, s)
    ensures exists x :: x in s && y in f(x)
  {
    if y !in f(s[0]) {
      FlatMapMember(f, s[1..], y);
      var x :| x in s[1..] && y in f(x);
      assert x in s;
    }
  }

  lemma FlatMapSingle(f: char -> string, x: char)
    ensures FlatMap(f, [x]) == f(x)
  {
    assert FlatMap(f, [x]) == f(x) + FlatMap(f, []);
  }

  /** When `f` keeps every character of `s`, `FlatMap(f, s)` is `s`. */
  lemma {:induction false} FlatMapIdentity(f: char -> string, s: string)
    requires forall x :: x in s ==> f(x) == [x]
    ensures FlatMap(f, s) == s
  {
    if s != [] {
      FlatMapIdentity(f, s[1..]);
      assert s == [s[0]] + s[1..];
    }
  }

  /** When every character maps to itself or to a text starting with `z`, a
      prefix without `z` of the mapped text is a prefix of the text. */
  lemma {:induction false} FlatMapPrefix(f: char -> string, z: char, p: string, s: string)
    requires forall y :: f(y) == [y] || (f(y) != [] && f(y)[0] == z)
    requires z !in p
    ensures p <= FlatMap(f, s) ==> p <= s
  {
    if p != [] && s != [] && p <= FlatMap(f, s) {
      var x := s[0];
      assert FlatMap(f, s) == f(x) + FlatMap(f, s[1..]);
      FlatMapPrefix(f, z, p[1..], s[1..]);
    }
  }

  /** Whether `[x] + r` starts with `p` depends on `r` only through `p[1..]`. */
  lemma ConsPrefix(p: string, x: char, r: string, t: string)
    requires p != [] && !(p <= [x] + t)
    requires p[1..] <= r ==> p[1..] <= t
    ensures !(p <= [x] + r)
  {
    assert p == [p[0]] + p[1..];
  }

  /** When each character yields at most one character, the result is no longer. */
  lemma {:induction false} FlatMapShorter(f: char -> string, s: string)
    requires forall x :: x in s ==> |f(x)| <= 1
    ensures |FlatMap(f, s)| <= |s|
  {
    if s != [] {
      FlatMapShorter(f, s[1..]);
    }
  }

  /** The table with every entry's output recomputed from its key and value. */
  function MapEntries(t: Table, f: (char, string) -> string): Table
  {
    seq(|t|, i requires 0 <= i < |t| => (t[i].0, f(t[i].0, t[i].1)))
  }

  lemma MapEntriesPrefix(t: Table, f: (char, string) -> string, i: nat)
    requires i < |t|
    ensures MapEntries(t[..i + 1], f) == MapEntries(t[..i], f) + [(t[i].0, f(t[i].0, t[i].1))]
  {
  }
}
