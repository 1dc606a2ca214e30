/**
 Relative paths. A name is the byte string Rust stores for an `OsStr`, so
 comparing, concatenating and hashing names work on exactly the same bytes.
 The module also carries the ordering behind `BTreeMap<PathBuf, _>` and
 `BTreeSet<PathBuf>`: every walk that must be deterministic goes through it.
 */
module Paths {
  import opened Base

  type Name = Bytes
  type Path = seq<Name>

  const SLASH: Byte := 0x2f
  const BACKSLASH: Byte := 0x5c

  /* ----- Text form ----- */

  predicate IsSeparator(b: Byte) {
    b == SLASH || b == BACKSLASH
  }

  predicate NoSeparator(name: Name) {
    forall i | 0 <= i < |name| :: !IsSeparator(name[i])
  }

  /** Components that survive being written as text and split again. */
  predicate Plain(p: Path) {
    forall i | 0 <= i < |p| :: p[i] != [] && NoSeparator(p[i])
  }

  function Join(p: Path, sep: Byte): Bytes {
    if p == [] then [] else if |p| == 1 then p[0] else p[0] + [sep] + Join(p[1..], sep)
  }

  /** `text.split(['/', '\\'])`: always at least one piece. */
  function Split(b: Bytes): (r: seq<Bytes>)
    ensures |r| >= 1
  {
    if b == [] then [[]]
    else
      var rest := Split(b[1..]);
      if IsSeparator(b[0]) then [[]] + rest else [[b[0]] + rest[0]] + rest[1..]
  }

  lemma {:induction false} SplitPlainName(c: Name)
    requires NoSeparator(c)
    ensures Split(c) == [c]
  {
    if c != [] {
      SplitPlainName(c[1..]);
      assert [c[0]] + c[1..] == c;
    }
  }

  lemma {:induction false} SplitCons(c: Name, sep: Byte, rest: Bytes)
    requires NoSeparator(c) && IsSeparator(sep)
    ensures Split(c + [sep] + rest) == [c] + Split(rest)
  {
    var all := c + [sep] + rest;
    if c == [] {
      assert all[1..] == rest;
    } else {
      assert all[1..] == c[1..] + [sep] + rest;
      SplitCons(c[1..], sep, rest);
      assert [c[0]] + c[1..] == c;
    }
  }

  /** Writing a path with either separator and splitting it again is lossless. */
  lemma {:induction false} SplitOfJoin(p: Path, sep: Byte)
    requires p != [] && Plain(p) && IsSeparator(sep)
    ensures Split(Join(p, sep)) == p
  {
    if |p| == 1 {
      SplitPlainName(p[0]);
    } else {
      SplitOfJoin(p[1..], sep);
      SplitCons(p[0], sep, Join(p[1..], sep));
      assert [p[0]] + p[1..] == p;
    }
  }

  lemma JoinInjective(p: Path, q: Path, sep: Byte)
    requires p != [] && q != [] && Plain(p) && Plain(q) && IsSeparator(sep)
    requires Join(p, sep) == Join(q, sep)
    ensures p == q
  {
    SplitOfJoin(p, sep);
    SplitOfJoin(q, sep);
  }

  /** What `Join` costs: every component plus one separator, minus the last one. */
  function TextCost(p: Path): nat {
    if p == [] then 0 else |p[0]| + 1 + TextCost(p[1..])
  }

  lemma {:induction false} JoinLast(p: Path, sep: Byte)
    requires p != [] && Plain(p)
    ensures Join(p, sep) != [] && !IsSeparator(Join(p, sep)[|Join(p, sep)| - 1])
  {
    if |p| > 1 {
      JoinLast(p[1..], sep);
    }
  }

  /* ----- Tree positions ----- */

  function Parent(p: Path): Path
    requires p != []
  {
    p[..|p| - 1]
  }

  function Last(p: Path): Name
    requires p != []
  {
    p[|p| - 1]
  }

  predicate IsPrefix(p: Path, q: Path) {
    |p| <= |q| && q[..|p|] == p
  }

  /** The prefixes of `p` with at least `least` and fewer than `bound` components. */
  ghost function Prefixes(p: Path, least: nat, bound: nat): set<Path> {
    set n | least <= n < bound && n <= |p| :: p[..n]
  }

  lemma PrefixesOneMore(p: Path, least: nat, n: nat)
    requires least <= n <= |p|
    ensures Prefixes(p, least, n + 1) == Prefixes(p, least, n) + {p[..n]}
    ensures p[..n] !in Prefixes(p, least, n)
  {
    assert forall i | least <= i < n :: |p[..i]| < |p[..n]|;
  }

  lemma PrefixTransitive(p: Path, q: Path, r: Path)
    requires IsPrefix(p, q) && IsPrefix(q, r)
    ensures IsPrefix(p, r)
  {
    assert r[..|p|] == r[..|q|][..|p|];
  }

  lemma PrefixesOfOne(a: Path, b: Path, p: Path)
    requires IsPrefix(a, p) && IsPrefix(b, p)
    ensures IsPrefix(a, b) || IsPrefix(b, a)
  {
    if |a| <= |b| {
      assert b[..|a|] == p[..|b|][..|a|] == p[..|a|];
    } else {
      assert a[..|b|] == p[..|a|][..|b|] == p[..|b|];
    }
  }

  /** Component-wise case folding; `fold` stays arbitrary. */
  function Key(p: Path, fold: Name -> Name): (k: Path)
    ensures |k| == |p|
  {
    seq(|p|, i requires 0 <= i < |p| => fold(p[i]))
  }

  /** Two paths have the same key exactly if they agree, component by component, up to the fold. */
  lemma SameKeyExactly(p: Path, q: Path, fold: Name -> Name)
    ensures Key(p, fold) == Key(q, fold) <==> |p| == |q| && forall i | 0 <= i < |p| :: fold(p[i]) == fold(q[i])
  {
    if Key(p, fold) == Key(q, fold) {
      forall i | 0 <= i < |p| ensures fold(p[i]) == fold(q[i]) {
        assert Key(p, fold)[i] == Key(q, fold)[i];
      }
    }
  }

  /* ----- Order ----- */

  predicate BytesLess(a: Bytes, b: Bytes) {
    b != [] && (a == [] || a[0] < b[0] || (a[0] == b[0] && BytesLess(a[1..], b[1..])))
  }

  predicate PathLess(p: Path, q: Path) {
    q != [] && (p == [] || BytesLess(p[0], q[0]) || (p[0] == q[0] && PathLess(p[1..], q[1..])))
  }

  /** Decided by the end of the shorter one or by the first byte that differs, the smaller coming first. */
  lemma {:induction false} BytesLessExactly(a: Bytes, b: Bytes)
    ensures BytesLess(a, b) <==>
              exists n :: 0 <= n <= |a| && n < |b| && a[..n] == b[..n] && (n == |a| || (a[n] as int) < b[n] as int)
  {
    if BytesLess(a, b) {
      if a == [] {
        assert a[..0] == b[..0];
      } else if a[0] == b[0] {
        BytesLessExactly(a[1..], b[1..]);
        var n :| 0 <= n <= |a[1..]| && n < |b[1..]| && a[1..][..n] == b[1..][..n]
                 && (n == |a[1..]| || (a[1..][n] as int) < b[1..][n] as int);
        assert a[..n + 1] == [a[0]] + a[1..][..n] && b[..n + 1] == [b[0]] + b[1..][..n];
      } else {
        assert a[..0] == b[..0];
      }
    }
    if n :| 0 <= n <= |a| && n < |b| && a[..n] == b[..n] && (n == |a| || (a[n] as int) < b[n] as int) {
      if n > 0 {
        assert a[0] == a[..n][0] && b[0] == b[..n][0];
        assert a[1..][..n - 1] == a[..n][1..] && b[1..][..n - 1] == b[..n][1..];
        BytesLessExactly(a[1..], b[1..]);
      }
    }
  }

  /** The same for paths: component by component, an ancestor coming before what is below it. */
  lemma {:induction false} PathLessExactly(p: Path, q: Path)
    ensures PathLess(p, q) <==>
              exists n :: 0 <= n <= |p| && n < |q| && p[..n] == q[..n] && (n == |p| || BytesLess(p[n], q[n]))
  {
    if PathLess(p, q) {
      if p == [] || BytesLess(p[0], q[0]) {
        assert p[..0] == q[..0];
      } else {
        PathLessExactly(p[1..], q[1..]);
        var n :| 0 <= n <= |p[1..]| && n < |q[1..]| && p[1..][..n] == q[1..][..n]
                 && (n == |p[1..]| || BytesLess(p[1..][n], q[1..][n]));
        assert p[..n + 1] == [p[0]] + p[1..][..n] && q[..n + 1] == [q[0]] + q[1..][..n];
      }
    }
    if n :| 0 <= n <= |p| && n < |q| && p[..n] == q[..n] && (n == |p| || BytesLess(p[n], q[n])) {
      if n > 0 {
        assert p[0] == p[..n][0] && q[0] == q[..n][0];
        assert p[1..][..n - 1] == p[..n][1..] && q[1..][..n - 1] == q[..n][1..];
        PathLessExactly(p[1..], q[1..]);
      }
    }
  }

  lemma {:induction false} BytesTrichotomy(a: Bytes, b: Bytes)
    ensures BytesLess(a, b) || BytesLess(b, a) || a == b
    ensures !(BytesLess(a, b) && BytesLess(b, a))
    ensures !BytesLess(a, a)
  {
    if a != [] {
      BytesTrichotomy(a[1..], a[1..]);
    }
    if a != [] && b != [] {
      BytesTrichotomy(a[1..], b[1..]);
      if a[1..] == b[1..] && a[0] == b[0] {
        assert a == [a[0]] + a[1..] == [b[0]] + b[1..] == b;
      }
    }
  }

  lemma {:induction false} BytesTransitive(a: Bytes, b: Bytes, c: Bytes)
    requires BytesLess(a, b) && BytesLess(b, c)
    ensures BytesLess(a, c)
  {
    if a != [] && a[0] == b[0] == c[0] {
      BytesTransitive(a[1..], b[1..], c[1..]);
    }
  }

  lemma {:induction false} PathTrichotomy(p: Path, q: Path)
    ensures PathLess(p, q) || PathLess(q, p) || p == q
    ensures !(PathLess(p, q) && PathLess(q, p))
    ensures !PathLess(p, p)
  {
    if p != [] {
      BytesTrichotomy(p[0], p[0]);
      PathTrichotomy(p[1..], p[1..]);
    }
    if p != [] && q != [] {
      BytesTrichotomy(p[0], q[0]);
      PathTrichotomy(p[1..], q[1..]);
      if p[1..] == q[1..] && p[0] == q[0] {
        assert p == [p[0]] + p[1..] == [q[0]] + q[1..] == q;
      }
    }
  }

  lemma {:induction false} PathTransitive(p: Path, q: Path, r: Path)
    requires PathLess(p, q) && PathLess(q, r)
    ensures PathLess(p, r)
  {
    if p != [] {
      if BytesLess(p[0], q[0]) && BytesLess(q[0], r[0]) {
        BytesTransitive(p[0], q[0], r[0]);
      } else if !BytesLess(p[0], q[0]) && !BytesLess(q[0], r[0]) {
        PathTransitive(p[1..], q[1..], r[1..]);
      }
    }
  }

  /** A directory sorts before everything below it. */
  lemma {:induction false} AncestorIsLess(p: Path, q: Path)
    requires IsPrefix(p, q) && p != q
    ensures PathLess(p, q)
  {
    if p != [] {
      assert q[0] == q[..|p|][0] == p[0];
      assert q[1..][..|p| - 1] == q[..|p|][1..];
      assert p == [p[0]] + p[1..] && q == [q[0]] + q[1..];
      AncestorIsLess(p[1..], q[1..]);
    }
  }

  /* ----- Sorted listings ----- */

  predicate Sorted(s: seq<Path>) {
    forall i, j | 0 <= i < j < |s| :: PathLess(s[i], s[j])
  }

  function Elements(s: seq<Path>): set<Path> {
    set p | p in s
  }

  /** `BTreeSet::insert` of a path that is not yet present. */
  function InsertSorted(s: seq<Path>, p: Path): seq<Path> {
    if s == [] then [p]
    else if PathLess(p, s[0]) then [p] + s
    else [s[0]] + InsertSorted(s[1..], p)
  }

  lemma {:induction false} InsertElements(s: seq<Path>, p: Path)
    ensures |InsertSorted(s, p)| == |s| + 1
    ensures forall x :: x in InsertSorted(s, p) <==> x in s || x == p
    ensures Elements(InsertSorted(s, p)) == Elements(s) + {p}
  {
    if s != [] {
      InsertElements(s[1..], p);
      assert s == [s[0]] + s[1..];
    }
  }

  lemma {:induction false} InsertKeepsSorted(s: seq<Path>, p: Path)
    requires Sorted(s) && p !in s
    ensures Sorted(InsertSorted(s, p))
  {
    if s != [] {
      PathTrichotomy(p, s[0]);
      if PathLess(p, s[0]) {
        forall j | 0 <= j < |s| ensures PathLess(p, s[j]) {
          if j > 0 {
            PathTransitive(p, s[0], s[j]);
          }
        }
      } else {
        var rest := InsertSorted(s[1..], p);
        InsertKeepsSorted(s[1..], p);
        InsertElements(s[1..], p);
        forall j | 0 <= j < |rest| ensures PathLess(s[0], rest[j]) {
          assert rest[j] in rest;
          assert rest[j] in s[1..] || rest[j] == p;
        }
      }
    }
  }

  /** The iteration order of a `BTreeSet<PathBuf>` holding exactly `paths`. */
  ghost function SortedPaths(paths: set<Path>): (s: seq<Path>)
    ensures Sorted(s) && Elements(s) == paths && |s| == |paths|
  {
    if paths == {} then []
    else
      var p :| p in paths;
      var rest := SortedPaths(paths - {p});
      InsertKeepsSorted(rest, p);
      InsertElements(rest, p);
      var all := InsertSorted(rest, p);
      assert Elements(all) == paths by {
        assert forall x :: x in rest <==> x in Elements(rest);
      }
      all
  }

  /** Sorting leaves no freedom: the elements determine the sequence. */
  lemma {:induction false} SortedUnique(s: seq<Path>, t: seq<Path>)
    requires Sorted(s) && Sorted(t) && Elements(s) == Elements(t)
    ensures s == t
  {
    assert s != [] ==> s[0] in Elements(s);
    assert t != [] ==> t[0] in Elements(t);
    if s != [] {
      HeadIsLeast(s, t[0]);
      HeadIsLeast(t, s[0]);
      PathTrichotomy(s[0], t[0]);
      TailElements(s);
      TailElements(t);
      SortedUnique(s[1..], t[1..]);
      assert s == [s[0]] + s[1..] == [t[0]] + t[1..] == t;
    }
  }

  lemma HeadIsLeast(s: seq<Path>, p: Path)
    requires s != [] && Sorted(s) && p in s
    ensures p == s[0] || PathLess(s[0], p)
  {
    var i :| 0 <= i < |s| && s[i] == p;
  }

  lemma TailElements(s: seq<Path>)
    requires s != [] && Sorted(s)
    ensures Elements(s[1..]) == Elements(s) - {s[0]}
  {
    PathTrichotomy(s[0], s[0]);
    assert s == [s[0]] + s[1..];
    forall i | 1 <= i < |s| ensures s[i] != s[0] {
      PathTrichotomy(s[0], s[i]);
    }
  }
}
