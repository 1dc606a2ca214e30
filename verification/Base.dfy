/** Vocabulary shared by every module: bytes, results, and finite sums. */
module Base {

  newtype Byte = x: int | 0 <= x < 256
  type Bytes = seq<Byte>

  const U64_MAX: nat := 0xFFFF_FFFF_FFFF_FFFF

  datatype Option<+T> = None | Some(value: T)

  datatype Result<+T, +E> = Ok(value: T) | Err(error: E)

  /** The failure kinds callers can tell apart; messages are not modelled. */
  datatype Error = Usage | Policy | Config | Backend | SandboxError | TrustHandoff | Unsupported | Io

  type Outcome<+T> = Result<T, Error>

  /** Rust's `()` as a success value. */
  datatype Unit = Unit

  /**
   What became of a half-made file or directory on the error path. The result of
   removing it is discarded by the program; only a hostile environment keeps it.
   */
  datatype Removal = NothingMade | Removed | NotRemoved

  /** Whether an operating-system call fails for reasons of its own; only a hostile environment makes it. */
  method IoFails(hostile: bool) returns (fails: bool)
    ensures !hostile ==> !fails
  {
    var choice: bool := *;
    fails := hostile && choice;
  }

  function Min(a: int, b: int): (m: int)
    ensures m <= a && m <= b && (m == a || m == b)
  {
    if a <= b then a else b
  }

  function Max(a: int, b: int): (m: int)
    ensures a <= m && b <= m && (m == a || m == b)
  {
    if a <= b then b else a
  }

  function Repeat(b: Byte, n: nat): (s: Bytes)
    ensures |s| == n && forall i | 0 <= i < n :: s[i] == b
  {
    seq(n, _ => b)
  }

  function Sum(s: Bytes): (r: nat)
    ensures r <= 255 * |s|
  {
    if s == [] then 0 else Sum(s[..|s| - 1]) + s[|s| - 1] as nat
  }

  lemma {:induction false} SumAppend(a: Bytes, b: Bytes)
    ensures Sum(a + b) == Sum(a) + Sum(b)
  {
    if b == [] {
      assert a + b == a;
    } else {
      assert (a + b)[..|a + b| - 1] == a + b[..|b| - 1];
      SumAppend(a, b[..|b| - 1]);
    }
  }

  lemma {:induction false} SumRepeat(b: Byte, n: nat)
    ensures Sum(Repeat(b, n)) == b as nat * n
  {
    if n > 0 {
      assert Repeat(b, n)[..n - 1] == Repeat(b, n - 1);
      SumRepeat(b, n - 1);
    }
  }

  /** A subset with as many elements as its superset is the whole superset. */
  lemma SameSizeSubset<T>(a: set<T>, b: set<T>)
    requires a <= b && |a| == |b|
    ensures a == b
  {
    assert b == a + (b - a);
    assert |b| == |a| + |b - a|;
  }

  lemma SubsetSize<T>(a: set<T>, b: set<T>)
    requires a <= b
    ensures |a| <= |b|
  {
    assert |b| == |a| + |b - a| by {
      assert b == a + (b - a);
    }
  }
}
