/** Concatenated records and the fact that reading them one at a time gets all of them back. */
module Streams {
  import opened Base

  function Concat(parts: seq<Bytes>): Bytes {
    if parts == [] then [] else Concat(parts[..|parts| - 1]) + parts[|parts| - 1]
  }

  lemma ConcatNone()
    ensures Concat([]) == []
  {
  }

  lemma ConcatOneMore(parts: seq<Bytes>, part: Bytes)
    ensures Concat(parts + [part]) == Concat(parts) + part
  {
    assert (parts + [part])[..|parts|] == parts;
  }

  lemma {:induction false} ConcatGrows(parts: seq<Bytes>, n: nat)
    requires n <= |parts|
    ensures |Concat(parts[..n])| <= |Concat(parts)|
  {
    if n == |parts| {
      assert parts[..n] == parts;
    } else {
      assert parts[..|parts| - 1][..n] == parts[..n];
      ConcatGrows(parts[..|parts| - 1], n);
    }
  }

  function Prepend<T>(item: T, rest: Option<seq<T>>): Option<seq<T>> {
    match rest
    case None => None
    case Some(items) => Some([item] + items)
  }

  /** For any reader: if each part reads as one item, their concatenation reads as all items. */
  lemma {:induction false} ReadOfParts<T>(
    read: Bytes -> Option<seq<T>>, parts: seq<Bytes>, items: seq<T>, rest: Bytes, tail: seq<T>)
    requires |parts| == |items|
    requires forall i, r: Bytes | 0 <= i < |parts| :: read(parts[i] + r) == Prepend(items[i], read(r))
    requires read(rest) == Some(tail)
    ensures read(Concat(parts) + rest) == Some(items + tail)
  {
    if parts == [] {
      assert Concat(parts) + rest == rest;
      assert items + tail == tail;
    } else {
      var n := |items| - 1;
      ReadOfParts(read, parts[..n], items[..n], parts[n] + rest, [items[n]] + tail);
      assert Concat(parts) + rest == Concat(parts[..n]) + (parts[n] + rest);
      assert items[..n] + ([items[n]] + tail) == items + tail;
    }
  }

  /* ----- Fixed-width integers ----- */

  /** `to_le_bytes`, least significant byte first. */
  function Little(n: nat, width: nat): (b: Bytes)
    ensures |b| == width
  {
    if width == 0 then [] else [(n % 256) as Byte] + Little(n / 256, width - 1)
  }

  function ReadLittle(b: Bytes): nat {
    if b == [] then 0 else b[0] as nat + 256 * ReadLittle(b[1..])
  }

  function Pow256(width: nat): nat {
    if width == 0 then 1 else 256 * Pow256(width - 1)
  }

  lemma {:induction false} ReadOfLittle(n: nat, width: nat)
    requires n < Pow256(width)
    ensures ReadLittle(Little(n, width)) == n
    decreases width
  {
    if width > 0 {
      ReadOfLittle(n / 256, width - 1);
      assert Little(n, width)[1..] == Little(n / 256, width - 1);
    }
  }

  lemma ReadOfU64(n: nat)
    requires n <= U64_MAX
    ensures ReadLittle(Little(n, 8)) == n
  {
    assert Pow256(8) == U64_MAX + 1;
    ReadOfLittle(n, 8);
  }
}
