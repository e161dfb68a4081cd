/** Byte strings, their concatenation, and positions inside a concatenation. */
module ByteStrings {

  type byte = x: int | 0 <= x < 256

  type Bytes = seq<byte>

  const NEWLINE: byte := 10

  datatype Option<+T> = None | Some(value: T)

  function Min(a: int, b: int): int {
    if a <= b then a else b
  }

  /** The last n elements, or all of them when there are fewer. */
  function LastN<T>(s: seq<T>, n: nat): seq<T> {
    if |s| <= n then s else s[|s| - n..]
  }

  function Sum(sizes: seq<nat>): nat {
    if sizes == [] then 0 else sizes[0] + Sum(sizes[1..])
  }

  function Flat(bs: seq<Bytes>): Bytes {
    if bs == [] then [] else bs[0] + Flat(bs[1..])
  }

  function Lens(bs: seq<Bytes>): (r: seq<nat>)
    ensures |r| == |bs|
  {
    seq(|bs|, i requires 0 <= i < |bs| => |bs[i]|)
  }

  lemma {:induction false} LenAt(bs: seq<Bytes>, i: nat)
    requires i < |bs|
    ensures Lens(bs)[i] == |bs[i]|
  {
  }

  lemma {:induction false} SumConcat(a: seq<nat>, b: seq<nat>)
    ensures Sum(a + b) == Sum(a) + Sum(b)
  {
    if a == [] {
      assert a + b == b;
    } else {
      assert (a + b)[1..] == a[1..] + b;
      SumConcat(a[1..], b);
    }
  }

  lemma {:induction false} FlatConcat(a: seq<Bytes>, b: seq<Bytes>)
    ensures Flat(a + b) == Flat(a) + Flat(b)
  {
    if a == [] {
      assert a + b == b;
    } else {
      assert (a + b)[1..] == a[1..] + b;
      FlatConcat(a[1..], b);
    }
  }

  lemma {:induction false} FlatOne(b: Bytes)
    ensures Flat([b]) == b
  {
    assert [b][1..] == [];
  }

  lemma {:induction false} FlatLength(bs: seq<Bytes>)
    ensures |Flat(bs)| == Sum(Lens(bs))
  {
    if bs != [] {
      assert Lens(bs)[1..] == Lens(bs[1..]);
      FlatLength(bs[1..]);
    }
  }

  lemma {:induction false} SumSnoc(sizes: seq<nat>, k: nat)
    requires k < |sizes|
    ensures Sum(sizes[..k + 1]) == Sum(sizes[..k]) + sizes[k]
  {
    assert sizes[..k + 1] == sizes[..k] + [sizes[k]];
    SumConcat(sizes[..k], [sizes[k]]);
  }

  lemma {:induction false} SumPrefix(sizes: seq<nat>, k: nat)
    requires k <= |sizes|
    ensures Sum(sizes) == Sum(sizes[..k]) + Sum(sizes[k..])
  {
    assert sizes == sizes[..k] + sizes[k..];
    SumConcat(sizes[..k], sizes[k..]);
  }

  /** Entry number k holds position x of the concatenation, at byte off. */
  ghost predicate Locates(sizes: seq<nat>, x: nat, k: nat, off: nat) {
    k < |sizes| && Sum(sizes[..k]) + off == x && off < sizes[k]
  }

  /** At most one place holds a position. */
  lemma {:induction false} LocateUnique(sizes: seq<nat>, x: nat, k: nat, off: nat, k': nat, off': nat)
    requires Locates(sizes, x, k, off)
    requires Locates(sizes, x, k', off')
    ensures k == k' && off == off'
  {
    if k < k' {
      PrefixMonotone(sizes, k + 1, k');
      SumSnoc(sizes, k);
    } else if k' < k {
      PrefixMonotone(sizes, k' + 1, k);
      SumSnoc(sizes, k');
    }
  }

  lemma {:induction false} PrefixMonotone(sizes: seq<nat>, i: nat, j: nat)
    requires i <= j <= |sizes|
    ensures Sum(sizes[..i]) <= Sum(sizes[..j])
  {
    assert sizes[..j][..i] == sizes[..i];
    SumPrefix(sizes[..j], i);
  }

  /** Some place holds a position exactly when the position is below the total. */
  lemma {:induction false} LocateExists(sizes: seq<nat>, x: nat)
    ensures x < Sum(sizes) <==> exists k: nat, off: nat :: Locates(sizes, x, k, off)
  {
    if exists k: nat, off: nat :: Locates(sizes, x, k, off) {
      var k: nat, off: nat :| Locates(sizes, x, k, off);
      SumSnoc(sizes, k);
      SumPrefix(sizes, k + 1);
    }
    if x < Sum(sizes) {
      if x < sizes[0] {
        assert Locates(sizes, x, 0, x);
      } else {
        LocateExists(sizes[1..], x - sizes[0]);
        var k: nat, off: nat :| Locates(sizes[1..], x - sizes[0], k, off);
        assert sizes[..k + 1][1..] == sizes[1..][..k];
        assert Locates(sizes, x, k + 1, off);
      }
    }
  }

  /** The concatenation, cut around one entry. */
  lemma {:induction false} FlatAround(bs: seq<Bytes>, k: nat)
    requires k < |bs|
    ensures Flat(bs) == Flat(bs[..k]) + bs[k] + Flat(bs[k + 1..])
    ensures |Flat(bs[..k])| == Sum(Lens(bs)[..k])
  {
    hide Flat, Sum;
    var front, back := bs[..k], bs[k + 1..];
    assert bs == front + ([bs[k]] + back);
    FlatConcat(front, [bs[k]] + back);
    FlatConcat([bs[k]], back);
    FlatOne(bs[k]);
    FlatLength(front);
    assert Lens(front) == Lens(bs)[..k];
  }

  lemma {:induction false} Inside(a: Bytes, b: Bytes, c: Bytes, off: nat, n: nat)
    requires off + n <= |b|
    ensures (a + b + c)[|a| + off..|a| + off + n] == b[off..off + n]
  {
  }

  /** What lies at a located position, and after it inside the same entry. */
  lemma {:induction false} LocatedBytes(bs: seq<Bytes>, x: nat, k: nat, off: nat, n: nat)
    requires Locates(Lens(bs), x, k, off)
    requires off + n <= |bs[k]|
    ensures x + n <= |Flat(bs)|
    ensures Flat(bs)[x..x + n] == bs[k][off..off + n]
  {
    hide Flat, Sum;
    FlatAround(bs, k);
    Inside(Flat(bs[..k]), bs[k], Flat(bs[k + 1..]), off, n);
  }

  /** The end of the entry that holds position x. */
  function PieceEnd(sizes: seq<nat>, x: nat): (e: nat)
    requires x < Sum(sizes)
    ensures x < e <= Sum(sizes)
  {
    if x < sizes[0] then sizes[0] else sizes[0] + PieceEnd(sizes[1..], x - sizes[0])
  }

  lemma {:induction false} PieceEndLocated(sizes: seq<nat>, x: nat, k: nat, off: nat)
    requires Locates(sizes, x, k, off)
    requires x < Sum(sizes)
    ensures PieceEnd(sizes, x) == Sum(sizes[..k + 1]) == x - off + sizes[k]
  {
    SumSnoc(sizes, k);
    assert sizes[..k + 1][1..] == sizes[1..][..k];
    if k > 0 {
      assert sizes[..k][1..] == sizes[1..][..k - 1];
      SumPrefix(sizes[1..], k - 1);
      PieceEndLocated(sizes[1..], x - sizes[0], k - 1, off);
    }
  }
}
