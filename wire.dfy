/**
 * Bytes on the USB link: fixed-width little-endian integers (as ctypes'
 * LittleEndianStructure fields and the device's C structs lay them out) and
 * the splitting of one transfer into chunks of a maximum size, which both
 * ends of the link perform.
 */
module Wire {
  import Util

  type Byte = b: int | 0 <= b < 0x100
  type Bytes = seq<Byte>

  type u8 = x: int | 0 <= x < 0x100
  type u16 = x: int | 0 <= x < 0x1_0000
  type u32 = x: int | 0 <= x < 0x1_0000_0000
  type u64 = x: int | 0 <= x < 0x1_0000_0000_0000_0000

  /** The largest chunk either end moves in one USB transfer by default (`max_rw`, `MAX_READ_WRITE`). */
  const MaxReadWrite: nat := 0xe00

  /** 256 to the power w: the number of values a w-byte field holds. */
  function Pow256(w: nat): (r: nat)
    ensures r >= 1
  {
    if w == 0 then 1 else 256 * Pow256(w - 1)
  }

  /**
   * The w-byte little-endian image of x.  Storing a Python int into a
   * w-byte ctypes field keeps its low w bytes (two's complement for a
   * negative value), and so does this encoding: see FromLEOfLE.
   */
  function LE(x: int, w: nat): (r: Bytes)
    ensures |r| == w
    decreases w
  {
    if w == 0 then [] else [x % 256] + LE(x / 256, w - 1)
  }

  /** The unsigned value of a little-endian byte string. */
  function FromLE(b: Bytes): (r: nat)
    ensures r < Pow256(|b|)
  {
    if b == [] then 0 else b[0] + 256 * FromLE(b[1..])
  }

  /** Decoding an encoded field gives the value truncated to the field's width. */
  lemma {:induction false} FromLEOfLE(x: int, w: nat)
    ensures FromLE(LE(x, w)) == x % Pow256(w)
    decreases w
  {
    if w == 0 {
      Util.DivModUnique(x, 1, x, 0);
    } else {
      var r := LE(x, w);
      assert r[1..] == LE(x / 256, w - 1);
      FromLEOfLE(x / 256, w - 1);
      var p := Pow256(w - 1);
      assert Pow256(w) == 256 * p;
      ModSplit256(x, p);
    }
  }

  lemma ModSplit256(x: int, p: nat)
    requires p > 0
    ensures x % (256 * p) == x % 256 + 256 * ((x / 256) % p)
  {
    var q, r := x / 256, x % 256;
    var q2, r2 := q / p, q % p;
    assert q == p * q2 + r2;
    assert x == 256 * q + r;
    assert x == (256 * p) * q2 + (256 * r2 + r);
    Util.DivModUnique(x, 256 * p, q2, 256 * r2 + r);
  }

  /** A value that fits its field survives encoding and decoding unchanged. */
  lemma FieldRoundTrip(x: nat, w: nat)
    requires x < Pow256(w)
    ensures FromLE(LE(x, w)) == x
  {
    FromLEOfLE(x, w);
    Util.DivModUnique(x, Pow256(w), 0, x);
  }

  /** Encoding the decoded value of a byte string gives the same bytes back. */
  lemma {:induction false} LEOfFromLE(b: Bytes)
    ensures LE(FromLE(b), |b|) == b
  {
    if b != [] {
      var v := FromLE(b);
      assert v == b[0] + 256 * FromLE(b[1..]);
      Util.DivModUnique(v, 256, FromLE(b[1..]), b[0]);
      LEOfFromLE(b[1..]);
    }
  }

  /** n zero bytes: struct padding, which ctypes zero-fills. */
  function Zeros(n: nat): (r: Bytes)
    ensures |r| == n
  {
    seq(n, _ => 0)
  }

  /** One byte for a C `bool` / ctypes `c_bool`. */
  function BoolByte(b: bool): Bytes
  {
    if b then [1] else [0]
  }

  // ---------------------------------------------------------------------------
  // Chunked transfers

  /** The concatenation of a list of transfers. */
  function Flatten(chunks: seq<Bytes>): Bytes
  {
    if chunks == [] then [] else chunks[0] + Flatten(chunks[1..])
  }

  lemma {:induction false} FlattenAppend(a: seq<Bytes>, b: seq<Bytes>)
    ensures Flatten(a + b) == Flatten(a) + Flatten(b)
  {
    if a != [] {
      assert (a + b)[1..] == a[1..] + b;
      FlattenAppend(a[1..], b);
    } else {
      assert a + b == b;
    }
  }

  /**
   * How one transfer of data goes out when no single USB transfer may exceed
   * max bytes: pieces of min(remaining, max) bytes, front to back.
   */
  function Chunks(data: Bytes, max: nat): (r: seq<Bytes>)
    requires max > 0
    decreases |data|
  {
    if |data| == 0 then []
    else if |data| <= max then [data]
    else [data[..max]] + Chunks(data[max..], max)
  }

  /** The sizes of the pieces of an n-byte transfer, front to back. */
  function ChunkSizes(n: nat, max: nat): (r: seq<nat>)
    requires max > 0
  {
    if n == 0 then []
    else if n <= max then [n]
    else [max] + ChunkSizes(n - max, max)
  }

  /** The pieces put back together are the data. */
  lemma {:induction false} ChunksFlatten(data: Bytes, max: nat)
    requires max > 0
    ensures Flatten(Chunks(data, max)) == data
    decreases |data|
  {
    var c := Chunks(data, max);
    if |data| == 0 {
    } else if |data| <= max {
      assert Flatten(c) == data + Flatten([]);
    } else {
      var rest := data[max..];
      ChunksFlatten(rest, max);
      assert c[1..] == Chunks(rest, max);
      assert data == data[..max] + rest;
    }
  }

  /**
   * There are ceil(|data| / max) pieces, and piece k has the size
   * ChunkSizes gives it: max bytes except for a shorter last one.
   */
  lemma {:induction false} ChunksShape(data: Bytes, max: nat)
    requires max > 0
    ensures |Chunks(data, max)| == |ChunkSizes(|data|, max)| == (|data| + max - 1) / max
    ensures forall k :: 0 <= k < |Chunks(data, max)| ==>
              |Chunks(data, max)[k]| == ChunkSizes(|data|, max)[k]
    decreases |data|
  {
    var c := Chunks(data, max);
    if |data| == 0 {
      Util.DivModUnique(max - 1, max, 0, max - 1);
    } else if |data| <= max {
      Util.DivModUnique(|data| + max - 1, max, 1, |data| - 1);
    } else {
      var rest := data[max..];
      ChunksShape(rest, max);
      assert c[1..] == Chunks(rest, max);
      var q := (|rest| + max - 1) / max;
      var r := (|rest| + max - 1) % max;
      assert |rest| + max - 1 == max * q + r;
      assert |data| + max - 1 == max * (q + 1) + r;
      Util.DivModUnique(|data| + max - 1, max, q + 1, r);
    }
  }

  /** Every size in ChunkSizes is between 1 and max, and they add up to n. */
  lemma {:induction false} ChunkSizesBounds(n: nat, max: nat)
    requires max > 0
    ensures forall k :: 0 <= k < |ChunkSizes(n, max)| ==> 1 <= ChunkSizes(n, max)[k] <= max
    ensures Sum(ChunkSizes(n, max)) == n
    ensures forall k :: 0 <= k < |ChunkSizes(n, max)| - 1 ==> ChunkSizes(n, max)[k] == max
  {
    if n > max {
      ChunkSizesBounds(n - max, max);
    }
  }

  function Sum(s: seq<nat>): nat
  {
    if s == [] then 0 else s[0] + Sum(s[1..])
  }

  /** A transfer of n bytes starting at cursor t in the chunk loop's terms: min(n - t, max) more. */
  lemma ChunksStep(data: Bytes, max: nat, t: nat)
    requires max > 0 && t < |data|
    ensures Chunks(data[t..], max) ==
              [data[t..t + Min(|data| - t, max)]] + Chunks(data[t + Min(|data| - t, max)..], max)
  {
    var rest := data[t..];
    if |rest| <= max {
      assert data[t + |rest|..] == [];
      assert rest == data[t..t + |rest|];
    } else {
      assert rest[..max] == data[t..t + max];
      assert rest[max..] == data[t + max..];
    }
  }

  lemma ChunkSizesStep(n: nat, max: nat, t: nat)
    requires max > 0 && t < n
    ensures ChunkSizes(n - t, max) == [Min(n - t, max)] + ChunkSizes(n - t - Min(n - t, max), max)
  {
  }

  function Min(a: nat, b: nat): nat
  {
    if a <= b then a else b
  }

  /** Concatenation regroups freely; stated once so that long chains of appends need not rediscover it. */
  lemma AppendAssoc<T>(a: seq<T>, b: seq<T>, c: seq<T>)
    ensures (a + b) + c == a + (b + c)
  {
  }

  // ---------------------------------------------------------------------------
  // Consecutive transfers

  /**
   * The OUT transfers made by consecutive `write` calls: each call's bytes
   * are chunked on their own.
   */
  function Transfers(writes: seq<Bytes>, max: nat): seq<Bytes>
    requires max > 0
  {
    if writes == [] then [] else Transfers(writes[..|writes| - 1], max) + Chunks(writes[|writes| - 1], max)
  }

  lemma TransfersSnoc(writes: seq<Bytes>, w: Bytes, max: nat)
    requires max > 0
    ensures Transfers(writes + [w], max) == Transfers(writes, max) + Chunks(w, max)
  {
    assert (writes + [w])[..|writes|] == writes;
  }

  /** The transfers of two runs of writes are the transfers of each, in order. */
  lemma {:induction false} TransfersConcat(a: seq<Bytes>, b: seq<Bytes>, max: nat)
    requires max > 0
    ensures Transfers(a + b, max) == Transfers(a, max) + Transfers(b, max)
    decreases |b|
  {
    if b == [] {
      assert a + b == a;
    } else {
      var init, last := b[..|b| - 1], b[|b| - 1];
      assert a + b == (a + init) + [last];
      assert b == init + [last];
      TransfersSnoc(a + init, last, max);
      TransfersSnoc(init, last, max);
      TransfersConcat(a, init, max);
    }
  }

  /** A log that had the transfers of ws, extended by those of more, holds the transfers of ws + more. */
  lemma TransfersAppend(s0: seq<Bytes>, ws: seq<Bytes>, more: seq<Bytes>, max: nat)
    requires max > 0
    ensures (s0 + Transfers(ws, max)) + Transfers(more, max) == s0 + Transfers(ws + more, max)
  {
    TransfersConcat(ws, more, max);
    AppendAssoc(s0, Transfers(ws, max), Transfers(more, max));
  }

  lemma TransfersOfTwo(a: Bytes, b: Bytes, max: nat)
    requires max > 0
    ensures Transfers([a], max) == Chunks(a, max)
    ensures Transfers([a, b], max) == Chunks(a, max) + Chunks(b, max)
  {
    assert [a, b][..1] == [a];
    assert [a][..0] == [];
  }

  lemma TransfersOfThree(a: Bytes, b: Bytes, c: Bytes, max: nat)
    requires max > 0
    ensures Transfers([a, b, c], max) == Chunks(a, max) + Chunks(b, max) + Chunks(c, max)
  {
    assert [a, b, c][..2] == [a, b];
    TransfersOfTwo(a, b, max);
  }

  /** What reaches the device is the bytes of the writes, back to back, whatever the chunking. */
  lemma {:induction false} TransfersFlatten(writes: seq<Bytes>, max: nat)
    requires max > 0
    ensures Flatten(Transfers(writes, max)) == Flatten(writes)
    decreases |writes|
  {
    if writes != [] {
      var init, last := writes[..|writes| - 1], writes[|writes| - 1];
      assert writes == init + [last];
      TransfersFlatten(init, max);
      FlattenAppend(Transfers(init, max), Chunks(last, max));
      ChunksFlatten(last, max);
      FlattenAppend(init, [last]);
      assert Flatten([last]) == last + Flatten([]);
    }
  }
}
