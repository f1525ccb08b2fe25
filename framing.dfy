/**
 * The message framer behind `prepare_hash_multiple`: every part is written
 * as its length, eight bytes big-endian (`u64::to_be_bytes`), followed by
 * the part's own bytes, parts in call order.
 */
module Framing {
  import opened Wrappers
  import opened Types

  /** Width of the `u64` length prefix. */
  const PREFIX_LENGTH: nat := 8

  const TWO_64: nat := 0x1_0000_0000_0000_0000

  function Pow256(k: nat): (r: nat)
    ensures r > 0
  {
    if k == 0 then 1 else 256 * Pow256(k - 1)
  }

  lemma Pow256Eight()
    ensures Pow256(PREFIX_LENGTH) == TWO_64
  {
  }

  /** `n` as `width` big-endian bytes, most significant first. */
  function BigEndian(n: nat, width: nat): (r: seq<byte>)
    requires n < Pow256(width)
    ensures |r| == width
    decreases width
  {
    if width == 0 then [] else BigEndian(n / 256, width - 1) + [(n % 256) as byte]
  }

  /** The number a big-endian byte string denotes. */
  function FromBigEndian(s: seq<byte>): (n: nat)
    ensures n < Pow256(|s|)
  {
    if s == [] then 0 else FromBigEndian(s[..|s| - 1]) * 256 + s[|s| - 1] as nat
  }

  lemma {:induction false} FromBigEndianOfBigEndian(n: nat, width: nat)
    requires n < Pow256(width)
    ensures FromBigEndian(BigEndian(n, width)) == n
    decreases width
  {
    if width > 0 {
      var s := BigEndian(n, width);
      assert s[..|s| - 1] == BigEndian(n / 256, width - 1);
      FromBigEndianOfBigEndian(n / 256, width - 1);
    }
  }

  /** `(len as u64).to_be_bytes()`. */
  function U64ToBeBytes(n: nat): (r: seq<byte>)
    requires n < TWO_64
    ensures |r| == PREFIX_LENGTH
    ensures FromBigEndian(r) == n
  {
    Pow256Eight();
    FromBigEndianOfBigEndian(n, PREFIX_LENGTH);
    BigEndian(n, PREFIX_LENGTH)
  }

  /** Every part's length fits the `u64` prefix (a `usize` always does). */
  predicate Fits(parts: seq<seq<byte>>)
  {
    forall i :: 0 <= i < |parts| ==> |parts[i]| < TWO_64
  }

  /** One framed part: its length prefix, then its bytes. */
  function Chunk(part: seq<byte>): (r: seq<byte>)
    requires |part| < TWO_64
    ensures |r| == PREFIX_LENGTH + |part|
    ensures r[PREFIX_LENGTH..] == part
    ensures FromBigEndian(r[..PREFIX_LENGTH]) == |part|
  {
    var r := U64ToBeBytes(|part|) + part;
    assert r[..PREFIX_LENGTH] == U64ToBeBytes(|part|);
    r
  }

  /** Σ (8 + |part|) over the parts. */
  function FramedLength(parts: seq<seq<byte>>): nat
  {
    if parts == [] then 0 else PREFIX_LENGTH + |parts[0]| + FramedLength(parts[1..])
  }

  /** The canonical framing of a sequence of parts. */
  function Frame(parts: seq<seq<byte>>): (r: seq<byte>)
    requires Fits(parts)
    ensures |r| == FramedLength(parts)
  {
    if parts == [] then [] else Chunk(parts[0]) + Frame(parts[1..])
  }

  /** Reads framed parts back; None when the bytes are not a framing. */
  function Unframe(bytes: seq<byte>): Option<seq<seq<byte>>>
    decreases |bytes|
  {
    if bytes == [] then Some([])
    else if |bytes| < PREFIX_LENGTH then None
    else
      var n := FromBigEndian(bytes[..PREFIX_LENGTH]);
      if |bytes| - PREFIX_LENGTH < n then None
      else
        match Unframe(bytes[PREFIX_LENGTH + n..])
        case None => None
        case Some(rest) => Some([bytes[PREFIX_LENGTH..PREFIX_LENGTH + n]] + rest)
  }

  /** Framing is undone by Unframe. */
  lemma {:induction false} UnframeFrame(parts: seq<seq<byte>>)
    requires Fits(parts)
    ensures Unframe(Frame(parts)) == Some(parts)
  {
    if parts != [] {
      var p := parts[0];
      var bytes := Frame(parts);
      var c := Chunk(p);
      assert bytes == c + Frame(parts[1..]);
      assert bytes[..PREFIX_LENGTH] == c[..PREFIX_LENGTH];
      assert bytes[PREFIX_LENGTH..PREFIX_LENGTH + |p|] == p;
      assert bytes[PREFIX_LENGTH + |p|..] == Frame(parts[1..]);
      UnframeFrame(parts[1..]);
      assert [p] + parts[1..] == parts;
    }
  }

  /** Two different part sequences are never framed to the same bytes. */
  lemma FrameInjective(a: seq<seq<byte>>, b: seq<seq<byte>>)
    requires Fits(a) && Fits(b)
    requires Frame(a) == Frame(b)
    ensures a == b
  {
    UnframeFrame(a);
    UnframeFrame(b);
  }

  /** Framing one more part appends that part's chunk. */
  lemma {:induction false} FrameSnoc(parts: seq<seq<byte>>, part: seq<byte>)
    requires Fits(parts) && |part| < TWO_64
    ensures Fits(parts + [part])
    ensures Frame(parts + [part]) == Frame(parts) + Chunk(part)
  {
    var ps := parts + [part];
    assert Fits(ps) by {
      forall i | 0 <= i < |ps| ensures |ps[i]| < TWO_64 {
        if i < |parts| { assert ps[i] == parts[i]; }
      }
    }
    if parts != [] {
      assert ps[1..] == parts[1..] + [part];
      FrameSnoc(parts[1..], part);
    } else {
      assert ps[1..] == [];
    }
  }

  /**
   * `prepare_hash_multiple`: grows the output part by part, prefix then
   * bytes, and ends with exactly the canonical framing.
   */
  method PrepareHashMultiple(messages: seq<seq<byte>>) returns (res: seq<byte>)
    requires Fits(messages)
    ensures res == Frame(messages)
    ensures |res| == FramedLength(messages)
    ensures Unframe(res) == Some(messages)
  {
    res := [];
    for i := 0 to |messages|
      invariant PrefixFits(messages, i)
      invariant res == Frame(messages[..i])
    {
      var msg := messages[i];
      var len := U64ToBeBytes(|msg|);
      ghost var done := res;
      res := res + len;
      res := res + msg;
      FramePrefixStep(messages, i);
      assert res == done + Chunk(msg);
    }
    assert messages[..|messages|] == messages;
    UnframeFrame(messages);
  }

  /** Helper for the loop: the first `i` parts fit. */
  predicate PrefixFits(parts: seq<seq<byte>>, i: nat)
    requires i <= |parts|
  {
    Fits(parts[..i])
  }

  lemma FramePrefixStep(parts: seq<seq<byte>>, i: nat)
    requires Fits(parts) && i < |parts|
    ensures PrefixFits(parts, i) && PrefixFits(parts, i + 1)
    ensures Frame(parts[..i + 1]) == Frame(parts[..i]) + Chunk(parts[i])
  {
    assert Fits(parts[..i]) by {
      forall j | 0 <= j < i ensures |parts[..i][j]| < TWO_64 {
        assert parts[..i][j] == parts[j];
      }
    }
    assert parts[..i + 1] == parts[..i] + [parts[i]];
    FrameSnoc(parts[..i], parts[i]);
  }
}
