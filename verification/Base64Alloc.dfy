// The allocating entry points of the base64 codec, their size arithmetic, and a whole stream
// decoded chunk by chunk.
module Base64Alloc {
  import opened Arith
  import opened CTypes
  import opened Base64Spec
  import opened Base64

  /** 1 + BASE64_LENGTH (inlen), computed modulo m as size_t does. */
  function EncodeSize(inLen: nat, m: nat): (n: nat)
    requires 1 <= m
    ensures n < m
  {
    (1 + ((inLen + 2) % m / 3 * 4) % m) % m
  }

  /** The size that base64_decode_alloc_ctx asks for. */
  function DecodeSize(inLen: nat): nat {
    3 * (inLen / 4) + 3
  }

  /** inlen > outlen tells exactly whether the size of the encoded data fits in a size_t that
      counts up to m - 1; when it fits it is computed exactly. */
  lemma EncodeSizeExact(inLen: nat, m: nat)
    requires inLen < m && 256 <= m
    ensures inLen > EncodeSize(inLen, m) <==> m <= 1 + (inLen + 2) / 3 * 4
    ensures inLen <= EncodeSize(inLen, m) ==> EncodeSize(inLen, m) == 1 + (inLen + 2) / 3 * 4
    ensures m <= inLen + 2 ==> EncodeSize(inLen, m) == 1
  {
    hide EncodeSize;
    var q := (inLen + 2) / 3;
    assert 3 * q <= inLen + 2 < 3 * q + 3 by { Thirds(inLen + 2); }
    EncodeSizeIs(inLen, m, q);
  }

  lemma Thirds(x: nat)
    ensures 3 * (x / 3) <= x < 3 * (x / 3) + 3
  {
  }

  lemma EncodeSizeIs(inLen: nat, m: nat, q: nat)
    requires inLen < m && 256 <= m && q == (inLen + 2) / 3
    ensures EncodeSize(inLen, m)
            == if m <= inLen + 2 then 1 else if 1 + q * 4 < m then 1 + q * 4 else 1 + q * 4 - m
  {
    WrapOnce(inLen + 2, m);
    if inLen + 2 < m {
      GroupSize(q, m);
    } else {
      var wrapped := inLen + 2 - m;
      assert wrapped / 3 == 0;
      WrapOnce(0, m);
      WrapOnce(1, m);
    }
  }

  lemma GroupSize(q: nat, m: nat)
    requires 1 < m && 3 * q < m
    ensures (1 + (q * 4) % m) % m == if 1 + q * 4 < m then 1 + q * 4 else 1 + q * 4 - m
  {
    WrapOnce(q * 4, m);
    WrapOnce(1 + (q * 4) % m, m);
  }

  lemma WrapOnce(x: nat, m: nat)
    requires x < 2 * m
    ensures x % m == if x < m then x else x - m
  {
    if x < m { DivideUnique(x, m, 0, x); } else { DivideUnique(x, m, 1, x - m); }
  }

  lemma GroupsOf(x: nat, n: nat)
    requires x <= n + 3
    ensures 3 * (x / 4) <= DecodeSize(n)
  {
  }

  /** The size for decoding does not wrap around, and it holds what any input of that length
      decodes to, even after three carried characters. */
  lemma DecodeSizeSuffices(carried: seq<Byte>, input: seq<Byte>, m: nat)
    requires |input| < m && 256 <= m && |carried| < 4
    ensures DecodeSize(|input|) < m
    ensures |Stream(carried + Strip(input)).bytes| <= DecodeSize(|input|)
    ensures |Unit(input).bytes| <= DecodeSize(|input|)
    ensures |DecodedGroup(carried).bytes| <= DecodeSize(|input|)
  {
    StreamSize(carried + Strip(input));
    GroupsOf(|carried + Strip(input)|, |input|);
    UnitSize(input);
    GroupsOf(|input| + 3, |input|);
  }

  /** base64_encode_alloc, with a malloc that succeeds. */
  method EncodeAlloc(input: seq<Byte>) returns (n: Size, out: array?<Byte>)
    requires |input| <= SIZE_MAX
    ensures if SIZE_MAX < |Encoded(input)| + 1 then n == 0 && out == null
            else out != null && fresh(out) && out[..] == Encoded(input) + [0] && n == |Encoded(input)|
  {
    var outLen := EncodeSize(|input|, SIZE_MAX + 1);
    EncodeSizeExact(|input|, SIZE_MAX + 1);
    if |input| > outLen {
      return 0, null;
    }
    out := new Byte[outLen];
    Encode(input, out, outLen);
    n := outLen - 1;
    assert out[..] == out[..outLen];
  }

  /** base64_decode_alloc_ctx, with a malloc that succeeds: the output is never truncated. */
  method DecodeAlloc(ctx: DecodeContext?, input: seq<Byte>)
      returns (ok: bool, out: array?<Byte>, outLen: nat)
    requires |input| <= SIZE_MAX && (ctx != null ==> ctx.Valid())
    modifies if ctx == null then {} else {ctx, ctx.buf}
    ensures ok <==> out != null
    ensures ok ==> fresh(out) && outLen <= out.Length
    ensures ctx == null ==>
            ok == Unit(input).ok && (ok ==> out[..outLen] == Unit(input).bytes)
    ensures ctx != null ==> ctx.Valid()
    ensures ctx != null && input != [] ==>
            var d := Stream(old(ctx.Carried()) + Strip(input));
            ok == d.ok && (ok ==> out[..outLen] == d.bytes && ctx.Carried() == d.rest)
    ensures ctx != null && input == [] ==>
            && ok == (old(ctx.Carried()) == []) && ctx.Carried() == old(ctx.Carried())
            && (ok ==> outLen == 0)
  {
    var needLen := DecodeSize(|input|);
    DecodeSizeSuffices(if ctx == null then [] else ctx.Carried(), input, SIZE_MAX + 1);
    out := new Byte[needLen];
    ok, outLen := DecodeCtx(ctx, input, out, needLen);
    if !ok {
      out := null;
    }
  }

  /** The first i chunks are decoded to bytes, and carried is left over of them. */
  ghost predicate ChunkState(chunks: seq<seq<Byte>>, i: nat, bytes: seq<Byte>, carried: seq<Byte>,
                             whole: Decoded) {
    i <= |chunks| && whole == Prepend(bytes, Feed(carried, chunks[i..]))
  }

  lemma FirstChunk(chunks: seq<seq<Byte>>)
    ensures ChunkState(chunks, 0, [], [], Feed([], chunks))
    ensures var f, d := Feed([], chunks), Stream(Strip(Concat(chunks)));
            f.bytes == d.bytes && f.ok == d.ok && (f.ok ==> f.rest == d.rest)
  {
    assert chunks[0..] == chunks;
    PrependNothing(Feed([], chunks));
    ChunkingIrrelevant([], chunks);
    NothingCarried(Strip(Concat(chunks)));
  }

  lemma NextChunk(chunks: seq<seq<Byte>>, i: nat, bytes: seq<Byte>, carried: seq<Byte>,
                  whole: Decoded)
    requires ChunkState(chunks, i, bytes, carried, whole) && i < |chunks|
    ensures var d := Stream(carried + Strip(chunks[i]));
            if d.ok then ChunkState(chunks, i + 1, bytes + d.bytes, d.rest, whole) else !whole.ok
  {
    var d := Stream(carried + Strip(chunks[i]));
    assert chunks[i..][1..] == chunks[i + 1..] && chunks[i..][0] == chunks[i];
    if d.ok {
      PrependGroup(bytes, d.bytes, Feed(d.rest, chunks[i + 1..]));
    }
  }

  lemma LastChunk(chunks: seq<seq<Byte>>, bytes: seq<Byte>, carried: seq<Byte>, whole: Decoded)
    requires ChunkState(chunks, |chunks|, bytes, carried, whole)
    ensures whole == Decoded(bytes, carried, true)
  {
    assert bytes + [] == bytes;
  }

  /** A caller that decodes a stream: one context, the chunks in turn, and a last flush. */
  method DecodeChunks(chunks: seq<seq<Byte>>) returns (ok: bool, bytes: seq<Byte>)
    requires forall i :: 0 <= i < |chunks| ==> 1 <= |chunks[i]| <= SIZE_MAX
    ensures var d := Stream(Strip(Concat(chunks)));
            && (ok <==> d.ok && d.rest == [])
            && (ok ==> bytes == d.bytes)
  {
    hide Stream, Feed, Strip, Concat, ChunkState;
    var ctx := new DecodeContext();
    var i: nat := 0;
    bytes := [];
    ghost var whole := Feed([], chunks);
    FirstChunk(chunks);
    while i < |chunks|
      invariant ctx.Valid() && fresh(ctx) && fresh(ctx.buf)
      invariant i <= |chunks| && ChunkState(chunks, i, bytes, ctx.Carried(), whole)
    {
      NextChunk(chunks, i, bytes, ctx.Carried(), whole);
      var out, n;
      ok, out, n := DecodeAlloc(ctx, chunks[i]);
      if !ok {
        return;
      }
      bytes := bytes + out[..n];
      i := i + 1;
    }
    LastChunk(chunks, bytes, ctx.Carried(), whole);
    var out, n;
    ok, out, n := DecodeAlloc(ctx, []);
  }
}
