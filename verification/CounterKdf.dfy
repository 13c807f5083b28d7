/** The counter-mode key derivation of section 4.1 of NIST SP 800-108 Rev. 1 over HMAC-SHA-256. */
module CounterKdf {
  import opened Bytes
  import opened Wrappers
  import opened Crypto

  const MAC_LEN: nat := 32
  const MAX_LABEL: nat := 4096
  const MAX_CONTEXT: nat := 0x10_0000

  datatype KdfError = LabelHasNul | InputTooLarge | CounterExhausted

  /** What the i-th HMAC call is fed. */
  function Input(counter: nat, info: seq<byte>, context: seq<byte>, lBits: nat): seq<byte> {
    BigEndian(counter, 4) + info + [0] + context + BigEndian(lBits, 4)
  }

  /** The HMAC blocks with counters 1 to n, one after the other. */
  function Blocks(mac: Mac32, key: seq<byte>, info: seq<byte>, context: seq<byte>, lBits: nat, n: nat): (b: seq<byte>)
    ensures |b| == MAC_LEN * n
  {
    if n == 0 then []
    else Blocks(mac, key, info, context, lBits, n - 1) + mac(key, Input(n, info, context, lBits))
  }

  /** The number of blocks that cover outLen bytes. */
  function BlockCount(outLen: nat): nat {
    (outLen + MAC_LEN - 1) / MAC_LEN
  }

  /** Every byte of the output, in closed form. */
  predicate IsOutput(mac: Mac32, key: seq<byte>, info: seq<byte>, context: seq<byte>, outLen: nat, out: seq<byte>) {
    out <= Blocks(mac, key, info, context, outLen * 8 % TWO_32, BlockCount(outLen)) && |out| == outLen
  }

  lemma {:induction false} BlockByte(mac: Mac32, key: seq<byte>, info: seq<byte>, context: seq<byte>,
                                     lBits: nat, n: nat, k: nat)
    requires k < MAC_LEN * n
    ensures Blocks(mac, key, info, context, lBits, n)[k]
            == mac(key, Input(k / MAC_LEN + 1, info, context, lBits))[k % MAC_LEN]
  {
    if k < MAC_LEN * (n - 1) {
      BlockByte(mac, key, info, context, lBits, n - 1, k);
    } else {
      assert k / MAC_LEN + 1 == n;
    }
  }

  /** Byte k of the output is byte k mod 32 of the HMAC of request number k/32 + 1. */
  lemma OutputByteByByte(mac: Mac32, key: seq<byte>, info: seq<byte>, context: seq<byte>, out: seq<byte>)
    ensures IsOutput(mac, key, info, context, |out|, out) <==>
      forall k :: 0 <= k < |out| ==>
        out[k] == mac(key, Input(k / MAC_LEN + 1, info, context, |out| * 8 % TWO_32))[k % MAC_LEN]
  {
    var lBits, n := |out| * 8 % TWO_32, BlockCount(|out|);
    forall k | 0 <= k < |out|
      ensures Blocks(mac, key, info, context, lBits, n)[k]
              == mac(key, Input(k / MAC_LEN + 1, info, context, lBits))[k % MAC_LEN]
    {
      BlockByte(mac, key, info, context, lBits, n, k);
    }
  }

  method DeriveCounterMode(mac: Mac32, key: seq<byte>, info: seq<byte>, context: seq<byte>, outLen: nat)
    returns (r: Result<seq<byte>, KdfError>)
    ensures outLen == 0 ==> r == Ok([])
    ensures outLen > 0 && 0 in info ==> r == Err(LabelHasNul)
    ensures outLen > 0 && 0 !in info && (|info| > MAX_LABEL || |context| > MAX_CONTEXT) ==> r == Err(InputTooLarge)
    ensures outLen > 0 && 0 !in info && |info| <= MAX_LABEL && |context| <= MAX_CONTEXT ==>
      if BlockCount(outLen) < TWO_32 then r.Ok? && IsOutput(mac, key, info, context, outLen, r.value)
      else r == Err(CounterExhausted)
  {
    if outLen == 0 {
      return Ok([]);
    }
    if 0 in info {
      return Err(LabelHasNul);
    }
    if |info| > MAX_LABEL || |context| > MAX_CONTEXT {
      return Err(InputTooLarge);
    }
    var lBits := outLen * 8 % TWO_32;
    var counter := 1;
    var out: seq<byte> := [];
    while |out| < outLen
      invariant |out| <= outLen
      invariant |out| < outLen ==> 1 <= counter < TWO_32 && counter <= BlockCount(outLen)
      invariant |out| < outLen ==> out == Blocks(mac, key, info, context, lBits, counter - 1)
      invariant |out| == outLen ==> BlockCount(outLen) < TWO_32 && IsOutput(mac, key, info, context, outLen, out)
      decreases outLen - |out|
    {
      var data := BuildInput(counter, info, context, lBits);
      var block := mac(key, data);
      var toCopy := if |block| < outLen - |out| then |block| else outLen - |out|;
      assert out + block == Blocks(mac, key, info, context, lBits, counter);
      out := out + block[..toCopy];
      if |out| < outLen && counter == 0xFFFF_FFFF {
        return Err(CounterExhausted);
      }
      assert |out| == outLen ==> counter == BlockCount(outLen);
      counter := counter + 1;
    }
    return Ok(out);
  }

  method BuildInput(counter: nat, info: seq<byte>, context: seq<byte>, lBits: nat) returns (data: seq<byte>)
    ensures data == Input(counter, info, context, lBits)
  {
    data := AppendU32([], counter);
    data := data + info;
    data := data + [0];
    data := data + context;
    data := AppendU32(data, lBits);
  }

  // --- The HMAC input identifies the request ---

  /** Counter first, then label, a zero byte, context, and the length in bits last. */
  lemma InputLayout(counter: nat, info: seq<byte>, context: seq<byte>, lBits: nat)
    requires counter < TWO_32 && lBits < TWO_32
    ensures var data, n, m := Input(counter, info, context, lBits), |info|, |context|;
      && |data| == 9 + n + m
      && Value(data[..4]) == counter && data[4..4 + n] == info && data[4 + n] == 0
      && data[5 + n..5 + n + m] == context && Value(data[5 + n + m..]) == lBits
  {
    Pow256Values();
    ValueOfBigEndian(counter, 4);
    ValueOfBigEndian(lBits, 4);
    var data, n, m := Input(counter, info, context, lBits), |info|, |context|;
    hide BigEndian, Value;
    assert data[..4] == BigEndian(counter, 4) && data[5 + n + m..] == BigEndian(lBits, 4);
  }

  /** No two different (counter, label, context, length) requests feed HMAC the same bytes. */
  lemma InputIsInjective(i: nat, info: seq<byte>, context: seq<byte>, l: nat,
                         i': nat, info': seq<byte>, context': seq<byte>, l': nat)
    requires i < TWO_32 && l < TWO_32 && i' < TWO_32 && l' < TWO_32
    requires 0 !in info && 0 !in info'
    requires Input(i, info, context, l) == Input(i', info', context', l')
    ensures i == i' && info == info' && context == context' && l == l'
  {
    Pow256Values();
    var body, body' := info + [0] + context, info' + [0] + context';
    assert Input(i, info, context, l) == BigEndian(i, 4) + (body + BigEndian(l, 4));
    assert Input(i', info', context', l') == BigEndian(i', 4) + (body' + BigEndian(l', 4));
    SplitConcat(BigEndian(i, 4), body + BigEndian(l, 4), BigEndian(i', 4), body' + BigEndian(l', 4));
    SplitConcat(body, BigEndian(l, 4), body', BigEndian(l', 4));
    BigEndianInjective(i, i', 4);
    BigEndianInjective(l, l', 4);
    MarkEnds(0, info, info', context, context');
  }

  /** A label with a NUL would break this: two requests with one HMAC input. */
  lemma NulWouldConfuse()
    ensures Input(1, [0], [], 256) == Input(1, [], [0], 256)
  {
    assert [0] + [0] + [] == [] + [0] + [0];
    assert BigEndian(1, 4) + [0] + [0] + [] == BigEndian(1, 4) + [] + [0] + [0];
  }

  /** Below 2^29 bytes the length field is the true length in bits and the counter never runs out. */
  lemma LengthFieldIsExact(outLen: nat)
    ensures outLen * 8 % TWO_32 == outLen * 8 <==> outLen < 0x2000_0000
    ensures outLen < 0x2000_0000 ==> BlockCount(outLen) < TWO_32
  {
  }
}
