/** Time-based one-time codes over HMAC-SHA-256, and the drift window of the login check. */
module Totp {
  import opened Bytes
  import opened Wrappers
  import opened Crypto

  const DIGITS: nat := 6
  const CODE_RANGE: nat := 1_000_000

  // --- One code ---

  /** Dynamic truncation (section 5.3 of RFC 4226): 31 bits of the number at an offset given by the last nibble. */
  function Truncate(out: seq<byte>): (v: nat)
    requires |out| == 32
    ensures v < TWO_31
  {
    var offset := out[31] % 16;
    Value(out[offset..offset + 4]) % TWO_31
  }

  /** The last n decimal digits of v. */
  function Digits(v: nat, n: nat): (s: string)
    ensures |s| == n
    ensures forall i :: 0 <= i < n ==> '0' <= s[i] <= '9'
  {
    if n == 0 then "" else Digits(v / 10, n - 1) + ['0' + (v % 10) as char]
  }

  function Pow10(n: nat): (p: nat)
    ensures p > 0
  {
    if n == 0 then 1 else 10 * Pow10(n - 1)
  }

  lemma {:induction false} DigitsIdentify(v: nat, w: nat, n: nat)
    requires v < Pow10(n) && w < Pow10(n) && Digits(v, n) == Digits(w, n)
    ensures v == w
  {
    if n > 0 {
      assert Digits(v, n)[n - 1] == Digits(w, n)[n - 1];
      assert Digits(v, n)[..n - 1] == Digits(v / 10, n - 1) && Digits(w, n)[..n - 1] == Digits(w / 10, n - 1);
      DigitsIdentify(v / 10, w / 10, n - 1);
    }
  }

  /** The code for one time-step counter. */
  function Code(mac: Mac32, secret: seq<byte>, counter: nat): (code: string)
    ensures |code| == DIGITS
  {
    Digits(Truncate(mac(secret, BigEndian(counter, 8))) % CODE_RANGE, DIGITS)
  }

  /** Two counters share a code exactly when their truncated values agree modulo a million. */
  lemma CodesAgree(mac: Mac32, secret: seq<byte>, j: nat, k: nat)
    ensures Code(mac, secret, j) == Code(mac, secret, k) <==>
      Truncate(mac(secret, BigEndian(j, 8))) % CODE_RANGE == Truncate(mac(secret, BigEndian(k, 8))) % CODE_RANGE
  {
    var v := Truncate(mac(secret, BigEndian(j, 8))) % CODE_RANGE;
    var w := Truncate(mac(secret, BigEndian(k, 8))) % CODE_RANGE;
    assert Pow10(4) == 10 * Pow10(3) && Pow10(6) == 10 * Pow10(5);
    if Code(mac, secret, j) == Code(mac, secret, k) {
      DigitsIdentify(v, w, DIGITS);
    }
  }

  /** The last nibble says where the number starts: the example in section 5.4 of RFC 4226. */
  lemma TruncateExample(out: seq<byte>)
    requires |out| == 32 && out[31] == 0x5a && out[10..14] == [0x50, 0xef, 0x7f, 0x19]
    ensures Truncate(out) == 0x50ef7f19 && Digits(Truncate(out) % CODE_RANGE, DIGITS) == "872921"
  {
    assert out[10] == out[10..14][0] && out[11] == out[10..14][1];
    assert out[12] == out[10..14][2] && out[13] == out[10..14][3];
    TruncateBits(out, 10, 5);
    DigitsExample();
    hide Truncate, Digits;
  }

  lemma DigitsExample()
    ensures Digits(872921, 6) == "872921"
  {
    assert Digits(8, 1) == "8";
    assert Digits(87, 2) == "87";
    assert Digits(872, 3) == "872";
    assert Digits(8729, 4) == "8729";
    assert Digits(87292, 5) == "87292";
  }

  /** The number read back from its digits. */
  function NumberOf(s: string): int {
    if s == "" then 0 else NumberOf(s[..|s| - 1]) * 10 + (s[|s| - 1] as int - '0' as int)
  }

  /** A code shows the truncated value modulo a million in decimal, most significant digit first. */
  lemma {:induction false} DigitsReadBack(v: nat, n: nat)
    requires v < Pow10(n)
    ensures NumberOf(Digits(v, n)) == v
  {
    if n > 0 {
      DigitsReadBack(v / 10, n - 1);
      assert Digits(v, n)[..n - 1] == Digits(v / 10, n - 1);
    }
  }

  /** A code is the truncated value of the HMAC of the eight-byte counter, modulo a million, in decimal. */
  lemma CodeShows(mac: Mac32, secret: seq<byte>, counter: nat)
    ensures NumberOf(Code(mac, secret, counter)) == Truncate(mac(secret, BigEndian(counter, 8))) % 1_000_000
  {
    assert Pow10(4) == 10 * Pow10(3) && Pow10(6) == 10 * Pow10(5);
    DigitsReadBack(Truncate(mac(secret, BigEndian(counter, 8))) % CODE_RANGE, DIGITS);
    hide Truncate, BigEndian;
  }

  /** The truncated value is bytes o to o + 3 of the code, without the top bit, where o is the last nibble. */
  lemma TruncateBits(out: seq<byte>, o: nat, q: nat)
    requires |out| == 32 && out[31] as int == 16 * q + o && o < 16
    ensures Truncate(out) ==
      out[o] as int % 128 * 0x100_0000 + out[o + 1] as int * 0x1_0000 + out[o + 2] as int * 256 + out[o + 3] as int
  {
    Value4(out[o..o + 4]);
  }

  /** Fills the eight-byte message from its last byte backwards. */
  method CounterMessage(counter: nat) returns (msg: array<byte>)
    ensures fresh(msg) && msg[..] == BigEndian(counter, 8)
  {
    msg := new byte[8];
    var rest: nat := counter;
    var i: int := 7;
    while i >= 0
      invariant -1 <= i <= 7
      invariant BigEndian(counter, 8) == BigEndian(rest, i + 1) + msg[i + 1..]
    {
      msg[i] := rest % 256;
      assert msg[i..] == [msg[i]] + msg[i + 1..];
      rest := rest / 256;
      i := i - 1;
    }
    assert msg[..] == msg[0..];
  }

  method TruncateMac(out: seq<byte>) returns (binCode: nat)
    requires |out| == 32
    ensures binCode == Truncate(out)
  {
    var offset := out[31] % 16;
    assert offset + 4 <= |out|;
    binCode := (out[offset] as int % 128) * 0x100_0000;
    binCode := binCode + out[offset + 1] as int * 0x1_0000;
    binCode := binCode + out[offset + 2] as int * 256;
    binCode := binCode + out[offset + 3] as int;
    Value4(out[offset..offset + 4]);
  }

  /** None stands for the empty string. */
  method TotpHmacSha256(mac: Mac32, secret: seq<byte>, unixTime: nat, step: nat) returns (code: Option<string>)
    ensures code == if step == 0 then None else Some(Code(mac, secret, unixTime / step))
  {
    if step == 0 {
      return None;
    }
    var msg := CounterMessage(unixTime / step);
    var binCode := TruncateMac(mac(secret, msg[..]));
    var mod := 1;
    var k := 0;
    while k < DIGITS
      invariant 0 <= k <= DIGITS && mod == Pow10(k)
    {
      mod := mod * 10;
      k := k + 1;
    }
    assert Pow10(4) == 10 * Pow10(3) && Pow10(6) == 10 * Pow10(5);
    var otp := binCode % mod;
    return Some(Digits(otp, DIGITS));
  }

  // --- The login check ---

  /** The counter tried d steps away from now; the time is a wrapping 64-bit sum. */
  function CounterAt(now: nat, step: nat, d: int): nat
    requires step > 0
  {
    U64(now + d * step) / step
  }

  ghost predicate Accepts(mac: Mac32, secret: seq<byte>, now: nat, step: nat, drift: int, code: string) {
    step > 0 && exists d :: -drift <= d <= drift && Code(mac, secret, CounterAt(now, step, d)) == code
  }

  method VerifyCode(mac: Mac32, secret: seq<byte>, now: nat, step: nat, drift: int, code: string) returns (ok: bool)
    ensures ok <==> Accepts(mac, secret, now, step, drift, code)
  {
    var d := -drift;
    while d <= drift
      invariant -drift <= d
      invariant step > 0 ==>
        forall e :: -drift <= e < d && e <= drift ==> Code(mac, secret, CounterAt(now, step, e)) != code
    {
      var t := U64(now + d * step);
      var candidate := TotpHmacSha256(mac, secret, t, step);
      if candidate.Some? && candidate.value == code {
        assert Code(mac, secret, CounterAt(now, step, d)) == code;
        return true;
      }
      d := d + 1;
    }
    return false;
  }

  lemma NegativeProduct(step: nat, k: int)
    requires step > 0 && k < 0
    ensures step * k + step <= 0
  {
    MulAtLeast(step, -k);
    assert step * k == -(step * -k);
  }

  /** Adding whole steps adds to the quotient. */
  lemma QuotientShift(now: nat, step: nat, d: int, t: nat)
    requires step > 0 && t == now + step * d
    ensures t / step == now / step + d
  {
    var q, r := now / step, now % step;
    assert now == step * q + r;
    assert t == step * (q + d) + r;
    if q + d < 0 {
      NegativeProduct(step, q + d);
    }
    DivUnique(t, step, q + d, r);
  }

  lemma CounterWithoutWrap(now: nat, step: nat, d: int)
    requires step > 0 && 0 <= now + d * step < TWO_64
    ensures CounterAt(now, step, d) == now / step + d
  {
    QuotientShift(now, step, d, now + d * step);
  }

  lemma StepsFit(now: nat, step: nat, drift: int, d: int)
    requires step > 0 && -drift <= d <= drift && drift <= now / step && now + drift * step < TWO_64
    ensures 0 <= now + d * step < TWO_64
  {
    assert step * (now / step) <= now;
    assert step * (now / step - drift) >= 0;
    assert (d + drift) * step >= 0;
    assert (drift - d) * step >= 0;
  }

  /**
   The counters tried are the 2*drift + 1 consecutive ones around the present one exactly when
   the window does not reach below time zero.
   */
  lemma WindowIsConsecutive(now: nat, step: nat, drift: int)
    requires step > 0 && drift >= 0 && now + drift * step < TWO_64
    ensures (forall d :: -drift <= d <= drift ==> CounterAt(now, step, d) == now / step + d) <==> drift <= now / step
  {
    if drift <= now / step {
      forall d | -drift <= d <= drift ensures CounterAt(now, step, d) == now / step + d {
        StepsFit(now, step, drift, d);
        CounterWithoutWrap(now, step, d);
      }
    } else {
      assert CounterAt(now, step, -drift) >= 0;
    }
  }

  /** Away from time zero the check accepts exactly the codes of those counters (section 5.2 of RFC 6238). */
  lemma AcceptsTheWindow(mac: Mac32, secret: seq<byte>, now: nat, step: nat, drift: int, code: string)
    requires step > 0 && 0 <= drift <= now / step && now + drift * step < TWO_64
    ensures Accepts(mac, secret, now, step, drift, code) <==>
      exists k: nat :: now / step - drift <= k <= now / step + drift && Code(mac, secret, k) == code
  {
    WindowIsConsecutive(now, step, drift);
    if k: nat :| now / step - drift <= k <= now / step + drift && Code(mac, secret, k) == code {
      assert CounterAt(now, step, k - now / step) == k;
    }
  }
}
