/** What a sealed message contains and what a receiver accepts, written out down to the bytes. */
module ChannelContents {
  import opened Bytes
  import opened Wrappers
  import opened Crypto
  import opened ReplayWindow
  import opened SecureChannel
  import opened ChannelRuns

  /** The authenticated bytes determine the epoch and the data of the caller. */
  lemma EffectiveAadIsInjective(e: nat, a: seq<byte>, e': nat, a': seq<byte>)
    requires EffectiveAad(e, a) == EffectiveAad(e', a')
    ensures a == a' && (e < TWO_32 && e' < TWO_32 ==> e == e')
  {
    var tag := Ascii("HSC2");
    hide Ascii;
    assert EffectiveAad(e, a) == tag + (BigEndian(e, 4) + a) && EffectiveAad(e', a') == tag + (BigEndian(e', 4) + a');
    SplitConcat(tag, BigEndian(e, 4) + a, tag, BigEndian(e', 4) + a');
    SplitConcat(BigEndian(e, 4), a, BigEndian(e', 4), a');
    Pow256Values();
    if e < TWO_32 && e' < TWO_32 {
      BigEndianInjective(e, e', 4);
    }
  }

  /** The letters HSC2, the epoch in four bytes, the data of the caller. */
  lemma EffectiveAadBytes(e: nat, a: seq<byte>)
    ensures EffectiveAad(e, a) == [72, 83, 67, 50] + BigEndian(e, 4) + a
  {
    assert Ascii("HSC2") == [72, 83, 67, 50];
  }

  /** A drone seals towards the server and a server towards the drone, each under its own key and prefix. */
  lemma SealedBytes(c: Suite, e: Endpoint, plaintext: seq<byte>, aad: seq<byte>)
    ensures var d := if e.role == DroneClient then DroneToServer else ServerToDrone;
      var m := Sealed(c, e, plaintext, aad);
      && m.iv == c.derive(e.secret, IvPrefix(d), 8) + BigEndian(e.sendCounter, 4)
      && c.seal(c.derive(e.secret, TrafficKey(d), 32), m.iv, [72, 83, 67, 50] + BigEndian(e.epoch, 4) + aad, plaintext)
         == (m.ciphertext, m.tag)
  {
    EffectiveAadBytes(e.epoch, aad);
    hide EffectiveAad, BigEndian;
  }

  /** The message carries the receiver's prefix and a fresh counter, and its sizes are in bounds. */
  ghost predicate WellAddressed(c: Suite, e: Endpoint, m: EncryptedMessage, aad: seq<byte>) {
    var d := if e.role == DroneClient then ServerToDrone else DroneToServer;
    && |m.tag| == 16 && |m.iv| == 12 && |m.ciphertext| <= 1024 * 1024 && |aad| <= 1024
    && m.iv[..8] == c.derive(e.secret, IvPrefix(d), 8)
    && Fresh(e.accepted, Value(m.iv[8..]))
  }

  /** It was sealed by the peer, in this epoch, with these additional data. */
  ghost predicate SealedByPeer(c: Suite, e: Endpoint, m: EncryptedMessage, aad: seq<byte>, plaintext: seq<byte>) {
    var d := if e.role == DroneClient then ServerToDrone else DroneToServer;
    c.seal(c.derive(e.secret, TrafficKey(d), 32), m.iv, [72, 83, 67, 50] + BigEndian(e.epoch, 4) + aad, plaintext)
    == (m.ciphertext, m.tag)
  }

  /**
   Exactly which messages are accepted, and as what: those of the peer for this place in the
   session - and, in a FIPS build, any empty one.
   */
  lemma AcceptedExactly(c: Suite, e: Endpoint, m: EncryptedMessage, aad: seq<byte>, plaintext: seq<byte>)
    ensures DecryptSpec(c, e, m, aad, NoFault).1 == Ok(plaintext) <==>
      && e.usable && WellAddressed(c, e, m, aad)
      && (SealedByPeer(c, e, m, aad, plaintext) || (c.viaFipsModule && m.ciphertext == [] && plaintext == []))
  {
    EffectiveAadBytes(e.epoch, aad);
    var full, key := EffectiveAad(e.epoch, aad), RxKey(c, e.role, e.secret);
    assert c.open(key, m.iv, full, m.ciphertext, m.tag) == Some(plaintext) <==>
           c.seal(key, m.iv, full, plaintext) == (m.ciphertext, m.tag);
    SealedLength(c, key, m.iv, full, m.ciphertext, m.tag);
    hide Value, Fresh, EffectiveAad, BigEndian;
  }

  lemma SealedLength(c: Suite, key: seq<byte>, iv: seq<byte>, aad: seq<byte>, ct: seq<byte>, tag: seq<byte>)
    ensures var p := c.open(key, iv, aad, ct, tag); p.Some? ==> |p.value| == |ct|
  {
    var p := c.open(key, iv, aad, ct, tag);
    if p.Some? {
      assert c.seal(key, iv, aad, p.value) == (ct, tag);
    }
  }

  /** While the self-check or the library fails nothing is accepted - but by a FIPS build, which takes any empty one. */
  lemma FaultsAcceptNothing(c: Suite, e: Endpoint, m: EncryptedMessage, aad: seq<byte>, fault: Fault)
    requires !fault.NoFault? && (fault.Library? && c.viaFipsModule ==> m.ciphertext != [])
    ensures DecryptSpec(c, e, m, aad, fault).0 == e && DecryptSpec(c, e, m, aad, fault).1.Err?
  {
    hide Value, Fresh, EffectiveAad, RxKey, RxPrefix;
  }

  /** One ciphertext and tag under two different authenticated byte strings. */
  ghost predicate TwoAads(c: Suite, key: seq<byte>, m: EncryptedMessage,
                          x: seq<byte>, p: seq<byte>, y: seq<byte>, q: seq<byte>)
  {
    && x != y
    && c.seal(key, m.iv, x, p) == (m.ciphertext, m.tag)
    && c.seal(key, m.iv, y, q) == (m.ciphertext, m.tag)
  }

  /**
   A message sealed in one epoch under some additional data is not accepted in another epoch or
   under other data: else it is an authentic ciphertext of two byte strings, which are returned.
   */
  lemma OtherPlaceIsRefused(c: Suite, a: Endpoint, b: Endpoint, plaintext: seq<byte>, aad: seq<byte>, aad': seq<byte>)
    returns (x: seq<byte>, y: seq<byte>, q: seq<byte>)
    requires b.role == Opposite(a.role) && a.secret == b.secret && plaintext != []
    requires aad != aad' || (a.epoch != b.epoch && a.epoch < TWO_32 && b.epoch < TWO_32)
    ensures var m := Sealed(c, a, plaintext, aad);
      DecryptSpec(c, b, m, aad', NoFault).1.Err? || TwoAads(c, TxKey(c, a.role, a.secret), m, x, plaintext, y, q)
  {
    var m := Sealed(c, a, plaintext, aad);
    x, y, q := EffectiveAad(a.epoch, aad), EffectiveAad(b.epoch, aad'), [];
    if x == y {
      EffectiveAadIsInjective(a.epoch, aad, b.epoch, aad');
    }
    SealedHasText(c, a, plaintext, aad);
    if DecryptSpec(c, b, m, aad', NoFault).1.Ok? {
      q := OpenedIsSealed(c, b, m, aad');
    }
    hide DecryptSpec, EffectiveAad, Iv;
  }

  lemma SealedHasText(c: Suite, a: Endpoint, plaintext: seq<byte>, aad: seq<byte>)
    requires plaintext != []
    ensures Sealed(c, a, plaintext, aad).ciphertext != []
  {
    hide Iv, EffectiveAad, TxKey, TxPrefix;
  }

  /** Whoever opens a message that is not empty has a text for it. */
  lemma OpenedIsSealed(c: Suite, e: Endpoint, m: EncryptedMessage, aad: seq<byte>) returns (p: seq<byte>)
    requires m.ciphertext != [] && DecryptSpec(c, e, m, aad, NoFault).1.Ok?
    ensures c.seal(RxKey(c, e.role, e.secret), m.iv, EffectiveAad(e.epoch, aad), p) == (m.ciphertext, m.tag)
  {
    hide RxPrefix, Fresh, Value, EffectiveAad, RxKey;
    var unsealed := c.open(RxKey(c, e.role, e.secret), m.iv, EffectiveAad(e.epoch, aad), m.ciphertext, m.tag);
    p := if unsealed.Some? then unsealed.value else [];
    assert unsealed == Some(p);
  }

  /** Exactly when encryption succeeds, and what it spends. */
  lemma EncryptsExactly(c: Suite, e: Endpoint, plaintext: seq<byte>, aad: seq<byte>, fault: Fault)
    ensures var (next, r) := EncryptSpec(c, e, plaintext, aad, fault);
      var starts := 0 < |plaintext| <= 1024 * 1024 && e.usable && !fault.SelfCheck? && e.sendCounter <= 0xFFFF_FFFF;
      && (r.Ok? <==> starts && !fault.Library?)
      && next == if starts then e.(sendCounter := e.sendCounter + 1) else e
  {
    hide Sealed;
  }

  /** Peers that both rotate with one key are peers again, in the next epoch and with nothing sent or accepted. */
  lemma RotationStartsAfresh(c: Suite, a: Endpoint, b: Endpoint, newKey: seq<byte>)
    requires Peers(a, b) && a.usable && b.usable && a.epoch + 1 < TWO_32
    ensures var (a', ra) := RotateSpec(c, a, newKey, NoRotateFault);
      var (b', rb) := RotateSpec(c, b, newKey, NoRotateFault);
      && (ra.Ok? <==> |newKey| >= 32) && (rb.Ok? <==> |newKey| >= 32)
      && (ra.Ok? ==>
            && Peers(a', b') && a'.usable && b'.usable && a'.epoch == a.epoch + 1
            && a'.sendCounter == b'.sendCounter == 0 && a'.accepted == b'.accepted == {}
            && a'.secret == c.rekey(a.secret, newKey))
      && (ra.Err? ==> a' == a && b' == b)
  {
  }
}
