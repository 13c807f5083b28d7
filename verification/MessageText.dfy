/** The JSON text of a secure message: its type, its sequence number, and the data given by the caller. */
module MessageText {
  import opened Bytes

  const QUOTE: byte := 34
  const COMMA: byte := 44

  /** The decimal digits of a number. */
  function Decimal(n: nat): (d: seq<byte>)
    ensures d != [] && forall i :: 0 <= i < |d| ==> 48 <= d[i] < 58
  {
    if n < 10 then [48 + n] else Decimal(n / 10) + [48 + n % 10]
  }

  /** `","seq":` */
  function BeforeNumber(): (text: seq<byte>)
    ensures text == [QUOTE, COMMA, QUOTE, 115, 101, 113, QUOTE, 58]
  {
    [QUOTE] + Ascii(",\"seq\":")
  }

  /** `,"data":` */
  function BeforeData(): (text: seq<byte>)
    ensures text == [COMMA, QUOTE, 100, 97, 116, 97, QUOTE, 58]
  {
    [COMMA] + Ascii("\"data\":")
  }

  /** What stands between the type and the data. */
  function Middle(n: nat): seq<byte> {
    BeforeNumber() + Decimal(n) + BeforeData()
  }

  function Render(msgType: seq<byte>, seqNo: nat, json: seq<byte>): (text: seq<byte>)
    ensures text != []
  {
    Ascii("{\"type\":\"") + (msgType + (Middle(seqNo) + (json + Ascii("}"))))
  }

  lemma {:induction false} DecimalIsInjective(n: nat, m: nat)
    requires Decimal(n) == Decimal(m)
    ensures n == m
    decreases n
  {
    var d, e := Decimal(n), Decimal(m);
    assert d[|d| - 1] == e[|e| - 1];
    if n >= 10 && m >= 10 {
      assert d[..|d| - 1] == Decimal(n / 10) && e[..|e| - 1] == Decimal(m / 10);
      DecimalIsInjective(n / 10, m / 10);
    }
  }

  /** What follows the type determines number and data. */
  lemma MiddleEnds(n: nat, x: seq<byte>, n': nat, x': seq<byte>)
    requires Middle(n) + x == Middle(n') + x'
    ensures n == n' && x == x'
  {
    hide Decimal, BeforeNumber, BeforeData;
    var before, after := BeforeNumber(), BeforeData()[1..];
    assert Middle(n) + x == before + (Decimal(n) + [COMMA] + (after + x));
    assert Middle(n') + x' == before + (Decimal(n') + [COMMA] + (after + x'));
    SplitConcat(before, Decimal(n) + [COMMA] + (after + x), before, Decimal(n') + [COMMA] + (after + x'));
    MarkEnds(COMMA, Decimal(n), Decimal(n'), after + x, after + x');
    DecimalIsInjective(n, n');
    SplitConcat(after, x, after, x');
  }

  /** In a middle, a quotation mark is followed by a comma at the start only. */
  lemma MiddleStartsOnce(n: nat, x: seq<byte>, i: nat)
    requires 0 < i < |Middle(n)|
    ensures var whole := Middle(n) + x; whole[i] == QUOTE ==> i + 1 < |whole| && whole[i + 1] != COMMA
  {
    hide Decimal;
  }

  /** So one middle cannot start inside another: what is put in front of it contains the other one whole. */
  lemma MiddlesDoNotOverlap(u: seq<byte>, n: nat, x: seq<byte>, m: nat, y: seq<byte>)
    requires u != [] && Middle(n) + x == u + (Middle(m) + y)
    ensures Middle(n) <= u
  {
    hide Middle;
    var i, whole := |u|, Middle(n) + x;
    MiddleHead(m);
    assert whole[i] == (Middle(m) + y)[0] && whole[i + 1] == (Middle(m) + y)[1];
    if i < |Middle(n)| {
      MiddleStartsOnce(n, x, i);
    } else {
      assert Middle(n) == whole[..|Middle(n)|] == u[..|Middle(n)|];
    }
  }

  lemma MiddleHead(n: nat)
    ensures |Middle(n)| >= 2 && Middle(n)[0] == QUOTE && Middle(n)[1] == COMMA
  {
    hide Decimal;
  }

  // --- Which types can be told apart ---

  /** Some messages of these types with different numbers have one text. */
  ghost predicate Confusable(t: seq<byte>, t': seq<byte>) {
    exists n, j, n', j' :: n != n' && Render(t, n, j) == Render(t', n', j')
  }

  /** t' goes on, after t, as the text of a message of type t with number n does up to its data. */
  predicate Extends(t: seq<byte>, t': seq<byte>, n: nat) {
    t + Middle(n) <= t'
  }

  /** The shorter type of two that share a text is extended by the longer one. */
  lemma SharedTextExtends(t: seq<byte>, n: nat, j: seq<byte>, t': seq<byte>, n': nat, j': seq<byte>)
    requires |t| < |t'| && Render(t, n, j) == Render(t', n', j')
    ensures Extends(t, t', n)
  {
    hide Middle;
    var x, x' := j + Ascii("}"), j' + Ascii("}");
    TextsWithoutHead(t, n, j, t', n', j');
    var whole := t' + (Middle(n') + x');
    assert t == whole[..|t|] == t'[..|t|];
    var u := t'[|t|..];
    assert t' == t + u;
    SplitConcat(t, Middle(n) + x, t, u + (Middle(n') + x'));
    MiddlesDoNotOverlap(u, n, x, n', x');
    assert t + Middle(n) <= t + u;
  }

  lemma TextsWithoutHead(t: seq<byte>, n: nat, j: seq<byte>, t': seq<byte>, n': nat, j': seq<byte>)
    requires Render(t, n, j) == Render(t', n', j')
    ensures t + (Middle(n) + (j + Ascii("}"))) == t' + (Middle(n') + (j' + Ascii("}")))
  {
    hide Middle, Ascii;
    var head := Ascii("{\"type\":\"");
    SplitConcat(head, t + (Middle(n) + (j + Ascii("}"))), head, t' + (Middle(n') + (j' + Ascii("}"))));
  }

  /** Types of one length are told apart, and so are number and data. */
  lemma SharedTextOfOneLength(t: seq<byte>, n: nat, j: seq<byte>, t': seq<byte>, n': nat, j': seq<byte>)
    requires |t| == |t'| && Render(t, n, j) == Render(t', n', j')
    ensures t == t' && n == n' && j == j'
  {
    hide Middle, Ascii;
    var end := Ascii("}");
    TextsWithoutHead(t, n, j, t', n', j');
    SplitConcat(t, Middle(n) + (j + end), t', Middle(n') + (j' + end));
    MiddleEnds(n, j + end, n', j' + end);
    assert |j + end| == |j| + |end| && |j' + end| == |j'| + |end|;
    SplitConcat(j, end, j', end);
  }

  /** Nothing escapes the type: one that extends t makes any message read like one of type t. */
  lemma ExtensionMisleads(t: seq<byte>, n: nat, k: seq<byte>, m: nat, j: seq<byte>)
    ensures Render(t + Middle(n) + k, m, j) == Render(t, n, k + Middle(m) + j)
  {
    hide Middle, Ascii;
    var end := Ascii("}");
    assert (t + Middle(n) + k) + (Middle(m) + (j + end)) == t + (Middle(n) + ((k + Middle(m) + j) + end));
  }

  lemma ExtensionIsConfusable(t: seq<byte>, t': seq<byte>, n: nat)
    requires Extends(t, t', n)
    ensures Confusable(t, t') && Confusable(t', t)
  {
    hide Middle, Render;
    var k := t'[|t + Middle(n)|..];
    assert t' == t + Middle(n) + k;
    ExtensionMisleads(t, n, k, n + 1, []);
    assert Render(t, n, k + Middle(n + 1) + []) == Render(t', n + 1, []);
  }

  /**
   Exactly when can the text of a message be read with two sequence numbers?  When one of the
   types goes on, after the other, like a whole message up to its data.
   */
  lemma ConfusableIffExtends(t: seq<byte>, t': seq<byte>)
    ensures Confusable(t, t') <==> (exists n :: Extends(t, t', n)) || (exists n :: Extends(t', t, n))
  {
    hide Extends, Render;
    if Confusable(t, t') {
      var n, j, n', j' :| n != n' && Render(t, n, j) == Render(t', n', j');
      if |t| < |t'| {
        SharedTextExtends(t, n, j, t', n', j');
      } else if |t'| < |t| {
        SharedTextExtends(t', n', j', t, n, j);
      } else {
        SharedTextOfOneLength(t, n, j, t', n', j');
      }
    }
    if n :| Extends(t, t', n) {
      ExtensionIsConfusable(t, t', n);
    }
    if n :| Extends(t', t, n) {
      ExtensionIsConfusable(t', t, n);
    }
  }

  /** A type that extends another contains a quotation mark. */
  lemma ExtensionHasQuote(t: seq<byte>, t': seq<byte>, n: nat)
    requires Extends(t, t', n)
    ensures QUOTE in t'
  {
    hide Middle;
    MiddleHead(n);
    assert t'[|t|] == (t + Middle(n))[|t|] == QUOTE;
  }

  /** For types without quotation marks the text determines everything. */
  lemma RenderIsInjective(t: seq<byte>, n: nat, j: seq<byte>, t': seq<byte>, n': nat, j': seq<byte>)
    requires QUOTE !in t && QUOTE !in t' && Render(t, n, j) == Render(t', n', j')
    ensures t == t' && n == n' && j == j'
  {
    hide Extends, Render;
    if |t| < |t'| {
      SharedTextExtends(t, n, j, t', n', j');
      ExtensionHasQuote(t, t', n);
    } else if |t'| < |t| {
      SharedTextExtends(t', n', j', t, n, j);
      ExtensionHasQuote(t', t, n');
    } else {
      SharedTextOfOneLength(t, n, j, t', n', j');
    }
  }

  /** {"type":"PING","seq":42,"data":{}} */
  lemma RenderExample()
    ensures Render(Ascii("PING"), 42, Ascii("{}")) ==
      [123, 34, 116, 121, 112, 101, 34, 58, 34, 80, 73, 78, 71, 34, 44, 34, 115, 101, 113, 34, 58, 52, 50, 44, 34,
       100, 97, 116, 97, 34, 58, 123, 125, 125]
  {
    hide Ascii, Middle;
    HeadExample();
    AsciiExamples();
    MiddleExample();
  }

  lemma HeadExample()
    ensures Ascii("{\"type\":\"") == [123, 34, 116, 121, 112, 101, 34, 58, 34]
  {
  }

  lemma AsciiExamples()
    ensures Ascii("PING") == [80, 73, 78, 71] && Ascii("{}") == [123, 125] && Ascii("}") == [125]
  {
  }

  lemma MiddleExample()
    ensures Middle(42) == [34, 44, 34, 115, 101, 113, 34, 58, 52, 50, 44, 34, 100, 97, 116, 97, 34, 58]
  {
    assert Decimal(42) == [52, 50];
    hide Decimal;
  }

  /** The types that the drone sends. */
  predicate IsSentType(t: seq<byte>) {
    t == Ascii("PING") || t == Ascii("TELEMETRY") || t == Ascii("FLIGHT_DATA")
  }

  /** Their messages are never mistaken for one another. */
  lemma SentTypesAreSafe(t: seq<byte>, t': seq<byte>)
    requires IsSentType(t) && IsSentType(t')
    ensures !Confusable(t, t')
  {
    assert QUOTE !in t && QUOTE !in t';
    ConfusableIffExtends(t, t');
    hide Confusable, Extends, IsSentType;
    if n :| Extends(t, t', n) {
      ExtensionHasQuote(t, t', n);
    }
    if n :| Extends(t', t, n) {
      ExtensionHasQuote(t', t, n);
    }
  }
}
