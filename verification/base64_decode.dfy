/** lib/base64.c: decoding, character by character. */
module Base64Decode {
  import opened Basics
  import opened Arithmetic
  import opened Base64

  const INVALID := -1
  const SPACE := -2
  const END := -3

  /** The decode table: a value below 64, or what kind of other character it is. */
  function Val(c: char): int {
    if 'A' <= c <= 'Z' then c as int - 'A' as int
    else if 'a' <= c <= 'z' then c as int - 'a' as int + 26
    else if '0' <= c <= '9' then c as int - '0' as int + 52
    else if c == '+' then 62
    else if c == '/' then 63
    else if c == '=' then END
    else if c as int in {9, 10, 11, 12, 13, 32} then SPACE
    else INVALID
  }

  lemma ValOfChar(v: nat)
    requires v < 64
    ensures Val(Letter(v)) == v
  {
  }

  lemma CharOfVal(c: char)
    requires Val(c) >= 0
    ensures Val(c) < 64 && c == Letter(Val(c))
  {
  }

  /** HT, LF, VT, FF, CR and SPC are skipped, and the padding character is the equals sign. */
  lemma OtherCharacters(c: char)
    ensures Val(c) == SPACE <==> c in "\t\n\U{0B}\U{0C}\r "
    ensures Val(c) == END <==> c == '='
  {
  }

  /** A decoder between characters: how many bits are held, their value, and the padding seen. */
  datatype State = State(bits: nat, low: nat, padding: nat)

  const START := State(0, 0, 0)

  datatype Out = Out(state: State, bytes: seq<Byte>)

  /** One six-bit value more. */
  function Take(s: State, v: nat): Out
    requires v < 64
  {
    if s.bits == 0 then Out(State(6, v, s.padding), [])
    else if s.bits == 6 then Out(State(4, v % 16, s.padding), [(s.low * 4 + v / 16) % 256])
    else if s.bits == 4 then Out(State(2, v % 4, s.padding), [(s.low * 16 + v / 4) % 256])
    else Out(State(0, 0, s.padding), [(s.low * 64 + v) % 256])
  }

  /** base64_decode_single: nothing for a character that is not allowed here. */
  function Step(s: State, c: char): Option<Out> {
    var v := Val(c);
    if v >= 0 then (if s.padding > 0 || v >= 64 then None else Some(Take(s, v)))
    else if v == SPACE then Some(Out(s, []))
    else if v == END then
      if s.bits == 0 || s.padding > 2 || s.low != 0 then None
      else Some(Out(State(if s.bits >= 2 then s.bits - 2 else 0, 0, s.padding + 1), []))
    else None
  }

  /** base64_decode_update. */
  function Decode(s: State, text: string): Option<Out>
    decreases |text|
  {
    if text == "" then Some(Out(s, []))
    else
      match Step(s, text[0])
      case None => None
      case Some(o) => Give(o.bytes, Decode(o.state, text[1..]))
  }

  /** Output that comes before the rest. */
  function Give(bytes: seq<Byte>, d: Option<Out>): Option<Out> {
    match d
    case None => None
    case Some(o) => Some(Out(o.state, bytes + o.bytes))
  }

  lemma GiveTwice(a: seq<Byte>, b: seq<Byte>, d: Option<Out>)
    ensures Give(a, Give(b, d)) == Give(a + b, d) && Give([], d) == d
  {
    if d.Some? { assert a + (b + d.value.bytes) == a + b + d.value.bytes && [] + d.value.bytes == d.value.bytes; }
  }

  /** What follows `o` is decoded from its state. */
  function Then(d: Option<Out>, text: string): Option<Out> {
    match d
    case None => None
    case Some(o) => Give(o.bytes, Decode(o.state, text))
  }

  /** Decoding in two calls is decoding the joined text. */
  lemma {:induction false} InPieces(s: State, a: string, b: string)
    ensures Decode(s, a + b) == Then(Decode(s, a), b)
    decreases |a|
  {
    hide Step;
    if a == "" {
      assert a + b == b;
      GiveTwice([], [], Decode(s, b));
    } else {
      assert (a + b)[1..] == a[1..] + b;
      match Step(s, a[0])
      case None =>
      case Some(o) =>
        InPieces(o.state, a[1..], b);
        match Decode(o.state, a[1..])
        case None =>
        case Some(p) => GiveTwice(o.bytes, p.bytes, Decode(p.state, b));
    }
  }

  /** The text without white space. */
  function Strip(text: string): string {
    if text == "" then "" else (if Val(text[0]) == SPACE then "" else [text[0]]) + Strip(text[1..])
  }

  /** White space makes no difference anywhere. */
  lemma {:induction false} SpacesIgnored(s: State, text: string)
    ensures Decode(s, text) == Decode(s, Strip(text))
    decreases |text|
  {
    if text != "" {
      if Val(text[0]) == SPACE {
        SpacesIgnored(s, text[1..]);
        assert "" + Strip(text[1..]) == Strip(text[1..]);
        GiveTwice([], [], Decode(s, text[1..]));
      } else {
        assert Strip(text)[1..] == Strip(text[1..]);
        match Step(s, text[0])
        case None =>
        case Some(o) => SpacesIgnored(o.state, text[1..]);
      }
    }
  }

  // ---------- decoding undoes encoding ----------

  lemma OneMore(s: State, c: char, rest: string)
    ensures Decode(s, [c] + rest) == if Step(s, c) == None then None else Give(Step(s, c).value.bytes, Decode(Step(s, c).value.state, rest))
  {
    assert ([c] + rest)[1..] == rest;
  }

  lemma {:induction false} SecondIs(a: nat, b: nat)
    requires b < 256
    ensures (a * 16 + b / 16) % 64 == a % 4 * 16 + b / 16
  {
    DivMod(a * 16 + b / 16, 64, a / 4, a % 4 * 16 + b / 16);
  }

  lemma {:induction false} ThirdIs(b: nat, c: nat)
    requires c < 256
    ensures (b * 4 + c / 64) % 64 == b % 16 * 4 + c / 64
  {
    DivMod(b * 4 + c / 64, 64, b / 16, b % 16 * 4 + c / 64);
  }

  /** The six-bit parts of three bytes. */
  lemma {:induction false} SextetsBack(a: Byte, b: Byte, c: Byte)
    ensures First(a) == Letter(a / 4) && Second(a, b) == Letter(a % 4 * 16 + b / 16)
    ensures Third(b, c) == Letter(b % 16 * 4 + c / 64) && Fourth(c) == Letter(c % 64)
  {
    hide Letter;
    SecondIs(a, b);
    ThirdIs(b, c);
  }

  lemma {:induction false} TakeLetter(s: State, v: nat, rest: string)
    requires v < 64 && s.padding == 0
    ensures Decode(s, [Letter(v)] + rest) == Give(Take(s, v).bytes, Decode(Take(s, v).state, rest))
  {
    hide Letter, Decode;
    ValOfChar(v);
    OneMore(s, Letter(v), rest);
  }

  lemma {:induction false} TakeEnd(s: State, rest: string)
    requires 2 <= s.bits && s.padding <= 2 && s.low == 0
    ensures Decode(s, "=" + rest) == Decode(State(s.bits - 2, 0, s.padding + 1), rest)
  {
    hide Decode;
    OneMore(s, '=', rest);
    GiveTwice([], [], Decode(State(s.bits - 2, 0, s.padding + 1), rest));
  }

  /** The bytes of four six-bit values. */
  function Byte0(v0: nat, v1: nat): Byte {
    (v0 * 4 + v1 / 16) % 256
  }

  function Byte1(v1: nat, v2: nat): Byte {
    (v1 % 16 * 16 + v2 / 4) % 256
  }

  function Byte2(v2: nat, v3: nat): Byte {
    (v2 % 4 * 64 + v3) % 256
  }

  lemma {:induction false} TwoLetters(v0: nat, v1: nat, rest: string)
    requires v0 < 64 && v1 < 64
    ensures Decode(START, [Letter(v0)] + ([Letter(v1)] + rest)) == Give([Byte0(v0, v1)], Decode(State(4, v1 % 16, 0), rest))
  {
    hide Letter, Decode;
    TakeLetter(START, v0, [Letter(v1)] + rest);
    TakeLetter(State(6, v0, 0), v1, rest);
    GiveTwice([], [], Decode(State(6, v0, 0), [Letter(v1)] + rest));
  }

  lemma {:induction false} ThreeLetters(v0: nat, v1: nat, v2: nat, rest: string)
    requires v0 < 64 && v1 < 64 && v2 < 64
    ensures Decode(START, [Letter(v0)] + ([Letter(v1)] + ([Letter(v2)] + rest)))
            == Give([Byte0(v0, v1), Byte1(v1, v2)], Decode(State(2, v2 % 4, 0), rest))
  {
    hide Letter, Decode, Byte0, Byte1;
    TwoLetters(v0, v1, [Letter(v2)] + rest);
    TakeLetter(State(4, v1 % 16, 0), v2, rest);
    assert Take(State(4, v1 % 16, 0), v2) == Out(State(2, v2 % 4, 0), [Byte1(v1, v2)]) by { Byte1Is(v1, v2); }
    GiveTwice([Byte0(v0, v1)], [Byte1(v1, v2)], Decode(State(2, v2 % 4, 0), rest));
    assert [Byte0(v0, v1)] + [Byte1(v1, v2)] == [Byte0(v0, v1), Byte1(v1, v2)];
  }

  lemma Byte1Is(v1: nat, v2: nat)
    ensures Byte1(v1, v2) == (v1 % 16 * 16 + v2 / 4) % 256
  {
  }

  lemma {:induction false} FourLetters(v0: nat, v1: nat, v2: nat, v3: nat, rest: string)
    requires v0 < 64 && v1 < 64 && v2 < 64 && v3 < 64
    ensures Decode(START, [Letter(v0)] + ([Letter(v1)] + ([Letter(v2)] + ([Letter(v3)] + rest))))
            == Give([Byte0(v0, v1), Byte1(v1, v2), Byte2(v2, v3)], Decode(START, rest))
  {
    hide Letter, Decode, Byte0, Byte1;
    ThreeLetters(v0, v1, v2, [Letter(v3)] + rest);
    TakeLetter(State(2, v2 % 4, 0), v3, rest);
    GiveTwice([Byte0(v0, v1), Byte1(v1, v2)], [Byte2(v2, v3)], Decode(START, rest));
    assert [Byte0(v0, v1), Byte1(v1, v2)] + [Byte2(v2, v3)] == [Byte0(v0, v1), Byte1(v1, v2), Byte2(v2, v3)];
  }

  lemma Back0(q: nat, r: nat, t: nat)
    requires q < 64 && r < 4 && t < 16
    ensures Byte0(q, r * 16 + t) == 4 * q + r
  {
    DivMod(r * 16 + t, 16, r, t);
  }

  lemma Back1(r: nat, p: nat, s: nat, t: nat)
    requires p < 16 && s < 16 && t < 4
    ensures Byte1(r * 16 + p, s * 4 + t) == 16 * p + s
  {
    DivMod(r * 16 + p, 16, r, p);
    DivMod(s * 4 + t, 4, s, t);
  }

  lemma Back2(s: nat, t: nat, w: nat)
    requires t < 4 && w < 64
    ensures Byte2(s * 4 + t, w) == 64 * t + w
  {
    DivMod(s * 4 + t, 4, s, t);
  }

  /** Three bytes from their six-bit parts. */
  lemma BytesBack(a: Byte, b: Byte, c: Byte)
    ensures Byte0(a / 4, a % 4 * 16 + b / 16) == a
    ensures Byte1(a % 4 * 16 + b / 16, b % 16 * 4 + c / 64) == b
    ensures Byte2(b % 16 * 4 + c / 64, c % 64) == c
  {
    hide Byte0, Byte1, Byte2;
    Back0(a / 4, a % 4, b / 16);
    Back1(a % 4, b / 16, b % 16, c / 64);
    Back2(b % 16, c / 64, c % 64);
  }

  /** Six-bit values from the bytes they make. */
  lemma {:induction false} PartsBack(v0: nat, v1: nat, v2: nat, v3: nat)
    requires v0 < 64 && v1 < 64 && v2 < 64 && v3 < 64
    ensures var (a, b, c) := (Byte0(v0, v1), Byte1(v1, v2), Byte2(v2, v3));
            && a / 4 == v0 && a % 4 * 16 + b / 16 == v1 && b % 16 * 4 + c / 64 == v2 && c % 64 == v3
  {
    hide Byte0, Byte1, Byte2;
    Split0(v0, v1);
    Split1(v1, v2);
    Split2(v2, v3);
  }

  lemma {:induction false} InByte(x: nat, y: nat, d: nat)
    requires y < d && x * d + y < 256
    ensures (x * d + y) % 256 / d == x && (x * d + y) % 256 % d == y
  {
    DivMod(x * d + y, 256, 0, x * d + y);
    DivMod(x * d + y, d, x, y);
  }

  lemma {:induction false} Split0(v0: nat, v1: nat)
    requires v0 < 64 && v1 < 64
    ensures Byte0(v0, v1) / 4 == v0 && Byte0(v0, v1) % 4 == v1 / 16
  {
    InByte(v0, v1 / 16, 4);
  }

  lemma {:induction false} Split1(v1: nat, v2: nat)
    requires v1 < 64 && v2 < 64
    ensures Byte1(v1, v2) / 16 == v1 % 16 && Byte1(v1, v2) % 16 == v2 / 4
  {
    InByte(v1 % 16, v2 / 4, 16);
  }

  lemma {:induction false} Split2(v2: nat, v3: nat)
    requires v2 < 64 && v3 < 64
    ensures Byte2(v2, v3) / 64 == v2 % 4 && Byte2(v2, v3) % 64 == v3
  {
    InByte(v2 % 4, v3, 64);
  }

  lemma Nest(w: char, x: char, y: char, z: char, rest: string)
    ensures [w, x, y, z] + rest == [w] + ([x] + ([y] + ([z] + rest)))
  {
  }

  // ---------- decoding undoes encoding ----------

  function Padding(n: nat): nat {
    if n % 3 == 0 then 0 else 3 - n % 3
  }

  lemma Sixteens(k: nat)
    ensures k * 16 % 16 == 0 && k * 16 + 0 / 16 == k * 16
  {
  }

  lemma OneByteParts(a: Byte)
    ensures First(a) == Letter(a / 4) && Second(a, 0) == Letter(a % 4 * 16) && Byte0(a / 4, a % 4 * 16) == a
  {
    hide Letter;
    var (q, r) := (a / 4, a % 4);
    assert a == 4 * q + r && q < 64;
    assert (a as int) * 16 + 0 / 16 == q * 64 + r * 16;
    assert (q * 64 + r * 16) % 64 == r * 16;
    assert (r * 16) / 16 == r;
  }

  lemma {:induction false} OneByteBack(a: Byte)
    ensures Decode(START, [First(a), Second(a, 0), '=', '=']) == Some(Out(State(0, 0, 2), [a]))
  {
    hide *;
    OneByteParts(a);
    Sixteens(a % 4);
    Nest(First(a), Second(a, 0), '=', '=', "");
    TwoLetters(a / 4, a % 4 * 16, "=" + ("=" + ""));
    TakeEnd(State(4, 0, 0), "=" + "");
    TakeEnd(State(2, 0, 1), "");
    Nothing(State(0, 0, 2));
    assert [First(a), Second(a, 0), '=', '='] + "" == [First(a), Second(a, 0), '=', '='];
  }

  lemma Nothing(s: State)
    ensures Decode(s, "") == Some(Out(s, [])) && forall b :: Give(b, Decode(s, "")) == Some(Out(s, b))
  {
    assert forall b: seq<Byte> :: b + [] == b;
  }

  lemma {:induction false} TwoBytesBack(a: Byte, b: Byte)
    ensures Decode(START, [First(a), Second(a, b), Third(b, 0), '=']) == Some(Out(State(0, 0, 1), [a, b]))
  {
    hide Letter, Decode, First, Second, Third, Byte0, Byte1;
    SextetsBack(a, b, 0);
    BytesBack(a, b, 0);
    var (v0, v1, v2) := (a / 4, a % 4 * 16 + b / 16, b % 16 * 4);
    Nest(First(a), Second(a, b), Third(b, 0), '=', "");
    ThreeLetters(v0, v1, v2, "=" + "");
    assert v2 % 4 == 0;
    TakeEnd(State(2, 0, 0), "");
    Nothing(State(0, 0, 1));
    assert [First(a), Second(a, b), Third(b, 0), '='] + "" == [First(a), Second(a, b), Third(b, 0), '='];
  }

  lemma {:induction false} ThreeBytesBack(a: Byte, b: Byte, c: Byte, rest: string)
    ensures Decode(START, [First(a), Second(a, b), Third(b, c), Fourth(c)] + rest) == Give([a, b, c], Decode(START, rest))
  {
    hide Letter, Decode, First, Second, Third, Fourth, Byte0, Byte1, Byte2;
    SextetsBack(a, b, c);
    BytesBack(a, b, c);
    Nest(First(a), Second(a, b), Third(b, c), Fourth(c), rest);
    FourLetters(a / 4, a % 4 * 16 + b / 16, b % 16 * 4 + c / 64, c % 64, rest);
  }

  /** Decoding the text of any byte string gives it back, with the decoder ready to finish. */
  lemma {:induction false} RoundTrip(b: seq<Byte>)
    ensures Decode(START, Encoded(b)) == Some(Out(State(0, 0, Padding(|b|)), b))
  {
    hide Decode, Encoded, First, Second, Third, Fourth;
    assert b[0..] == b;
    if b == [] {
      NoText(b);
      Nothing(START);
    } else if |b| <= 2 {
      TailText(b, 0);
      if |b| == 1 {
        OneByteBack(b[0]);
        assert [b[0]] == b;
      } else {
        TwoBytesBack(b[0], b[1]);
        assert [b[0], b[1]] == b;
      }
    } else {
      GroupText(b, 0);
      RoundTrip(b[3..]);
      ThreeBytesBack(b[0], b[1], b[2], Encoded(b[3..]));
      assert [b[0], b[1], b[2]] + b[3..] == b;
      assert Padding(|b[3..]|) == Padding(|b|);
    }
  }

  /** White space anywhere does not matter to the round trip. */
  lemma {:induction false} RoundTripSpaced(b: seq<Byte>, text: string)
    requires Strip(text) == Encoded(b)
    ensures Decode(START, text) == Some(Out(State(0, 0, Padding(|b|)), b))
  {
    SpacesIgnored(START, text);
    RoundTrip(b);
  }

  // ---------- exactly what is accepted ----------

  ghost predicate NoSpace(text: string) {
    forall i :: 0 <= i < |text| ==> Val(text[i]) != SPACE
  }

  /** base64_decode_update and then base64_decode_final succeed with output `o`. */
  ghost predicate Accepted(s: State, text: string, o: seq<Byte>) {
    Decode(s, text).Some? && Decode(s, text).value.state.bits == 0 && Decode(s, text).value.bytes == o
  }

  lemma AcceptedGive(s: State, text: string, b: seq<Byte>, s': State, rest: string, o: seq<Byte>)
    requires Decode(s, text) == Give(b, Decode(s', rest)) && Accepted(s, text, o)
    ensures |b| <= |o| && o == b + o[|b|..] && Accepted(s', rest, o[|b|..])
  {
  }

  function Pads(n: nat): string {
    if n < 2 then "" else "=" + Pads(n - 2)
  }

  /** Once padding has started, only the padding that is due is accepted. */
  lemma {:induction false} OnlyPads(s: State, text: string, o: seq<Byte>)
    requires 1 <= s.padding && s.low == 0 && s.bits % 2 == 0 && NoSpace(text) && Accepted(s, text, o)
    ensures text == Pads(s.bits) && o == []
    decreases |text|
  {
    if text != "" {
      var s' := State(s.bits - 2, 0, s.padding + 1);
      assert text == "=" + text[1..] by { EndChar(text[0]); }
      TakeEnd(s, text[1..]);
      OnlyPads(s', text[1..], o);
    }
  }

  lemma EndChar(c: char)
    requires Val(c) == END
    ensures c == '='
  {
  }

  /** What can be accepted with output `o`: its text, or for whole groups that text and a null group. */
  ghost predicate Acceptable(text: string, o: seq<Byte>) {
    text == Encoded(o) || (|o| % 3 == 0 && text == Encoded(o) + "A===")
  }

  /** The first character is a letter, and the rest is decoded with its six bits held. */
  lemma {:induction false} FirstLetter(text: string, o: seq<Byte>)
    requires text != "" && NoSpace(text) && Accepted(START, text, o)
    ensures var v := Val(text[0]);
            && 0 <= v < 64 && text[0] == Letter(v) && text == [Letter(v)] + text[1..]
            && Accepted(State(6, v, 0), text[1..], o)
  {
    hide Letter;
    assert Val(text[0]) >= 0;
    CharOfVal(text[0]);
    TakeLetter(START, Val(text[0]), text[1..]);
    GiveTwice([], [], Decode(State(6, Val(text[0]), 0), text[1..]));
  }

  /** With bits held, another letter or padding over zero bits. */
  lemma {:induction false} NextChar(s: State, text: string, o: seq<Byte>)
    requires s.bits in {2, 4, 6} && s.padding == 0 && NoSpace(text) && Accepted(s, text, o)
    ensures text != ""
    ensures var v := Val(text[0]);
            if v >= 0 then
              && v < 64 && text[0] == Letter(v) && text == [Letter(v)] + text[1..]
              && Take(s, v).bytes <= o && Accepted(Take(s, v).state, text[1..], o[|Take(s, v).bytes|..])
            else s.low == 0 && o == [] && text == Pads(s.bits)
  {
    hide Letter;
    var v := Val(text[0]);
    if v >= 0 {
      CharOfVal(text[0]);
      TakeLetter(s, v, text[1..]);
      AcceptedGive(s, text, Take(s, v).bytes, Take(s, v).state, text[1..], o);
    } else {
      EndChar(text[0]);
      assert text == "=" + text[1..];
      TakeEnd(s, text[1..]);
      OnlyPads(State(s.bits - 2, 0, 1), text[1..], o);
    }
  }

  lemma PadsAre()
    ensures Pads(2) == "=" && Pads(4) == "==" && Pads(6) == "==="
  {
    assert Pads(0) == "";
    assert Pads(2) == "=" + "" && Pads(4) == "=" + Pads(2) && Pads(6) == "=" + Pads(4);
  }

  lemma {:induction false} EndsAfterOne(text: string)
    requires text == [Letter(0)] + Pads(6)
    ensures Acceptable(text, [])
  {
    PadsAre();
    NoText([]);
    assert "" + "A===" == "A===" && Letter(0) == 'A';
  }

  lemma {:induction false} EndsAfterTwo(v0: nat, v1: nat, text: string)
    requires v0 < 64 && v1 < 64 && v1 % 16 == 0 && text == [Letter(v0)] + ([Letter(v1)] + Pads(4))
    ensures Acceptable(text, [Byte0(v0, v1)])
  {
    hide Letter, First, Second, Third, Encoded, Pads;
    PadsAre();
    var b := [Byte0(v0, v1)];
    assert b[0..] == b;
    TailText(b, 0);
    OneByteParts(b[0]);
    TwoPartsBack(v0, v1);
  }

  lemma TwoPartsBack(v0: nat, v1: nat)
    requires v0 < 64 && v1 < 64 && v1 % 16 == 0
    ensures Byte0(v0, v1) / 4 == v0 && Byte0(v0, v1) % 4 * 16 == v1
  {
    InByte(v0, v1 / 16, 4);
  }

  lemma {:induction false} EndsAfterThree(v0: nat, v1: nat, v2: nat, text: string)
    requires v0 < 64 && v1 < 64 && v2 < 64 && v2 % 4 == 0
    requires text == [Letter(v0)] + ([Letter(v1)] + ([Letter(v2)] + Pads(2)))
    ensures Acceptable(text, [Byte0(v0, v1), Byte1(v1, v2)])
  {
    hide Letter, First, Second, Third, Encoded, Pads, Byte0, Byte1;
    PadsAre();
    var b := [Byte0(v0, v1), Byte1(v1, v2)];
    assert b[0..] == b;
    TailText(b, 0);
    PartsBack(v0, v1, v2, 0);
    NoThird(v2);
    SextetsBack(b[0], b[1], 0);
  }

  lemma NoThird(v2: nat)
    requires v2 % 4 == 0
    ensures Byte2(v2, 0) == 0
  {
  }

  lemma {:induction false} GroupOf(v0: nat, v1: nat, v2: nat, v3: nat, o: seq<Byte>)
    requires v0 < 64 && v1 < 64 && v2 < 64 && v3 < 64
    ensures Encoded([Byte0(v0, v1), Byte1(v1, v2), Byte2(v2, v3)] + o)
            == [Letter(v0), Letter(v1), Letter(v2), Letter(v3)] + Encoded(o)
  {
    hide *;
    var b := [Byte0(v0, v1), Byte1(v1, v2), Byte2(v2, v3)] + o;
    assert b[0..] == b && b[3..] == o;
    GroupText(b, 0);
    PartsBack(v0, v1, v2, v3);
    SextetsBack(b[0], b[1], b[2]);
  }

  lemma TextAfter(g: string, e: string, x: string)
    ensures g + (e + x) == g + e + x
  {
  }

  lemma {:induction false} GoesOn(v0: nat, v1: nat, v2: nat, v3: nat, rest: string, o: seq<Byte>)
    requires v0 < 64 && v1 < 64 && v2 < 64 && v3 < 64 && Acceptable(rest, o)
    ensures Acceptable([Letter(v0)] + ([Letter(v1)] + ([Letter(v2)] + ([Letter(v3)] + rest))),
                       [Byte0(v0, v1), Byte1(v1, v2), Byte2(v2, v3)] + o)
  {
    hide Letter, Encoded, Byte0, Byte1, Byte2;
    GroupOf(v0, v1, v2, v3, o);
    Nest(Letter(v0), Letter(v1), Letter(v2), Letter(v3), rest);
    TextAfter([Letter(v0), Letter(v1), Letter(v2), Letter(v3)], Encoded(o), "A===");
  }

  /** Nothing else is accepted. */
  lemma {:induction false} OnlyThese(text: string, o: seq<Byte>)
    requires NoSpace(text) && Accepted(START, text, o)
    ensures Acceptable(text, o)
    decreases |text|
  {
    hide Letter, Decode, Step, Encoded, Pads, Acceptable, Accepted, Byte0, Byte1, Byte2;
    if text == "" {
      EmptyAccepted(o);
    } else {
      FirstLetter(text, o);
      var (v0, t1) := (Val(text[0]), text[1..]);
      NextChar(State(6, v0, 0), t1, o);
      if Val(t1[0]) < 0 {
        EndsAfterOne(text);
      } else {
        Byte0Is(v0, Val(t1[0]));
        OnlyTwo(text, v0, t1, o);
      }
    }
  }

  lemma EmptyAccepted(o: seq<Byte>)
    requires Accepted(START, "", o)
    ensures Acceptable("", o)
  {
  }

  lemma {:induction false} OnlyTwo(text: string, v0: nat, t1: string, o: seq<Byte>)
    requires NoSpace(t1) && v0 < 64 && t1 != "" && 0 <= Val(t1[0]) < 64 && t1 == [Letter(Val(t1[0]))] + t1[1..]
    requires text == [Letter(v0)] + t1
    requires [Byte0(v0, Val(t1[0]))] <= o && Accepted(State(4, Val(t1[0]) % 16, 0), t1[1..], o[1..])
    ensures Acceptable(text, o)
    decreases |text|, 0
  {
    hide Letter, Decode, Step, Encoded, Pads, Acceptable, Accepted, Byte0, Byte1, Byte2;
    var (v1, t2) := (Val(t1[0]), t1[1..]);
    NextChar(State(4, v1 % 16, 0), t2, o[1..]);
    if Val(t2[0]) < 0 {
      EndsAfterTwo(v0, v1, text);
      assert o == [Byte0(v0, v1)];
    } else {
      var (v2, t3) := (Val(t2[0]), t2[1..]);
      Byte1Is(v1, v2);
      NextChar(State(2, v2 % 4, 0), t3, o[2..]);
      if Val(t3[0]) < 0 {
        EndsAfterThree(v0, v1, v2, text);
        assert o == [Byte0(v0, v1), Byte1(v1, v2)];
      } else {
        var (v3, t4) := (Val(t3[0]), t3[1..]);
        Byte2Is(v2, v3);
        assert o == [Byte0(v0, v1), Byte1(v1, v2), Byte2(v2, v3)] + o[3..];
        OnlyThese(t4, o[3..]);
        GoesOn(v0, v1, v2, v3, t4, o[3..]);
      }
    }
  }

  lemma Byte0Is(v0: nat, v1: nat)
    ensures Byte0(v0, v1) == (v0 * 4 + v1 / 16) % 256
  {
  }

  lemma Byte2Is(v2: nat, v3: nat)
    ensures Byte2(v2, v3) == (v2 % 4 * 64 + v3) % 256
  {
  }

  lemma {:induction false} NullGroup()
    ensures Accepted(START, "A===", [])
  {
    hide Decode;
    PadsAre();
    assert "A===" == [Letter(0)] + ("=" + ("=" + ("=" + "")));
    TakeLetter(START, 0, "=" + ("=" + ("=" + "")));
    TakeEnd(State(6, 0, 0), "=" + ("=" + ""));
    TakeEnd(State(4, 0, 1), "=" + "");
    TakeEnd(State(2, 0, 2), "");
    Nothing(State(0, 0, 3));
  }

  /**
   Update and final accept a text with output `o` exactly when, white space aside, it is the text of `o`,
   or `o` fills whole groups and the text of `o` is followed by "A===".
   */
  lemma {:induction false} AcceptedExactly(text: string, o: seq<Byte>)
    requires NoSpace(text)
    ensures Accepted(START, text, o) <==> Acceptable(text, o)
  {
    hide Decode, Encoded;
    if Accepted(START, text, o) { OnlyThese(text, o); }
    if Acceptable(text, o) {
      RoundTrip(o);
      if text != Encoded(o) {
        InPieces(START, Encoded(o), "A===");
        NullGroup();
        assert o + [] == o;
      }
    }
  }

  // ---------- the decoder in memory ----------

  predicate Sane(s: State) {
    s.bits in {0, 2, 4, 6} && s.low < Pow2(s.bits) && s.padding <= 3
  }

  lemma SaneStep(s: State, c: char)
    requires Sane(s) && Step(s, c).Some?
    ensures Sane(Step(s, c).value.state) && 8 * |Step(s, c).value.bytes| + Step(s, c).value.state.bits <= s.bits + 6
    ensures |Step(s, c).value.bytes| <= 1
  {
    Powers();
  }

  /** The output fits: at most six held bits and six more for each character. */
  lemma {:induction false} OutputBound(s: State, text: string)
    requires Sane(s) && Decode(s, text).Some?
    ensures 8 * |Decode(s, text).value.bytes| + Decode(s, text).value.state.bits <= s.bits + 6 * |text|
    ensures Sane(Decode(s, text).value.state)
    decreases |text|
  {
    hide Sane, Step;
    if text != "" {
      SaneStep(s, text[0]);
      OutputBound(Step(s, text[0]).value.state, text[1..]);
    }
  }

  /** A further character after some text. */
  lemma {:induction false} DecodeMore(s: State, text: string, c: char)
    ensures Decode(s, text + [c]) == Then(Decode(s, text), [c])
    ensures forall t :: Decode(t, [c]) == if Step(t, c).None? then None else Some(Step(t, c).value)
  {
    InPieces(s, text, [c]);
    forall t ensures Decode(t, [c]) == if Step(t, c).None? then None else Some(Step(t, c).value) {
      assert [c][1..] == "";
      if Step(t, c).Some? { Nothing(Step(t, c).value.state); }
    }
  }

  class DecodeCtx {
    var word: nat
    var bits: nat
    var padding: nat

    /** Only the low `bits` bits of the 16-bit word count. */
    ghost function Abs(): State
      reads this
    {
      State(bits, word % Pow2(bits), padding)
    }

    ghost predicate Valid()
      reads this
    {
      bits in {0, 2, 4, 6} && word < 65536 && padding <= 3
    }

    /** base64_decode_init. */
    constructor ()
      ensures Valid() && Abs() == START
    {
      word, bits, padding := 0, 0, 0;
      new;
      Powers();
    }

    /** base64_decode_single: -1 for an error, else the number of bytes made. */
    method Single(c: char) returns (r: int, b: Byte)
      requires Valid()
      modifies this
      ensures r == -1 <==> Step(old(Abs()), c).None?
      ensures r == -1 || r == 0 || r == 1
      ensures r >= 0 ==> Valid() && Step(old(Abs()), c) == Some(Out(Abs(), if r == 1 then [b] else []))
    {
      hide Pow2;
      Powers();
      b := 0;
      var data := Val(c);
      if data >= 0 {
        CharOfVal(c);
        if padding > 0 { return -1, b; }
        ghost var w := word;
        word := (word * 64 + data) % 65536;
        bits := bits + 6;
        ShiftedIn(w, data);
        if bits >= 8 {
          bits := bits - 8;
          b := word / Pow2(bits) % 256;
          return 1, b;
        } else {
          return 0, b;
        }
      } else if data == SPACE {
        return 0, b;
      } else if data == END {
        if bits == 0 || padding > 2 { return -1, b; }
        if word % Pow2(bits) != 0 { return -1, b; }
        ZeroLow(word, bits);
        padding := padding + 1;
        bits := bits - 2;
        return 0, b;
      } else {
        return -1, b;
      }
    }

    /** base64_decode_update. */
    method Update(dst: array<Byte>, src: string) returns (ok: bool, done: nat)
      requires Valid() && (|src| + 1) * 6 / 8 <= dst.Length
      modifies this, dst
      ensures ok <==> Decode(old(Abs()), src).Some?
      ensures ok ==> Valid() && done <= (|src| + 1) * 6 / 8 && Decode(old(Abs()), src) == Some(Out(Abs(), dst[..done]))
    {
      hide Decode, Step, Sane, DecodeCtx.Abs, DecodeCtx.Valid;
      ghost var s0 := Abs();
      IsSane();
      Nothing(s0);
      done := 0;
      var i := 0;
      assert src[..0] == "";
      while i < |src|
        invariant 0 <= i <= |src| && Valid() && done <= dst.Length
        invariant Decode(s0, src[..i]) == Some(Out(Abs(), dst[..done]))
      {
        DecodeMore(s0, src[..i], src[i]);
        assert src[..i + 1] == src[..i] + [src[i]];
        ghost var before := dst[..done];
        var r, b := Single(src[i]);
        if r == -1 {
          RefusedEarly(s0, src, i + 1);
          return false, done;
        }
        OutputBound(s0, src[..i + 1]);
        if r == 1 {
          Fits(|before| + 1, i + 1, |src|, s0.bits);
          dst[done] := b;
          done := done + 1;
          assert dst[..done] == before + [b];
        } else {
          assert dst[..done] == before + [];
        }
        i := i + 1;
      }
      assert src[..|src|] == src;
      OutputBound(s0, src);
      Fits(done, |src|, |src|, s0.bits);
      ok := true;
    }

    /** What is refused at the front is refused as a whole. */
    static lemma RefusedEarly(s: State, text: string, i: nat)
      requires i <= |text| && Decode(s, text[..i]).None?
      ensures Decode(s, text).None?
    {
      hide Decode;
      InPieces(s, text[..i], text[i..]);
      assert text[..i] + text[i..] == text;
    }

    lemma IsSane()
      requires Valid()
      ensures Sane(Abs()) && Abs().bits <= 6
    {
    }

    /**
     base64_decode_final: `text` was fed and `o` came out. It succeeds exactly when that text, without white
     space, is an encoding of the output or one with a null group after it.
     */
    method Final(ghost text: string, ghost o: seq<Byte>) returns (ok: bool)
      requires Valid() && Decode(START, text) == Some(Out(Abs(), o))
      ensures ok <==> Acceptable(Strip(text), o)
    {
      hide Decode, Strip, Acceptable;
      SpacesIgnored(START, text);
      Stripped(text);
      AcceptedExactly(Strip(text), o);
      ok := bits == 0;
    }
  }

  lemma {:induction false} Stripped(text: string)
    ensures NoSpace(Strip(text))
  {
    if text != "" { Stripped(text[1..]); }
  }

  /** A text that does not decode is no encoding of anything. */
  lemma {:induction false} NothingDecodes(text: string, o: seq<Byte>)
    requires Decode(START, text).None? || Decode(START, text).value.bytes != o
    ensures !Acceptable(Strip(text), o)
  {
    hide Decode, Strip, Acceptable;
    SpacesIgnored(START, text);
    Stripped(text);
    AcceptedExactly(Strip(text), o);
  }

  /**
   Any text in any pieces through base64_decode_update and base64_decode_final: accepted exactly when it is,
   white space aside, an encoding, or one followed by a null group, and then the output is what was encoded.
   */
  method DecodePieces(pieces: seq<string>) returns (ok: bool, out: seq<Byte>)
    ensures ok ==> Acceptable(Strip(Flatten(pieces)), out)
    ensures !ok ==> forall o :: !Acceptable(Strip(Flatten(pieces)), o)
  {
    hide Decode, Strip, Acceptable, Flatten, DecodeCtx.Abs, DecodeCtx.Valid;
    var ctx := new DecodeCtx();
    out := [];
    FlattenNone<char>();
    Nothing(START);
    var i := 0;
    assert pieces[..0] == [];
    while i < |pieces|
      invariant 0 <= i <= |pieces| && fresh(ctx) && ctx.Valid()
      invariant Decode(START, Flatten(pieces[..i])) == Some(Out(ctx.Abs(), out))
    {
      FlattenMore(pieces, i);
      InPieces(START, Flatten(pieces[..i]), pieces[i]);
      var dst := new Byte[(|pieces[i]| + 1) * 6 / 8](_ => 0);
      var good, done := ctx.Update(dst, pieces[i]);
      if !good {
        Cut(pieces, i + 1);
        InPieces(START, Flatten(pieces[..i + 1]), Flatten(pieces[i + 1..]));
        forall o ensures !Acceptable(Strip(Flatten(pieces)), o) { NothingDecodes(Flatten(pieces), o); }
        return false, out;
      }
      out := out + dst[..done];
      i := i + 1;
    }
    assert pieces[..i] == pieces;
    ok := ctx.Final(Flatten(pieces), out);
    forall o | !ok ensures !Acceptable(Strip(Flatten(pieces)), o) {
      if o != out { NothingDecodes(Flatten(pieces), o); }
    }
  }

  lemma {:induction false} Cut(pieces: seq<string>, i: nat)
    requires i <= |pieces|
    ensures Flatten(pieces) == Flatten(pieces[..i]) + Flatten(pieces[i..])
    decreases |pieces| - i
  {
    if i == |pieces| {
      assert pieces[..i] == pieces && pieces[i..] == [];
    } else {
      Cut(pieces, i + 1);
      FlattenMore(pieces, i);
      assert pieces[i..][0] == pieces[i] && pieces[i..][1..] == pieces[i + 1..];
    }
  }

  lemma Fits(n: nat, i: nat, len: nat, bits: nat)
    requires 8 * n <= bits + 6 * i && i <= len && bits <= 6
    ensures n <= (len + 1) * 6 / 8
  {
  }

  /** The low bits of a word after six bits are shifted in. */
  lemma {:induction false} ShiftedIn(w: nat, v: nat)
    requires v < 64
    ensures var x := (w * 64 + v) % 65536;
            && x % 64 == v && x / 16 % 256 == (w % 64 * 4 + v / 16) % 256 && x % 16 == v % 16
            && x / 4 % 256 == (w % 16 * 16 + v / 4) % 256 && x % 4 == v % 4
            && x / 1 % 256 == (w % 4 * 64 + v) % 256
  {
    var m := w % 1024;
    ModShift(w, v);
    LowParts(m, v);
    HighParts64(m, v);
    HighParts16(m, v);
    HighParts4(m, v);
    SameLow(w);
  }

  lemma {:induction false} LowParts(m: nat, v: nat)
    requires v < 64
    ensures (m * 64 + v) % 64 == v && (m * 64 + v) % 16 == v % 16 && (m * 64 + v) % 4 == v % 4
  {
    DivMod(m * 64 + v, 64, m, v);
    DivMod(m * 64 + v, 16, m * 4 + v / 16, v % 16);
    DivMod(m * 64 + v, 4, m * 16 + v / 4, v % 4);
  }

  lemma {:induction false} HighParts64(m: nat, v: nat)
    requires v < 64
    ensures (m * 64 + v) / 16 % 256 == (m % 64 * 4 + v / 16) % 256
  {
    DivMod(m * 64 + v, 16, m * 4 + v / 16, v % 16);
    DivMod(m * 4 + v / 16, 256, m / 64, m % 64 * 4 + v / 16);
  }

  lemma {:induction false} HighParts16(m: nat, v: nat)
    requires v < 64
    ensures (m * 64 + v) / 4 % 256 == (m % 16 * 16 + v / 4) % 256
  {
    DivMod(m * 64 + v, 4, m * 16 + v / 4, v % 4);
    DivMod(m * 16 + v / 4, 256, m / 16, m % 16 * 16 + v / 4);
  }

  lemma {:induction false} HighParts4(m: nat, v: nat)
    requires v < 64
    ensures (m * 64 + v) / 1 % 256 == (m % 4 * 64 + v) % 256
  {
    DivMod(m * 64 + v, 256, m / 4, m % 4 * 64 + v);
  }

  lemma {:induction false} SameLow(w: nat)
    ensures w % 1024 % 64 == w % 64 && w % 1024 % 16 == w % 16 && w % 1024 % 4 == w % 4
  {
    var (q, r) := (w / 1024, w % 1024);
    DivMod(w, 64, 16 * q + r / 64, r % 64);
    DivMod(w, 16, 64 * q + r / 16, r % 16);
    DivMod(w, 4, 256 * q + r / 4, r % 4);
  }

  lemma {:induction false} ModShift(w: nat, v: nat)
    requires v < 64
    ensures (w * 64 + v) % 65536 == w % 1024 * 64 + v
  {
    DivMod(w * 64 + v, 65536, w / 1024, w % 1024 * 64 + v);
  }

  lemma {:induction false} ZeroLow(w: nat, bits: nat)
    requires bits in {2, 4, 6} && w % Pow2(bits) == 0
    ensures w % Pow2(bits - 2) == 0
  {
    hide Pow2;
    Powers();
    if bits == 6 { DivMod(w, 16, w / 64 * 4, 0); }
    if bits == 4 { DivMod(w, 4, w / 16 * 4, 0); }
  }
}
