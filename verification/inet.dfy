/**
 compat/inet_ntop.cc and compat/inet_pton.cc: IPv4 and IPv6 addresses as text and back.
 */
module InetText {
  import opened Basics

  type Word = w: int | 0 <= w < 65536 witness 0

  // ---------- numbers as text ----------

  const LOWER: string := "0123456789abcdef"

  /** The value of a hexadecimal digit of either case, or 16. */
  function HexValue(c: char): (v: nat)
    ensures v <= 16
  {
    if '0' <= c <= '9' then c as int - '0' as int
    else if 'a' <= c <= 'f' then c as int - 'a' as int + 10
    else if 'A' <= c <= 'F' then c as int - 'A' as int + 10
    else 16
  }

  /** The digits and their values, of either case. */
  lemma HexDigits(c: char, d: nat)
    ensures HexValue(c) == d && d < 16 <==> d < 16 && (c == "0123456789abcdef"[d] || c == "0123456789ABCDEF"[d])
  {
  }

  /** The text of "%x". */
  function Hex(w: nat): (s: string)
    ensures s != []
  {
    if w < 16 then [LOWER[w]] else Hex(w / 16) + [LOWER[w % 16]]
  }

  /** The text of "%u". */
  function Dec(n: nat): (s: string)
    ensures s != []
  {
    if n < 10 then [LOWER[n]] else Dec(n / 10) + [LOWER[n % 10]]
  }

  lemma DigitValues(d: nat)
    requires d < 16
    ensures HexValue(LOWER[d]) == d && (d < 10 ==> '0' <= LOWER[d] <= '9' && LOWER[d] as int - '0' as int == d)
    ensures LOWER[d] != ':' && LOWER[d] != '.'
  {
  }

  ghost function HexFold(val: nat, s: string): nat
    decreases |s|
  {
    if s == [] then val else HexFold(val * 16 + HexValue(s[0]), s[1..])
  }

  ghost predicate AllHex(s: string) {
    forall i :: 0 <= i < |s| ==> HexValue(s[i]) < 16
  }

  lemma {:induction false} HexFoldLast(val: nat, s: string, c: char)
    ensures HexFold(val, s + [c]) == HexFold(val, s) * 16 + HexValue(c)
    decreases |s|
  {
    if s == [] {
      assert [c][1..] == [];
    } else {
      assert (s + [c])[1..] == s[1..] + [c];
      HexFoldLast(val * 16 + HexValue(s[0]), s[1..], c);
    }
  }

  lemma {:induction false} HexReads(w: nat)
    ensures AllHex(Hex(w)) && HexFold(0, Hex(w)) == w
  {
    DigitValues(w % 16);
    if w < 16 {
      assert Hex(w)[1..] == [];
    } else {
      HexReads(w / 16);
      HexFoldLast(0, Hex(w / 16), LOWER[w % 16]);
    }
  }

  lemma HexLength(w: Word)
    ensures 1 <= |Hex(w)| <= 4
  {
    if w >= 16 {
      assert |Hex(w)| == |Hex(w / 16)| + 1;
      if w >= 256 {
        assert |Hex(w / 16)| == |Hex(w / 256)| + 1 by { assert w / 16 / 16 == w / 256; }
        if w >= 4096 { assert |Hex(w / 256)| == |Hex(w / 4096)| + 1 by { assert w / 256 / 16 == w / 4096; } }
      }
    }
  }

  // ---------- IPv4 ----------

  /** Dotted quad. */
  function Quad(b: seq<Byte>): string
    requires |b| == 4
  {
    Dec(b[0]) + "." + Dec(b[1]) + "." + Dec(b[2]) + "." + Dec(b[3])
  }

  /** inet_ntop4: no text when it does not fit with its terminator; sixteen characters are always enough. */
  method Ntop4(src: seq<Byte>, size: nat) returns (r: Option<string>)
    requires |src| == 4
    ensures r.None? <==> |Quad(src)| >= size
    ensures r.Some? ==> r.value == Quad(src) && Parse4(r.value) == Some(src)
    ensures 16 <= size ==> r.Some?
  {
    hide Dec, Parse4;
    RoundTrip4(src);
    forall i | 0 <= i < 4 ensures |Dec(src[i])| <= 3 { DecLength(src[i]); }
    var tmp := Dec(src[0]) + "." + Dec(src[1]) + "." + Dec(src[2]) + "." + Dec(src[3]);
    if |tmp| >= size { return None; }
    return Some(tmp);
  }

  /** inet_pton4 from some point on: the finished octets, the current one, whether it has a digit, and the count. */
  function Scan4(s: string, done: seq<Byte>, cur: Byte, saw: bool, octets: nat): Option<seq<Byte>> {
    if s == [] then (if octets < 4 then None else Some(done + [cur]))
    else if '0' <= s[0] <= '9' then
      var nw := cur * 10 + (s[0] as int - '0' as int);
      if saw && cur == 0 then None
      else if nw > 255 then None
      else if !saw && octets + 1 > 4 then None
      else Scan4(s[1..], done, nw, true, if saw then octets else octets + 1)
    else if s[0] == '.' && saw then (if octets == 4 then None else Scan4(s[1..], done + [cur], 0, false, octets))
    else None
  }

  function Parse4(s: string): Option<seq<Byte>> {
    Scan4(s, [], 0, false, 0)
  }

  /** inet_pton4: exactly the dotted quads are read, each as its four bytes. */
  method Pton4(s: string) returns (r: Option<seq<Byte>>)
    ensures r == Parse4(s)
    ensures forall b :: r == Some(b) <==> |b| == 4 && s == Quad(b)
  {
    forall b ensures Parse4(s) == Some(b) <==> |b| == 4 && s == Quad(b) { Exactly4(s, b); }
    r := Read4(s);
  }

  /** The loop of inet_pton4. */
  method Read4(s: string) returns (r: Option<seq<Byte>>)
    ensures r == Parse4(s)
  {
    var done: seq<Byte>, cur: Byte, saw, octets, i := [], 0, false, 0, 0;
    assert s[0..] == s;
    while i < |s|
      invariant 0 <= i <= |s| && Parse4(s) == Scan4(s[i..], done, cur, saw, octets)
    {
      var ch := s[i];
      assert s[i..][0] == ch && s[i..][1..] == s[i + 1..];
      i := i + 1;
      if '0' <= ch <= '9' {
        var nw := cur * 10 + (ch as int - '0' as int);
        if saw && cur == 0 { return None; }
        if nw > 255 { return None; }
        cur := nw;
        if !saw {
          octets := octets + 1;
          if octets > 4 { return None; }
          saw := true;
        }
      } else if ch == '.' && saw {
        if octets == 4 { return None; }
        done, cur, saw := done + [cur], 0, false;
      } else {
        return None;
      }
    }
    if octets < 4 { return None; }
    return Some(done + [cur]);
  }

  lemma DecIs(n: nat)
    ensures Dec(n) == if n < 10 then [LOWER[n]] else Dec(n / 10) + [LOWER[n % 10]]
  {
  }

  lemma {:induction false} TwoDigits(b: nat, d: nat, rest: string, done: seq<Byte>, octets: nat)
    requires 0 < b < 10 && d < 10 && octets < 4
    ensures Scan4([LOWER[b]] + ([LOWER[d]] + rest), done, 0, false, octets)
            == Scan4(rest, done, 10 * b + d, true, octets + 1)
  {
    hide Scan4;
    OneDigit(b, [LOWER[d]] + rest, done, 0, false, octets);
    OneDigit(d, rest, done, b, true, octets + 1);
  }

  lemma {:induction false} ThreeDigits(c: nat, b: nat, d: nat, rest: string, done: seq<Byte>, octets: nat)
    requires 0 < c < 10 && b < 10 && d < 10 && octets < 4 && 100 * c + 10 * b + d < 256
    ensures Scan4([LOWER[c]] + ([LOWER[b]] + ([LOWER[d]] + rest)), done, 0, false, octets)
            == Scan4(rest, done, 100 * c + 10 * b + d, true, octets + 1)
  {
    hide Scan4;
    TwoDigits(c, b, [LOWER[d]] + rest, done, octets);
    OneDigit(d, rest, done, 10 * c + b, true, octets + 1);
  }

  /** The decimal digits of an octet. */
  lemma {:induction false} DecOctet(a: Byte)
    ensures a < 10 ==> Dec(a) == [LOWER[a]]
    ensures 10 <= a < 100 ==> Dec(a) == [LOWER[a / 10]] + [LOWER[a % 10]]
    ensures 100 <= a ==> Dec(a) == [LOWER[a / 10 / 10]] + [LOWER[a / 10 % 10]] + [LOWER[a % 10]]
  {
    hide Dec;
    DecIs(a);
    DecIs(a / 10);
    DecIs(a / 10 / 10);
  }

  lemma Prepend(x: string, y: string, z: string, rest: string)
    ensures x + y + rest == x + (y + rest) && x + y + z + rest == x + (y + (z + rest))
  {
  }

  /** Reading back one decimal octet. */
  lemma {:induction false} OctetReads(a: Byte, rest: string, done: seq<Byte>, octets: nat)
    requires octets < 4
    ensures Scan4(Dec(a) + rest, done, 0, false, octets) == Scan4(rest, done, a, true, octets + 1)
  {
    hide Scan4, Dec;
    DecOctet(a);
    var (c, b, d) := (a / 10 / 10, a / 10 % 10, a % 10);
    if a < 10 {
      OneDigit(a, rest, done, 0, false, octets);
    } else if a < 100 {
      Prepend([LOWER[a / 10]], [LOWER[d]], "", rest);
      TwoDigits(a / 10, d, rest, done, octets);
    } else {
      Prepend([LOWER[c]], [LOWER[b]], [LOWER[d]], rest);
      ThreeDigits(c, b, d, rest, done, octets);
    }
  }

  lemma OneDigit(d: nat, rest: string, done: seq<Byte>, cur: Byte, saw: bool, octets: nat)
    requires d < 10 && (saw ==> cur != 0 && octets > 0) && (!saw ==> octets < 4 && cur == 0) && cur * 10 + d < 256
    ensures Scan4([LOWER[d]] + rest, done, cur, saw, octets)
            == Scan4(rest, done, cur * 10 + d, true, if saw then octets else octets + 1)
  {
    DigitValues(d);
    assert ([LOWER[d]] + rest)[1..] == rest;
  }

  lemma Dot(rest: string, done: seq<Byte>, cur: Byte, octets: nat)
    requires octets < 4
    ensures Scan4("." + rest, done, cur, true, octets) == Scan4(rest, done + [cur], 0, false, octets)
  {
    assert ("." + rest)[1..] == rest;
  }

  /** inet_pton4 undoes inet_ntop4. */
  lemma {:induction false} RoundTrip4(b: seq<Byte>)
    requires |b| == 4
    ensures Parse4(Quad(b)) == Some(b)
  {
    hide Scan4, Dec;
    var t3 := Dec(b[3]);
    var t2 := Dec(b[2]) + ("." + t3);
    var t1 := Dec(b[1]) + ("." + t2);
    var t0 := Dec(b[0]) + ("." + t1);
    assert Quad(b) == t0;
    assert t3 == t3 + "";
    OctetReads(b[0], "." + t1, [], 0);
    Dot(t1, [], b[0], 1);
    OctetReads(b[1], "." + t2, [b[0]], 1);
    Dot(t2, [b[0]], b[1], 2);
    OctetReads(b[2], "." + t3, [b[0], b[1]], 2);
    Dot(t3, [b[0], b[1]], b[2], 3);
    OctetReads(b[3], "", [b[0], b[1], b[2]], 3);
    ScanEnd([b[0], b[1], b[2]], b[3]);
    assert [] + [b[0]] == [b[0]] && [b[0]] + [b[1]] == [b[0], b[1]] && [b[0], b[1]] + [b[2]] == [b[0], b[1], b[2]];
    assert b == [b[0], b[1], b[2]] + [b[3]];
  }

  lemma ScanEnd(done: seq<Byte>, cur: Byte)
    ensures Scan4("", done, cur, true, 4) == Some(done + [cur])
  {
  }

  // ---------- which texts are IPv4 addresses ----------

  /** The text read so far: finished octets, each with its dot, and the digits of the current one. */
  ghost function Read(done: seq<Byte>, cur: Byte, saw: bool): string {
    Dotted(done) + (if saw then Dec(cur) else "")
  }

  ghost function Dotted(done: seq<Byte>): string {
    if done == [] then "" else Dotted(done[..|done| - 1]) + Dec(done[|done| - 1]) + "."
  }

  lemma DottedMore(done: seq<Byte>, cur: Byte)
    ensures Dotted(done + [cur]) == Dotted(done) + Dec(cur) + "."
  {
    assert (done + [cur])[..|done|] == done;
  }

  lemma {:induction false} DottedQuad(done: seq<Byte>, cur: Byte)
    requires |done| == 3
    ensures Read(done, cur, true) == Quad(done + [cur])
  {
    hide Dec, Dotted;
    assert done == [] + [done[0]] + [done[1]] + [done[2]];
    DottedMore([], done[0]);
    DottedMore([] + [done[0]], done[1]);
    DottedMore([] + [done[0]] + [done[1]], done[2]);
    DottedNone();
  }

  lemma DottedNone()
    ensures Dotted([]) == ""
  {
  }

  /** One more digit of the current octet. */
  lemma {:induction false} DigitMore(done: seq<Byte>, cur: Byte, saw: bool, c: char, nw: Byte)
    requires '0' <= c <= '9' && nw == cur * 10 + (c as int - '0' as int) && (if saw then cur != 0 else cur == 0)
    ensures Read(done, nw, true) == Read(done, cur, saw) + [c]
  {
    hide Dec, Dotted;
    var d := c as int - '0' as int;
    DigitValues(d);
    assert LOWER[d] == c;
    DecIs(nw);
    if saw { assert nw / 10 == cur && nw % 10 == d; }
  }

  lemma {:induction false} ScanSound(s: string, done: seq<Byte>, cur: Byte, saw: bool, octets: nat, b: seq<Byte>)
    requires |done| + (if saw then 1 else 0) == octets <= 4 && (saw || octets < 4) && (!saw ==> cur == 0)
    requires Scan4(s, done, cur, saw, octets) == Some(b)
    ensures |b| == 4 && Read(done, cur, saw) + s == Quad(b)
    decreases |s|
  {
    hide Dec, Dotted, Read, Quad;
    if s == [] {
      DottedQuad(done, cur);
      assert Read(done, cur, saw) + s == Read(done, cur, saw);
    } else {
      assert s == [s[0]] + s[1..];
      if '0' <= s[0] <= '9' {
        var nw := cur * 10 + (s[0] as int - '0' as int);
        DigitMore(done, cur, saw, s[0], nw);
        ScanSound(s[1..], done, nw, true, if saw then octets else octets + 1, b);
        Prepend(Read(done, cur, saw), [s[0]], "", s[1..]);
      } else {
        DotMore(done, cur);
        ScanSound(s[1..], done + [cur], 0, false, octets, b);
        Prepend(Read(done, cur, saw), ".", "", s[1..]);
      }
    }
  }

  lemma DotMore(done: seq<Byte>, cur: Byte)
    ensures Read(done + [cur], 0, false) == Read(done, cur, true) + "."
  {
    hide Dec, Dotted;
    DottedMore(done, cur);
    assert Dotted(done) + Dec(cur) + "." + "" == Dotted(done) + Dec(cur) + ".";
  }

  /** inet_pton4 reads exactly the dotted quads without leading zeros, which is what inet_ntop4 writes. */
  lemma {:induction false} Exactly4(s: string, b: seq<Byte>)
    ensures Parse4(s) == Some(b) <==> |b| == 4 && s == Quad(b)
  {
    hide Scan4, Quad;
    if Parse4(s) == Some(b) {
      ScanSound(s, [], 0, false, 0, b);
      DottedNone();
      assert Read([], 0, false) + s == s;
    }
    if |b| == 4 && s == Quad(b) { RoundTrip4(b); }
  }

  // ---------- IPv6 to text ----------

  type Words8 = w: seq<Word> | |w| == 8 witness [0, 0, 0, 0, 0, 0, 0, 0]

  function Bytes(ws: seq<Word>): (b: seq<Byte>)
    ensures |b| == 2 * |ws|
  {
    if ws == [] then [] else [ws[0] / 256, ws[0] % 256] + Bytes(ws[1..])
  }

  /** Hexadecimal words with colons between them. */
  function Join(ws: seq<Word>): string {
    if ws == [] then "" else if |ws| == 1 then Hex(ws[0]) else Hex(ws[0]) + ":" + Join(ws[1..])
  }

  /** Hexadecimal words with a colon after each. */
  function Lead(ws: seq<Word>): string {
    if ws == [] then "" else Hex(ws[0]) + ":" + Lead(ws[1..])
  }

  /** `l` zero words from `b` on. */
  ghost predicate Zeros(w: seq<Word>, b: nat, l: nat) {
    b + l <= |w| && forall i :: b <= i < b + l ==> w[i] == 0
  }

  /** The run of zero words that is shortened: the leftmost among the longest, if that has two words at least. */
  ghost predicate IsBest(w: Words8, base: int, len: nat) {
    if base == -1 then forall b: nat, l: nat :: Zeros(w, b, l) ==> l < 2
    else
      && 0 <= base && Zeros(w, base, len) && 2 <= len
      && forall b: nat, l: nat :: Zeros(w, b, l) ==> l < len || (l == len && base <= b)
  }

  /** That run is determined by the address. */
  lemma BestUnique(w: Words8, base: int, len: nat, base': int, len': nat)
    requires IsBest(w, base, len) && IsBest(w, base', len')
    ensures base == base' && (base >= 0 ==> len == len')
  {
  }

  /** Is the last part written as a dotted quad? */
  predicate Embedded(w: Words8, base: int, len: nat) {
    base == 0 && (len == 6 || (len == 5 && w[5] == 0xffff))
  }

  /** The test in the code. Its middle case is never reached: a run of seven words covers word 6. */
  predicate Encapsulated(w: Words8, base: int, len: nat) {
    base == 0 && (len == 6 || (len == 7 && w[7] != 0x0001) || (len == 5 && w[5] == 0xffff))
  }

  /** The text of an address whose words `base` to `base + len` are shortened. */
  function Text6(w: Words8, base: int, len: nat): string
    requires base == -1 || (0 <= base && base + len <= 8)
  {
    if base == -1 then Join(w)
    else
      (if base == 0 then ":" else Lead(w[..base])) + ":" +
      (if Embedded(w, base, len) then Lead(w[len..6]) + Quad(Bytes(w[6..])) else Join(w[base + len..]))
  }

  /** words[i / 2] |= src[i] << ...: the address as words. */
  method ToWords(src: seq<Byte>) returns (w: seq<Word>)
    requires |src| == 16
    ensures |w| == 8 && Bytes(w) == src
  {
    w := [];
    ghost var rest := src;
    var i := 0;
    while i < 8
      invariant 0 <= i <= 8 && |w| == i && Bytes(w) == src[..2 * i]
    {
      var x: Word := (src[2 * i] as int) * 256 + src[2 * i + 1];
      BytesMore(w, x);
      assert src[..2 * i + 2] == src[..2 * i] + [src[2 * i], src[2 * i + 1]];
      w := w + [x];
      i := i + 1;
    }
    assert src[..16] == src;
  }

  lemma {:induction false} BytesMore(w: seq<Word>, x: Word)
    ensures Bytes(w + [x]) == Bytes(w) + [x / 256, x % 256]
  {
    if w == [] {
      assert [x][1..] == [];
    } else {
      assert (w + [x])[1..] == w[1..] + [x];
      BytesMore(w[1..], x);
    }
  }

  /** What the search knows when it has looked at `i` words: every zero run outside the current one is no better. */
  ghost predicate Looked(w: Words8, i: nat, base: int, len: nat, cur: int) {
    && i <= 8 && -1 <= cur < i && -1 <= base
    && (cur == -1 ==> i == 0 || w[i - 1] != 0)
    && (cur >= 0 ==> Zeros(w, cur, i - cur) && (cur == 0 || w[cur - 1] != 0))
    && (base >= 0 ==> Zeros(w, base, len) && 1 <= len && base + len <= (if cur == -1 then i else cur))
    && (forall b: nat, l: nat :: Zeros(w, b, l) && 1 <= l && b + l <= (if cur == -1 then i else cur) ==>
          base >= 0 && (l < len || (l == len && base <= b)))
  }

  lemma LookedZero(w: Words8, i: nat, base: int, len: nat, cur: int)
    requires Looked(w, i, base, len, cur) && i < 8 && w[i] == 0
    ensures Looked(w, i + 1, base, len, if cur == -1 then i else cur)
  {
  }

  /** The current run ends; it replaces a shorter best. */
  lemma {:induction false} LookedEnd(w: Words8, i: nat, base: int, len: nat, cur: int, b: nat, l: nat)
    requires Looked(w, i, base, len, cur) && (i < 8 ==> w[i] != 0)
    requires Zeros(w, b, l) && 1 <= l && b + l <= i
    ensures var take := cur >= 0 && (base == -1 || i - cur > len);
            var (base', len') := if take then (cur, i - cur) else (base, len);
            base' >= 0 && (l < len' || (l == len' && base' <= b))
  {
    assert cur > 0 ==> w[cur - 1] != 0;
  }

  /** The loop that finds the run to shorten. */
  method FindBest(w: Words8) returns (base: int, len: nat)
    ensures IsBest(w, base, len)
  {
    base, len := -1, 0;
    var cur, curLen := -1, 0;
    var i := 0;
    while i < 8
      invariant 0 <= i <= 8 && Looked(w, i, base, len, cur) && (cur >= 0 ==> curLen == i - cur)
    {
      if w[i] == 0 {
        LookedZero(w, i, base, len, cur);
        if cur == -1 { cur, curLen := i, 1; } else { curLen := curLen + 1; }
      } else {
        forall b: nat, l: nat | Zeros(w, b, l) && 1 <= l && b + l <= i
          ensures var take := cur >= 0 && (base == -1 || i - cur > len);
                  var (base', len') := if take then (cur, i - cur) else (base, len);
                  base' >= 0 && (l < len' || (l == len' && base' <= b))
        {
          LookedEnd(w, i, base, len, cur, b, l);
        }
        if cur != -1 {
          if base == -1 || curLen > len { base, len := cur, curLen; }
          cur := -1;
        }
      }
      i := i + 1;
    }
    forall b: nat, l: nat | Zeros(w, b, l) && 1 <= l
      ensures var take := cur >= 0 && (base == -1 || i - cur > len);
              var (base', len') := if take then (cur, i - cur) else (base, len);
              base' >= 0 && (l < len' || (l == len' && base' <= b))
    {
      LookedEnd(w, 8, base, len, cur, b, l);
    }
    if cur != -1 {
      if base == -1 || curLen > len { base, len := cur, curLen; }
    }
    if base != -1 && len < 2 { base := -1; }
  }

  // ---------- the formatting loop ----------

  /** What the loop adds for word `i`. */
  function Piece(w: Words8, base: int, len: nat, i: nat): string
    requires i < 8
  {
    if base != -1 && base <= i < base + len then (if i == base then ":" else "")
    else (if i != 0 then ":" else "") + Hex(w[i])
  }

  function Pieces(w: Words8, base: int, len: nat, i: nat): string
    requires i <= 8
  {
    if i == 0 then "" else Pieces(w, base, len, i - 1) + Piece(w, base, len, i - 1)
  }

  lemma PiecesIs(w: Words8, base: int, len: nat, i: nat)
    requires 0 < i <= 8
    ensures Pieces(w, base, len, i) == Pieces(w, base, len, i - 1) + Piece(w, base, len, i - 1)
  {
  }

  lemma {:induction false} JoinMore(ws: seq<Word>, x: Word)
    ensures Join(ws + [x]) == if ws == [] then Hex(x) else Join(ws) + ":" + Hex(x)
  {
    if ws != [] {
      assert (ws + [x])[1..] == ws[1..] + [x];
      JoinMore(ws[1..], x);
    }
  }

  lemma {:induction false} LeadIsJoin(ws: seq<Word>)
    requires ws != []
    ensures Lead(ws) == Join(ws) + ":"
  {
    if |ws| > 1 { LeadIsJoin(ws[1..]); }
  }

  /** Before the run, or without one, the pieces are the joined words. */
  lemma {:induction false} PiecesBefore(w: Words8, base: int, len: nat, i: nat)
    requires i <= 8 && (base == -1 || i <= base)
    ensures Pieces(w, base, len, i) == Join(w[..i])
  {
    if i > 0 {
      PiecesBefore(w, base, len, i - 1);
      assert w[..i] == w[..i - 1] + [w[i - 1]];
      JoinMore(w[..i - 1], w[i - 1]);
    }
  }

  function Front(w: Words8, base: nat): string
    requires base <= 8
  {
    if base == 0 then ":" else Lead(w[..base])
  }

  lemma {:induction false} PiecesInside(w: Words8, base: nat, len: nat, i: nat)
    requires base < i <= base + len <= 8
    ensures Pieces(w, base, len, i) == Front(w, base)
  {
    if i == base + 1 {
      PiecesBefore(w, base, len, base);
      if base > 0 { LeadIsJoin(w[..base]); }
    } else {
      PiecesInside(w, base, len, i - 1);
    }
  }

  lemma Regroup(a: string, b: string)
    ensures a + (":" + b) == a + ":" + b
  {
  }

  lemma Regroup3(a: string, b: string, c: string)
    ensures a + ":" + b + ":" + c == a + ":" + (b + ":" + c)
  {
  }

  lemma {:induction false} PiecesAfter(w: Words8, base: nat, len: nat, i: nat)
    requires 1 <= len && base + len < i <= 8
    ensures Pieces(w, base, len, i) == Front(w, base) + ":" + Join(w[base + len..i])
  {
    hide Join, Hex, Front, Pieces;
    var e := base + len;
    PiecesIs(w, base, len, i);
    assert w[e..i] == w[e..i - 1] + [w[i - 1]];
    JoinMore(w[e..i - 1], w[i - 1]);
    if i == e + 1 {
      PiecesInside(w, base, len, e);
      assert w[e..e] == [];
      Regroup(Front(w, base), Hex(w[i - 1]));
    } else {
      PiecesAfter(w, base, len, i - 1);
      Regroup(Front(w, base) + ":" + Join(w[e..i - 1]), Hex(w[i - 1]));
      Regroup3(Front(w, base), Join(w[e..i - 1]), Hex(w[i - 1]));
    }
  }

  /** The loop and the trailing colon make the text. */
  lemma {:induction false} PiecesText(w: Words8, base: int, len: nat)
    requires base == -1 || (0 <= base && 2 <= len && base + len <= 8)
    requires !Embedded(w, base, len)
    ensures (if base != -1 && base + len == 8 then Pieces(w, base, len, 8) + ":" else Pieces(w, base, len, 8))
            == Text6(w, base, len)
  {
    if base == -1 {
      PiecesBefore(w, base, len, 8);
      assert w[..8] == w;
    } else if base + len == 8 {
      PiecesInside(w, base, len, 8);
      assert w[8..] == [];
    } else {
      PiecesAfter(w, base, len, 8);
      assert w[base + len..8] == w[base + len..];
    }
  }

  /** The dotted quad after six words. */
  lemma {:induction false} PiecesQuad(w: Words8, len: nat)
    requires Embedded(w, 0, len)
    ensures Pieces(w, 0, len, 6) + ":" + Quad(Bytes(w[6..])) == Text6(w, 0, len)
  {
    hide Hex, Quad, Bytes, Lead, Join, Pieces;
    var q := Quad(Bytes(w[6..]));
    LeadFew(w[5]);
    if len == 6 {
      PiecesInside(w, 0, len, 6);
      assert w[6..6] == [];
      assert ":" + ":" + q == ":" + ":" + ("" + q);
    } else {
      PiecesAfter(w, 0, len, 6);
      assert w[5..6] == [w[5]];
      JoinOne(w[5]);
      assert ":" + ":" + Hex(w[5]) + ":" + q == ":" + ":" + (Hex(w[5]) + ":" + q);
    }
  }

  lemma LeadFew(x: Word)
    ensures Lead([]) == "" && Lead([x]) == Hex(x) + ":"
  {
    assert [x][1..] == [] && Hex(x) + ":" + Lead([]) == Hex(x) + ":";
  }

  lemma JoinOne(x: Word)
    ensures Join([x]) == Hex(x)
  {
  }

  lemma BestRange(w: Words8, base: int, len: nat)
    requires IsBest(w, base, len)
    ensures base == -1 || (0 <= base && 2 <= len && base + len <= 8)
  {
  }

  lemma PiecesNone(w: Words8, base: int, len: nat)
    ensures Pieces(w, base, len, 0) == ""
  {
  }

  lemma {:induction false} BytesTail(w: seq<Word>, k: nat)
    requires k <= |w|
    ensures Bytes(w)[2 * k..] == Bytes(w[k..])
  {
    if k > 0 {
      BytesTail(w[1..], k - 1);
      assert w[1..][k - 1..] == w[k..];
      assert Bytes(w)[2 * k..] == Bytes(w[1..])[2 * (k - 1)..];
    }
  }

  lemma DecLength(b: Byte)
    ensures 1 <= |Dec(b)| <= 3
  {
    if b >= 10 {
      assert |Dec(b)| == |Dec(b / 10)| + 1;
      if b >= 100 { assert |Dec(b / 10)| == |Dec(b / 100)| + 1 by { assert b / 10 / 10 == b / 100; } }
    }
  }

  lemma {:induction false} JoinLength(ws: seq<Word>)
    ensures |Join(ws)| <= 5 * |ws| && |Lead(ws)| <= 5 * |ws|
    ensures ws != [] ==> |Join(ws)| <= 5 * |ws| - 1
  {
    if ws != [] {
      HexLength(ws[0]);
      JoinLength(ws[1..]);
    }
  }

  lemma {:induction false} QuadFits(w: Words8, len: nat)
    requires Embedded(w, 0, len)
    ensures |Pieces(w, 0, len, 6)| <= 6 && |Quad(Bytes(w[6..]))| <= 15
  {
    var b := Bytes(w[6..]);
    DecLength(b[0]);
    DecLength(b[1]);
    DecLength(b[2]);
    DecLength(b[3]);
    if len == 6 {
      PiecesInside(w, 0, len, 6);
    } else {
      PiecesAfter(w, 0, len, 6);
      JoinLength(w[5..6]);
    }
  }

  /** Every text fits the 46-byte buffer with its terminator, so nothing is cut off. */
  lemma {:induction false} TextFits(w: Words8, base: int, len: nat)
    requires base == -1 || (0 <= base && 2 <= len && base + len <= 8)
    ensures |Text6(w, base, len)| < 46
  {
    if base == -1 {
      JoinLength(w);
    } else {
      JoinLength(w[..base]);
      if Embedded(w, base, len) {
        QuadFits(w, len);
        JoinLength(w[len..6]);
      } else {
        JoinLength(w[base + len..]);
      }
    }
  }

  /** inet_ntop6: the text, or nothing when it does not fit with its terminator. */
  method Ntop6(src: seq<Byte>, size: nat) returns (r: Option<string>, ghost w: Words8, ghost base: int, ghost len: nat)
    requires |src| == 16
    ensures Bytes(w) == src && IsBest(w, base, len) && (base == -1 || (0 <= base && base + len <= 8))
    ensures r == if |Text6(w, base, len)| + 1 > size then None else Some(Text6(w, base, len))
  {
    hide Join, Lead, Quad, Hex, Bytes, IsBest, Text6, Pieces;
    var words := ToWords(src);
    w := words;
    var b, l := FindBest(words);
    BestRange(words, b, l);
    base, len := b, l;
    var tmp := "";
    assert Pieces(words, b, l, 0) == "" by { PiecesNone(words, b, l); }
    var i := 0;
    var quad := false;
    while i < 8 && !quad
      invariant 0 <= i <= 8
      invariant !quad ==> tmp == Pieces(words, b, l, i) && (Embedded(words, b, l) ==> i <= 6)
      invariant quad ==> Embedded(words, b, l) && tmp == Text6(words, b, l)
      decreases 8 - i, !quad
    {
      PiecesIs(words, b, l, i + 1);
      if b != -1 && b <= i < b + l {
        if i == b { tmp := tmp + ":"; }
        i := i + 1;
      } else if i == 6 && Encapsulated(words, b, l) {
        PiecesQuad(words, l);
        QuadFits(words, l);
        assert src[12..] == Bytes(words[6..]) by { BytesTail(words, 6); }
        var q := Ntop4(src[12..], 46 - |tmp + ":"|);
        tmp := tmp + ":" + q.value;
        quad := true;
      } else {
        if i != 0 { tmp := tmp + ":"; }
        tmp := tmp + Hex(words[i]);
        i := i + 1;
      }
    }
    if !quad { PiecesText(words, b, l); }
    if b != -1 && b + l == 8 { tmp := tmp + ":"; }
    if |tmp| + 1 > size { return None, w, base, len; }
    r := Some(tmp);
  }

  // ---------- what the texts look like ----------

  /** Only digits, lower-case letters and colons. */
  ghost predicate Plain(s: string) {
    forall i :: 0 <= i < |s| ==> s[i] in "0123456789abcdef:"
  }

  ghost predicate Dotty(s: string) {
    forall i :: 0 <= i < |s| ==> s[i] in "0123456789."
  }

  lemma DigitIn(d: nat)
    requires d < 16
    ensures LOWER[d] in "0123456789abcdef:" && (d < 10 ==> LOWER[d] in "0123456789.") && (d > 0 ==> LOWER[d] != '0')
  {
    assert LOWER[d] == "0123456789abcdef:"[d];
    if d < 10 { assert LOWER[d] == "0123456789."[d]; }
  }

  /** A word is written in lower case and without leading zeros (section 4 of RFC 5952). */
  lemma {:induction false} HexShape(w: nat)
    ensures Plain(Hex(w)) && (w > 0 ==> Hex(w)[0] != '0') && (w == 0 ==> Hex(w) == "0")
  {
    DigitIn(w % 16);
    if w >= 16 { HexShape(w / 16); }
  }

  lemma {:induction false} DecShape(n: nat)
    ensures Dotty(Dec(n)) && (n > 0 ==> Dec(n)[0] != '0') && (n == 0 ==> Dec(n) == "0")
  {
    DigitIn(n % 10);
    if n >= 10 { DecShape(n / 10); }
  }

  lemma {:induction false} JoinPlain(ws: seq<Word>)
    ensures Plain(Join(ws)) && Plain(Lead(ws))
  {
    hide Hex;
    if ws != [] {
      HexShape(ws[0]);
      JoinPlain(ws[1..]);
    }
  }

  lemma {:induction false} QuadDotty(b: seq<Byte>)
    requires |b| == 4
    ensures Dotty(Quad(b)) && '.' in Quad(b)
  {
    hide Dec;
    DecShape(b[0]);
    DecShape(b[1]);
    DecShape(b[2]);
    DecShape(b[3]);
    assert Quad(b)[|Dec(b[0])|] == '.';
  }

  /** The words that make the shortened run end where a dotted quad is written. */
  lemma {:induction false} EmbeddedIff(w: Words8, base: int, len: nat)
    requires IsBest(w, base, len)
    ensures Embedded(w, base, len) <==>
            (forall i :: 0 <= i < 5 ==> w[i] == 0) && (w[5] == 0xffff || (w[5] == 0 && w[6] != 0))
  {
    if Embedded(w, base, len) {
      if len == 6 && w[6] == 0 { assert Zeros(w, 0, 7); }
    }
    if (forall i :: 0 <= i < 5 ==> w[i] == 0) && (w[5] == 0xffff || (w[5] == 0 && w[6] != 0)) {
      var n := if w[5] == 0 then 6 else 5;
      assert Zeros(w, 0, n);
      assert base != -1;
      assert w[n] != 0 && Zeros(w, base, len);
      assert len <= n;
    }
  }

  /**
   The text of an address is in lower case, and ends in a dotted quad exactly for an IPv4-compatible or an
   IPv4-mapped address: five zero words, then either ffff, or zero with something after it.
   */
  lemma {:induction false} TextShape(w: Words8, base: int, len: nat)
    requires IsBest(w, base, len) && (base == -1 || (0 <= base && base + len <= 8))
    ensures forall i :: 0 <= i < |Text6(w, base, len)| ==> Text6(w, base, len)[i] in "0123456789abcdef:."
    ensures '.' in Text6(w, base, len) <==>
            (forall i :: 0 <= i < 5 ==> w[i] == 0) && (w[5] == 0xffff || (w[5] == 0 && w[6] != 0))
  {
    hide Join, Lead, Quad, Hex, Bytes, IsBest, Zeros;
    EmbeddedIff(w, base, len);
    JoinPlain(w);
    if base != -1 {
      JoinPlain(w[..base]);
      JoinPlain(w[base + len..]);
      var front := if base == 0 then ":" else Lead(w[..base]);
      assert Plain(front + ":");
      if Embedded(w, base, len) {
        JoinPlain(w[len..6]);
        QuadDotty(Bytes(w[6..]));
        ShapeMixed(front + ":", Lead(w[len..6]), Quad(Bytes(w[6..])));
      } else {
        ShapePlain(front + ":" + Join(w[base + len..]));
      }
    } else {
      ShapePlain(Join(w));
    }
  }

  lemma ShapePlain(s: string)
    requires Plain(s)
    ensures '.' !in s && forall i :: 0 <= i < |s| ==> s[i] in "0123456789abcdef:."
  {
  }

  lemma ShapeMixed(a: string, b: string, q: string)
    requires Plain(a) && Plain(b) && Dotty(q) && '.' in q
    ensures var s := a + (b + q); '.' in s && forall i :: 0 <= i < |s| ==> s[i] in "0123456789abcdef:."
  {
    var s := a + (b + q);
    var k :| 0 <= k < |q| && q[k] == '.';
    assert s[|a| + |b| + k] == '.';
  }
}
