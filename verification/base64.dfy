/**
 lib/base64.c: Base 64 (section 4 of RFC 4648), encoded in one go or in pieces, and decoded in pieces.
 */
module Base64 {
  import opened Basics
  import opened Arithmetic

  /** The encode table: A to Z, a to z, 0 to 9, plus and slash. */
  function Letter(v: nat): char {
    if v < 26 then ('A' as int + v) as char
    else if v < 52 then ('a' as int + v - 26) as char
    else if v < 62 then ('0' as int + v - 52) as char
    else if v == 62 then '+'
    else '/'
  }

  /** The alphabet of table 1 of RFC 4648. */
  lemma Alphabet(v: nat)
    ensures v < 26 ==> Letter(v) == "ABCDEFGHIJKLMNOPQRSTUVWXYZ"[v]
    ensures 26 <= v < 52 ==> Letter(v) == "abcdefghijklmnopqrstuvwxyz"[v - 26]
    ensures 52 <= v < 64 ==> Letter(v) == "0123456789+/"[v - 52]
  {
  }

  /** ENCODE: the character for the low six bits. */
  function Char(x: nat): char {
    Letter(x % 64)
  }

  // ---------- the encoding ----------

  /** Three bytes as one 24-bit number. */
  function Group24(a: nat, b: nat, c: nat): nat {
    a * 65536 + b * 256 + c
  }

  /** The four six-bit parts of a 24-bit number, most significant first. */
  function Parts(g: nat): string {
    [Char(g / 262144), Char(g / 4096), Char(g / 64), Char(g)]
  }

  /** The text of a byte string: groups of three bytes, missing ones taken as zero and marked by padding. */
  function Encoded(s: seq<Byte>): string {
    if s == [] then ""
    else if |s| == 1 then Parts(Group24(s[0], 0, 0))[..2] + "=="
    else if |s| == 2 then Parts(Group24(s[0], s[1], 0))[..3] + "="
    else Parts(Group24(s[0], s[1], s[2])) + Encoded(s[3..])
  }

  function RawLength(n: nat): nat {
    (n + 2) / 3 * 4
  }

  lemma {:induction false} EncodedLength(s: seq<Byte>)
    ensures |Encoded(s)| == RawLength(|s|)
  {
    hide Parts, RawLength;
    RawLengths(|s|);
    if s == [] {
    } else if |s| <= 2 {
      PartsLength(Group24(s[0], if |s| == 2 then s[1] else 0, 0));
    } else {
      PartsLength(Group24(s[0], s[1], s[2]));
      EncodedLength(s[3..]);
    }
  }

  lemma RawLengths(n: nat)
    ensures RawLength(0) == 0 && RawLength(1) == 4 && RawLength(2) == 4 && (n >= 3 ==> RawLength(n) == RawLength(n - 3) + 4)
  {
  }

  lemma PartsLength(g: nat)
    ensures |Parts(g)| == 4
  {
  }

  // ---------- the characters as the code computes them ----------
  // The sums are bitwise ors of values that share no bit; Char cuts them to six bits.

  function First(a: nat): char {
    Char(a / 4)
  }

  function Second(a: nat, b: nat): char {
    Char(a * 16 + b / 16)
  }

  function Third(b: nat, c: nat): char {
    Char(b * 4 + c / 64)
  }

  function Fourth(c: nat): char {
    Char(c)
  }

  lemma {:induction false} SixtyFours(k: nat, y: nat)
    ensures Char(k * 64 + y) == Char(y)
  {
    hide Letter;
    DivMod(k * 64 + y, 64, k + y / 64, y % 64);
  }

  lemma {:induction false} PartsAre(a: Byte, b: Byte, c: Byte)
    ensures Parts(Group24(a, b, c)) == [First(a), Second(a, b), Third(b, c), Fourth(c)]
  {
    hide Char;
    var x: nat, y: nat, z: nat := a, b, c;
    var g := Group24(x, y, z);
    DivMod(g, 262144, x / 4, x % 4 * 65536 + y * 256 + z);
    DivMod(g, 4096, x * 16 + y / 16, y % 16 * 256 + z);
    DivMod(g, 64, x * 1024 + y * 4 + z / 64, z % 64);
    SixtyFours(x * 16, y * 4 + z / 64);
    SixtyFours(x * 1024 + y * 4, z);
  }

  lemma OneGroup(a: Byte, b: Byte, c: Byte, rest: seq<Byte>)
    ensures Encoded([a, b, c] + rest) == [First(a), Second(a, b), Third(b, c), Fourth(c)] + Encoded(rest)
  {
    hide Char;
    PartsAre(a, b, c);
    assert ([a, b, c] + rest)[3..] == rest;
  }

  lemma ShortGroups(a: Byte, b: Byte)
    ensures Encoded([]) == "" && Encoded([a]) == [First(a), Second(a, 0)] + "=="
    ensures Encoded([a, b]) == [First(a), Second(a, b), Third(b, 0)] + "="
  {
    hide Char;
    PartsAre(a, 0, 0);
    PartsAre(a, b, 0);
  }

  /** The examples of section 10 of RFC 4648: "f", "fo", "foo", "foob", "fooba" and "foobar". */
  lemma {:induction false} Vectors()
    ensures Encoded([]) == "" && Encoded([102]) == "Zg==" && Encoded([102, 111]) == "Zm8=" && Encoded([102, 111, 111]) == "Zm9v"
    ensures Encoded([102, 111, 111, 98]) == "Zm9vYg==" && Encoded([102, 111, 111, 98, 97]) == "Zm9vYmE="
    ensures Encoded([102, 111, 111, 98, 97, 114]) == "Zm9vYmFy"
  {
    hide Encoded, First, Second, Third, Fourth;
    Letters();
    ShortGroups(102, 111);
    ShortGroups(98, 97);
    assert [102, 111, 111] + [] == [102, 111, 111] && [98, 97, 114] + [] == [98, 97, 114];
    OneGroup(98, 97, 114, []);
    OneGroup(102, 111, 111, []);
    assert [102, 111, 111] + [98] == [102, 111, 111, 98] && [102, 111, 111] + [98, 97] == [102, 111, 111, 98, 97];
    OneGroup(102, 111, 111, [98]);
    OneGroup(102, 111, 111, [98, 97]);
    assert [102, 111, 111] + [98, 97, 114] == [102, 111, 111, 98, 97, 114];
    OneGroup(102, 111, 111, [98, 97, 114]);
  }

  lemma Letters()
    ensures First(102) == 'Z' && Second(102, 0) == 'g' && Second(102, 111) == 'm'
    ensures Third(111, 0) == '8' && Third(111, 111) == '9' && Fourth(111) == 'v'
    ensures First(98) == 'Y' && Second(98, 0) == 'g' && Second(98, 97) == 'm'
    ensures Third(97, 0) == 'E' && Third(97, 114) == 'F' && Fourth(114) == 'y'
  {
  }

  // ---------- encoding in one go, backwards ----------

  /** `text` stands between `out` and `end`; what is before `at` and after `end` is as it was. */
  ghost predicate Down(d0: string, d: string, at: nat, end: nat, out: nat, text: string) {
    && |d| == |d0| && at <= out <= end <= |d| && d[out..end] == text
    && d[..at] == d0[..at] && d[end..] == d0[end..]
  }

  lemma {:induction false} DownStep(d0: string, d: string, d': string, at: nat, end: nat, out: nat, text: string, four: string)
    requires Down(d0, d, at, end, out, text) && at + 4 <= out && |d'| == |d|
    requires d'[out - 4..out] == four && d'[..out - 4] == d[..out - 4] && d'[out..] == d[out..]
    ensures Down(d0, d', at, end, out - 4, four + text)
  {
    assert d'[0..out - 4] == d[0..out - 4] && d'[out..|d|] == d[out..|d|];
    Within(d, d', 0, out - 4, 0, at);
    Within(d, d', out, |d|, out, end);
    Within(d, d', out, |d|, end, |d|);
    assert d'[out - 4..end] == d'[out - 4..out] + d'[out..end];
  }

  lemma DownStart(d0: string, at: nat, end: nat)
    requires at <= end <= |d0|
    ensures Down(d0, d0, at, end, end, "")
  {
  }

  lemma DownMeans(d0: string, d: string, at: nat, end: nat, out: nat, text: string)
    requires Down(d0, d, at, end, out, text)
    ensures |d| == |d0| && at <= out <= end <= |d| && d[out..end] == text
    ensures d[..at] == d0[..at] && d[end..] == d0[end..]
  {
  }

  /** One turn of the loop of encode_raw. */
  method GroupDown(dst: array<char>, src: seq<Byte>, i: nat, out: nat, ghost d0: string, ghost at: nat, ghost end: nat)
    requires i + 3 <= |src| && at + 4 <= out && Down(d0, dst[..], at, end, out, Encoded(src[i + 3..]))
    modifies dst
    ensures Down(d0, dst[..], at, end, out - 4, Encoded(src[i..]))
  {
    hide *;
    ghost var d := dst[..];
    DownMeans(d0, d, at, end, out, Encoded(src[i + 3..]));
    GroupText(src, i);
    PutGroup(dst, out, src[i], src[i + 1], src[i + 2]);
    DownStep(d0, d, dst[..], at, end, out, Encoded(src[i + 3..]),
             [First(src[i]), Second(src[i], src[i + 1]), Third(src[i + 1], src[i + 2]), Fourth(src[i + 2])]);
  }

  /** The padded end, if there is one. */
  method TailDown(dst: array<char>, src: seq<Byte>, at: nat)
    requires at + RawLength(|src|) <= dst.Length
    modifies dst
    ensures var i := |src| - |src| % 3;
            Down(old(dst[..]), dst[..], at, at + RawLength(|src|), at + |src| / 3 * 4, Encoded(src[i..]))
  {
    hide *;
    Thirds(|src|);
    ghost var d0 := dst[..];
    var end := at + RawLength(|src|);
    var leftOver := |src| % 3;
    var i := |src| - leftOver;
    DownStart(d0, at, end);
    if leftOver == 0 {
      NoText(src[i..]);
      return;
    }
    TailText(src, i);
    EncodeTail(dst, end, src[i], if leftOver == 2 then src[i + 1] else 0, leftOver == 2);
    DownStep(d0, d0, dst[..], at, end, end, "", Encoded(src[i..]));
    assert Encoded(src[i..]) + "" == Encoded(src[i..]);
  }

  /** Slices of the whole array. */
  lemma Slices<T>(a: array<T>, lo: nat, hi: nat)
    requires lo <= hi <= a.Length
    ensures a[..][lo..hi] == a[lo..hi] && a[..][..lo] == a[..lo] && a[..][hi..] == a[hi..]
  {
  }

  /** encode_raw: from the last character to the first. */
  method EncodeRaw(dst: array<char>, at: nat, src: seq<Byte>)
    requires at + RawLength(|src|) <= dst.Length
    modifies dst
    ensures dst[at..at + RawLength(|src|)] == Encoded(src)
    ensures dst[..at] == old(dst[..at]) && dst[at + RawLength(|src|)..] == old(dst[at + RawLength(|src|)..])
  {
    hide *;
    Thirds(|src|);
    ghost var d0 := dst[..];
    var end := at + RawLength(|src|);
    Slices(dst, at, end);
    TailDown(dst, src, at);
    var i, out := |src| - |src| % 3, at + |src| / 3 * 4;
    ghost var k := |src| / 3;
    while i > 0
      invariant 0 <= i == 3 * k <= |src| && out == at + 4 * k && end <= dst.Length
      invariant Down(d0, dst[..], at, end, out, Encoded(src[i..]))
      decreases k
    {
      i := i - 3;
      GroupDown(dst, src, i, out, d0, at, end);
      out := out - 4;
      k := k - 1;
    }
    DownMeans(d0, dst[..], at, end, at, Encoded(src[0..]));
    assert src[0..] == src;
    Slices(dst, at, end);
  }

  lemma Thirds(n: nat)
    ensures RawLength(n) == n / 3 * 4 + (if n % 3 == 0 then 0 else 4)
    ensures n % 3 == 0 && n > 0 ==> n >= 3 && (n - 3) % 3 == 0 && (n - 3) / 3 * 4 == n / 3 * 4 - 4
    ensures (n - n % 3) % 3 == 0 && (n - n % 3) / 3 == n / 3 && n - n % 3 == 3 * (n / 3)
  {
  }

  lemma NoText(s: seq<Byte>)
    ensures s == [] ==> Encoded(s) == ""
  {
  }

  lemma {:induction false} TailText(src: seq<Byte>, i: nat)
    requires i < |src| <= i + 2
    ensures Encoded(src[i..]) ==
            if |src| == i + 1 then [First(src[i]), Second(src[i], 0), '=', '=']
            else [First(src[i]), Second(src[i], src[i + 1]), Third(src[i + 1], 0), '=']
  {
    hide Char;
    PartsAre(src[i], if |src| == i + 1 then 0 else src[i + 1], 0);
  }

  lemma {:induction false} GroupText(src: seq<Byte>, i: nat)
    requires i + 3 <= |src|
    ensures Encoded(src[i..]) ==
            [First(src[i]), Second(src[i], src[i + 1]), Third(src[i + 1], src[i + 2]), Fourth(src[i + 2])] + Encoded(src[i + 3..])
  {
    hide Char, Parts;
    assert src[i..][3..] == src[i + 3..];
    PartsAre(src[i], src[i + 1], src[i + 2]);
  }

  /** The padded end. */
  method EncodeTail(dst: array<char>, end: nat, a: Byte, b: Byte, two: bool)
    requires 4 <= end <= dst.Length
    modifies dst
    ensures dst[end - 4..end] == if two then [First(a), Second(a, b), Third(b, 0), '='] else [First(a), Second(a, 0), '=', '=']
    ensures dst[..end - 4] == old(dst[..end - 4]) && dst[end..] == old(dst[end..])
  {
    hide Char;
    dst[end - 1] := '=';
    if two {
      dst[end - 2] := Third(b, 0);
      dst[end - 3] := Second(a, b);
    } else {
      dst[end - 2] := '=';
      dst[end - 3] := Second(a, 0);
    }
    dst[end - 4] := First(a);
  }

  /** Four characters, last first. */
  method PutGroup(dst: array<char>, end: nat, a: Byte, b: Byte, c: Byte)
    requires 4 <= end <= dst.Length
    modifies dst
    ensures dst[end - 4..end] == [First(a), Second(a, b), Third(b, c), Fourth(c)]
    ensures dst[..end - 4] == old(dst[..end - 4]) && dst[end..] == old(dst[end..])
  {
    hide Char;
    dst[end - 1] := Fourth(c);
    dst[end - 2] := Third(b, c);
    dst[end - 3] := Second(a, b);
    dst[end - 4] := First(a);
  }

  // ---------- encoding over its own input ----------

  /** A character as it lies in memory. */
  function Octet(c: char): Byte {
    if c < 256 as char then c as int else 0
  }

  function Octets(s: string): (o: seq<Byte>)
    ensures |o| == |s| && forall k :: 0 <= k < |s| ==> o[k] == Octet(s[k])
  {
    seq(|s|, k requires 0 <= k < |s| => Octet(s[k]))
  }

  ghost predicate Ascii(s: string) {
    forall k :: 0 <= k < |s| ==> s[k] < 128 as char
  }

  /** Every character of an encoding fits in a byte. */
  lemma {:induction false} EncodedAscii(s: seq<Byte>)
    ensures Ascii(Encoded(s))
  {
    hide Char;
    if s != [] {
      var (b, c) := (if |s| > 1 then s[1] else 0, if |s| > 2 then s[2] else 0);
      PartsAscii(Group24(s[0], b, c));
      if |s| > 2 { EncodedAscii(s[3..]); }
    }
  }

  lemma PartsAscii(g: nat)
    ensures Ascii(Parts(g))
  {
    LetterAscii(g / 262144 % 64);
    LetterAscii(g / 4096 % 64);
    LetterAscii(g / 64 % 64);
    LetterAscii(g % 64);
  }

  lemma LetterAscii(v: nat)
    ensures Letter(v) < 128 as char
  {
  }

  lemma OctetsConcat(a: string, b: string)
    ensures Octets(a + b) == Octets(a) + Octets(b)
  {
  }

  /** Memory `m` with the four bytes below `end` replaced. */
  ghost predicate Wrote(m0: seq<Byte>, m: seq<Byte>, end: nat, four: string) {
    && 4 <= end <= |m0| == |m| && |four| == 4 && m[end - 4..end] == Octets(four)
    && m[..end - 4] == m0[..end - 4] && m[end..] == m0[end..]
  }

  /** Four characters, last first; each is computed from bytes that no earlier one has overwritten. */
  method PutGroupOver(mem: array<Byte>, end: nat, q: nat, ghost a: Byte, ghost b: Byte, ghost c: Byte)
    requires 4 <= end <= mem.Length && q <= end - 4 && mem[q] == a && mem[q + 1] == b && mem[q + 2] == c
    modifies mem
    ensures Wrote(old(mem[..]), mem[..], end, [First(a), Second(a, b), Third(b, c), Fourth(c)])
  {
    hide First, Second, Third, Fourth, Octet;
    mem[end - 1] := Octet(Fourth(mem[q + 2]));
    mem[end - 2] := Octet(Third(mem[q + 1], mem[q + 2]));
    mem[end - 3] := Octet(Second(mem[q], mem[q + 1]));
    mem[end - 4] := Octet(First(mem[q]));
  }

  /** The padded end with one byte left over. */
  method PutOneOver(mem: array<Byte>, end: nat, q: nat, ghost a: Byte)
    requires 4 <= end <= mem.Length && q <= end - 4 && mem[q] == a
    modifies mem
    ensures Wrote(old(mem[..]), mem[..], end, [First(a), Second(a, 0), '=', '='])
  {
    hide First, Second, Third, Fourth, Octet;
    mem[end - 1] := Octet('=');
    mem[end - 2] := Octet('=');
    mem[end - 3] := Octet(Second(mem[q], 0));
    mem[end - 4] := Octet(First(mem[q]));
  }

  /** The padded end with two bytes left over. */
  method PutTwoOver(mem: array<Byte>, end: nat, q: nat, ghost a: Byte, ghost b: Byte)
    requires 4 <= end <= mem.Length && q <= end - 4 && mem[q] == a && mem[q + 1] == b
    modifies mem
    ensures Wrote(old(mem[..]), mem[..], end, [First(a), Second(a, b), Third(b, 0), '='])
  {
    hide First, Second, Third, Fourth, Octet;
    mem[end - 1] := Octet('=');
    mem[end - 2] := Octet(Third(mem[q + 1], 0));
    mem[end - 3] := Octet(Second(mem[q], mem[q + 1]));
    mem[end - 4] := Octet(First(mem[q]));
  }

  /** The input from `i` on is encoded between `out` and `end`; before `i` it is as it was, and so is the rest. */
  ghost predicate Over(m0: seq<Byte>, m: seq<Byte>, src: seq<Byte>, sp: nat, dp: nat, end: nat, i: nat, out: nat) {
    && |m| == |m0| && dp <= out <= end <= |m| && i <= |src| && sp + i <= |m|
    && m[out..end] == Octets(Encoded(src[i..])) && m[sp..sp + i] == src[..i]
    && m[..dp] == m0[..dp] && m[end..] == m0[end..]
  }

  lemma {:induction false} OverStep(m0: seq<Byte>, m: seq<Byte>, m': seq<Byte>, src: seq<Byte>, sp: nat, dp: nat, end: nat,
                                    j: nat, i: nat, out: nat, four: string)
    requires Over(m0, m, src, sp, dp, end, j, out) && Wrote(m, m', out, four) && i <= j && sp + i <= out - 4 && dp <= out - 4
    requires Encoded(src[i..]) == four + Encoded(src[j..])
    ensures Over(m0, m', src, sp, dp, end, i, out - 4)
  {
    hide Encoded, Octets;
    OctetsConcat(four, Encoded(src[j..]));
    assert m'[0..out - 4] == m[0..out - 4] && m'[out..|m|] == m[out..|m|];
    Within(m, m', 0, out - 4, 0, dp);
    Within(m, m', 0, out - 4, sp, sp + i);
    Within(m, m', out, |m|, end, |m|);
    Within(m, m', out, |m|, out, end);
    assert m'[out - 4..end] == m'[out - 4..out] + m'[out..end];
    assert m[sp..sp + i] == m[sp..sp + j][..i] && src[..i] == src[..j][..i];
  }

  lemma OverAt(m0: seq<Byte>, m: seq<Byte>, src: seq<Byte>, sp: nat, dp: nat, end: nat, j: nat, out: nat, k: nat)
    requires Over(m0, m, src, sp, dp, end, j, out) && k < j
    ensures sp + k < |m| && m[sp + k] == src[k]
  {
    hide Encoded, Octets;
    assert m[sp..sp + j][k] == src[..j][k];
  }

  /** What the tail of encode_raw writes. */
  method TailOver(mem: array<Byte>, dp: nat, sp: nat, n: nat)
    requires sp <= dp && sp + n <= mem.Length && dp + RawLength(n) <= mem.Length
    modifies mem
    ensures var (i, end) := (n - n % 3, dp + RawLength(n));
            Over(old(mem[..]), mem[..], old(mem[sp..sp + n]), sp, dp, end, i, dp + i / 3 * 4)
  {
    hide Encoded, Octets, RawLength, Wrote, Over, First, Second, Third, Fourth;
    Thirds(n);
    ghost var (m0, src) := (mem[..], mem[sp..sp + n]);
    var end := dp + RawLength(n);
    var i := n - n % 3;
    OverStart(m0, src, sp, dp, end);
    if n % 3 == 1 {
      TailText(src, i);
      PutOneOver(mem, end, sp + i, src[i]);
      TailStep(m0, mem[..], src, sp, dp, end, i, Encoded(src[i..]));
    } else if n % 3 == 2 {
      TailText(src, i);
      PutTwoOver(mem, end, sp + i, src[i], src[i + 1]);
      TailStep(m0, mem[..], src, sp, dp, end, i, Encoded(src[i..]));
    }
  }

  lemma OverStart(m0: seq<Byte>, src: seq<Byte>, sp: nat, dp: nat, end: nat)
    requires dp <= end <= |m0| && sp + |src| <= |m0| && m0[sp..sp + |src|] == src
    ensures Over(m0, m0, src, sp, dp, end, |src|, end)
  {
  }

  lemma {:induction false} TailStep(m0: seq<Byte>, m': seq<Byte>, src: seq<Byte>, sp: nat, dp: nat, end: nat, i: nat, four: string)
    requires Over(m0, m0, src, sp, dp, end, |src|, end) && Wrote(m0, m', end, four) && i <= |src|
    requires sp + i <= end - 4 && dp <= end - 4 && four == Encoded(src[i..])
    ensures Over(m0, m', src, sp, dp, end, i, end - 4)
  {
    hide Over, Wrote, Encoded;
    NoText(src[|src|..]);
    assert four == four + Encoded(src[|src|..]);
    OverStep(m0, m0, m', src, sp, dp, end, |src|, i, end, four);
  }

  /** One turn of the loop of encode_raw. */
  method GroupOver(mem: array<Byte>, sp: nat, dp: nat, i: nat, out: nat, ghost m0: seq<Byte>, ghost src: seq<Byte>, ghost end: nat)
    requires i + 3 <= |src| && dp + 4 <= out && sp + i <= out - 4 && Over(m0, mem[..], src, sp, dp, end, i + 3, out)
    modifies mem
    ensures Over(m0, mem[..], src, sp, dp, end, i, out - 4)
  {
    hide *;
    ghost var m := mem[..];
    OverBounds(m0, m, src, sp, dp, end, i + 3, out);
    OverAt(m0, m, src, sp, dp, end, i + 3, out, i);
    OverAt(m0, m, src, sp, dp, end, i + 3, out, i + 1);
    OverAt(m0, m, src, sp, dp, end, i + 3, out, i + 2);
    GroupText(src, i);
    PutGroupOver(mem, out, sp + i, src[i], src[i + 1], src[i + 2]);
    OverStep(m0, m, mem[..], src, sp, dp, end, i + 3, i, out,
             [First(src[i]), Second(src[i], src[i + 1]), Third(src[i + 1], src[i + 2]), Fourth(src[i + 2])]);
  }

  /**
   encode_raw in one memory. Input and output may overlap as long as the input does not start after the
   output; writing backwards never overwrites a byte that is still to be read.
   */
  method EncodeOver(mem: array<Byte>, dp: nat, sp: nat, n: nat)
    requires sp <= dp && sp + n <= mem.Length && dp + RawLength(n) <= mem.Length
    modifies mem
    ensures var text := Encoded(old(mem[sp..sp + n]));
            |text| == RawLength(n) && forall k :: 0 <= k < |text| ==> mem[dp + k] == text[k] as int
    ensures mem[..dp] == old(mem[..dp]) && mem[dp + RawLength(n)..] == old(mem[dp + RawLength(n)..])
  {
    hide *;
    Thirds(n);
    ghost var (m0, src) := (mem[..], mem[sp..sp + n]);
    var end := dp + RawLength(n);
    Slices(mem, dp, end);
    TailOver(mem, dp, sp, n);
    var i := n - n % 3;
    var out := dp + i / 3 * 4;
    ghost var k := n / 3;
    while i > 0
      invariant 0 <= i == 3 * k <= n && out == dp + 4 * k
      invariant Over(m0, mem[..], src, sp, dp, end, i, out)
      decreases k
    {
      i := i - 3;
      GroupOver(mem, sp, dp, i, out, m0, src, end);
      out := out - 4;
      k := k - 1;
    }
    OverDone(m0, mem[..], src, sp, dp, end);
    Slices(mem, dp, end);
    EncodedLength(src);
    EncodedAscii(src);
    forall k | 0 <= k < RawLength(n) ensures mem[dp + k] == Encoded(src)[k] as int {
      OctetIs(Encoded(src), k);
      assert mem[dp + k] == mem[..][dp..end][k];
    }
  }

  lemma OctetIs(s: string, k: nat)
    requires Ascii(s) && k < |s|
    ensures Octets(s)[k] == s[k] as int
  {
  }

  lemma OverBounds(m0: seq<Byte>, m: seq<Byte>, src: seq<Byte>, sp: nat, dp: nat, end: nat, i: nat, out: nat)
    requires Over(m0, m, src, sp, dp, end, i, out)
    ensures out <= end <= |m| == |m0|
  {
  }

  lemma OverDone(m0: seq<Byte>, m: seq<Byte>, src: seq<Byte>, sp: nat, dp: nat, end: nat)
    requires Over(m0, m, src, sp, dp, end, 0, dp)
    ensures |m| == |m0| && dp <= end <= |m| && m[dp..end] == Octets(Encoded(src)) && m[..dp] == m0[..dp] && m[end..] == m0[end..]
  {
    assert src[0..] == src;
  }

  // ---------- encoding in pieces ----------

  /** The characters that are certain once `p` has been read. */
  ghost function Certain(p: seq<Byte>): string {
    var n := |p| - |p| % 3;
    Encoded(p[..n]) + Loose(p[n..])
  }

  ghost function Loose(r: seq<Byte>): string {
    if |r| == 1 then [First(r[0])] else if |r| == 2 then [First(r[0]), Second(r[0], r[1])] else ""
  }

  lemma {:induction false} EncodedConcat(a: seq<Byte>, b: seq<Byte>)
    requires |a| % 3 == 0
    ensures Encoded(a + b) == Encoded(a) + Encoded(b)
  {
    hide Parts;
    if a == [] {
      assert a + b == b;
    } else {
      assert (a + b)[3..] == a[3..] + b;
      EncodedConcat(a[3..], b);
    }
  }

  /** The characters a further byte makes certain. */
  ghost function More(p: seq<Byte>, x: Byte): string {
    if |p| % 3 == 0 then [First(x)]
    else if |p| % 3 == 1 then [Second(p[|p| - 1], x)]
    else [Third(p[|p| - 1], x), Fourth(x)]
  }

  lemma {:induction false} CertainMore(p: seq<Byte>, x: Byte)
    ensures Certain(p + [x]) == Certain(p) + More(p, x)
  {
    hide Encoded, First, Second, Third, Fourth, Certain;
    var n := |p| - |p| % 3;
    var q := p + [x];
    Thirds(|p|);
    if |p| % 3 == 2 {
      CertainThird(p, x, n);
    } else {
      CertainIs(p, n);
      assert q[..n] == p[..n] && q[n..] == p[n..] + [x];
      CertainIs(q, n);
    }
  }

  /** The byte that completes a group. */
  lemma {:induction false} CertainThird(p: seq<Byte>, x: Byte, n: nat)
    requires n % 3 == 0 && |p| == n + 2
    ensures Certain(p + [x]) == Certain(p) + [Third(p[n + 1], x), Fourth(x)]
  {
    hide Encoded, First, Second, Third, Fourth, Certain, Loose;
    var (q, head, a, b) := (p + [x], p[..n], p[n], p[n + 1]);
    var e := Encoded(head);
    assert p[n..] == [a, b];
    assert q == head + [a, b, x] && q[..n + 3] == q && q[n + 3..] == [];
    CertainIs(p, n);
    CertainIs(q, n + 3);
    LooseFew(a, b);
    EncodedConcat(head, [a, b, x]);
    ThreeText([a, b, x]);
    Assemble(e, First(a), Second(a, b), Third(b, x), Fourth(x));
  }

  lemma LooseFew(a: Byte, b: Byte)
    ensures Loose([]) == "" && Loose([a, b]) == [First(a), Second(a, b)]
  {
  }

  lemma Assemble(e: string, a: char, b: char, c: char, d: char)
    ensures e + [a, b, c, d] + "" == e + [a, b] + [c, d]
  {
  }

  lemma CertainIs(p: seq<Byte>, n: nat)
    requires n % 3 == 0 && n <= |p| < n + 3
    ensures Certain(p) == Encoded(p[..n]) + Loose(p[n..])
  {
    assert |p| - |p| % 3 == n;
  }

  lemma {:induction false} ThreeText(s: seq<Byte>)
    requires |s| == 3
    ensures Encoded(s) == [First(s[0]), Second(s[0], s[1]), Third(s[1], s[2]), Fourth(s[2])]
  {
    hide First, Second, Third, Fourth;
    assert s[0..] == s && s[3..] == [];
    GroupText(s, 0);
    NoText(s[3..]);
  }

  lemma {:induction false} CertainBulk(p: seq<Byte>, q: seq<Byte>)
    requires |p| % 3 == 0 && |q| % 3 == 0
    ensures Certain(p + q) == Certain(p) + Encoded(q)
  {
    hide Encoded, Certain, Loose;
    var r := p + q;
    assert r[..|r|] == r && r[|r|..] == [] && p[..|p|] == p && p[|p|..] == [];
    ThreesAdd(|p|, |q|);
    CertainIs(p, |p|);
    CertainIs(r, |r|);
    LooseFew(0, 0);
    EncodedConcat(p, q);
    assert Encoded(r) + "" == Encoded(r) && Encoded(p) + "" == Encoded(p);
  }

  lemma ThreesAdd(a: nat, b: nat)
    requires a % 3 == 0 && b % 3 == 0
    ensures (a + b) % 3 == 0
  {
  }

  lemma {:induction false} CertainLength(p: seq<Byte>)
    ensures |Certain(p)| == 4 * |p| / 3
  {
    hide Encoded, Certain, RawLength;
    var (k, r) := (|p| / 3, |p| % 3);
    assert |p| == 3 * k + r;
    CertainIs(p, 3 * k);
    EncodedLength(p[..3 * k]);
    Thirds(3 * k);
    DivMod(4 * |p|, 3, 4 * k + r, r);
  }

  lemma Powers()
    ensures Pow2(0) == 1 && Pow2(2) == 4 && Pow2(4) == 16 && Pow2(6) == 64
  {
    assert Pow2(1) == 2 && Pow2(3) == 8 && Pow2(5) == 32;
  }

  /** The characters of one byte, as the shifted word gives them; only the low `bits` bits of the word matter. */
  lemma {:induction false} ShiftedChars(word: nat, last: nat, x: Byte)
    ensures Char((word * 256 + x) / 4) == First(x)
    ensures word % 4 == last % 4 ==> Char((word * 256 + x) / 16) == Second(last, x)
    ensures word % 16 == last % 16 ==> Char((word * 256 + x) / 64) == Third(last, x)
    ensures Char(word * 256 + x) == Fourth(x)
  {
    hide Char;
    var y: nat := x;
    DivMod(word * 256 + y, 4, word * 64 + y / 4, y % 4);
    SixtyFours(word, y / 4);
    DivMod(word * 256 + y, 16, word * 16 + y / 16, y % 16);
    DivMod(word * 256 + y, 64, word * 4 + y / 64, y % 64);
    if word % 4 == last % 4 { SameSecond(word, last, y / 16); }
    if word % 16 == last % 16 { SameThird(word, last, y / 64); }
    SixtyFours(word * 4, y);
  }

  /** Only the low bits of the first operand show in the second and third character. */
  lemma {:induction false} SameSecond(v: nat, w: nat, y: nat)
    requires v % 4 == w % 4
    ensures Char(v * 16 + y) == Char(w * 16 + y)
  {
    hide Char;
    SixtyFours(v / 4, v % 4 * 16 + y);
    SixtyFours(w / 4, w % 4 * 16 + y);
    assert v * 16 + y == v / 4 * 64 + (v % 4 * 16 + y) && w * 16 + y == w / 4 * 64 + (w % 4 * 16 + y);
  }

  lemma {:induction false} SameThird(v: nat, w: nat, y: nat)
    requires v % 16 == w % 16
    ensures Char(v * 4 + y) == Char(w * 4 + y)
  {
    hide Char;
    SixtyFours(v / 16, v % 16 * 4 + y);
    SixtyFours(w / 16, w % 16 * 4 + y);
    assert v * 4 + y == v / 16 * 64 + (v % 16 * 4 + y) && w * 4 + y == w / 16 * 64 + (w % 16 * 4 + y);
  }

  class EncodeCtx {
    var word: nat
    var bits: nat
    ghost var fed: seq<Byte>       // everything read since the start of this text

    /** Two left-over bits for each byte after the last full group; they are the low bits of the last byte. */
    ghost predicate Valid()
      reads this
    {
      && bits == 2 * (|fed| % 3) && word < 65536
      && (bits == 2 ==> word % 4 == fed[|fed| - 1] % 4) && (bits == 4 ==> word % 16 == fed[|fed| - 1] % 16)
    }

    /** base64_encode_init. */
    constructor ()
      ensures Valid() && fed == []
    {
      word, bits, fed := 0, 0, [];
    }

    /** The character for the six bits of `w` from bit `b` on. */
    static function CharAt(w: nat, b: nat): char {
      NonNegative(w, Pow2(b));
      Char(w / Pow2(b))
    }

    /** The loop of base64_encode_single. */
    static method Emit(dst: array<char>, at: nat, w: nat, start: nat) returns (done: nat, b: nat)
      requires start in {8, 10, 12} && at + start / 6 <= dst.Length
      modifies dst
      ensures done == start / 6 && b == start - 6 * done
      ensures dst[at..at + done] == if start == 12 then [CharAt(w, 6), CharAt(w, 0)] else [CharAt(w, start - 6)]
      ensures dst[..at] == old(dst[..at]) && dst[at + done..] == old(dst[at + done..])
    {
      hide EncodeCtx.CharAt;
      done, b := 0, start;
      while b >= 6
        invariant b == start - 6 * done && done <= start / 6
        invariant 0 < done ==> dst[at] == CharAt(w, start - 6)
        invariant done == 2 ==> dst[at + 1] == CharAt(w, 0)
        invariant forall k :: 0 <= k < at || at + done <= k < dst.Length ==> dst[k] == old(dst[k])
        decreases b
      {
        b := b - 6;
        dst[at + done] := CharAt(w, b);
        done := done + 1;
      }
    }

    /** base64_encode_single: one character or two. */
    method Single(dst: array<char>, at: nat, x: Byte) returns (done: nat)
      requires Valid() && at + |More(fed, x)| <= dst.Length
      modifies this, dst
      ensures Valid() && fed == old(fed) + [x] && bits in {0, 2, 4} && 1 <= done <= 2 && done == |More(old(fed), x)|
      ensures dst[at..at + done] == More(old(fed), x)
      ensures dst[..at] == old(dst[..at]) && dst[at + done..] == old(dst[at + done..])
    {
      hide Char, First, Second, Third, Fourth, Certain, Pow2;
      Powers();
      ghost var last := if fed == [] then 0 else fed[|fed| - 1];
      ShiftedChars(word, last, x);
      LowBits(word, x);
      NextThird(|fed|);
      var w := word * 256 + x;
      done, bits := Emit(dst, at, w, bits + 8);
      word := w % 65536;
      fed := fed + [x];
      assert fed[|fed| - 1] == x;
    }

    /** The two loops over single bytes: until `src` ends or, in the first one, no bits are left over. */
    method Singles(dst: array<char>, at: nat, src: seq<Byte>, stop: bool) returns (done: nat, used: nat)
      requires Valid() && at + |Certain(fed + src)| - |Certain(fed)| <= dst.Length && |Certain(fed)| <= |Certain(fed + src)|
      modifies this, dst
      ensures used <= |src| && (used == |src| || (stop && bits == 0))
      ensures Valid() && fed == old(fed) + src[..used] && done == |Certain(fed)| - |Certain(old(fed))|
      ensures at + done <= dst.Length && Certain(fed) == Certain(old(fed)) + dst[at..at + done]
      ensures dst[..at] == old(dst[..at]) && dst[at + done..] == old(dst[at + done..])
    {
      hide Certain, More, Encoded, EncodeCtx.Valid;
      done, used := 0, 0;
      ghost var f := fed;
      assert f + src[..0] == f;
      while used < |src| && !(stop && bits == 0)
        invariant 0 <= used <= |src| && Valid() && fed == f + src[..used]
        invariant done == |Certain(fed)| - |Certain(f)| && at + done <= dst.Length
        invariant Certain(fed) == Certain(f) + dst[at..at + done]
        invariant dst[..at] == old(dst[..at]) && dst[at + done..] == old(dst[at + done..])
      {
        var x := src[used];
        CertainMore(fed, x);
        Grows(f + src[..used + 1], src[used + 1..]);
        OneOn(f, src, used);
        label Before:
        var n := Single(dst, at + done, x);
        Appended@Before(dst, at, done, n);
        used := used + 1;
        done := done + n;
      }
    }

    /** Whole groups at once. */
    method Bulk(dst: array<char>, at: nat, q: seq<Byte>) returns (done: nat)
      requires Valid() && bits == 0 && |q| % 3 == 0 && at + |Certain(fed + q)| - |Certain(fed)| <= dst.Length
      modifies this, dst
      ensures Valid() && fed == old(fed) + q && done == |Certain(fed)| - |Certain(old(fed))|
      ensures at + done <= dst.Length && Certain(fed) == Certain(old(fed)) + dst[at..at + done]
      ensures dst[..at] == old(dst[..at]) && dst[at + done..] == old(dst[at + done..])
    {
      hide Certain, Encoded, EncodeCtx.Valid;
      BitsMean();
      CertainBulk(fed, q);
      EncodedLength(q);
      done := RawLength(|q|);
      EncodeRaw(dst, at, q);
      fed := fed + q;
      StillValid(q);
    }

    /** Left-over bits first, then whole groups at once. */
    method Whole(dst: array<char>, src: seq<Byte>) returns (done: nat, used: nat)
      requires Valid() && |Certain(fed + src)| - |Certain(fed)| <= dst.Length
      modifies this, dst
      ensures used <= |src| && Valid() && fed == old(fed) + src[..used] && done == |Certain(fed)| - |Certain(old(fed))|
      ensures done <= dst.Length && Certain(fed) == Certain(old(fed)) + dst[..done]
    {
      hide *;
      ghost var f := fed;
      Grows(fed, src);
      done, used := Singles(dst, 0, src, true);
      assert dst[0..done] == dst[..done];
      BitsMean();
      var left := |src| - used;
      var bulk := left - left % 3;
      if bulk > 0 {
        ghost var q := src[used..used + bulk];
        assert f + src[..used] + q == f + src[..used + bulk];
        assert f + src[..used + bulk] + src[used + bulk..] == f + src;
        Grows(f + src[..used + bulk], src[used + bulk..]);
        label Grouped:
        var n := Bulk(dst, done, src[used..used + bulk]);
        Joined@Grouped(dst, done, n);
        done := done + n;
        used := used + bulk;
      }
    }

    /** base64_encode_update: left-over bits first, then whole groups at once, then the rest. */
    method Update(dst: array<char>, src: seq<Byte>) returns (done: nat)
      requires Valid() && (8 * |src| + 4) / 6 <= dst.Length
      modifies this, dst
      ensures Valid() && bits in {0, 2, 4} && fed == old(fed) + src && done <= (8 * |src| + 4) / 6
      ensures Certain(fed) == Certain(old(fed)) + dst[..done]
    {
      hide *;
      ghost var f := fed;
      Grows(fed, src);
      var used;
      done, used := Whole(dst, src);
      assert f + src[..used] + src[used..] == f + src;
      Grows(fed, src[used..]);
      label Rest:
      var m, u := Singles(dst, done, src[used..], false);
      assert src[used..][..u] == src[used..];
      Joined@Rest(dst, done, m);
      done := done + m;
      BitsMean();
    }

    lemma BitsMean()
      requires Valid()
      ensures bits == 2 * (|fed| % 3) && bits in {0, 2, 4} && (bits == 0 <==> |fed| % 3 == 0)
    {
    }

    twostate lemma StillValid(new q: seq<Byte>)
      requires old(Valid()) && |old(fed)| % 3 == 0 && |q| % 3 == 0 && fed == old(fed) + q && bits == old(bits) && word == old(word)
      ensures Valid()
    {
    }

    /** base64_encode_final: the last character and the padding. */
    method Final(dst: array<char>) returns (done: nat)
      requires Valid() && 3 <= dst.Length
      modifies this, dst
      ensures done <= 3 && Certain(old(fed)) + dst[..done] == Encoded(old(fed)) && Valid() && fed == []
      ensures dst[done..] == old(dst[done..])
    {
      hide Certain, Encoded, Char, Pow2;
      done := 0;
      var b := bits;
      ghost var last := if fed == [] then 0 else fed[|fed| - 1];
      FinalText(fed);
      Powers();
      FinalChars(word, last);
      if b != 0 {
        dst[0] := Char(word * Pow2(6 - b));
        done := 1;
        while b < 6
          invariant bits == old(bits) && fed == old(fed) && word == old(word)
          invariant bits <= b <= 6 && b % 2 == 0 && done == 1 + (b - bits) / 2 && dst[0] == Char(word * Pow2(6 - bits))
          invariant forall k :: 1 <= k < done ==> dst[k] == '='
          invariant dst[done..] == old(dst[done..])
        {
          dst[done] := '=';
          done := done + 1;
          b := b + 2;
        }
        bits := 0;
      }
      fed := [];
    }
  }

  lemma NextThird(n: nat)
    ensures (n + 1) % 3 == if n % 3 == 2 then 0 else n % 3 + 1
  {
  }

  lemma OneOn(f: seq<Byte>, src: seq<Byte>, used: nat)
    requires used < |src|
    ensures f + src[..used] + [src[used]] == f + src[..used + 1]
    ensures f + src[..used + 1] + src[used + 1..] == f + src
  {
  }

  /** What a write of `n` characters at the end of `done` written ones gives. */
  twostate lemma Appended(dst: array<char>, new at: nat, new done: nat, new n: nat)
    requires at + done + n <= dst.Length && dst[..at + done] == old(dst[..at + done])
    requires dst[at + done + n..] == old(dst[at + done + n..])
    ensures dst[at..at + (done + n)] == old(dst[at..at + done]) + dst[at + done..at + done + n]
    ensures dst[..at] == old(dst[..at])
  {
    assert dst[..at] == dst[..at + done][..at];
    assert dst[at..at + done] == dst[..at + done][at..];
  }

  twostate lemma Joined(dst: array<char>, new done: nat, new n: nat)
    requires done + n <= dst.Length && dst[..done] == old(dst[..done])
    ensures dst[..done + n] == old(dst[..done]) + dst[done..done + n]
  {
  }

  lemma {:induction false} Grows(p: seq<Byte>, q: seq<Byte>)
    ensures |Certain(p)| <= |Certain(p + q)|
    ensures |Certain(p + q)| - |Certain(p)| <= (8 * |q| + 4) / 6
  {
    hide Certain;
    CertainLength(p);
    CertainLength(p + q);
  }

  /** What is missing from the text after the last byte. */
  lemma {:induction false} FinalText(p: seq<Byte>)
    ensures var last := if p == [] then 0 else p[|p| - 1];
            Encoded(p) == Certain(p) + (if |p| % 3 == 0 then "" else if |p| % 3 == 1 then [Second(last, 0), '=', '='] else [Third(last, 0), '='])
  {
    hide Encoded, First, Second, Third, Fourth;
    var n := |p| - |p| % 3;
    assert p == p[..n] + p[n..];
    EncodedConcat(p[..n], p[n..]);
    if n == |p| { NoText(p[n..]); } else { TailText(p, n); }
  }

  lemma {:induction false} FinalChars(word: nat, last: nat)
    ensures word % 4 == last % 4 ==> Char(word * 16) == Second(last, 0)
    ensures word % 16 == last % 16 ==> Char(word * 4) == Third(last, 0)
  {
    hide Char;
    if word % 4 == last % 4 { SameSecond(word, last, 0); }
    if word % 16 == last % 16 { SameThird(word, last, 0); }
  }

  /** Cutting a word to 16 bits keeps its low bits. */
  lemma {:induction false} LowBits(word: nat, x: nat)
    requires x < 256
    ensures (word * 256 + x) % 65536 % 4 == x % 4 && (word * 256 + x) % 65536 % 16 == x % 16
    ensures (word * 256 + x) % 65536 < 65536
  {
    var m := word % 256;
    DivMod(word * 256 + x, 65536, word / 256, m * 256 + x);
    DivMod(m * 256 + x, 4, m * 64 + x / 4, x % 4);
    DivMod(m * 256 + x, 16, m * 16 + x / 16, x % 16);
  }

  // ---------- any way of cutting the input ----------

  lemma NothingCertain()
    ensures Certain([]) == ""
  {
  }

  /** Whatever the cuts, the updates and the final call together give the text of the whole input. */
  method EncodePieces(chunks: seq<seq<Byte>>) returns (text: string)
    ensures text == Encoded(Flatten(chunks))
  {
    hide Certain, Encoded, EncodeCtx.Valid, Flatten;
    var ctx := new EncodeCtx();
    text := "";
    NothingCertain();
    FlattenNone<Byte>();
    var i := 0;
    assert chunks[..0] == [];
    while i < |chunks|
      invariant 0 <= i <= |chunks| && fresh(ctx) && ctx.Valid()
      invariant ctx.fed == Flatten(chunks[..i]) && text == Certain(ctx.fed)
    {
      FlattenMore(chunks, i);
      var dst := new char[(8 * |chunks[i]| + 4) / 6](_ => ' ');
      var done := ctx.Update(dst, chunks[i]);
      text := text + dst[..done];
      i := i + 1;
    }
    assert chunks[..i] == chunks;
    var last := new char[3](_ => ' ');
    var done := ctx.Final(last);
    text := text + last[..done];
  }
}
