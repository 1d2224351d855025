/**
 compat/inet_pton.cc: IPv6 addresses from text. The accepted texts are given by a grammar after section 2.2
 of RFC 4291, and the parser is proved to read exactly those, each as its value.
 */
module InetParse {
  import opened Basics
  import opened InetText

  // ---------- the texts ----------

  /** One group: one to four hexadecimal digits of either case. */
  ghost predicate IsGroup(g: string) {
    1 <= |g| <= 4 && AllHex(g)
  }

  ghost predicate AllGroups(gs: seq<string>) {
    forall i :: 0 <= i < |gs| ==> IsGroup(gs[i])
  }

  /** The two bytes of a number. */
  function TwoBytes(v: nat): seq<Byte> {
    [v / 256 % 256, v % 256]
  }

  /** The bytes of the groups. */
  ghost function Value(gs: seq<string>): (b: seq<Byte>)
    ensures |b| == 2 * |gs|
  {
    if gs == [] then [] else Value(gs[..|gs| - 1]) + TwoBytes(HexFold(0, gs[|gs| - 1]))
  }

  /** Each group with a colon after it. */
  ghost function Colons(gs: seq<string>): string {
    if gs == [] then "" else Colons(gs[..|gs| - 1]) + gs[|gs| - 1] + ":"
  }

  /** The groups with colons between them. */
  ghost function Between(gs: seq<string>): string {
    if gs == [] then "" else Colons(gs[..|gs| - 1]) + gs[|gs| - 1]
  }

  /** The end of an address: groups, and possibly a dotted quad after them. */
  datatype Tail = Tail(groups: seq<string>, quad: Option<seq<Byte>>) {
    ghost predicate OK() {
      AllGroups(groups) && (quad.Some? ==> |quad.value| == 4)
    }

    ghost function Text(): string
      requires OK()
    {
      if quad.Some? then Colons(groups) + Quad(quad.value) else Between(groups)
    }

    ghost function Bytes(): seq<Byte> {
      Value(groups) + (if quad.Some? then quad.value else [])
    }
  }

  /** All sixteen bytes are written out. */
  ghost predicate IsFull(s: string, b: seq<Byte>, t: Tail) {
    t.OK() && s == t.Text() && b == t.Bytes() && |b| == 16
  }

  /** A double colon stands for at least one group of zeros. */
  ghost predicate IsShort(s: string, b: seq<Byte>, front: seq<string>, t: Tail) {
    && AllGroups(front) && t.OK() && s == Between(front) + "::" + t.Text()
    && |Value(front)| + |t.Bytes()| < 16
    && b == Value(front) + Gap(16 - |Value(front)| - |t.Bytes()|) + t.Bytes()
  }

  /** `s` is a text of the address `b`. */
  ghost predicate IsAddress(s: string, b: seq<Byte>) {
    (exists t :: IsFull(s, b, t)) || (exists front, t :: IsShort(s, b, front, t))
  }

  // ---------- the parser ----------

  /** The end of inet_pton6: store a pending word, then open the gap at the double colon. */
  function Finish(out: seq<Byte>, colon: Option<nat>, seen: nat, val: nat): Option<seq<Byte>>
    requires colon.Some? ==> colon.value <= |out|
  {
    if seen > 0 && |out| + 2 > 16 then None
    else
      var o := if seen > 0 then out + [val / 256 % 256, val % 256] else out;
      if colon.Some? then
        if |o| >= 16 then None
        else Some(o[..colon.value] + Gap(16 - |o|) + o[colon.value..])
      else if |o| != 16 then None
      else Some(o)
  }

  function Gap(n: nat): (b: seq<Byte>)
    ensures |b| == n && forall i :: 0 <= i < n ==> b[i] == 0
  {
    seq(n, _ => 0)
  }

  /** inet_pton6 from some point on; `tok` is the text from the current token on. */
  function Scan6(s: string, out: seq<Byte>, colon: Option<nat>, seen: nat, val: nat, tok: string): Option<seq<Byte>>
    requires colon.Some? ==> colon.value <= |out|
    decreases |s|
  {
    if s == [] then Finish(out, colon, seen, val)
    else if HexValue(s[0]) < 16 then
      if seen + 1 > 4 then None else Scan6(s[1..], out, colon, seen + 1, val * 16 + HexValue(s[0]), tok)
    else if s[0] == ':' then
      if seen == 0 then
        if colon.Some? then None else Scan6(s[1..], out, Some(|out|), 0, val, s[1..])
      else if s[1..] == [] then None
      else if |out| + 2 > 16 then None
      else Scan6(s[1..], out + [val / 256 % 256, val % 256], colon, 0, 0, s[1..])
    else if s[0] == '.' && |out| + 4 <= 16 && Parse4(tok).Some? then Finish(out + Parse4(tok).value, colon, 0, val)
    else None
  }

  function Parse6(s: string): Option<seq<Byte>> {
    if s != [] && s[0] == ':' then
      if |s| == 1 || s[1] != ':' then None else Scan6(s[1..], [], None, 0, 0, s[1..])
    else Scan6(s, [], None, 0, 0, s)
  }

  // ---------- every text of the grammar is read ----------

  lemma {:induction false} DigitsRead(ds: string, rest: string, out: seq<Byte>, colon: Option<nat>, seen: nat, val: nat, tok: string)
    requires (colon.Some? ==> colon.value <= |out|) && AllHex(ds) && seen + |ds| <= 4
    ensures Scan6(ds + rest, out, colon, seen, val, tok) == Scan6(rest, out, colon, seen + |ds|, HexFold(val, ds), tok)
    decreases |ds|
  {
    if ds == [] {
      assert ds + rest == rest;
    } else {
      assert (ds + rest)[1..] == ds[1..] + rest;
      DigitsRead(ds[1..], rest, out, colon, seen + 1, val * 16 + HexValue(ds[0]), tok);
    }
  }

  function Limit(n: nat): nat {
    if n == 0 then 1 else 16 * Limit(n - 1)
  }

  lemma {:induction false} FoldBound(g: string)
    requires AllHex(g)
    ensures HexFold(0, g) < Limit(|g|)
  {
    if g != "" {
      var front := g[..|g| - 1];
      FoldBound(front);
      assert g == front + [g[|g| - 1]];
      HexFoldLast(0, front, g[|g| - 1]);
    }
  }

  lemma WordBytes(v: nat)
    requires v < 65536
    ensures TwoBytes(v)[0] as int * 256 + TwoBytes(v)[1] == v
  {
  }

  /** The two bytes of a group hold its whole number. */
  lemma {:induction false} GroupBytes(g: string)
    requires IsGroup(g)
    ensures TwoBytes(HexFold(0, g))[0] as int * 256 + TwoBytes(HexFold(0, g))[1] == HexFold(0, g)
  {
    hide HexFold, TwoBytes;
    FoldBound(g);
    assert Limit(1) == 16 && Limit(2) == 256 && Limit(3) == 4096 && Limit(4) == 65536;
    WordBytes(HexFold(0, g));
  }

  /** A group and the colon after it. */
  lemma {:induction false} GroupStored(g: string, rest: string, out: seq<Byte>, colon: Option<nat>)
    requires IsGroup(g) && (colon.Some? ==> colon.value <= |out|) && rest != [] && |out| + 2 <= 16
    ensures Scan6(g + ":" + rest, out, colon, 0, 0, g + ":" + rest)
            == Scan6(rest, out + TwoBytes(HexFold(0, g)), colon, 0, 0, rest)
  {
    var s := g + ":" + rest;
    assert s == g + (":" + rest);
    DigitsRead(g, ":" + rest, out, colon, 0, 0, s);
    assert (":" + rest)[1..] == rest;
  }

  lemma ValueMore(gs: seq<string>, g: string, out: seq<Byte>)
    ensures Value(gs + [g]) == Value(gs) + TwoBytes(HexFold(0, g))
    ensures out + Value(gs + [g]) == out + Value(gs) + TwoBytes(HexFold(0, g))
    ensures Colons(gs + [g]) == Colons(gs) + g + ":" && Between(gs + [g]) == Colons(gs) + g
  {
    assert (gs + [g])[..|gs|] == gs;
  }

  lemma LastGroup(gs: seq<string>)
    requires gs != []
    ensures gs == gs[..|gs| - 1] + [gs[|gs| - 1]]
  {
  }

  /** The groups before a double colon, a dotted quad or the last group. */
  lemma {:induction false} ColonsRead(gs: seq<string>, rest: string, out: seq<Byte>, colon: Option<nat>)
    requires AllGroups(gs) && (colon.Some? ==> colon.value <= |out|) && rest != [] && |out| + 2 * |gs| <= 16
    ensures var s := Colons(gs) + rest;
            Scan6(s, out, colon, 0, 0, s) == Scan6(rest, out + Value(gs), colon, 0, 0, rest)
    decreases |gs|
  {
    hide Scan6, Colons, Value, IsGroup;
    NoGroups();
    if gs == [] {
      assert Colons(gs) + rest == rest && out + Value(gs) == out;
    } else {
      var (front, g) := (gs[..|gs| - 1], gs[|gs| - 1]);
      LastGroup(gs);
      ValueMore(front, g, out);
      var more := g + ":" + rest;
      assert Colons(gs) + rest == Colons(front) + more;
      ColonsRead(front, more, out, colon);
      GroupStored(g, rest, out + Value(front), colon);
    }
  }

  lemma NoGroups()
    ensures Colons([]) == "" && Between([]) == "" && Value([]) == []
  {
  }

  lemma ScanNothing(out: seq<Byte>, colon: Option<nat>, tok: string)
    requires colon.Some? ==> colon.value <= |out|
    ensures Scan6("", out, colon, 0, 0, tok) == Finish(out, colon, 0, 0)
  {
  }


  /** The last group of the text. */
  lemma {:induction false} LastRead(g: string, out: seq<Byte>, colon: Option<nat>)
    requires IsGroup(g) && (colon.Some? ==> colon.value <= |out|) && |out| + 2 <= 16
    ensures Scan6(g, out, colon, 0, 0, g) == Finish(out + TwoBytes(HexFold(0, g)), colon, 0, 0)
  {
    assert g == g + "";
    DigitsRead(g, "", out, colon, 0, 0, g);
  }

  lemma {:induction false} DecDigits(n: nat)
    ensures AllHex(Dec(n))
  {
    DigitValues(n % 10);
    if n >= 10 { DecDigits(n / 10); }
  }


  /** A dotted quad after the last colon. */
  lemma {:induction false} QuadReads(b: seq<Byte>, out: seq<Byte>, colon: Option<nat>)
    requires |b| == 4 && (colon.Some? ==> colon.value <= |out|) && |out| + 4 <= 16
    ensures Scan6(Quad(b), out, colon, 0, 0, Quad(b)) == Finish(out + b, colon, 0, 0)
  {
    hide Dec, Parse4;
    var rest := "." + Dec(b[1]) + "." + Dec(b[2]) + "." + Dec(b[3]);
    assert Quad(b) == Dec(b[0]) + rest;
    DecDigits(b[0]);
    DecLength(b[0]);
    DigitsRead(Dec(b[0]), rest, out, colon, 0, 0, Quad(b));
    RoundTrip4(b);
    assert rest[0] == '.';
  }


  lemma QuadNonEmpty(b: seq<Byte>)
    requires |b| == 4
    ensures Quad(b) != []
  {
  }

  /** The end of an address. */
  lemma {:induction false} TailRead(t: Tail, out: seq<Byte>, colon: Option<nat>)
    requires t.OK() && (colon.Some? ==> colon.value <= |out|) && |out| + |t.Bytes()| <= 16
    ensures Scan6(t.Text(), out, colon, 0, 0, t.Text()) == Finish(out + t.Bytes(), colon, 0, 0)
  {
    hide Scan6, Finish, Colons, Value, Quad, IsGroup;
    NoGroups();
    var gs := t.groups;
    if t.quad.Some? {
      QuadNonEmpty(t.quad.value);
      ColonsRead(gs, Quad(t.quad.value), out, colon);
      QuadReads(t.quad.value, out + Value(gs), colon);
      assert out + Value(gs) + t.quad.value == out + t.Bytes();
    } else if gs == [] {
      ScanNothing(out, colon, "");
      assert out + t.Bytes() == out;
    } else {
      var (front, g) := (gs[..|gs| - 1], gs[|gs| - 1]);
      LastGroup(gs);
      ValueMore(front, g, out);
      GroupNonEmpty(g);
      ColonsRead(front, g, out, colon);
      LastRead(g, out + Value(front), colon);
      assert out + t.Bytes() == out + Value(gs);
    }
  }

  lemma GroupNonEmpty(g: string)
    requires IsGroup(g)
    ensures g != [] && g[0] != ':'
  {
  }

  lemma ColonReads(rest: string, out: seq<Byte>)
    ensures Scan6(":" + rest, out, None, 0, 0, ":" + rest) == Scan6(rest, out, Some(|out|), 0, 0, rest)
  {
    assert (":" + rest)[1..] == rest;
  }

  lemma {:induction false} FirstIsDigit(n: nat)
    ensures Dec(n)[0] != ':'
  {
    DigitValues(n % 10);
    if n >= 10 { FirstIsDigit(n / 10); }
  }

  /** No text of groups or of the end of an address starts with a colon. */
  lemma {:induction false} ColonsFirst(gs: seq<string>, rest: string)
    requires AllGroups(gs) && gs != []
    ensures (Colons(gs) + rest) != [] && (Colons(gs) + rest)[0] != ':'
    decreases |gs|
  {
    hide IsGroup;
    var (front, g) := (gs[..|gs| - 1], gs[|gs| - 1]);
    GroupNonEmpty(g);
    if front == [] {
      NoGroups();
      assert (Colons(gs) + rest)[0] == g[0];
    } else {
      ColonsFirst(front, g + ":" + rest);
      assert Colons(gs) + rest == Colons(front) + (g + ":" + rest);
    }
  }

  lemma {:induction false} TailFirst(t: Tail)
    requires t.OK()
    ensures t.Text() == [] || t.Text()[0] != ':'
    ensures t.Bytes() != [] ==> t.Text() != []
  {
    hide IsGroup, Dec;
    NoGroups();
    var gs := t.groups;
    if t.quad.Some? {
      if gs == [] { FirstIsDigit(t.quad.value[0]); } else { ColonsFirst(gs, Quad(t.quad.value)); }
    } else if gs != [] {
      var (front, g) := (gs[..|gs| - 1], gs[|gs| - 1]);
      GroupNonEmpty(g);
      if front != [] { ColonsFirst(front, g); }
    }
  }

  lemma {:induction false} FullRead(s: string, b: seq<Byte>, t: Tail)
    requires IsFull(s, b, t)
    ensures Parse6(s) == Some(b)
  {
    hide Scan6, Tail.Text, Tail.Bytes, Tail.OK;
    TailFirst(t);
    TailRead(t, [], None);
    assert [] + t.Bytes() == t.Bytes();
  }

  lemma {:induction false} ShortRead(s: string, b: seq<Byte>, front: seq<string>, t: Tail)
    requires IsShort(s, b, front, t)
    ensures Parse6(s) == Some(b)
  {
    hide Scan6, Tail.Text, Tail.Bytes, Tail.OK, Value, Colons, IsGroup;
    NoGroups();
    var (v, text) := (Value(front), t.Text());
    TailRead(t, v, Some(|v|));
    ColonReads(text, v);
    GapOpened(v, t.Bytes());
    if front == [] {
      assert s[1..] == ":" + text;
    } else {
      DoubleColon(front, text);
      ColonsFirst(front, ":" + text);
      ColonsRead(front, ":" + text, [], None);
      assert [] + v == v;
    }
  }

  lemma DoubleColon(front: seq<string>, text: string)
    requires front != []
    ensures Between(front) + "::" + text == Colons(front) + (":" + text)
  {
    hide Colons;
    LastGroup(front);
    ValueMore(front[..|front| - 1], front[|front| - 1], []);
  }

  lemma GapOpened(v: seq<Byte>, w: seq<Byte>)
    requires |v| + |w| < 16
    ensures Finish(v + w, Some(|v|), 0, 0) == Some(v + Gap(16 - |v| - |w|) + w)
  {
    assert (v + w)[..|v|] == v && (v + w)[|v|..] == w;
  }

  // ---------- every text that is read is one of the grammar ----------

  /** The text read so far: stored groups, with an empty one at the double colon, and the digits of the next. */
  ghost function Shape(gs: seq<string>, c: Option<nat>): string {
    if c.Some? && c.value <= |gs| then Colons(gs[..c.value]) + ":" + Colons(gs[c.value..]) else Colons(gs)
  }

  /** As `IsShort`, but seen from inside the text, where a leading colon has been skipped. */
  ghost predicate IsInner(s: string, b: seq<Byte>, front: seq<string>, t: Tail) {
    && AllGroups(front) && t.OK() && s == Colons(front) + ":" + t.Text()
    && |Value(front)| + |t.Bytes()| < 16
    && b == Value(front) + Gap(16 - |Value(front)| - |t.Bytes()|) + t.Bytes()
  }

  ghost predicate Inside(s: string, b: seq<Byte>) {
    (exists t :: IsFull(s, b, t)) || (exists front, t :: IsInner(s, b, front, t))
  }

  /** Where the parser keeps the double colon: in bytes. */
  function InBytes(c: Option<nat>): Option<nat> {
    if c.None? then None else Some(2 * c.value)
  }

  lemma {:induction false} ValueSplit(gs: seq<string>, k: nat)
    requires k <= |gs|
    ensures Value(gs) == Value(gs[..k]) + Value(gs[k..])
    decreases |gs|
  {
    hide Value;
    NoGroups();
    if k == |gs| {
      assert gs[..k] == gs && gs[k..] == [];
    } else {
      var (front, g) := (gs[..|gs| - 1], gs[|gs| - 1]);
      LastGroup(gs);
      ValueMore(front, g, []);
      ValueSplit(front, k);
      assert gs[..k] == front[..k] && gs[k..] == front[k..] + [g];
      ValueMore(front[k..], g, Value(front[..k]));
    }
  }

  /** The text that ends with these groups and this quad. */
  ghost function Ended(gs: seq<string>, c: Option<nat>, quad: Option<seq<Byte>>): string
    requires AllGroups(gs) && (quad.Some? ==> |quad.value| == 4)
  {
    if c.Some? && c.value <= |gs| then Colons(gs[..c.value]) + ":" + Tail(gs[c.value..], quad).Text()
    else Tail(gs, quad).Text()
  }

  lemma {:induction false} EndSound(gs: seq<string>, c: Option<nat>, quad: Option<seq<Byte>>, b: seq<Byte>)
    requires AllGroups(gs) && (quad.Some? ==> |quad.value| == 4) && (c.Some? ==> c.value <= |gs|)
    requires Finish(Tail(gs, quad).Bytes(), InBytes(c), 0, 0) == Some(b)
    ensures Inside(Ended(gs, c, quad), b)
  {
    hide Colons, Value, IsGroup, Tail.Text, Finish;
    var all := Tail(gs, quad).Bytes();
    if c.None? {
      FinishFull(all, b);
      assert IsFull(Ended(gs, c, quad), b, Tail(gs, quad));
    } else {
      var (front, t) := (gs[..c.value], Tail(gs[c.value..], quad));
      ValueSplit(gs, c.value);
      assert all == Value(front) + t.Bytes();
      FinishShort(Value(front), t.Bytes(), b);
      assert IsInner(Ended(gs, c, quad), b, front, t);
    }
  }

  lemma NoPending(o: seq<Byte>, colon: Option<nat>, val: nat)
    requires colon.Some? ==> colon.value <= |o|
    ensures Finish(o, colon, 0, val) == Finish(o, colon, 0, 0)
  {
  }

  lemma FinishFull(o: seq<Byte>, b: seq<Byte>)
    requires Finish(o, None, 0, 0) == Some(b)
    ensures b == o && |b| == 16
  {
  }

  lemma FinishShort(v: seq<Byte>, w: seq<Byte>, b: seq<Byte>)
    requires Finish(v + w, Some(|v|), 0, 0) == Some(b)
    ensures |v| + |w| < 16 && b == v + Gap(16 - |v| - |w|) + w
  {
    if |v| + |w| < 16 { GapOpened(v, w); }
  }

  /** The end of the text right after a double colon. */
  lemma {:induction false} OpenSound(gs: seq<string>, c: Option<nat>, b: seq<Byte>)
    requires AllGroups(gs) && (c == Some(|gs|) || (c.None? && gs == []))
    requires Finish(Value(gs), InBytes(c), 0, 0) == Some(b)
    ensures Inside(Shape(gs, c), b)
  {
    hide Colons, Value, Inside, IsGroup, Finish;
    NoGroups();
    assert Tail(gs, None).Bytes() == Value(gs);
    if c.None? {
      FinishFull(Value(gs), b);
      assert false;
    }
    EndSound(gs, c, None, b);
    assert gs[c.value..] == [];
  }

  lemma ShapeEnd(gs: seq<string>, c: Option<nat>, g: string)
    requires AllGroups(gs + [g]) && (c.Some? ==> c.value <= |gs|)
    ensures Shape(gs, c) + g == Ended(gs + [g], c, None)
  {
    hide Colons, Value, IsGroup;
    var all := gs + [g];
    ValueMore(gs, g, []);
    if c.Some? {
      assert all[..c.value] == gs[..c.value] && all[c.value..] == gs[c.value..] + [g];
      ValueMore(gs[c.value..], g, []);
    }
  }

  lemma Pending(out: seq<Byte>, colon: Option<nat>, seen: nat, val: nat, b: seq<Byte>)
    requires (colon.Some? ==> colon.value <= |out|) && seen > 0 && Finish(out, colon, seen, val) == Some(b)
    ensures Finish(out + TwoBytes(val), colon, 0, 0) == Some(b)
  {
  }

  /** The end of the text after the digits of a group. */
  lemma {:induction false} LastSound(gs: seq<string>, c: Option<nat>, g: string, b: seq<Byte>)
    requires AllGroups(gs) && IsGroup(g) && (c.Some? ==> c.value <= |gs|)
    requires Finish(Value(gs), InBytes(c), |g|, HexFold(0, g)) == Some(b)
    ensures Inside(Shape(gs, c) + g, b)
  {
    hide Colons, Value, Inside, Finish, Shape, Ended, HexFold, TwoBytes;
    var all := gs + [g];
    ValueMore(gs, g, []);
    Pending(Value(gs), InBytes(c), |g|, HexFold(0, g), b);
    assert Tail(all, None).Bytes() == Value(all);
    EndSound(all, c, None, b);
    ShapeEnd(gs, c, g);
  }

  lemma {:induction false} QuadSound(gs: seq<string>, c: Option<nat>, q: seq<Byte>, b: seq<Byte>)
    requires AllGroups(gs) && |q| == 4 && (c.Some? ==> c.value <= |gs|)
    requires Finish(Value(gs) + q, InBytes(c), 0, 0) == Some(b)
    ensures Inside(Shape(gs, c) + Quad(q), b)
  {
    hide Colons, Value, Inside, Quad, Finish;
    EndSound(gs, c, Some(q), b);
    if c.Some? {
      assert Colons(gs[..c.value]) + ":" + Colons(gs[c.value..]) + Quad(q)
          == Colons(gs[..c.value]) + ":" + (Colons(gs[c.value..]) + Quad(q));
    }
  }

  /** A group is stored. */
  lemma {:induction false} ShapeMore(gs: seq<string>, c: Option<nat>, g: string)
    requires c.Some? ==> c.value <= |gs|
    ensures Shape(gs + [g], c) == Shape(gs, c) + g + ":"
  {
    hide Colons, Value;
    ValueMore(gs, g, []);
    if c.Some? {
      assert (gs + [g])[..c.value] == gs[..c.value] && (gs + [g])[c.value..] == gs[c.value..] + [g];
      ValueMore(gs[c.value..], g, []);
    }
  }

  lemma ShapeColon(gs: seq<string>)
    ensures Shape(gs, Some(|gs|)) == Shape(gs, None) + ":"
  {
    assert gs[..|gs|] == gs && gs[|gs|..] == [];
  }

  /** From any state of the parser: if it accepts, the whole text is one of the grammar. */
  lemma {:induction false} Sound(s: string, gs: seq<string>, c: Option<nat>, ds: string, b: seq<Byte>)
    requires AllGroups(gs) && |ds| <= 4 && AllHex(ds) && (c.Some? ==> c.value <= |gs|)
    requires ds == "" && s == "" ==> c == Some(|gs|) || gs == []
    requires Scan6(s, Value(gs), InBytes(c), |ds|, HexFold(0, ds), ds + s) == Some(b)
    ensures Inside(Shape(gs, c) + ds + s, b)
    decreases |s|
  {
    hide Value, Shape, Inside, Finish, Parse4;
    var p := Shape(gs, c) + ds;
    if s == "" {
      assert p + s == p;
      if ds == "" {
        OpenSound(gs, c, b);
        assert p == Shape(gs, c);
      } else {
        LastSound(gs, c, ds, b);
      }
    } else {
      assert s == [s[0]] + s[1..];
      if HexValue(s[0]) < 16 {
        SoundDigit(s, gs, c, ds, b);
      } else if s[0] == ':' && ds == "" {
        SoundColon(s, gs, c, b);
      } else if s[0] == ':' {
        SoundGroup(s, gs, c, ds, b);
      } else {
        var q := Parse4(ds + s).value;
        Exactly4(ds + s, q);
        NoPending(Value(gs) + q, InBytes(c), HexFold(0, ds));
        QuadSound(gs, c, q, b);
        assert p + s == Shape(gs, c) + (ds + s);
      }
    }
  }

  lemma {:induction false} SoundDigit(s: string, gs: seq<string>, c: Option<nat>, ds: string, b: seq<Byte>)
    requires AllGroups(gs) && |ds| <= 4 && AllHex(ds) && (c.Some? ==> c.value <= |gs|)
    requires s != "" && HexValue(s[0]) < 16
    requires Scan6(s, Value(gs), InBytes(c), |ds|, HexFold(0, ds), ds + s) == Some(b)
    ensures Inside(Shape(gs, c) + ds + s, b)
    decreases |s|, 0
  {
    hide Value, Shape, Inside, Finish, Parse4;
    var (d, rest) := ([s[0]], s[1..]);
    HexFoldLast(0, ds, s[0]);
    assert ds + d + rest == ds + s;
    Sound(rest, gs, c, ds + d, b);
    assert Shape(gs, c) + (ds + d) + rest == Shape(gs, c) + ds + s;
  }

  lemma {:induction false} SoundColon(s: string, gs: seq<string>, c: Option<nat>, b: seq<Byte>)
    requires AllGroups(gs) && (c.Some? ==> c.value <= |gs|) && s != "" && s[0] == ':'
    requires Scan6(s, Value(gs), InBytes(c), 0, HexFold(0, ""), "" + s) == Some(b)
    ensures Inside(Shape(gs, c) + "" + s, b)
    decreases |s|, 0
  {
    hide Value, Shape, Inside, Finish, Parse4;
    var rest := s[1..];
    assert "" + rest == rest;
    assert c.None?;
    Sound(rest, gs, Some(|gs|), "", b);
    ShapeColon(gs);
    assert Shape(gs, None) + ":" + "" + rest == Shape(gs, None) + "" + s;
  }

  lemma {:induction false} SoundGroup(s: string, gs: seq<string>, c: Option<nat>, ds: string, b: seq<Byte>)
    requires AllGroups(gs) && IsGroup(ds) && (c.Some? ==> c.value <= |gs|) && s != "" && s[0] == ':'
    requires Scan6(s, Value(gs), InBytes(c), |ds|, HexFold(0, ds), ds + s) == Some(b)
    ensures Inside(Shape(gs, c) + ds + s, b)
    decreases |s|, 0
  {
    hide Value, Shape, Inside, Finish, Parse4;
    var rest := s[1..];
    assert "" + rest == rest;
    ValueMore(gs, ds, []);
    Sound(rest, gs + [ds], c, "", b);
    ShapeMore(gs, c, ds);
    assert Shape(gs, c) + ds + ":" + "" + rest == Shape(gs, c) + ds + s;
  }

  /** A leading colon has been skipped only in front of another one. */
  lemma {:induction false} InnerIsShort(s: string, text: string, b: seq<Byte>, front: seq<string>, t: Tail)
    requires IsInner(text, b, front, t)
    requires if s != "" && s[0] == ':' then s == ":" + text && text != "" && text[0] == ':' else text == s
    ensures IsShort(s, b, front, t)
  {
    hide Colons, Value, IsGroup, Tail.OK, Tail.Text, Tail.Bytes;
    NoGroups();
    var rest := t.Text();
    assert text == Colons(front) + (":" + rest);
    if front == [] {
      assert text == ":" + rest;
      assert s == "" + "::" + rest;
    } else {
      ColonsFirst(front, ":" + rest);
      DoubleColon(front, rest);
    }
  }

  /** What the two ways into the parser mean for the whole text. */
  lemma {:induction false} WholeSound(s: string, b: seq<Byte>)
    requires Parse6(s) == Some(b)
    ensures IsAddress(s, b)
  {
    hide Scan6, Colons, Value, IsGroup, Tail.OK, Tail.Text, Tail.Bytes, IsInner, IsShort;
    var text := if s != "" && s[0] == ':' then s[1..] else s;
    FromStart(text, b);
    if t :| IsFull(text, b, t) {
      TailFirst(t);
    } else {
      var front, t :| IsInner(text, b, front, t);
      InnerIsShort(s, text, b, front, t);
    }
  }

  lemma {:induction false} FromStart(text: string, b: seq<Byte>)
    requires Scan6(text, [], None, 0, 0, text) == Some(b)
    ensures Inside(text, b)
  {
    hide Scan6, Colons, Value, Inside;
    NoGroups();
    assert "" + text == text && Shape([], None) + "" + text == text;
    Sound(text, [], None, "", b);
  }

  /** inet_pton6 reads exactly the texts of the grammar, each as its value. */
  lemma {:induction false} Exactly6(s: string, b: seq<Byte>)
    ensures Parse6(s) == Some(b) <==> IsAddress(s, b)
  {
    hide Parse6, IsFull, IsShort;
    if Parse6(s) == Some(b) { WholeSound(s, b); }
    if t :| IsFull(s, b, t) { FullRead(s, b, t); }
    if front, t :| IsShort(s, b, front, t) { ShortRead(s, b, front, t); }
  }

  // ---------- what inet_ntop6 writes is one of these texts ----------

  ghost function Hexes(ws: seq<Word>): (gs: seq<string>)
    ensures |gs| == |ws| && forall i :: 0 <= i < |ws| ==> gs[i] == Hex(ws[i])
  {
    seq(|ws|, i requires 0 <= i < |ws| => Hex(ws[i]))
  }

  lemma HexesOK(ws: seq<Word>)
    ensures AllGroups(Hexes(ws))
  {
    hide Hex, AllHex;
    forall i | 0 <= i < |ws| ensures IsGroup(Hexes(ws)[i]) {
      HexReads(ws[i]);
      HexLength(ws[i]);
    }
  }

  lemma {:induction false} FirstGroup(g: string, gs: seq<string>)
    ensures Colons([g] + gs) == g + ":" + Colons(gs)
    ensures Between([g] + gs) == if gs == [] then g else g + ":" + Between(gs)
    ensures Value([g] + gs) == TwoBytes(HexFold(0, g)) + Value(gs)
    decreases |gs|
  {
    hide Colons, Between, Value, HexFold, TwoBytes;
    NoGroups();
    if gs == [] {
      ValueMore([], g, []);
      assert [g] + gs == [] + [g];
    } else {
      var (front, h) := (gs[..|gs| - 1], gs[|gs| - 1]);
      LastGroup(gs);
      FirstGroup(g, front);
      ValueMore([g] + front, h, []);
      ValueMore(front, h, []);
      assert [g] + gs == [g] + front + [h];
      ThreeParts(g + ":", Colons(front), h + ":");
      ThreeParts(g + ":", Colons(front), h);
      ThreeParts(TwoBytes(HexFold(0, g)), Value(front), TwoBytes(HexFold(0, h)));
      assert Colons([g] + front) + h + ":" == Colons([g] + front) + (h + ":") && Colons(front) + h + ":" == Colons(front) + (h + ":");
    }
  }

  lemma ThreeParts<T>(a: seq<T>, b: seq<T>, c: seq<T>)
    ensures a + b + c == a + (b + c)
  {
  }

  lemma {:induction false} HexesText(ws: seq<Word>)
    ensures Colons(Hexes(ws)) == Lead(ws) && Between(Hexes(ws)) == Join(ws) && Value(Hexes(ws)) == Bytes(ws)
    decreases |ws|
  {
    hide Colons, Between, Value, Hex;
    NoGroups();
    if ws == [] {
      assert Hexes(ws) == [];
    } else {
      HexesText(ws[1..]);
      FirstGroup(Hex(ws[0]), Hexes(ws[1..]));
      assert Hexes(ws) == [Hex(ws[0])] + Hexes(ws[1..]);
      HexReads(ws[0]);
      assert TwoBytes(ws[0]) == [ws[0] / 256, ws[0] % 256];
    }
  }

  lemma {:induction false} BytesConcat(a: seq<Word>, b: seq<Word>)
    ensures Bytes(a + b) == Bytes(a) + Bytes(b)
  {
    if a == [] {
      assert a + b == b;
    } else {
      assert (a + b)[1..] == a[1..] + b;
      BytesConcat(a[1..], b);
    }
  }

  lemma {:induction false} ZeroBytes(a: seq<Word>)
    requires forall i :: 0 <= i < |a| ==> a[i] == 0
    ensures Bytes(a) == Gap(2 * |a|)
  {
    if a != [] { ZeroBytes(a[1..]); }
  }


  /** What follows the double colon. */
  ghost function After(w: Words8, base: nat, len: nat): string
    requires base + len <= 8
  {
    if Embedded(w, base, len) then Lead(w[len..6]) + Quad(Bytes(w[6..])) else Join(w[base + len..])
  }


  lemma {:induction false} TextWithRun(w: Words8, base: nat, len: nat)
    requires base + len <= 8
    ensures Text6(w, base, len) == Join(w[..base]) + "::" + After(w, base, len)
  {
    hide Join, Lead, Quad, Hex, Bytes;
    JoinColon(w[..base]);
    var after := After(w, base, len);
    assert (if base == 0 then ":" else Lead(w[..base])) + ":" + after == Join(w[..base]) + "::" + after;
  }

  lemma {:induction false} JoinColon(ws: seq<Word>)
    ensures ws == [] ==> Join(ws) == ""
    ensures ws != [] ==> Lead(ws) == Join(ws) + ":"
    decreases |ws|
  {
    hide Hex;
    if |ws| > 1 { JoinColon(ws[1..]); }
  }

  /** The text with a shortened run is one of the grammar, whatever the run and however the last part is written. */
  lemma {:induction false} ShortText(w: Words8, base: nat, len: nat)
    requires 2 <= len && base + len <= 8 && Zeros(w, base, len)
    ensures IsAddress(Text6(w, base, len), Bytes(w))
  {
    hide Join, Lead, Quad, Hex, Bytes, Colons, Between, Value, Text6, IsGroup;
    var front := Hexes(w[..base]);
    var t := if Embedded(w, base, len) then Tail(Hexes(w[len..6]), Some(Bytes(w[6..]))) else Tail(Hexes(w[base + len..]), None);
    HexesOK(w[..base]);
    HexesText(w[..base]);
    TextWithRun(w, base, len);
    RunBytes(w, base, len);
    if Embedded(w, base, len) {
      HexesOK(w[len..6]);
      HexesText(w[len..6]);
      assert w[len..] == w[len..6] + w[6..];
      BytesConcat(w[len..6], w[6..]);
    } else {
      HexesOK(w[base + len..]);
      HexesText(w[base + len..]);
      assert t.Bytes() == Bytes(w[base + len..]);
    }
    assert IsShort(Text6(w, base, len), Bytes(w), front, t);
  }

  lemma {:induction false} RunBytes(w: Words8, base: nat, len: nat)
    requires 2 <= len && base + len <= 8 && Zeros(w, base, len)
    ensures Bytes(w) == Bytes(w[..base]) + Gap(2 * len) + Bytes(w[base + len..])
    ensures |Bytes(w[..base])| + |Bytes(w[base + len..])| == 16 - 2 * len
  {
    hide Bytes;
    var (a, z, c) := (w[..base], w[base..base + len], w[base + len..]);
    assert w == a + z + c;
    BytesConcat(a + z, c);
    BytesConcat(a, z);
    ZeroBytes(z);
  }

  /** inet_pton6 undoes inet_ntop6, whichever run was shortened and however the last part was written. */
  lemma {:induction false} RoundTrip6(w: Words8, base: int, len: nat)
    requires base == -1 || (0 <= base && 2 <= len && base + len <= 8 && Zeros(w, base, len))
    ensures Parse6(Text6(w, base, len)) == Some(Bytes(w))
  {
    hide Parse6, Bytes, Join, Between, Value, IsGroup, IsShort;
    if base == -1 {
      HexesOK(w);
      HexesText(w);
      assert Tail(Hexes(w), None).Bytes() == Bytes(w);
      assert IsFull(Text6(w, base, len), Bytes(w), Tail(Hexes(w), None));
    } else {
      ShortText(w, base, len);
    }
    Exactly6(Text6(w, base, len), Bytes(w));
  }

  /** For every address: what inet_ntop6 writes, inet_pton6 reads back as that address. */
  lemma {:induction false} RoundTrip(w: Words8, base: int, len: nat)
    requires IsBest(w, base, len)
    ensures base == -1 || (0 <= base && base + len <= 8)
    ensures Parse6(Text6(w, base, len)) == Some(Bytes(w))
  {
    BestRange(w, base, len);
    RoundTrip6(w, base, len);
  }

  // ---------- letter case ----------

  function Lower(c: char): char {
    if 'A' <= c <= 'F' then "abcdef"[c as int - 'A' as int] else c
  }

  function Lowered(s: string): (r: string)
    ensures |r| == |s| && forall i :: 0 <= i < |s| ==> r[i] == Lower(s[i])
  {
    seq(|s|, i requires 0 <= i < |s| => Lower(s[i]))
  }

  lemma LoweredRest(s: string)
    requires s != []
    ensures Lowered(s)[0] == Lower(s[0]) && Lowered(s)[1..] == Lowered(s[1..])
  {
  }

  lemma LowerDigit(c: char)
    ensures HexValue(Lower(c)) == HexValue(c)
    ensures '0' <= Lower(c) <= '9' <==> '0' <= c <= '9'
    ensures '0' <= c <= '9' || c == '.' || c == ':' ==> Lower(c) == c
    ensures (Lower(c) == '.' <==> c == '.') && (Lower(c) == ':' <==> c == ':')
  {
  }

  lemma {:induction false} Scan4Blind(s: string, done: seq<Byte>, cur: Byte, saw: bool, octets: nat)
    ensures Scan4(Lowered(s), done, cur, saw, octets) == Scan4(s, done, cur, saw, octets)
    decreases |s|
  {
    hide Lower, Lowered, HexValue;
    if s != [] {
      LoweredRest(s);
      LowerDigit(s[0]);
      if '0' <= s[0] <= '9' {
        var nw := cur * 10 + (s[0] as int - '0' as int);
        if nw <= 255 { Scan4Blind(s[1..], done, nw, true, if saw then octets else octets + 1); }
      } else {
        Scan4Blind(s[1..], done + [cur], 0, false, octets);
      }
    }
  }

  lemma {:induction false} Scan6Blind(s: string, out: seq<Byte>, colon: Option<nat>, seen: nat, val: nat, tok: string)
    requires colon.Some? ==> colon.value <= |out|
    ensures Scan6(Lowered(s), out, colon, seen, val, Lowered(tok)) == Scan6(s, out, colon, seen, val, tok)
    decreases |s|
  {
    hide Lower, Lowered, HexValue, Scan4, Finish;
    Scan4Blind(tok, [], 0, false, 0);
    if s != [] {
      LoweredRest(s);
      LowerDigit(s[0]);
      if HexValue(s[0]) < 16 {
        Scan6Blind(s[1..], out, colon, seen + 1, val * 16 + HexValue(s[0]), tok);
      } else if s[0] == ':' {
        if seen == 0 {
          Scan6Blind(s[1..], out, Some(|out|), 0, val, s[1..]);
        } else {
          Scan6Blind(s[1..], out + [val / 256 % 256, val % 256], colon, 0, 0, s[1..]);
        }
      }
    }
  }

  /** Capital letters are read like small ones. */
  lemma {:induction false} CaseBlind(s: string, b: seq<Byte>)
    ensures IsAddress(Lowered(s), b) <==> IsAddress(s, b)
  {
    hide IsAddress, Scan6, Lowered, Lower;
    Exactly6(s, b);
    Exactly6(Lowered(s), b);
    if s != [] {
      LoweredRest(s);
      LowerDigit(s[0]);
      if |s| > 1 {
        LoweredRest(s[1..]);
        LowerDigit(s[1]);
      }
      Scan6Blind(s[1..], [], None, 0, 0, s[1..]);
    }
    Scan6Blind(s, [], None, 0, 0, s);
  }

  // ---------- the parsing loop ----------

  /** Shift what follows the double colon to the end and clear where it was, from the back. */
  method OpenGap(tmp: array<Byte>, tp: nat, colonp: nat)
    requires tmp.Length == 16 && colonp <= tp < 16 && forall i :: tp <= i < 16 ==> tmp[i] == 0
    modifies tmp
    ensures tmp[..] == old(tmp[..colonp]) + Gap(16 - tp) + old(tmp[colonp..tp])
  {
    var n := tp - colonp;
    var i := 1;
    while i <= n
      invariant 1 <= i <= n + 1
      invariant forall k :: 0 <= k < colonp + n - (i - 1) ==> tmp[k] == old(tmp[k])
      invariant forall k :: colonp + n - (i - 1) <= k < 16 - (i - 1) ==> tmp[k] == 0
      invariant forall k :: 16 - (i - 1) <= k < 16 ==> tmp[k] == old(tmp[k - (16 - tp)])
    {
      tmp[16 - i] := tmp[colonp + n - i];
      tmp[colonp + n - i] := 0;
      i := i + 1;
    }
  }

  /** The cells up to `tp` are stored, the rest are zero. */
  ghost predicate Stored(tmp: array<Byte>, tp: nat, out: seq<Byte>)
    reads tmp
  {
    tmp.Length == 16 && tp <= 16 && tmp[..tp] == out && forall i :: tp <= i < 16 ==> tmp[i] == 0
  }

  lemma StoredNone(tmp: array<Byte>)
    requires tmp.Length == 16 && forall i :: 0 <= i < 16 ==> tmp[i] == 0
    ensures Stored(tmp, 0, [])
  {
  }

  method StoreWord(tmp: array<Byte>, tp: nat, val: nat, ghost out: seq<Byte>)
    requires Stored(tmp, tp, out) && tp + 2 <= 16
    modifies tmp
    ensures Stored(tmp, tp + 2, out + [val / 256 % 256, val % 256])
  {
    tmp[tp] := val / 256 % 256;
    tmp[tp + 1] := val % 256;
    assert tmp[..tp] == out;
  }

  method StoreQuad(tmp: array<Byte>, tp: nat, q: seq<Byte>, ghost out: seq<Byte>)
    requires Stored(tmp, tp, out) && tp + 4 <= 16 && |q| == 4
    modifies tmp
    ensures Stored(tmp, tp + 4, out + q)
  {
    forall i | 0 <= i < 4 { tmp[tp + i] := q[i]; }
    assert tmp[..tp] == out && tmp[tp..tp + 4] == q;
    assert tmp[..tp + 4] == tmp[..tp] + tmp[tp..tp + 4];
  }

  /** After the loop: the pending word, then the gap. */
  method Complete(tmp: array<Byte>, tp0: nat, colonp: Option<nat>, seen: nat, val: nat, ghost out: seq<Byte>)
    returns (r: Option<seq<Byte>>)
    requires Stored(tmp, tp0, out) && (colonp.Some? ==> colonp.value <= tp0)
    modifies tmp
    ensures |out| == tp0 && r == Finish(out, colonp, seen, val)
  {
    var tp := tp0;
    ghost var o := out;
    if seen > 0 {
      if tp + 2 > 16 { return None; }
      StoreWord(tmp, tp, val, out);
      o := out + [val / 256 % 256, val % 256];
      tp := tp + 2;
    }
    if colonp.Some? {
      if tp == 16 { return None; }
      assert tmp[..colonp.value] == o[..colonp.value] && tmp[colonp.value..tp] == o[colonp.value..];
      OpenGap(tmp, tp, colonp.value);
      tp := 16;
    }
    if tp != 16 { return None; }
    assert tmp[..] == tmp[..16];
    r := Some(tmp[..]);
  }

  lemma {:induction false} ScanLength(s: string, done: seq<Byte>, cur: Byte, saw: bool, octets: nat)
    requires |done| + (if saw then 1 else 0) == octets <= 4 && (saw || octets < 4)
    ensures Scan4(s, done, cur, saw, octets).Some? ==> |Scan4(s, done, cur, saw, octets).value| == 4
    decreases |s|
  {
    if s != [] {
      if '0' <= s[0] <= '9' {
        var nw := cur * 10 + (s[0] as int - '0' as int);
        if !(saw && cur == 0) && nw <= 255 {
          ScanLength(s[1..], done, nw, true, if saw then octets else octets + 1);
        }
      } else if s[0] == '.' && saw && octets != 4 {
        ScanLength(s[1..], done + [cur], 0, false, octets);
      }
    }
  }

  /** inet_pton6: exactly the texts of the grammar are read, each as its value. */
  method Pton6(s: string) returns (r: Option<seq<Byte>>)
    ensures forall b :: r == Some(b) <==> IsAddress(s, b)
  {
    forall b ensures Parse6(s) == Some(b) <==> IsAddress(s, b) { Exactly6(s, b); }
    r := Read6(s);
  }

  /** What the scan does with one character. */
  lemma Scan6Is(s: string, out: seq<Byte>, colon: Option<nat>, seen: nat, val: nat, tok: string)
    requires (colon.Some? ==> colon.value <= |out|) && s != []
    ensures var (c, rest, r) := (s[0], s[1..], Scan6(s, out, colon, seen, val, tok));
            && (HexValue(c) < 16 ==>
              r == if seen + 1 > 4 then None else Scan6(rest, out, colon, seen + 1, val * 16 + HexValue(c), tok))
            && (HexValue(c) >= 16 && c == ':' && seen == 0 ==>
              r == if colon.Some? then None else Scan6(rest, out, Some(|out|), 0, val, rest))
            && (HexValue(c) >= 16 && c == ':' && seen != 0 ==>
              r == if rest == [] || |out| + 2 > 16 then None
              else Scan6(rest, out + [val / 256 % 256, val % 256], colon, 0, 0, rest))
            && (HexValue(c) >= 16 && c != ':' ==>
              r == if c == '.' && |out| + 4 <= 16 && Parse4(tok).Some? then Finish(out + Parse4(tok).value, colon, 0, val) else None)
  {
    hide HexValue, Finish, Parse4;
  }

  lemma Scan6None(out: seq<Byte>, colon: Option<nat>, seen: nat, val: nat, tok: string)
    requires colon.Some? ==> colon.value <= |out|
    ensures Scan6([], out, colon, seen, val, tok) == Finish(out, colon, seen, val)
  {
  }

  /** The loop of inet_pton6. */
  method Read6(s: string) returns (r: Option<seq<Byte>>)
    ensures r == Parse6(s)
  {
    hide Finish, Parse4, Stored, HexValue, Scan6;
    var tmp := new Byte[16](_ => 0);
    StoredNone(tmp);
    var tp := 0;
    ghost var out: seq<Byte> := [];
    var colonp: Option<nat> := None;
    var src := 0;
    if s != [] && s[0] == ':' {
      if |s| == 1 || s[1] != ':' { return None; }
      src := 1;
    }
    var curtok := src;
    var seen: nat, val: nat := 0, 0;
    assert s[0..] == s;
    while src < |s|
      invariant 0 <= src <= |s| && 0 <= curtok <= src && Stored(tmp, tp, out) && |out| == tp && fresh(tmp)
      invariant colonp.Some? ==> colonp.value <= tp
      invariant Parse6(s) == Scan6(s[src..], out, colonp, seen, val, s[curtok..])
    {
      var ch := s[src];
      assert s[src..][0] == ch && s[src..][1..] == s[src + 1..];
      Scan6Is(s[src..], out, colonp, seen, val, s[curtok..]);
      src := src + 1;
      if HexValue(ch) < 16 {
        val := val * 16 + HexValue(ch);
        seen := seen + 1;
        if seen > 4 { return None; }
      } else if ch == ':' {
        curtok := src;
        if seen == 0 {
          if colonp.Some? { return None; }
          colonp := Some(tp);
        } else {
          if src == |s| { return None; }
          if tp + 2 > 16 { return None; }
          StoreWord(tmp, tp, val, out);
          out := out + [val / 256 % 256, val % 256];
          tp, seen, val := tp + 2, 0, 0;
        }
      } else {
        if ch == '.' && tp + 4 <= 16 {
          var q := Pton4(s[curtok..]);
          if q.Some? {
            QuadLength(s[curtok..]);
            StoreQuad(tmp, tp, q.value, out);
            r := Complete(tmp, tp + 4, colonp, 0, val, out + q.value);
            return;
          }
        }
        return None;
      }
    }
    assert s[|s|..] == [];
    Scan6None(out, colonp, seen, val, s[curtok..]);
    r := Complete(tmp, tp, colonp, seen, val, out);
  }

  lemma {:induction false} QuadLength(s: string)
    ensures Parse4(s).Some? ==> |Parse4(s).value| == 4
  {
    ScanLength(s, [], 0, false, 0);
  }
}
