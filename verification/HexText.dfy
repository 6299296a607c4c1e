/** Byte strings as colon-separated hexadecimal text: the hexstring functions of utils.c. */
module HexText {
  import opened Wire

  function Digit(v: nat): char
    requires v < 16
  {
    if v < 10 then '0' + v as char else 'a' + (v - 10) as char
  }

  /** Two digits, as `%02x` prints a byte. */
  function Two(b: byte): string { [Digit(b as int / 16), Digit(b as int % 16)] }

  function Text(s: seq<byte>): string {
    if s == [] then "" else if |s| == 1 then Two(s[0]) else Two(s[0]) + ":" + Text(s[1..])
  }

  /** What fits `room`: three characters a byte; a cut text may end in a colon. */
  function Written(s: seq<byte>, room: nat): string {
    var n := room / 3;
    if n >= |s| then Text(s) else Text(s[..n]) + if n > 0 && room % 3 != 0 then ":" else ""
  }

  function Value(c: char): Option<nat> {
    if '0' <= c <= '9' then Some(c as int - '0' as int)
    else if 'a' <= c <= 'f' then Some(c as int - 'a' as int + 10)
    else if 'A' <= c <= 'F' then Some(c as int - 'A' as int + 10)
    else None
  }

  /** `(acc << 4) + d` in 32 bits. */
  function Shift(acc: nat, d: nat): nat { (acc * 16 + d) % U32_MOD }

  function Cons(b: nat, r: Option<seq<byte>>): Option<seq<byte>> {
    if b > 255 || r.None? then None else Some([b] + r.value)
  }

  /** The bytes named by a text whose current group has value `acc` so far. */
  function Parse(text: string, acc: nat): Option<seq<byte>> {
    if text == "" then Cons(acc, Some([]))
    else if text[0] == ':' then Cons(acc, Parse(text[1..], 0))
    else
      var v := Value(text[0]);
      if v.None? then None else Parse(text[1..], Shift(acc, v.value))
  }

  /** The digits by name. */
  lemma ValueExact(c: char)
    ensures Value(c).Some? <==> c in "0123456789abcdef" || c in "ABCDEF"
    ensures Value(c).Some? ==>
              var v := Value(c).value; v < 16 && (c == "0123456789abcdef"[v] || c == "0123456789ABCDEF"[v])
  {
  }

  function Upper(c: char): char { if 'a' <= c <= 'f' then (c as int - 32) as char else c }

  /** A text with its letters in upper case names the same bytes. */
  lemma {:induction false} UpperParses(text: string, upper: string, acc: nat)
    requires |upper| == |text| && forall i :: 0 <= i < |text| ==> upper[i] == text[i] || upper[i] == Upper(text[i])
    ensures Parse(upper, acc) == Parse(text, acc)
    decreases |text|
  {
    hide Shift;
    if text != "" {
      assert Value(upper[0]) == Value(text[0]) && (upper[0] == ':' <==> text[0] == ':');
      hide Value, Upper;
      if text[0] == ':' {
        UpperParses(text[1..], upper[1..], 0);
      } else if Value(text[0]).Some? {
        UpperParses(text[1..], upper[1..], Shift(acc, Value(text[0]).value));
      }
    }
  }

  lemma TwoParses(b: byte, rest: string)
    ensures Parse(Two(b) + rest, 0) == Parse(rest, b as int)
  {
    hide Digit, Value, Shift;
    var t := Two(b) + rest;
    assert t[1..][1..] == rest;
    DigitValue(b as int / 16);
    DigitValue(b as int % 16);
    ShiftTwice(b);
  }

  lemma DigitValue(v: nat)
    requires v < 16
    ensures Value(Digit(v)) == Some(v) && Digit(v) != ':'
  {
  }

  lemma ShiftTwice(b: byte)
    ensures Shift(Shift(0, b as int / 16), b as int % 16) == b as int
  {
  }

  /** Parsing printed bytes gives them back. */
  lemma {:induction false} TextParses(s: seq<byte>)
    requires s != []
    ensures Parse(Text(s), 0) == Some(s)
  {
    hide Two;
    if |s| == 1 {
      TwoParses(s[0], "");
      assert Two(s[0]) + "" == Text(s) && [s[0]] + [] == s;
    } else {
      var rest := ":" + Text(s[1..]);
      TwoParses(s[0], rest);
      assert Two(s[0]) + rest == Text(s);
      assert rest[0] == ':' && rest[1..] == Text(s[1..]);
      TextParses(s[1..]);
      assert [s[0]] + s[1..] == s;
    }
  }

  /** The first `n` bytes, filled up with zeros. */
  function Fit(s: seq<byte>, n: nat): seq<byte> {
    if |s| >= n then s[..n] else s + seq(n - |s|, _ => 0)
  }

  /** A trailing colon adds a zero byte. */
  lemma {:induction false} TextColonParses(s: seq<byte>)
    requires s != []
    ensures Parse(Text(s) + ":", 0) == Some(s + [0])
  {
    hide Two;
    var rest := if |s| == 1 then ":" else ":" + (Text(s[1..]) + ":");
    assert Text(s) + ":" == Two(s[0]) + rest;
    TwoParses(s[0], rest);
    if |s| == 1 {
      assert rest[1..] == "" && [s[0]] + [0] == s + [0];
      ParseEmpty();
    } else {
      assert rest[0] == ':' && rest[1..] == Text(s[1..]) + ":";
      TextColonParses(s[1..]);
      assert [s[0]] + (s[1..] + [0]) == s + [0];
    }
  }

  /** What reading back the written text gives: the bytes that fitted, and perhaps a zero. */
  lemma WrittenParses(s: seq<byte>, room: nat)
    ensures var n, r := Min(room / 3, |s|), Parse(Written(s, room), 0);
            r == Some(s[..n]) || r == Some(s[..n] + [0])
  {
    hide Text, Two;
    var n := Min(room / 3, |s|);
    assert s[..n] == s || n == room / 3;
    if n == 0 {
      assert Text(s[..n]) == "" by { TextEmpty(); }
      ParseEmpty();
      assert s[..n] + [0] == [0];
      assert Written(s, room) == "";
    } else {
      TextParses(s[..n]);
      TextColonParses(s[..n]);
      assert s[..|s|] == s;
      assert Text(s[..n]) + "" == Text(s[..n]);
    }
  }

  lemma ParseEmpty()
    ensures Parse("", 0) == Some([0])
  {
    var z: seq<byte> := [0];
    assert z + [] == z;
  }

  lemma TextEmpty()
    ensures Text([]) == ""
  {
  }

  /** Reading the written text recovers the bytes exactly when those past the room are zero. */
  lemma WrittenRoundTrip(s: seq<byte>, room: nat)
    ensures var r := Parse(Written(s, room), 0);
            r.Some? && (Fit(r.value, |s|) == s <==> forall i :: room / 3 <= i < |s| ==> s[i] == 0)
  {
    hide Parse, Written;
    WrittenParses(s, room);
    var n, r := Min(room / 3, |s|), Parse(Written(s, room), 0).value;
    var f := Fit(r, |s|);
    assert |f| == |s| && forall i :: 0 <= i < |s| ==> f[i] == if i < n then s[i] else 0;
    if forall i :: room / 3 <= i < |s| ==> s[i] == 0 { assert f == s; }
  }

  // ------------------------------------------------------------ the C buffer

  /** The C string at the start of a buffer. */
  function CString(b: seq<char>): string {
    if b == [] || b[0] == '\0' then "" else [b[0]] + CString(b[1..])
  }

  lemma {:induction false} CStringOf(w: string, rest: seq<char>)
    requires '\0' !in w
    ensures CString(w + rest) == w + CString(rest)
  {
    if w == [] {
      assert w + rest == rest && w + CString(rest) == CString(rest);
    } else {
      assert (w + rest)[1..] == w[1..] + rest;
      CStringOf(w[1..], rest);
      assert [w[0]] + (w[1..] + CString(rest)) == w + CString(rest);
    }
  }

  lemma {:induction false} TextNoNul(s: seq<byte>)
    ensures '\0' !in Text(s)
  {
    if s != [] { TextNoNul(s[1..]); }
  }

  /** A buffer over whose start `w` was written, with a terminator or without. */
  function Laid(was: seq<char>, w: string, ended: bool): seq<char>
    requires |w| < |was| || (|w| == |was| && !ended)
  {
    if ended then w + ['\0'] + was[|w| + 1..] else w + was[|w|..]
  }

  /** The last thing written is a byte, not a colon. */
  predicate Terminated(s: seq<byte>, room: nat) { s != [] && room >= 3 && (|s| <= room / 3 || room % 3 == 0) }

  lemma {:induction false} TextLength(s: seq<byte>)
    ensures |Text(s)| == if s == [] then 0 else 3 * |s| - 1
  {
    if s != [] { TextLength(s[1..]); }
  }

  lemma WrittenFits(s: seq<byte>, room: nat)
    ensures |Written(s, room)| <= room && (Terminated(s, room) ==> |Written(s, room)| < room)
  {
    hide Text;
    TextLength(s);
    TextLength(s[..Min(room / 3, |s|)]);
  }

  /** The buffer after `hexstring_n2a`. */
  function Filled(was: seq<char>, s: seq<byte>, room: nat): seq<char>
    requires room <= |was|
  {
    WrittenFits(s, room);
    Laid(was, Written(s, room), Terminated(s, room))
  }

  /** The text ends in a byte, or the buffer already had a terminator behind it. */
  predicate Ends(was: seq<char>, s: seq<byte>, room: nat)
    requires room <= |was|
  {
    WrittenFits(s, room);
    var n := |Written(s, room)|;
    Terminated(s, room) || n == |was| || was[n] == '\0'
  }

  /** The buffer reads as the written text exactly when that ends. */
  lemma FilledReads(was: seq<char>, s: seq<byte>, room: nat)
    requires room <= |was|
    ensures CString(Filled(was, s, room)) == Written(s, room) <==> Ends(was, s, room)
  {
    hide Text, CString;
    WrittenFits(s, room);
    TextNoNul(s);
    TextNoNul(s[..Min(room / 3, |s|)]);
    var w := Written(s, room);
    var rest := if Terminated(s, room) then ['\0'] + was[|w| + 1..] else was[|w|..];
    assert Filled(was, s, room) == w + rest by { if Terminated(s, room) { Regroup(w, was); } }
    CStringOf(w, rest);
    EmptyRead(rest);
    assert w + CString(rest) == w <==> CString(rest) == "" by { assert |w + CString(rest)| == |w| + |CString(rest)|; }
  }

  lemma Regroup(w: string, was: seq<char>)
    requires |w| < |was|
    ensures w + ['\0'] + was[|w| + 1..] == w + (['\0'] + was[|w| + 1..])
  {
  }

  lemma EmptyRead(b: seq<char>)
    ensures CString(b) == "" <==> b == [] || b[0] == '\0'
  {
  }

  /** Printing to a buffer and reading back recovers the bytes exactly when those past the room are zero. */
  lemma HexRoundTrip(was: seq<char>, s: seq<byte>, room: nat)
    requires room <= |was| && Ends(was, s, room)
    ensures var r := Parse(CString(Filled(was, s, room)), 0);
            r.Some? && (Fit(r.value, |s|) == s <==> forall i :: room / 3 <= i < |s| ==> s[i] == 0)
  {
    hide CString, Filled, Written, Ends, Parse;
    FilledReads(was, s, room);
    WrittenRoundTrip(s, room);
  }

  lemma {:induction false} TextSnoc(s: seq<byte>, b: byte)
    requires s != []
    ensures Text(s + [b]) == Text(s) + ":" + Two(b)
  {
    hide Two;
    var t := s + [b];
    if |s| == 1 {
      assert t[1..] == [b] && t[0] == s[0];
    } else {
      assert t[1..] == s[1..] + [b] && t[0] == s[0];
      TextSnoc(s[1..], b);
    }
  }

  /** The three characters of a `sprintf` with `%02x`. */
  lemma LaidByte(was: seq<char>, w: string, b: byte)
    requires |w| + 3 <= |was|
    ensures Laid(was, w, false)[|w| := Two(b)[0]][|w| + 1 := Two(b)[1]][|w| + 2 := '\0'] == Laid(was, w + Two(b), true)
  {
    hide Digit;
  }

  lemma LaidColon(was: seq<char>, w: string)
    requires |w| < |was|
    ensures Laid(was, w, true)[|w| := ':'] == Laid(was, w + ":", false)
  {
  }

  /** What is written once `i` bytes are. */
  function Part(s: seq<byte>, i: nat, room: nat): string
    requires i <= |s|
  {
    Text(s[..i]) + if 0 < i < |s| && room != 3 * i then ":" else ""
  }

  lemma PartNext(s: seq<byte>, i: nat, room: nat)
    requires i < |s| && 3 * i + 3 <= room
    ensures Part(s, i, room) + Two(s[i]) == Text(s[..i + 1])
    ensures |Part(s, i, room)| == 3 * i && |Text(s[..i + 1])| == 3 * i + 2
  {
    hide Two;
    TextLength(s[..i]);
    assert s[..i + 1] == s[..i] + [s[i]];
    if i > 0 { TextSnoc(s[..i], s[i]); }
    TextLength(s[..i + 1]);
  }

  lemma PartLast(s: seq<byte>, i: nat, room: nat)
    requires i <= |s| && 3 * i <= room && (i == |s| || room < 3 * i + 3)
    ensures Part(s, i, room) == Written(s, room)
    ensures Terminated(s, room) <==> i > 0 && (i == |s| || room == 3 * i)
  {
    assert s[..|s|] == s;
    assert Text(s) + "" == Text(s);
  }

  /** `hexstring_n2a`. */
  method HexN2a(s: seq<byte>, buf: array<char>, room: nat)
    requires room <= buf.Length
    modifies buf
    ensures buf[..] == Filled(old(buf[..]), s, room)
  {
    hide Two, Text, Laid;
    ghost var was := buf[..];
    var ptr, blen, i := 0, room, 0;
    assert Part(s, 0, room) == "" by { TextEmpty(); }
    assert Laid(was, "", false) == was by { LaidNothing(was); }
    while i < |s|
      invariant 0 <= i <= |s| && 3 * i <= room
      invariant i < |s| ==> blen == if i > 0 && room == 3 * i then 1 else room - 3 * i
      invariant ptr == |Part(s, i, room)| && ptr <= room
      invariant ptr == room ==> i == 0 || (i < |s| && room != 3 * i)
      invariant buf[..] == Laid(was, Part(s, i, room), i > 0 && (i == |s| || room == 3 * i))
    {
      if blen < 3 { break; }
      PartNext(s, i, room);
      ghost var w := Part(s, i, room);
      LaidByte(was, w, s[i]);
      buf[ptr], buf[ptr + 1], buf[ptr + 2] := Two(s[i])[0], Two(s[i])[1], '\0';
      assert buf[..] == Laid(was, w + Two(s[i]), true);
      ptr, blen := ptr + 2, blen - 2;
      if i != |s| - 1 && blen > 1 {
        LaidColon(was, w + Two(s[i]));
        buf[ptr] := ':';
        ptr, blen := ptr + 1, blen - 1;
      } else {
        assert Text(s[..i + 1]) + "" == Text(s[..i + 1]);
      }
      i := i + 1;
    }
    PartLast(s, i, room);
  }

  lemma LaidNothing(was: seq<char>)
    ensures Laid(was, "", false) == was
  {
  }

  function Prefixed(done: seq<byte>, r: Option<seq<byte>>): Option<seq<byte>> {
    if r.None? then None else Some(done + r.value)
  }

  /** `hexstring_a2n`: the parsed bytes, cut or filled up to `blen`. */
  method HexA2n(text: string, blen: nat) returns (r: Option<seq<byte>>)
    ensures var p := Parse(text, 0); r == if p.None? then None else Some(Fit(p.value, blen))
  {
    hide Value, Shift, Parse, Cons, Prefixed;
    var buf: seq<byte> := [];
    ghost var done: seq<byte> := [];
    var p := 0;
    assert text[0..] == text;
    PrefixedEnds([], Parse(text, 0));
    while true
      invariant 0 <= p <= |text| && buf == done[..Min(|done|, blen)]
      invariant Parse(text, 0) == Prefixed(done, Parse(text[p..], 0))
      decreases |text| - p
    {
      var acc := 0;
      while p < |text| && text[p] != ':'
        invariant 0 <= p <= |text|
        invariant Parse(text, 0) == Prefixed(done, Parse(text[p..], acc))
        decreases |text| - p
      {
        ParseNext(text, p, acc, done);
        var v := Value(text[p]);
        if v.None? { return None; }
        acc := Shift(acc, v.value);
        p := p + 1;
      }
      ParseGroup(text, p, acc, done);
      if acc > 255 { return None; }
      if |buf| < blen { buf := buf + [acc]; }
      done := done + [acc];
      if p == |text| { break; }
      p := p + 1;
    }
    assert Parse(text, 0) == Some(done);
    r := Some(buf + seq(blen - |buf|, _ => 0));
    assert r.value == Fit(done, blen);
  }

  /** One more character of a group. */
  lemma ParseNext(text: string, p: nat, acc: nat, done: seq<byte>)
    requires p < |text| && text[p] != ':'
    ensures var v := Value(text[p]);
            Prefixed(done, Parse(text[p..], acc)) ==
            if v.None? then None else Prefixed(done, Parse(text[p + 1..], Shift(acc, v.value)))
  {
    assert text[p..][1..] == text[p + 1..];
  }

  /** The end of a group, by a colon or by the end of the text. */
  lemma ParseGroup(text: string, p: nat, acc: nat, done: seq<byte>)
    requires p <= |text| && (p < |text| ==> text[p] == ':')
    ensures Prefixed(done, Parse(text[p..], acc)) ==
            if acc > 255 then None
            else if p == |text| then Some(done + [acc])
            else Prefixed(done + [acc], Parse(text[p + 1..], 0))
  {
    if acc <= 255 {
      if p == |text| {
        PrefixedStep(done, acc, Some([]));
        PrefixedEnds(done + [acc], None);
      } else {
        assert text[p..][1..] == text[p + 1..];
        PrefixedStep(done, acc, Parse(text[p + 1..], 0));
      }
    }
  }

  lemma PrefixedEnds(done: seq<byte>, r: Option<seq<byte>>)
    ensures Prefixed([], r) == r && Prefixed(done, Some([])) == Some(done)
  {
    if r.Some? { assert [] + r.value == r.value; }
    assert done + [] == done;
  }

  lemma PrefixedStep(done: seq<byte>, b: byte, r: Option<seq<byte>>)
    ensures Prefixed(done, Cons(b as int, r)) == Prefixed(done + [b], r)
  {
    if r.Some? { assert done + ([b] + r.value) == done + [b] + r.value; }
  }
}
