/** The manifest's string escaping and its hexadecimal digests. */
module Escapes {
  import opened Wrappers
  import opened Strings

  type Byte = x: int | 0 <= x < 256

  type Digest = d: seq<Byte> | |d| == 32 witness seq(32, _ => 0)

  // ---- escaping ----

  function Replace(s: string, c: char, to: string): string {
    if s == "" then "" else (if s[0] == c then to else [s[0]]) + Replace(s[1..], c, to)
  }

  /** Double the backslashes, then put one before each quote. */
  function Esc(s: string): string {
    Replace(Replace(s, '\\', "\\\\"), '"', "\\\"")
  }

  function Unesc(s: string): string {
    if s == "" then ""
    else if s[0] == '\\' then (if |s| == 1 then "" else [s[1]] + Unesc(s[2..]))
    else [s[0]] + Unesc(s[1..])
  }

  method Unescape(s: string) returns (r: string)
    ensures r == Unesc(s)
  {
    hide Unesc;
    r := "";
    var i := 0;
    UnescNothing();
    assert s[0..] == s;
    while i < |s|
      invariant 0 <= i <= |s| && r + Unesc(s[i..]) == Unesc(s)
    {
      UnescAt(s, i);
      if s[i] == '\\' {
        if i + 1 < |s| {
          r := r + [s[i + 1]];
          i := i + 2;
        } else {
          i := i + 1;
        }
      } else {
        r := r + [s[i]];
        i := i + 1;
      }
    }
    assert s[i..] == "" && r + "" == r;
  }

  lemma UnescNothing()
    ensures Unesc("") == ""
  {
  }

  lemma {:induction false} UnescAt(s: string, i: nat)
    requires i < |s|
    ensures Unesc(s[i..])
         == if s[i] != '\\' then [s[i]] + Unesc(s[i + 1..])
            else if i + 1 < |s| then [s[i + 1]] + Unesc(s[i + 2..])
            else Unesc(s[i + 1..])
  {
    assert s[i..][1..] == s[i + 1..];
    if i + 1 < |s| { assert s[i..][2..] == s[i + 2..] && s[i..][1] == s[i + 1]; }
  }

  function EscChar(c: char): string {
    if c == '\\' then "\\\\" else if c == '"' then "\\\"" else [c]
  }

  lemma {:induction false} ReplaceAppend(x: string, y: string, c: char, to: string)
    ensures Replace(x + y, c, to) == Replace(x, c, to) + Replace(y, c, to)
  {
    if x == "" {
      assert x + y == y;
    } else {
      assert (x + y)[1..] == x[1..] + y;
      ReplaceAppend(x[1..], y, c, to);
    }
  }

  lemma {:induction false} EscAppend(x: string, y: string)
    ensures Esc(x + y) == Esc(x) + Esc(y)
  {
    ReplaceAppend(x, y, '\\', "\\\\");
    ReplaceAppend(Replace(x, '\\', "\\\\"), Replace(y, '\\', "\\\\"), '"', "\\\"");
  }

  lemma {:induction false} ReplaceOne(c: char, from: char, to: string)
    ensures Replace([c], from, to) == if c == from then to else [c]
  {
    assert [c][1..] == "";
    assert Replace("", from, to) == "";
  }

  lemma {:induction false} EscOne(c: char)
    ensures Esc([c]) == EscChar(c)
  {
    ReplaceOne(c, '\\', "\\\\");
    ReplaceOne(c, '"', "\\\"");
    if c == '\\' {
      ReplaceAppend("\\", "\\", '"', "\\\"");
      assert "\\" + "\\" == "\\\\";
      ReplaceOne('\\', '"', "\\\"");
    }
  }

  /** The two passes make one character-by-character escape. */
  lemma {:induction false} EscStep(s: string)
    requires s != ""
    ensures Esc(s) == EscChar(s[0]) + Esc(s[1..])
  {
    assert s == [s[0]] + s[1..];
    EscAppend([s[0]], s[1..]);
    EscOne(s[0]);
  }

  lemma EscNothing()
    ensures Esc("") == ""
  {
  }

  /** Unescaping takes escaping back, whatever follows. */
  lemma {:induction false} UnescEscThen(s: string, rest: string)
    ensures Unesc(Esc(s) + rest) == s + Unesc(rest)
  {
    hide Esc;
    if s == "" {
      EscNothing();
      assert Esc(s) + rest == rest;
    } else {
      EscStep(s);
      UnescEscThen(s[1..], rest);
      var t, whole := Esc(s[1..]) + rest, Esc(s) + rest;
      if s[0] == '\\' || s[0] == '"' {
        assert whole == ['\\', s[0]] + t && whole[2..] == t;
        assert Unesc(whole) == [s[0]] + Unesc(t);
      } else {
        assert whole == [s[0]] + t && whole[1..] == t;
      }
      assert s == [s[0]] + s[1..];
    }
  }

  lemma {:induction false} UnescEsc(s: string)
    ensures Unesc(Esc(s)) == s
  {
    hide Esc;
    UnescEscThen(s, "");
    assert Esc(s) + "" == Esc(s);
  }

  lemma {:induction false} EscOneLine(s: string)
    ensures OneLine(Esc(s)) <==> OneLine(s)
  {
    hide Esc;
    if s == "" {
      EscNothing();
    } else {
      EscStep(s);
      EscOneLine(s[1..]);
      assert s == [s[0]] + s[1..];
    }
  }

  lemma {:induction false} UnescOneLine(s: string)
    requires OneLine(s)
    ensures OneLine(Unesc(s))
  {
    if s != "" {
      if s[0] != '\\' { UnescOneLine(s[1..]); } else if |s| > 1 { UnescOneLine(s[2..]); }
    }
  }

  /** Text without backslashes or quotes is its own escape. */
  lemma {:induction false} EscPlain(s: string)
    requires '\\' !in s && '"' !in s
    ensures Esc(s) == s
  {
    hide Esc;
    if s == "" {
      EscNothing();
    } else {
      EscStep(s);
      EscPlain(s[1..]);
      assert s == [s[0]] + s[1..];
    }
  }

  // ---- hexadecimal ----

  const DIGITS: string := "0123456789abcdef"

  function HexByte(b: Byte): string { [DIGITS[b / 16], DIGITS[b % 16]] }

  function Hex(bytes: seq<Byte>): (s: string)
    ensures |s| == 2 * |bytes|
  {
    if bytes == [] then "" else Hex(bytes[..|bytes| - 1]) + HexByte(bytes[|bytes| - 1])
  }

  method HexOf(bytes: seq<Byte>) returns (s: string)
    ensures s == Hex(bytes)
  {
    s := "";
    for i := 0 to |bytes|
      invariant s == Hex(bytes[..i])
    {
      assert bytes[..i + 1][..i] == bytes[..i];
      s := s + HexByte(bytes[i]);
    }
    assert bytes[..|bytes|] == bytes;
  }

  /** The value of a hexadecimal digit of either case. */
  function HexValue(c: char): Option<nat> {
    if '0' <= c <= '9' then Some(c as int - '0' as int)
    else if 'a' <= c <= 'f' then Some(c as int - 'a' as int + 10)
    else if 'A' <= c <= 'F' then Some(c as int - 'A' as int + 10)
    else None
  }

  predicate AllHex(s: string) { forall k :: 0 <= k < |s| ==> HexValue(s[k]).Some? }

  function PairValue(s: string, i: nat): Byte
    requires AllHex(s) && 2 * i + 1 < |s|
  {
    16 * HexValue(s[2 * i]).value + HexValue(s[2 * i + 1]).value
  }

  method Unhex(s: string) returns (r: Option<Digest>)
    ensures r == Unhex32(s)
  {
    if |s| != 64 || !AllHex(s) {
      return None;
    }
    var out: seq<Byte> := [];
    for i := 0 to 32
      invariant |out| == i && forall k :: 0 <= k < i ==> out[k] == PairValue(s, k)
    {
      out := out + [PairValue(s, i)];
    }
    r := Some(out);
    assert out == Unhex32(s).value;
  }

  function Unhex32(s: string): Option<Digest> {
    if |s| != 64 || !AllHex(s) then None
    else Some(seq(32, i requires 0 <= i < 32 => PairValue(s, i)))
  }

  lemma HexByteValue(b: Byte)
    ensures HexValue(HexByte(b)[0]) == Some(b / 16) && HexValue(HexByte(b)[1]) == Some(b % 16)
    ensures forall c :: c in HexByte(b) ==> c != '\\' && c != '"' && c != ' ' && c != '\n'
  {
    DigitValue(b / 16);
    DigitValue(b % 16);
  }

  lemma DigitValue(n: nat)
    requires n < 16
    ensures HexValue(DIGITS[n]) == Some(n)
    ensures DIGITS[n] != '\\' && DIGITS[n] != '"' && DIGITS[n] != ' ' && DIGITS[n] != '\n'
  {
    var d := DIGITS;
    assert |d| == 16;
    assert d[0] == '0' && d[1] == '1' && d[2] == '2' && d[3] == '3' && d[4] == '4' && d[5] == '5' && d[6] == '6';
    assert d[7] == '7' && d[8] == '8' && d[9] == '9' && d[10] == 'a' && d[11] == 'b' && d[12] == 'c' && d[13] == 'd';
    assert d[14] == 'e' && d[15] == 'f';
  }

  lemma {:induction false} HexDigits(bytes: seq<Byte>)
    ensures AllHex(Hex(bytes))
    ensures forall k :: 0 <= k < |bytes| ==> PairValue(Hex(bytes), k) == bytes[k]
    ensures forall c :: c in Hex(bytes) ==> c != '\\' && c != '"' && c != ' ' && c != '\n'
  {
    hide HexByte, HexValue;
    if bytes != [] {
      var front, last := bytes[..|bytes| - 1], bytes[|bytes| - 1];
      HexDigits(front);
      HexByteValue(last);
      var s := Hex(bytes);
      assert s == Hex(front) + HexByte(last);
      forall k | 0 <= k < |bytes| ensures PairValue(s, k) == bytes[k] {
        if k < |front| { assert PairValue(Hex(front), k) == front[k]; }
      }
    }
  }

  lemma UnhexHex(d: Digest)
    ensures Unhex32(Hex(d)) == Some(d)
  {
    HexDigits(d);
    assert Unhex32(Hex(d)).value == d;
  }
}
