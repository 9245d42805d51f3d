/**
 Base64 with padding (sections 3.5 and 4 of RFC 4648), and the decoder decode_b64_canonical of
 tools/cyberdeck_cli.py that compares with the text encoded again.
 */
module Base64 {
  import opened Common

  type Sextet = x: int | 0 <= x < 64

  // ---------------------------------------------------------------- characters

  /** What a character stands for. */
  datatype Symbol = Value(v: Sextet) | Pad

  function CharOf(s: Symbol): char {
    if s.Pad? then '='
    else if s.v < 26 then 'A' + s.v as char
    else if s.v < 52 then 'a' + (s.v - 26) as char
    else if s.v < 62 then '0' + (s.v - 52) as char
    else if s.v == 62 then '+'
    else '/'
  }

  /** The characters of table 1 of section 4 of RFC 4648, in four parts. */
  const UPPER: string := "ABCDEFGHIJKLMNOPQRSTUVWXYZ"
  const LOWER: string := "abcdefghijklmnopqrstuvwxyz"
  const DIGITS: string := "0123456789"
  const ALPHABET: string := UPPER + LOWER + DIGITS + "+/"

  /** So many characters from one on. */
  function Row(first: char, n: nat): (r: string)
    requires first as int + n <= 128
    ensures |r| == n && forall i :: 0 <= i < n ==> r[i] == first + i as char
  {
    if n == 0 then "" else Row(first, n - 1) + [first + (n - 1) as char]
  }

  lemma UpperIsRow()
    ensures UPPER == Row('A', 26)
  {
    assert Row('A', 13) == "ABCDEFGHIJKLM";
  }

  lemma LowerIsRow()
    ensures LOWER == Row('a', 26)
  {
    assert Row('a', 13) == "abcdefghijklm";
  }

  lemma DigitsAreRow()
    ensures DIGITS == Row('0', 10)
  {
  }

  /** The characters are those of the table, each at its place; padding is apart. Each is read
      as what it stands for, and nothing else is read: see WrittenIsRead and ReadIsWritten. */
  lemma CharactersAreTheAlphabet(v: Sextet)
    ensures |ALPHABET| == 64 && CharOf(Value(v)) == ALPHABET[v] && CharOf(Pad) == '='
  {
    UpperIsRow();
    LowerIsRow();
    DigitsAreRow();
  }

  function SymbolOf(c: char): Option<Symbol> {
    if 'A' <= c <= 'Z' then Some(Value(c as int - 'A' as int))
    else if 'a' <= c <= 'z' then Some(Value(c as int - 'a' as int + 26))
    else if '0' <= c <= '9' then Some(Value(c as int - '0' as int + 52))
    else if c == '+' then Some(Value(62))
    else if c == '/' then Some(Value(63))
    else if c == '=' then Some(Pad)
    else None
  }

  function Written(s: seq<Symbol>): string {
    if s == [] then "" else [CharOf(s[0])] + Written(s[1..])
  }

  function Read(t: string): Option<seq<Symbol>> {
    if t == "" then Some([])
    else match (SymbolOf(t[0]), Read(t[1..]))
      case (Some(s), Some(rest)) => Some([s] + rest)
      case _ => None
  }

  lemma {:induction false} WrittenIsRead(s: seq<Symbol>)
    ensures Read(Written(s)) == Some(s) && |Written(s)| == |s|
  {
    if s != [] {
      WrittenIsRead(s[1..]);
      assert Written(s)[1..] == Written(s[1..]);
      assert SymbolOf(CharOf(s[0])) == Some(s[0]);
      assert [s[0]] + s[1..] == s;
    }
  }

  lemma {:induction false} ReadIsWritten(t: string)
    requires Read(t).Some?
    ensures Written(Read(t).value) == t && |Read(t).value| == |t|
  {
    if t != "" {
      ReadIsWritten(t[1..]);
      assert Read(t).value[1..] == Read(t[1..]).value;
      assert CharOf(SymbolOf(t[0]).value) == t[0];
    }
  }

  // ---------------------------------------------------------------- groups

  /** The four symbols of up to three bytes. */
  function Group(d: seq<Byte>): (s: seq<Symbol>)
    requires 1 <= |d| <= 3
    ensures |s| == 4
  {
    var b := if |d| > 1 then d[1] else 0;
    var c := if |d| > 2 then d[2] else 0;
    [Value(d[0] / 4), Value(d[0] % 4 * 16 + b / 16),
     if |d| > 1 then Value(b % 16 * 4 + c / 64) else Pad,
     if |d| > 2 then Value(c % 64) else Pad]
  }

  /** How many bytes four symbols stand for; padding is at the end of the last group. */
  function GroupSize(s: seq<Symbol>, last: bool): nat
    requires |s| == 4
  {
    if s[0].Pad? || s[1].Pad? then 0
    else if s[2].Value? && s[3].Value? then 3
    else if last && s[3].Pad? then (if s[2].Value? then 2 else 1)
    else 0
  }

  function ValueOr0(s: Symbol): Sextet { if s.Value? then s.v else 0 }

  function Bytes(a: Sextet, b: Sextet, c: Sextet, d: Sextet): seq<Byte> {
    [a * 4 + b / 16, b % 16 * 16 + c / 4, c % 4 * 64 + d]
  }

  /** The bytes of a group; the bits that padding leaves over are not looked at. */
  function Ungroup(s: seq<Symbol>, last: bool): (d: seq<Byte>)
    requires |s| == 4
    ensures |d| == GroupSize(s, last)
  {
    Bytes(ValueOr0(s[0]), ValueOr0(s[1]), ValueOr0(s[2]), ValueOr0(s[3]))[..GroupSize(s, last)]
  }

  function LeftOver(s: seq<Symbol>, last: bool): int
    requires |s| == 4
  {
    if GroupSize(s, last) == 1 then ValueOr0(s[1]) % 16
    else if GroupSize(s, last) == 2 then ValueOr0(s[2]) % 4
    else 0
  }

  lemma GroupComesBack(d: seq<Byte>, last: bool)
    requires 1 <= |d| <= 3 && (|d| < 3 ==> last)
    ensures GroupSize(Group(d), last) == |d| && Ungroup(Group(d), last) == d
  {
    if |d| == 1 {
      OneComesBack(d[0], last);
      assert d == [d[0]];
    } else if |d| == 2 {
      TwoComeBack(d[0], d[1], last);
      assert d == [d[0], d[1]];
    } else {
      ThreeComeBack(d[0], d[1], d[2], last);
      assert d == [d[0], d[1], d[2]];
    }
  }

  lemma OneComesBack(a: Byte, last: bool)
    requires last
    ensures GroupSize(Group([a]), last) == 1 && Ungroup(Group([a]), last) == [a]
  {
    HighBits(a, 0);
    assert Group([a]) == [Value(a / 4), Value(a % 4 * 16), Pad, Pad];
  }

  lemma TwoComeBack(a: Byte, b: Byte, last: bool)
    requires last
    ensures GroupSize(Group([a, b]), last) == 2 && Ungroup(Group([a, b]), last) == [a, b]
  {
    HighBits(a, b / 16);
    MiddleBits(b, 0);
    assert Group([a, b]) == [Value(a / 4), Value(a % 4 * 16 + b / 16), Value(b % 16 * 4), Pad];
  }

  lemma ThreeComeBack(a: Byte, b: Byte, c: Byte, last: bool)
    ensures GroupSize(Group([a, b, c]), last) == 3 && Ungroup(Group([a, b, c]), last) == [a, b, c]
  {
    HighBits(a, b / 16);
    MiddleBits(b, c / 64);
    assert Group([a, b, c]) ==
      [Value(a / 4), Value(a % 4 * 16 + b / 16), Value(b % 16 * 4 + c / 64), Value(c % 64)];
  }

  lemma HighBits(a: Byte, b: int)
    requires 0 <= b < 16
    ensures var v := a % 4 * 16 + b; 0 <= v < 64 && v / 16 == a % 4 && v % 16 == b && a / 4 * 4 + v / 16 == a
  {
  }

  lemma MiddleBits(b: Byte, c: int)
    requires 0 <= c < 4
    ensures var v := b % 16 * 4 + c; 0 <= v < 64 && v / 4 == b % 16 && v % 4 == c && b / 16 * 16 + v / 4 == b
  {
  }

  lemma UngroupedComesBackIff(s: seq<Symbol>, last: bool)
    requires |s| == 4 && GroupSize(s, last) > 0
    ensures Group(Ungroup(s, last)) == s <==> LeftOver(s, last) == 0
  {
    var n := GroupSize(s, last);
    if n == 1 {
      assert s[2] == Pad && s[3] == Pad;
    } else if n == 2 {
      assert s[3] == Pad;
    }
  }

  // ---------------------------------------------------------------- texts

  function Symbols(d: seq<Byte>): seq<Symbol> {
    if d == [] then []
    else if |d| <= 3 then Group(d)
    else Group(d[..3]) + Symbols(d[3..])
  }

  function Ungrouped(s: seq<Symbol>): Option<seq<Byte>> {
    if s == [] then Some([])
    else if |s| < 4 || GroupSize(s[..4], |s| == 4) == 0 then None
    else match Ungrouped(s[4..])
      case None => None
      case Some(rest) => Some(Ungroup(s[..4], |s| == 4) + rest)
  }

  function Encode(d: seq<Byte>): string { Written(Symbols(d)) }

  /** Strict decoding. */
  function Decode(t: string): Option<seq<Byte>> {
    match Read(t)
    case None => None
    case Some(s) => Ungrouped(s)
  }

  /** decode_b64_canonical */
  function DecodeCanonical(t: string): Option<seq<Byte>> {
    if |t| % 4 != 0 then None
    else match Decode(t)
      case None => None
      case Some(d) => if Encode(d) == t then Some(d) else None
  }

  lemma UngroupsFirst(g: seq<Symbol>, rest: seq<Symbol>)
    requires |g| == 4 && GroupSize(g, rest == []) > 0 && Ungrouped(rest).Some?
    ensures Ungrouped(g + rest) == Some(Ungroup(g, rest == []) + Ungrouped(rest).value)
  {
    assert (g + rest)[..4] == g && (g + rest)[4..] == rest;
  }

  lemma {:induction false} SymbolsComeBack(d: seq<Byte>)
    ensures Ungrouped(Symbols(d)) == Some(d) && |Symbols(d)| % 4 == 0 && (|Symbols(d)| == 0 <==> d == [])
  {
    if |d| > 3 {
      SymbolsComeBack(d[3..]);
      GroupComesBack(d[..3], false);
      UngroupsFirst(Group(d[..3]), Symbols(d[3..]));
      assert d[..3] + d[3..] == d;
    } else if d != [] {
      GroupComesBack(d, true);
      UngroupsFirst(Group(d), []);
      assert Group(d) + [] == Group(d) && d + [] == d;
    }
  }

  /** The canonical decoder accepts exactly what the encoder produces, and inverts it. */
  lemma CanonicalInvertsEncode(t: string, d: seq<Byte>)
    ensures DecodeCanonical(t) == Some(d) <==> Encode(d) == t
  {
    if Encode(d) == t {
      SymbolsComeBack(d);
      WrittenIsRead(Symbols(d));
    }
  }

  /** Texts of section 10 of RFC 4648, for f, fo and foo. */
  lemma KnownTexts()
    ensures Encode([102]) == "Zg==" && Encode([102, 111]) == "Zm8=" && Encode([102, 111, 111]) == "Zm9v"
  {
    assert Symbols([102]) == [Value(25), Value(32), Pad, Pad];
    assert Symbols([102, 111]) == [Value(25), Value(38), Value(60), Pad];
    assert Symbols([102, 111, 111]) == [Value(25), Value(38), Value(61), Value(47)];
    FourWritten(Value(25), Value(32), Pad, Pad);
    FourWritten(Value(25), Value(38), Value(60), Pad);
    FourWritten(Value(25), Value(38), Value(61), Value(47));
  }

  lemma FourWritten(a: Symbol, b: Symbol, c: Symbol, d: Symbol)
    ensures Written([a, b, c, d]) == [CharOf(a), CharOf(b), CharOf(c), CharOf(d)]
  {
    assert [d][1..] == [] && Written([d]) == [CharOf(d)];
    assert [c, d][1..] == [d] && Written([c, d]) == [CharOf(c)] + Written([d]);
    assert [b, c, d][1..] == [c, d] && Written([b, c, d]) == [CharOf(b)] + Written([c, d]);
    assert [a, b, c, d][1..] == [b, c, d];
  }

  /** No bit that the padding leaves over is set. */
  predicate Clean(s: seq<Symbol>) {
    |s| >= 4 ==> LeftOver(s[..4], |s| == 4) == 0 && Clean(s[4..])
  }

  lemma SymbolsOfFirst(g: seq<Byte>, rest: seq<Byte>)
    requires |g| == 3 || (1 <= |g| < 3 && rest == [])
    ensures Symbols(g + rest) == Group(g) + Symbols(rest)
  {
    if rest == [] {
      assert g + rest == g && Symbols(rest) == [];
    } else {
      assert (g + rest)[..3] == g && (g + rest)[3..] == rest;
    }
  }

  lemma SplitsAlike(a: seq<Symbol>, b: seq<Symbol>, s: seq<Symbol>)
    requires |a| == 4 <= |s|
    ensures a + b == s <==> a == s[..4] && b == s[4..]
  {
    assert s == s[..4] + s[4..];
    if a + b == s {
      assert s[..4] == a && s[4..] == b;
    }
  }

  /** The first four symbols of a text that is read: their bytes, and these written again. */
  lemma FirstUngrouped(s: seq<Symbol>) returns (first: seq<Byte>, again: seq<Symbol>, clean: bool)
    requires s != [] && Ungrouped(s).Some?
    ensures |s| >= 4 && |again| == 4 && Ungrouped(s[4..]).Some? && (again == s[..4] <==> clean)
    ensures first != [] && Ungrouped(s).value == first + Ungrouped(s[4..]).value
    ensures Symbols(first + Ungrouped(s[4..]).value) == again + Symbols(Ungrouped(s[4..]).value)
    ensures Clean(s) <==> clean && Clean(s[4..])
  {
    var h, last := s[..4], |s| == 4;
    first, again, clean := Ungroup(h, last), Group(Ungroup(h, last)), LeftOver(h, last) == 0;
    UngroupedComesBackIff(h, last);
    SymbolsOfFirst(first, Ungrouped(s[4..]).value);
  }

  lemma {:induction false} ReadInFours(s: seq<Symbol>)
    requires Ungrouped(s).Some?
    ensures |s| % 4 == 0 && (Ungrouped(s).value == [] <==> s == [])
  {
    if s != [] {
      ReadInFours(s[4..]);
      assert |Ungroup(s[..4], |s| == 4)| > 0;
    }
  }

  lemma {:induction false} UngroupedIsCanonicalIff(s: seq<Symbol>)
    requires Ungrouped(s).Some?
    ensures Symbols(Ungrouped(s).value) == s <==> Clean(s)
  {
    if s != [] {
      var first, again, clean := FirstUngrouped(s);
      UngroupedIsCanonicalIff(s[4..]);
      SplitsAlike(again, Symbols(Ungrouped(s[4..]).value), s);
      assert Symbols(Ungrouped(s).value) == again + Symbols(Ungrouped(s[4..]).value);
    }
  }

  /** What strict decoding accepts is canonical exactly when no bit left over is set. */
  lemma CanonicalIffClean(t: string)
    requires Decode(t).Some?
    ensures DecodeCanonical(t).Some? <==> Clean(Read(t).value)
  {
    var s := Read(t).value;
    ReadIsWritten(t);
    ReadInFours(s);
    UngroupedIsCanonicalIff(s);
    WrittenIsRead(Symbols(Ungrouped(s).value));
  }
}
