/** Strings as ASCII JSON: the text written for them, and the reader that takes it back (RFC 8259, section 7). */
module JsonText {
  import opened Wrappers
  import opened ContextPacket

  // ---------------------------------------------------------------------
  // Hexadecimal units

  function HexDigit(n: nat): char
    requires n < 16
  {
    if n < 10 then '0' + n as char else 'a' + (n - 10) as char
  }

  function HexValue(c: char): Option<nat>
  {
    if '0' <= c <= '9' then Some(c as nat - '0' as nat)
    else if 'a' <= c <= 'f' then Some(c as nat - 'a' as nat + 10)
    else if 'A' <= c <= 'F' then Some(c as nat - 'A' as nat + 10)
    else None
  }

  /** The escape of one UTF-16 unit. */
  function Unit(n: nat): string
    requires n < 0x10000
  {
    ['\\', 'u', HexDigit(n / 4096), HexDigit(n / 256 % 16), HexDigit(n / 16 % 16), HexDigit(n % 16)]
  }

  /** The unit a text begins with the escape of, if it does. */
  function UnitAt(t: string): (n: Option<nat>)
    ensures n.Some? ==> |t| >= 6 && n.value < 0x10000
  {
    if |t| < 6 || t[0] != '\\' || t[1] != 'u' then None
    else
      match (HexValue(t[2]), HexValue(t[3]), HexValue(t[4]), HexValue(t[5]))
      case (Some(a), Some(b), Some(c), Some(d)) =>
        if a < 16 && b < 16 && c < 16 && d < 16 then Some(4096 * a + 256 * b + 16 * c + d) else None
      case _ => None
  }

  lemma DigitsCompose(n: nat)
    requires n < 0x10000
    ensures n == 4096 * (n / 4096) + 256 * (n / 256 % 16) + 16 * (n / 16 % 16) + n % 16
    ensures n / 4096 < 16
  {
  }

  lemma HexBack(n: nat)
    requires n < 16
    ensures HexValue(HexDigit(n)) == Some(n)
  {
  }

  lemma UnitBack(n: nat, rest: string)
    requires n < 0x10000
    ensures UnitAt(Unit(n) + rest) == Some(n) && (Unit(n) + rest)[6..] == rest
  {
    DigitsCompose(n);
    HexBack(n / 4096);
    HexBack(n / 256 % 16);
    HexBack(n / 16 % 16);
    HexBack(n % 16);
    var t := Unit(n) + rest;
    assert t[0] == '\\' && t[1] == 'u' && t[2] == HexDigit(n / 4096) && t[3] == HexDigit(n / 256 % 16)
        && t[4] == HexDigit(n / 16 % 16) && t[5] == HexDigit(n % 16);
  }

  // ---------------------------------------------------------------------
  // Writing

  /** The letter after the backslash of a short escape. */
  function ShortEscape(c: char): Option<char>
  {
    if c == '"' then Some('"')
    else if c == '\\' then Some('\\')
    else if c as int == 8 then Some('b')
    else if c as int == 9 then Some('t')
    else if c as int == 10 then Some('n')
    else if c as int == 12 then Some('f')
    else if c as int == 13 then Some('r')
    else None
  }

  /** Characters beyond the first plane are written as a surrogate pair. */
  function Quoted(c: char): string
  {
    var n := c as nat;
    if ShortEscape(c).Some? then ['\\', ShortEscape(c).value]
    else if 32 <= n < 127 then [c]
    else if n < 0x10000 then Unit(n)
    else Unit(0xd800 + (n - 0x10000) / 1024) + Unit(0xdc00 + (n - 0x10000) % 1024)
  }

  function Written(s: string): string
  {
    if s == "" then "" else Quoted(s[0]) + Written(s[1..])
  }

  // ---------------------------------------------------------------------
  // Reading

  function Unescaped(c: char): Option<char>
  {
    match c
    case '"' => Some('"')
    case '\\' => Some('\\')
    case '/' => Some('/')
    case 'b' => Some(8 as char)
    case 't' => Some(9 as char)
    case 'n' => Some(10 as char)
    case 'f' => Some(12 as char)
    case 'r' => Some(13 as char)
    case _ => None
  }

  predicate High(n: nat)
  {
    0xd800 <= n < 0xdc00
  }

  predicate Low(n: nat)
  {
    0xdc00 <= n < 0xe000
  }

  function Before(c: char, rest: Option<string>): Option<string>
  {
    match rest
    case None => None
    case Some(s) => Some([c] + s)
  }

  /** Reading the inside of a JSON string; a lone surrogate is not a character. */
  function Read(t: string): Option<string>
    decreases |t|
  {
    if t == "" then Some("")
    else if t[0] != '\\' then
      if t[0] == '"' || t[0] as int < 32 then None else Before(t[0], Read(t[1..]))
    else if UnitAt(t).Some? then
      var n := UnitAt(t).value;
      if !High(n) && !Low(n) then Before(n as char, Read(t[6..]))
      else if High(n) && UnitAt(t[6..]).Some? && Low(UnitAt(t[6..]).value) then
        Before((0x10000 + 1024 * (n - 0xd800) + (UnitAt(t[6..]).value - 0xdc00)) as char, Read(t[6..][6..]))
      else None
    else if |t| > 1 && Unescaped(t[1]).Some? then Before(Unescaped(t[1]).value, Read(t[2..]))
    else None
  }

  lemma ReadsOne(c: char, rest: string)
    ensures Read(Quoted(c) + rest) == Before(c, Read(rest))
  {
    var n := c as nat;
    if ShortEscape(c).Some? {
      ReadsShort(c, rest);
    } else if 32 <= n < 127 {
      assert ([c] + rest)[1..] == rest;
    } else if n < 0x10000 {
      UnitBack(n, rest);
      assert !High(n) && !Low(n);
    } else {
      ReadsPair(c, rest);
    }
  }

  lemma ReadsShort(c: char, rest: string)
    requires ShortEscape(c).Some?
    ensures Read(['\\', ShortEscape(c).value] + rest) == Before(c, Read(rest))
  {
    var t := ['\\', ShortEscape(c).value] + rest;
    assert t[1] == ShortEscape(c).value && t[1] != 'u' && t[2..] == rest;
    assert Unescaped(ShortEscape(c).value) == Some(c);
  }

  lemma ReadsPair(c: char, rest: string)
    requires c as nat >= 0x10000
    ensures Read(Quoted(c) + rest) == Before(c, Read(rest))
  {
    var n := c as nat - 0x10000;
    var high, low := 0xd800 + n / 1024, 0xdc00 + n % 1024;
    assert Quoted(c) == Unit(high) + Unit(low);
    assert (Unit(high) + Unit(low)) + rest == Unit(high) + (Unit(low) + rest);
    PairReads(high, low, rest);
    assert n == 1024 * (n / 1024) + n % 1024;
  }

  lemma PairReads(high: nat, low: nat, rest: string)
    requires High(high) && Low(low)
    ensures Read(Unit(high) + (Unit(low) + rest))
         == Before((0x10000 + 1024 * (high - 0xd800) + (low - 0xdc00)) as char, Read(rest))
  {
    UnitBack(high, Unit(low) + rest);
    UnitBack(low, rest);
  }

  /** What is written for a string reads back as it. */
  lemma {:induction false} WrittenReadsBack(s: string)
    ensures Read(Written(s)) == Some(s)
  {
    if s != "" {
      WrittenReadsBack(s[1..]);
      ReadsOne(s[0], Written(s[1..]));
      assert s == [s[0]] + s[1..];
    }
  }

  /** And the measure of a string is the length of that text, all of it ASCII. */
  lemma {:induction false} MeasuredExactly(s: string)
    ensures |Written(s)| == EscapedLength(s)
    ensures Ascii(Written(s))
  {
    if s != "" {
      MeasuredExactly(s[1..]);
      LengthCons(s);
      QuotedExactly(s[0]);
    }
  }

  predicate Ascii(t: string)
  {
    forall i :: 0 <= i < |t| ==> 32 <= t[i] as int < 127
  }

  lemma QuotedExactly(c: char)
    ensures |Quoted(c)| == Width(c) && Ascii(Quoted(c))
  {
  }

  lemma {:induction false} LengthCons(s: string)
    requires s != ""
    ensures EscapedLength(s) == Width(s[0]) + EscapedLength(s[1..])
  {
    var before := s[..|s| - 1];
    if before != "" {
      LengthCons(before);
      assert before[1..] == s[1..][..|s| - 2] && s[1..][|s| - 2] == s[|s| - 1];
    }
  }
}
