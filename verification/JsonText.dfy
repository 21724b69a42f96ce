/**
 JSON strings: how the firmware escapes a byte string, and how a reader that follows
 section 7 of RFC 8259 takes it apart again.
*/
module JsonText {

  import opened Wrappers

  const BACKSPACE: char := 8 as char
  const FORM_FEED: char := 12 as char

  function HexDigit(n: nat): char
    requires n < 16
  {
    if n < 10 then ('0' as int + n) as char else ('A' as int + n - 10) as char
  }

  /** The text emitted for one character of a string. */
  function Escaped(c: char): (text: string)
    ensures 1 <= |text| <= 6
  {
    if c == '\"' then "\\\""
    else if c == '\\' then "\\\\"
    else if c == BACKSPACE then "\\b"
    else if c == FORM_FEED then "\\f"
    else if c == '\n' then "\\n"
    else if c == '\r' then "\\r"
    else if c == '\t' then "\\t"
    else if c as int < 0x20 then "\\u00" + [HexDigit(c as int / 16), HexDigit(c as int % 16)]
    else [c]
  }

  function EscapedAll(s: string): string {
    if s == "" then "" else EscapedAll(s[..|s| - 1]) + Escaped(s[|s| - 1])
  }

  /** The whole string literal. */
  function Quoted(s: string): (text: string)
    ensures 2 <= |text|
  {
    "\"" + EscapedAll(s) + "\""
  }

  // ---------------------------------------------------------------- reading

  function HexValue(c: char): Option<nat> {
    if '0' <= c <= '9' then Some(c as int - '0' as int)
    else if 'A' <= c <= 'F' then Some(c as int - 'A' as int + 10)
    else if 'a' <= c <= 'f' then Some(c as int - 'a' as int + 10)
    else None
  }

  function FourHexDigits(t: string): Option<nat>
    requires 4 <= |t|
  {
    match (HexValue(t[0]), HexValue(t[1]), HexValue(t[2]), HexValue(t[3]))
    case (Some(a), Some(b), Some(c), Some(d)) => Some(((a * 16 + b) * 16 + c) * 16 + d)
    case _ => None
  }

  function SimpleEscape(c: char): Option<char> {
    if c == '\"' || c == '\\' || c == '/' then Some(c)
    else if c == 'b' then Some(BACKSPACE)
    else if c == 'f' then Some(FORM_FEED)
    else if c == 'n' then Some('\n')
    else if c == 'r' then Some('\r')
    else if c == 't' then Some('\t')
    else None
  }

  /** One character of a string body: its value and the text it takes. */
  function ReadChar(t: string): (r: Option<(char, nat)>)
    ensures r.Some? ==> 1 <= r.value.1 <= |t|
  {
    if t == "" || t[0] == '\"' || (t[0] as int) < 0x20 then None
    else if t[0] != '\\' then Some((t[0], 1))
    else if |t| < 2 then None
    else if t[1] == 'u' then
      if |t| < 6 then None
      else match FourHexDigits(t[2..])
        case Some(n) => if n < 0xD800 then Some((n as char, 6)) else None
        case None => None
    else match SimpleEscape(t[1])
      case Some(c) => Some((c, 2))
      case None => None
  }

  /** A string literal at the start of a text: its value and what follows it. */
  function ReadString(t: string): Option<(string, string)> {
    if t == "" || t[0] != '\"' then None else ReadBody(t[1..])
  }

  function ReadBody(t: string): Option<(string, string)>
    decreases |t|
  {
    if t == "" then None
    else if t[0] == '\"' then Some(("", t[1..]))
    else match ReadChar(t)
      case None => None
      case Some((c, used)) =>
        match ReadBody(t[used..])
        case None => None
        case Some((s, rest)) => Some(([c] + s, rest))
  }

  // ---------------------------------------------------------------- round trip

  lemma HexRoundTrip(n: nat)
    requires n < 16
    ensures HexValue(HexDigit(n)) == Some(n)
  {
  }

  /** What is emitted for a character reads back as that character, whatever follows. */
  lemma CharRoundTrip(c: char, rest: string)
    ensures ReadChar(Escaped(c) + rest) == Some((c, |Escaped(c)|))
    ensures Escaped(c)[0] != '\"'
  {
    var t := Escaped(c) + rest;
    if c != '\"' && c != '\\' && c as int < 0x20 && |Escaped(c)| == 6 {
      HexRoundTrip(0);
      HexRoundTrip(c as int / 16);
      HexRoundTrip(c as int % 16);
      assert t[2..][0] == '0' && t[2..][1] == '0';
      assert t[2..][2] == HexDigit(c as int / 16) && t[2..][3] == HexDigit(c as int % 16);
      assert FourHexDigits(t[2..]) == Some(c as int);
    }
  }

  lemma {:induction false} EscapedFirst(s: string)
    requires s != ""
    ensures EscapedAll(s) == Escaped(s[0]) + EscapedAll(s[1..])
    decreases |s|
  {
    hide Escaped, EscapedAll;
    var n := |s| - 1;
    var init, last := s[..n], s[n];
    assert s == init + [last];
    EscapedLast(init, last);
    if n == 0 {
      EscapedNothing();
      assert init == "" && s[1..] == "";
    } else {
      var mid := init[1..];
      EscapedFirst(init);
      assert s[1..] == mid + [last];
      EscapedLast(mid, last);
      Regroup(Escaped(s[0]), EscapedAll(mid), Escaped(last));
    }
  }

  lemma EscapedNothing()
    ensures EscapedAll("") == ""
  {
  }

  lemma Regroup(a: string, b: string, c: string)
    ensures a + (b + c) == a + b + c
  {
  }

  lemma EscapedLast(s: string, c: char)
    ensures EscapedAll(s + [c]) == EscapedAll(s) + Escaped(c)
  {
    hide Escaped;
    assert (s + [c])[..|s|] == s;
  }

  lemma ReadBodyStep(t: string, c: char, used: nat, s: string, rest: string)
    requires t != "" && t[0] != '\"' && ReadChar(t) == Some((c, used))
    requires ReadBody(t[used..]) == Some((s, rest))
    ensures ReadBody(t) == Some(([c] + s, rest))
  {
    hide ReadChar;
  }

  lemma {:induction false} BodyRoundTrip(s: string, rest: string)
    ensures ReadBody(EscapedAll(s) + "\"" + rest) == Some((s, rest))
    decreases |s|
  {
    if s == "" {
      assert EscapedAll(s) + "\"" + rest == "\"" + rest;
    } else {
      hide Escaped, ReadChar, ReadBody, EscapedAll;
      EscapedFirst(s);
      var tail := EscapedAll(s[1..]) + "\"" + rest;
      var t := EscapedAll(s) + "\"" + rest;
      Regroup(Escaped(s[0]), EscapedAll(s[1..]), "\"");
      Regroup(Escaped(s[0]), EscapedAll(s[1..]) + "\"", rest);
      assert t == Escaped(s[0]) + tail;
      CharRoundTrip(s[0], tail);
      BodyRoundTrip(s[1..], rest);
      assert t[|Escaped(s[0])|..] == tail;
      ReadBodyStep(t, s[0], |Escaped(s[0])|, s[1..], rest);
      assert [s[0]] + s[1..] == s;
    }
  }

  /** A quoted string reads back as the original, and the reader stops exactly at its closing quote. */
  lemma QuotedRoundTrip(s: string, rest: string)
    ensures ReadString(Quoted(s) + rest) == Some((s, rest))
  {
    BodyRoundTrip(s, rest);
    assert (Quoted(s) + rest)[1..] == EscapedAll(s) + "\"" + rest;
  }

  /** Distinct strings have distinct literals, and no literal is a proper prefix of another. */
  lemma QuotedIsPrefixFree(s: string, s': string)
    requires Quoted(s) <= Quoted(s')
    ensures s == s'
  {
    hide Quoted, ReadString;
    var more := Quoted(s')[|Quoted(s)|..];
    assert Quoted(s) + more == Quoted(s') == Quoted(s') + "";
    QuotedRoundTrip(s, more);
    QuotedRoundTrip(s', "");
  }

  /** No raw control character is ever emitted. */
  lemma {:induction false} NoControlCharacters(s: string)
    ensures forall i :: 0 <= i < |EscapedAll(s)| ==> EscapedAll(s)[i] as int >= 0x20
  {
    if s != "" {
      NoControlCharacters(s[..|s| - 1]);
    }
  }

  /** The two-character escapes of section 7 of RFC 8259, and two of the six-character ones. */
  lemma EscapeTable()
    ensures Escaped(0x22 as char) == "\\\"" && Escaped(0x5C as char) == "\\\\"
    ensures Escaped(0x08 as char) == "\\b" && Escaped(0x0C as char) == "\\f" && Escaped(0x0A as char) == "\\n"
    ensures Escaped(0x0D as char) == "\\r" && Escaped(0x09 as char) == "\\t"
    ensures Escaped(0x01 as char) == "\\u0001" && Escaped(0x1F as char) == "\\u001F"
  {
  }

  /** Everything else but control characters is emitted as it is; control characters take six characters. */
  lemma EscapeIsMinimal(c: char)
    ensures c as int >= 0x20 && c != '\"' && c != '\\' ==> Escaped(c) == [c]
    ensures c as int < 0x20 && c as int !in {8, 9, 10, 12, 13} ==>
      |Escaped(c)| == 6 && Escaped(c)[..4] == "\\u00"
      && HexValue(Escaped(c)[4]) == Some(c as int / 16) && HexValue(Escaped(c)[5]) == Some(c as int % 16)
  {
    if c as int < 0x20 {
      HexRoundTrip(c as int / 16);
      HexRoundTrip(c as int % 16);
    }
  }
}
