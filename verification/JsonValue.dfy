/**
 JSON values as a reader of RFC 8259 sees them, without insignificant white space: a
 canonical printer, a reader, and the value that an upload payload stands for.  Numbers follow
 the grammar of its section 6 and stay texts; escapes of surrogates are not read.
*/
module JsonValue {

  import opened Wrappers
  import opened JsonText
  import opened JsonPayload

  datatype Json = Text(s: string) | Number(digits: string) | Array(items: seq<Json>) | Object(members: seq<Member>)
  datatype Member = Member(key: string, value: Json)

  predicate NumberChar(c: char) {
    '0' <= c <= '9' || c in {'+', '-', '.', 'e', 'E'}
  }

  // The number grammar of section 6 of RFC 8259.

  /** How many digits a text starts with. */
  function Digits(t: string): (n: nat)
    ensures n <= |t|
    ensures forall i :: 0 <= i < n ==> '0' <= t[i] <= '9'
  {
    if t != "" && '0' <= t[0] <= '9' then 1 + Digits(t[1..]) else 0
  }

  /** An optional minus, and an unsigned number. */
  predicate NumberToken(t: string) {
    t != "" && if t[0] == '-' then UnsignedToken(t[1..]) else UnsignedToken(t)
  }

  /** An integer without leading zeros, and an optional fraction and exponent. */
  predicate UnsignedToken(t: string) {
    var n := Digits(t);
    1 <= n && (t[0] == '0' ==> n == 1) && FractionToken(t[n..])
  }

  predicate FractionToken(t: string) {
    if t != "" && t[0] == '.' then
      var n := Digits(t[1..]);
      1 <= n && ExponentToken(t[1 + n..])
    else ExponentToken(t)
  }

  predicate ExponentToken(t: string) {
    t == "" || ((t[0] == 'e' || t[0] == 'E') && ExponentDigits(t[1..]))
  }

  predicate ExponentDigits(t: string) {
    if t != "" && (t[0] == '+' || t[0] == '-') then 1 <= |t[1..]| == Digits(t[1..])
    else 1 <= |t| == Digits(t)
  }

  predicate AllNumberChars(t: string) {
    forall i :: 0 <= i < |t| ==> NumberChar(t[i])
  }

  lemma NumberCharsJoin(t: string, n: nat)
    requires n <= |t| && AllNumberChars(t[..n]) && AllNumberChars(t[n..])
    ensures AllNumberChars(t)
  {
    forall i | 0 <= i < |t|
      ensures NumberChar(t[i])
    {
      assert t[i] == if i < n then t[..n][i] else t[n..][i - n];
    }
  }

  lemma ExponentChars(t: string)
    requires ExponentToken(t)
    ensures AllNumberChars(t)
  {
    if t != "" {
      var u := t[1..];
      if u != "" && (u[0] == '+' || u[0] == '-') {
        NumberCharsJoin(u, 1);
      }
      NumberCharsJoin(t, 1);
    }
  }

  lemma FractionChars(t: string)
    requires FractionToken(t)
    ensures AllNumberChars(t)
  {
    hide ExponentToken;
    if t != "" && t[0] == '.' {
      var n := Digits(t[1..]);
      ExponentChars(t[1 + n..]);
      assert t[1..][..n] == t[1..1 + n] && t[1..][n..] == t[1 + n..];
      NumberCharsJoin(t[1..], n);
      NumberCharsJoin(t, 1);
    } else {
      ExponentChars(t);
    }
  }

  lemma UnsignedChars(t: string)
    requires UnsignedToken(t)
    ensures AllNumberChars(t)
  {
    hide FractionToken;
    FractionChars(t[Digits(t)..]);
    NumberCharsJoin(t, Digits(t));
  }

  /** A number is made of number characters and starts with a digit or a minus. */
  lemma TokenChars(t: string)
    requires NumberToken(t)
    ensures t != "" && AllNumberChars(t)
  {
    hide UnsignedToken;
    if t[0] == '-' {
      UnsignedChars(t[1..]);
      NumberCharsJoin(t, 1);
    } else {
      UnsignedChars(t);
    }
  }

  // ---------------------------------------------------------------- printing

  function Print(j: Json): string {
    match j
    case Text(s) => Quoted(s)
    case Number(digits) => digits
    case Array(items) => "[" + PrintItems(items, true) + "]"
    case Object(members) => "{" + PrintMembers(members, true) + "}"
  }

  function PrintItems(items: seq<Json>, first: bool): string {
    if items == [] then ""
    else (if first then "" else ",") + Print(items[0]) + PrintItems(items[1..], false)
  }

  function PrintMembers(members: seq<Member>, first: bool): string {
    if members == [] then ""
    else
      (if first then "" else ",") + Quoted(members[0].key) + ":" + Print(members[0].value)
      + PrintMembers(members[1..], false)
  }

  /** Every number in the value is a number token. */
  predicate WellFormed(j: Json) {
    match j
    case Text(_) => true
    case Number(digits) => NumberToken(digits)
    case Array(items) => forall k :: 0 <= k < |items| ==> WellFormed(items[k])
    case Object(members) => forall k :: 0 <= k < |members| ==> WellFormed(members[k].value)
  }

  // ---------------------------------------------------------------- reading

  /** How many characters of a text could belong to a number at its start. */
  function NumberLength(t: string): (n: nat)
    ensures n <= |t|
  {
    if t != "" && NumberChar(t[0]) then 1 + NumberLength(t[1..]) else 0
  }

  lemma {:induction false} ReadBodyShrinks(t: string)
    ensures ReadBody(t).Some? ==> |ReadBody(t).value.1| < |t|
    decreases |t|
  {
    hide ReadChar;
    if t != "" && t[0] != '\"' && ReadChar(t).Some? {
      ReadBodyShrinks(t[ReadChar(t).value.1..]);
    }
  }

  /** A string literal, with the promise that something was read. */
  function ReadKey(t: string): (r: Option<(string, string)>)
    ensures r == ReadString(t)
    ensures r.Some? ==> |r.value.1| < |t|
  {
    hide ReadBody;
    if t != "" then ReadBodyShrinks(t[1..]); ReadString(t) else None
  }

  /** A value at the start of a text, and what follows it. */
  function ReadValue(t: string): (r: Option<(Json, string)>)
    ensures r.Some? ==> |r.value.1| < |t|
    decreases |t|, 0
  {
    if t == "" then None
    else if t[0] == '\"' then
      match ReadKey(t)
      case Some((s, rest)) => Some((Text(s), rest))
      case None => None
    else if t[0] == '[' then
      match ReadItems(t[1..], true)
      case Some((items, rest)) => Some((Array(items), rest))
      case None => None
    else if t[0] == '{' then
      match ReadMembers(t[1..], true)
      case Some((members, rest)) => Some((Object(members), rest))
      case None => None
    else
      var n := NumberLength(t);
      if !NumberToken(t[..n]) then None else Some((Number(t[..n]), t[n..]))
  }

  /** What follows a separator: the text itself in front of the first element, the text behind a comma later on. */
  function Separated(t: string, first: bool): Option<string> {
    if first then Some(t) else if t != "" && t[0] == ',' then Some(t[1..]) else None
  }

  /** The rest of an array, up to and including its bracket. */
  function ReadItems(t: string, first: bool): (r: Option<(seq<Json>, string)>)
    ensures r.Some? ==> |r.value.1| < |t|
    decreases |t|, 1
  {
    if t == "" then None
    else if t[0] == ']' then Some(([], t[1..]))
    else match Separated(t, first)
      case None => None
      case Some(u) =>
        match ReadValue(u)
        case None => None
        case Some((j, rest)) =>
          match ReadItems(rest, false)
          case None => None
          case Some((items, rest')) => Some(([j] + items, rest'))
  }

  /** The rest of an object, up to and including its brace. */
  function ReadMembers(t: string, first: bool): (r: Option<(seq<Member>, string)>)
    ensures r.Some? ==> |r.value.1| < |t|
    decreases |t|, 1
  {
    if t == "" then None
    else if t[0] == '}' then Some(([], t[1..]))
    else match Separated(t, first)
      case None => None
      case Some(u) =>
        match ReadKey(u)
        case None => None
        case Some((key, rest)) =>
          if rest == "" || rest[0] != ':' then None
          else match ReadValue(rest[1..])
            case None => None
            case Some((j, rest')) =>
              match ReadMembers(rest', false)
              case None => None
              case Some((members, rest'')) => Some(([Member(key, j)] + members, rest''))
  }

  // ---------------------------------------------------------------- round trip

  /** The text behind a value does not run on into a number. */
  predicate Ends(rest: string) {
    rest == "" || !NumberChar(rest[0])
  }

  lemma {:induction false} NumberEnds(digits: string, rest: string)
    requires AllNumberChars(digits) && Ends(rest)
    ensures NumberLength(digits + rest) == |digits|
  {
    if digits == "" {
      assert digits + rest == rest;
    } else {
      assert (digits + rest)[1..] == digits[1..] + rest;
      NumberEnds(digits[1..], rest);
    }
  }

  lemma PrintStarts(j: Json)
    requires WellFormed(j)
    ensures Print(j) != "" && Print(j)[0] != ']' && Print(j)[0] != '}' && Print(j)[0] != ','
    ensures j.Number? <==> NumberChar(Print(j)[0])
  {
    hide NumberToken;
    if j.Number? {
      TokenChars(j.digits);
    }
  }

  lemma ReadArrayStep(items: seq<Json>, rest: string)
    requires ReadItems(PrintItems(items, true) + "]" + rest, true) == Some((items, rest))
    ensures ReadValue(Print(Array(items)) + rest) == Some((Array(items), rest))
  {
    hide ReadItems, PrintItems, ReadKey, ReadMembers, NumberLength;
    var t := Print(Array(items)) + rest;
    assert t[1..] == PrintItems(items, true) + "]" + rest;
  }

  lemma ReadObjectStep(members: seq<Member>, rest: string)
    requires ReadMembers(PrintMembers(members, true) + "}" + rest, true) == Some((members, rest))
    ensures ReadValue(Print(Object(members)) + rest) == Some((Object(members), rest))
  {
    hide ReadItems, PrintMembers, ReadKey, ReadMembers, NumberLength;
    var t := Print(Object(members)) + rest;
    assert t[1..] == PrintMembers(members, true) + "}" + rest;
  }

  lemma ReadNumberStep(digits: string, rest: string)
    requires NumberToken(digits) && Ends(rest)
    ensures ReadValue(digits + rest) == Some((Number(digits), rest))
  {
    hide ReadItems, ReadKey, ReadMembers, NumberToken;
    var t := digits + rest;
    TokenChars(digits);
    NumberEnds(digits, rest);
    assert t[0] == digits[0] && NumberChar(t[0]);
    assert t[..|digits|] == digits && t[|digits|..] == rest;
  }

  lemma ReadTextStep(s: string, rest: string)
    ensures ReadValue(Quoted(s) + rest) == Some((Text(s), rest))
  {
    hide ReadItems, ReadMembers, NumberLength, EscapedAll, ReadString;
    QuotedRoundTrip(s, rest);
  }

  lemma {:induction false} ValueRoundTrip(j: Json, rest: string)
    requires WellFormed(j) && Ends(rest)
    ensures ReadValue(Print(j) + rest) == Some((j, rest))
    decreases j, 0
  {
    hide ReadValue, ReadItems, ReadMembers, PrintItems, PrintMembers, Quoted, NumberToken;
    match j
    case Text(s) =>
      ReadTextStep(s, rest);
    case Number(digits) =>
      ReadNumberStep(digits, rest);
    case Array(items) =>
      ItemsRoundTrip(items, true, rest);
      ReadArrayStep(items, rest);
    case Object(members) =>
      MembersRoundTrip(members, true, rest);
      ReadObjectStep(members, rest);
  }

  lemma SeparatorRead(first: bool, u: string)
    requires u != "" && u[0] != ','
    ensures var t := (if first then "" else ",") + u;
      t != "" && Separated(t, first) == Some(u) && (t[0] == u[0] || t[0] == ',')
  {
    assert "" + u == u;
    assert ("," + u)[1..] == u;
  }

  lemma ReadItemsStep(t: string, first: bool, u: string, j: Json, rest: string, items: seq<Json>, rest': string)
    requires t != "" && t[0] != ']' && Separated(t, first) == Some(u)
    requires ReadValue(u) == Some((j, rest)) && ReadItems(rest, false) == Some((items, rest'))
    ensures ReadItems(t, first) == Some(([j] + items, rest'))
  {
    hide ReadValue;
  }

  lemma ItemsText(items: seq<Json>, first: bool, rest: string)
    requires items != []
    ensures PrintItems(items, first) + "]" + rest
         == (if first then "" else ",") + (Print(items[0]) + (PrintItems(items[1..], false) + "]" + rest))
  {
    hide Print;
  }

  lemma {:induction false} ItemsRoundTrip(items: seq<Json>, first: bool, rest: string)
    requires forall k :: 0 <= k < |items| ==> WellFormed(items[k])
    ensures ReadItems(PrintItems(items, first) + "]" + rest, first) == Some((items, rest))
    decreases items, 1
  {
    if items == [] {
      assert PrintItems(items, first) + "]" + rest == "]" + rest;
    } else {
      hide Print, ReadValue, ReadItems, PrintItems, Separated;
      var more := PrintItems(items[1..], false) + "]" + rest;
      var u := Print(items[0]) + more;
      ItemsText(items, first, rest);
      PrintStarts(items[0]);
      ItemsTailStarts(items[1..], rest);
      ValueRoundTrip(items[0], more);
      ItemsRoundTrip(items[1..], false, rest);
      SeparatorRead(first, u);
      ReadItemsStep(PrintItems(items, first) + "]" + rest, first, u, items[0], more, items[1..], rest);
      assert [items[0]] + items[1..] == items;
    }
  }

  lemma ItemsTailStarts(items: seq<Json>, rest: string)
    ensures Ends(PrintItems(items, false) + "]" + rest)
  {
    hide Print;
  }

  lemma MembersTailStarts(members: seq<Member>, rest: string)
    ensures Ends(PrintMembers(members, false) + "}" + rest)
  {
    hide Print, Quoted;
  }

  lemma ReadMembersStep(t: string, first: bool, u: string, key: string, value: string, j: Json, rest: string,
      members: seq<Member>, rest': string)
    requires t != "" && t[0] != '}' && Separated(t, first) == Some(u)
    requires ReadString(u) == Some((key, ":" + value)) && ReadValue(value) == Some((j, rest))
    requires ReadMembers(rest, false) == Some((members, rest'))
    ensures ReadMembers(t, first) == Some(([Member(key, j)] + members, rest'))
  {
    hide ReadValue, ReadString;
    assert (":" + value)[1..] == value;
  }

  lemma MemberStarts(key: string, tail: string)
    ensures Quoted(key) + tail != "" && (Quoted(key) + tail)[0] == '\"'
  {
    hide EscapedAll;
  }

  lemma MembersText(members: seq<Member>, first: bool, rest: string)
    requires members != []
    ensures PrintMembers(members, first) + "}" + rest
         == (if first then "" else ",")
            + (Quoted(members[0].key)
               + (":" + (Print(members[0].value) + (PrintMembers(members[1..], false) + "}" + rest))))
  {
    hide Print, Quoted;
    MemberRegroup(if first then "" else ",", Quoted(members[0].key), Print(members[0].value),
                  PrintMembers(members[1..], false), rest);
  }

  lemma MemberRegroup(sep: string, key: string, value: string, more: string, rest: string)
    ensures sep + key + ":" + value + more + "}" + rest == sep + (key + (":" + (value + (more + "}" + rest))))
  {
    var end := more + "}" + rest;
    assert sep + key + ":" + value + more + "}" + rest == (sep + key + ":" + value) + end;
    Regroup(sep + key + ":", value, end);
    Regroup(sep + key, ":", value + end);
    Regroup(sep, key, ":" + (value + end));
  }

  lemma {:induction false} MembersRoundTrip(members: seq<Member>, first: bool, rest: string)
    requires forall k :: 0 <= k < |members| ==> WellFormed(members[k].value)
    ensures ReadMembers(PrintMembers(members, first) + "}" + rest, first) == Some((members, rest))
    decreases members, 1
  {
    if members == [] {
      assert PrintMembers(members, first) + "}" + rest == "}" + rest;
    } else {
      hide Print, Quoted, ReadString, ReadValue, ReadMembers, PrintMembers, Separated, WellFormed;
      var m := members[0];
      var more := PrintMembers(members[1..], false) + "}" + rest;
      var value := Print(m.value) + more;
      var u := Quoted(m.key) + (":" + value);
      MembersText(members, first, rest);
      QuotedRoundTrip(m.key, ":" + value);
      MembersTailStarts(members[1..], rest);
      ValueRoundTrip(m.value, more);
      MembersRoundTrip(members[1..], false, rest);
      MemberStarts(m.key, ":" + value);
      SeparatorRead(first, u);
      ReadMembersStep(PrintMembers(members, first) + "}" + rest, first, u, m.key, value, m.value, more,
                      members[1..], rest);
      assert [Member(m.key, m.value)] + members[1..] == members;
    }
  }

  // ---------------------------------------------------------------- the payload as a value

  /** All conversions work, and those of numbers yield number tokens. */
  ghost predicate FormatsNumbers(f: Formats) {
    && (forall n: nat :: f.unsigned(n).Some? && NumberToken(f.unsigned(n).value))
    && (forall x: real :: f.general(x).Some? && NumberToken(f.general(x).value))
  }

  ghost function UnsignedValue(f: Formats, n: nat): Json
    requires FormatsNumbers(f)
  {
    Number(f.unsigned(n).value)
  }

  ghost function RealValue(f: Formats, x: real): Json
    requires FormatsNumbers(f)
  {
    Number(f.general(x).value)
  }

  ghost function MeasurementValue(f: Formats, m: Measurement): Json
    requires FormatsNumbers(f)
  {
    Object([Member("num_reg", UnsignedValue(f, m.numReg)), Member("avg", RealValue(f, m.value)),
            Member("word", UnsignedValue(f, m.word)), Member("min", RealValue(f, m.min)),
            Member("max", RealValue(f, m.max)), Member("unit", Text(m.unit)),
            Member("description", Text(m.description))])
  }

  ghost function MeasurementValues(f: Formats, ms: seq<Measurement>): (items: seq<Json>)
    requires FormatsNumbers(f)
    ensures |items| == |ms|
    ensures forall k :: 0 <= k < |ms| ==> items[k] == MeasurementValue(f, ms[k])
  {
    if ms == [] then [] else MeasurementValues(f, ms[..|ms| - 1]) + [MeasurementValue(f, ms[|ms| - 1])]
  }

  /** The object the upload schema describes. */
  ghost function PayloadValue(f: Formats, timestamp: nat, deviceId: string, firmware: string, ms: seq<Measurement>)
    : Json
    requires FormatsNumbers(f)
  {
    Object(PayloadHeader(f, timestamp, deviceId, firmware)
           + [Member("measurements", Array(MeasurementValues(f, ms)))])
  }

  ghost function PayloadHeader(f: Formats, timestamp: nat, deviceId: string, firmware: string): seq<Member>
    requires FormatsNumbers(f)
  {
    [Member("schemaID", Text("schemaUNICAM")), Member("companyID", Text("UNICAM")),
     Member("timestamp", UnsignedValue(f, timestamp)), Member("device_id", Text(deviceId)),
     Member("firmware_version", Text(firmware)), Member("device_type", Text("UPM209"))]
  }

  // ---------------------------------------------------------------- the printer prints that value

  predicate Plain(s: string) {
    forall i :: 0 <= i < |s| ==> s[i] as int >= 0x20 && s[i] != '\"' && s[i] != '\\'
  }

  lemma {:induction false} PlainIsItself(s: string)
    requires Plain(s)
    ensures EscapedAll(s) == s && Quoted(s) == "\"" + s + "\""
  {
    if s != "" {
      PlainIsItself(s[..|s| - 1]);
      assert s == s[..|s| - 1] + [s[|s| - 1]];
    }
  }

  /** A member's text with its separator. */
  function MemberText(m: Member, first: bool): string {
    (if first then "" else ",") + Quoted(m.key) + ":" + Print(m.value)
  }

  lemma {:induction false} PrintMembersSnoc(ms: seq<Member>, m: Member, first: bool)
    ensures PrintMembers(ms + [m], first) == PrintMembers(ms, first) + MemberText(m, first && ms == [])
    decreases |ms|
  {
    hide Print, Quoted;
    if ms == [] {
      assert ([m])[1..] == [];
      assert PrintMembers([m], first) == MemberText(m, first) + "";
      assert [] + [m] == [m];
    } else {
      assert (ms + [m])[1..] == ms[1..] + [m];
      PrintMembersSnoc(ms[1..], m, false);
      assert PrintMembers(ms + [m], first)
          == MemberText(ms[0], first) + (PrintMembers(ms[1..], false) + MemberText(m, false));
    }
  }

  lemma {:induction false} PrintItemsSnoc(items: seq<Json>, j: Json, first: bool)
    ensures PrintItems(items + [j], first)
         == PrintItems(items, first) + ((if first && items == [] then "" else ",") + Print(j))
    decreases |items|
  {
    hide Print;
    if items == [] {
      assert ([j])[1..] == [];
      assert [] + [j] == [j];
    } else {
      assert (items + [j])[1..] == items[1..] + [j];
      PrintItemsSnoc(items[1..], j, false);
    }
  }

  /** Appending a label and a value to the text of some members gives the text of one member more. */
  lemma OneMoreMember(text: string, ms: seq<Member>, m: Member, tag: string, value: string)
    requires text == "{" + PrintMembers(ms, true)
    requires tag == (if ms == [] then "" else ",") + Quoted(m.key) + ":" && value == Print(m.value)
    ensures text + tag + value == "{" + PrintMembers(ms + [m], true)
  {
    hide Print, Quoted, PrintMembers;
    PrintMembersSnoc(ms, m, true);
    assert MemberText(m, ms == []) == tag + value;
  }

  lemma Label(key: string, first: bool, tag: string)
    requires Plain(key)
    requires tag == (if first then "" else ",") + ("\"" + key + "\"") + ":"
    ensures tag == (if first then "" else ",") + Quoted(key) + ":"
  {
    PlainIsItself(key);
  }

  /** The members of a measurement object up to its maximum. */
  ghost function HeadMembers(f: Formats, m: Measurement): seq<Member>
    requires FormatsNumbers(f)
  {
    [Member("num_reg", UnsignedValue(f, m.numReg))] + [Member("avg", RealValue(f, m.value))]
    + [Member("word", UnsignedValue(f, m.word))] + [Member("min", RealValue(f, m.min))]
    + [Member("max", RealValue(f, m.max))]
  }

  lemma HeadLabels()
    ensures "\"num_reg\":" == "" + Quoted("num_reg") + ":"
    ensures ",\"avg\":" == "," + Quoted("avg") + ":"
    ensures ",\"word\":" == "," + Quoted("word") + ":"
  {
    hide Quoted;
    Label("num_reg", true, "\"num_reg\":");
    Label("avg", false, ",\"avg\":");
    Label("word", false, ",\"word\":");
  }

  lemma BoundLabels()
    ensures ",\"min\":" == "," + Quoted("min") + ":"
    ensures ",\"max\":" == "," + Quoted("max") + ":"
  {
    hide Quoted;
    Label("min", false, ",\"min\":");
    Label("max", false, ",\"max\":");
  }

  lemma TextLabels()
    ensures ",\"unit\":" == "," + Quoted("unit") + ":"
    ensures ",\"description\":" == "," + Quoted("description") + ":"
  {
    Label("unit", false, ",\"unit\":");
    Label("description", false, ",\"description\":");
  }

  /** `HeadText`, written out. */
  lemma HeadTextIs(f: Formats, m: Measurement)
    requires FormatsNumbers(f)
    ensures HeadText(f, m) == Some(
      "{" + "\"num_reg\":" + f.unsigned(m.numReg).value + ",\"avg\":" + f.general(m.value).value
      + ",\"word\":" + f.unsigned(m.word).value + ",\"min\":" + f.general(m.min).value
      + ",\"max\":" + f.general(m.max).value + ",\"unit\":")
  {
    hide NumberToken;
    assert "" + "{\"num_reg\":" == "{" + "\"num_reg\":";
  }

  lemma FirstMember(m: Member, tag: string, value: string)
    requires tag == "" + Quoted(m.key) + ":" && value == Print(m.value)
    ensures "{" + tag + value == "{" + PrintMembers([m], true)
  {
    hide Quoted, Print;
    OneMoreMember("{", [], m, tag, value);
    assert [] + [m] == [m];
  }

  lemma FiveMembers(m1: Member, m2: Member, m3: Member, m4: Member, m5: Member,
      g1: string, g2: string, g3: string, g4: string, g5: string)
    requires g1 == "" + Quoted(m1.key) + ":" && g2 == "," + Quoted(m2.key) + ":" && g3 == "," + Quoted(m3.key) + ":"
    requires g4 == "," + Quoted(m4.key) + ":" && g5 == "," + Quoted(m5.key) + ":"
    ensures "{" + g1 + Print(m1.value) + g2 + Print(m2.value) + g3 + Print(m3.value) + g4 + Print(m4.value)
            + g5 + Print(m5.value)
         == "{" + PrintMembers([m1] + [m2] + [m3] + [m4] + [m5], true)
  {
    hide Quoted, PrintMembers, Print;
    FirstMember(m1, g1, Print(m1.value));
    var t1 := "{" + g1 + Print(m1.value);
    OneMoreMember(t1, [m1], m2, g2, Print(m2.value));
    var t2 := t1 + g2 + Print(m2.value);
    OneMoreMember(t2, [m1] + [m2], m3, g3, Print(m3.value));
    var t3 := t2 + g3 + Print(m3.value);
    OneMoreMember(t3, [m1] + [m2] + [m3], m4, g4, Print(m4.value));
    var t4 := t3 + g4 + Print(m4.value);
    OneMoreMember(t4, [m1] + [m2] + [m3] + [m4], m5, g5, Print(m5.value));
  }

  lemma HeadIsPrinted(f: Formats, m: Measurement)
    requires FormatsNumbers(f)
    ensures HeadText(f, m) == Some("{" + PrintMembers(HeadMembers(f, m), true) + ",\"unit\":")
  {
    HeadLabels();
    BoundLabels();
    HeadTextIs(f, m);
    hide Quoted, PrintMembers, HeadText, NumberToken;
    FiveMembers(
      Member("num_reg", UnsignedValue(f, m.numReg)), Member("avg", RealValue(f, m.value)),
      Member("word", UnsignedValue(f, m.word)), Member("min", RealValue(f, m.min)), Member("max", RealValue(f, m.max)),
      "\"num_reg\":", ",\"avg\":", ",\"word\":", ",\"min\":", ",\"max\":");
  }

  /** The text of a measurement's pieces. */
  lemma MeasurementText(f: Formats, m: Measurement, first: bool)
    requires HeadText(f, m).Some?
    ensures AllPrintable(MeasurementPieces(f, m, first))
    ensures Render(MeasurementPieces(f, m, first))
         == (if first then "" else ",") + HeadText(f, m).value + Quoted(m.unit)
            + (",\"description\":" + Quoted(m.description)) + "}"
  {
    NoPieces();
    OnePiece(Char(','));
    OnePiece(Fmt(HeadText(f, m)));
    OnePiece(Str(m.unit));
    OnePiece(Char('}'));
    hide Render, AllPrintable, Field, HeadText, Quoted;
    var comma := if first then [] else [Char(',')];
    var key := ",\"description\":";
    FieldLength(key, m.description);
    Joined(comma, [Fmt(HeadText(f, m))]);
    Joined(comma + [Fmt(HeadText(f, m))], [Str(m.unit)]);
    Joined(comma + [Fmt(HeadText(f, m))] + [Str(m.unit)], Field(key, m.description));
    Joined(comma + [Fmt(HeadText(f, m))] + [Str(m.unit)] + Field(key, m.description), [Char('}')]);
  }

  lemma MeasurementRegroup(sep: string, head: string, unit: string, key: string, description: string)
    ensures sep + head + unit + (key + description) + "}" == sep + (head + unit + key + description + "}")
  {
  }

  lemma ObjectText(members: seq<Member>)
    ensures Print(Object(members)) == "{" + PrintMembers(members, true) + "}"
  {
  }

  lemma MeasurementValueIs(f: Formats, m: Measurement)
    requires FormatsNumbers(f)
    ensures MeasurementValue(f, m)
         == Object(HeadMembers(f, m) + [Member("unit", Text(m.unit))] + [Member("description", Text(m.description))])
  {
    hide NumberToken;
  }

  lemma MeasurementIsPrinted(f: Formats, m: Measurement, first: bool)
    requires FormatsNumbers(f)
    ensures AllPrintable(MeasurementPieces(f, m, first))
    ensures Render(MeasurementPieces(f, m, first)) == (if first then "" else ",") + Print(MeasurementValue(f, m))
  {
    HeadIsPrinted(f, m);
    TextLabels();
    MeasurementText(f, m, first);
    MeasurementValueIs(f, m);
    hide Render, AllPrintable, MeasurementPieces, HeadText, Quoted, PrintMembers, MeasurementValue, NumberToken;
    var members := HeadMembers(f, m);
    var unit, description := Member("unit", Text(m.unit)), Member("description", Text(m.description));
    var tag := ",\"description\":";
    assert Print(unit.value) == Quoted(m.unit) && Print(description.value) == Quoted(m.description);
    ObjectText(members + [unit] + [description]);
    hide Print;
    OneMoreMember("{" + PrintMembers(members, true), members, unit, ",\"unit\":", Quoted(m.unit));
    OneMoreMember("{" + PrintMembers(members + [unit], true), members + [unit], description, tag,
                  Quoted(m.description));
    MeasurementRegroup(if first then "" else ",", HeadText(f, m).value, Quoted(m.unit), tag, Quoted(m.description));
  }

  lemma {:induction false} BodyIsPrinted(f: Formats, ms: seq<Measurement>)
    requires FormatsNumbers(f)
    ensures AllPrintable(BodyPieces(f, ms))
    ensures Render(BodyPieces(f, ms)) == PrintItems(MeasurementValues(f, ms), true)
  {
    hide Render, AllPrintable, MeasurementPieces, MeasurementValue, Print, NumberToken;
    if ms == [] {
      NoPieces();
    } else {
      var n := |ms| - 1;
      BodyIsPrinted(f, ms[..n]);
      MeasurementIsPrinted(f, ms[n], n == 0);
      Joined(BodyPieces(f, ms[..n]), MeasurementPieces(f, ms[n], n == 0));
      PrintItemsSnoc(MeasurementValues(f, ms[..n]), MeasurementValue(f, ms[n]), true);
    }
  }

  // ---------------------------------------------------------------- the header

  lemma HeaderLabels()
    ensures "\"schemaID\":" == "" + Quoted("schemaID") + ":"
    ensures ",\"companyID\":" == "," + Quoted("companyID") + ":"
    ensures ",\"timestamp\":" == "," + Quoted("timestamp") + ":"
  {
    hide Quoted;
    Label("schemaID", true, "\"schemaID\":");
    Label("companyID", false, ",\"companyID\":");
    Label("timestamp", false, ",\"timestamp\":");
  }

  lemma DeviceIdLabel()
    ensures ",\"device_id\":" == "," + Quoted("device_id") + ":"
  {
    hide Quoted;
    Label("device_id", false, ",\"device_id\":");
  }

  lemma FirmwareLabel()
    ensures ",\"firmware_version\":" == "," + Quoted("firmware_version") + ":"
  {
    hide Quoted;
    Label("firmware_version", false, ",\"firmware_version\":");
  }

  lemma TypeLabel()
    ensures ",\"device_type\":" == "," + Quoted("device_type") + ":"
  {
    hide Quoted;
    Label("device_type", false, ",\"device_type\":");
  }

  lemma MeasurementsLabel()
    ensures ",\"measurements\":" == "," + Quoted("measurements") + ":"
  {
    hide Quoted;
    Label("measurements", false, ",\"measurements\":");
  }

  /** Pieces that print some members, and the pieces of one more. */
  lemma OneMoreField(ps: seq<Piece>, ms: seq<Member>, field: seq<Piece>, m: Member, tag: string)
    requires AllPrintable(ps) && AllPrintable(field)
    requires Render(ps) == "{" + PrintMembers(ms, true) && Render(field) == tag + Print(m.value)
    requires tag == (if ms == [] then "" else ",") + Quoted(m.key) + ":"
    ensures AllPrintable(ps + field) && Render(ps + field) == "{" + PrintMembers(ms + [m], true)
  {
    hide Render, AllPrintable, Print, Quoted, PrintMembers;
    Joined(ps, field);
    Regroup(Render(ps), tag, Print(m.value));
    OneMoreMember(Render(ps), ms, m, tag, Print(m.value));
  }

  lemma TextField(tag: string, value: string)
    requires tag != ""
    ensures AllPrintable(Field(tag, value)) && Render(Field(tag, value)) == tag + Print(Text(value))
  {
    hide Render, Field, AllPrintable, Quoted;
    FieldLength(tag, value);
  }

  function SchemaPieces(f: Formats, timestamp: nat): seq<Piece> {
    [Char('{')] + Field("\"schemaID\":", SCHEMA_ID) + Field(",\"companyID\":", COMPANY_ID)
    + [Fmt(StampText(f, timestamp))]
  }

  lemma HeaderFirst(f: Formats, timestamp: nat)
    requires FormatsNumbers(f)
    ensures AllPrintable(SchemaPieces(f, timestamp))
    ensures Render(SchemaPieces(f, timestamp)) == "{" + PrintMembers(SchemaMembers(f, timestamp), true)
  {
    HeaderLabels();
    OnePiece(Char('{'));
    OnePiece(Fmt(StampText(f, timestamp)));
    TextField("\"schemaID\":", SCHEMA_ID);
    TextField(",\"companyID\":", COMPANY_ID);
    assert Render([Fmt(StampText(f, timestamp))]) == ",\"timestamp\":" + Print(UnsignedValue(f, timestamp));
    assert PrintMembers([], true) == "";
    hide Render, AllPrintable, Print, Quoted, PrintMembers, Field, StampText, NumberToken;
    var m1, m2, m3 := Member("schemaID", Text(SCHEMA_ID)), Member("companyID", Text(COMPANY_ID)),
                      Member("timestamp", UnsignedValue(f, timestamp));
    var p1, p2 := Field("\"schemaID\":", SCHEMA_ID), Field(",\"companyID\":", COMPANY_ID);
    OneMoreField([Char('{')], [], p1, m1, "\"schemaID\":");
    assert [] + [m1] == [m1];
    OneMoreField([Char('{')] + p1, [m1], p2, m2, ",\"companyID\":");
    OneMoreField([Char('{')] + p1 + p2, [m1] + [m2], [Fmt(StampText(f, timestamp))], m3, ",\"timestamp\":");
  }

  /** Three more fields behind pieces that print some members. */
  lemma ThreeFields(ps: seq<Piece>, ms: seq<Member>, g1: string, v1: string, m1: Member,
      g2: string, v2: string, m2: Member, g3: string, v3: string, m3: Member)
    requires AllPrintable(ps) && Render(ps) == "{" + PrintMembers(ms, true) && ms != []
    requires g1 == "," + Quoted(m1.key) + ":" && m1.value == Text(v1)
    requires g2 == "," + Quoted(m2.key) + ":" && m2.value == Text(v2)
    requires g3 == "," + Quoted(m3.key) + ":" && m3.value == Text(v3)
    ensures var all := ps + Field(g1, v1) + Field(g2, v2) + Field(g3, v3);
      AllPrintable(all) && Render(all) == "{" + PrintMembers(ms + [m1] + [m2] + [m3], true)
  {
    hide Render, AllPrintable, Print, Quoted, PrintMembers, Field;
    TextField(g1, v1);
    TextField(g2, v2);
    TextField(g3, v3);
    OneMoreField(ps, ms, Field(g1, v1), m1, g1);
    OneMoreField(ps + Field(g1, v1), ms + [m1], Field(g2, v2), m2, g2);
    OneMoreField(ps + Field(g1, v1) + Field(g2, v2), ms + [m1] + [m2], Field(g3, v3), m3, g3);
  }

  /** The members in front of the device's own. */
  ghost function SchemaMembers(f: Formats, timestamp: nat): seq<Member>
    requires FormatsNumbers(f)
  {
    [Member("schemaID", Text(SCHEMA_ID))] + [Member("companyID", Text(COMPANY_ID))]
    + [Member("timestamp", UnsignedValue(f, timestamp))]
  }

  lemma HeaderMembers(f: Formats, timestamp: nat, deviceId: string, firmware: string)
    requires FormatsNumbers(f)
    ensures PayloadHeader(f, timestamp, deviceId, firmware)
         == SchemaMembers(f, timestamp) + [Member("device_id", Text(deviceId))]
            + [Member("firmware_version", Text(firmware))] + [Member("device_type", Text(DEVICE_TYPE))]
    ensures SchemaMembers(f, timestamp) != []
  {
    hide FormatsNumbers, UnsignedValue;
  }

  /** The device's three fields. */
  lemma DeviceFields(ps: seq<Piece>, ms: seq<Member>, deviceId: string, firmware: string)
    requires AllPrintable(ps) && Render(ps) == "{" + PrintMembers(ms, true) && ms != []
    ensures var all := ps + Field(",\"device_id\":", deviceId) + Field(",\"firmware_version\":", firmware)
        + Field(",\"device_type\":", DEVICE_TYPE);
      && AllPrintable(all)
      && Render(all) == "{" + PrintMembers(ms + [Member("device_id", Text(deviceId))]
                                           + [Member("firmware_version", Text(firmware))]
                                           + [Member("device_type", Text(DEVICE_TYPE))], true)
  {
    hide Render, AllPrintable, Print, Quoted, PrintMembers, Field;
    DeviceIdLabel();
    FirmwareLabel();
    TypeLabel();
    ThreeFields(ps, ms, ",\"device_id\":", deviceId, Member("device_id", Text(deviceId)),
                ",\"firmware_version\":", firmware, Member("firmware_version", Text(firmware)),
                ",\"device_type\":", DEVICE_TYPE, Member("device_type", Text(DEVICE_TYPE)));
  }

  lemma HeaderFields(f: Formats, timestamp: nat, deviceId: string, firmware: string)
    requires FormatsNumbers(f)
    ensures var ps := SchemaPieces(f, timestamp) + Field(",\"device_id\":", deviceId)
        + Field(",\"firmware_version\":", firmware) + Field(",\"device_type\":", DEVICE_TYPE);
      && AllPrintable(ps)
      && Render(ps) == "{" + PrintMembers(PayloadHeader(f, timestamp, deviceId, firmware), true)
  {
    hide Render, AllPrintable, Print, Quoted, PrintMembers, Field, SchemaPieces, SchemaMembers, PayloadHeader,
      FormatsNumbers;
    HeaderFirst(f, timestamp);
    HeaderMembers(f, timestamp, deviceId, firmware);
    DeviceFields(SchemaPieces(f, timestamp), SchemaMembers(f, timestamp), deviceId, firmware);
  }

  lemma HeaderIsPrinted(f: Formats, timestamp: nat, deviceId: string, firmware: string)
    requires FormatsNumbers(f)
    ensures AllPrintable(HeaderPieces(f, timestamp, deviceId, firmware))
    ensures Render(HeaderPieces(f, timestamp, deviceId, firmware))
         == "{" + PrintMembers(PayloadHeader(f, timestamp, deviceId, firmware), true) + ",\"measurements\":["
  {
    HeaderFields(f, timestamp, deviceId, firmware);
    OnePiece(Raw(",\"measurements\":["));
    HeaderPiecesAre(f, timestamp, deviceId, firmware);
    hide Render, AllPrintable, HeaderPieces, SchemaPieces, PrintMembers, PayloadHeader, Field, FormatsNumbers;
    Joined(SchemaPieces(f, timestamp) + Field(",\"device_id\":", deviceId) + Field(",\"firmware_version\":", firmware)
           + Field(",\"device_type\":", DEVICE_TYPE), [Raw(",\"measurements\":[")]);
  }

  lemma HeaderPiecesAre(f: Formats, timestamp: nat, deviceId: string, firmware: string)
    ensures HeaderPieces(f, timestamp, deviceId, firmware)
         == SchemaPieces(f, timestamp) + Field(",\"device_id\":", deviceId) + Field(",\"firmware_version\":", firmware)
            + Field(",\"device_type\":", DEVICE_TYPE) + [Raw(",\"measurements\":[")]
  {
    hide Field, StampText;
  }

  /** The text of the value of a payload. */
  lemma PayloadText(f: Formats, timestamp: nat, deviceId: string, firmware: string, ms: seq<Measurement>)
    requires FormatsNumbers(f)
    ensures Print(PayloadValue(f, timestamp, deviceId, firmware, ms))
         == "{" + PrintMembers(PayloadHeader(f, timestamp, deviceId, firmware), true)
            + ",\"measurements\":" + ("[" + PrintItems(MeasurementValues(f, ms), true) + "]") + "}"
  {
    MeasurementsLabel();
    HeaderHasMembers(f, timestamp, deviceId, firmware);
    var header := PayloadHeader(f, timestamp, deviceId, firmware);
    var items := MeasurementValues(f, ms);
    var last := Member("measurements", Array(items));
    ObjectText(header + [last]);
    assert Print(last.value) == "[" + PrintItems(items, true) + "]";
    hide Print, Quoted, PrintMembers, PrintItems, PayloadHeader, MeasurementValues, FormatsNumbers;
    OneMoreMember("{" + PrintMembers(header, true), header, last, ",\"measurements\":", Print(last.value));
  }

  /** The document is the canonical text of the payload's value. */
  lemma DocumentIsPrinted(f: Formats, timestamp: nat, deviceId: string, firmware: string, ms: seq<Measurement>)
    requires FormatsNumbers(f)
    ensures Document(f, timestamp, deviceId, firmware, ms)
         == Some(Print(PayloadValue(f, timestamp, deviceId, firmware, ms)))
  {
    HeaderIsPrinted(f, timestamp, deviceId, firmware);
    BodyIsPrinted(f, ms);
    OnePiece(Raw("]}"));
    PayloadText(f, timestamp, deviceId, firmware, ms);
    hide Render, AllPrintable, Print, PrintMembers, HeaderPieces, BodyPieces, PrintItems, PayloadHeader, PayloadValue,
      MeasurementValues, FormatsNumbers;
    var h, b := HeaderPieces(f, timestamp, deviceId, firmware), BodyPieces(f, ms);
    Joined(h, b);
    Joined(h + b, [Raw("]}")]);
    DocumentRegroup("{" + PrintMembers(PayloadHeader(f, timestamp, deviceId, firmware), true), ",\"measurements\":",
                    PrintItems(MeasurementValues(f, ms), true));
  }

  lemma HeaderHasMembers(f: Formats, timestamp: nat, deviceId: string, firmware: string)
    requires FormatsNumbers(f)
    ensures PayloadHeader(f, timestamp, deviceId, firmware) != []
  {
  }

  lemma DocumentRegroup(header: string, tag: string, items: string)
    requires tag == ",\"measurements\":"
    ensures header + ",\"measurements\":[" + items + "]}" == header + tag + ("[" + items + "]") + "}"
  {
    assert ",\"measurements\":[" == tag + "[";
  }

  lemma PayloadIsWellFormed(f: Formats, timestamp: nat, deviceId: string, firmware: string, ms: seq<Measurement>)
    requires FormatsNumbers(f)
    ensures WellFormed(PayloadValue(f, timestamp, deviceId, firmware, ms))
  {
    hide NumberToken;
    forall k | 0 <= k < |ms|
      ensures WellFormed(MeasurementValues(f, ms)[k])
    {
      MeasurementIsWellFormed(f, ms[k]);
    }
    assert WellFormed(Array(MeasurementValues(f, ms)));
  }

  lemma MeasurementIsWellFormed(f: Formats, m: Measurement)
    requires FormatsNumbers(f)
    ensures WellFormed(MeasurementValue(f, m))
  {
    hide NumberToken;
  }

  /**
   What the server reads: the uploaded text is one JSON object, and it holds exactly the
   fields of the payload under their names, whatever characters the strings contain.
  */
  lemma PayloadReadsBack(f: Formats, timestamp: nat, deviceId: string, firmware: string, ms: seq<Measurement>)
    requires FormatsNumbers(f)
    ensures var text := Document(f, timestamp, deviceId, firmware, ms);
      text.Some? && ReadValue(text.value) == Some((PayloadValue(f, timestamp, deviceId, firmware, ms), ""))
  {
    DocumentIsPrinted(f, timestamp, deviceId, firmware, ms);
    PayloadIsWellFormed(f, timestamp, deviceId, firmware, ms);
    hide Document, Print, ReadValue, PayloadValue, WellFormed;
    var j := PayloadValue(f, timestamp, deviceId, firmware, ms);
    ValueRoundTrip(j, "");
    assert Print(j) + "" == Print(j);
  }
}
