/**
 The upload payload: a printer that writes into a buffer of fixed size and gives up when
 it is full, and a separately written estimator of the size it needs.
*/
module JsonPayload {

  import opened Wrappers
  import opened JsonText

  const ALLOC_GUARD: nat := 512
  const MAX_BYTES: nat := 262144
  const COMPANY_ID := "UNICAM"
  const SCHEMA_ID := "schemaUNICAM"
  const DEVICE_TYPE := "UPM209"

  /** One aggregated measurement; a missing unit or description prints as an empty string. */
  datatype Measurement = Measurement(
    numReg: nat, value: real, word: nat, min: real, max: real, unit: string, description: string)

  /** The printf conversions, as arbitrary functions; None is a failed conversion. */
  datatype Formats = Formats(unsigned: nat -> Option<string>, general: real -> Option<string>)

  function Join(a: Option<string>, b: Option<string>): Option<string> {
    if a.Some? && b.Some? then Some(a.value + b.value) else None
  }

  /** The formatted text of the timestamp field. */
  function StampText(f: Formats, timestamp: nat): (t: Option<string>)
    ensures t.Some? ==> t.value != ""
  {
    Join(Some(",\"timestamp\":"), f.unsigned(timestamp))
  }

  /** One more converted value behind its label. */
  function Labelled(text: Option<string>, tag: string, value: Option<string>): Option<string> {
    Join(Join(text, Some(tag)), value)
  }

  /** The formatted text in front of a measurement's unit. */
  function HeadText(f: Formats, m: Measurement): (t: Option<string>)
    ensures t.Some? ==> t.value != ""
  {
    var numReg := Labelled(Some(""), "{\"num_reg\":", f.unsigned(m.numReg));
    var avg := Labelled(numReg, ",\"avg\":", f.general(m.value));
    var word := Labelled(avg, ",\"word\":", f.unsigned(m.word));
    var min := Labelled(word, ",\"min\":", f.general(m.min));
    var max := Labelled(min, ",\"max\":", f.general(m.max));
    Join(max, Some(",\"unit\":"))
  }

  // ---------------------------------------------------------------- the document

  /** The four ways text is appended to the buffer. */
  datatype Piece = Char(c: char) | Raw(src: string) | Fmt(out: Option<string>) | Str(value: string)
  {
    predicate Printable() {
      (Fmt? ==> out.Some? && out.value != "") && (Raw? ==> src != "")
    }

    function Text(): (t: string)
      requires Printable()
      ensures t != ""
    {
      match this
      case Char(c) => [c]
      case Raw(src) => src
      case Fmt(out) => out.value
      case Str(value) => Quoted(value)
    }

    /** A raw append insists on one byte more than it writes. */
    function Slack(): nat {
      if Raw? then 1 else 0
    }
  }

  function Field(key: string, value: string): seq<Piece> {
    [Raw(key), Str(value)]
  }

  function HeaderPieces(f: Formats, timestamp: nat, deviceId: string, firmware: string): seq<Piece> {
    [Char('{')]
    + Field("\"schemaID\":", SCHEMA_ID)
    + Field(",\"companyID\":", COMPANY_ID)
    + [Fmt(StampText(f, timestamp))]
    + Field(",\"device_id\":", deviceId)
    + Field(",\"firmware_version\":", firmware)
    + Field(",\"device_type\":", DEVICE_TYPE)
    + [Raw(",\"measurements\":[")]
  }

  function MeasurementPieces(f: Formats, m: Measurement, first: bool): seq<Piece> {
    (if first then [] else [Char(',')])
    + [Fmt(HeadText(f, m))] + [Str(m.unit)] + Field(",\"description\":", m.description) + [Char('}')]
  }

  function BodyPieces(f: Formats, ms: seq<Measurement>): seq<Piece> {
    if ms == [] then []
    else BodyPieces(f, ms[..|ms| - 1]) + MeasurementPieces(f, ms[|ms| - 1], |ms| == 1)
  }

  function DocumentPieces(f: Formats, timestamp: nat, deviceId: string, firmware: string, ms: seq<Measurement>)
    : seq<Piece>
  {
    HeaderPieces(f, timestamp, deviceId, firmware) + BodyPieces(f, ms) + [Raw("]}")]
  }

  predicate AllPrintable(ps: seq<Piece>) {
    forall i :: 0 <= i < |ps| ==> ps[i].Printable()
  }

  /** The text of a sequence of pieces. */
  function Render(ps: seq<Piece>): string
    requires AllPrintable(ps)
  {
    if ps == [] then "" else Render(ps[..|ps| - 1]) + ps[|ps| - 1].Text()
  }

  lemma {:induction false} RenderJoin(a: seq<Piece>, b: seq<Piece>)
    requires AllPrintable(a) && AllPrintable(b)
    ensures AllPrintable(a + b) && Render(a + b) == Render(a) + Render(b)
  {
    hide Piece.Printable, Piece.Text;
    if b == [] {
      assert a + b == a;
    } else {
      var n := |b| - 1;
      assert (a + b)[..|a + b| - 1] == a + b[..n];
      RenderJoin(a, b[..n]);
    }
  }

  // ---------------------------------------------------------------- the buffer

  /** A write cursor into the output buffer. */
  class Cursor {

    const buf: array<char>
    var pos: nat
    var remaining: nat

    ghost predicate Valid()
      reads this
    {
      pos + remaining == buf.Length && 1 <= remaining
    }

    ghost function Text(): string
      requires Valid()
      reads this, buf
    {
      buf[..pos]
    }

    constructor (buf: array<char>)
      requires 0 < buf.Length
      modifies buf
      ensures Valid() && this.buf == buf && Text() == "" && remaining == buf.Length
    {
      this.buf := buf;
      pos, remaining := 0, buf.Length;
      new;
      buf[0] := '\0';
    }

    method AppendChar(c: char) returns (ok: bool)
      requires Valid()
      modifies this`pos, this`remaining, buf
      ensures Valid() && ok == (1 < old(remaining))
      ensures Text() == (if ok then old(Text()) + [c] else old(Text()))
      ensures ok ==> buf[pos] == '\0'
    {
      if remaining <= 1 {
        return false;
      }
      buf[pos] := c;
      pos := pos + 1;
      buf[pos] := '\0';
      remaining := remaining - 1;
      return true;
    }

    method AppendRaw(src: string) returns (ok: bool)
      requires Valid()
      modifies this`pos, this`remaining, buf
      ensures Valid() && ok == (|src| + 1 < old(remaining))
      ensures Text() == (if ok then old(Text()) + src else old(Text()))
      ensures ok ==> buf[pos] == '\0'
    {
      if remaining <= |src| + 1 {
        return false;
      }
      forall k | 0 <= k < |src| {
        buf[pos + k] := src[k];
      }
      pos := pos + |src|;
      buf[pos] := '\0';
      remaining := remaining - |src|;
      return true;
    }

    /** A formatted append; one that does not fit leaves a truncated text behind the cursor. */
    method AppendFmt(out: Option<string>) returns (ok: bool)
      requires Valid()
      modifies this`pos, this`remaining, buf
      ensures Valid() && ok == (out.Some? && |out.value| < old(remaining))
      ensures Text() == (if ok then old(Text()) + out.value else old(Text()))
      ensures ok ==> buf[pos] == '\0'
    {
      if out.None? {
        return false;
      }
      var written := out.value;
      var stored := if |written| >= remaining then remaining - 1 else |written|;
      forall k | 0 <= k < stored {
        buf[pos + k] := written[k];
      }
      buf[pos + stored] := '\0';
      if |written| >= remaining {
        return false;
      }
      pos := pos + |written|;
      remaining := remaining - |written|;
      return true;
    }

    /** One character of a string, escaped as it needs. */
    method AppendEscapedChar(ch: char) returns (ok: bool)
      requires Valid()
      modifies this`pos, this`remaining, buf
      ensures Valid()
      ensures ok ==> Text() == old(Text()) + Escaped(ch) && |Escaped(ch)| < old(remaining)
      ensures !ok ==> old(remaining) <= |Escaped(ch)| + 1
      ensures ok ==> buf[pos] == '\0'
    {
      if ch == '\"' || ch == '\\' || ch == BACKSPACE || ch == FORM_FEED || ch == '\n' || ch == '\r' || ch == '\t' {
        ok := AppendRaw(Escaped(ch));
      } else if ch as int < 0x20 {
        ok := AppendFmt(Some(Escaped(ch)));
      } else {
        ok := AppendChar(ch);
      }
    }

    /** A string in quotes fits exactly when its escaped length does. */
    method AppendEscapedString(value: string) returns (ok: bool)
      requires Valid()
      modifies this`pos, this`remaining, buf
      ensures Valid() && ok == (|Quoted(value)| < old(remaining))
      ensures ok ==> Text() == old(Text()) + Quoted(value) && buf[pos] == '\0'
    {
      hide Escaped, EscapedAll;
      EscapedPrefix(value, 0);
      EscapedPrefix(value, |value|);
      ok := AppendChar('\"');
      if !ok {
        return;
      }
      for i := 0 to |value|
        invariant Valid()
        invariant Text() == old(Text()) + ("\"" + EscapedAll(value[..i]))
        invariant remaining == old(remaining) - 1 - |EscapedAll(value[..i])|
      {
        EscapedPrefix(value, i);
        ok := AppendEscapedChar(value[i]);
        if !ok {
          return;
        }
      }
      ok := AppendChar('\"');
    }

    method AppendPiece(p: Piece) returns (ok: bool)
      requires Valid()
      modifies this`pos, this`remaining, buf
      ensures Valid()
      ensures p.Printable() ==> ok == (|p.Text()| + p.Slack() < old(remaining))
      ensures ok && p.Printable() ==> Text() == old(Text()) + p.Text() && buf[pos] == '\0'
      ensures p.Fmt? && p.out.None? ==> !ok
    {
      hide Quoted;
      match p
      case Char(c) => ok := AppendChar(c);
      case Raw(src) => ok := AppendRaw(src);
      case Fmt(out) => ok := AppendFmt(out);
      case Str(value) => ok := AppendEscapedString(value);
    }

    /** Appends pieces until one does not fit. */
    method Emit(ps: seq<Piece>) returns (ok: bool)
      requires Valid() && forall i :: 0 <= i < |ps| && !ps[i].Printable() ==> ps[i].Fmt? && ps[i].out.None?
      modifies this`pos, this`remaining, buf
      ensures Valid()
      ensures ok <==> AllPrintable(ps) && FitsIn(old(remaining), ps)
      ensures ok ==> Text() == old(Text()) + Render(ps) && remaining == old(remaining) - |Render(ps)|
      ensures ok && ps != [] ==> buf[pos] == '\0'
    {
      hide Piece.Text, Piece.Slack;
      for i := 0 to |ps|
        invariant Valid() && AllPrintable(ps[..i]) && FitsIn(old(remaining), ps[..i])
        invariant Text() == old(Text()) + Render(ps[..i])
        invariant remaining == old(remaining) - |Render(ps[..i])|
        invariant 0 < i ==> buf[pos] == '\0'
      {
        assert ps[..i + 1][..i] == ps[..i];
        ok := AppendPiece(ps[i]);
        if AllPrintable(ps) {
          FitsPrefix(old(remaining), ps, i + 1);
        }
        if !ok {
          return;
        }
      }
      assert ps[..|ps|] == ps;
      ok := true;
    }
  }

  // ---------------------------------------------------------------- what fits

  /** Every piece in turn finds the room its append insists on. */
  predicate FitsIn(room: nat, ps: seq<Piece>)
    requires AllPrintable(ps)
  {
    ps == [] ||
    var init, last := ps[..|ps| - 1], ps[|ps| - 1];
    FitsIn(room, init) && |Render(init)| + |last.Text()| + last.Slack() < room
  }

  lemma {:induction false} FitsPrefix(room: nat, ps: seq<Piece>, n: nat)
    requires AllPrintable(ps) && n <= |ps|
    ensures FitsIn(room, ps) ==> FitsIn(room, ps[..n])
    decreases |ps|
  {
    hide Piece.Text, Piece.Slack, Render;
    if n < |ps| {
      FitsPrefix(room, ps[..|ps| - 1], n);
      assert ps[..|ps| - 1][..n] == ps[..n];
    } else {
      assert ps[..n] == ps;
    }
  }

  /** Only the last piece decides: no earlier append can be the one that fails. */
  lemma {:induction false} FitsByLength(room: nat, ps: seq<Piece>)
    requires AllPrintable(ps) && ps != []
    ensures FitsIn(room, ps) <==> |Render(ps)| + ps[|ps| - 1].Slack() < room
  {
    var init := ps[..|ps| - 1];
    if init != [] {
      FitsByLength(room, init);
    }
  }

  /** Escaping a prefix of a string never takes more than escaping all of it. */
  lemma EscapedPrefix(s: string, i: nat)
    requires i <= |s|
    ensures |EscapedAll(s[..i])| <= |EscapedAll(s)|
    ensures i < |s| ==>
      && EscapedAll(s[..i + 1]) == EscapedAll(s[..i]) + Escaped(s[i])
      && |EscapedAll(s[..i])| + |Escaped(s[i])| <= |EscapedAll(s)|
    ensures i == 0 ==> EscapedAll(s[..i]) == ""
    ensures i == |s| ==> s[..i] == s
  {
    hide Escaped;
    EscapedLengths(s, i);
    if i < |s| {
      assert s[..i + 1][..i] == s[..i];
    }
  }

  lemma {:induction false} EscapedLengths(s: string, i: nat)
    requires i <= |s|
    ensures |EscapedAll(s[..i])| <= |EscapedAll(s)|
    ensures i < |s| ==> |EscapedAll(s[..i])| + |Escaped(s[i])| <= |EscapedAll(s)|
    decreases |s|
  {
    hide Escaped;
    if i < |s| {
      var n := |s| - 1;
      EscapedLengths(s[..n], i);
      assert s[..n][..i] == s[..i];
    } else {
      assert s[..i] == s;
    }
  }

  lemma {:induction false} FitsJoin(room: nat, a: seq<Piece>, b: seq<Piece>)
    requires AllPrintable(a) && AllPrintable(b) && |Render(a)| <= room
    ensures AllPrintable(a + b)
    ensures FitsIn(room, a + b) <==> FitsIn(room, a) && FitsIn(room - |Render(a)|, b)
    decreases |b|
  {
    hide Piece.Text, Piece.Slack, Piece.Printable;
    RenderJoin(a, b);
    if b == [] {
      assert a + b == a;
    } else {
      var n := |b| - 1;
      assert (a + b)[..|a + b| - 1] == a + b[..n];
      RenderJoin(a, b[..n]);
      FitsJoin(room, a, b[..n]);
    }
  }

  lemma {:induction false} FitsWithinRoom(room: nat, ps: seq<Piece>)
    requires AllPrintable(ps) && FitsIn(room, ps)
    ensures |Render(ps)| <= room
  {
  }

  // ---------------------------------------------------------------- printing

  /** The text of the whole document, unless a conversion fails. */
  function Document(f: Formats, timestamp: nat, deviceId: string, firmware: string, ms: seq<Measurement>)
    : Option<string>
  {
    var ps := DocumentPieces(f, timestamp, deviceId, firmware, ms);
    if AllPrintable(ps) then Some(Render(ps)) else None
  }

  /** Every conversion of the document succeeds. */
  predicate Formattable(f: Formats, timestamp: nat, ms: seq<Measurement>) {
    StampText(f, timestamp).Some? && forall i :: 0 <= i < |ms| ==> HeadText(f, ms[i]).Some?
  }

  lemma HeaderPrintable(f: Formats, timestamp: nat, deviceId: string, firmware: string)
    ensures AllPrintable(HeaderPieces(f, timestamp, deviceId, firmware)) <==> StampText(f, timestamp).Some?
  {
    hide StampText;
    var ps := HeaderPieces(f, timestamp, deviceId, firmware);
    assert ps[5] == Fmt(StampText(f, timestamp));
  }

  lemma MeasurementPrintable(f: Formats, m: Measurement, first: bool)
    ensures AllPrintable(MeasurementPieces(f, m, first)) <==> HeadText(f, m).Some?
  {
    hide HeadText;
    var ps := MeasurementPieces(f, m, first);
    assert ps[if first then 0 else 1] == Fmt(HeadText(f, m));
  }

  lemma PrintableJoin(a: seq<Piece>, b: seq<Piece>)
    ensures AllPrintable(a + b) <==> AllPrintable(a) && AllPrintable(b)
  {
    hide Piece.Printable;
    if AllPrintable(a + b) {
      assert forall i :: 0 <= i < |a| ==> (a + b)[i] == a[i];
      assert forall i :: 0 <= i < |b| ==> (a + b)[|a| + i] == b[i];
    }
  }

  lemma {:induction false} BodyPrintable(f: Formats, ms: seq<Measurement>)
    ensures AllPrintable(BodyPieces(f, ms)) <==> forall i :: 0 <= i < |ms| ==> HeadText(f, ms[i]).Some?
  {
    hide HeadText, AllPrintable;
    if ms != [] {
      var n := |ms| - 1;
      BodyPrintable(f, ms[..n]);
      MeasurementPrintable(f, ms[n], n == 0);
      PrintableJoin(BodyPieces(f, ms[..n]), MeasurementPieces(f, ms[n], n == 0));
    } else {
      NoPieces();
    }
  }

  lemma NoPieces()
    ensures AllPrintable([]) && Render([]) == "" && forall room: nat :: FitsIn(room, [])
  {
  }

  lemma DocumentPrintable(f: Formats, timestamp: nat, deviceId: string, firmware: string, ms: seq<Measurement>)
    ensures Document(f, timestamp, deviceId, firmware, ms).Some? <==> Formattable(f, timestamp, ms)
  {
    hide HeadText, StampText, HeaderPieces, BodyPieces;
    var h, b := HeaderPieces(f, timestamp, deviceId, firmware), BodyPieces(f, ms);
    HeaderPrintable(f, timestamp, deviceId, firmware);
    BodyPrintable(f, ms);
    PrintableJoin(h, b);
    PrintableJoin(h + b, [Raw("]}")]);
    assert AllPrintable([Raw("]}")]);
  }

  /** The measurement objects, one after the other. */
  method EmitMeasurements(w: Cursor, f: Formats, ms: seq<Measurement>) returns (ok: bool)
    requires w.Valid()
    modifies w`pos, w`remaining, w.buf
    ensures w.Valid()
    ensures ok <==> AllPrintable(BodyPieces(f, ms)) && FitsIn(old(w.remaining), BodyPieces(f, ms))
    ensures ok ==> w.Text() == old(w.Text()) + Render(BodyPieces(f, ms))
    ensures ok ==> w.remaining == old(w.remaining) - |Render(BodyPieces(f, ms))|
  {
    hide HeadText, FitsIn, Render, MeasurementPieces, AllPrintable;
    NoPieces();
    for i := 0 to |ms|
      invariant w.Valid()
      invariant AllPrintable(BodyPieces(f, ms[..i])) && FitsIn(old(w.remaining), BodyPieces(f, ms[..i]))
      invariant w.Text() == old(w.Text()) + Render(BodyPieces(f, ms[..i]))
      invariant w.remaining == old(w.remaining) - |Render(BodyPieces(f, ms[..i]))|
    {
      ghost var done, part := BodyPieces(f, ms[..i]), MeasurementPieces(f, ms[i], i == 0);
      MeasurementOnlyFmtFails(f, ms[i], i == 0);
      ok := w.Emit(MeasurementPieces(f, ms[i], i == 0));
      BodyStep(f, ms, i);
      PrintableJoin(done, part);
      if AllPrintable(part) {
        FitsJoin(old(w.remaining), done, part);
        RenderJoin(done, part);
      }
      if !ok {
        BodyPrefixFits(f, ms, i + 1, old(w.remaining));
        return;
      }
    }
    assert ms[..|ms|] == ms;
    ok := true;
  }

  /**
   The printer.  It succeeds exactly when there is a measurement, every conversion works and
   the buffer has two bytes more than the text; then the text is the document.
  */
  method BuildJsonPayload(f: Formats, timestamp: nat, deviceId: string, firmware: string, ms: seq<Measurement>,
      buf: array<char>)
    returns (ok: bool)
    modifies buf
    ensures var text := Document(f, timestamp, deviceId, firmware, ms);
      && (ok <==> ms != [] && text.Some? && |text.value| + 1 < buf.Length)
      && (ok ==> buf[..|text.value|] == text.value && buf[|text.value|] == '\0')
  {
    hide HeaderPieces, FitsIn, Render, BodyPieces, AllPrintable;
    if ms == [] || buf.Length == 0 {
      return false;
    }
    ghost var h, b, e := HeaderPieces(f, timestamp, deviceId, firmware), BodyPieces(f, ms), [Raw("]}")];
    DocumentFits(buf.Length, h, b, e);
    var w := new Cursor(buf);
    HeaderOnlyFmtFails(f, timestamp, deviceId, firmware);
    ok := w.Emit(HeaderPieces(f, timestamp, deviceId, firmware));
    if !ok {
      return;
    }
    ok := EmitMeasurements(w, f, ms);
    if !ok {
      return;
    }
    ok := w.Emit([Raw("]}")]);
  }

  /** The three parts of a document fit one after the other exactly when their lengths, and one byte more, do. */
  lemma DocumentFits(room: nat, h: seq<Piece>, b: seq<Piece>, e: seq<Piece>)
    requires e == [Raw("]}")]
    ensures AllPrintable(e)
    ensures AllPrintable(h + b + e) <==> AllPrintable(h) && AllPrintable(b)
    ensures AllPrintable(h) && FitsIn(room, h) ==> |Render(h)| <= room
    ensures AllPrintable(h) && FitsIn(room, h) && AllPrintable(b) && FitsIn(room - |Render(h)|, b) ==>
      |Render(h)| + |Render(b)| <= room
    ensures AllPrintable(h) && AllPrintable(b) ==>
      && Render(h + b + e) == Render(h) + Render(b) + Render(e)
      && (|Render(h + b + e)| + 1 < room <==>
          FitsIn(room, h) && FitsIn(room - |Render(h)|, b) && FitsIn(room - |Render(h)| - |Render(b)|, e))
  {
    assert AllPrintable(e);
    PrintableJoin(h + b, e);
    PrintableJoin(h, b);
    hide Piece.Printable, Piece.Text, AllPrintable, Render, FitsIn;
    if AllPrintable(h) && FitsIn(room, h) {
      FitsWithinRoom(room, h);
      if AllPrintable(b) && FitsIn(room - |Render(h)|, b) {
        FitsWithinRoom(room - |Render(h)|, b);
      }
    }
    if AllPrintable(h) && AllPrintable(b) {
      RenderJoin(h, b);
      RenderJoin(h + b, e);
      FitsByLength(room, h + b + e);
      if |Render(h)| + |Render(b)| <= room {
        FitsJoin(room, h, b);
        FitsJoin(room, h + b, e);
      }
    }
  }

  lemma HeaderOnlyFmtFails(f: Formats, timestamp: nat, deviceId: string, firmware: string)
    ensures var ps := HeaderPieces(f, timestamp, deviceId, firmware);
      forall i :: 0 <= i < |ps| && !ps[i].Printable() ==> ps[i].Fmt? && ps[i].out.None?
  {
  }

  lemma MeasurementOnlyFmtFails(f: Formats, m: Measurement, first: bool)
    ensures var ps := MeasurementPieces(f, m, first);
      forall i :: 0 <= i < |ps| && !ps[i].Printable() ==> ps[i].Fmt? && ps[i].out.None?
  {
  }

  lemma BodyStep(f: Formats, ms: seq<Measurement>, i: nat)
    requires i < |ms|
    ensures BodyPieces(f, ms[..i + 1]) == BodyPieces(f, ms[..i]) + MeasurementPieces(f, ms[i], i == 0)
  {
    assert ms[..i + 1][..i] == ms[..i];
  }

  /** When the first measurements do not fit, all of them do not. */
  lemma {:induction false} BodyPrefixFits(f: Formats, ms: seq<Measurement>, i: nat, room: nat)
    requires i <= |ms|
    ensures AllPrintable(BodyPieces(f, ms)) && FitsIn(room, BodyPieces(f, ms)) ==>
      AllPrintable(BodyPieces(f, ms[..i])) && FitsIn(room, BodyPieces(f, ms[..i]))
    decreases |ms| - i
  {
    hide BodyPieces, FitsIn, AllPrintable, MeasurementPieces;
    if i == |ms| {
      assert ms[..i] == ms;
    } else {
      BodyPrefixFits(f, ms, i + 1, room);
      BodyStep(f, ms, i);
      var a, b := BodyPieces(f, ms[..i]), MeasurementPieces(f, ms[i], i == 0);
      PrintableJoin(a, b);
      if AllPrintable(a + b) && FitsIn(room, a + b) {
        FitsPrefix(room, a + b, |a|);
        assert (a + b)[..|a|] == a;
      }
    }
  }

  // ---------------------------------------------------------------- the estimate

  method EscapedLen(value: string) returns (len: nat)
    ensures len == |EscapedAll(value)|
  {
    len := 0;
    for i := 0 to |value|
      invariant len == |EscapedAll(value[..i])|
    {
      assert value[..i + 1][..i] == value[..i];
      var ch := value[i];
      if ch == '\"' || ch == '\\' || ch == BACKSPACE || ch == FORM_FEED || ch == '\n' || ch == '\r' || ch == '\t' {
        len := len + 2;
      } else if ch as int < 0x20 {
        len := len + 6;
      } else {
        len := len + 1;
      }
    }
    assert value[..|value|] == value;
  }

  /** The length of one measurement object, without a comma; 0 when a conversion fails. */
  method MeasurementLen(f: Formats, m: Measurement) returns (len: nat)
    ensures len == match HeadText(f, m)
                   case Some(head) => |head| + |Quoted(m.unit)| + 15 + |Quoted(m.description)| + 1
                   case None => 0
  {
    hide HeadText;
    var fixed := HeadText(f, m);
    if fixed.None? {
      return 0;
    }
    len := |fixed.value|;
    var unitLen := EscapedLen(m.unit);
    len := len + 2 + unitLen;
    len := len + 15;
    var descriptionLen := EscapedLen(m.description);
    len := len + 2 + descriptionLen;
    len := len + 1;
  }

  /** The length of everything in front of the measurements; 0 when the timestamp cannot be formatted. */
  method HeaderLen(f: Formats, timestamp: nat, deviceId: string, firmware: string) returns (len: nat)
    ensures len == match StampText(f, timestamp)
                   case Some(stamp) => HeaderLength(stamp, deviceId, firmware)
                   case None => 0
  {
    hide StampText, EscapedAll;
    len := 1;
    var part := EscapedLen(SCHEMA_ID);
    len := len + 11 + 2 + part;
    part := EscapedLen(COMPANY_ID);
    len := len + 13 + 2 + part;
    var stamp := StampText(f, timestamp);
    if stamp.None? {
      return 0;
    }
    len := len + |stamp.value|;
    part := EscapedLen(deviceId);
    len := len + 13 + 2 + part;
    part := EscapedLen(firmware);
    len := len + 20 + 2 + part;
    part := EscapedLen(DEVICE_TYPE);
    len := len + 15 + 2 + part;
    len := len + 17;
  }

  /** The estimator: exactly the document's length and a terminator, or 0 when a conversion fails. */
  method EstimateJsonLen(f: Formats, timestamp: nat, deviceId: string, firmware: string, ms: seq<Measurement>)
    returns (len: nat)
    ensures len == match Document(f, timestamp, deviceId, firmware, ms)
                   case Some(text) => |text| + 1
                   case None => 0
  {
    hide HeadText, StampText, Document, Quoted, HeaderLength;
    DocumentPrintable(f, timestamp, deviceId, firmware, ms);
    len := HeaderLen(f, timestamp, deviceId, firmware);
    if len == 0 {
      HeaderIsNotEmpty(f, timestamp, deviceId, firmware);
      return 0;
    }
    ghost var header := len;
    for i := 0 to |ms|
      invariant forall k :: 0 <= k < i ==> HeadText(f, ms[k]).Some?
      invariant len == header + BodyLength(f, ms[..i])
    {
      assert ms[..i + 1][..i] == ms[..i];
      if i > 0 {
        len := len + 1;
      }
      var ml := MeasurementLen(f, ms[i]);
      if ml == 0 {
        return 0;
      }
      len := len + ml;
    }
    assert ms[..|ms|] == ms;
    DocumentLength(f, timestamp, deviceId, firmware, ms);
    len := len + 2;
    len := len + 1;
  }

  lemma HeaderIsNotEmpty(f: Formats, timestamp: nat, deviceId: string, firmware: string)
    ensures StampText(f, timestamp).Some? ==> HeaderLength(StampText(f, timestamp).value, deviceId, firmware) != 0
  {
  }

  function HeaderLength(stamp: string, deviceId: string, firmware: string): nat {
    1 + 11 + |Quoted(SCHEMA_ID)| + 13 + |Quoted(COMPANY_ID)| + |stamp| + 13 + |Quoted(deviceId)|
    + 20 + |Quoted(firmware)| + 15 + |Quoted(DEVICE_TYPE)| + 17
  }

  function BodyLength(f: Formats, ms: seq<Measurement>): nat
    requires forall i :: 0 <= i < |ms| ==> HeadText(f, ms[i]).Some?
  {
    if ms == [] then 0
    else
      var m := ms[|ms| - 1];
      BodyLength(f, ms[..|ms| - 1]) + (if |ms| == 1 then 0 else 1)
      + |HeadText(f, m).value| + |Quoted(m.unit)| + 15 + |Quoted(m.description)| + 1
  }

  lemma OnePiece(p: Piece)
    requires p.Printable()
    ensures AllPrintable([p]) && Render([p]) == p.Text()
  {
    assert [p][..0] == [];
  }

  lemma FieldLength(key: string, value: string)
    requires key != ""
    ensures AllPrintable(Field(key, value)) && Render(Field(key, value)) == key + Quoted(value)
  {
    OnePiece(Raw(key));
    OnePiece(Str(value));
    RenderJoin([Raw(key)], [Str(value)]);
    assert Field(key, value) == [Raw(key)] + [Str(value)];
  }

  lemma Joined(a: seq<Piece>, b: seq<Piece>)
    requires AllPrintable(a) && AllPrintable(b)
    ensures AllPrintable(a + b) && Render(a + b) == Render(a) + Render(b)
    ensures |Render(a + b)| == |Render(a)| + |Render(b)|
  {
    RenderJoin(a, b);
  }

  lemma HeaderRenders(f: Formats, timestamp: nat, deviceId: string, firmware: string)
    requires StampText(f, timestamp).Some?
    ensures AllPrintable(HeaderPieces(f, timestamp, deviceId, firmware))
    ensures |Render(HeaderPieces(f, timestamp, deviceId, firmware))|
         == HeaderLength(StampText(f, timestamp).value, deviceId, firmware)
  {
    hide Render, AllPrintable, Field, Quoted, StampText;
    var p0, p3, p7 := [Char('{')], [Fmt(StampText(f, timestamp))], [Raw(",\"measurements\":[")];
    OnePiece(p0[0]);
    OnePiece(p3[0]);
    OnePiece(p7[0]);
    var p1, p2 := Field("\"schemaID\":", SCHEMA_ID), Field(",\"companyID\":", COMPANY_ID);
    FieldLength("\"schemaID\":", SCHEMA_ID);
    FieldLength(",\"companyID\":", COMPANY_ID);
    var p4, p5 := Field(",\"device_id\":", deviceId), Field(",\"firmware_version\":", firmware);
    FieldLength(",\"device_id\":", deviceId);
    FieldLength(",\"firmware_version\":", firmware);
    var p6 := Field(",\"device_type\":", DEVICE_TYPE);
    FieldLength(",\"device_type\":", DEVICE_TYPE);
    Joined(p0, p1);
    Joined(p0 + p1, p2);
    Joined(p0 + p1 + p2, p3);
    Joined(p0 + p1 + p2 + p3, p4);
    Joined(p0 + p1 + p2 + p3 + p4, p5);
    Joined(p0 + p1 + p2 + p3 + p4 + p5, p6);
    Joined(p0 + p1 + p2 + p3 + p4 + p5 + p6, p7);
  }

  lemma MeasurementRenders(f: Formats, m: Measurement, first: bool)
    requires HeadText(f, m).Some?
    ensures AllPrintable(MeasurementPieces(f, m, first))
    ensures |Render(MeasurementPieces(f, m, first))|
         == (if first then 0 else 1) + |HeadText(f, m).value| + |Quoted(m.unit)| + 15 + |Quoted(m.description)| + 1
  {
    hide Quoted, HeadText;
    NoPieces();
    var comma := if first then [] else [Char(',')];
    OnePiece(Char(','));
    var key := ",\"description\":";
    assert |key| == 15;
    hide Render, AllPrintable, Field;
    OnePiece(Fmt(HeadText(f, m)));
    OnePiece(Str(m.unit));
    FieldLength(key, m.description);
    OnePiece(Char('}'));
    Joined(comma, [Fmt(HeadText(f, m))]);
    Joined(comma + [Fmt(HeadText(f, m))], [Str(m.unit)]);
    Joined(comma + [Fmt(HeadText(f, m))] + [Str(m.unit)], Field(key, m.description));
    Joined(comma + [Fmt(HeadText(f, m))] + [Str(m.unit)] + Field(key, m.description), [Char('}')]);
  }

  lemma {:induction false} BodyRenders(f: Formats, ms: seq<Measurement>)
    requires forall i :: 0 <= i < |ms| ==> HeadText(f, ms[i]).Some?
    ensures AllPrintable(BodyPieces(f, ms)) && |Render(BodyPieces(f, ms))| == BodyLength(f, ms)
  {
    hide HeadText, Render, AllPrintable, MeasurementPieces, Quoted;
    if ms == [] {
      NoPieces();
    } else {
      var n := |ms| - 1;
      BodyRenders(f, ms[..n]);
      MeasurementRenders(f, ms[n], n == 0);
      Joined(BodyPieces(f, ms[..n]), MeasurementPieces(f, ms[n], n == 0));
    }
  }

  lemma DocumentLength(f: Formats, timestamp: nat, deviceId: string, firmware: string, ms: seq<Measurement>)
    requires Formattable(f, timestamp, ms)
    ensures var text := Document(f, timestamp, deviceId, firmware, ms);
      && text.Some?
      && |text.value| == HeaderLength(StampText(f, timestamp).value, deviceId, firmware) + BodyLength(f, ms) + 2
  {
    hide HeadText, StampText, Render, AllPrintable, HeaderPieces, BodyPieces, HeaderLength, BodyLength;
    HeaderRenders(f, timestamp, deviceId, firmware);
    BodyRenders(f, ms);
    OnePiece(Raw("]}"));
    Joined(HeaderPieces(f, timestamp, deviceId, firmware), BodyPieces(f, ms));
    Joined(HeaderPieces(f, timestamp, deviceId, firmware) + BodyPieces(f, ms), [Raw("]}")]);
  }

  // ---------------------------------------------------------------- allocating and retrying

  /** The buffer size of the first attempt, and of the second when the first fails. */
  function FirstAlloc(estimate: nat): nat {
    if estimate + ALLOC_GUARD > MAX_BYTES then MAX_BYTES else estimate + ALLOC_GUARD
  }

  function SecondAlloc(alloc: nat): nat {
    if alloc * 2 > MAX_BYTES then MAX_BYTES else alloc * 2
  }

  /**
   Estimate, allocate, print, and on failure print once more into a larger buffer.  With both
   allocations granted, the payload is produced exactly when the estimate is below the limit,
   and then by the first attempt: the second one never rescues a failed first one.
  */
  method PreparePayload(f: Formats, timestamp: nat, deviceId: string, firmware: string, ms: seq<Measurement>,
      firstGranted: bool, secondGranted: bool)
    returns (payload: Option<string>, attempts: nat)
    requires ms != []
    ensures var text := Document(f, timestamp, deviceId, firmware, ms);
      && (payload.Some? ==> payload == text)
      && (payload.Some? <==> text.Some? && |text.value| + 1 < 262144 && firstGranted)
      && (payload.Some? ==> attempts == 1)
  {
    hide Document;
    attempts := 0;
    var estimate := EstimateJsonLen(f, timestamp, deviceId, firmware, ms);
    if estimate == 0 || estimate > MAX_BYTES {
      return None, attempts;
    }
    var alloc := FirstAlloc(estimate);
    if !firstGranted {
      return None, attempts;
    }
    var buf := new char[alloc];
    var ok := BuildJsonPayload(f, timestamp, deviceId, firmware, ms, buf);
    attempts := 1;
    if !ok {
      alloc := SecondAlloc(alloc);
      if !secondGranted {
        return None, attempts;
      }
      buf := new char[alloc];
      ok := BuildJsonPayload(f, timestamp, deviceId, firmware, ms, buf);
      attempts := 2;
    }
    if !ok {
      return None, attempts;
    }
    payload := Some(buf[..estimate - 1]);
  }
}
