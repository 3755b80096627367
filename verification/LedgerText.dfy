/** The ledger's text form: field escaping, printing and parsing. */
module LedgerText {
  import opened Decimal
  import opened LedgerRelations
  import opened Options

  // ---------------------------------------------------------------------
  // Escaping
  // ---------------------------------------------------------------------

  /** `str.replace` of one character by a text. */
  function Replace(s: string, c: char, t: string): string {
    if s == "" then "" else (if s[0] == c then t else [s[0]]) + Replace(s[1..], c, t)
  }

  /** `_ledger_escape`: four replacements one after the other. */
  function Escape(s: string): string {
    Replace(Replace(Replace(Replace(s, '%', "%25"), '|', "%7C"), '\n', "%0A"), '\r', "%0D")
  }

  function EscapeChar(c: char): string {
    if c == '%' then "%25" else if c == '|' then "%7C" else if c == '\n' then "%0A" else if c == '\r' then "%0D" else [c]
  }

  function EscapeEach(s: string): string {
    if s == "" then "" else EscapeChar(s[0]) + EscapeEach(s[1..])
  }

  lemma {:induction false} ReplaceConcat(s: string, u: string, c: char, t: string)
    ensures Replace(s + u, c, t) == Replace(s, c, t) + Replace(u, c, t)
  {
    if s == "" {
      assert s + u == u;
    } else {
      assert (s + u)[1..] == s[1..] + u;
      ReplaceConcat(s[1..], u, c, t);
    }
  }

  /** Escape of one character, by computation. */
  lemma EscapeOne(c: char)
    ensures Escape([c]) == EscapeChar(c)
  {
    ReplaceOne(c, '%', "%25");
    var s1 := if c == '%' then "%25" else [c];
    ReplaceThree(s1, '|', "%7C");
    var s2 := if c == '|' then "%7C" else s1;
    ReplaceThree(s2, '\n', "%0A");
    var s3 := if c == '\n' then "%0A" else s2;
    ReplaceThree(s3, '\r', "%0D");
  }

  lemma ReplaceOne(x: char, c: char, t: string)
    ensures Replace([x], c, t) == if x == c then t else [x]
  {
    assert [x][1..] == "";
  }

  lemma ReplaceThree(s: string, c: char, t: string)
    requires |s| == 1 || (|s| == 3 && s[0] != c && s[1] != c && s[2] != c)
    ensures Replace(s, c, t) == if s == [c] then t else s
  {
    if |s| == 1 {
      ReplaceOne(s[0], c, t);
      assert s == [s[0]];
    } else {
      assert s[1..][1..] == s[2..] && s[2..][1..] == "";
      assert Replace(s[2..], c, t) == [s[2]];
      assert Replace(s[1..], c, t) == [s[1]] + [s[2]];
      assert s == [s[0]] + ([s[1]] + [s[2]]);
    }
  }

  /** The four sequential replacements never touch each other's output: they
      amount to one substitution per character. */
  lemma {:induction false} EscapeIsPerCharacter(s: string)
    ensures Escape(s) == EscapeEach(s)
  {
    if s != "" {
      assert s == [s[0]] + s[1..];
      ReplaceConcat([s[0]], s[1..], '%', "%25");
      ReplaceConcat(Replace([s[0]], '%', "%25"), Replace(s[1..], '%', "%25"), '|', "%7C");
      var a, b := Replace(Replace([s[0]], '%', "%25"), '|', "%7C"), Replace(Replace(s[1..], '%', "%25"), '|', "%7C");
      ReplaceConcat(a, b, '\n', "%0A");
      ReplaceConcat(Replace(a, '\n', "%0A"), Replace(b, '\n', "%0A"), '\r', "%0D");
      EscapeOne(s[0]);
      EscapeIsPerCharacter(s[1..]);
    }
  }

  /** Text by text: a percent sign, a bar and the two line ends become a
      percent sign and the two hexadecimal digits of their code; every other
      character stays. */
  lemma EscapeCodes(c: char, s: string)
    ensures Escape("") == "" && Escape([c] + s) == Escape([c]) + Escape(s)
    ensures c !in "%|\n\r" ==> Escape([c]) == [c]
    ensures c in "%|\n\r" ==>
      Escape([c]) == ['%', "0123456789ABCDEF"[c as int / 16 % 16], "0123456789ABCDEF"[c as int % 16]]
  {
    EscapeOne(c);
    EscapeIsPerCharacter([c] + s);
    EscapeIsPerCharacter(s);
    assert ([c] + s)[1..] == s;
  }

  function EscapeCode(code: string): Option<char> {
    if code == "25" then Some('%') else if code == "7C" then Some('|')
    else if code == "0A" then Some('\n') else if code == "0D" then Some('\r') else None
  }

  /** What the decoding loop computes, before the canonicity check. */
  function Decode(v: string): Option<string> {
    if v == "" then Some("")
    else if v[0] != '%' then
      match Decode(v[1..])
      case None => None
      case Some(d) => Some([v[0]] + d)
    else if |v| < 3 || EscapeCode(v[1..3]).None? then None
    else
      match Decode(v[3..])
      case None => None
      case Some(d) => Some([EscapeCode(v[1..3]).value] + d)
  }

  lemma {:induction false} DecodeEscaped(s: string)
    ensures Decode(EscapeEach(s)) == Some(s)
  {
    if s != "" {
      DecodeEscaped(s[1..]);
      var e, rest := EscapeChar(s[0]), EscapeEach(s[1..]);
      assert s == [s[0]] + s[1..];
      if |e| == 3 {
        assert (e + rest)[0] == '%' && (e + rest)[1..3] == e[1..3] && (e + rest)[3..] == rest;
        assert e[1..3] == [e[1], e[2]];
        assert EscapeCode(e[1..3]) == Some(s[0]);
      } else {
        assert (e + rest)[1..] == rest;
      }
    }
  }

  /** The decoding loop of `_ledger_unescape`. */
  method DecodeLoop(value: string) returns (r: Option<string>)
    ensures r == Decode(value)
  {
    var result := "";
    var index := 0;
    assert value[0..] == value;
    assert Decode(value).Some? ==> "" + Decode(value).value == Decode(value).value;
    while index < |value|
      invariant index <= |value|
      invariant Decode(value) ==
        if Decode(value[index..]).None? then None else Some(result + Decode(value[index..]).value)
      decreases |value| - index
    {
      ghost var rest := value[index..];
      if value[index] != '%' {
        assert rest[1..] == value[index + 1..];
        assert forall d: string :: result + ([value[index]] + d) == (result + [value[index]]) + d;
        result := result + [value[index]];
        index := index + 1;
        continue;
      }
      if index + 2 >= |value| {
        return None;
      }
      var code := value[index + 1..index + 3];
      assert rest[1..3] == code && rest[3..] == value[index + 3..];
      var decoded := EscapeCode(code);
      if decoded.None? {
        return None;
      }
      assert forall d: string :: result + ([decoded.value] + d) == (result + [decoded.value]) + d;
      result := result + [decoded.value];
      index := index + 3;
    }
    assert result + "" == result;
    r := Some(result);
  }

  /** `_ledger_unescape`: the text decoded, if it is the escape of something. */
  method Unescape(value: string) returns (r: Option<string>)
    ensures forall d :: r == Some(d) <==> Escape(d) == value
  {
    forall d ensures Decode(Escape(d)) == Some(d) {
      EscapeIsPerCharacter(d);
      DecodeEscaped(d);
    }
    r := DecodeLoop(value);
    if r.Some? && Escape(r.value) != value {
      r := None;
    }
  }

  // ---------------------------------------------------------------------
  // Lines and fields
  // ---------------------------------------------------------------------

  /** The characters at which `str.splitlines` breaks a line. */
  predicate IsBreak(c: char) {
    c == '\n' || c == '\r' || ExtraBreak(c)
  }

  /** Those of them that the escape leaves alone. */
  predicate ExtraBreak(c: char) {
    c == '\U{0B}' || c == '\U{0C}' || c == '\U{1C}' || c == '\U{1D}' || c == '\U{1E}' ||
    c == '\U{85}' || c == '\U{2028}' || c == '\U{2029}'
  }

  /** The position of the first line break, or the length. */
  function LineEnd(s: string): (i: nat)
    ensures i <= |s| && (i < |s| ==> IsBreak(s[i]))
    ensures forall j :: 0 <= j < i ==> !IsBreak(s[j])
  {
    if s == "" || IsBreak(s[0]) then 0 else 1 + LineEnd(s[1..])
  }

  /** `str.splitlines`. */
  function SplitLines(s: string): seq<string>
    decreases |s|
  {
    if s == "" then []
    else
      var i := LineEnd(s);
      if i == |s| then [s]
      else
        var skip := if s[i] == '\r' && i + 1 < |s| && s[i + 1] == '\n' then 2 else 1;
        [s[..i]] + SplitLines(s[i + skip..])
  }

  /** `str.split` on a character. */
  function SplitOn(s: string, c: char): (r: seq<string>)
    ensures r != []
  {
    if s == "" then [""]
    else
      var rest := SplitOn(s[1..], c);
      if s[0] == c then [""] + rest else [[s[0]] + rest[0]] + rest[1..]
  }

  function Join(fields: seq<string>, c: char): string
    requires fields != []
  {
    if |fields| == 1 then fields[0] else fields[0] + [c] + Join(fields[1..], c)
  }

  function Count(s: string, c: char): nat {
    if s == "" then 0 else (if s[0] == c then 1 else 0) + Count(s[1..], c)
  }

  lemma {:induction false} SplitCount(s: string, c: char)
    ensures |SplitOn(s, c)| == Count(s, c) + 1
  {
    if s != "" {
      SplitCount(s[1..], c);
    }
  }

  lemma {:induction false} SplitField(u: string, rest: string, c: char)
    requires c !in u
    ensures SplitOn(u, c) == [u]
    ensures SplitOn(u + [c] + rest, c) == [u] + SplitOn(rest, c)
  {
    var s := u + [c] + rest;
    if u == "" {
      assert s[1..] == rest;
    } else {
      assert s[1..] == u[1..] + [c] + rest;
      SplitField(u[1..], rest, c);
      assert [u[0]] + u[1..] == u;
    }
  }

  lemma {:induction false} SplitJoin(fields: seq<string>, c: char)
    requires fields != [] && forall i :: 0 <= i < |fields| ==> c !in fields[i]
    ensures SplitOn(Join(fields, c), c) == fields
  {
    if |fields| == 1 {
      SplitField(fields[0], "", c);
    } else {
      SplitJoin(fields[1..], c);
      SplitField(fields[0], Join(fields[1..], c), c);
    }
  }

  /** Lines, each followed by a newline. */
  function Text(lines: seq<string>): string {
    if lines == [] then "" else lines[0] + "\n" + Text(lines[1..])
  }

  predicate BreakFree(s: string) { forall i :: 0 <= i < |s| ==> !IsBreak(s[i]) }

  predicate NewlineFree(s: string) { forall i :: 0 <= i < |s| ==> s[i] != '\n' && s[i] != '\r' }

  lemma SplitFirst(u: string, rest: string)
    requires NewlineFree(u)
    ensures SplitLines(u + "\n" + rest) != []
    ensures SplitLines(u + "\n" + rest)[0] == u[..LineEnd(u)]
    ensures BreakFree(u) ==> SplitLines(u + "\n" + rest) == [u] + SplitLines(rest)
  {
    var s := u + "\n" + rest;
    assert s[|u|] == '\n';
    var i := LineEnd(s);
    assert i <= |u|;
    assert LineEnd(u) == i by {
      assert forall j :: 0 <= j < |u| ==> s[j] == u[j];
    }
    assert s[..i] == u[..i];
    if BreakFree(u) {
      assert i == |u| && s[|u| + 1..] == rest && u[..i] == u;
    }
  }

  lemma {:induction false} SplitText(lines: seq<string>)
    requires forall i :: 0 <= i < |lines| ==> BreakFree(lines[i])
    ensures SplitLines(Text(lines)) == lines
  {
    if lines != [] {
      SplitText(lines[1..]);
      SplitFirst(lines[0], Text(lines[1..]));
    }
  }

  /** A line with a break inside is cut there. */
  lemma {:induction false} SplitTextCut(lines: seq<string>, k: nat)
    requires k < |lines| && NewlineFree(lines[k])
    requires forall i :: 0 <= i < k ==> BreakFree(lines[i])
    ensures |SplitLines(Text(lines))| > k && SplitLines(Text(lines))[k] == lines[k][..LineEnd(lines[k])]
  {
    SplitFirst(lines[0], Text(lines[1..]));
    if k > 0 {
      SplitTextCut(lines[1..], k - 1);
    }
  }

  // ---------------------------------------------------------------------
  // Printing and parsing
  // ---------------------------------------------------------------------

  const HEADER: string := "RING-C-IDENTITY-LEDGER|1"

  /** The text fields of an event by their place in the line. */
  function TextField(e: Event, i: nat): Option<string> {
    if i == 2 then Some(e.kind) else if i == 5 then Some(e.parentFrame)
    else if i == 6 then Some(e.childFrame) else if i == 7 then Some(e.domain)
    else if i == 9 then Some(e.canonicalKey) else if i == 10 then Some(e.producer)
    else if i == 11 then Some(e.sourceSlot) else if i == 12 then Some(e.destSlot)
    else None
  }

  /** The integer fields, at the other places after the marker. */
  function IntField(e: Event, i: nat): int {
    if i == 1 then e.eventId else if i == 3 then e.edgeId else if i == 4 then e.loadId
    else if i == 8 then e.defId else if i == 13 then e.index else e.arity
  }

  function FieldText(e: Event, i: nat): string {
    if i == 0 then "E"
    else if TextField(e, i).Some? then Escape(TextField(e, i).value)
    else IntText(IntField(e, i))
  }

  function Fields(e: Event): (r: seq<string>)
    ensures |r| == 15 && forall i: nat :: i < 15 ==> r[i] == FieldText(e, i)
  {
    seq(15, i requires 0 <= i < 15 => FieldText(e, i))
  }

  function LineOf(e: Event): string { Join(Fields(e), '|') }

  function Lines(es: seq<Event>): (r: seq<string>)
    ensures |r| == |es|
  {
    seq(|es|, i requires 0 <= i < |es| => LineOf(es[i]))
  }

  /** `serialize_identity_ledger`. */
  function Serialize(es: seq<Event>): string { Text([HEADER] + Lines(es)) }

  /** A field without the line breaks that the escape ignores. */
  predicate Clean(s: string) { forall i :: 0 <= i < |s| ==> !ExtraBreak(s[i]) }

  predicate CleanEvent(e: Event) {
    Clean(e.kind) && Clean(e.parentFrame) && Clean(e.childFrame) && Clean(e.domain) &&
    Clean(e.canonicalKey) && Clean(e.producer) && Clean(e.sourceSlot) && Clean(e.destSlot)
  }

  predicate CleanEvents(es: seq<Event>) { forall i :: 0 <= i < |es| ==> CleanEvent(es[i]) }

  lemma FreeConcat(a: string, b: string)
    ensures BreakFree(a + b) <==> BreakFree(a) && BreakFree(b)
    ensures NewlineFree(a + b) <==> NewlineFree(a) && NewlineFree(b)
  {
    assert forall i :: 0 <= i < |a| ==> a[i] == (a + b)[i];
    assert forall i :: 0 <= i < |b| ==> b[i] == (a + b)[|a| + i];
  }

  lemma EscapedChar(c: char)
    ensures '|' !in EscapeChar(c) && NewlineFree(EscapeChar(c))
    ensures BreakFree(EscapeChar(c)) <==> !ExtraBreak(c)
  {
    assert ExtraBreak(c) ==> EscapeChar(c)[0] == c;
  }

  lemma {:induction false} EscapedChars(s: string)
    ensures '|' !in Escape(s) && NewlineFree(Escape(s))
    ensures BreakFree(Escape(s)) <==> Clean(s)
  {
    EscapeIsPerCharacter(s);
    if s != "" {
      EscapedChars(s[1..]);
      EscapeIsPerCharacter(s[1..]);
      EscapedChar(s[0]);
      FreeConcat(EscapeChar(s[0]), EscapeEach(s[1..]));
      assert Clean(s) <==> !ExtraBreak(s[0]) && Clean(s[1..]) by {
        assert forall i :: 0 < i < |s| ==> s[i] == s[1..][i - 1];
      }
    }
  }

  lemma IntChars(n: int)
    ensures '|' !in IntText(n) && BreakFree(IntText(n))
  {
    IntTextChars(n);
  }

  lemma FieldFacts(e: Event, i: nat)
    requires i < 15
    ensures '|' !in Fields(e)[i] && NewlineFree(Fields(e)[i])
    ensures BreakFree(Fields(e)[i]) <==> (TextField(e, i).Some? ==> Clean(TextField(e, i).value))
  {
    assert Fields(e)[i] == FieldText(e, i);
    if TextField(e, i).Some? {
      EscapedChars(TextField(e, i).value);
    } else if i > 0 {
      IntChars(IntField(e, i));
    }
  }

  lemma CleanFields(e: Event)
    ensures CleanEvent(e) <==> forall i: nat {:trigger TextField(e, i)} :: TextField(e, i).Some? ==> Clean(TextField(e, i).value)
  {
    assert TextField(e, 2) == Some(e.kind) && TextField(e, 5) == Some(e.parentFrame) &&
      TextField(e, 6) == Some(e.childFrame) && TextField(e, 7) == Some(e.domain) &&
      TextField(e, 9) == Some(e.canonicalKey) && TextField(e, 10) == Some(e.producer) &&
      TextField(e, 11) == Some(e.sourceSlot) && TextField(e, 12) == Some(e.destSlot);
  }

  /** A line has a break inside exactly when a text field has one. */
  lemma LineFacts(e: Event)
    ensures NewlineFree(LineOf(e)) && (BreakFree(LineOf(e)) <==> CleanEvent(e))
    ensures SplitOn(LineOf(e), '|') == Fields(e)
    ensures !CleanEvent(e) ==> |SplitOn(LineOf(e)[..LineEnd(LineOf(e))], '|')| < 15
  {
    forall i: nat | i < 15
      ensures '|' !in Fields(e)[i] && NewlineFree(Fields(e)[i])
      ensures BreakFree(Fields(e)[i]) <==> (TextField(e, i).Some? ==> Clean(TextField(e, i).value))
    {
      FieldFacts(e, i);
    }
    CleanFields(e);
    JoinChars(Fields(e));
    SplitJoin(Fields(e), '|');
    if !CleanEvent(e) {
      CutLosesField(Fields(e));
      SplitCount(LineOf(e)[..LineEnd(LineOf(e))], '|');
    }
  }

  /** The fields of an event's line, in order. */
  lemma LineForm(e: Event)
    ensures SplitOn(LineOf(e), '|') ==
      ["E", IntText(e.eventId), Escape(e.kind), IntText(e.edgeId), IntText(e.loadId),
       Escape(e.parentFrame), Escape(e.childFrame), Escape(e.domain), IntText(e.defId), Escape(e.canonicalKey),
       Escape(e.producer), Escape(e.sourceSlot), Escape(e.destSlot), IntText(e.index), IntText(e.arity)]
  {
    LineFacts(e);
    FieldsForm(e);
  }

  lemma FieldsForm(e: Event)
    ensures Fields(e) ==
      ["E", IntText(e.eventId), Escape(e.kind), IntText(e.edgeId), IntText(e.loadId),
       Escape(e.parentFrame), Escape(e.childFrame), Escape(e.domain), IntText(e.defId), Escape(e.canonicalKey),
       Escape(e.producer), Escape(e.sourceSlot), Escape(e.destSlot), IntText(e.index), IntText(e.arity)]
  {
    EarlyFields(e);
    LateFields(e);
  }

  lemma EarlyFields(e: Event)
    ensures FieldText(e, 0) == "E" && FieldText(e, 1) == IntText(e.eventId) && FieldText(e, 2) == Escape(e.kind)
    ensures FieldText(e, 3) == IntText(e.edgeId) && FieldText(e, 4) == IntText(e.loadId)
    ensures FieldText(e, 5) == Escape(e.parentFrame) && FieldText(e, 6) == Escape(e.childFrame)
    ensures FieldText(e, 7) == Escape(e.domain)
  {
  }

  lemma LateFields(e: Event)
    ensures FieldText(e, 8) == IntText(e.defId) && FieldText(e, 9) == Escape(e.canonicalKey)
    ensures FieldText(e, 10) == Escape(e.producer) && FieldText(e, 11) == Escape(e.sourceSlot)
    ensures FieldText(e, 12) == Escape(e.destSlot) && FieldText(e, 13) == IntText(e.index)
    ensures FieldText(e, 14) == IntText(e.arity)
  {
  }

  /** The whole text: the header's line, then one line for each event, each
      ended by a newline. */
  lemma SerializeForm(es: seq<Event>, e: Event)
    ensures Serialize([]) == "RING-C-IDENTITY-LEDGER|1\n"
    ensures Serialize(es + [e]) == Serialize(es) + LineOf(e) + "\n"
  {
    assert Lines([]) == [];
    assert Text([HEADER]) == HEADER + "\n" + Text([]);
    assert [HEADER] + Lines(es + [e]) == ([HEADER] + Lines(es)) + [LineOf(e)];
    TextSnoc([HEADER] + Lines(es), LineOf(e));
  }

  lemma {:induction false} TextSnoc(lines: seq<string>, line: string)
    ensures Text(lines + [line]) == Text(lines) + line + "\n"
  {
    if lines == [] {
      assert Text([line]) == line + "\n" + Text([]);
    } else {
      assert (lines + [line])[1..] == lines[1..] + [line];
      TextSnoc(lines[1..], line);
    }
  }

  lemma {:induction false} JoinChars(fields: seq<string>)
    requires fields != [] && forall i :: 0 <= i < |fields| ==> NewlineFree(fields[i])
    ensures NewlineFree(Join(fields, '|'))
    ensures BreakFree(Join(fields, '|')) <==> forall i :: 0 <= i < |fields| ==> BreakFree(fields[i])
  {
    if |fields| > 1 {
      JoinChars(fields[1..]);
      FreeConcat(fields[0], ['|']);
      FreeConcat(fields[0] + ['|'], Join(fields[1..], '|'));
      assert forall i :: 0 < i < |fields| ==> fields[i] == fields[1..][i - 1];
    }
  }

  /** Before its first break a broken line has lost a field. */
  lemma {:induction false} CutLosesField(fields: seq<string>)
    requires fields != [] && (forall i :: 0 <= i < |fields| ==> '|' !in fields[i] && NewlineFree(fields[i]))
    requires BreakFree(fields[|fields| - 1]) && !BreakFree(Join(fields, '|'))
    ensures var s := Join(fields, '|'); Count(s[..LineEnd(s)], '|') < |fields| - 1
  {
    var s := Join(fields, '|');
    var i := LineEnd(s);
    if |fields| > 1 {
      var a, b := fields[0], Join(fields[1..], '|');
      assert s == a + ['|'] + b;
      if i <= |a| {
        assert s[..i] == a[..i];
        NoCount(a[..i], '|');
      } else {
        LineEndAfter(a + ['|'], b);
        FreeConcat(a + ['|'], b);
        CutLosesField(fields[1..]);
        CountAfter(a, b[..LineEnd(b)]);
        assert s[..i] == a + ['|'] + b[..LineEnd(b)];
      }
    }
  }

  lemma LineEndAfter(a: string, b: string)
    requires LineEnd(a + b) >= |a|
    ensures LineEnd(a + b) == |a| + LineEnd(b) && BreakFree(a)
  {
    var s := a + b;
    assert forall j :: 0 <= j < |b| ==> b[j] == s[|a| + j];
    assert forall j :: 0 <= j < |a| ==> a[j] == s[j];
    if LineEnd(b) < |b| {
      assert IsBreak(s[|a| + LineEnd(b)]);
    }
  }

  lemma CountAfter(a: string, b: string)
    requires '|' !in a
    ensures Count(a + ['|'] + b, '|') == 1 + Count(b, '|')
  {
    CountConcat(a + ['|'], b, '|');
    CountConcat(a, ['|'], '|');
    NoCount(a, '|');
    assert ['|'][1..] == "";
  }

  lemma {:induction false} NoCount(s: string, c: char)
    requires c !in s
    ensures Count(s, c) == 0
  {
    if s != "" {
      NoCount(s[1..], c);
    }
  }

  lemma {:induction false} CountConcat(s: string, t: string, c: char)
    ensures Count(s + t, c) == Count(s, c) + Count(t, c)
  {
    if s == "" {
      assert s + t == t;
    } else {
      assert (s + t)[1..] == s[1..] + t;
      CountConcat(s[1..], t, c);
    }
  }

  // ---------------------------------------------------------------------
  // The parser
  // ---------------------------------------------------------------------

  /** The event read off the fields of a line, with any integer reader that
      inverts `str` on integers. */
  ghost predicate ReadsInts(toInt: string -> Option<int>) {
    forall n :: toInt(IntText(n)) == Some(n)
  }

  /** Which field of the line each part of the event comes from. */
  predicate ReadFrom(fields: seq<string>, e: Event, toInt: string -> Option<int>) {
    |fields| == 15 && fields[0] == "E" &&
    toInt(fields[1]) == Some(e.eventId) && fields[2] == Escape(e.kind) &&
    toInt(fields[3]) == Some(e.edgeId) && toInt(fields[4]) == Some(e.loadId) &&
    fields[5] == Escape(e.parentFrame) && fields[6] == Escape(e.childFrame) &&
    fields[7] == Escape(e.domain) && toInt(fields[8]) == Some(e.defId) &&
    fields[9] == Escape(e.canonicalKey) && fields[10] == Escape(e.producer) &&
    fields[11] == Escape(e.sourceSlot) && fields[12] == Escape(e.destSlot) &&
    toInt(fields[13]) == Some(e.index) && toInt(fields[14]) == Some(e.arity)
  }

  /** The event of a line's fields: exactly the one they are read from. */
  method ReadEvent(fields: seq<string>, toInt: string -> Option<int>) returns (r: Option<Event>)
    ensures forall e :: r == Some(e) <==> ReadFrom(fields, e, toInt)
  {
    if |fields| != 15 || fields[0] != "E" {
      return None;
    }
    var kind := Unescape(fields[2]);
    var parentFrame := Unescape(fields[5]);
    var childFrame := Unescape(fields[6]);
    var domain := Unescape(fields[7]);
    var canonicalKey := Unescape(fields[9]);
    var producer := Unescape(fields[10]);
    var sourceSlot := Unescape(fields[11]);
    var destSlot := Unescape(fields[12]);
    var eventId, edgeId, loadId := toInt(fields[1]), toInt(fields[3]), toInt(fields[4]);
    var defId, index, arity := toInt(fields[8]), toInt(fields[13]), toInt(fields[14]);
    if kind.None? || parentFrame.None? || childFrame.None? || domain.None? || canonicalKey.None? ||
      producer.None? || sourceSlot.None? || destSlot.None? || eventId.None? || edgeId.None? ||
      loadId.None? || defId.None? || index.None? || arity.None?
    {
      return None;
    }
    r := Some(Event(eventId.value, kind.value, edgeId.value, loadId.value, parentFrame.value, childFrame.value,
                    domain.value, defId.value, canonicalKey.value, producer.value,
                    sourceSlot.value, destSlot.value, index.value, arity.value));
  }

  lemma LineIsReadFrom(e: Event, toInt: string -> Option<int>)
    requires ReadsInts(toInt)
    ensures ReadFrom(SplitOn(LineOf(e), '|'), e, toInt)
  {
    LineFacts(e);
    EarlyFields(e);
    LateFields(e);
  }

  method ParseLine(line: string, toInt: string -> Option<int>) returns (r: Option<Event>)
    requires ReadsInts(toInt)
    ensures r.Some? ==> |SplitOn(line, '|')| == 15
    ensures forall e :: LineOf(e) == line ==> r == Some(e)
  {
    r := ReadEvent(SplitOn(line, '|'), toInt);
    forall e | LineOf(e) == line ensures r == Some(e) {
      LineIsReadFrom(e, toInt);
    }
    assert forall e :: r == Some(e) ==> ReadFrom(SplitOn(line, '|'), e, toInt);
  }

  lemma HeaderClean()
    ensures BreakFree(HEADER)
  {
  }

  lemma CleanSplits(es: seq<Event>)
    requires CleanEvents(es)
    ensures SplitLines(Serialize(es)) == [HEADER] + Lines(es)
  {
    var lines := [HEADER] + Lines(es);
    HeaderClean();
    forall i | 0 <= i < |lines| ensures BreakFree(lines[i]) {
      if i > 0 {
        LineFacts(es[i - 1]);
      }
    }
    SplitText(lines);
  }

  lemma UncleanSplits(es: seq<Event>) returns (k: nat)
    requires !CleanEvents(es)
    ensures 0 < k < |SplitLines(Serialize(es))| && |SplitOn(SplitLines(Serialize(es))[k], '|')| < 15
  {
    k := 0;
    while CleanEvent(es[k])
      invariant k < |es| && forall i :: 0 <= i < k ==> CleanEvent(es[i])
      decreases |es| - k
    {
      k := k + 1;
    }
    var lines := [HEADER] + Lines(es);
    HeaderClean();
    forall i | 0 <= i <= k ensures BreakFree(lines[i]) {
      if i > 0 {
        LineFacts(es[i - 1]);
      }
    }
    LineFacts(es[k]);
    k := k + 1;
    SplitTextCut(lines, k);
  }

  lemma SplitsClean(es: seq<Event>)
    requires var lines := SplitLines(Serialize(es)); forall j :: 1 <= j < |lines| ==> |SplitOn(lines[j], '|')| == 15
    ensures CleanEvents(es)
  {
    if !CleanEvents(es) {
      var k := UncleanSplits(es);
    }
  }

  lemma {:induction false} TextEnds(lines: seq<string>)
    requires lines != []
    ensures Text(lines) != "" && Text(lines)[|Text(lines)| - 1] == '\n'
  {
    if |lines| > 1 {
      TextEnds(lines[1..]);
    }
  }

  /** The line loop of `parse_identity_ledger`. */
  method ParseLines(lines: seq<string>, toInt: string -> Option<int>) returns (bad: bool, events: seq<Event>)
    requires ReadsInts(toInt) && lines != []
    ensures !bad ==> forall j :: 1 <= j < |lines| ==> |SplitOn(lines[j], '|')| == 15
    ensures forall es :: lines == [HEADER] + Lines(es) ==> !bad && events == es
  {
    bad, events := false, [];
    for i := 1 to |lines|
      invariant !bad ==> forall j :: 1 <= j < i ==> |SplitOn(lines[j], '|')| == 15
      invariant forall es :: lines == [HEADER] + Lines(es) ==> !bad && events == es[..i - 1]
    {
      var event := ParseLine(lines[i], toInt);
      forall es | lines == [HEADER] + Lines(es) ensures event == Some(es[i - 1]) {
        assert LineOf(es[i - 1]) == lines[i];
      }
      if event.None? {
        bad := true;
      } else {
        events := events + [event.value];
      }
    }
  }

  /** `parse_identity_ledger`: it reads back a printed ledger exactly when the
      ledger is valid and its fields avoid the line breaks that the escape
      leaves alone. */
  method ParseLedger(data: string, toInt: string -> Option<int>) returns (r: Option<seq<Event>>)
    requires ReadsInts(toInt)
    ensures forall es :: r == Some(es) <==> Serialize(es) == data && Accepted(es) && CleanEvents(es)
  {
    var lines := SplitLines(data);
    forall es | Serialize(es) == data
      ensures CleanEvents(es) ==> lines == [HEADER] + Lines(es)
      ensures data != "" && data[|data| - 1] == '\n'
    {
      if CleanEvents(es) {
        CleanSplits(es);
      }
      TextEnds([HEADER] + Lines(es));
    }
    if lines == [] || lines[0] != HEADER {
      return None;
    }
    var bad, events := ParseLines(lines, toInt);
    if bad || data == "" || data[|data| - 1] != '\n' {
      return None;
    }
    var valid := ValidateRelations(events);
    if !valid || Serialize(events) != data {
      return None;
    }
    SplitsClean(events);
    r := Some(events);
  }

  /** Printing is injective on ledgers whose fields have no stray breaks. */
  lemma SerializeInjective(es: seq<Event>, fs: seq<Event>)
    requires CleanEvents(es) && CleanEvents(fs) && Serialize(es) == Serialize(fs)
    ensures es == fs
  {
    CleanSplits(es);
    CleanSplits(fs);
    assert ([HEADER] + Lines(es))[1..] == Lines(es) && ([HEADER] + Lines(fs))[1..] == Lines(fs);
    assert |es| == |Lines(es)| == |Lines(fs)| == |fs|;
    forall i | 0 <= i < |es| ensures es[i] == fs[i] {
      assert Lines(es)[i] == Lines(fs)[i];
      LineInjective(es[i], fs[i]);
    }
  }

  lemma LineInjective(e: Event, f: Event)
    requires LineOf(e) == LineOf(f)
    ensures e == f
  {
    LineFacts(e);
    LineFacts(f);
    forall i: nat | i < 15
      ensures TextField(e, i) == TextField(f, i)
      ensures TextField(e, i).None? && i > 0 ==> IntField(e, i) == IntField(f, i)
    {
      assert FieldText(e, i) == Fields(e)[i] == Fields(f)[i] == FieldText(f, i);
      if TextField(e, i).Some? {
        EscapeInjective(TextField(e, i).value, TextField(f, i).value);
      } else if i > 0 {
        IntRoundTrip(IntField(e, i));
        IntRoundTrip(IntField(f, i));
      }
    }
    assert TextField(e, 2) == TextField(f, 2) && TextField(e, 5) == TextField(f, 5) && TextField(e, 6) == TextField(f, 6) &&
      TextField(e, 7) == TextField(f, 7) && TextField(e, 9) == TextField(f, 9) && TextField(e, 10) == TextField(f, 10) &&
      TextField(e, 11) == TextField(f, 11) && TextField(e, 12) == TextField(f, 12);
    assert IntField(e, 1) == IntField(f, 1) && IntField(e, 3) == IntField(f, 3) && IntField(e, 4) == IntField(f, 4) &&
      IntField(e, 8) == IntField(f, 8) && IntField(e, 13) == IntField(f, 13) && IntField(e, 14) == IntField(f, 14);
  }

  lemma EscapeInjective(s: string, t: string)
    requires Escape(s) == Escape(t)
    ensures s == t
  {
    EscapeIsPerCharacter(s);
    EscapeIsPerCharacter(t);
    DecodeEscaped(s);
    DecodeEscaped(t);
  }

  /** Such readers exist: the strict one is an example. */
  lemma StrictReader()
    ensures ReadsInts(ParseInt)
  {
    forall n ensures ParseInt(IntText(n)) == Some(n) {
      IntRoundTrip(n);
    }
  }
}
