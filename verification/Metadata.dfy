/**
 The metadata messages of the phone mirror (mirror/messages.rs): lists of named strings and
 integers, printed as `{"name":"value",...,"name":1}` and parsed again.
 */
module Metadata {
  import opened Strings

  const I32_MAX := 0x7FFF_FFFF

  newtype i32 = n: int | -0x8000_0000 <= n < 0x8000_0000

  datatype MetaDataString = MetaDataString(variable: string, value: string)
  datatype MetaDataInt = MetaDataInt(variable: string, value: i32)
  datatype MetaDataMessage = MetaDataMessage(
    messageType: nat, strings: seq<MetaDataString>, ints: seq<MetaDataInt>)

  /** Parsing slices without looking at lengths first, so that it can also panic. */
  datatype Outcome = Panicked | Parsed(message: MetaDataMessage)

  // ---------- decimal numbers ----------

  function Decimal(n: nat): (r: string)
    ensures r != ""
  {
    var d := ['0' + (n % 10) as char];
    if n < 10 then d else Decimal(n / 10) + d
  }

  function ToString(n: i32): string {
    if n < 0 then ['-'] + Decimal(-(n as int)) else Decimal(n as int)
  }

  predicate IsDigit(c: char) {
    '0' <= c <= '9'
  }

  predicate AllDigits(s: string) {
    forall i :: 0 <= i < |s| ==> IsDigit(s[i])
  }

  function DigitsOf(s: string): (r: string)
    ensures AllDigits(r)
  {
    if s == "" then "" else DigitsOf(s[..|s| - 1]) + if IsDigit(s[|s| - 1]) then [s[|s| - 1]] else ""
  }

  function Number(s: string): nat
    requires AllDigits(s)
  {
    if s == "" then 0 else 10 * Number(s[..|s| - 1]) + (s[|s| - 1] as int - '0' as int)
  }

  /** The digits of a text read as a number: 0 if there are none or if the number does not fit. */
  function ReadInt(s: string): (r: i32)
    ensures r >= 0
  {
    var n := Number(DigitsOf(s));
    if n <= I32_MAX then n as i32 else 0
  }

  lemma {:induction false} DecimalRead(n: nat)
    ensures DigitsOf(Decimal(n)) == Decimal(n) && Number(DigitsOf(Decimal(n))) == n
    ensures AllDigits(Decimal(n))
  {
    var s := Decimal(n);
    if n >= 10 {
      DecimalRead(n / 10);
      assert s[..|s| - 1] == Decimal(n / 10);
    } else {
      assert s[..0] == "";
    }
  }

  lemma {:induction false} DigitsConcat(a: string, b: string)
    ensures DigitsOf(a + b) == DigitsOf(a) + DigitsOf(b)
  {
    if b == "" {
      assert a + b == a;
    } else {
      assert (a + b)[..|a + b| - 1] == a + b[..|b| - 1];
      DigitsConcat(a, b[..|b| - 1]);
    }
  }

  /** The sign is lost, and the least integer with it. */
  function Recovered(n: i32): i32 {
    if n >= 0 then n else if -(n as int) <= I32_MAX then -n else 0
  }

  lemma ReadPrinted(n: i32)
    ensures ReadInt(ToString(n)) == Recovered(n)
  {
    hide Decimal, Number, DigitsOf, AllDigits;
    var size := if n < 0 then -(n as int) else n as int;
    DecimalRead(size);
    if n < 0 {
      SignDropped(Decimal(size));
    }
  }

  lemma PrintedPlain(n: i32)
    ensures Plain(ToString(n)) && ToString(n) != "" && ToString(n)[0] != '"'
  {
    hide Decimal, Number, DigitsOf;
    var digits := Decimal(if n < 0 then -(n as int) else n as int);
    DecimalRead(if n < 0 then -(n as int) else n as int);
    assert IsDigit(digits[0]);
  }

  lemma SignDropped(digits: string)
    requires AllDigits(digits)
    ensures DigitsOf(['-'] + digits) == DigitsOf(digits)
  {
    DigitsConcat(['-'], digits);
    assert ['-'][..0] == [];
  }

  /** Free of the two separators. */
  predicate Plain(s: string) {
    ',' !in s && ':' !in s
  }

  // ---------- printing ----------

  function Quoted(s: string): string {
    ['"'] + s + ['"']
  }

  function StringElement(v: MetaDataString): string {
    Quoted(v.variable) + [':'] + Quoted(v.value)
  }

  function IntElement(v: MetaDataInt): string {
    Quoted(v.variable) + [':'] + ToString(v.value)
  }

  function Elements(m: MetaDataMessage): (r: seq<string>)
    ensures |r| == |m.strings| + |m.ints|
  {
    seq(|m.strings| + |m.ints|, k requires 0 <= k < |m.strings| + |m.ints| =>
      if k < |m.strings| then StringElement(m.strings[k]) else IntElement(m.ints[k - |m.strings|]))
  }

  function Print(m: MetaDataMessage): string {
    ['{'] + Join(Elements(m), ',') + ['}']
  }

  /** The first `k` elements, each but the last of all with a comma after it. */
  function Listed(elements: seq<string>, k: nat): string
    requires k <= |elements|
  {
    if k == 0 then "" else Listed(elements, k - 1) + elements[k - 1] + if k < |elements| then [','] else []
  }

  lemma {:induction false} ListedRest(elements: seq<string>, k: nat)
    requires k < |elements|
    ensures Listed(elements, k) + Join(elements[k..], ',') == Join(elements, ',')
  {
    if k == 0 {
      assert elements[0..] == elements;
    } else {
      var last := elements[k - 1];
      ListedRest(elements, k - 1);
      assert elements[k - 1..][1..] == elements[k..];
      assert Join(elements[k - 1..], ',') == last + [','] + Join(elements[k..], ',');
      assert Listed(elements, k) == Listed(elements, k - 1) + last + [','];
    }
  }

  lemma ListedAll(elements: seq<string>)
    ensures Listed(elements, |elements|) == Join(elements, ',')
  {
    if elements != [] {
      ListedRest(elements, |elements| - 1);
      assert elements[|elements| - 1..] == [elements[|elements| - 1]];
    }
  }

  lemma StringAppended(text: string, v: MetaDataString)
    ensures text + "\"" + v.variable + "\"" + ":" + "\"" + v.value + "\"" == text + StringElement(v)
  {
  }

  lemma IntAppended(text: string, v: MetaDataInt)
    ensures text + "\"" + v.variable + "\"" + ":" + ToString(v.value) == text + IntElement(v)
  {
    hide ToString;
  }

  lemma ListedNone(elements: seq<string>)
    ensures "{" + Listed(elements, 0) == "{"
  {
  }

  lemma ListedNext(elements: seq<string>, k: nat, start: string)
    requires k < |elements|
    ensures start + Listed(elements, k) + elements[k] + (if k + 1 < |elements| then "," else "") == start + Listed(elements, k + 1)
  {
  }

  method GetMirrorMessage(m: MetaDataMessage) returns (text: string)
    ensures text == Print(m)
  {
    hide Join, ToString, StringElement, IntElement, Listed;
    ghost var elements := Elements(m);
    text := "{";
    ListedNone(elements);
    for i := 0 to |m.strings|
      invariant text == "{" + Listed(elements, i)
    {
      StringAppended(text, m.strings[i]);
      ListedNext(elements, i, "{");
      text := text + "\"" + m.strings[i].variable + "\"" + ":" + "\"" + m.strings[i].value + "\"";
      if i < |m.strings| - 1 || |m.ints| > 0 {
        text := text + ",";
      }
    }
    for i := 0 to |m.ints|
      invariant text == "{" + Listed(elements, |m.strings| + i)
    {
      IntAppended(text, m.ints[i]);
      ListedNext(elements, |m.strings| + i, "{");
      text := text + "\"" + m.ints[i].variable + "\"" + ":" + ToString(m.ints[i].value);
      if i < |m.ints| - 1 {
        text := text + ",";
      }
    }
    text := text + "}";
    ListedAll(elements);
  }

  // ---------- parsing ----------

  /** What follows the first opening brace; everything if there is none. */
  function AfterBrace(text: string): string {
    if '{' !in text then text else if text[0] == '{' then text[1..] else AfterBrace(text[1..])
  }

  function BeforeBrace(text: string): string {
    if |text| > 1 && text[|text| - 1] == '}' then text[..|text| - 1] else text
  }

  /** What is between the quotes, or the quote itself if it is all there is. */
  function Unquoted(s: string): string
    requires s != ""
  {
    if |s| > 1 then s[1..|s| - 1] else s
  }

  /** An element that is not a name, a colon and a value is passed over; a name without its two quotes cannot be sliced. */
  function AddElement(m: MetaDataMessage, element: string): Outcome {
    var parts := Split(element, ':');
    if |parts| != 2 then Parsed(m)
    else if |parts[0]| < 2 then Panicked
    else
      var name := parts[0][1..|parts[0]| - 1];
      if parts[1] != "" && parts[1][0] == '"' then
        Parsed(m.(strings := m.strings + [MetaDataString(name, Unquoted(parts[1]))]))
      else
        Parsed(m.(ints := m.ints + [MetaDataInt(name, ReadInt(parts[1]))]))
  }

  function ParseElements(messageType: nat, elements: seq<string>): Outcome {
    if elements == [] then Parsed(MetaDataMessage(messageType, [], []))
    else
      match ParseElements(messageType, elements[..|elements| - 1])
      case Panicked => Panicked
      case Parsed(m) => AddElement(m, elements[|elements| - 1])
  }

  function Parse(messageType: nat, text: string): Outcome {
    ParseElements(messageType, Split(BeforeBrace(AfterBrace(text)), ','))
  }

  lemma {:induction false} PanicStays(messageType: nat, elements: seq<string>, k: nat)
    requires k <= |elements| && ParseElements(messageType, elements[..k]) == Panicked
    ensures ParseElements(messageType, elements) == Panicked
    decreases |elements| - k
  {
    if k < |elements| {
      assert elements[..k + 1][..k] == elements[..k];
      assert elements[..k + 1][..|elements[..k + 1]| - 1] == elements[..k];
      PanicStays(messageType, elements, k + 1);
    } else {
      assert elements[..k] == elements;
    }
  }

  method From(messageType: nat, data: string) returns (o: Outcome)
    ensures o == Parse(messageType, data)
  {
    var text := data;
    if |text| > 0 && text[0] == '{' {
      text := text[1..];
    } else {
      text := SkipToBrace(data);
    }
    if |text| > 1 && text[|text| - 1] == '}' {
      text := text[..|text| - 1];
    }
    assert text == BeforeBrace(AfterBrace(data));
    var elements := Split(text, ',');
    var message := MetaDataMessage(messageType, [], []);
    for i := 0 to |elements|
      invariant ParseElements(messageType, elements[..i]) == Parsed(message)
    {
      assert elements[..i + 1][..i] == elements[..i];
      var parts := Split(elements[i], ':');
      if |parts| != 2 {
        continue;
      }
      if |parts[0]| < 2 {
        PanicStays(messageType, elements, i + 1);
        return Panicked;
      }
      var name := parts[0][1..|parts[0]| - 1];
      if |parts[1]| > 0 && parts[1][0] == '"' {
        var value := parts[1];
        if |value| > 1 {
          value := parts[1][1..|value| - 1];
        }
        message := message.(strings := message.strings + [MetaDataString(name, value)]);
      } else {
        message := message.(ints := message.ints + [MetaDataInt(name, ReadInt(parts[1]))]);
      }
    }
    assert elements[..|elements|] == elements;
    o := Parsed(message);
  }

  /** A message that does not begin with a brace loses what is before the first one. */
  method SkipToBrace(data: string) returns (text: string)
    ensures text == AfterBrace(data)
  {
    var bytes := data;
    var removed := false;
    while !removed && |bytes| > 0
      invariant if removed then bytes == AfterBrace(data)
                else ('{' in data <==> '{' in bytes) && ('{' in data ==> AfterBrace(bytes) == AfterBrace(data))
      decreases |bytes|
    {
      if bytes[0] == '{' {
        removed := true;
      }
      bytes := bytes[1..];
    }
    text := if removed then bytes else data;
  }

  // ---------- what is passed over, and what panics ----------

  /** An element with no colon, or with more than one, is passed over wherever it stands. */
  lemma {:induction false} PassedOver(messageType: nat, a: seq<string>, e: string, b: seq<string>)
    requires Count(e, ':') != 1
    ensures ParseElements(messageType, a + [e] + b) == ParseElements(messageType, a + b)
  {
    hide AddElement;
    if b == [] {
      assert (a + [e] + b)[..|a|] == a && a + b == a && a + [e] + b == a + [e];
      NotAdded(e);
    } else {
      var front, last := b[..|b| - 1], b[|b| - 1];
      PassedOver(messageType, a, e, front);
      assert (a + [e] + b)[..|a + [e] + b| - 1] == a + [e] + front;
      assert (a + b)[..|a + b| - 1] == a + front;
    }
  }

  lemma NotAdded(e: string)
    requires Count(e, ':') != 1
    ensures forall m :: AddElement(m, e) == Parsed(m)
  {
    SplitCount(e, ':');
  }

  /** Exactly an element whose only colon is its first or second character makes the parser panic. */
  predicate Unsliceable(e: string) {
    Count(e, ':') == 1 && ((|e| > 0 && e[0] == ':') || (|e| > 1 && e[1] == ':'))
  }

  lemma AddPanics(m: MetaDataMessage, e: string)
    ensures AddElement(m, e) == Panicked <==> Unsliceable(e)
  {
    SplitCount(e, ':');
    if |e| > 0 && e[0] != ':' {
      SplitCount(e[1..], ':');
    }
  }

  lemma {:induction false} PanicsExactly(messageType: nat, elements: seq<string>)
    ensures ParseElements(messageType, elements) == Panicked <==> exists i :: 0 <= i < |elements| && Unsliceable(elements[i])
  {
    hide AddElement, Unsliceable;
    if elements != [] {
      var front, last := elements[..|elements| - 1], elements[|elements| - 1];
      PanicsExactly(messageType, front);
      if ParseElements(messageType, front).Parsed? {
        AddPanics(ParseElements(messageType, front).message, last);
      } else {
        var i :| 0 <= i < |front| && Unsliceable(front[i]);
        assert elements[i] == front[i];
      }
      assert forall i :: 0 <= i < |front| ==> elements[i] == front[i];
    }
  }

  /** What stands before the first opening brace does not matter. */
  lemma {:induction false} BeforeIgnored(messageType: nat, before: string, m: MetaDataMessage)
    requires '{' !in before
    ensures Parse(messageType, before + Print(m)) == Parse(messageType, Print(m))
  {
    hide ParseElements, Split, Join, Elements, AfterBrace, BeforeBrace;
    BraceFound(before, Join(Elements(m), ',') + ['}']);
    BraceFound("", Join(Elements(m), ',') + ['}']);
    var rest := Join(Elements(m), ',') + ['}'];
    assert Print(m) == "" + ['{'] + rest && before + Print(m) == before + ['{'] + rest;
  }

  lemma {:induction false} BraceFound(before: string, rest: string)
    requires '{' !in before
    ensures AfterBrace(before + ['{'] + rest) == rest
  {
    var all := before + ['{'] + rest;
    assert all[|before|] == '{';
    if before != "" {
      assert all[1..] == before[1..] + ['{'] + rest && all[0] == before[0];
      BraceFound(before[1..], rest);
    }
  }

  /** A message whose closing brace is missing is read like a whole one, unless its last element ends in a brace. */
  lemma UnclosedRead(messageType: nat, text: string)
    requires |text| > 0 && text[|text| - 1] != '}'
    ensures Parse(messageType, ['{'] + text) == Parse(messageType, ['{'] + text + ['}'])
  {
    BraceFound("", text);
    BraceFound("", text + ['}']);
    assert "" + ['{'] + text == ['{'] + text;
    assert "" + ['{'] + (text + ['}']) == ['{'] + text + ['}'];
    assert (text + ['}'])[..|text|] == text;
  }

  // ---------- the round trip ----------

  /** Names and values free of the separators. */
  predicate Separable(m: MetaDataMessage) {
    && (forall i :: 0 <= i < |m.strings| ==> Plain(m.strings[i].variable) && Plain(m.strings[i].value))
    && (forall i :: 0 <= i < |m.ints| ==> Plain(m.ints[i].variable))
  }

  predicate NonNegative(m: MetaDataMessage) {
    forall i :: 0 <= i < |m.ints| ==> m.ints[i].value >= 0
  }

  function RecoveredInts(ints: seq<MetaDataInt>): (r: seq<MetaDataInt>)
    ensures |r| == |ints|
  {
    seq(|ints|, i requires 0 <= i < |ints| => MetaDataInt(ints[i].variable, Recovered(ints[i].value)))
  }

  lemma StringElementParsed(m: MetaDataMessage, v: MetaDataString)
    requires Plain(v.variable) && Plain(v.value)
    ensures ',' !in StringElement(v)
    ensures AddElement(m, StringElement(v)) == Parsed(m.(strings := m.strings + [v]))
  {
    var name, value := Quoted(v.variable), Quoted(v.value);
    SplitFirst(name, value, ':');
    SplitOne(value, ':');
    assert name[1..|name| - 1] == v.variable && value[1..|value| - 1] == v.value;
    assert Split(StringElement(v), ':') == [name, value];
  }

  lemma IntElementParsed(m: MetaDataMessage, v: MetaDataInt)
    requires Plain(v.variable)
    ensures ',' !in IntElement(v)
    ensures AddElement(m, IntElement(v)) == Parsed(m.(ints := m.ints + [MetaDataInt(v.variable, Recovered(v.value))]))
  {
    hide ToString, ReadInt, Recovered;
    var name, value := Quoted(v.variable), ToString(v.value);
    ReadPrinted(v.value);
    PrintedPlain(v.value);
    SplitFirst(name, value, ':');
    SplitOne(value, ':');
    assert name[1..|name| - 1] == v.variable;
    assert Split(IntElement(v), ':') == [name, value];
  }

  /** The message that the first `k` elements come back as. */
  function Upto(m: MetaDataMessage, k: nat): MetaDataMessage
    requires k <= |m.strings| + |m.ints|
  {
    var n := |m.strings|;
    if k <= n then MetaDataMessage(m.messageType, m.strings[..k], [])
    else MetaDataMessage(m.messageType, m.strings, RecoveredInts(m.ints)[..k - n])
  }

  lemma ElementParsed(m: MetaDataMessage, k: nat)
    requires Separable(m) && k < |Elements(m)|
    ensures ',' !in Elements(m)[k] && AddElement(Upto(m, k), Elements(m)[k]) == Parsed(Upto(m, k + 1))
  {
    hide StringElement, IntElement, AddElement, Recovered;
    var n, ints := |m.strings|, RecoveredInts(m.ints);
    if k < n {
      StringElementParsed(Upto(m, k), m.strings[k]);
      assert m.strings[..k + 1] == m.strings[..k] + [m.strings[k]];
    } else {
      assert m.strings[..n] == m.strings && ints[..0] == [];
      assert Upto(m, k) == MetaDataMessage(m.messageType, m.strings, ints[..k - n]);
      IntElementParsed(Upto(m, k), m.ints[k - n]);
      assert ints[..k + 1 - n] == ints[..k - n] + [ints[k - n]];
    }
  }

  lemma {:induction false} ElementsParsed(m: MetaDataMessage, k: nat)
    requires Separable(m) && k <= |Elements(m)|
    ensures forall i :: 0 <= i < k ==> ',' !in Elements(m)[i]
    ensures ParseElements(m.messageType, Elements(m)[..k]) == Parsed(Upto(m, k))
  {
    hide Elements, AddElement, Separable;
    if k > 0 {
      ElementsParsed(m, k - 1);
      ElementParsed(m, k - 1);
      assert Elements(m)[..k][..k - 1] == Elements(m)[..k - 1];
    }
  }

  /** Whatever is printed with separable names and values comes back, integers without their sign. */
  lemma PrintParsed(m: MetaDataMessage)
    requires Separable(m)
    ensures Parse(m.messageType, Print(m)) == Parsed(m.(ints := RecoveredInts(m.ints)))
  {
    hide AddElement, Split, Recovered;
    var elements := Elements(m);
    var text := Join(elements, ',');
    BracesRemoved(text);
    ElementsParsed(m, |elements|);
    assert elements[..|elements|] == elements;
    assert m.strings[..|m.strings|] == m.strings;
    assert RecoveredInts(m.ints)[..|m.ints|] == RecoveredInts(m.ints);
    if elements == [] {
      NoElements(m.messageType);
    } else {
      SplitJoin(elements, ',');
    }
  }

  lemma BracesRemoved(text: string)
    ensures BeforeBrace(AfterBrace(['{'] + text + ['}'])) == if text == "" then "}" else text
  {
    var all := ['{'] + text + ['}'];
    assert all[1..] == text + ['}'];
    assert (text + ['}'])[..|text|] == text;
  }

  lemma NoElements(messageType: nat)
    ensures ParseElements(messageType, Split("", ',')) == Parsed(MetaDataMessage(messageType, [], []))
    ensures ParseElements(messageType, Split("}", ',')) == Parsed(MetaDataMessage(messageType, [], []))
  {
    assert [""][..0] == [];
    assert ["}"][..0] == [];
    SplitOne("}", ',');
    SplitOne("}", ':');
  }

  lemma AddedSeparable(m: MetaDataMessage, element: string)
    requires Separable(m) && NonNegative(m) && ',' !in element
    requires AddElement(m, element).Parsed?
    ensures var m' := AddElement(m, element).message; Separable(m') && NonNegative(m') && m'.messageType == m.messageType
  {
    SplitClean(element, ':');
  }

  /** Parsing never yields a separator or a negative integer. */
  lemma {:induction false} ParsedSeparable(messageType: nat, elements: seq<string>)
    requires forall i :: 0 <= i < |elements| ==> ',' !in elements[i]
    requires ParseElements(messageType, elements).Parsed?
    ensures var m := ParseElements(messageType, elements).message;
            Separable(m) && NonNegative(m) && m.messageType == messageType
  {
    hide AddElement, Separable, NonNegative;
    if elements == [] {
      EmptySeparable(messageType);
    } else {
      var front := elements[..|elements| - 1];
      ParsedSeparable(messageType, front);
      AddedSeparable(ParseElements(messageType, front).message, elements[|elements| - 1]);
    }
  }

  lemma EmptySeparable(messageType: nat)
    ensures var m := MetaDataMessage(messageType, [], []); Separable(m) && NonNegative(m)
  {
  }

  /** A message survives printing and parsing exactly if nothing in it contains a separator and no integer is negative. */
  lemma RoundTrip(m: MetaDataMessage)
    ensures Parse(m.messageType, Print(m)) == Parsed(m) <==> Separable(m) && NonNegative(m)
  {
    hide Parse, Print, Separable;
    if Separable(m) && NonNegative(m) {
      PrintParsed(m);
      assert RecoveredInts(m.ints) == m.ints;
    }
    if Parse(m.messageType, Print(m)) == Parsed(m) {
      ParseClean(m.messageType, Print(m));
    }
  }

  lemma ParseClean(messageType: nat, text: string)
    requires Parse(messageType, text).Parsed?
    ensures var m := Parse(messageType, text).message; Separable(m) && NonNegative(m) && m.messageType == messageType
  {
    hide ParseElements;
    SplitClean(BeforeBrace(AfterBrace(text)), ',');
    ParsedSeparable(messageType, Split(BeforeBrace(AfterBrace(text)), ','));
  }

  /** What has been parsed once stays the same however often it is sent on. */
  lemma Relayed(messageType: nat, text: string)
    requires Parse(messageType, text).Parsed?
    ensures Parse(messageType, Print(Parse(messageType, text).message)) == Parse(messageType, text)
  {
    hide Parse, Print, Separable, NonNegative;
    ParseClean(messageType, text);
    RoundTrip(Parse(messageType, text).message);
  }
}
