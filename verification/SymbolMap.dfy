/** The kernel's symbol map: the text of `nm` in BSD format, one line per symbol, looked up by address. */
module SymbolMap {
  import opened Bits
  import opened Options

  type Text = seq<u8>

  /** The bytes of a string of ASCII characters. */
  function Ascii(s: string): (t: Text)
    requires forall i: nat | i < |s| :: s[i] as int < 128
    ensures |t| == |s| && forall i: nat | i < |s| :: t[i] == s[i] as int
  {
    seq(|s|, i requires 0 <= i < |s| => s[i] as int)
  }

  const NEWLINE: u8 := 10
  const SPACE: u8 := 32
  const PLUS: u8 := 43

  datatype Item = Item(addr: nat, name: Text)

  /** `Panicked` is a missing newline, or a line too short to slice or sliced inside a character. */
  datatype Step = Yield(item: Item, next: nat) | Finished | Panicked

  datatype Lookup = Found(name: Text) | LookupPanicked

  // ---------- hexadecimal ----------

  function HexDigit(c: u8): Option<nat> {
    if 48 <= c <= 57 then Some(c - 48)
    else if 97 <= c <= 102 then Some(c - 87)
    else if 65 <= c <= 70 then Some(c - 55)
    else None
  }

  /** A character is the digit d exactly when it stands at place d of the digits in either case. */
  lemma HexDigitIs(c: char, d: nat)
    requires c as int < 256
    ensures HexDigit(c as int) == Some(d) <==>
            d < 16 && (c == "0123456789abcdef"[d] || c == "0123456789ABCDEF"[d])
  {
  }

  function HexNumber(s: Text): Option<nat> {
    if s == [] then Some(0)
    else
      match (HexNumber(s[..|s| - 1]), HexDigit(s[|s| - 1]))
      case (Some(high), Some(low)) => Some(high * 16 + low)
      case _ => None
  }

  /** `from_str_radix(_, 16)`: at least one digit, after an optional plus sign. */
  function FromStrRadix16(s: Text): Option<nat> {
    if s == [] then None
    else if s[0] == PLUS then if |s| == 1 then None else HexNumber(s[1..])
    else HexNumber(s)
  }

  lemma RadixIs(s: Text)
    ensures FromStrRadix16([]) == None && FromStrRadix16(Ascii("+")) == None
    ensures s != [] ==> FromStrRadix16(Ascii("+") + s) == HexNumber(s)
    ensures s != [] && s[0] != Ascii("+")[0] ==> FromStrRadix16(s) == HexNumber(s)
  {
    assert (Ascii("+") + s)[1..] == s;
  }

  function HexChar(d: nat): u8
    requires d < 16
  {
    if d < 10 then 48 + d else 87 + d
  }

  /** x in n lower-case hexadecimal digits. */
  function Hex(x: nat, n: nat): (s: Text)
    ensures |s| == n
  {
    if n == 0 then [] else Hex(x / 16, n - 1) + [HexChar(x % 16)]
  }

  lemma DigitShift(x: nat, n: nat)
    requires n > 0 && x < Pow2(4 * n)
    ensures x / 16 < Pow2(4 * (n - 1))
  {
    Powers();
    PowSum(4, 4 * (n - 1), 4 * n, 16, Pow2(4 * (n - 1)));
  }

  lemma {:induction false} HexRoundTrip(x: nat, n: nat)
    requires x < Pow2(4 * n)
    ensures HexNumber(Hex(x, n)) == Some(x)
  {
    if n == 0 {
    } else {
      DigitShift(x, n);
      HexRoundTrip(x / 16, n - 1);
      assert Hex(x, n)[..n - 1] == Hex(x / 16, n - 1);
    }
  }

  lemma {:induction false} HexHasNoMarks(x: nat, n: nat, i: nat)
    requires i < n
    ensures Hex(x, n)[i] != NEWLINE && Hex(x, n)[i] != PLUS && Hex(x, n)[i] < 128
  {
    if i == n - 1 {
    } else {
      HexHasNoMarks(x / 16, n - 1, i);
    }
  }

  lemma HexParses(x: u64)
    ensures FromStrRadix16(Hex(x, 16)) == Some(x)
  {
    Powers();
    HexRoundTrip(x, 16);
    HexHasNoMarks(x, 16, 0);
  }

  // ---------- UTF-8 ----------

  predicate IsTail(b: u8) { 0x80 <= b < 0xc0 }

  /** The range of the second byte, which excludes overlong forms, surrogates and numbers above 0x10ffff. */
  predicate SecondFits(first: u8, second: u8) {
    && IsTail(second)
    && (first == 0xe0 ==> second >= 0xa0) && (first == 0xed ==> second < 0xa0)
    && (first == 0xf0 ==> second >= 0x90) && (first == 0xf4 ==> second < 0x90)
  }

  /** The length of the well-formed character a string begins with, or 0. */
  function CharWidth(s: Text): (n: nat)
    ensures n <= |s|
  {
    if s == [] then 0
    else if s[0] < 0x80 then 1
    else if 0xc2 <= s[0] < 0xe0 then if |s| >= 2 && IsTail(s[1]) then 2 else 0
    else if 0xe0 <= s[0] < 0xf0 then if |s| >= 3 && SecondFits(s[0], s[1]) && IsTail(s[2]) then 3 else 0
    else if 0xf0 <= s[0] < 0xf5 then
      if |s| >= 4 && SecondFits(s[0], s[1]) && IsTail(s[2]) && IsTail(s[3]) then 4 else 0
    else 0
  }

  predicate Utf8(s: Text) {
    s == [] || (CharWidth(s) > 0 && Utf8(s[CharWidth(s)..]))
  }

  predicate CharBoundary(s: Text, i: nat) {
    i == 0 || i == |s| || (i < |s| && !IsTail(s[i]))
  }

  lemma {:induction false} AsciiPrefix(ascii: Text, rest: Text)
    requires forall i: nat | i < |ascii| :: ascii[i] < 128
    ensures Utf8(ascii + rest) <==> Utf8(rest)
    decreases |ascii|
  {
    if ascii == [] {
      assert ascii + rest == rest;
    } else {
      AsciiPrefix(ascii[1..], rest);
      assert (ascii + rest)[1..] == ascii[1..] + rest;
    }
  }

  // ---------- UTF-8 by the numbers it encodes ----------

  /** A number a character can have: up to 0x10ffff, without the surrogates. */
  predicate IsScalar(c: nat) {
    c < 0xd800 || 0xe000 <= c < 0x11_0000
  }

  /** The encoding of a character in as few bytes as it takes: section 3 of RFC 3629. */
  function EncodeChar(c: nat): (s: Text)
    requires IsScalar(c)
    ensures |s| > 0
  {
    if c < 0x80 then [c]
    else if c < 0x800 then [0xc0 + c / 0x40, 0x80 + c % 0x40]
    else if c < 0x1_0000 then [0xe0 + c / 0x1000, 0x80 + c / 0x40 % 0x40, 0x80 + c % 0x40]
    else [0xf0 + c / 0x4_0000, 0x80 + c / 0x1000 % 0x40, 0x80 + c / 0x40 % 0x40, 0x80 + c % 0x40]
  }

  function Encode(cs: seq<nat>): Text
    requires forall i: nat | i < |cs| :: IsScalar(cs[i])
  {
    if cs == [] then [] else EncodeChar(cs[0]) + Encode(cs[1..])
  }

  lemma EncodedWidth(c: nat, rest: Text)
    requires IsScalar(c)
    ensures CharWidth(EncodeChar(c) + rest) == |EncodeChar(c)|
  {
    var s := EncodeChar(c) + rest;
    assert forall i: nat | i < |EncodeChar(c)| :: s[i] == EncodeChar(c)[i];
  }

  /** Six more bits of a number, from a byte that does not begin its encoding. */
  function Joined(high: nat, tail: u8): nat
    requires IsTail(tail)
  {
    high * 0x40 + (tail - 0x80)
  }

  lemma JoinedSplits(high: nat, tail: u8)
    requires IsTail(tail)
    ensures Joined(high, tail) / 0x40 == high && 0x80 + Joined(high, tail) % 0x40 == tail
    ensures Joined(high, tail) / 0x1000 == high / 0x40 && Joined(high, tail) / 0x4_0000 == high / 0x1000
  {
  }

  lemma OneByte(c: nat)
    requires c < 0x80
    ensures EncodeChar(c) == [c]
  {
  }

  lemma TwoBytes(a: u8, b: u8) returns (c: nat)
    requires 0xc2 <= a < 0xe0 && IsTail(b)
    ensures IsScalar(c) && EncodeChar(c) == [a, b]
  {
    c := Joined(a - 0xc0, b);
    JoinedSplits(a - 0xc0, b);
  }

  lemma ThreeBytes(a: u8, b: u8, d: u8) returns (c: nat)
    requires 0xe0 <= a < 0xf0 && SecondFits(a, b) && IsTail(d)
    ensures IsScalar(c) && EncodeChar(c) == [a, b, d]
  {
    var high := Joined(a - 0xe0, b);
    JoinedSplits(a - 0xe0, b);
    c := Joined(high, d);
    JoinedSplits(high, d);
  }

  lemma FourBytes(a: u8, b: u8, d: u8, e: u8) returns (c: nat)
    requires 0xf0 <= a < 0xf5 && SecondFits(a, b) && IsTail(d) && IsTail(e)
    ensures IsScalar(c) && EncodeChar(c) == [a, b, d, e]
  {
    var high := Joined(a - 0xf0, b);
    JoinedSplits(a - 0xf0, b);
    var middle := Joined(high, d);
    JoinedSplits(high, d);
    c := Joined(middle, e);
    JoinedSplits(middle, e);
  }

  /** The character a well-formed string begins with. */
  lemma DecodeChar(s: Text) returns (c: nat)
    requires CharWidth(s) > 0
    ensures IsScalar(c) && EncodeChar(c) == s[..CharWidth(s)]
  {
    hide EncodeChar;
    if s[0] < 0x80 {
      c := s[0];
      OneByte(c);
    } else if s[0] < 0xe0 {
      c := TwoBytes(s[0], s[1]);
    } else if s[0] < 0xf0 {
      c := ThreeBytes(s[0], s[1], s[2]);
    } else {
      c := FourBytes(s[0], s[1], s[2], s[3]);
    }
  }

  lemma {:induction false} EncodedIsUtf8(cs: seq<nat>)
    requires forall i: nat | i < |cs| :: IsScalar(cs[i])
    ensures Utf8(Encode(cs))
  {
    if cs == [] {
    } else {
      EncodedIsUtf8(cs[1..]);
      EncodedWidth(cs[0], Encode(cs[1..]));
      assert Encode(cs)[|EncodeChar(cs[0])|..] == Encode(cs[1..]);
    }
  }

  lemma {:induction false} Utf8IsEncoded(s: Text) returns (cs: seq<nat>)
    requires Utf8(s)
    ensures (forall i: nat | i < |cs| :: IsScalar(cs[i])) && Encode(cs) == s
  {
    if s == [] {
      cs := [];
    } else {
      var c := DecodeChar(s);
      var rest := Utf8IsEncoded(s[CharWidth(s)..]);
      cs := [c] + rest;
      assert cs[1..] == rest;
      assert s == s[..CharWidth(s)] + s[CharWidth(s)..];
    }
  }

  /** Text is exactly what encodes a series of characters. */
  lemma Utf8Exactly(s: Text)
    ensures Utf8(s) <==> exists cs: seq<nat> :: (forall i: nat | i < |cs| :: IsScalar(cs[i])) && Encode(cs) == s
  {
    if Utf8(s) {
      var cs := Utf8IsEncoded(s);
    }
    if cs: seq<nat> :| (forall i: nat | i < |cs| :: IsScalar(cs[i])) && Encode(cs) == s {
      EncodedIsUtf8(cs);
    }
  }

  lemma WidthOfPrefix(s: Text, i: nat)
    requires 0 < i <= |s| && CharWidth(s) > 0
    ensures CharWidth(s[..i]) == if i < CharWidth(s) then 0 else CharWidth(s)
    ensures forall j: nat | 0 < j < CharWidth(s) :: IsTail(s[j])
  {
  }

  /** A position is a character boundary exactly when the text can be cut there. */
  lemma {:induction false} BoundaryExactly(s: Text, i: nat)
    requires Utf8(s) && i <= |s|
    ensures CharBoundary(s, i) <==> Utf8(s[..i])
    decreases |s|
  {
    if i == 0 {
    } else {
      var w := CharWidth(s);
      WidthOfPrefix(s, i);
      if i >= w {
        var rest := s[w..];
        BoundaryExactly(rest, i - w);
        assert s[..i][w..] == rest[..i - w];
        if i == w && rest != [] {
          StartsChar(rest);
        }
      }
    }
  }

  // ---------- the iterator ----------

  function LineEnd(str: Text, i: nat): Option<nat>
    decreases |str| - i
  {
    if i >= |str| then None else if str[i] == NEWLINE then Some(i) else LineEnd(str, i + 1)
  }

  function NextItem(str: Text, index: nat): Step {
    if index == |str| then Finished
    else
      match LineEnd(str, index)
      case None => Panicked
      case Some(end) =>
        LineEndFound(str, index);
        ReadLine(str[index..end], end + 1)
  }

  /** What a line without its newline leads to: invalid text or digits end the iteration. */
  function ReadLine(data: Text, next: nat): Step {
    if !Utf8(data) then Finished
    else if |data| < 19 || !CharBoundary(data, 16) || !CharBoundary(data, 19) then Panicked
    else
      match FromStrRadix16(data[..16])
      case None => Finished
      case Some(addr) => Yield(Item(addr, data[19..]), next)
  }

  /** What a line leads to, in terms of the text before its two cuts. */
  lemma LineIs(data: Text, next: nat)
    ensures ReadLine(data, next) == Panicked <==>
            Utf8(data) && (|data| < 19 || !Utf8(data[..16]) || !Utf8(data[..19]))
    ensures ReadLine(data, next).Yield? ==>
              FromStrRadix16(data[..16]) == Some(ReadLine(data, next).item.addr) &&
              ReadLine(data, next).item.name == data[19..] && ReadLine(data, next).next == next
    ensures ReadLine(data, next) == Finished ==> !Utf8(data) || FromStrRadix16(data[..16]) == None
  {
    hide Utf8, CharBoundary, FromStrRadix16;
    if Utf8(data) && |data| >= 19 {
      BoundaryExactly(data, 16);
      BoundaryExactly(data, 19);
    }
  }

  lemma {:induction false} LineEndFound(str: Text, i: nat)
    requires LineEnd(str, i).Some?
    ensures i <= LineEnd(str, i).value < |str| && str[LineEnd(str, i).value] == NEWLINE
    decreases |str| - i
  {
    if str[i] == NEWLINE {
    } else {
      LineEndFound(str, i + 1);
    }
  }

  lemma {:induction false} LineEndAt(str: Text, i: nat, end: nat)
    requires i <= end < |str| && str[end] == NEWLINE && forall j | i <= j < end :: str[j] != NEWLINE
    ensures LineEnd(str, i) == Some(end)
    decreases end - i
  {
    if i == end {
    } else {
      LineEndAt(str, i + 1, end);
    }
  }

  class SymbolMapIterator {
    var index: nat
    const str: Text

    constructor (str: Text)
      ensures this.str == str && index == 0
    {
      this.str := str;
      index := 0;
    }

    method Next() returns (r: Step)
      requires index <= |str|
      modifies this
      ensures r == NextItem(str, old(index))
      ensures index == if r.Yield? then r.next else old(index)
      ensures old(index) <= index <= |str| && (r.Yield? ==> old(index) < index)
    {
      if index == |str| {
        return Finished;
      }
      var idx := index;
      while idx < |str| && str[idx] != NEWLINE
        invariant index <= idx <= |str|
        invariant LineEnd(str, index) == LineEnd(str, idx)
      {
        idx := idx + 1;
      }
      if idx == |str| {
        return Panicked;
      }
      var data := str[index..idx];
      if !Utf8(data) {
        return Finished;
      }
      if |data| < 16 || !CharBoundary(data, 16) {
        return Panicked;
      }
      if |data| < 19 || !CharBoundary(data, 19) {
        return Panicked;
      }
      var addr := FromStrRadix16(data[..16]);
      if addr.None? {
        return Finished;
      }
      var name := data[19..];
      index := idx + 1;
      return Yield(Item(addr.value, name), index);
    }
  }

  // ---------- printing and parsing ----------

  datatype Symbol = Symbol(addr: u64, ty: u8, name: Text) {
    predicate OneLine() { ty != NEWLINE && NEWLINE !in name }
    predicate IsText() { ty < 128 && Utf8(name) }
    function ToItem(): Item { Item(addr, name) }
    function Start(): Text { Hex(addr, 16) + [SPACE] }
    function Data(): Text { Start() + ([ty, SPACE] + name) }
    function Line(): Text { Data() + [NEWLINE] }
  }

  /** A line of the map: sixteen digits, the type between spaces, the name, a newline. */
  lemma LineText(symbol: Symbol)
    ensures symbol.Line() ==
            Hex(symbol.addr, 16) + Ascii(" ") + [symbol.ty] + Ascii(" ") + symbol.name + Ascii("\n")
  {
  }

  function Print(symbols: seq<Symbol>): Text {
    if symbols == [] then [] else symbols[0].Line() + Print(symbols[1..])
  }

  function Items(symbols: seq<Symbol>): (items: seq<Item>)
    ensures |items| == |symbols| && forall i: nat | i < |items| :: items[i] == symbols[i].ToItem()
  {
    if symbols == [] then [] else [symbols[0].ToItem()] + Items(symbols[1..])
  }

  datatype Parsed = Parsed(items: seq<Item>, panicked: bool)

  /** What iterating the text yields, and whether it ends in a panic. */
  function Parse(str: Text, index: nat): Parsed
    requires index <= |str|
    decreases |str| - index
  {
    match NextItem(str, index)
    case Yield(item, next) =>
      LineEndFound(str, index);
      var rest := Parse(str, next);
      Parsed([item] + rest.items, rest.panicked)
    case Finished => Parsed([], false)
    case Panicked => Parsed([], true)
  }

  /** The data of a printed line is text exactly when its type letter and its name are. */
  lemma DataIsText(symbol: Symbol)
    ensures Utf8(symbol.Data()) <==> symbol.IsText()
  {
    var rest := [symbol.ty, SPACE] + symbol.name;
    forall i: nat | i < |symbol.Start()|
      ensures symbol.Start()[i] < 128
    {
      if i < 16 { HexHasNoMarks(symbol.addr, 16, i); }
    }
    AsciiPrefix(symbol.Start(), rest);
    if symbol.ty < 128 {
      AsciiPrefix([symbol.ty, SPACE], symbol.name);
    } else {
      assert rest[0] == symbol.ty && rest[1] == SPACE;
      assert CharWidth(rest) == 0;
    }
  }

  lemma ReadData(symbol: Symbol, next: nat)
    ensures ReadLine(symbol.Data(), next) == if symbol.IsText() then Yield(symbol.ToItem(), next) else Finished
  {
    hide Hex, FromStrRadix16, Utf8;
    var data := symbol.Data();
    DataIsText(symbol);
    assert data[..16] == Hex(symbol.addr, 16);
    assert data[16] == SPACE;
    assert data[19..] == symbol.name;
    if symbol.IsText() && symbol.name != [] {
      StartsChar(symbol.name);
      assert data[19] == symbol.name[0];
    }
    HexParses(symbol.addr);
  }

  lemma StartsChar(s: Text)
    requires Utf8(s) && s != []
    ensures !IsTail(s[0])
  {
  }

  /** A printed line, anywhere in a text, is read back as its symbol exactly when it is text. */
  lemma ParseLine(before: Text, symbol: Symbol, after: Text)
    requires symbol.OneLine()
    ensures NextItem(before + symbol.Line() + after, |before|) ==
            if symbol.IsText() then Yield(symbol.ToItem(), |before| + |symbol.Line()|) else Finished
  {
    hide Hex, ReadLine, Symbol.IsText;
    var str, data := before + symbol.Line() + after, symbol.Data();
    var end := |before| + |data|;
    forall j | |before| <= j < end
      ensures str[j] != NEWLINE
    {
      var k := j - |before|;
      assert str[j] == data[k];
      if k < 16 {
        HexHasNoMarks(symbol.addr, 16, k);
      } else if k >= 19 {
        assert data[k] == symbol.name[k - 19];
      }
    }
    assert str[end] == NEWLINE;
    LineEndAt(str, |before|, end);
    assert str[|before|..end] == data;
    ReadData(symbol, end + 1);
  }

  lemma EndOfText(str: Text)
    ensures NextItem(str + [], |str|) == Finished
  {
  }

  /** The symbols before the first one that is not text. */
  function TextPrefix(symbols: seq<Symbol>): seq<Symbol> {
    if symbols == [] || !symbols[0].IsText() then [] else [symbols[0]] + TextPrefix(symbols[1..])
  }

  lemma {:induction false} AllText(symbols: seq<Symbol>)
    ensures TextPrefix(symbols) == symbols <==> forall i: nat | i < |symbols| :: symbols[i].IsText()
    ensures TextPrefix(symbols) <= symbols
  {
    hide Symbol.IsText;
    if symbols == [] {
    } else {
      AllText(symbols[1..]);
      assert symbols == [symbols[0]] + symbols[1..];
    }
  }

  lemma ItemsDetermine(symbols: seq<Symbol>)
    ensures Items(TextPrefix(symbols)) == Items(symbols) <==> TextPrefix(symbols) == symbols
  {
    hide TextPrefix, Items;
    AllText(symbols);
    if Items(TextPrefix(symbols)) == Items(symbols) {
      assert |TextPrefix(symbols)| == |Items(symbols)| == |symbols|;
      assert TextPrefix(symbols) == symbols[..|symbols|];
    }
  }

  lemma {:induction false} ParseAfter(before: Text, symbols: seq<Symbol>)
    requires forall i: nat | i < |symbols| :: symbols[i].OneLine()
    ensures Parse(before + Print(symbols), |before|) == Parsed(Items(TextPrefix(symbols)), false)
    decreases |symbols|
  {
    hide NextItem, Symbol.Line, LineEnd, Symbol.IsText;
    if symbols == [] {
      EndOfText(before);
    } else {
      var first, rest := symbols[0], symbols[1..];
      ParseLine(before, first, Print(rest));
      assert before + Print(symbols) == before + first.Line() + Print(rest);
      if first.IsText() {
        ParseAfter(before + first.Line(), rest);
        assert TextPrefix(symbols)[1..] == TextPrefix(rest);
      }
    }
  }

  /**
   Printing a list of symbols and iterating the text gives back the list up to the first symbol that is
   not text, and ends normally: the whole list exactly when all of it is text.
   */
  lemma PrintThenParse(symbols: seq<Symbol>)
    requires forall i: nat | i < |symbols| :: symbols[i].OneLine()
    ensures Parse(Print(symbols), 0) == Parsed(Items(TextPrefix(symbols)), false)
    ensures Parse(Print(symbols), 0).items == Items(symbols) <==> forall i: nat | i < |symbols| :: symbols[i].IsText()
  {
    hide Parse, Symbol.IsText, Print, TextPrefix, Items;
    ParseAfter([], symbols);
    assert [] + Print(symbols) == Print(symbols);
    AllText(symbols);
    ItemsDetermine(symbols);
  }

  // ---------- lookup ----------

  /** The lookup loop on the text from `index` on, with the best name so far. */
  function Scan(str: Text, index: nat, ip: nat, best: Text): Lookup
    requires index <= |str|
    decreases |str| - index
  {
    match NextItem(str, index)
    case Finished => Found(best)
    case Panicked => LookupPanicked
    case Yield(item, next) =>
      LineEndFound(str, index);
      if item.addr > ip then Found(best)
      else Scan(str, next, ip, if item.addr != 0 then item.name else best)
  }

  /** The same loop on a list of items. */
  function ScanItems(items: seq<Item>, ip: nat, best: Text): Text {
    if items == [] || items[0].addr > ip then best
    else ScanItems(items[1..], ip, if items[0].addr != 0 then items[0].name else best)
  }

  predicate NoneAbove(items: seq<Item>, ip: nat) {
    forall i: nat | i < |items| :: items[i].addr <= ip
  }

  /** The loop reaches a panic only if no item before it ends the loop; otherwise it sees the items alone. */
  lemma {:induction false} ScanIsItems(str: Text, index: nat, ip: nat, best: Text)
    requires index <= |str|
    ensures var parsed := Parse(str, index);
            Scan(str, index, ip, best) ==
            if parsed.panicked && NoneAbove(parsed.items, ip) then LookupPanicked
            else Found(ScanItems(parsed.items, ip, best))
    decreases |str| - index
  {
    hide NextItem;
    match NextItem(str, index)
    case Finished =>
    case Panicked =>
    case Yield(item, next) =>
      NextInside(str, index);
      var rest := Parse(str, next).items;
      assert ([item] + rest)[1..] == rest;
      if item.addr <= ip {
        ScanIsItems(str, next, ip, if item.addr != 0 then item.name else best);
        assert NoneAbove([item] + rest, ip) <==> NoneAbove(rest, ip);
      }
  }

  lemma NextInside(str: Text, index: nat)
    requires index <= |str|
    ensures NextItem(str, index).Yield? ==> index < NextItem(str, index).next <= |str|
  {
    if LineEnd(str, index).Some? { LineEndFound(str, index); }
  }

  /** A full scan: the name of the last item with a nonzero address not above ip. */
  function LastAtOrBelow(items: seq<Item>, ip: nat, none: Text): Text {
    if items == [] then none
    else
      var last := items[|items| - 1];
      if 0 < last.addr <= ip then last.name else LastAtOrBelow(items[..|items| - 1], ip, none)
  }

  predicate Ascending(items: seq<Item>) {
    forall i: nat, j: nat | i < j < |items| :: items[i].addr <= items[j].addr
  }

  lemma {:induction false} LastAfterHead(items: seq<Item>, ip: nat, none: Text)
    requires items != []
    ensures LastAtOrBelow(items, ip, none) ==
            LastAtOrBelow(items[1..], ip, if 0 < items[0].addr <= ip then items[0].name else none)
    decreases |items|
  {
    var k := |items| - 1;
    if k == 0 {
    } else {
      LastAfterHead(items[..k], ip, none);
      assert items[..k][1..] == items[1..][..k - 1];
    }
  }

  lemma {:induction false} NothingBelow(items: seq<Item>, ip: nat, none: Text)
    requires forall i: nat | i < |items| :: !(0 < items[i].addr <= ip)
    ensures LastAtOrBelow(items, ip, none) == none
  {
    if items == [] {
    } else {
      NothingBelow(items[..|items| - 1], ip, none);
    }
  }

  /** On ascending addresses, leaving the loop early loses nothing. */
  lemma {:induction false} EarlyExitIsFullScan(items: seq<Item>, ip: nat, best: Text)
    requires Ascending(items)
    ensures ScanItems(items, ip, best) == LastAtOrBelow(items, ip, best)
  {
    if items != [] {
      if items[0].addr > ip {
        NothingBelow(items, ip, best);
      } else {
        LastAfterHead(items, ip, best);
        EarlyExitIsFullScan(items[1..], ip, if items[0].addr != 0 then items[0].name else best);
      }
    }
  }

  /** How many items come before the first one above ip. */
  function BeforeAbove(items: seq<Item>, ip: nat): (n: nat)
    ensures n <= |items|
  {
    if items == [] || items[0].addr > ip then 0 else 1 + BeforeAbove(items[1..], ip)
  }

  /** On any list the loop is a full scan of the items before the first one above ip. */
  lemma {:induction false} EarlyExit(items: seq<Item>, ip: nat, best: Text)
    ensures ScanItems(items, ip, best) == LastAtOrBelow(items[..BeforeAbove(items, ip)], ip, best)
  {
    if items == [] || items[0].addr > ip {
    } else {
      var seen := items[..BeforeAbove(items, ip)];
      EarlyExit(items[1..], ip, if items[0].addr != 0 then items[0].name else best);
      LastAfterHead(seen, ip, best);
      assert seen[1..] == items[1..][..BeforeAbove(items[1..], ip)];
    }
  }

  /**
   Looks an address up. Whenever the items are in ascending order, as the map must be, the name found is
   that of the last symbol at or below the address.
   */
  method GetSymbolName(symbolMap: Option<Text>, ip: nat) returns (r: Lookup)
    ensures symbolMap.None? ==> r == Found(Ascii("<no symbols>"))
    ensures symbolMap.Some? ==>
              var parsed := Parse(symbolMap.value, 0);
              && (r == LookupPanicked <==> parsed.panicked && NoneAbove(parsed.items, ip))
              && (r.Found? ==>
                    r.name == LastAtOrBelow(parsed.items[..BeforeAbove(parsed.items, ip)], ip, Ascii("<unknown>")))
              && (r.Found? && Ascending(parsed.items) ==> r.name == LastAtOrBelow(parsed.items, ip, Ascii("<unknown>")))
  {
    hide NextItem, Parse, LastAtOrBelow, BeforeAbove, Ascending;
    if symbolMap.None? {
      return Found(Ascii("<no symbols>"));
    }
    ghost var parsed := Parse(symbolMap.value, 0);
    ScanIsItems(symbolMap.value, 0, ip, Ascii("<unknown>"));
    EarlyExit(parsed.items, ip, Ascii("<unknown>"));
    if Ascending(parsed.items) {
      EarlyExitIsFullScan(parsed.items, ip, Ascii("<unknown>"));
    }
    var iter := new SymbolMapIterator(symbolMap.value);
    var symName := Ascii("<unknown>");
    while true
      invariant fresh(iter) && iter.str == symbolMap.value && iter.index <= |symbolMap.value|
      invariant Scan(symbolMap.value, 0, ip, Ascii("<unknown>")) == Scan(symbolMap.value, iter.index, ip, symName)
      decreases |symbolMap.value| - iter.index
    {
      var step := iter.Next();
      match step {
        case Finished => return Found(symName);
        case Panicked => return LookupPanicked;
        case Yield(item, _) =>
          if item.addr > ip {
            return Found(symName);
          } else if item.addr != 0 {
            symName := item.name;
          }
      }
    }
  }

  /** Looking an address up in a printed map with ascending addresses. */
  method LookupPrinted(symbols: seq<Symbol>, ip: nat) returns (r: Lookup)
    requires forall i: nat | i < |symbols| :: symbols[i].OneLine() && symbols[i].IsText()
    requires forall i: nat, j: nat | i < j < |symbols| :: symbols[i].addr <= symbols[j].addr
    ensures r == Found(LastAtOrBelow(Items(symbols), ip, Ascii("<unknown>")))
  {
    hide Parse, LastAtOrBelow, Print, Items, Symbol.IsText, BeforeAbove;
    PrintThenParse(symbols);
    r := GetSymbolName(Some(Print(symbols)), ip);
  }

  /** What the full scan returns, by position. */
  lemma {:induction false} LastAtOrBelowIs(items: seq<Item>, ip: nat, none: Text, i: nat)
    requires i < |items| && 0 < items[i].addr <= ip
    requires forall j: nat | i < j < |items| :: !(0 < items[j].addr <= ip)
    ensures LastAtOrBelow(items, ip, none) == items[i].name
    decreases |items|
  {
    if i == |items| - 1 {
    } else {
      LastAtOrBelowIs(items[..|items| - 1], ip, none, i);
    }
  }
}
