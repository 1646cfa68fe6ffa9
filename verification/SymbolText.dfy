/** The text of a symbol map file and what it stands for
    (the grammar of kernel/kernel/symbol.c). */
module SymbolText {
  import opened Memory
  import opened CStrings
  import opened NumberText
  import opened Hexadecimal
  import opened Powers
  import opened Wrappers

  const SYMBOL_MAX_LEN: nat := 96
  const MAX_HEX: nat := 8  // 2 * sizeof of an address or a length

  datatype Symbol = Symbol(name: string, addr: Address, len: Address)

  // What parse_line makes of a line: atoh aborts on what is not hexadecimal.
  datatype Line = Good(sym: Symbol) | Bad | Panic

  // --------------------------------------------------------------------------
  // One line

  function LineOf(line: string): Line {
    var a := First(line, 0, ' ');
    if a == |line| || a == 0 || a >= SYMBOL_MAX_LEN then Bad
    else AfterName(line[..a], line[a + 1..])
  }

  function AfterName(name: string, rest: string): Line {
    var b := First(rest, 0, ' ');
    if b == |rest| then Bad else AfterType(name, rest[b + 1..])
  }

  function AfterType(name: string, rest: string): Line {
    var c := First(rest, 0, ' ');
    if c == |rest| || c > MAX_HEX then Bad
    else
      match Read(0, rest[..c])
      case Abort => Panic
      case Parsed(addr) => AfterAddr(name, addr, rest[c + 1..])
  }

  function AfterAddr(name: string, addr: Address, rest: string): Line {
    if |rest| > MAX_HEX then Bad
    else
      match Read(0, rest)
      case Abort => Panic
      case Parsed(len) => Good(Symbol(name, addr, len))
  }

  /** The line has the four fields of the grammar, each within its bounds. */
  predicate Grammar(line: string, name: string, kind: string, addr: string, len: string) {
    && line == name + " " + kind + " " + addr + " " + len
    && ' ' !in name && ' ' !in kind && 0 < |name| < 96
    && |addr| <= 8 && AllDigits(addr) && |len| <= 8 && AllDigits(len)
  }

  lemma FirstIs(left: string, c: char, right: string)
    requires c !in left
    ensures var s := left + [c] + right;
      First(s, 0, c) == |left| && s[..|left|] == left && s[|left| + 1..] == right
  {
    var s := left + [c] + right;
    assert forall j :: 0 <= j < |left| ==> s[j] == left[j];
    assert s[|left|] == c;
  }

  /** Every line of the grammar is accepted, and means what its fields say. */
  lemma GrammarIsAccepted(line: string, name: string, kind: string, addr: string, len: string)
    requires Grammar(line, name, kind, addr, len)
    ensures LineOf(line).Good? && LineOf(line).sym.name == name
    ensures LineOf(line).sym.addr == Value(addr, 16) && LineOf(line).sym.len == Value(len, 16)
  {
    hide Value;
    hide First;
    hide AllDigits;
    hide AfterType;
    var r2 := addr + [' '] + len;
    var r1 := kind + [' '] + r2;
    Fields(name, kind, addr, len);
    FirstIs(name, ' ', r1);
    FirstIs(kind, ' ', r2);
    NumbersAreAccepted(name, addr, len);
  }

  lemma NumbersAreAccepted(name: string, addr: string, len: string)
    requires |addr| <= MAX_HEX && AllDigits(addr) && |len| <= MAX_HEX && AllDigits(len)
    ensures var line := AfterType(name, addr + [' '] + len);
      line.Good? && line.sym.name == name && line.sym.addr == Value(addr, 16) && line.sym.len == Value(len, 16)
  {
    hide Read;
    hide Value;
    hide First;
    NoSpace(addr);
    hide AllDigits;
    FirstIs(addr, ' ', len);
    ShortValue(addr);
    ShortValue(len);
  }

  lemma NoSpace(s: string)
    requires AllDigits(s)
    ensures ' ' !in s
  {
  }

  lemma AcceptedNumbers(name: string, rest: string) returns (addr: string, len: string)
    requires AfterType(name, rest).Good?
    ensures rest == addr + [' '] + len
    ensures |addr| <= MAX_HEX && AllDigits(addr) && |len| <= MAX_HEX && AllDigits(len)
  {
    hide Read;
    hide First;
    hide AllDigits;
    addr, len := CutAtFirst(rest, ' ');
    ReadMeans(addr);
    ReadMeans(len);
  }

  /** Nothing else is accepted. */
  lemma AcceptedIsGrammar(line: string) returns (name: string, kind: string, addr: string, len: string)
    requires LineOf(line).Good?
    ensures Grammar(line, name, kind, addr, len)
  {
    hide First;
    hide AfterType;
    hide AllDigits;
    var r1, r2;
    name, r1 := CutAtFirst(line, ' ');
    kind, r2 := CutAtFirst(r1, ' ');
    addr, len := AcceptedNumbers(name, r2);
    Fields(name, kind, addr, len);
  }

  /** The line has the fields in their bounds, but one of the numbers has a
      character that is no digit. */
  predicate ForeignDigit(line: string, name: string, kind: string, addr: string, rest: string) {
    && line == name + " " + kind + " " + addr + " " + rest
    && ' ' !in name && ' ' !in kind && ' ' !in addr && 0 < |name| < 96 && |addr| <= 8
    && (!AllDigits(addr) || (|rest| <= 8 && !AllDigits(rest)))
  }

  /** Those are the lines that make atoh abort; all others are refused. */
  lemma PanicIsForeignDigit(line: string)
    ensures LineOf(line).Panic? <==> exists name, kind, addr, rest :: ForeignDigit(line, name, kind, addr, rest)
  {
    hide AfterType;
    hide AllDigits;
    if LineOf(line).Panic? {
      var name, r1 := CutAtFirst(line, ' ');
      var kind, r2 := CutAtFirst(r1, ' ');
      var addr, rest := ForeignNumbers(name, r2);
      Fields(name, kind, addr, rest);
      assert ForeignDigit(line, name, kind, addr, rest);
    }
    if name, kind, addr, rest :| ForeignDigit(line, name, kind, addr, rest) {
      Fields(name, kind, addr, rest);
      FirstIs(name, ' ', kind + [' '] + (addr + [' '] + rest));
      FirstIs(kind, ' ', addr + [' '] + rest);
      NumbersPanic(name, addr, rest);
    }
  }

  lemma ForeignNumbers(name: string, text: string) returns (addr: string, rest: string)
    requires AfterType(name, text).Panic?
    ensures text == addr + [' '] + rest && ' ' !in addr && |addr| <= 8
    ensures !AllDigits(addr) || (|rest| <= 8 && !AllDigits(rest))
  {
    hide Read;
    hide First;
    hide AllDigits;
    addr, rest := CutAtFirst(text, ' ');
    ReadMeans(addr);
    ReadMeans(rest);
  }

  lemma NumbersPanic(name: string, addr: string, rest: string)
    requires ' ' !in addr && |addr| <= 8 && (!AllDigits(addr) || (|rest| <= 8 && !AllDigits(rest)))
    ensures AfterType(name, addr + [' '] + rest).Panic?
  {
    hide Read;
    hide First;
    hide AllDigits;
    FirstIs(addr, ' ', rest);
    ReadMeans(addr);
    ReadMeans(rest);
  }

  lemma CutAtFirst(s: string, c: char) returns (left: string, right: string)
    requires First(s, 0, c) < |s|
    ensures s == left + [c] + right && c !in left
    ensures left == s[..First(s, 0, c)] && right == s[First(s, 0, c) + 1..]
  {
    var k := First(s, 0, c);
    left, right := s[..k], s[k + 1..];
  }

  lemma Fields(name: string, kind: string, addr: string, len: string)
    ensures name + [' '] + (kind + [' '] + (addr + [' '] + len)) == name + " " + kind + " " + addr + " " + len
  {
  }

  // --------------------------------------------------------------------------
  // The file

  /** The lines of the n bytes at the start of a string, without their line
      feeds.  The last one may end beyond the n bytes: only the terminator of
      the string stops the search for its line feed. */
  function Split(text: string, n: nat): (r: Option<seq<string>>)
    ensures r.Some? && n > 0 ==> |r.value| > 0
    decreases n
  {
    if n == 0 then Some([])
    else
      var k := First(text, 0, '\n');
      if k == |text| then None
      else
        match Split(text[k + 1..], if n <= k + 1 then 0 else n - (k + 1))
        case None => None
        case Some(lines) => Some([text[..k]] + lines)
  }

  /** The first line, and what is left. */
  lemma SplitStep(text: string, n: nat)
    requires n > 0
    ensures var k := First(text, 0, '\n');
      Split(text, n) ==
      if k == |text| then None
      else
        match Split(text[k + 1..], if n <= k + 1 then 0 else n - (k + 1))
        case None => None
        case Some(lines) => Some([text[..k]] + lines)
  {
    hide First;
  }

  function Join(lines: seq<string>): string {
    if lines == [] then "" else lines[0] + "\n" + Join(lines[1..])
  }

  /** A file that ends with a line feed is split into its lines, whatever comes
      after it in memory. */
  lemma {:induction false} SplitInvertsJoin(lines: seq<string>, beyond: string)
    requires forall i :: 0 <= i < |lines| ==> '\n' !in lines[i]
    ensures Split(Join(lines) + beyond, |Join(lines)|) == Some(lines)
    decreases |lines|
  {
    hide First;
    if lines != [] {
      var rest := Join(lines[1..]) + beyond;
      JoinFirst(lines, beyond);
      FirstIs(lines[0], '\n', rest);
      SplitInvertsJoin(lines[1..], beyond);
      hide Join;
      assert [lines[0]] + lines[1..] == lines;
    }
  }

  lemma JoinFirst(lines: seq<string>, beyond: string)
    requires lines != []
    ensures Join(lines) + beyond == lines[0] + ['\n'] + (Join(lines[1..]) + beyond)
    ensures |Join(lines)| == |lines[0]| + 1 + |Join(lines[1..])|
  {
    var first, rest := lines[0] + ['\n'], Join(lines[1..]);
    assert Join(lines) == first + rest;
    assert first + rest + beyond == first + (rest + beyond);
  }

  /** A missing last line feed is an error only when none follows the file in
      memory: the search for it does not stop at the end of the file. */
  lemma {:induction false} MissingLineFeed(file: string, beyond: string)
    requires file != "" && file[|file| - 1] != '\n'
    ensures Split(file + beyond, |file|).Some? <==> '\n' in beyond
    decreases |file|
  {
    var text := file + beyond;
    var k := First(text, 0, '\n');
    if k < |file| {
      assert text[k] == file[k];
      assert text[k + 1..] == file[k + 1..] + beyond;
      MissingLineFeed(file[k + 1..], beyond);
    } else {
      assert forall j :: 0 <= j < |beyond| ==> beyond[j] == text[|file| + j];
      assert k < |text| ==> text[k] == beyond[k - |file|];
    }
  }

  // --------------------------------------------------------------------------
  // The symbols

  datatype Outcome = Symbols(syms: seq<Symbol>) | Failed | Panicked

  /** The lines one after the other: the first one that is not good decides. */
  function SymbolsOf(lines: seq<string>): (r: Outcome)
    ensures r.Symbols? ==> |r.syms| == |lines|
  {
    if lines == [] then Symbols([])
    else
      match SymbolsOf(lines[..|lines| - 1])
      case Failed => Failed
      case Panicked => Panicked
      case Symbols(syms) =>
        match LineOf(lines[|lines| - 1])
        case Bad => Failed
        case Panic => Panicked
        case Good(sym) => Symbols(syms + [sym])
  }

  /** Line i is the first one that is not good. */
  ghost predicate StopsAt(lines: seq<string>, i: int) {
    0 <= i < |lines| && !LineOf(lines[i]).Good? && forall k :: 0 <= k < i ==> LineOf(lines[k]).Good?
  }

  ghost predicate AllGood(lines: seq<string>) {
    forall i :: 0 <= i < |lines| ==> LineOf(lines[i]).Good?
  }

  lemma StopsOnce(lines: seq<string>, i: int)
    requires StopsAt(lines, i)
    ensures !AllGood(lines) && forall k :: StopsAt(lines, k) ==> k == i
  {
    hide LineOf;
  }

  /** All lines good, and then symbol by symbol. */
  lemma {:induction false} SymbolsEach(lines: seq<string>)
    ensures SymbolsOf(lines).Symbols? <==> forall i :: 0 <= i < |lines| ==> LineOf(lines[i]).Good?
    ensures SymbolsOf(lines).Symbols? ==>
              forall i :: 0 <= i < |lines| ==> Good(SymbolsOf(lines).syms[i]) == LineOf(lines[i])
    decreases |lines|
  {
    hide LineOf;
    if lines != [] {
      SymbolsEach(lines[..|lines| - 1]);
    }
  }

  /** A 32-bit difference. */
  function Gap(from: Address, to: Address): Address {
    if from <= to then to - from else to + ADDRESS_SPACE - from
  }

  /** Every length but the last is the gap to the next symbol. */
  function WithGaps(syms: seq<Symbol>): (r: seq<Symbol>)
    ensures |r| == |syms|
  {
    seq(|syms|, i requires 0 <= i < |syms| =>
      if i + 1 < |syms| then syms[i].(len := Gap(syms[i].addr, syms[i + 1].addr)) else syms[i])
  }

  /** One more symbol closes the gap of the one before it. */
  lemma GapsMore(syms: seq<Symbol>, sym: Symbol)
    ensures WithGaps(syms + [sym]) ==
            (if syms == [] then [] else
               var last := syms[|syms| - 1];
               WithGaps(syms)[..|syms| - 1] + [last.(len := Gap(last.addr, sym.addr))]) + [sym]
  {
  }

  // --------------------------------------------------------------------------
  // Writing a map, and reading it back

  // The length field of a line may be empty.
  datatype Entry = Entry(name: string, kind: string, addr: Address, len: Option<Address>)

  predicate Writable(e: Entry) {
    && 0 < |e.name| < SYMBOL_MAX_LEN
    && (forall c <- e.name + e.kind :: c != ' ' && c != '\n' && c != NUL)
  }

  function Write(e: Entry, small: bool): string {
    e.name + " " + e.kind + " " + Digits(e.addr, 16, small) + " " +
    match e.len case None => "" case Some(n) => Digits(n, 16, small)
  }

  function WriteAll(es: seq<Entry>, small: bool): (lines: seq<string>)
    ensures |lines| == |es|
  {
    seq(|es|, i requires 0 <= i < |es| => Write(es[i], small))
  }

  function Meant(e: Entry): Symbol {
    Symbol(e.name, e.addr, if e.len.Some? then e.len.value else 0)
  }

  lemma HexDigits(n: Address, small: bool)
    ensures var s := Digits(n, 16, small);
      && |s| <= MAX_HEX && AllDigits(s) && Value(s, 16) == n && (forall c <- s :: c != ' ' && c != '\n' && c != NUL)
  {
    Constants();
    HexLength(n, small, 8);
    DigitsMean(n, 16, small);
    hide Digits;
  }

  lemma WriteIsRead(e: Entry, small: bool)
    requires Writable(e)
    ensures LineOf(Write(e, small)) == Good(Meant(e))
    ensures '\n' !in Write(e, small) && NUL !in Write(e, small)
  {
    hide Digits;
    hide AllDigits;
    hide Value;
    hide LineOf;
    var a := Digits(e.addr, 16, small);
    var l := if e.len.Some? then Digits(e.len.value, 16, small) else "";
    HexDigits(e.addr, small);
    if e.len.Some? {
      HexDigits(e.len.value, small);
    } else {
      NothingWritten16();
    }
    assert Write(e, small) == e.name + " " + e.kind + " " + a + " " + l;
    OnlySuch(e, a, l);
    GrammarIsAccepted(Write(e, small), e.name, e.kind, a, l);
  }

  lemma NothingWritten16()
    ensures AllDigits("") && Value("", 16) == 0
  {
  }

  lemma OnlySuch(e: Entry, a: string, l: string)
    requires Writable(e) && '\n' !in a && '\n' !in l && NUL !in a && NUL !in l
    ensures ' ' !in e.name && ' ' !in e.kind
    ensures var line := e.name + " " + e.kind + " " + a + " " + l; '\n' !in line && NUL !in line
  {
    assert forall c <- e.name :: c in e.name + e.kind;
    assert forall c <- e.kind :: c in e.name + e.kind;
  }

  /** Main result for the text: a written map is split into its lines and gives
      its symbols, in order, with whatever bytes after it in memory. */
  lemma MapIsRead(es: seq<Entry>, small: bool, beyond: string)
    requires forall i :: 0 <= i < |es| ==> Writable(es[i])
    ensures var lines := WriteAll(es, small);
      && Split(Join(lines) + beyond, |Join(lines)|) == Some(lines)
      && SymbolsOf(lines).Symbols?
      && forall i :: 0 <= i < |es| ==> SymbolsOf(lines).syms[i] == Meant(es[i])
  {
    hide Write;
    hide LineOf;
    var lines := WriteAll(es, small);
    forall i | 0 <= i < |es|
      ensures LineOf(lines[i]) == Good(Meant(es[i])) && '\n' !in lines[i]
    {
      WriteIsRead(es[i], small);
    }
    SplitInvertsJoin(lines, beyond);
    SymbolsEach(lines);
    forall i | 0 <= i < |es|
      ensures SymbolsOf(lines).syms[i] == Meant(es[i])
    {
      assert Good(SymbolsOf(lines).syms[i]) == LineOf(lines[i]);
    }
  }

  // --------------------------------------------------------------------------
  // Looking up an address

  /** How many symbols the scan passes: up to the first one above addr. */
  function Passed(syms: seq<Symbol>, addr: Address): (k: nat)
    ensures k <= |syms|
    ensures forall i :: 0 <= i < k ==> syms[i].addr <= addr
    ensures k < |syms| ==> syms[k].addr > addr
  {
    if syms == [] || syms[0].addr > addr then 0 else 1 + Passed(syms[1..], addr)
  }

  /** The range of a symbol covers an address; a symbol without length covers
      everything.  The end of the range is a 32-bit sum. */
  predicate Covers(sym: Symbol, addr: Address) {
    sym.len == 0 || sym.addr <= addr < Sum32(sym.addr, sym.len)
  }

  function Found(syms: seq<Symbol>, addr: Address): Option<Symbol> {
    var k := Passed(syms, addr);
    if k == 0 || !Covers(syms[k - 1], addr) then None else Some(syms[k - 1])
  }

  predicate Sorted(syms: seq<Symbol>) {
    forall i, j :: 0 <= i < j < |syms| ==> syms[i].addr <= syms[j].addr
  }

  lemma PassedIs(syms: seq<Symbol>, addr: Address, k: nat)
    requires k <= |syms|
    requires forall j :: 0 <= j < k ==> syms[j].addr <= addr
    requires k < |syms| ==> addr < syms[k].addr
    ensures Passed(syms, addr) == k
  {
    assert forall j :: 0 <= j < Passed(syms, addr) ==> syms[j].addr <= addr;
  }

  /** A gap covers exactly what lies before the next symbol; a length of its own
      covers as far as it goes, unless it wraps. */
  lemma CoversIs(sym: Symbol, next: Address, addr: Address)
    requires sym.addr <= addr
    ensures addr < next ==> Covers(sym.(len := Gap(sym.addr, next)), addr)
    ensures Covers(sym, addr) <==> sym.len == 0 || addr < sym.addr + sym.len < ADDRESS_SPACE
  {
  }

  /** On a sorted map whose lengths are the gaps, the symbol found is the last
      one at or below the address.  Nothing is found below the first symbol, and
      beyond the last one only as far as its own length goes; that range is lost
      altogether when it reaches the end of the address space. */
  lemma FoundIsLastBelow(raw: seq<Symbol>, addr: Address, i: nat)
    requires Sorted(raw) && i < |raw|
    requires raw[i].addr <= addr && (i + 1 < |raw| ==> addr < raw[i + 1].addr)
    ensures Found(WithGaps(raw), addr) ==
            if i + 1 < |raw| || raw[i].len == 0 || addr < raw[i].addr + raw[i].len < ADDRESS_SPACE
            then Some(WithGaps(raw)[i]) else None
  {
    hide Passed;
    hide Covers;
    hide Gap;
    var syms := WithGaps(raw);
    forall j | 0 <= j <= i
      ensures syms[j].addr <= addr
    {
    }
    PassedIs(syms, addr, i + 1);
    CoversIs(raw[i], if i + 1 < |raw| then raw[i + 1].addr else 0, addr);
  }

  lemma NothingBelowFirst(raw: seq<Symbol>, addr: Address)
    requires raw == [] || addr < raw[0].addr
    ensures Found(WithGaps(raw), addr) == None
  {
  }

  lemma GapAt(syms: seq<Symbol>, i: nat)
    requires i < |syms|
    ensures WithGaps(syms)[i] ==
            if i + 1 < |syms| then syms[i].(len := Gap(syms[i].addr, syms[i + 1].addr)) else syms[i]
  {
  }

  /** What a written map answers for an address from symbol i up to the next one:
      the symbol, whose length is the gap; the last one only within its range. */
  function Answer(es: seq<Entry>, i: nat, addr: Address): Option<Symbol>
    requires i < |es| && (i + 1 < |es| ==> es[i].addr <= es[i + 1].addr)
  {
    var len := if es[i].len.Some? then es[i].len.value else 0;
    if i + 1 < |es| then Some(Symbol(es[i].name, es[i].addr, es[i + 1].addr - es[i].addr))
    else if len == 0 || addr < es[i].addr + len < 0x1_0000_0000 then Some(Symbol(es[i].name, es[i].addr, len))
    else None
  }

  /** The whole way, from the file to the answer: the symbols of a sorted map
      that was written with this grammar are found by address. */
  lemma WrittenMapFinds(es: seq<Entry>, small: bool, beyond: string, addr: Address, i: nat)
    requires forall k :: 0 <= k < |es| ==> Writable(es[k])
    requires forall j, k :: 0 <= j < k < |es| ==> es[j].addr <= es[k].addr
    requires i < |es| && es[i].addr <= addr && (i + 1 < |es| ==> addr < es[i + 1].addr)
    ensures var lines := WriteAll(es, small);
      && Split(Join(lines) + beyond, |Join(lines)|) == Some(lines) && SymbolsOf(lines).Symbols?
      && Found(WithGaps(SymbolsOf(lines).syms), addr) == Answer(es, i, addr)
  {
    hide SymbolsOf;
    hide Split;
    hide Found;
    hide WithGaps;
    hide WriteAll;
    hide Join;
    MapIsRead(es, small, beyond);
    GapAt(SymbolsOf(WriteAll(es, small)).syms, i);
    FoundIsLastBelow(SymbolsOf(WriteAll(es, small)).syms, addr, i);
  }
}
